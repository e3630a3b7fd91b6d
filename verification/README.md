# Package policy: a verified model

One policy file (`policy.toml`) says which npm and PyPI packages a registry may serve. A service compiles
it into two different target languages: a block-list that the Verdaccio filter plugin reads, and an allow-list of
PEP 440 constraints that the devpi index plugin reads. It answers malicious-package questions from OSV through
several caches, and it delivers every new policy to the registries. This project models that system in Dafny
and proves what the translations, the caches, the protocols and the delivery are for.

| file | what it models |
|---|---|
| `Base`, `Text`, `OrderedMap` | option and result types, Python strings, dictionaries with insertion order |
| `Versions`, `Pep440` | semantic version order, padded releases, comparators, `complement`, `complement_set_is_empty` |
| `Names`, `Rules` | name normalization, the rules and the buckets `_classify` files them into |
| `Duration` | the ISO 8601 pattern, and the minimum age as its three readers take it |
| `NpmCompiler`, `NpmFilter`, `Yaml`, `NpmDocument`, `NpmEmit` | the npm half: resolving, printing, reading back, blocking |
| `PypiCompiler`, `Devpi` | the pypi half: planning, printing, `parse_constraints`, admitting |
| `Compile`, `EndToEnd` | `compile_policy`, rule order, and the chain from rules to what the registries answer |
| `Adapters`, `Acceptance` | the two adapters of the service, their instance on plain versions, the empty-set guard on rules, and which policies compile |
| `OsvRecords`, `OsvQuery`, `VerdictCache`, `Decide`, `BatchProtocol` | the OSV decision engine of the policy service |
| `NpmOsv`, `DevpiFilter` | the filter plugin's OSV client; devpi listing, download and its OSV cache |
| `Delivery`, `Sync`, `Worker` | policy store and entity tags, policy loaders, one sync, retries, the sync worker |

Methods carry the source's loops and updates and are proved against functions; the lemmas are about those functions.
The state of a cache, a loader or the syncer is a class; the batching protocol and the worker are state machines over
the steps of their threads.

## Where the code does not do what one might expect

* Two exact allows of one npm package that pin different versions are compiled to `<a || >a` and `<b || >b`, and
  together these block everything. `NpmMeaning.TranslationMeaning` says that the emitted document means what the rules mean
  if and only if no two pins of the package differ; `NpmMeaning.ClashBlocksEverything` gives the other case.
* The compiler rejects a package allow whose only deny is a scope's, because a block-list cannot say it. When the
  package has a deny of its own beside the scope's, the same allow compiles and the scope deny still stands, against the
  documented "allow wins". The meaning used here counts a surviving scope deny as standing
  (`NpmMeaning.AllowedUnderScopeHasOwnDeny`, `NpmMeaning.AllowWinsBelowScopes`).
* The filter accepts a compiled document if and only if no name in it is blank and it can read the minimum age and every
  range (`NpmEmit.FilterAcceptsIff`). What policy-sync checks falls short of that: the rule that denies the name `" "`
  compiles, and the filter then rejects the whole document (`Adapters.BlankRuleFailsClosed`, and
  `NpmEmit.BlankNameFailsClosed` for any standing deny of the blank name).
* The three readers of the minimum age are meant to accept the same settings (`docs/policy-spec/min-age-vectors.json`).
  devpi and policy-sync do, but for the empty setting (`MinAge.DevpiAgrees`). The filter reads a setting that policy-sync
  accepted if and only if it is ASCII and its milliseconds are finite (`MinAge.SettingIsRead`); on raw text the two ways
  of trimming must agree as well (`MinAge.ReadersAgree`). Python's `\d` takes every decimal digit of Unicode and
  JavaScript's only the ASCII ones (`MinAge.EnginesDiffer`), so a setting such as `P3D` with an Arabic-Indic three is
  accepted, compiles under any rules, and the filter then rejects the document (`PlainAdapters.ForeignDigitFailsClosed`).
  The same goes for a number of days that is a one with 1024 zeros (`MinAge.LongSettingFails`).
* Npm package names are lower-cased in rules, namespaces are not, and the filter lower-cases nothing: a deny of one
  package blocks that very name if and only if normalizing keeps it (`Adapters.DenyBlocksItsOwnName`), a package whose
  published name normalizing changes is beyond every package rule (`Adapters.RewrittenNamesEscape`), and a namespace deny
  covers exactly its own spelling (`Adapters.NamespaceCoversItsSpelling`).
* A pypi package denied both whole and by range gets two lines, and devpi then rejects the whole text
  (`PypiMeaning.ConstraintsAccepted`, an equivalence).
* The line `==0` that stands for a denied project admits release 0 (`PypiMeaning.TranslationMeaning`, an equivalence).
* `complement_set_is_empty` compares release tuples without zero padding and keeps one comparator a side. On every list
  of one-sided comparators it is right if and only if the kept bounds do not hide how they meet
  (`Pep440.EmptyTestIsExact`): they are one release once padded, and either the upper tuple is the smaller although no
  comparator at that release is strict, or it is not, the bounds look inclusive, and some comparator there is strict.
  So denying `<1.0` with `>1` is refused although release 1 is allowed (`EmptySetGuard.SplitReleaseIsRefused`), and
  denying `<1` with `>=1.0` is accepted although nothing is left (`EmptySetGuard.HiddenEmptyIsAccepted`). On a list with
  any other comparator the test is silent: denying `<1`, `==1` and `>1` is accepted although nothing is left
  (`EmptySetGuard.EqualityHidesEmpty`; `EmptySetGuard.GuardVerdict` has the condition for every package).
* The filter plugin joins missed versions with commas to share requests: two lookups share one if and only if the texts
  between the commas agree (`NpmOsvClient.SameKeySamePieces`). A version that only the second lookup misses then goes
  unasked, and that lookup gets a complete answer that lets it through (`NpmOsvClient.CommaMixesLookups`; one comma is
  enough, `NpmOsvClient.OneCommaMixesLookups`).
* The same client keeps only ids, so a version that is blocked without ids looks clean in the cache: the fetched answer
  blocks it and the next one, from the cache, does not (`NpmOsvClient.BlockedWithoutIds`). On versions that never went
  unasked that is the only way a cached answer goes wrong (`NpmOsvClient.OsvDecisionClient.Begin`, an equivalence).
* A verdict cache that may hold no entry still loads the first one of its file (`VerdictCache.NoRoomLoadsOne`).

## Model

| member | source | states |
|---|---|---|
| SemverOrder.ComparePrerelease | policy-sync/policy_sync/osv.py:851-872 | the identifier loop returns the recursive prerelease order |
| SemverOrder.CompareIsTotalOrder | policy-sync/policy_sync/osv.py:840-872 | antisymmetric, transitive over mixed identifiers and unequal lengths, zero exactly on equal versions |
| SemverOrder.FirstDifferenceDecides | policy-sync/policy_sync/osv.py:859-872 | the first differing prerelease identifier decides the order |
| SemverOrder.PrecedenceMeaning | policy-sync/policy_sync/osv.py:840-872 | which way the order goes (section 11 of Semantic Versioning): a smaller core; at one core a prerelease before its release; else the first difference, a smaller number, a number before a text, a smaller text, or the shorter list |
| ReleaseOrder.CompareAntisymmetric | policy-sync/policy_sync/adapters.py:200-207 | padded release comparison changes sign when its sides are swapped |
| ReleaseOrder.CompareTransitive | policy-sync/policy_sync/adapters.py:200-207 | padded release comparison is transitive |
| ReleaseOrder.TupleOrderAtOneLength | policy-sync/policy_sync/adapters.py:272-290 | at one length, comparing bare tuples is comparing padded releases |
| ReleaseOrder.TupleOrderRefines | policy-sync/policy_sync/adapters.py:272-290 | comparing bare tuples only refines comparing padded releases, at any lengths |
| ReleaseOrder.PaddedTuplesEqual | policy-sync/policy_sync/adapters.py:203-207 | padding both tuples to one width and comparing is release equality |
| ReleaseOrder.BetweenIsBetween | policy-sync/policy_sync/adapters.py:252-291 | between any two different releases there is another one |
| Pep440.ComplementIsExact | policy-sync/policy_sync/adapters.py:209-226 | the inverted comparator admits exactly the releases the range does not match |
| Pep440.ReleaseTupleReads | policy-sync/policy_sync/adapters.py:228-250 | reads exactly the plain releases without a segment of more than 18 digits |
| Pep440.ComplementSetIsEmpty | policy-sync/policy_sync/adapters.py:252-291 | the bound-tightening loop says whether the tightest lower and upper bounds cross |
| Pep440.EmptyTestIsExact | policy-sync/policy_sync/adapters.py:252-291 | on every list of one-sided comparators: the verdict is "bounded both ways and nothing admitted" iff the kept tuples do not hide how the bounds meet |
| Pep440.MeetingAdmitsUnlessStrict | policy-sync/policy_sync/adapters.py:252-291 | bounds that meet once padded admit just that release, unless a comparator there is strict |
| Pep440.SplitReleaseIsAdmitted | policy-sync/policy_sync/adapters.py:272-290 | the family called empty although a release is admitted |
| Pep440.EqualLengthsHideOnlyStrict | policy-sync/policy_sync/adapters.py:272-290 | at one length, only a strict comparator behind inclusive ones is misread |
| Pep440.HiddenExclusiveAdmitsNothing | policy-sync/policy_sync/adapters.py:272-290 | the family called satisfiable although nothing is admitted |
| Pep440.UnpaddedTuplesErr | policy-sync/policy_sync/adapters.py:272-290 | without padding the test calls `>=1.0,<=1` empty and `>=1,<1.0` not |
| Names.NpmNameIsIdempotent | policy-sync/policy_sync/adapters.py:95-96 | normalizing an npm name twice is normalizing it once, a stripped name that lowering keeps is kept, and case does not matter; for every case folding that is idempotent and keeps stripped texts stripped |
| Names.NpmNamespaceFacts | policy-sync/policy_sync/adapters.py:101-103 | a normalized namespace starts with `@` and is stable |
| Names.PypiNameFacts | policy-sync/policy_sync/adapters.py:163-167 | a normalized project name is one devpi reads as itself, has single dashes, and is stable, for every case folding that is idempotent and adds no separator |
| Names.SpellingsAgree | policy-sync/policy_sync/adapters.py:163-167 | which separator stands in a name, and how often, does not matter, for every case folding |
| Names.CaseDoesNotMatter | policy-sync/policy_sync/adapters.py:163-167 | project names that differ in case are one, for every such case folding |
| Names.LowerLowers | policy-sync/policy_sync/adapters.py:95-96 | lowering ASCII letters is such a case folding, and leaves no capital |
| Names.ShortestNames | policy-sync/policy_sync/adapters.py:132-132 | a small letter or a digit is a project name |
| Names.DashedNames | policy-sync/policy_sync/adapters.py:132-167 | two of them with a separator between are one, with a dash |
| IsoDuration.ReadIsoExactly | verdaccio/plugins/verdaccio-filter-artea/src/policy-compile.ts:25-25 | matching from the left finds the parts of a text iff the pattern matches it with these parts |
| MinAge.EnginesDiffer | policy-sync/policy_sync/policy_model.py:26-32 | what the JavaScript pattern matches is what the Python one matches in ASCII, with the same parts |
| MinAge.LettersIgnoreCase | policy-sync/policy_sync/policy_model.py:28-32 | which characters match the letters of the pattern in both engines |
| MinAge.NeverNegative | policy-sync/policy_sync/policy_model.py:93-98 | no duration is negative, whatever the rounding, so that check never strikes |
| MinAge.ReadersAgree | docs/policy-spec/min-age-vectors.json:2-2 | on any text: policy-sync and the filter both accept it iff policy-sync does, both trim it alike, it is ASCII and it fits; what the filter accepts policy-sync accepts iff both trim it alike |
| MinAge.DevpiAgrees | devpi/artea_devpi_policy/src/artea_devpi_policy/main.py:109-124 | devpi accepts exactly what policy-sync accepts, and the empty setting |
| MinAge.AcceptedIff | policy-sync/policy_sync/policy_model.py:79-99 | policy-sync accepts exactly what, stripped, the pattern matches with at least one part |
| MinAge.ReadIff | verdaccio/plugins/verdaccio-filter-artea/src/policy-compile.ts:34-44 | the filter reads exactly what, trimmed, the pattern matches with at least one part and finite milliseconds |
| MinAge.SpaceInFront | verdaccio/plugins/verdaccio-filter-artea/src/policy-compile.ts:34-35 | white space in front of a setting changes nothing, for either reader |
| MinAge.SecondsMeaning | devpi/artea_devpi_policy/src/artea_devpi_policy/main.py:66-72 | weeks, days, hours, minutes and seconds count 604800, 86400, 3600, 60 and 1 |
| MinAge.DecimalNumbers | devpi/artea_devpi_policy/src/artea_devpi_policy/main.py:115-123 | the numbers are decimal, before and behind the point |
| MinAge.SettingIsRead | policy-sync/policy_sync/policy_model.py:79-99 | a setting policy-sync accepted: devpi reads it, and the filter iff it is ASCII and fits |
| MinAge.SettingIsOneDuration | verdaccio/plugins/verdaccio-filter-artea/src/policy-compile.ts:34-44 | without rounding, the filter then waits a thousand times the seconds devpi waits |
| MinAge.OtherDigits | policy-sync/policy_sync/policy_model.py:26-32 | days with a digit outside ASCII: accepted by policy-sync, not by the filter |
| MinAge.TooManyDays | verdaccio/plugins/verdaccio-filter-artea/src/policy-compile.ts:39-43 | days beyond the finite numbers: accepted by policy-sync, not by the filter |
| MinAge.LongSettingFails | verdaccio/plugins/verdaccio-filter-artea/src/policy-compile.ts:39-43 | a one and as many zeros as doubles have binary digits before the point is such a number |
| Rules.Classify | policy-sync/policy_sync/compiler.py:52-98 | succeeds iff every rule is acceptable, files every rule, reports the first unacceptable one |
| Rules.AcceptedMeaning | policy-sync/policy_sync/compiler.py:52-98 | a rule list is accepted iff each rule of the ecosystem names a namespace where there are any, or a package with a valid name and valid versions, exact ones in an allow |
| Rules.ScopesAreFaithful | policy-sync/policy_sync/compiler.py:61-69 | scope buckets hold exactly the scopes some rule denies or allows |
| Rules.WholesAreFaithful | policy-sync/policy_sync/compiler.py:71-98 | whole-package buckets hold exactly the packages some rule denies or allows whole |
| Rules.ExactsAreFaithful | policy-sync/policy_sync/compiler.py:71-98 | exact-allow buckets hold exactly the pinned versions of the allow rules |
| Rules.RangesAreFaithful | policy-sync/policy_sync/compiler.py:71-98 | range buckets list the range denies of a package in rule order |
| Rules.SortKeepsTexts | policy-sync/policy_sync/compiler.py:251-252 | sorting the ranges of a package loses and adds none |
| NpmCompiler.ResolveNpm | policy-sync/policy_sync/compiler.py:171-216 | succeeds iff no allow is inexpressible; the result is what allows leave of the denies, carved and sorted |
| NpmCompiler.DropAllowed | policy-sync/policy_sync/compiler.py:184-197 | rejects exactly an allow whose only deny is a scope's |
| NpmCompiler.CarveExacts | policy-sync/policy_sync/compiler.py:199-213 | rejects exactly an exact allow on a range-denied package or with an invalid carve-out; otherwise carves the points |
| NpmFilter.CompilePolicy | verdaccio/plugins/verdaccio-filter-artea/src/policy-compile.ts:57-121 | succeeds iff the minimum age is read and scopes and entries are well formed; collects the milliseconds, scopes, bare names, and ranges per name in order |
| NpmMeaning.ScopesAgree | policy-sync/policy_sync/compiler.py:171-222 | the filter's scope test holds iff a scope deny stands over the name |
| NpmMeaning.CarveOutIsAllBut | policy-sync/policy_sync/compiler.py:199-213 | `<v \|\| >v` admits exactly the versions of another precedence than `v` |
| NpmMeaning.CarvedRangesAgree | policy-sync/policy_sync/compiler.py:199-216 | a carved package blocks a version iff some pin is not the version's |
| NpmMeaning.TranslationMeaning | policy-sync/policy_sync/compiler.py:52-216 | for every name: the filter blocks exactly what the rules deny for all versions, iff no two pins of the package differ |
| NpmMeaning.ClashBlocksEverything | policy-sync/policy_sync/compiler.py:199-212 | with two different pins every version is blocked, the pinned ones too |
| NpmMeaning.AllowWinsBelowScopes | policy-sync/policy_sync/compiler.py:184-213 | an allowed version is blocked iff a scope deny stands |
| NpmMeaning.AllowedUnderScopeHasOwnDeny | policy-sync/policy_sync/compiler.py:184-197 | an accepted whole allow under a standing scope deny has a package deny of its own |
| NpmMeaning.NpmCompilesIff | policy-sync/policy_sync/compiler.py:171-216 | the rules compile to a block-list iff every package allowed under a standing scope deny has a deny of its own, and no exact allow that counts stands beside a range deny or has an unreadable carve-out |
| YamlScalar.NpmQuote | policy-sync/policy_sync/compiler.py:139-168 | the escaping loop prints the quoted form |
| YamlScalar.QuoteRoundTrip | policy-sync/policy_sync/compiler.py:139-168 | reading the quoted form of any text as a double-quoted scalar gives that text back |
| YamlScalar.QuoteStaysOnLine | policy-sync/policy_sync/compiler.py:139-168 | nothing that is quoted breaks the line |
| NpmDocument.ReadsLines | policy-sync/policy_sync/compiler.py:225-259 | the printed lines of any document read back to it |
| NpmDocument.DocumentRoundTrip | policy-sync/policy_sync/compiler.py:225-259 | the whole text of any document splits into its lines and reads back to it |
| NpmDocument.Layout | policy-sync/policy_sync/compiler.py:225-259 | the lines of a document with a scope, a bare package and a range, spelled out |
| NpmEmit.EmitNpm | policy-sync/policy_sync/compiler.py:225-259 | succeeds iff the default allows and the rules resolve; the text is the printed document of the resolved blocks |
| NpmEmit.EmitEach | policy-sync/policy_sync/compiler.py:250-258 | prints the ranges in order iff all are valid |
| NpmEmit.CompiledIsPolicy | verdaccio/plugins/verdaccio-filter-artea/src/policy-compile.ts:57-121 | compiling the emitted document gives the scopes, names and ranges that were resolved |
| NpmEmit.FilterAcceptsIff | verdaccio/plugins/verdaccio-filter-artea/src/policy-compile.ts:57-121 | the filter accepts the document of resolved blocks iff no name is blank and it can read the minimum age and every range |
| NpmEmit.EmittedTextCompilesBack | policy-sync/policy_sync/compiler.py:225-259 | the emitted text reads back, compiles iff the filter can use the minimum age and every name and range, and then to the resolved scopes, names and ranges and the milliseconds of the minimum age |
| NpmEmit.NpmEndToEnd | policy-sync/policy_sync/compiler.py:171-259 | from the emitted text: accepted iff the minimum age and every name and range can be used; blocked exactly when denied, iff no pins clash |
| NpmEmit.BlankNameFailsClosed | verdaccio/plugins/verdaccio-filter-artea/src/policy-compile.ts:83-121 | rules that leave a deny of the blank name standing, whole or by range: the filter rejects the document |
| PypiCompiler.ResolvePypi | policy-sync/policy_sync/compiler.py:367-416 | succeeds iff no exact allow carves a range or competes with another; the plan is what is left to print |
| PypiCompiler.ValidatePypiLine | policy-sync/policy_sync/compiler.py:265-276 | passes a line without a comparator; any other iff what starts at its first comparator character is a valid specifier set |
| PypiCompiler.GuardChecksSpecifiers | policy-sync/policy_sync/compiler.py:265-276 | of a printed line the guard validates exactly the joined comparators behind the name |
| PypiCompiler.GuardPassesNames | policy-sync/policy_sync/compiler.py:265-276 | a bare name passes the guard |
| PypiCompiler.EmitPypiRanges | policy-sync/policy_sync/compiler.py:279-326 | prints the joined complements of every range-denied package, or reports the one that has none or an empty set |
| PypiCompiler.EmitPypi | policy-sync/policy_sync/compiler.py:367-423 | succeeds iff the plan can be printed; the text is its sorted lines, then `*` where the default denies |
| DevpiConstraints.ParseConstraints | devpi/artea_devpi_policy/src/artea_devpi_policy/main.py:140-155 | reads lines into one table; a repeated project or an unreadable line is an error |
| DevpiConstraints.ReadsRequirement | devpi/artea_devpi_policy/src/artea_devpi_policy/main.py:149-154 | a printed line reads back to its project and comparators |
| DevpiConstraints.ParsesLines | devpi/artea_devpi_policy/src/artea_devpi_policy/main.py:140-155 | printed lines parse iff no project repeats, and the table then holds exactly them |
| PypiMeaning.ConstraintsAccepted | policy-sync/policy_sync/compiler.py:417-423 | devpi accepts the emitted text iff the default denies or no package is denied both whole and by range |
| PypiMeaning.ReadsBackPlan | policy-sync/policy_sync/compiler.py:367-423 | the accepted text tabulates exactly the planned lines |
| PypiMeaning.ComplementsAreExact | policy-sync/policy_sync/compiler.py:279-326 | the joined complements admit exactly the releases no range deny matches |
| PypiMeaning.TranslationMeaning | policy-sync/policy_sync/compiler.py:279-423 | under both defaults a plain release is admitted exactly when the rules allow it, iff it is not release 0 of a killed project |
| PypiMeaning.PypiPlansIff | policy-sync/policy_sync/compiler.py:381-416 | the rules can be planned iff no exact allow that counts stands beside a range deny, or beside another exact allow where it needs a line |
| Compile.CompilePolicy | policy-sync/policy_sync/compiler.py:429-459 | succeeds iff both halves compile, and then gives the artifacts of the rules; only where the own default of npm, or else the general one, allows |
| Compile.UpstreamRoundTrip | policy-sync/policy_sync/compiler.py:444-459 | the upstream document carries the minimum age to the filter's reader |
| RuleOrder.PypiOrderIrrelevant | policy-sync/policy_sync/compiler.py:298-361 | permuted rules give the same constraints text, or fail alike |
| RuleOrder.NpmOrderIrrelevant | policy-sync/policy_sync/compiler.py:215-252 | permuted rules give the same npm text when duplicate denies agree on the reason, or fail alike |
| RuleOrder.OrderIrrelevant | policy-sync/policy_sync/compiler.py:429-459 | permuting the rules makes both compilations fail or gives the same artifacts |
| EndToEnd.IndexEnforcesPolicy | policy-sync/policy_sync/devpi.py:70-106 | an index that holds the constraints of a policy reads them iff it denies by default or no package is denied both whole and by range; then it is closed iff the own default of pypi, or else the general one, denies, and admits exactly the releases the rules allow, iff not release 0 of a killed project |
| EndToEnd.DownloadsAreAllowed | devpi/artea_devpi_policy/src/artea_devpi_policy/main.py:456-473 | a plain release the download gate of such an index lets through is allowed by the rules, or is release 0 of a killed project |
| EndToEnd.FilterEnforcesPolicy | verdaccio/plugins/verdaccio-filter-artea/src/policy-compile.ts:57-139 | a filter loads the policy's document iff it can use the minimum age and every name and range, and then blocks exactly what the rules deny, iff no pins clash |
| EndToEnd.SyncEnforces | policy-sync/policy_sync/sync.py:99-129 | after a successful sync the npm file and the npm store hold a document that enforces the fetched policy as above, and the index enforces it as above |
| Adapters.PypiRulesArePlain | policy-sync/policy_sync/adapters.py:137-167 | of the pypi adapter the translation only asks that the comparators and pins of the rules at hand name plain releases |
| Adapters.RewrittenNamesEscape | policy-sync/policy_sync/adapters.py:95-103 | a package published under a name that normalizing changes is blocked iff a scope deny stands |
| Adapters.DenyBlocksItsOwnName | policy-sync/policy_sync/adapters.py:95-96 | the deny of one package blocks that very name iff normalizing keeps it |
| Adapters.NamespaceCoversItsSpelling | policy-sync/policy_sync/adapters.py:101-103 | a namespace deny blocks a package iff its scope is spelled like the normalized namespace |
| Adapters.BlankRuleFailsClosed | verdaccio/plugins/verdaccio-filter-artea/src/policy-compile.ts:83-121 | the rule that denies the name `" "` compiles to a document the filter rejects |
| PlainAdapters.CarveOutIsRead | policy-sync/policy_sync/compiler.py:199-213 | the carve-out of a plain pin is read as everything but that version |
| PlainAdapters.TripleMeaning | policy-sync/policy_sync/adapters.py:85-88 | three numerals without leading zeros and the version they stand for |
| PlainAdapters.ComparatorMeaning | policy-sync/policy_sync/adapters.py:76-82 | what each comparator with a plain version admits, from its text |
| Acceptance.PinSpellings | policy-sync/policy_sync/adapters.py:84-117 | a plain version is a pin also behind `=` or `v` |
| PlainAdapters.NpmPoliciesAreEnforced | policy-sync/policy_sync/compiler.py:171-259 | every compiled policy over plain versions: loaded iff the minimum age is read and no blank name stands, then with its milliseconds, and blocking exactly what is denied, iff no pins clash |
| PlainAdapters.AcceptedSettingsLoad | verdaccio/plugins/verdaccio-filter-artea/src/policy-compile.ts:32-76 | with a minimum age policy-sync accepted: the document loads iff that setting is ASCII and fits and no blank name stands |
| PlainAdapters.ForeignDigitFailsClosed | policy-sync/policy_sync/policy_model.py:26-32 | a minimum age with a digit outside ASCII is accepted and compiles under any rules, and the filter rejects the document |
| PlainAdapters.PypiPoliciesAreEnforced | policy-sync/policy_sync/compiler.py:279-423 | every compiled policy over plain releases: the index reads its constraints iff no package is denied twice, then admits exactly what the rules allow, iff not release 0 of a killed project |
| Acceptance.PypiEmitsIff | policy-sync/policy_sync/compiler.py:279-423 | over plain releases: the pypi rules compile iff their pins can stand and, under default-allow, the standing ranges invert and do not read as empty |
| Acceptance.PolicyCompilesIff | policy-sync/policy_sync/compiler.py:429-459 | exactly which policies over plain versions compile, said of their rules and defaults |
| Acceptance.PlainAllowsCompile | policy-sync/policy_sync/compiler.py:429-459 | under default-allow any allows of packages and of plain versions compile |
| EmptySetGuard.GuardIsExact | policy-sync/policy_sync/compiler.py:315-321 | on one-sided complements: the guard refuses a package exactly when its denies from both sides leave no release, iff the kept tuples do not hide how the bounds meet |
| EmptySetGuard.GuardVerdict | policy-sync/policy_sync/compiler.py:298-326 | on every package with range denies: the guard refuses exactly what leaves no release, iff it does not misjudge: a hidden meeting, or an empty set with a complement that is not one-sided |
| EmptySetGuard.DeniesCompile | policy-sync/policy_sync/compiler.py:279-326 | any range denies of one package with complements, and nothing else: the compiler refuses them iff the guard reads their complements as empty |
| EmptySetGuard.DeniesRefused | policy-sync/policy_sync/compiler.py:279-326 | such a policy is refused exactly when its denies from both sides leave no release, iff the guard does not misjudge them |
| EmptySetGuard.DeniesMeaning | policy-sync/policy_sync/compiler.py:298-326 | such a policy allows exactly the releases that meet all the complements |
| EmptySetGuard.SplitReleaseIsRefused | policy-sync/policy_sync/compiler.py:315-321 | denying `<1.0` and `>1` is refused although release 1 is allowed |
| EmptySetGuard.HiddenEmptyIsAccepted | policy-sync/policy_sync/compiler.py:315-321 | denying `<1` and `>=1.0` is accepted although no release is left |
| EmptySetGuard.EqualityHidesEmpty | policy-sync/policy_sync/adapters.py:264-271 | denying `<1`, `==1` and `>1` is accepted although no release is left |
| OsvRecords.ScanMeaning | policy-sync/policy_sync/osv.py:793-816 | the flag ends up set iff some applicable `introduced` has no later applicable closing event |
| OsvRecords.ScanIsIntervalUnion | policy-sync/policy_sync/osv.py:779-818 | on ascending events that is membership in the union of the intervals |
| OsvRecords.PrereleasesOfTheFixAreAffected | policy-sync/policy_sync/osv.py:793-816 | introduced at 0.0.0 and fixed in a release: its prereleases are affected, the release is not |
| OsvRecords.ScanEvents | policy-sync/policy_sync/osv.py:793-816 | the loop over the events gives the flag, and nothing iff some event is unreadable or of an unknown kind |
| OsvRecords.SemverRangeAffectedVersions | policy-sync/policy_sync/osv.py:779-818 | decides iff range, events and versions are all readable, and returns exactly the covered versions |
| OsvRecords.LocallyAffectedVersions | policy-sync/policy_sync/osv.py:743-776 | None exactly for an undecidable record; otherwise the versions listed or covered for this package |
| OsvRecords.DecidedMeaning | policy-sync/policy_sync/osv.py:743-776 | which records can be decided: those with entries that say something about the package, all npm ones whose ranges are lists of semver ranges of readable events |
| OsvRecords.ItemAffected | policy-sync/policy_sync/osv.py:754-775 | one affected entry: skipped, undecidable, or its listed and covered versions |
| OsvRecords.ApplyPackageVulns | policy-sync/policy_sync/osv.py:728-740 | decides iff every malicious-package record is decidable, and adds to each version the ids of the records that cover it |
| OsvRecords.OutsideNpmOnlyWithoutMal | policy-sync/policy_sync/osv.py:743-776 | outside npm a local answer exists iff there is no malicious-package record at all |
| OsvQuery.QueryPackageUnbatched | policy-sync/policy_sync/osv.py:438-463 | verdicts iff the page chain ends within the limit and all its records are decided, then with the ids of all pages; None iff a record reached is undecidable |
| OsvQuery.QueryPackage | policy-sync/policy_sync/osv.py:421-436 | a single first page decides by itself; otherwise all pages are read |
| OsvQuery.ChainGivesRecords | policy-sync/policy_sync/osv.py:438-463 | a finished page chain of a package gives exactly the records of its pages if it fits the limit, and an error otherwise |
| OsvQuery.AnswerOfPackage | policy-sync/policy_sync/osv.py:728-776 | the verdict from the records of a package: blocked iff it lists an id, and it lists, in order, exactly the ids starting with `MAL-` of records with an entry for this package and version |
| OsvQuery.ChainGivesUnion | policy-sync/policy_sync/osv.py:557-608 | a finished page chain gives the union of its pages' ids if it fits the limit and an error otherwise |
| OsvQuery.AnswerHasChain | policy-sync/policy_sync/osv.py:557-608 | every answer comes from a finished chain within the limit |
| OsvQuery.QueryChunk | policy-sync/policy_sync/osv.py:557-608 | fails iff some version's chain fails or is too long; otherwise each version gets the ids of its own chain |
| OsvQuery.AnswerOfVersion | policy-sync/policy_sync/osv.py:557-608 | the verdict from the pages of one version: blocked iff it lists an id, and it lists, in order, exactly the ids starting with `MAL-` on its pages |
| OsvQuery.QueryOsvVersions | policy-sync/policy_sync/osv.py:406-419 | any batch size and any completion order give the answer of a single chunk |
| OsvQuery.ChunksCover | policy-sync/policy_sync/osv.py:407-407 | the chunks hold exactly the versions |
| OsvQuery.QueryOsv | policy-sync/policy_sync/osv.py:400-404 | when both endpoints tell one truth, every answer is that truth, and an error means a failed request or a page chain that is too long |
| VerdictCache.Cache.Get | policy-sync/policy_sync/osv.py:110-117 | answers a cached verdict iff less time has passed than the positive lifetime, where it is malicious, or than the negative one, where it is clean |
| VerdictCache.Cache.Set | policy-sync/policy_sync/osv.py:119-136 | stays within the bound; nothing goes unless the cache is over it, then what expired and after that only the soonest to be evicted, of those that rank alike the first inserted |
| VerdictCache.MaliciousGoLast | policy-sync/policy_sync/osv.py:127-136 | an unexpired malicious verdict is evicted only when no clean one is left |
| VerdictCache.OldestGoFirst | policy-sync/policy_sync/osv.py:127-136 | of two unexpired verdicts that are both malicious or both clean, the evicted one was stored no later than the kept one |
| VerdictCache.Cache.Persist | policy-sync/policy_sync/osv.py:138-178 | at most once per interval, drops what expired and writes exactly the rest |
| VerdictCache.Cache.Load | policy-sync/policy_sync/osv.py:180-219 | takes the well-formed unexpired entries up to the one that fills the cache |
| VerdictCache.LoadedMeaning | policy-sync/policy_sync/osv.py:193-216 | what is loaded of a key is its last entry, among those read, that has three non-empty parts and is within its lifetime |
| VerdictCache.ReloadAnswersAlike | policy-sync/policy_sync/osv.py:180-219 | a cache loaded from another's snapshot answers every key as the other does, then and later, but never a key with an empty part |
| VerdictCache.NoRoomLoadsOne | policy-sync/policy_sync/osv.py:192-217 | a cache that may hold no entry loads exactly the first one that can be loaded |
| VerdictCache.SweepChangesNoAnswer | policy-sync/policy_sync/osv.py:154-160 | dropping expired entries changes no answer, then and later |
| Decide.OverrideMeaning | policy-sync/policy_sync/osv.py:894-910 | under rules that compile, the override applies iff an allow rule is about the whole package, or about it and a version that its pin allows |
| Decide.UncachedMeaning | policy-sync/policy_sync/osv.py:259-321 | the verdict without caches: blocked iff it lists an id, and it lists the true ids in order, unless an allow rule covers the version |
| Decide.UniqueVersions | policy-sync/policy_sync/osv.py:646-655 | keeps each version once in order of first occurrence; an empty version is an error |
| Base.UniqueInOrder | policy-sync/policy_sync/osv.py:646-655 | of two versions the one that occurs first comes first |
| Decide.OsvClient.GetCachedPage | policy-sync/policy_sync/osv.py:496-505 | a stored page comes back iff less time has passed than the positive lifetime, where it holds a malicious-package record, or than the negative one; a stale one is dropped |
| Decide.OsvClient.StorePage | policy-sync/policy_sync/osv.py:507-518 | stores the page, marked by whether an id on it starts with `MAL-`, and drops only the oldest, no more than the bound asks for |
| Decide.OsvClient.ReadCache | policy-sync/policy_sync/osv.py:285-294 | splits the versions no rule allows into those with a verdict that was live when it was read and those without |
| Decide.OsvClient.WriteCache | policy-sync/policy_sync/osv.py:305-308 | with room and within the lifetimes, every fetched verdict is answered from the cache afterwards |
| Decide.OsvClient.Fetch | policy-sync/policy_sync/osv.py:299-309 | caches only what a successful query said, which is the truth; fails only if a request failed or a page chain was too long |
| Decide.OsvClient.Decide | policy-sync/policy_sync/osv.py:259-321 | an "ok" answer equals the one computed without caches whatever was asked under whatever policy before; a degraded one comes only of a failed request for a version without a live verdict, never blocks more, and keeps every live cached verdict |
| Decide.LoadedIsTrue | policy-sync/policy_sync/osv.py:180-219 | what is loaded from a file of true verdicts is true, wherever reading stops |
| Decide.SnapshotIsTrue | policy-sync/policy_sync/osv.py:138-178 | a file written of true entries is a file of true verdicts |
| Decide.StartFrom | policy-sync/policy_sync/osv.py:227-257 | a client that starts from a file of true verdicts meets everything `decide` asks of it |
| Decide.Restart | policy-sync/policy_sync/osv.py:138-219 | a client that starts from what another one wrote does so too |
| BatchProtocol.StepKeepsInv | policy-sync/policy_sync/osv.py:465-546 | every step of every thread keeps: flag up exactly while one undrained leader exists, else nothing pending; own query in the own batch; batches disjoint; every query attended |
| BatchProtocol.StepLowersRank | policy-sync/policy_sync/osv.py:465-546 | every step lowers the rank |
| BatchProtocol.NoDeadlock | policy-sync/policy_sync/osv.py:465-546 | while a thread is not done, some thread can take a step that is no failure |
| BatchProtocol.EveryThreadIsAnswered | policy-sync/policy_sync/osv.py:465-546 | any interleaving of any threads ends; where none can go on, each has a page of its own query, but for exactly those whose query was in a batch a failure struck: they have its error |
| BatchProtocol.WithoutFailuresAllGetPages | policy-sync/policy_sync/osv.py:465-546 | where no request fails, every thread ends with a page of its own query |
| BatchProtocol.PagesTell | policy-sync/policy_sync/osv.py:465-546 | where every reply tells the truth of its query, a thread that got a page got a true one of its own package |
| Decide.BatchedFirstPageIsTrue | policy-sync/policy_sync/osv.py:465-546 | in any interleaving a thread's first page is a true page of its package or nothing: just what one call asks of its first page |
| Lru.LruCache.Store | verdaccio/plugins/verdaccio-filter-artea/src/osv.ts:296-299 | sets the entry and makes it the most recently used |
| Lru.LruCache.GetFresh | verdaccio/plugins/verdaccio-filter-artea/src/osv.ts:283-294 | answers exactly a fresh entry and marks it used; a stale one goes |
| Lru.LruCache.Prune | verdaccio/plugins/verdaccio-filter-artea/src/osv.ts:308-325 | ends within the bound, sweeps when due or over it, and evicts only the least recently used |
| NpmOsvClient.ParseResponse | verdaccio/plugins/verdaccio-filter-artea/src/osv.ts:327-345 | succeeds iff every entry is well formed; keeps the blocked ones |
| NpmOsvClient.BlockedMeaning | verdaccio/plugins/verdaccio-filter-artea/src/osv.ts:327-345 | a version is blocked by the last entry that names it as blocked, with the ids of that one |
| NpmOsvClient.SameKeySamePieces | verdaccio/plugins/verdaccio-filter-artea/src/osv.ts:127-139 | two lookups share a request iff they are for one package and the texts between the commas of their misses agree |
| NpmOsvClient.SameKeySameMisses | verdaccio/plugins/verdaccio-filter-artea/src/osv.ts:127-139 | without commas in versions that is: iff they miss the same versions |
| NpmOsvClient.CommaMixesLookups | verdaccio/plugins/verdaccio-filter-artea/src/osv.ts:127-171 | a second lookup with other misses of the same pieces gets a complete answer that lets a version through which only it misses |
| NpmOsvClient.OneCommaMixesLookups | verdaccio/plugins/verdaccio-filter-artea/src/osv.ts:127-171 | a lookup for `1,2` and one for `1` and `2`: the second one lets both through unless the response names them unasked |
| NpmOsvClient.BlockedWithoutIds | verdaccio/plugins/verdaccio-filter-artea/src/osv.ts:104-171 | a version blocked without ids is blocked by the fetched answer and not by the next one, from the cache |
| NpmOsvClient.UnaskedNeedsComma | verdaccio/plugins/verdaccio-filter-artea/src/osv.ts:127-139 | a missed version goes unasked only where a comma stands in the misses or in the request |
| NpmOsvClient.WithoutCommas | verdaccio/plugins/verdaccio-filter-artea/src/osv.ts:98-171 | where no version holds a comma, a complete answer is the uncached one on each version, iff it is not blocked without ids, answered from the cache and unnamed by the response |
| NpmOsvClient.OsvDecisionClient.ReadCache | verdaccio/plugins/verdaccio-filter-artea/src/osv.ts:104-120 | the misses are exactly the versions without a fresh entry, in order; blocked hits are true, and other hits were cached without ids |
| NpmOsvClient.OsvDecisionClient.SharedRequest | verdaccio/plugins/verdaccio-filter-artea/src/osv.ts:125-138 | joins the request in flight under the same key, or starts one for these very misses |
| NpmOsvClient.OsvDecisionClient.Begin | verdaccio/plugins/verdaccio-filter-artea/src/osv.ts:98-139 | answers from the cache iff every version is a fresh hit; on versions that never went unasked that answer is the uncached one iff the version is not blocked without ids; otherwise one more lookup waits for its request |
| NpmOsvClient.OsvDecisionClient.WriteCache | verdaccio/plugins/verdaccio-filter-artea/src/osv.ts:154-163 | keeps the cache within its bound and true but for what went unasked; with room every miss is cached, with the fetched ids or none, until its time is up |
| NpmOsvClient.OsvDecisionClient.Settle | verdaccio/plugins/verdaccio-filter-artea/src/osv.ts:134-138 | a request that ended, with any honest answer or none, is no longer shared |
| NpmOsvClient.OsvDecisionClient.Resume | verdaccio/plugins/verdaccio-filter-artea/src/osv.ts:139-171 | complete iff the response has status ok and is well formed; then true on everything asked for or reported, clear of what went unasked, and as cached on the hits; only then is the cache written |
| DevpiFilter.FilterIter | devpi/artea_devpi_policy/src/artea_devpi_policy/main.py:393-438 | one verdict per item, or no opinion; all denied for an unlisted project of a closed index |
| DevpiFilter.FilterEach | devpi/artea_devpi_policy/src/artea_devpi_policy/main.py:393-438 | each verdict depends on its own item alone |
| DevpiFilter.SimpleLinksFilter | devpi/artea_devpi_policy/src/artea_devpi_policy/main.py:440-473 | the i-th verdict of the listing is the download gate's; no opinion means allowed |
| DevpiFilter.GateIsExact | devpi/artea_devpi_policy/src/artea_devpi_policy/main.py:456-488 | a file can be downloaded iff nothing is configured for its project, or the constraints admit its version, the service does not call it malicious, and its upload time is known and old enough |
| DevpiFilter.VersionsFilter | devpi/artea_devpi_policy/src/artea_devpi_policy/main.py:440-446 | the i-th verdict of the version listing depends on that version alone |
| DevpiFilter.VersionIsExact | devpi/artea_devpi_policy/src/artea_devpi_policy/main.py:440-446 | a version is listed iff nothing is configured, or the constraints admit it, it is not malicious, and one of its files is old enough |
| DevpiFilter.DownloadableIsListed | devpi/artea_devpi_policy/src/artea_devpi_policy/main.py:482-488 | a version with a downloadable file is listed, and an old enough file of a listed version is downloadable |
| DevpiOsvCache.OsvCache.StoreEntry | devpi/artea_devpi_policy/src/artea_devpi_policy/main.py:238-249 | keeps only fresh true answers, the new one last, and at the bound exactly the ones stored last; below it all fresh ones |
| DevpiOsvCache.OsvCache.QueryBlockedVersions | devpi/artea_devpi_policy/src/artea_devpi_policy/main.py:252-292 | a fresh cached answer is the service's; a failed lookup blocks nothing; only answers with status ok are cached |
| Text.EffectiveIsIdempotent | policy-sync/policy_sync/devpi.py:48-60 | reducing effective lines again changes nothing |
| Text.ConstraintLines | devpi/artea_devpi_policy/src/artea_devpi_policy/main.py:127-137 | the loop keeps exactly the stripped lines that are neither blank nor comments |
| PolicyServing.ListMatches | policy-sync/policy_sync/server.py:48-51 | a list matches iff it holds `*` or the tag, weak or strong |
| PolicyServing.OwnTagMatches | policy-sync/policy_sync/server.py:48-51 | a tag sent back matches exactly the content it was made for |
| PolicyServing.PolicyStore.Set | policy-sync/policy_sync/store.py:34-38 | content and tag change together |
| PolicyServing.PolicyStore.Get | policy-sync/policy_sync/store.py:40-51 | what was set last, else the fallback file, always with its own tag |
| PolicyServing.PolicyStore.ServePolicy | policy-sync/policy_sync/server.py:188-200 | not found, not modified iff a tag matches, or the content with its tag |
| PolicyServing.OwnTagIsAnswered | policy-sync/policy_sync/server.py:188-200 | sending back the tag of what one holds: not modified iff that is what is served, else the content with its own tag |
| PolicyLoaders.HttpPolicyLoader.Current | verdaccio/plugins/verdaccio-filter-artea/src/policy-loaders.ts:135-151 | open iff a document was parsed and no failure streak has outlasted the grace window; then the compile of the last parsed one |
| PolicyLoaders.HttpPolicyLoader.StartPoll | verdaccio/plugins/verdaccio-filter-artea/src/policy-loaders.ts:154-172 | one refresh at a time, sending the tag held |
| PolicyLoaders.HttpPolicyLoader.RecordFailure | verdaccio/plugins/verdaccio-filter-artea/src/policy-loaders.ts:201-218 | the streak is measured from its first failure |
| PolicyLoaders.HttpPolicyLoader.FinishPoll | verdaccio/plugins/verdaccio-filter-artea/src/policy-loaders.ts:167-218 | only a document that compiles replaces state and tag; everything else keeps the last good one |
| PolicyLoaders.HttpPolicyLoader.PollStore | verdaccio/plugins/verdaccio-filter-artea/src/policy-loaders.ts:167-191 | against the store: not modified, or a document that parses, leaves exactly what is served active |
| PolicyLoaders.FilePolicyLoader.Current | verdaccio/plugins/verdaccio-filter-artea/src/policy-loaders.ts:49-83 | the compile of the file as last read; closed while missing or unparsable; re-read when the time changes |
| DevpiApply.PatchedHolds | policy-sync/policy_sync/devpi.py:48-106 | after a PATCH the index compares equal to what was sent |
| DevpiApply.ApplyConstraints | policy-sync/policy_sync/devpi.py:70-106 | succeeds iff the index is constrained over the PyPI mirror alone and holds or takes the constraints; then it stores lines and an age that take effect as these; sends a PATCH iff it does not hold them |
| Sync.Syncer.Write | policy-sync/policy_sync/sync.py:68-76 | a file is replaced only when its content changes |
| Sync.Syncer.Publish | policy-sync/policy_sync/sync.py:78-125 | outputs are new up to the first failure and untouched from there on |
| Sync.FailuresStopTheRest | policy-sync/policy_sync/sync.py:78-125 | which file that cannot be written stops which outputs |
| Sync.Syncer.SyncOnce | policy-sync/policy_sync/sync.py:99-129 | a failed fetch, parse or compile changes nothing; success leaves the upstream document, the npm document, the policy and the constraints each in its own store and file; repeating it writes and patches nothing |
| Sync.Syncer.RunSyncs | policy-sync/policy_sync/sync.py:99-129 | over any sequence of syncs every output is its first value or an artifact of a document that compiled |
| Sync.Syncer.SyncWithRetry | policy-sync/policy_sync/sync.py:131-146 | stops at the first success, pauses double up to the cap, and success means the last document is shown everywhere |
| SyncWorker.WakeUpNotLost | policy-sync/policy_sync/server.py:328-338 | a sync is owed only while the event is set or the worker is about to start one |
| SyncWorker.WokenByTriggers | policy-sync/policy_sync/server.py:328-338 | the event is set exactly when a wake-up came after it was last cleared |
| SyncWorker.OwedSyncNeedsNoTimeOut | policy-sync/policy_sync/server.py:336-337 | while a sync is owed the wait returns at once |
| SyncWorker.TriggerIsServed | policy-sync/policy_sync/server.py:328-338 | after a wake-up, without a single time-out: until a sync starts the worker can go on, and its fourth step at the latest starts one |
| SyncWorker.StopIsServed | policy-sync/policy_sync/server.py:328-338 | after a stop no sync starts, and the fourth step of the worker at the latest ends it |
| SyncWorker.WorkerMayStep | policy-sync/policy_sync/server.py:328-338 | until it has ended the worker can take a step of its own, a time-out where nothing wakes it |
| SyncWorker.AnybodyMayStep | policy-sync/policy_sync/server.py:328-338 | wake-ups and stops are never held back, and each sets its own event |

## Left out

- The regular expressions of the range validators and the semver library's range grammar are parameters (`Adapter`, `Dialect`, `Library`). The theorems ask only of the rules at hand: that the pins of the package parse and their carve-outs are read as written, and that pypi comparators and pins name plain releases. `PlainAdapters` has readers of plain versions for which that holds of every rule list.
- NpmMeaning.TranslationMeaning: the semver library is a parameter whose carve-outs of the package's pins must be read as written; build metadata does not distinguish versions.
- PypiMeaning.TranslationMeaning: rules over plain dotted releases only; epochs, pre-, post-, dev- and local segments and legacy versions are not ordered here.
- NpmFilter.CompilePolicy: starts from a document whose fields have the expected types; the type checks on untyped YAML are left out.
- MinAge.ReadersAgree: what Python takes for a decimal digit and how doubles round are parameters; devpi's seconds, the text of a number and its reading are exact.
- YamlScalar.QuoteRoundTrip: the reader covers the double-quoted scalars the compiler prints, not the whole of YAML; strings are Unicode scalar values, so lone surrogates do not occur.
- NpmDocument.DocumentRoundTrip: the reader covers the block layout the compiler prints.
- Names.PypiNameFacts: case folding is a parameter of which only what its row says is used; `PlainAdapters` takes the ASCII one.
- Decide.OsvClient.StorePage: among equally old pages the code evicts the earliest stored; the contract leaves that choice open.
- Decide.OsvClient.Decide: calls run one after another, replies of one call are fixed functions that may fail but agree with one truth, and the truth does not change; the first page is one value of the call, which `Decide.BatchedFirstPageIsTrue` joins to the batching protocol.
- BatchProtocol.EveryThreadIsAnswered: threads start after missing the page cache; a failure may strike between any two replies, which covers every batch size; the delay before draining is any amount of time.
- NpmOsvClient.OsvDecisionClient.Resume: nothing is claimed of the fetched part of an answer whose status is not ok, and cache keys hold no NUL character.
- NpmOsvClient.OsvDecisionClient.Begin: of a version that once went unasked only this is claimed, that where it is blocked it is rightly so.
- DevpiFilter.SimpleLinksFilter: one clock reading and one metadata document for the whole listing, and an OSV service that answers version by version.
- DevpiFilter.DownloadableIsListed: assumes metadata that lists each file under the version its link names.
- PolicyServing.OwnTagMatches: the content hash is an injective function to hexadecimal text.
- PolicyLoaders.FilePolicyLoader.Current: a file changed without a new modification time is not noticed, by the code as by the model.
- Sync.Syncer.RunSyncs: the outputs are one map inside the syncer, not shared store objects; a rename is atomic.
- SyncWorker.TriggerIsServed: a sync takes one step, however long it lasts.
- `CompositePolicyLoader` and prewarming: they only combine two answers, or warm a cache without deciding anything.
- `get_projects_filter_iter` of the devpi plugin: it lists the projects of the constraints table on a closed index.
- `summarize_package`, enrichment, the gateway, the Gitea plugin, HTTP, JSON, TOML and rule expiry: input and output around the core.
- Logging, metrics, authentication and the reason texts of errors.
