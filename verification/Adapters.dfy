/** The two adapters with the normalization of their source, and what that settles for the translations. */
module Adapters {
  import opened Base
  import opened Text
  import opened Rules
  import opened Names
  import opened NpmCompiler
  import opened NpmFilter
  import opened NpmMeaning
  import NpmEmit
  import PypiCompiler
  import PypiMeaning
  import Pep440
  import SemverOrder

  /** NPM, with its range validator and its reader of exact versions as parameters. */
  function NpmAdapter(lower: Lowering, valid: string -> bool, exact: string -> Option<string>): Adapter {
    Adapter("npm", true, (raw: string) => Some(NpmName(raw, lower)), (raw: string) => NpmNamespace(raw), valid, exact)
  }

  /** PYPI, with its validator, its reader of pins and its reader of single comparators as parameters. */
  function PypiDialect(lower: Lowering, valid: string -> bool, exact: string -> Option<string>,
                       comparator: string -> Option<Pep440.Spec>): PypiCompiler.Dialect {
    PypiCompiler.Dialect(
      Adapter("pypi", false, (raw: string) => PypiName(raw, lower), (raw: string) => raw, valid, exact),
      comparator)
  }

  /** The scopes of the npm adapter start with `@`. */
  lemma NpmPrefixesScopes(lower: Lowering, valid: string -> bool, exact: string -> Option<string>)
    ensures NpmEmit.PrefixesScopes(NpmAdapter(lower, valid, exact))
  {
    forall raw ensures NpmNamespace(raw) != [] && NpmNamespace(raw)[0] == '@' { NpmNamespaceFacts(raw); }
  }

  /** Of the pypi adapter the translation theorem only asks that the rules at hand name plain releases. */
  lemma PypiRulesArePlain(rules: seq<Rule>, d: PypiCompiler.Dialect, lower: Lowering, valid: string -> bool,
                          exact: string -> Option<string>, comparator: string -> Option<Pep440.Spec>)
    requires Lowers(lower) && d == PypiDialect(lower, valid, exact, comparator)
    ensures PypiMeaning.PlainRules(rules, d) <==>
      && (forall n, t | RangeDenied(rules, d.a, n, t) :: PypiMeaning.PlainComparator(d, t))
      && (forall n, e | ExactAllowed(rules, d.a, n, e) :: PypiMeaning.PlainRelease(e))
  {
    forall raw | PypiName(raw, lower).Some? { PypiNameFacts(raw, lower); }
  }

  /******* Names the filter sees as published *******/

  /** A package published under a name the adapter would rewrite is beyond every package rule:
      only a scope deny blocks it. */
  lemma RewrittenNamesEscape(rules: seq<Rule>, lower: Lowering, valid: string -> bool, exact: string -> Option<string>,
                             lib: Library, name: string, v: SemverOrder.Semver)
    requires Lowers(lower) && Accepted(rules, NpmAdapter(lower, valid, exact)) && NpmName(name, lower) != name
    ensures var a := NpmAdapter(lower, valid, exact);
      Blocked(PolicyOf(Resolved(BucketsOf(rules, a))), lib, name, v) <==> ScopeStands(rules, a, name)
  {
    var a := NpmAdapter(lower, valid, exact);
    forall r | r in rules ensures !About(r, a, name) {
      if r.target.Package? { NpmNameIsIdempotent(r.target.name, lower); }
    }
    ScopesAgree(rules, a, name);
    NamesAgree(rules, a, name);
    BucketsAreFaithful(rules, a);
    var b := BucketsOf(rules, a);
    assert RangesOf(b, name) == RangeDenies(rules, a, name);
    RangeDeniesMeaning(rules, a, name);
    assert forall e :: e !in ExactsOf(b, name);
    if name in b.ranges {
      var ts := Texts(b.ranges[name]);
      assert ts[0] in ts;
    }
  }

  /** A deny of one unscoped package blocks the package of that very name if and only if normalizing keeps the name. */
  lemma DenyBlocksItsOwnName(raw: string, lower: Lowering, valid: string -> bool, exact: string -> Option<string>,
                             lib: Library, v: SemverOrder.Semver)
    requires Lowers(lower)
    ensures var a, rules := NpmAdapter(lower, valid, exact), [Rule("npm", Package(raw), None, Deny, None)];
      && Accepted(rules, a)
      && (Blocked(PolicyOf(Resolved(BucketsOf(rules, a))), lib, raw, v) <==> NpmName(raw, lower) == raw)
  {
    var a, rule := NpmAdapter(lower, valid, exact), Rule("npm", Package(raw), None, Deny, None);
    var rules := [rule];
    forall ns, x ensures !ScopeRule(rules, a, ns, x) {}
    if NpmName(raw, lower) == raw {
      assert rule in rules && IsWhole(rule, a, raw, Deny);
      NamesAgree(rules, a, raw);
    } else {
      RewrittenNamesEscape(rules, lower, valid, exact, lib, raw, v);
    }
  }

  /** A namespace deny covers exactly the packages whose scope is spelled like the normalized namespace, in case too. */
  lemma NamespaceCoversItsSpelling(raw: string, lower: Lowering, valid: string -> bool,
                                   exact: string -> Option<string>, lib: Library, name: string, v: SemverOrder.Semver)
    ensures var a, rules := NpmAdapter(lower, valid, exact), [Rule("npm", Namespace(raw), None, Deny, None)];
      && Accepted(rules, a)
      && (Blocked(PolicyOf(Resolved(BucketsOf(rules, a))), lib, name, v) <==> ScopeOf(name) == Some(NpmNamespace(raw)))
  {
    var a, rule := NpmAdapter(lower, valid, exact), Rule("npm", Namespace(raw), None, Deny, None);
    var rules := [rule];
    assert rule in rules && forall r | r in rules :: r == rule;
    assert IsScope(rule, a, NpmNamespace(raw), Deny);
    ScopesAgree(rules, a, name);
    NamesAgree(rules, a, name);
    assert rules[..0] == [] && BucketsOf(rules, a) == Filed(EMPTY, rule, a);
  }

  /** The rule that denies the name `" "` compiles, and the filter then rejects the document. */
  lemma BlankRuleFailsClosed(lower: Lowering, valid: string -> bool, exact: string -> Option<string>, minAge: string,
                             lib: Library)
    requires Lowers(lower)
    ensures var a, rules := NpmAdapter(lower, valid, exact), [Rule("npm", Package(" "), None, Deny, None)];
      && Accepted(rules, a) && Resolvable(BucketsOf(rules, a), a)
      && !Compiles(NpmEmit.DocOf(Resolved(BucketsOf(rules, a)), minAge), lib)
  {
    var a, rule := NpmAdapter(lower, valid, exact), Rule("npm", Package(" "), None, Deny, None);
    var rules := [rule];
    assert StripLeft(" ") == StripLeft(" "[1..]) == "";
    assert NpmName(" ", lower) == "";
    assert rules[..0] == [] && BucketsOf(rules, a) == Filed(EMPTY, rule, a);
    assert rule in rules && IsWhole(rule, a, "", Deny);
    assert forall r | r in rules :: r == rule;
    NpmEmit.BlankNameFailsClosed(rules, a, minAge, lib);
  }
}

/** The adapters on plain versions, `1.2.3` and `1.2`, and a semver library that reads these:
    every hypothesis of the translation theorems holds of them, whatever the rules are. */
module PlainAdapters {
  import opened Base
  import opened Text
  import opened Rules
  import opened Adapters
  import opened NpmCompiler
  import opened NpmFilter
  import opened NpmMeaning
  import opened MinAge
  import opened Names
  import Compile
  import DevpiConstraints
  import EndToEnd
  import NpmEmit
  import Pep440
  import PypiCompiler
  import PypiMeaning
  import SemverOrder

  /******* pypi *******/

  /** One comparator, spaces around its parts allowed. */
  function ReadComparator(text: string): Option<Pep440.Spec> {
    match DevpiConstraints.ReadSpec(Strip(text))
    case None => None
    case Some(s) => if PypiMeaning.PlainRelease(Strip(s.version)) then Some(Pep440.Spec(s.op, Strip(s.version)))
                    else None
  }

  /** A comparator that has a complement. */
  function ReadSingle(text: string): Option<Pep440.Spec> {
    var s := ReadComparator(text);
    if s.Some? && s.value.op.Ne? then None else s
  }

  function ReadPin(text: string): Option<string> {
    var s := ReadComparator(text);
    if s.Some? && s.value.op.Eq? then Some(s.value.version) else None
  }

  predicate ValidSet(text: string) {
    var parts := SplitOn(text, ',');
    forall i | 0 <= i < |parts| :: ReadComparator(parts[i]).Some?
  }

  function Pypi(): PypiCompiler.Dialect { PypiDialect(Lower, ValidSet, ReadPin, ReadSingle) }

  lemma EveryPypiRuleIsPlain(rules: seq<Rule>)
    ensures PypiMeaning.PlainRules(rules, Pypi())
  {
    LowerLowers();
    PypiRulesArePlain(rules, Pypi(), Lower, ValidSet, ReadPin, ReadSingle);
    forall n, e | ExactAllowed(rules, Pypi().a, n, e) ensures PypiMeaning.PlainRelease(e) {
      var r :| r in rules && IsExact(r, Pypi().a, n, e);
    }
  }

  /******* npm *******/

  predicate IsNumber(s: string) { Pep440.IsNumeral(s) && (|s| > 1 ==> s[0] != '0') }

  predicate IsTriple(v: string) {
    var parts := SplitOn(v, '.');
    |parts| == 3 && IsNumber(parts[0]) && IsNumber(parts[1]) && IsNumber(parts[2])
  }

  function ParseTriple(v: string): Option<SemverOrder.Semver> {
    if !IsTriple(v) then None
    else
      var parts := SplitOn(v, '.');
      Some(SemverOrder.Semver(
        Pep440.DigitsValue(parts[0]), Pep440.DigitsValue(parts[1]), Pep440.DigitsValue(parts[2]), None))
  }

  /** `=1.2.3` or `1.2.3`, with an optional `v` that is dropped. */
  function ReadExact(text: string): Option<string> {
    var t := Strip(text);
    var u := if "=" <= t then Strip(t[1..]) else t;
    var v := if "v" <= u then u[1..] else u;
    if IsTriple(v) then Some(v) else None
  }

  /** One comparator; a bare version is an equality. */
  function ReadOne(text: string): Option<Comparator> {
    var t := Strip(text);
    var (op, rest) :=
      if "<=" <= t then (Le, t[2..]) else if ">=" <= t then (Ge, t[2..])
      else if "<" <= t then (Lt, t[1..]) else if ">" <= t then (Gt, t[1..])
      else if "=" <= t then (Eq, t[1..]) else (Eq, t);
    match ParseTriple(rest)
    case Some(v) => Some(Comparator(op, v))
    case None => None
  }

  /** Alternatives, of which the empty parts between two bars keep count. */
  function ReadAlternatives(parts: seq<string>): Option<Range> {
    if parts == [] then None
    else if |parts| == 1 then
      match ReadOne(parts[0]) case Some(c) => Some([[c]]) case None => None
    else if |parts| == 2 || parts[1] != "" then None
    else match (ReadOne(parts[0]), ReadAlternatives(parts[2..]))
      case (Some(c), Some(rest)) => Some([[c]] + rest)
      case _ => None
  }

  function ReadRange(text: string): Option<Range> { ReadAlternatives(SplitOn(text, '|')) }

  function Lib(a: Arithmetic): Library {
    Library(ParseTriple, ReadRange, (text: string) => FilterMilliseconds(text, a))
  }

  function Npm(): Adapter { NpmAdapter(Lower, (text: string) => ReadRange(text).Some?, ReadExact) }

  lemma TripleChars(v: string)
    requires IsTriple(v)
    ensures forall i | 0 <= i < |v| :: Pep440.IsDigit(v[i]) || v[i] == '.'
    ensures v != [] && Pep440.IsDigit(v[0]) && Pep440.IsDigit(v[|v| - 1])
  {
    var parts := SplitOn(v, '.');
    JoinSplit(v, '.');
    assert parts[1..] == [parts[1], parts[2]] && parts[1..][1..] == [parts[2]];
    assert JoinWith(parts[1..], '.') == parts[1] + ['.'] + parts[2];
    assert v == parts[0] + ['.'] + (parts[1] + ['.'] + parts[2]);
  }

  lemma SplitsInThree(x: string, y: string, z: string)
    requires '.' !in x && '.' !in y && '.' !in z
    ensures SplitOn(x + ['.'] + y + ['.'] + z, '.') == [x, y, z]
  {
    SplitFirst(x, y + ['.'] + z, '.');
    SplitFirst(y, z, '.');
    SplitFirst(z, "", '.');
    assert x + ['.'] + y + ['.'] + z == x + ['.'] + (y + ['.'] + z);
  }

  /** Three numerals without leading zeros, with points between them, and the numbers they stand for. */
  lemma TripleMeaning(x: string, y: string, z: string)
    requires Pep440.IsNumeral(x) && Pep440.IsNumeral(y) && Pep440.IsNumeral(z)
    requires (x == "0" || x[0] != '0') && (y == "0" || y[0] != '0') && (z == "0" || z[0] != '0')
    ensures ParseTriple(x + ['.'] + y + ['.'] + z)
         == Some(SemverOrder.Semver(Pep440.DigitsValue(x), Pep440.DigitsValue(y), Pep440.DigitsValue(z), None))
  {
    NoPointIn(x);
    NoPointIn(y);
    NoPointIn(z);
    SplitsInThree(x, y, z);
  }

  lemma NoPointIn(x: string)
    requires Pep440.IsNumeral(x)
    ensures '.' !in x && (x == "0" || x[0] != '0' ==> IsNumber(x))
  {
  }

  /** What a comparator with a plain version admits. */
  lemma ComparatorMeaning(v: string, w: SemverOrder.Semver, a: Arithmetic)
    requires IsTriple(v)
    ensures var c := SemverOrder.Compare(w, ParseTriple(v).value);
      && (SatisfiesText(Lib(a), w, "<" + v) <==> c < 0) && (SatisfiesText(Lib(a), w, "<=" + v) <==> c <= 0)
      && (SatisfiesText(Lib(a), w, ">" + v) <==> c > 0) && (SatisfiesText(Lib(a), w, ">=" + v) <==> c >= 0)
      && (SatisfiesText(Lib(a), w, "=" + v) <==> c == 0) && (SatisfiesText(Lib(a), w, v) <==> c == 0)
  {
    ReadsAlone("<", Lt, v, w, a);
    ReadsAlone("<=", Le, v, w, a);
    ReadsAlone(">", Gt, v, w, a);
    ReadsAlone(">=", Ge, v, w, a);
    ReadsAlone("=", Eq, v, w, a);
    ReadsAlone("", Eq, v, w, a);
    assert "" + v == v;
  }

  lemma ReadsAlone(text: string, op: RangeOp, v: string, w: SemverOrder.Semver, a: Arithmetic)
    requires IsTriple(v) && text in {"<", "<=", ">", ">=", "=", ""}
    requires op == match text case "<" => Lt case "<=" => Le case ">" => Gt case ">=" => Ge case _ => Eq
    ensures SatisfiesText(Lib(a), w, text + v) <==> Holds(Comparator(op, ParseTriple(v).value), w)
  {
    var t, c := text + v, Comparator(op, ParseTriple(v).value);
    ReadsComparatorText(text, op, v);
    SplitFirst(t, "", '|');
    OneSatisfies(c, w);
  }

  lemma OneSatisfies(c: Comparator, w: SemverOrder.Semver)
    ensures Satisfies(w, [[c]]) <==> Holds(c, w)
  {
    assert [[c]][0] == [c] && c in [c];
  }

  lemma ComparatorTextIsStripped(text: string, v: string)
    requires IsTriple(v) && text in {"<", "<=", ">", ">=", "=", ""}
    ensures Strip(text + v) == text + v && '|' !in text + v
  {
    var t := text + v;
    TripleChars(v);
    assert t[|t| - 1] == v[|v| - 1];
    assert if text == "" then t == v else t[0] == text[0];
    assert Stripped(t);
    StripFacts(t);
  }

  lemma ReadsComparatorText(text: string, op: RangeOp, v: string)
    requires IsTriple(v) && text in {"<", "<=", ">", ">=", "=", ""}
    requires op == match text case "<" => Lt case "<=" => Le case ">" => Gt case ">=" => Ge case _ => Eq
    ensures ReadOne(text + v) == Some(Comparator(op, ParseTriple(v).value)) && '|' !in text + v
  {
    ComparatorTextIsStripped(text, v);
    TripleChars(v);
    assert (text + v)[|text|..] == v && v[0] != '=';
  }

  lemma ReadsOneAs(op: char, v: string)
    requires IsTriple(v) && (op == '<' || op == '>')
    ensures ReadOne([op] + v) == Some(Comparator(if op == '<' then Lt else Gt, ParseTriple(v).value))
    ensures ReadOne([op] + v + " ") == ReadOne([op] + v) && ReadOne(" " + ([op] + v)) == ReadOne([op] + v)
  {
    TripleChars(v);
    var t := [op] + v;
    assert Stripped(t) && t[1..] == v;
    StripFacts(t);
    StripsEnd(t);
    StripsStart(t);
  }

  lemma StripsEnd(t: string)
    requires t != [] && Stripped(t)
    ensures Strip(t + " ") == t
  {
    assert (t + " ")[..|t|] == t;
    assert StripRight(t + " ") == StripRight(t) == t;
  }

  lemma StripsStart(t: string)
    requires t != [] && Stripped(t)
    ensures Strip(" " + t) == t
  {
    assert (" " + t)[1..] == t;
    assert StripLeft(" " + t) == StripLeft(t) == t;
  }

  function CarveOutParts(v: string): seq<string> { [['<'] + v + " ", "", " " + (['>'] + v)] }

  lemma CarveOutSplits(v: string)
    requires '|' !in v
    ensures SplitOn(CarveOut(v), '|') == CarveOutParts(v)
  {
    var below, above := ['<'] + v + " ", " " + (['>'] + v);
    var parts := CarveOutParts(v);
    JoinOfThree(below, "", above);
    CarveOutText(v);
    SplitJoin(parts, '|');
  }

  lemma JoinOfThree(a: string, b: string, c: string)
    ensures JoinWith([a, b, c], '|') == a + ['|'] + (b + ['|'] + c)
  {
    var parts := [a, b, c];
    assert parts[1..] == [b, c] && [b, c][1..] == [c];
    assert JoinWith([b, c], '|') == b + ['|'] + c;
  }

  lemma CarveOutText(v: string)
    ensures CarveOut(v) == (['<'] + v + " ") + ['|'] + ("" + ['|'] + (" " + (['>'] + v)))
  {
    var head, bars := "<" + v, " || >";
    assert CarveOut(v) == head + bars + v;
    assert bars == " " + ['|'] + ['|'] + " " + ['>'];
  }

  /** The carve-out of a pin is read as everything but that version. */
  lemma CarveOutIsRead(v: string, a: Arithmetic)
    requires IsTriple(v)
    ensures CarveOutReads(Lib(a), v)
  {
    TripleChars(v);
    CarveOutSplits(v);
    var parsed := ParseTriple(v).value;
    ReadsOneAs('<', v);
    ReadsOneAs('>', v);
    ReadsTwo(['<'] + v + " ", " " + (['>'] + v), Comparator(Lt, parsed), Comparator(Gt, parsed));
  }

  lemma ReadsTwo(first: string, second: string, a: Comparator, b: Comparator)
    requires ReadOne(first) == Some(a) && ReadOne(second) == Some(b)
    ensures ReadAlternatives([first, "", second]) == Some([[a], [b]])
  {
    assert [first, "", second][2..] == [second];
    assert [[a]] + [[b]] == [[a], [b]];
  }

  lemma EveryCarveOutIsRead(rules: seq<Rule>, a: Arithmetic, name: string)
    ensures CarveOutsRead(rules, Npm(), Lib(a), name)
  {
    forall e | ExactAllowed(rules, Npm(), name, e) ensures CarveOutReads(Lib(a), e) {
      var r :| r in rules && IsExact(r, Npm(), name, e);
      CarveOutIsRead(e, a);
    }
  }

  /** A standing range was validated, and validated ranges are those the library reads. */
  lemma ReadableRanges(rules: seq<Rule>, a: Arithmetic)
    requires Accepted(rules, Npm()) && Resolvable(BucketsOf(rules, Npm()), Npm())
    ensures forall n | n in Resolved(BucketsOf(rules, Npm())).ranges ::
      forall d | d in Resolved(BucketsOf(rules, Npm())).ranges[n] :: Lib(a).read(d.text).Some?
  {
    BucketRangesValid(rules, Npm());
    NpmEmit.ResolvedRangesValid(BucketsOf(rules, Npm()), Npm());
  }

  /******* Policies over plain versions *******/

  /** For every policy that compiles: the filter loads its document if and only if it can read the minimum age and no
      blank name stands in it, and then blocks exactly what the rules deny of a package whose pins agree. */
  lemma NpmPoliciesAreEnforced(p: Compile.Policy, a: Arithmetic, name: string)
    requires Compile.Compilable(p, Npm(), Pypi())
    ensures var blocks := Resolved(BucketsOf(p.rules, Npm()));
      var policy := EndToEnd.FilterCompiler(Lib(a))(Compile.ArtifactsOf(p, Npm(), Pypi()).npmYaml);
      && (policy.Some? <==> FilterMilliseconds(p.minAge, a).Some? && "" !in blocks.packages && "" !in blocks.ranges)
      && (policy.Some? ==>
            && Some(policy.value.minAgeMs) == FilterMilliseconds(p.minAge, a)
            && ((forall v :: Blocked(policy.value, Lib(a), name, v) <==> Denied(p.rules, Npm(), Lib(a), name, v))
                <==> !AllowsClash(p.rules, Npm(), Lib(a), name)))
  {
    NpmPrefixesScopes(Lower, (text: string) => ReadRange(text).Some?, ReadExact);
    EveryCarveOutIsRead(p.rules, a, name);
    ReadableRanges(p.rules, a);
    EndToEnd.FilterEnforcesPolicy(p, Npm(), Pypi(), Lib(a), name);
  }

  /** Its minimum age comes from a setting that policy-sync accepted: so the filter loads the document if and only if
      the setting is ASCII and fits, and no blank name stands in it. */
  lemma AcceptedSettingsLoad(p: Compile.Policy, setting: Option<string>, u: Decimals, a: Arithmetic)
    requires Compile.Compilable(p, Npm(), Pypi()) && Unicode(u) && Rounds(a)
    requires ValidateMinAge(setting, u) == Some(p.minAge)
    ensures var blocks := Resolved(BucketsOf(p.rules, Npm()));
      EndToEnd.FilterCompiler(Lib(a))(Compile.ArtifactsOf(p, Npm(), Pypi()).npmYaml).Some?
      <==> Ascii(p.minAge) && Fits(p.minAge, a) && "" !in blocks.packages && "" !in blocks.ranges
  {
    NpmPoliciesAreEnforced(p, a, "");
    SettingIsRead(setting, u, a);
  }

  /** A policy whose minimum age is written with a digit outside ASCII is accepted and compiles, whatever its rules are,
      and the filter rejects its document. */
  lemma ForeignDigitFailsClosed(p: Compile.Policy, c: char, u: Decimals, a: Arithmetic)
    requires Compile.Compilable(p, Npm(), Pypi()) && Unicode(u) && u(c).Some? && c >= '\U{80}'
    requires p.minAge == "P" + [c] + "D"
    ensures ValidateMinAge(Some(p.minAge), u) == Some(p.minAge)
    ensures EndToEnd.FilterCompiler(Lib(a))(Compile.ArtifactsOf(p, Npm(), Pypi()).npmYaml).None?
  {
    OtherDigits(c, u, a);
    NpmPoliciesAreEnforced(p, a, "");
  }

  /** For every policy that compiles: an index that shows it can read the constraints if and only if it denies by
      default or no package is denied both whole and by range; then it admits exactly the releases the rules allow, but
      for release 0 of a killed package. */
  lemma PypiPoliciesAreEnforced(c: EndToEnd.DevpiApply.IndexConfig, p: Compile.Policy, name: string, x: Pep440.Release)
    requires Compile.Compilable(p, Npm(), Pypi())
    requires EndToEnd.DevpiApply.Holds(c, Compile.ArtifactsOf(p, Npm(), Pypi()).pypiConstraints, p.minAge)
    ensures var cs := DevpiConstraints.Parsed(EndToEnd.DevpiApply.EffectiveOf(c.constraints).value);
      && (cs.Some? <==> EndToEnd.DenyAll(p) || forall n :: !PypiMeaning.DeniedTwice(p.rules, Pypi(), n))
      && (cs.Some? ==>
            ((DevpiConstraints.Admits(cs.value, name, x)
              <==> PypiMeaning.AllowedByRules(p.rules, Pypi(), EndToEnd.DenyAll(p), name, x))
             <==> !(PypiMeaning.Killed(p.rules, Pypi(), EndToEnd.DenyAll(p), name)
                    && Pep440.ReleaseOrder.Compare(x, [0]) == 0)))
  {
    EveryPypiRuleIsPlain(p.rules);
    EndToEnd.IndexEnforcesPolicy(c, p, Npm(), Pypi(), name, x);
  }
}

/** What the empty-set guard of the pypi compiler does to rules. */
module EmptySetGuard {
  import opened Base
  import opened Text
  import opened Rules
  import opened Pep440
  import opened PypiCompiler
  import opened PypiMeaning
  import opened PlainAdapters
  import DevpiConstraints
  import Names
  import ReleaseOrder

  /** The rules deny every plain release of the package. */
  ghost predicate AllDenied(rules: seq<Rule>, d: Dialect, name: string) {
    forall x: Release :: RangeDenies(rules, d, name, x)
  }

  ghost predicate RangeDenies(rules: seq<Rule>, d: Dialect, name: string, x: Release) {
    exists t :: RangeDenied(rules, d.a, name, t) && RangeMatches(d, t, x)
  }

  predicate BothSides(specs: seq<Spec>) {
    (exists s | s in specs :: IsLower(s)) && (exists s | s in specs :: s.op in {Lt, Le})
  }

  lemma AdmittedIsMet(specs: seq<Spec>, x: Release)
    requires forall s | s in specs :: Decidable(s)
    ensures Admitted(specs, x) <==> DevpiConstraints.MeetsAll(specs, x)
  {
    forall s | s in specs ensures DevpiConstraints.Meets(s, x) <==> Holds(s.op, x, Rel(s)) {}
  }

  lemma SatisfiableUnlessAllDenied(rules: seq<Rule>, d: Dialect, name: string, specs: seq<Spec>)
    requires forall s | s in specs :: Decidable(s)
    requires forall x: Release :: DevpiConstraints.MeetsAll(specs, x) <==> !RangeDenies(rules, d, name, x)
    ensures Satisfiable(specs) <==> !AllDenied(rules, d, name)
  {
    forall x: Release ensures Admitted(specs, x) <==> !RangeDenies(rules, d, name, x) {
      AdmittedIsMet(specs, x);
    }
  }

  /** For every package whose complements are one-sided: the guard refuses it exactly when its denies, coming from both
      sides, leave no release, if and only if the tuples of its tightest bounds do not hide how they meet. */
  lemma GuardIsExact(rules: seq<Rule>, d: Dialect, name: string)
    requires Accepted(rules, d.a) && PlainRules(rules, d) && name in BucketsOf(rules, d.a).ranges
    requires Complementable(d, SortByText(BucketsOf(rules, d.a).ranges[name]))
    requires forall s | s in RangeSpecs(d, BucketsOf(rules, d.a).ranges[name]) :: Decidable(s)
    ensures var specs := RangeSpecs(d, BucketsOf(rules, d.a).ranges[name]);
      (ReadsAsEmpty(specs) <==> BothSides(specs) && AllDenied(rules, d, name)) <==> !Misread(specs)
  {
    var specs := RangeSpecs(d, BucketsOf(rules, d.a).ranges[name]);
    forall x: Release ensures DevpiConstraints.MeetsAll(specs, x) <==> !RangeDenies(rules, d, name, x) {
      ComplementsAreExact(rules, d, name, x);
    }
    SatisfiableUnlessAllDenied(rules, d, name, specs);
    EmptyTestIsExact(specs);
    assert BothSides(specs) <==> (exists s | s in specs :: IsLower(s)) && exists s | s in specs :: !IsLower(s);
  }

  /** The verdict of the guard on the complements of the package is wrong: a hidden meeting where all are one-sided, and
      an empty set that is bounded both ways where one of them is not. */
  ghost predicate Misjudged(rules: seq<Rule>, d: Dialect, name: string, specs: seq<Spec>) {
    if forall s | s in specs :: Decidable(s) then Misread(specs)
    else BothSides(specs) && AllDenied(rules, d, name)
  }

  /** For every package with range denies: with a complement that is not one-sided, such as that of `==1`, the guard is
      silent; so it refuses exactly what leaves no release, if and only if that is not misjudged. */
  lemma GuardVerdict(rules: seq<Rule>, d: Dialect, name: string)
    requires Accepted(rules, d.a) && PlainRules(rules, d) && name in BucketsOf(rules, d.a).ranges
    requires Complementable(d, SortByText(BucketsOf(rules, d.a).ranges[name]))
    ensures var specs := RangeSpecs(d, BucketsOf(rules, d.a).ranges[name]);
      (ReadsAsEmpty(specs) <==> BothSides(specs) && AllDenied(rules, d, name)) <==> !Misjudged(rules, d, name, specs)
  {
    if forall s | s in RangeSpecs(d, BucketsOf(rules, d.a).ranges[name]) :: Decidable(s) {
      GuardIsExact(rules, d, name);
    }
  }

  /******* The denies of one package, through the whole compiler *******/

  function DenyOf(name: string, s: Spec): Rule { Rule("pypi", Package(name), Some(SpecText(s)), Deny, None) }

  function DeniesOf(name: string, denies: seq<Spec>): seq<Rule> {
    seq(|denies|, i requires 0 <= i < |denies| => DenyOf(name, denies[i]))
  }

  /** The denied ranges, as the compiler files them. */
  function FiledOf(denies: seq<Spec>): seq<RangeDeny> {
    seq(|denies|, i requires 0 <= i < |denies| => RangeDeny(SpecText(denies[i]), None))
  }

  /** Comparators that have a complement. */
  predicate Plain(denies: seq<Spec>) { forall s | s in denies :: s.op != Ne && PlainRelease(s.version) }

  predicate PlainSpecs(specs: seq<Spec>) { forall s | s in specs :: PlainRelease(s.version) }

  lemma ReadsComparator(s: Spec)
    requires PlainRelease(s.version)
    ensures ReadComparator(SpecText(s)) == Some(s) && ',' !in SpecText(s)
  {
    DevpiConstraints.ReadsSpec(s);
    var t := SpecText(s);
    assert t[|t| - 1] == s.version[|s.version| - 1];
    assert Stripped(t) && Stripped(s.version);
    StripFacts(t);
    StripFacts(s.version);
  }

  /** Joined comparators are a valid set. */
  lemma JoinedIsValid(specs: seq<Spec>)
    requires specs != [] && PlainSpecs(specs)
    ensures ValidSet(JoinWith(SpecTexts(specs), ','))
  {
    var texts := SpecTexts(specs);
    forall i | 0 <= i < |texts| ensures ',' !in texts[i] && ReadComparator(texts[i]).Some? {
      assert specs[i] in specs;
      ReadsComparator(specs[i]);
    }
    SplitJoin(texts, ',');
  }

  lemma OneIsValid(s: Spec)
    requires PlainRelease(s.version)
    ensures ValidSet(SpecText(s))
  {
    JoinedIsValid([s]);
    assert SpecTexts([s]) == [SpecText(s)];
  }

  /* The rules are accepted and filed. */

  lemma DeniesAccepted(name: string, denies: seq<Spec>)
    requires Names.PypiName(name, Names.Lower) == Some(name) && PlainSpecs(denies)
    ensures Accepted(DeniesOf(name, denies), Pypi().a)
  {
    forall r | r in DeniesOf(name, denies) ensures RuleError(r, Pypi().a).None? {
      var i :| 0 <= i < |denies| && r == DenyOf(name, denies[i]);
      assert denies[i] in denies;
      OneIsValid(denies[i]);
    }
  }

  lemma FiledNext(b: Buckets, name: string, s: Spec)
    requires Names.PypiName(name, Names.Lower) == Some(name) && RuleError(DenyOf(name, s), Pypi().a).None?
    ensures Filed(b, DenyOf(name, s), Pypi().a)
         == b.(ranges := b.ranges[name := RangesOf(b, name) + [RangeDeny(SpecText(s), None)]])
  {
  }

  /** The buckets that hold the range denies of one package and nothing else. */
  function OnlyDenies(name: string, denies: seq<Spec>): Buckets {
    if denies == [] then EMPTY else EMPTY.(ranges := map[name := FiledOf(denies)])
  }

  lemma OneMoreDeny(name: string, denies: seq<Spec>, s: Spec)
    ensures var b := OnlyDenies(name, denies);
      OnlyDenies(name, denies + [s])
      == b.(ranges := b.ranges[name := RangesOf(b, name) + [RangeDeny(SpecText(s), None)]])
  {
    var b := OnlyDenies(name, denies);
    assert FiledOf(denies + [s]) == FiledOf(denies) + [RangeDeny(SpecText(s), None)];
    assert RangesOf(b, name) == FiledOf(denies);
    assert b.ranges[name := FiledOf(denies + [s])] == map[name := FiledOf(denies + [s])];
  }

  lemma LastDeny(name: string, denies: seq<Spec>)
    requires denies != []
    ensures var n := |denies| - 1;
      DeniesOf(name, denies)[..n] == DeniesOf(name, denies[..n]) && DeniesOf(name, denies)[n] == DenyOf(name, denies[n])
  {
  }

  lemma {:induction false} DeniesFiled(name: string, denies: seq<Spec>)
    requires Names.PypiName(name, Names.Lower) == Some(name) && Accepted(DeniesOf(name, denies), Pypi().a)
    ensures BucketsOf(DeniesOf(name, denies), Pypi().a) == OnlyDenies(name, denies)
  {
    if denies != [] {
      var n, rules := |denies| - 1, DeniesOf(name, denies);
      LastDeny(name, denies);
      assert rules[n] in rules;
      DeniesFiled(name, denies[..n]);
      FiledNext(BucketsOf(rules[..n], Pypi().a), name, denies[n]);
      OneMoreDeny(name, denies[..n], denies[n]);
      assert denies[..n] + [denies[n]] == denies;
    }
  }

  /* Their complements. */

  function Inverted(s: Spec): Spec
    requires s.op != Ne
  {
    Spec(ComplementOp(s.op), s.version)
  }

  lemma OneInverts(s: Spec)
    requires s.op != Ne && PlainRelease(s.version)
    ensures Complement(Pypi(), SpecText(s)) == Some(Inverted(s))
  {
    ReadsComparator(s);
  }

  /** A sorted range is the text of one of the denies. */
  lemma SortedIsDeny(denies: seq<Spec>, i: nat) returns (s: Spec)
    requires i < |SortByText(FiledOf(denies))|
    ensures s in denies && SortByText(FiledOf(denies))[i].text == SpecText(s)
  {
    var ds := FiledOf(denies);
    var sorted := SortByText(ds);
    SortFacts(ds);
    assert sorted[i] in multiset(sorted) && sorted[i] in ds;
    var j :| 0 <= j < |denies| && sorted[i] == ds[j];
    s := denies[j];
  }

  lemma DeniesInvertAt(denies: seq<Spec>, i: nat)
    requires Plain(denies) && i < |SortByText(FiledOf(denies))|
    ensures var c := Complement(Pypi(), SortByText(FiledOf(denies))[i].text); c.Some? && PlainRelease(c.value.version)
  {
    var s := SortedIsDeny(denies, i);
    OneInverts(s);
  }

  lemma SortKeepsLength(ds: seq<RangeDeny>)
    ensures |SortByText(ds)| == |ds|
  {
    SortFacts(ds);
    assert |multiset(SortByText(ds))| == |multiset(ds)|;
  }

  lemma DeniesInvert(denies: seq<Spec>)
    requires Plain(denies)
    ensures Complementable(Pypi(), SortByText(FiledOf(denies)))
    ensures |RangeSpecs(Pypi(), FiledOf(denies))| == |denies| && PlainSpecs(RangeSpecs(Pypi(), FiledOf(denies)))
  {
    var sorted := SortByText(FiledOf(denies));
    SortKeepsLength(FiledOf(denies));
    forall i | 0 <= i < |sorted|
      ensures var c := Complement(Pypi(), sorted[i].text); c.Some? && PlainRelease(c.value.version)
    {
      DeniesInvertAt(denies, i);
    }
  }

  /** The printed line passes every guard but the one on empty sets. */
  lemma LinePrints(name: string, specs: seq<Spec>)
    requires Names.PypiName(name, Names.Lower) == Some(name) && specs != [] && PlainSpecs(specs)
    ensures LineValid(Pypi(), LineText(PypiLine(name, specs)))
  {
    Names.LowerLowers();
    Names.PypiNameFacts(name, Names.Lower);
    JoinedIsValid(specs);
    GuardChecksSpecifiers(Pypi(), name, specs);
  }

  lemma DeniesLineOk(name: string, denies: seq<Spec>)
    requires Names.PypiName(name, Names.Lower) == Some(name) && denies != [] && Plain(denies)
    ensures Complementable(Pypi(), SortByText(FiledOf(denies)))
    ensures RangeLineOk(Pypi(), name, FiledOf(denies)) <==> !ReadsAsEmpty(RangeSpecs(Pypi(), FiledOf(denies)))
  {
    DeniesInvert(denies);
    JoinedIsValid(RangeSpecs(Pypi(), FiledOf(denies)));
    LinePrints(name, RangeSpecs(Pypi(), FiledOf(denies)));
  }

  /** Any range denies of one package that can be inverted, and nothing else in the policy: the compiler refuses them if
      and only if the guard reads their complements as empty. */
  lemma DeniesCompile(name: string, denies: seq<Spec>)
    requires Names.PypiName(name, Names.Lower) == Some(name) && denies != [] && Plain(denies)
    ensures Accepted(DeniesOf(name, denies), Pypi().a) && Complementable(Pypi(), SortByText(FiledOf(denies)))
    ensures BucketsOf(DeniesOf(name, denies), Pypi().a) == EMPTY.(ranges := map[name := FiledOf(denies)])
    ensures Emittable(Pypi(), BucketsOf(DeniesOf(name, denies), Pypi().a), false)
            <==> !ReadsAsEmpty(RangeSpecs(Pypi(), FiledOf(denies)))
  {
    DeniesAccepted(name, denies);
    DeniesFiled(name, denies);
    DeniesLineOk(name, denies);
    OnlyRanges(Pypi(), BucketsOf(DeniesOf(name, denies), Pypi().a), name, FiledOf(denies));
  }

  /** So such a policy is refused exactly when its denies, coming from both sides, leave no release, if and only if the
      guard does not misjudge them. */
  lemma DeniesRefused(name: string, denies: seq<Spec>)
    requires Names.PypiName(name, Names.Lower) == Some(name) && denies != [] && Plain(denies)
    requires Accepted(DeniesOf(name, denies), Pypi().a) && Complementable(Pypi(), SortByText(FiledOf(denies)))
    ensures var rules, specs := DeniesOf(name, denies), RangeSpecs(Pypi(), FiledOf(denies));
      (!Emittable(Pypi(), BucketsOf(rules, Pypi().a), false) <==> BothSides(specs) && AllDenied(rules, Pypi(), name))
      <==> !Misjudged(rules, Pypi(), name, specs)
  {
    DeniesCompile(name, denies);
    EveryPypiRuleIsPlain(DeniesOf(name, denies));
    GuardVerdict(DeniesOf(name, denies), Pypi(), name);
  }

  lemma DeniesMeaning(name: string, denies: seq<Spec>, x: Release)
    requires Names.PypiName(name, Names.Lower) == Some(name) && denies != [] && Plain(denies)
    ensures Accepted(DeniesOf(name, denies), Pypi().a) && Complementable(Pypi(), SortByText(FiledOf(denies)))
    ensures AllowedByRules(DeniesOf(name, denies), Pypi(), false, name, x)
            <==> DevpiConstraints.MeetsAll(RangeSpecs(Pypi(), FiledOf(denies)), x)
  {
    DeniesCompile(name, denies);
    EveryPypiRuleIsPlain(DeniesOf(name, denies));
    RangedMeaning(DeniesOf(name, denies), Pypi(), name, x);
  }

  /** With one package's range denies alone, everything depends on its line. */
  lemma OnlyRanges(d: Dialect, b: Buckets, name: string, ds: seq<RangeDeny>)
    requires b == EMPTY.(ranges := map[name := ds])
    ensures Plannable(b, false) && PlanOf(b, false) == Plan(b.ranges, {}, map[], {})
    ensures Emittable(d, b, false) <==> RangeLineOk(d, name, ds)
  {
    NothingElse(d);
    assert b.ranges - b.wholeAllows == b.ranges;
    assert PlanOf(b, false) == Plan(b.ranges, {}, map[], {});
    assert name in b.ranges && b.ranges[name] == ds && forall n | n in b.ranges :: n == name;
    if RangeLinesOk(d, b.ranges) { assert RangeLineOk(d, name, b.ranges[name]); }
  }

  lemma NothingElse(d: Dialect)
    ensures LinesValid(d, WholeLines(Sorted({}))) && LinesValid(d, BareLines(Sorted({})))
    ensures var none: map<string, string> := map[]; LinesValid(d, PinLines(SortedKeys(none), none))
  {
    SortedFacts({});
  }

  /* Denies that stand in text order. */

  lemma {:induction false} InsertsLast(d: RangeDeny, ds: seq<RangeDeny>)
    requires forall i | 0 <= i < |ds| :: !Before(d.text, ds[i].text)
    ensures InsertByText(d, ds) == ds + [d]
  {
    if ds != [] {
      InsertsLast(d, ds[1..]);
      assert ds == [ds[0]] + ds[1..];
    }
  }

  lemma {:induction false} SortedStays(ds: seq<RangeDeny>)
    requires TextSorted(ds)
    ensures SortByText(ds) == ds
  {
    if ds != [] {
      var n := |ds| - 1;
      SortedStays(ds[..n]);
      InsertsLast(ds[n], ds[..n]);
    }
  }

  /** The texts ascend. */
  predicate Ascending(denies: seq<Spec>) {
    forall i, j | 0 <= i < j < |denies| :: !Before(SpecText(denies[j]), SpecText(denies[i]))
  }

  /** The complements in the order of the denies, where that is the order of their texts. */
  lemma InOrder(denies: seq<Spec>)
    requires Plain(denies) && Ascending(denies)
    ensures Complementable(Pypi(), SortByText(FiledOf(denies))) && |RangeSpecs(Pypi(), FiledOf(denies))| == |denies|
    ensures forall i | 0 <= i < |denies| ::
      denies[i].op != Ne && RangeSpecs(Pypi(), FiledOf(denies))[i] == Inverted(denies[i])
  {
    SortedStays(FiledOf(denies));
    DeniesInvert(denies);
    forall i | 0 <= i < |denies|
      ensures denies[i].op != Ne && RangeSpecs(Pypi(), FiledOf(denies))[i] == Inverted(denies[i])
    {
      assert denies[i] in denies;
      OneInverts(denies[i]);
    }
  }

  lemma TwoInOrder(denies: seq<Spec>)
    requires |denies| == 2 && Plain(denies) && !Before(SpecText(denies[1]), SpecText(denies[0]))
    ensures Complementable(Pypi(), SortByText(FiledOf(denies))) && forall s | s in denies :: s.op != Ne
    ensures RangeSpecs(Pypi(), FiledOf(denies)) == [Inverted(denies[0]), Inverted(denies[1])]
  {
    InOrder(denies);
  }

  lemma ThreeInOrder(denies: seq<Spec>)
    requires |denies| == 3 && Plain(denies) && Ascending(denies)
    ensures Complementable(Pypi(), SortByText(FiledOf(denies))) && forall s | s in denies :: s.op != Ne
    ensures RangeSpecs(Pypi(), FiledOf(denies)) == [Inverted(denies[0]), Inverted(denies[1]), Inverted(denies[2])]
  {
    InOrder(denies);
  }

  /** Texts go by their first character, where these differ. */
  lemma OpsInOrder(s: Spec, t: Spec)
    requires SpecText(s)[0] < SpecText(t)[0]
    ensures !Before(SpecText(t), SpecText(s))
  {
  }

  /** One release spelled `1.0` and `1`: denying what is below it and what is above it is refused, although 1 is
      allowed. */
  lemma SplitReleaseIsRefused()
    ensures var rules, d := DeniesOf("a", [Spec(Lt, "1.0"), Spec(Gt, "1")]), Pypi();
      && Accepted(rules, d.a) && !Emittable(d, BucketsOf(rules, d.a), false)
      && AllowedByRules(rules, d, false, "a", [1])
  {
    var denies := [Spec(Lt, "1.0"), Spec(Gt, "1")];
    PlainLiterals();
    OpsInOrder(denies[0], denies[1]);
    TwoInOrder(denies);
    DeniesCompile("a", denies);
    DeniesMeaning("a", denies, [1]);
    UnpaddedTuplesErr();
    AdmittedIsMet([Spec(Ge, "1.0"), Spec(Le, "1")], [1]);
  }

  /** And denying what is below it and from it on is accepted, although nothing is left. */
  lemma HiddenEmptyIsAccepted()
    ensures var rules, d := DeniesOf("a", [Spec(Lt, "1"), Spec(Ge, "1.0")]), Pypi();
      && Accepted(rules, d.a) && Emittable(d, BucketsOf(rules, d.a), false)
      && forall x :: !AllowedByRules(rules, d, false, "a", x)
  {
    var denies, specs := [Spec(Lt, "1"), Spec(Ge, "1.0")], [Spec(Ge, "1"), Spec(Lt, "1.0")];
    PlainLiterals();
    OpsInOrder(denies[0], denies[1]);
    TwoInOrder(denies);
    DeniesCompile("a", denies);
    UnpaddedTuplesErr();
    forall x: Release ensures !AllowedByRules(DeniesOf("a", denies), Pypi(), false, "a", x) {
      AdmittedIsMet(specs, x);
      DeniesMeaning("a", denies, x);
    }
  }

  /** The complements of `<1`, `==1` and `>1`. */
  lemma EqualityComplements()
    ensures var denies := [Spec(Lt, "1"), Spec(Eq, "1"), Spec(Gt, "1")];
      && Plain(denies) && Complementable(Pypi(), SortByText(FiledOf(denies)))
      && RangeSpecs(Pypi(), FiledOf(denies)) == [Spec(Ge, "1"), Spec(Ne, "1"), Spec(Le, "1")]
  {
    var denies := [Spec(Lt, "1"), Spec(Eq, "1"), Spec(Gt, "1")];
    PlainLiterals();
    OpsInOrder(denies[0], denies[1]);
    OpsInOrder(denies[0], denies[2]);
    OpsInOrder(denies[1], denies[2]);
    ThreeInOrder(denies);
  }

  /** With an equality among the denies the guard is silent: `<1`, `==1` and `>1` are accepted, although together they
      deny everything. */
  lemma EqualityHidesEmpty()
    ensures var rules, d := DeniesOf("a", [Spec(Lt, "1"), Spec(Eq, "1"), Spec(Gt, "1")]), Pypi();
      && Accepted(rules, d.a) && Emittable(d, BucketsOf(rules, d.a), false)
      && forall x :: !AllowedByRules(rules, d, false, "a", x)
  {
    var denies, specs := [Spec(Lt, "1"), Spec(Eq, "1"), Spec(Gt, "1")], [Spec(Ge, "1"), Spec(Ne, "1"), Spec(Le, "1")];
    PlainLiterals();
    EqualityComplements();
    DeniesCompile("a", denies);
    UnequalIsSilent(specs, "1");
    forall x: Release ensures !AllowedByRules(DeniesOf("a", denies), Pypi(), false, "a", x) {
      DeniesMeaning("a", denies, x);
      NothingMeets("1", x);
    }
  }

  lemma UnequalIsSilent(specs: seq<Spec>, v: string)
    requires Spec(Ne, v) in specs
    ensures !ReadsAsEmpty(specs)
  {
    assert !Decidable(Spec(Ne, v));
  }

  /** No release is at least, at most and not this one. */
  lemma NothingMeets(v: string, x: Release)
    requires PlainRelease(v)
    ensures !DevpiConstraints.MeetsAll([Spec(Ge, v), Spec(Ne, v), Spec(Le, v)], x)
  {
    var specs := [Spec(Ge, v), Spec(Ne, v), Spec(Le, v)];
    assert specs[0] in specs && specs[1] in specs && specs[2] in specs;
  }

  lemma PlainLiterals()
    ensures PlainRelease("1") && PlainRelease("1.0") && Names.PypiName("a", Names.Lower) == Some("a")
  {
    Pep440.ReadOne();
    Pep440.ReadOneZero();
    StripFacts("a");
    assert Names.Dashed("a") == ['a'] + Names.Dashed("a"[1..]) == "a";
    assert Names.Lower("a") == "a";
  }
}
