/** The Verdaccio filter: compiles a policy document and decides what is blocked. */
module NpmFilter {
  import opened Base
  import opened Text
  import opened SemverOrder
  import opened NpmCompiler

  /******* Semver ranges, as the semver library reads them *******/

  datatype RangeOp = Lt | Le | Gt | Ge | Eq

  datatype Comparator = Comparator(op: RangeOp, version: Semver)

  /** Alternatives joined by `||`, each a list of comparators that must all hold. */
  type Range = seq<seq<Comparator>>

  predicate Holds(c: Comparator, v: Semver) {
    var o := Compare(v, c.version);
    match c.op
    case Lt => o < 0
    case Le => o <= 0
    case Gt => o > 0
    case Ge => o >= 0
    case Eq => o == 0
  }

  predicate Satisfies(v: Semver, range: Range) {
    exists i | 0 <= i < |range| :: forall c | c in range[i] :: Holds(c, v)
  }

  /** What the filter reads texts with: versions, ranges, and the minimum age in milliseconds; None if not valid. */
  datatype Library = Library(
    parse: string -> Option<Semver>,
    read: string -> Option<Range>,
    minAge: string -> Option<real>)

  /******* The policy document and its compiled form *******/

  datatype PackageEntry = Bare(name: string) | Ranged(name: string, versions: string, reason: Option<string>)

  datatype NpmDoc = NpmDoc(minAge: string, scopes: Option<seq<string>>, packages: Option<seq<PackageEntry>>)

  datatype CompiledPolicy = CompiledPolicy(
    scopes: set<string>,
    names: set<string>,
    ranges: map<string, seq<string>>,
    minAgeMs: real)

  function WithAt(scope: string): string {
    if scope != [] && scope[0] == '@' then scope else "@" + scope
  }

  predicate GoodScopes(scopes: seq<string>) { forall i | 0 <= i < |scopes| :: scopes[i] != [] }

  predicate GoodEntry(e: PackageEntry, lib: Library) {
    e.name != [] && (e.Ranged? ==> lib.read(e.versions).Some?)
  }

  predicate GoodEntries(entries: seq<PackageEntry>, lib: Library) {
    forall i | 0 <= i < |entries| :: GoodEntry(entries[i], lib)
  }

  function RangesFor(ranges: map<string, seq<string>>, name: string): seq<string> {
    if name in ranges then ranges[name] else []
  }

  /** Names blocked whole, and the range texts of each name in document order. */
  function Names(entries: seq<PackageEntry>): set<string> {
    set e | e in entries && e.Bare? :: e.name
  }

  function Ranges(entries: seq<PackageEntry>): map<string, seq<string>> {
    if entries == [] then map[]
    else
      var before, e := Ranges(entries[..|entries| - 1]), entries[|entries| - 1];
      if e.Ranged? then before[e.name := RangesFor(before, e.name) + [e.versions]] else before
  }

  function ScopesIn(doc: NpmDoc): seq<string> { if doc.scopes.Some? then doc.scopes.value else [] }
  function EntriesIn(doc: NpmDoc): seq<PackageEntry> { if doc.packages.Some? then doc.packages.value else [] }

  predicate Compiles(doc: NpmDoc, lib: Library) {
    lib.minAge(doc.minAge).Some? && GoodScopes(ScopesIn(doc)) && GoodEntries(EntriesIn(doc), lib)
  }

  function Compiled(doc: NpmDoc, lib: Library): CompiledPolicy
    requires lib.minAge(doc.minAge).Some?
  {
    CompiledPolicy(
      set s | s in ScopesIn(doc) :: WithAt(s),
      Names(EntriesIn(doc)),
      Ranges(EntriesIn(doc)),
      lib.minAge(doc.minAge).value)
  }

  method CompilePolicy(doc: NpmDoc, lib: Library) returns (r: Option<CompiledPolicy>)
    ensures r.Some? <==> Compiles(doc, lib)
    ensures r.Some? ==> r.value == Compiled(doc, lib)
  {
    var minAgeMs := lib.minAge(doc.minAge);
    if minAgeMs.None? { return None; }
    var scopes, entries := {}, ({}, map[]);
    if doc.scopes.Some? {
      var added := AddScopes(doc.scopes.value);
      if added.None? { return None; }
      scopes := added.value;
    }
    if doc.packages.Some? {
      var added := AddEntries(doc.packages.value, lib);
      if added.None? { return None; }
      entries := added.value;
    }
    return Some(CompiledPolicy(scopes, entries.0, entries.1, minAgeMs.value));
  }

  method AddScopes(scopes: seq<string>) returns (r: Option<set<string>>)
    ensures r.Some? <==> GoodScopes(scopes)
    ensures r.Some? ==> r.value == set s | s in scopes :: WithAt(s)
  {
    var out := {};
    for i := 0 to |scopes|
      invariant GoodScopes(scopes[..i])
      invariant out == set s | s in scopes[..i] :: WithAt(s)
    {
      var scope := scopes[i];
      assert forall s :: s in scopes[..i + 1] <==> s in scopes[..i] || s == scope;
      if scope == [] { return None; }
      out := out + {WithAt(scope)};
    }
    assert scopes[..|scopes|] == scopes;
    return Some(out);
  }

  lemma EntryNext(entries: seq<PackageEntry>, i: nat, lib: Library)
    requires i < |entries|
    ensures var front, e, all := entries[..i], entries[i], entries[..i + 1];
      && (GoodEntries(all, lib) <==> GoodEntries(front, lib) && GoodEntry(e, lib))
      && Names(all) == Names(front) + (if e.Bare? then {e.name} else {})
      && Ranges(all) == if e.Ranged? then Ranges(front)[e.name := RangesFor(Ranges(front), e.name) + [e.versions]]
                        else Ranges(front)
  {
    var front, e, all := entries[..i], entries[i], entries[..i + 1];
    assert all == front + [e] && all[..i] == front;
    assert forall x :: x in all <==> x in front || x == e;
    if GoodEntries(all, lib) {
      assert all[i] == e && forall j | 0 <= j < i :: all[j] == front[j];
    }
  }

  lemma BadEntry(entries: seq<PackageEntry>, i: nat, lib: Library)
    requires i < |entries| && !GoodEntry(entries[i], lib)
    ensures !GoodEntries(entries, lib)
  {
  }

  method AddEntries(entries: seq<PackageEntry>, lib: Library)
    returns (r: Option<(set<string>, map<string, seq<string>>)>)
    ensures r.Some? <==> GoodEntries(entries, lib)
    ensures r.Some? ==> r.value == (Names(entries), Ranges(entries))
  {
    var names, ranges := {}, map[];
    for i := 0 to |entries|
      invariant GoodEntries(entries[..i], lib)
      invariant names == Names(entries[..i]) && ranges == Ranges(entries[..i])
    {
      var e := entries[i];
      EntryNext(entries, i, lib);
      if e.name == [] {
        BadEntry(entries, i, lib);
        return None;
      }
      match e {
        case Bare(name) => names := names + {name};
        case Ranged(name, versions, _) =>
          if lib.read(versions).None? {
            BadEntry(entries, i, lib);
            return None;
          }
          var list := if name in ranges then ranges[name] else [];
          ranges := ranges[name := list + [versions]];
      }
    }
    assert entries[..|entries|] == entries;
    return Some((names, ranges));
  }

  /******* Decisions *******/

  predicate IsNameBlocked(p: CompiledPolicy, name: string) {
    name in p.names || Covered(name, p.scopes)
  }

  predicate IsVersionBlocked(p: CompiledPolicy, lib: Library, name: string, v: Semver) {
    name in p.ranges && exists i | 0 <= i < |p.ranges[name]| :: SatisfiesText(lib, v, p.ranges[name][i])
  }

  predicate SatisfiesText(lib: Library, v: Semver, text: string) {
    lib.read(text).Some? && Satisfies(v, lib.read(text).value)
  }

  predicate Blocked(p: CompiledPolicy, lib: Library, name: string, v: Semver) {
    IsNameBlocked(p, name) || IsVersionBlocked(p, lib, name, v)
  }
}

/** The npm translation means what the rules mean. */
module NpmMeaning {
  import opened Base
  import opened Text
  import opened SemverOrder
  import opened Rules
  import opened NpmCompiler
  import opened NpmFilter

  /******* The allow-wins reading of a rule list *******/

  /** A namespace deny over the package that no namespace allow takes back. */
  ghost predicate ScopeStands(rules: seq<Rule>, a: Adapter, name: string) {
    var scope := ScopeOf(name);
    scope.Some? && ScopeRule(rules, a, scope.value, Deny) && !ScopeRule(rules, a, scope.value, Allow)
  }

  ghost predicate DenyMatches(rules: seq<Rule>, a: Adapter, lib: Library, name: string, v: Semver) {
    || WholeRule(rules, a, name, Deny)
    || exists t :: RangeDenied(rules, a, name, t) && SatisfiesText(lib, v, t)
  }

  ghost predicate AllowCovers(rules: seq<Rule>, a: Adapter, lib: Library, name: string, v: Semver) {
    || WholeRule(rules, a, name, Allow)
    || exists e :: ExactAllowed(rules, a, name, e) && Pins(lib, e, v)
  }

  predicate Pins(lib: Library, e: string, v: Semver) {
    lib.parse(e).Some? && Compare(v, lib.parse(e).value) == 0
  }

  ghost predicate Denied(rules: seq<Rule>, a: Adapter, lib: Library, name: string, v: Semver) {
    ScopeStands(rules, a, name) || (DenyMatches(rules, a, lib, name, v) && !AllowCovers(rules, a, lib, name, v))
  }

  /******* What is taken from the semver library *******/

  /** A pin parses, and the two comparators of its carve-out are read as written. */
  predicate CarveOutReads(lib: Library, e: string) {
    lib.parse(e).Some? && lib.read(CarveOut(e)) == Some(AllBut(lib.parse(e).value))
  }

  /** So it is for the pins that the rules allow of a package. */
  ghost predicate CarveOutsRead(rules: seq<Rule>, a: Adapter, lib: Library, name: string) {
    forall e | ExactAllowed(rules, a, name, e) :: CarveOutReads(lib, e)
  }

  function AllBut(v: Semver): Range { [[Comparator(Lt, v)], [Comparator(Gt, v)]] }

  /** `<v || >v` admits exactly the versions of another precedence. */
  lemma CarveOutIsAllBut(lib: Library, e: string, v: Semver)
    requires CarveOutReads(lib, e)
    ensures SatisfiesText(lib, v, CarveOut(e)) <==> !Pins(lib, e, v)
  {
    var r := AllBut(lib.parse(e).value);
    assert r[0] == [Comparator(Lt, lib.parse(e).value)] && r[1] == [Comparator(Gt, lib.parse(e).value)];
    if Compare(v, lib.parse(e).value) < 0 { assert forall c | c in r[0] :: Holds(c, v); }
    if Compare(v, lib.parse(e).value) > 0 { assert forall c | c in r[1] :: Holds(c, v); }
    if Compare(v, lib.parse(e).value) == 0 {
      assert !Holds(r[0][0], v) && r[0][0] in r[0] && !Holds(r[1][0], v) && r[1][0] in r[1];
    }
  }

  /******* The filter's policy for the resolved blocks *******/

  function PolicyOf(blocks: NpmBlocks): CompiledPolicy {
    CompiledPolicy(
      set s | s in blocks.scopes,
      set n | n in blocks.packages,
      map n | n in blocks.ranges :: Texts(SortByText(blocks.ranges[n])),
      0.0)
  }

  /** Two exact allows of different precedence meet a standing whole-package deny. */
  ghost predicate AllowsClash(rules: seq<Rule>, a: Adapter, lib: Library, name: string) {
    && !ScopeStands(rules, a, name)
    && WholeRule(rules, a, name, Deny) && !WholeRule(rules, a, name, Allow)
    && exists e, f :: PinsApart(rules, a, lib, name, e, f)
  }

  ghost predicate PinsApart(rules: seq<Rule>, a: Adapter, lib: Library, name: string, e: string, f: string) {
    && ExactAllowed(rules, a, name, e) && ExactAllowed(rules, a, name, f)
    && lib.parse(e).Some? && lib.parse(f).Some?
    && Compare(lib.parse(e).value, lib.parse(f).value) != 0
  }

  lemma ScopesAgree(rules: seq<Rule>, a: Adapter, name: string)
    requires Accepted(rules, a)
    ensures Covered(name, PolicyOf(Resolved(BucketsOf(rules, a))).scopes) <==> ScopeStands(rules, a, name)
  {
    BucketsAreFaithful(rules, a);
    SortedFacts(StandingScopes(BucketsOf(rules, a)));
  }

  lemma OutOfScopeMeaning(rules: seq<Rule>, a: Adapter, n: string)
    requires Accepted(rules, a)
    ensures OutOfScope(BucketsOf(rules, a), n) <==>
      && WholeRule(rules, a, n, Allow) && ScopeStands(rules, a, n) && !WholeRule(rules, a, n, Deny)
      && !exists t :: RangeDenied(rules, a, n, t)
  {
    BucketsAreFaithful(rules, a);
    HasRange(rules, a, n);
  }

  /** An exact allow that no whole allow of the package makes needless: no range is denied beside it, and where the
      package is denied the filter can read its carve-out. */
  ghost predicate Carvable(rules: seq<Rule>, a: Adapter, n: string, e: string) {
    && !(exists t :: RangeDenied(rules, a, n, t))
    && (WholeRule(rules, a, n, Deny) ==> a.valid("<" + e + " || >" + e))
  }

  lemma CarvesMeaning(rules: seq<Rule>, a: Adapter, n: string)
    requires Accepted(rules, a)
    ensures var b := BucketsOf(rules, a);
      (CarvesRange(b, n) || CarvesBadly(b, a, n)) <==>
      (!WholeRule(rules, a, n, Allow) && exists e :: ExactAllowed(rules, a, n, e) && !Carvable(rules, a, n, e))
  {
    var b := BucketsOf(rules, a);
    BucketsAreFaithful(rules, a);
    HasRange(rules, a, n);
    HasExact(rules, a, n);
    assert forall e :: e in ExactsOf(b, n) <==> ExactAllowed(rules, a, n, e);
    assert n in StandingWhole(b) <==> WholeRule(rules, a, n, Deny) && !WholeRule(rules, a, n, Allow);
    assert n in StandingRanges(b) <==> n in b.ranges && !WholeRule(rules, a, n, Allow);
    if CarvesRange(b, n) {
      var e :| ExactAllowed(rules, a, n, e);
      assert !Carvable(rules, a, n, e);
    }
    if CarvesBadly(b, a, n) {
      var e :| e in b.exactAllows[n] && !a.valid(CarveOut(e));
      assert e in ExactsOf(b, n) && !Carvable(rules, a, n, e);
    }
    if e :| ExactAllowed(rules, a, n, e) && !WholeRule(rules, a, n, Allow) && !Carvable(rules, a, n, e) {
      assert e in b.exactAllows[n];
      if !(exists t :: RangeDenied(rules, a, n, t)) { assert !a.valid(CarveOut(e)); }
    }
  }

  /** The rules compile to a block-list iff every package allowed under a standing scope deny has a deny of its own, and
      every exact allow that counts can be carved. */
  lemma NpmCompilesIff(rules: seq<Rule>, a: Adapter)
    requires Accepted(rules, a)
    ensures Resolvable(BucketsOf(rules, a), a) <==>
      && (forall n | WholeRule(rules, a, n, Allow) && ScopeStands(rules, a, n) ::
            WholeRule(rules, a, n, Deny) || exists t :: RangeDenied(rules, a, n, t))
      && (forall n, e | ExactAllowed(rules, a, n, e) && !WholeRule(rules, a, n, Allow) :: Carvable(rules, a, n, e))
  {
    var b := BucketsOf(rules, a);
    WholesAreFaithful(rules, a);
    forall n ensures OutOfScope(b, n) <==>
      && WholeRule(rules, a, n, Allow) && ScopeStands(rules, a, n) && !WholeRule(rules, a, n, Deny)
      && !exists t :: RangeDenied(rules, a, n, t)
    {
      OutOfScopeMeaning(rules, a, n);
    }
    forall n ensures (CarvesRange(b, n) || CarvesBadly(b, a, n)) <==>
      (!WholeRule(rules, a, n, Allow) && exists e :: ExactAllowed(rules, a, n, e) && !Carvable(rules, a, n, e))
    {
      CarvesMeaning(rules, a, n);
    }
    assert forall n :: OutOfScope(b, n) ==> n in b.wholeAllows;
    assert forall n :: CarvesRange(b, n) || CarvesBadly(b, a, n) ==> n in b.exactAllows;
  }

  lemma NamesAgree(rules: seq<Rule>, a: Adapter, name: string)
    requires Accepted(rules, a)
    ensures name in PolicyOf(Resolved(BucketsOf(rules, a))).names
            <==> WholeRule(rules, a, name, Deny) && !WholeRule(rules, a, name, Allow)
                 && forall e :: !ExactAllowed(rules, a, name, e)
  {
    BucketsAreFaithful(rules, a);
    var b := BucketsOf(rules, a);
    SortedFacts((StandingWhole(b) - b.exactAllows.Keys).Keys);
    if name in b.exactAllows {
      var e :| e in b.exactAllows[name];
      assert e in ExactsOf(b, name);
    }
  }

  /** Where the name has no exact allow on a standing whole deny, its ranges are the range denies. */
  lemma PlainRangesAgree(rules: seq<Rule>, a: Adapter, lib: Library, name: string, v: Semver)
    requires Accepted(rules, a)
    requires var b := BucketsOf(rules, a); Resolvable(b, a) && !(name in b.exactAllows && name in StandingWhole(b))
    ensures IsVersionBlocked(PolicyOf(Resolved(BucketsOf(rules, a))), lib, name, v)
            <==> !WholeRule(rules, a, name, Allow)
                 && exists t :: RangeDenied(rules, a, name, t) && SatisfiesText(lib, v, t)
  {
    BucketsAreFaithful(rules, a);
    RangeDeniesMeaning(rules, a, name);
    var b := BucketsOf(rules, a);
    var p := PolicyOf(Resolved(b));
    SortKeepsTexts(RangesOf(b, name));
    assert name in p.ranges <==> name in b.ranges && name !in b.wholeAllows;
    if name in p.ranges {
      assert p.ranges[name] == Texts(SortByText(b.ranges[name]));
      forall t ensures t in p.ranges[name] <==> RangeDenied(rules, a, name, t) {}
    }
  }

  /** A name is carved when a standing whole deny meets an exact allow. */
  ghost predicate CarvedName(rules: seq<Rule>, a: Adapter, name: string) {
    && WholeRule(rules, a, name, Deny) && !WholeRule(rules, a, name, Allow)
    && exists e :: ExactAllowed(rules, a, name, e)
  }

  lemma CarvedNames(rules: seq<Rule>, a: Adapter, name: string)
    requires Accepted(rules, a)
    ensures var b := BucketsOf(rules, a);
            CarvedName(rules, a, name) <==> name in b.exactAllows && name in StandingWhole(b)
  {
    BucketsAreFaithful(rules, a);
    var b := BucketsOf(rules, a);
    if e :| ExactAllowed(rules, a, name, e) { assert e in ExactsOf(b, name); }
    if name in b.exactAllows {
      var e :| e in b.exactAllows[name];
      assert e in ExactsOf(b, name);
    }
  }

  lemma SortedCarveOuts(es: set<string>, reason: Option<string>)
    ensures var ts := Texts(SortByText(CarveOuts(Sorted(es), reason)));
            && (forall e :: e in es ==> CarveOut(e) in ts)
            && (forall t :: t in ts ==> exists e :: e in es && t == CarveOut(e))
  {
    SortedFacts(es);
    var ds := CarveOuts(Sorted(es), reason);
    SortKeepsTexts(ds);
    CarveOutsListed(Sorted(es), reason);
  }

  lemma CarveOutsListed(vs: seq<string>, reason: Option<string>)
    ensures forall e :: e in vs ==> CarveOut(e) in Texts(CarveOuts(vs, reason))
    ensures forall t :: t in Texts(CarveOuts(vs, reason)) ==> exists e :: e in vs && t == CarveOut(e)
  {
    var ts := Texts(CarveOuts(vs, reason));
    forall j | 0 <= j < |vs| ensures ts[j] == CarveOut(vs[j]) {}
    forall e | e in vs ensures CarveOut(e) in ts {
      var j :| 0 <= j < |vs| && vs[j] == e;
      assert ts[j] in ts;
    }
  }

  /** The range texts of a carved name are the carve-outs of its exact allows. */
  ghost predicate TextsAreCarveOuts(ts: seq<string>, rules: seq<Rule>, a: Adapter, name: string) {
    && (forall e :: ExactAllowed(rules, a, name, e) ==> CarveOut(e) in ts)
    && (forall t :: t in ts ==> exists e :: ExactAllowed(rules, a, name, e) && t == CarveOut(e))
  }

  lemma CarvedTexts(rules: seq<Rule>, a: Adapter, name: string)
    requires Accepted(rules, a) && CarvedName(rules, a, name)
    ensures var p := PolicyOf(Resolved(BucketsOf(rules, a)));
            name in p.ranges && TextsAreCarveOuts(p.ranges[name], rules, a, name)
  {
    CarvedNames(rules, a, name);
    ExactsAreFaithful(rules, a);
    var b := BucketsOf(rules, a);
    var es, reason := b.exactAllows[name], StandingWhole(b)[name];
    assert forall e :: e in es <==> e in ExactsOf(b, name);
    SortedCarveOuts(es, reason);
    assert Resolved(b).ranges[name] == CarveOuts(Sorted(es), reason);
  }

  /** Where exact allows carve a standing whole deny, a version is blocked unless every pin is its own. */
  lemma CarvedRangesAgree(rules: seq<Rule>, a: Adapter, lib: Library, name: string, v: Semver)
    requires Accepted(rules, a) && CarveOutsRead(rules, a, lib, name) && CarvedName(rules, a, name)
    ensures IsVersionBlocked(PolicyOf(Resolved(BucketsOf(rules, a))), lib, name, v)
            <==> exists e :: ExactAllowed(rules, a, name, e) && !Pins(lib, e, v)
  {
    CarvedTexts(rules, a, name);
    SomePinMisses(PolicyOf(Resolved(BucketsOf(rules, a))).ranges[name], rules, a, lib, name, v);
  }

  lemma SomePinMisses(ts: seq<string>, rules: seq<Rule>, a: Adapter, lib: Library, name: string, v: Semver)
    requires CarveOutsRead(rules, a, lib, name) && TextsAreCarveOuts(ts, rules, a, name)
    ensures (exists i | 0 <= i < |ts| :: SatisfiesText(lib, v, ts[i]))
            <==> exists e :: ExactAllowed(rules, a, name, e) && !Pins(lib, e, v)
  {
    if i :| 0 <= i < |ts| && SatisfiesText(lib, v, ts[i]) {
      assert ts[i] in ts;
      var e :| ExactAllowed(rules, a, name, e) && ts[i] == CarveOut(e);
      CarveOutIsAllBut(lib, e, v);
    }
    if e :| ExactAllowed(rules, a, name, e) && !Pins(lib, e, v) {
      CarveOutIsAllBut(lib, e, v);
      var i :| 0 <= i < |ts| && ts[i] == CarveOut(e);
      assert SatisfiesText(lib, v, ts[i]);
    }
  }

  /** One version of one name: the filter blocks it iff the rules deny it, where no allows clash. */
  lemma BlocksWhatIsDenied(rules: seq<Rule>, a: Adapter, lib: Library, name: string, v: Semver)
    requires Accepted(rules, a) && CarveOutsRead(rules, a, lib, name)
    requires Resolvable(BucketsOf(rules, a), a) && !AllowsClash(rules, a, lib, name)
    ensures Blocked(PolicyOf(Resolved(BucketsOf(rules, a))), lib, name, v) <==> Denied(rules, a, lib, name, v)
  {
    ScopesAgree(rules, a, name);
    NamesAgree(rules, a, name);
    CarvedNames(rules, a, name);
    if ScopeStands(rules, a, name) {
    } else if CarvedName(rules, a, name) {
      CarvedRangesAgree(rules, a, lib, name, v);
      PinsTogether(rules, a, lib, name, v);
    } else {
      PlainRangesAgree(rules, a, lib, name, v);
      ExactNeedsNoRange(rules, a, name);
    }
  }

  /** Without a clash, all pins of the name cover the same versions. */
  lemma PinsTogether(rules: seq<Rule>, a: Adapter, lib: Library, name: string, v: Semver)
    requires CarveOutsRead(rules, a, lib, name) && !(exists e, f :: PinsApart(rules, a, lib, name, e, f))
    ensures forall e, f ::
      ExactAllowed(rules, a, name, e) && ExactAllowed(rules, a, name, f) ==> (Pins(lib, e, v) <==> Pins(lib, f, v))
  {
    forall e, f | ExactAllowed(rules, a, name, e) && ExactAllowed(rules, a, name, f)
      ensures Pins(lib, e, v) <==> Pins(lib, f, v)
    {
      assert !PinsApart(rules, a, lib, name, e, f);
      CompareIsTotalOrder(lib.parse(e).value, lib.parse(f).value, v);
    }
  }

  /** A compiled policy has no exact allow beside a standing range deny. */
  lemma ExactNeedsNoRange(rules: seq<Rule>, a: Adapter, name: string)
    requires Accepted(rules, a) && Resolvable(BucketsOf(rules, a), a)
    requires !CarvedName(rules, a, name)
    ensures WholeRule(rules, a, name, Allow)
            || (forall e :: !ExactAllowed(rules, a, name, e))
            || (!WholeRule(rules, a, name, Deny) && forall t :: !RangeDenied(rules, a, name, t))
  {
    var b := BucketsOf(rules, a);
    BucketsAreFaithful(rules, a);
    RangeDeniesMeaning(rules, a, name);
    if e :| ExactAllowed(rules, a, name, e) {
      assert e in ExactsOf(b, name);
      assert !CarvesRange(b, name);
      if name !in b.ranges { assert RangeDenies(rules, a, name) == []; }
    }
  }

  /** The npm translation preserves meaning for a package, on every version,
      if and only if no two exact allows of different precedence carve one whole-package deny. */
  lemma TranslationMeaning(rules: seq<Rule>, a: Adapter, lib: Library, name: string)
    requires Accepted(rules, a) && CarveOutsRead(rules, a, lib, name) && Resolvable(BucketsOf(rules, a), a)
    ensures (forall v ::
               Blocked(PolicyOf(Resolved(BucketsOf(rules, a))), lib, name, v) <==> Denied(rules, a, lib, name, v))
            <==> !AllowsClash(rules, a, lib, name)
  {
    if AllowsClash(rules, a, lib, name) {
      var e, f :| PinsApart(rules, a, lib, name, e, f);
      var b := BucketsOf(rules, a);
      var v := lib.parse(e).value;
      CompareIsTotalOrder(v, v, v);
      assert Pins(lib, e, v) && !Pins(lib, f, v);
      CarvedRangesAgree(rules, a, lib, name, v);
      assert Blocked(PolicyOf(Resolved(b)), lib, name, v) && !Denied(rules, a, lib, name, v);
    } else {
      forall v { BlocksWhatIsDenied(rules, a, lib, name, v); }
    }
  }

  /** With such a clash every version is blocked, also the allowed ones. */
  lemma ClashBlocksEverything(rules: seq<Rule>, a: Adapter, lib: Library, name: string, v: Semver)
    requires Accepted(rules, a) && CarveOutsRead(rules, a, lib, name) && AllowsClash(rules, a, lib, name)
    ensures Blocked(PolicyOf(Resolved(BucketsOf(rules, a))), lib, name, v)
  {
    var e, f :| PinsApart(rules, a, lib, name, e, f);
    CarvedRangesAgree(rules, a, lib, name, v);
    CompareIsTotalOrder(lib.parse(e).value, v, lib.parse(f).value);
  }

  /** What an allow buys: a covered version is blocked only by a standing scope deny. */
  lemma AllowWinsBelowScopes(rules: seq<Rule>, a: Adapter, lib: Library, name: string, v: Semver)
    requires Accepted(rules, a) && CarveOutsRead(rules, a, lib, name) && Resolvable(BucketsOf(rules, a), a)
    requires AllowCovers(rules, a, lib, name, v) && !AllowsClash(rules, a, lib, name)
    ensures Blocked(PolicyOf(Resolved(BucketsOf(rules, a))), lib, name, v) <==> ScopeStands(rules, a, name)
  {
    BlocksWhatIsDenied(rules, a, lib, name, v);
  }

  /** A whole-package allow under a standing scope compiles only beside a deny of the package itself. */
  lemma AllowedUnderScopeHasOwnDeny(rules: seq<Rule>, a: Adapter, name: string)
    requires Accepted(rules, a) && Resolvable(BucketsOf(rules, a), a)
    requires WholeRule(rules, a, name, Allow) && ScopeStands(rules, a, name)
    ensures WholeRule(rules, a, name, Deny) || exists t :: RangeDenied(rules, a, name, t)
  {
    var b := BucketsOf(rules, a);
    BucketsAreFaithful(rules, a);
    RangeDeniesMeaning(rules, a, name);
    assert !OutOfScope(b, name);
    if name in b.ranges {
      var ts := Texts(RangesOf(b, name));
      assert ts[0] in ts;
      assert RangeDenied(rules, a, name, ts[0]);
    }
  }
}
