/** The constrained devpi index: reading constraint lines and matching releases. */
module DevpiConstraints {
  import opened Base
  import opened Text
  import opened Pep440
  import opened PypiCompiler
  import ReleaseOrder

  /******* Reading one requirement line *******/

  predicate IsNameChar(c: char) { 'a' <= c <= 'z' || '0' <= c <= '9' || c == '-' }

  predicate NormalName(n: string) { n != [] && forall i | 0 <= i < |n| :: IsNameChar(n[i]) }

  function NamePart(line: string): string {
    if line == [] || IsOpChar(line[0]) then [] else [line[0]] + NamePart(line[1..])
  }

  function Then(op: SpecOp, version: string): Option<Spec> {
    if version == [] then None else Some(Spec(op, version))
  }

  /** The longest comparator that starts the text, then its version. */
  function ReadSpec(t: string): Option<Spec> {
    if "===" <= t then None
    else if "==" <= t then Then(Eq, t[2..])
    else if "!=" <= t then Then(Ne, t[2..])
    else if "<=" <= t then Then(Le, t[2..])
    else if ">=" <= t then Then(Ge, t[2..])
    else if "<" <= t then Then(Lt, t[1..])
    else if ">" <= t then Then(Gt, t[1..])
    else None
  }

  function ReadSpecs(texts: seq<string>): Option<seq<Spec>> {
    if texts == [] then Some([])
    else match (ReadSpec(texts[0]), ReadSpecs(texts[1..]))
      case (Some(s), Some(rest)) => Some([s] + rest)
      case _ => None
  }

  /** `parse_requirement`: a project name and its comma-joined comparators. */
  function ReadRequirement(line: string): Option<PypiLine> {
    var name := NamePart(line);
    if !NormalName(name) then None
    else if |name| >= |line| then Some(PypiLine(name, []))
    else match ReadSpecs(SplitOn(line[|name|..], ','))
      case Some(specs) => Some(PypiLine(name, specs))
      case None => None
  }

  /******* parse_constraints *******/

  datatype Constraints = Constraints(all: bool, specs: map<string, seq<Spec>>)

  /** None stands for the error on an unreadable line or a repeated project. */
  function Parsed(lines: seq<string>): Option<Constraints> {
    if lines == [] then Some(Constraints(false, map[]))
    else
      var line := lines[|lines| - 1];
      match Parsed(lines[..|lines| - 1])
      case None => None
      case Some(cs) =>
        if line == "*" then Some(cs.(all := true))
        else match ReadRequirement(line)
          case None => None
          case Some(l) => if l.name in cs.specs then None else Some(cs.(specs := cs.specs[l.name := l.specs]))
  }

  lemma {:induction false} ParsedPrefix(lines: seq<string>, n: nat)
    requires n <= |lines| && Parsed(lines).Some?
    ensures Parsed(lines[..n]).Some?
  {
    if n < |lines| {
      ParsedPrefix(lines[..|lines| - 1], n);
      assert lines[..|lines| - 1][..n] == lines[..n];
    } else {
      assert lines[..n] == lines;
    }
  }

  method ParseConstraints(lines: seq<string>) returns (r: Option<Constraints>)
    ensures r == Parsed(lines)
  {
    var all, specs := false, map[];
    for i := 0 to |lines|
      invariant Parsed(lines[..i]) == Some(Constraints(all, specs))
    {
      assert lines[..i + 1][..i] == lines[..i];
      if Parsed(lines).Some? { ParsedPrefix(lines, i + 1); }
      if lines[i] == "*" {
        all := true;
        continue;
      }
      var l := ReadRequirement(lines[i]);
      if l.None? { return None; }
      if l.value.name in specs { return None; }
      specs := specs[l.value.name := l.value.specs];
    }
    assert lines[..|lines|] == lines;
    return Some(Constraints(all, specs));
  }

  /******* Matching a plain release *******/

  predicate Meets(s: Spec, x: Release) {
    ReadRelease(s.version).Some? && Holds(s.op, x, ReadRelease(s.version).value)
  }

  predicate MeetsAll(specs: seq<Spec>, x: Release) { forall i | 0 <= i < |specs| :: Meets(specs[i], x) }

  /** `_version_matches_filter` for a plain release. */
  predicate Admits(cs: Constraints, project: string, x: Release) {
    if project !in cs.specs then !cs.all else MeetsAll(cs.specs[project], x)
  }

  /******* Reading back what the compiler prints *******/

  predicate PlainText(v: string) {
    v != [] && IsDigit(v[0]) && forall i | 0 <= i < |v| :: IsDigit(v[i]) || v[i] == '.'
  }

  predicate PlainLine(l: PypiLine) {
    NormalName(l.name) && forall i | 0 <= i < |l.specs| :: PlainText(l.specs[i].version)
  }

  lemma ReadsSpec(s: Spec)
    requires PlainText(s.version)
    ensures ReadSpec(SpecText(s)) == Some(s) && ',' !in SpecText(s)
  {
    var op, t := OpText(s.op), SpecText(s);
    assert t[|op|] == s.version[0] && t[|op|..] == s.version;
    assert forall i | |op| <= i < |t| :: t[i] == s.version[i - |op|];
    match s.op {
      case Lt => assert t[0] == '<';
      case Le => assert t[0] == '<' && t[1] == '=';
      case Gt => assert t[0] == '>';
      case Ge => assert t[0] == '>' && t[1] == '=';
      case Eq => assert t[0] == '=' && t[1] == '=';
      case Ne => assert t[0] == '!' && t[1] == '=';
    }
  }

  lemma {:induction false} ReadsSpecs(specs: seq<Spec>)
    requires forall i | 0 <= i < |specs| :: PlainText(specs[i].version)
    ensures ReadSpecs(SpecTexts(specs)) == Some(specs)
  {
    if specs != [] {
      ReadsSpec(specs[0]);
      ReadsSpecs(specs[1..]);
      assert SpecTexts(specs)[1..] == SpecTexts(specs[1..]);
      assert [specs[0]] + specs[1..] == specs;
    }
  }

  lemma {:induction false} NamePartOf(name: string, rest: string)
    requires NormalName(name) && (rest == [] || IsOpChar(rest[0]))
    ensures NamePart(name + rest) == name
  {
    var line := name + rest;
    if |name| == 1 {
      assert line[1..] == rest;
    } else {
      assert line[1..] == name[1..] + rest;
      NamePartOf(name[1..], rest);
      assert [name[0]] + name[1..] == name;
    }
  }

  lemma ReadsRequirement(l: PypiLine)
    requires PlainLine(l)
    ensures ReadRequirement(LineText(l)) == Some(l)
  {
    var texts := SpecTexts(l.specs);
    var rest := JoinWith(texts, ',');
    if l.specs != [] {
      forall i | 0 <= i < |texts| ensures ',' !in texts[i] { ReadsSpec(l.specs[i]); }
      SplitJoin(texts, ',');
      ReadsSpecs(l.specs);
      assert IsOpChar(texts[0][0]);
      assert rest[0] == texts[0][0];
    }
    NamePartOf(l.name, rest);
    assert LineText(l)[|l.name|..] == rest;
  }

  lemma LineIsClean(l: PypiLine)
    requires PlainLine(l)
    ensures CleanLine(LineText(l)) && LineText(l) != "*"
  {
    var texts := SpecTexts(l.specs);
    forall i | 0 <= i < |texts| ensures NoSpaces(texts[i]) {
      assert NoSpaces(OpText(l.specs[i].op)) && NoSpaces(l.specs[i].version);
    }
    JoinHasNoSpaces(texts);
    assert LineText(l)[0] == l.name[0];
  }

  predicate NoSpaces(s: string) { forall i | 0 <= i < |s| :: !IsSpace(s[i]) }

  lemma {:induction false} JoinHasNoSpaces(parts: seq<string>)
    requires forall i | 0 <= i < |parts| :: NoSpaces(parts[i])
    ensures NoSpaces(JoinWith(parts, ','))
  {
    if |parts| > 1 {
      JoinHasNoSpaces(parts[1..]);
    }
  }

  predicate PlainLines(ls: seq<PypiLine>) { forall i | 0 <= i < |ls| :: PlainLine(ls[i]) }

  predicate DistinctNames(ls: seq<PypiLine>) {
    ls == [] || (DistinctNames(ls[..|ls| - 1]) && forall l | l in ls[..|ls| - 1] :: l.name != ls[|ls| - 1].name)
  }

  /** The table holds each line's comparators under its name, and no other name. */
  ghost predicate Tabulates(specs: map<string, seq<Spec>>, ls: seq<PypiLine>) {
    && (forall n | n in specs :: exists l :: l in ls && l.name == n)
    && (forall l | l in ls :: l.name in specs && specs[l.name] == l.specs)
  }

  /** Reading printed lines succeeds exactly when no project is named twice,
      and then every line's comparators are found under its name. */
  lemma {:induction false} ParsesLines(ls: seq<PypiLine>)
    requires PlainLines(ls)
    ensures Parsed(LineTexts(ls)).Some? <==> DistinctNames(ls)
    ensures Parsed(LineTexts(ls)).Some? ==>
      !Parsed(LineTexts(ls)).value.all && Tabulates(Parsed(LineTexts(ls)).value.specs, ls)
  {
    if ls != [] {
      var front, last := ls[..|ls| - 1], ls[|ls| - 1];
      ParsesLines(front);
      ParsesOneMore(ls);
      if Parsed(LineTexts(ls)).Some? {
        TabulatesOneMore(Parsed(LineTexts(front)).value.specs, ls);
      } else if Parsed(LineTexts(front)).Some? {
        var l :| l in front && l.name == last.name;
      }
    }
  }

  lemma ParsesOneMore(ls: seq<PypiLine>)
    requires ls != [] && PlainLine(ls[|ls| - 1])
    ensures var last := ls[|ls| - 1];
            Parsed(LineTexts(ls)) == match Parsed(LineTexts(ls[..|ls| - 1]))
              case None => None
              case Some(cs) => if last.name in cs.specs then None
                               else Some(cs.(specs := cs.specs[last.name := last.specs]))
  {
    assert LineTexts(ls)[..|ls| - 1] == LineTexts(ls[..|ls| - 1]);
    ReadsRequirement(ls[|ls| - 1]);
    LineIsClean(ls[|ls| - 1]);
  }

  lemma TabulatesOneMore(specs: map<string, seq<Spec>>, ls: seq<PypiLine>)
    requires ls != [] && Tabulates(specs, ls[..|ls| - 1]) && ls[|ls| - 1].name !in specs
    ensures Tabulates(specs[ls[|ls| - 1].name := ls[|ls| - 1].specs], ls)
  {
    var front, last := ls[..|ls| - 1], ls[|ls| - 1];
    assert forall l :: l in ls <==> l in front || l == last;
  }

  /** The same, with the trailing `*` of a default-deny index. */
  lemma ParsesLinesAndStar(ls: seq<PypiLine>)
    ensures Parsed(LineTexts(ls) + ["*"])
         == match Parsed(LineTexts(ls)) case Some(cs) => Some(cs.(all := true)) case None => None
  {
    assert (LineTexts(ls) + ["*"])[..|ls|] == LineTexts(ls);
  }
}

/** The pypi translation means what the rules mean. */
module PypiMeaning {
  import opened Base
  import opened Text
  import opened Rules
  import opened Pep440
  import opened PypiCompiler
  import opened DevpiConstraints
  import ReleaseOrder

  /** The domain of the theorem: names as the adapter normalizes them, and rules whose
      range denies and pins name plain releases. */
  ghost predicate PlainRules(rules: seq<Rule>, d: Dialect) {
    && (forall raw :: d.a.normalizeName(raw).Some? ==> NormalName(d.a.normalizeName(raw).value))
    && (forall n, t | RangeDenied(rules, d.a, n, t) :: PlainComparator(d, t))
    && (forall n, e | ExactAllowed(rules, d.a, n, e) :: PlainRelease(e))
  }

  /** A range the compiler can invert compares with a plain release. */
  predicate PlainComparator(d: Dialect, t: string) {
    d.comparator(t).Some? ==> d.comparator(t).value.op != Ne && PlainRelease(d.comparator(t).value.version)
  }

  predicate PlainTexts(d: Dialect, ts: seq<string>) { forall t | t in ts :: PlainComparator(d, t) }

  predicate PlainRelease(v: string) { PlainText(v) && ReadRelease(v).Some? }

  /******* The allow-wins reading of a rule list *******/

  predicate RangeMatches(d: Dialect, text: string, x: Release) {
    d.comparator(text).Some? && Meets(d.comparator(text).value, x)
  }

  predicate Pins(e: string, x: Release) { Meets(Spec(Eq, e), x) }

  ghost predicate DenyMatches(rules: seq<Rule>, d: Dialect, name: string, x: Release) {
    || WholeRule(rules, d.a, name, Deny)
    || exists t :: RangeDenied(rules, d.a, name, t) && RangeMatches(d, t, x)
  }

  ghost predicate AllowCovers(rules: seq<Rule>, d: Dialect, name: string, x: Release) {
    || WholeRule(rules, d.a, name, Allow)
    || exists e :: ExactAllowed(rules, d.a, name, e) && Pins(e, x)
  }

  /** Allow wins; the default decides what no rule names. */
  ghost predicate AllowedByRules(rules: seq<Rule>, d: Dialect, denyAll: bool, name: string, x: Release) {
    AllowCovers(rules, d, name, x) || (!denyAll && !DenyMatches(rules, d, name, x))
  }

  /******* One line per project *******/

  /** A standing whole deny and a range deny of one package. */
  ghost predicate DeniedTwice(rules: seq<Rule>, d: Dialect, name: string) {
    && WholeRule(rules, d.a, name, Deny) && !WholeRule(rules, d.a, name, Allow)
    && exists t :: RangeDenied(rules, d.a, name, t)
  }

  /******* Which rules can be planned *******/

  /** An exact allow that no whole allow of the package makes needless: no range is denied beside it, and where it needs
      a line there is no other one. */
  ghost predicate PinCanStand(rules: seq<Rule>, a: Adapter, denyAll: bool, n: string, e: string) {
    && !(exists t :: RangeDenied(rules, a, n, t))
    && (WholeRule(rules, a, n, Deny) || denyAll ==> forall f | ExactAllowed(rules, a, n, f) :: f == e)
  }

  lemma SizeOne(s: set<string>, e: string)
    requires e in s
    ensures |s| > 1 <==> exists f :: f in s && f != e
  {
    if f :| f in s && f != e {
      assert |s - {e}| == |s| - 1 && f in s - {e};
    } else {
      assert s == {e};
    }
  }

  lemma ExactsPlanned(rules: seq<Rule>, a: Adapter, denyAll: bool, n: string, e: string)
    requires Accepted(rules, a) && ExactAllowed(rules, a, n, e)
    ensures var b := BucketsOf(rules, a);
      (CarvesRange(b, n) || TooManyExacts(b, denyAll, n)) <==>
      !WholeRule(rules, a, n, Allow) && !PinCanStand(rules, a, denyAll, n, e)
  {
    var b := BucketsOf(rules, a);
    WholesAreFaithful(rules, a);
    ExactsAreFaithful(rules, a);
    HasRange(rules, a, n);
    HasExact(rules, a, n);
    assert forall f :: f in ExactsOf(b, n) <==> ExactAllowed(rules, a, n, f);
    SizeOne(b.exactAllows[n], e);
  }

  /** The rules can be planned iff every exact allow that counts can be. */
  lemma PypiPlansIff(rules: seq<Rule>, a: Adapter, denyAll: bool)
    requires Accepted(rules, a)
    ensures Plannable(BucketsOf(rules, a), denyAll) <==>
      forall n, e | ExactAllowed(rules, a, n, e) && !WholeRule(rules, a, n, Allow) ::
        PinCanStand(rules, a, denyAll, n, e)
  {
    var b := BucketsOf(rules, a);
    forall n, e | ExactAllowed(rules, a, n, e) ensures n in b.exactAllows
      && ((CarvesRange(b, n) || TooManyExacts(b, denyAll, n)) <==>
          !WholeRule(rules, a, n, Allow) && !PinCanStand(rules, a, denyAll, n, e))
    {
      HasExact(rules, a, n);
      ExactsPlanned(rules, a, denyAll, n, e);
    }
    forall n | n in b.exactAllows ensures exists e :: ExactAllowed(rules, a, n, e) { HasExact(rules, a, n); }
  }

  lemma NamesAreNormal(rules: seq<Rule>, d: Dialect, name: string)
    requires Accepted(rules, d.a) && PlainRules(rules, d)
    requires var b := BucketsOf(rules, d.a);
             name in b.ranges || name in b.whole || name in b.wholeAllows || ExactsOf(b, name) != {}
    ensures NormalName(name)
  {
    var b := BucketsOf(rules, d.a);
    WholesAreFaithful(rules, d.a);
    ExactsAreFaithful(rules, d.a);
    if name in b.ranges {
      HasRange(rules, d.a, name);
      var t :| RangeDenied(rules, d.a, name, t);
      var r :| r in rules && IsRange(r, d.a, name, t);
    } else if name in b.whole {
      var r :| r in rules && IsWhole(r, d.a, name, Deny);
    } else if name in b.wholeAllows {
      var r :| r in rules && IsWhole(r, d.a, name, Allow);
    } else {
      var e :| e in ExactsOf(b, name);
      var r :| r in rules && IsExact(r, d.a, name, e);
    }
  }

  lemma DeniesArePlain(rules: seq<Rule>, d: Dialect, name: string)
    requires Accepted(rules, d.a) && PlainRules(rules, d) && name in BucketsOf(rules, d.a).ranges
    ensures PlainTexts(d, Texts(BucketsOf(rules, d.a).ranges[name]))
  {
    RangesAreFaithful(rules, d.a);
    RangeDeniesMeaning(rules, d.a, name);
    assert RangesOf(BucketsOf(rules, d.a), name) == BucketsOf(rules, d.a).ranges[name];
  }

  lemma RangeLinesPlain(d: Dialect, ranges: map<string, seq<RangeDeny>>)
    requires RangeLinesOk(d, ranges) && forall n | n in ranges :: NormalName(n) && PlainTexts(d, Texts(ranges[n]))
    ensures PlainLines(RangeLines(d, SortedKeys(ranges), ranges))
  {
    var names := SortedKeys(ranges);
    forall i | 0 <= i < |names| ensures PlainLine(RangeLines(d, names, ranges)[i]) {
      assert names[i] in names;
      RangeSpecsPlain(d, ranges[names[i]]);
    }
  }

  lemma RangeSpecsPlain(d: Dialect, ds: seq<RangeDeny>)
    requires PlainTexts(d, Texts(ds)) && Complementable(d, SortByText(ds))
    ensures forall i | 0 <= i < |RangeSpecs(d, ds)| :: PlainText(RangeSpecs(d, ds)[i].version)
  {
    SortKeepsTexts(ds);
    var sorted := SortByText(ds);
    forall i | 0 <= i < |sorted| ensures PlainComparator(d, sorted[i].text) {
      assert Texts(sorted)[i] in Texts(sorted);
    }
  }

  lemma NameLinesPlain(names: set<string>)
    requires forall n | n in names :: NormalName(n)
    ensures PlainLines(WholeLines(Sorted(names))) && PlainLines(BareLines(Sorted(names)))
  {
    SortedFacts(names);
    assert forall i | 0 <= i < |Sorted(names)| :: Sorted(names)[i] in Sorted(names);
  }

  lemma PinLinesPlain(exact: map<string, string>)
    requires forall n | n in exact :: NormalName(n) && PlainText(exact[n])
    ensures PlainLines(PinLines(SortedKeys(exact), exact))
  {
    assert forall i | 0 <= i < |SortedKeys(exact)| :: SortedKeys(exact)[i] in SortedKeys(exact);
  }

  ghost predicate WellFormed(b: Buckets) { forall n | n in b.exactAllows :: b.exactAllows[n] != {} }

  lemma PinsOfPlan(b: Buckets, denyAll: bool)
    requires WellFormed(b) && Plannable(b, denyAll)
    ensures var exact := PlanOf(b, denyAll).exact;
            && (forall n :: n in exact <==> NeedsExact(b, denyAll, n))
            && (forall n | n in exact :: ExactsOf(b, n) == {exact[n]})
  {
    forall n | n in PlanOf(b, denyAll).exact ensures ExactsOf(b, n) == {PlanOf(b, denyAll).exact[n]} {
      assert !TooManyExacts(b, denyAll, n);
      var v :| v in b.exactAllows[n];
      TheOnly(b.exactAllows[n], v);
    }
  }

  lemma PlanNamesNormal(rules: seq<Rule>, d: Dialect, denyAll: bool)
    requires Accepted(rules, d.a) && PlainRules(rules, d)
    ensures var p := PlanOf(BucketsOf(rules, d.a), denyAll);
            forall n | n in p.ranges || n in p.whole || n in p.exact || n in p.bare :: NormalName(n)
  {
    ExactsAreFaithful(rules, d.a);
    var b := BucketsOf(rules, d.a);
    var p := PlanOf(b, denyAll);
    forall n | n in p.ranges || n in p.whole || n in p.exact || n in p.bare ensures NormalName(n) {
      if n in p.exact { assert ExactsOf(b, n) != {}; }
      NamesAreNormal(rules, d, n);
    }
  }

  lemma PlanPinsPlain(rules: seq<Rule>, d: Dialect, denyAll: bool)
    requires Accepted(rules, d.a) && PlainRules(rules, d)
    requires Plannable(BucketsOf(rules, d.a), denyAll)
    ensures var exact := PlanOf(BucketsOf(rules, d.a), denyAll).exact;
            forall n | n in exact :: PlainRelease(exact[n])
  {
    var b := BucketsOf(rules, d.a);
    var exact := PlanOf(b, denyAll).exact;
    ExactsAreFaithful(rules, d.a);
    PinsOfPlan(b, denyAll);
    forall n | n in exact ensures PlainRelease(exact[n]) {
      assert exact[n] in ExactsOf(b, n);
      assert ExactAllowed(rules, d.a, n, exact[n]);
    }
  }

  lemma PlainConcat(xs: seq<PypiLine>, ys: seq<PypiLine>)
    requires PlainLines(xs) && PlainLines(ys)
    ensures PlainLines(xs + ys)
  {
  }

  /** Every printed line is in the plain domain. */
  lemma PlanLinesArePlain(rules: seq<Rule>, d: Dialect, denyAll: bool)
    requires Accepted(rules, d.a) && PlainRules(rules, d)
    requires Emittable(d, BucketsOf(rules, d.a), denyAll)
    ensures PlainLines(LinesOf(d, PlanOf(BucketsOf(rules, d.a), denyAll), denyAll))
  {
    var p := PlanOf(BucketsOf(rules, d.a), denyAll);
    PlanNamesNormal(rules, d, denyAll);
    PlanPinsPlain(rules, d, denyAll);
    PinLinesPlain(p.exact);
    NameLinesPlain(p.whole);
    NameLinesPlain(p.bare);
    var pins, bares := PinLines(SortedKeys(p.exact), p.exact), BareLines(Sorted(p.bare));
    PlainConcat(pins, bares);
    if denyAll {
      assert LinesOf(d, p, denyAll) == [] + (pins + bares);
      PlainConcat([], pins + bares);
    } else {
      forall n | n in p.ranges ensures PlainTexts(d, Texts(p.ranges[n])) { DeniesArePlain(rules, d, n); }
      RangeLinesPlain(d, p.ranges);
      PlainConcat(RangeLines(d, SortedKeys(p.ranges), p.ranges), WholeLines(Sorted(p.whole)));
      PlainConcat(RangeLines(d, SortedKeys(p.ranges), p.ranges) + WholeLines(Sorted(p.whole)), pins + bares);
    }
  }

  /******* When no project is named twice *******/

  predicate SharesName(xs: seq<PypiLine>, ys: seq<PypiLine>) {
    exists x, y | x in xs && y in ys :: x.name == y.name
  }

  lemma {:induction false} DistinctConcat(xs: seq<PypiLine>, ys: seq<PypiLine>)
    ensures DistinctNames(xs + ys) <==> DistinctNames(xs) && DistinctNames(ys) && !SharesName(xs, ys)
  {
    if ys == [] {
      assert xs + ys == xs;
    } else {
      var front, last := ys[..|ys| - 1], ys[|ys| - 1];
      DistinctConcat(xs, front);
      assert (xs + ys)[..|xs + ys| - 1] == xs + front;
      assert forall y :: y in ys <==> y in front || y == last;
    }
  }

  /** Lines named by an ascending list name no project twice. */
  lemma {:induction false} AscendingDistinctLines(ls: seq<PypiLine>, names: seq<string>)
    requires Ascending(names) && |ls| == |names| && forall i | 0 <= i < |ls| :: ls[i].name == names[i]
    ensures DistinctNames(ls)
  {
    if ls != [] {
      AscendingDistinctLines(ls[..|ls| - 1], names[..|ls| - 1]);
      AscendingDistinct(names);
    }
  }

  /** The four kinds of lines of a plan, as sets of named lines. */
  ghost predicate LinesAre(ls: seq<PypiLine>, names: set<string>, specsOf: string -> seq<Spec>) {
    forall l :: l in ls <==> l.name in names && l.specs == specsOf(l.name)
  }

  function SafeRangeSpecs(d: Dialect, ranges: map<string, seq<RangeDeny>>, n: string): seq<Spec> {
    if n in ranges && Complementable(d, SortByText(ranges[n])) then RangeSpecs(d, ranges[n]) else []
  }

  /** One line per name of an ascending list, with the comparators `f` gives the name. */
  lemma LinesFromNames(ls: seq<PypiLine>, names: seq<string>, domain: set<string>, f: string -> seq<Spec>)
    requires Ascending(names) && (forall n :: n in names <==> n in domain)
    requires |ls| == |names| && forall i | 0 <= i < |ls| :: ls[i].name == names[i] && ls[i].specs == f(names[i])
    ensures LinesAre(ls, domain, f) && DistinctNames(ls)
  {
    AscendingDistinctLines(ls, names);
    forall l: PypiLine ensures l in ls <==> l.name in domain && l.specs == f(l.name) {
      if l in ls { var i :| 0 <= i < |ls| && ls[i] == l; assert names[i] in names; }
      if l.name in domain && l.specs == f(l.name) {
        var i :| 0 <= i < |names| && names[i] == l.name;
        assert ls[i] == l;
      }
    }
  }

  lemma RangeLinesAre(d: Dialect, ranges: map<string, seq<RangeDeny>>)
    requires RangeLinesOk(d, ranges)
    ensures LinesAre(RangeLines(d, SortedKeys(ranges), ranges), ranges.Keys, n => SafeRangeSpecs(d, ranges, n))
    ensures DistinctNames(RangeLines(d, SortedKeys(ranges), ranges))
  {
    var names := SortedKeys(ranges);
    var ls := RangeLines(d, names, ranges);
    forall i | 0 <= i < |ls| ensures ls[i].specs == SafeRangeSpecs(d, ranges, names[i]) {
      assert names[i] in names && RangeLineOk(d, names[i], ranges[names[i]]);
    }
    LinesFromNames(ls, names, ranges.Keys, n => SafeRangeSpecs(d, ranges, n));
  }

  lemma WholeLinesAre(whole: set<string>)
    ensures LinesAre(WholeLines(Sorted(whole)), whole, n => [Spec(Eq, "0")])
    ensures DistinctNames(WholeLines(Sorted(whole)))
  {
    SortedFacts(whole);
    LinesFromNames(WholeLines(Sorted(whole)), Sorted(whole), whole, n => [Spec(Eq, "0")]);
  }

  lemma BareLinesAre(bare: set<string>)
    ensures LinesAre(BareLines(Sorted(bare)), bare, n => [])
    ensures DistinctNames(BareLines(Sorted(bare)))
  {
    SortedFacts(bare);
    LinesFromNames(BareLines(Sorted(bare)), Sorted(bare), bare, n => []);
  }

  function PinSpecs(exact: map<string, string>, n: string): seq<Spec> {
    if n in exact then [Spec(Eq, exact[n])] else []
  }

  lemma PinLinesAre(exact: map<string, string>)
    ensures LinesAre(PinLines(SortedKeys(exact), exact), exact.Keys, n => PinSpecs(exact, n))
    ensures DistinctNames(PinLines(SortedKeys(exact), exact))
  {
    var names := SortedKeys(exact);
    assert forall i | 0 <= i < |names| :: names[i] in names;
    LinesFromNames(PinLines(names, exact), names, exact.Keys, n => PinSpecs(exact, n));
  }

  lemma SharesNameOfSets(xs: seq<PypiLine>, ys: seq<PypiLine>, xn: set<string>, yn: set<string>,
                         xf: string -> seq<Spec>, yf: string -> seq<Spec>)
    requires LinesAre(xs, xn, xf) && LinesAre(ys, yn, yf)
    ensures SharesName(xs, ys) <==> exists n :: n in xn && n in yn
  {
    if n :| n in xn && n in yn {
      assert PypiLine(n, xf(n)) in xs && PypiLine(n, yf(n)) in ys;
    }
  }

  /** What each line of the emitted constraints says. */
  ghost predicate DenyingLine(d: Dialect, p: Plan, l: PypiLine) {
    || (l.name in p.ranges && l.specs == SafeRangeSpecs(d, p.ranges, l.name))
    || (l.name in p.whole && l.specs == [Spec(Eq, "0")])
  }

  ghost predicate PassingLine(p: Plan, l: PypiLine) {
    || (l.name in p.exact && l.specs == [Spec(Eq, p.exact[l.name])])
    || (l.name in p.bare && l.specs == [])
  }

  function PassingLines(p: Plan): seq<PypiLine> {
    PinLines(SortedKeys(p.exact), p.exact) + BareLines(Sorted(p.bare))
  }

  function DenyingLines(d: Dialect, p: Plan): seq<PypiLine>
    requires forall n | n in p.ranges :: Complementable(d, SortByText(p.ranges[n]))
  {
    RangeLines(d, SortedKeys(p.ranges), p.ranges) + WholeLines(Sorted(p.whole))
  }

  lemma PassingLinesFacts(p: Plan)
    ensures forall l :: l in PassingLines(p) <==> PassingLine(p, l)
    ensures DistinctNames(PassingLines(p)) <==> forall n | n in p.exact :: n !in p.bare
  {
    var pins, bares := PinLines(SortedKeys(p.exact), p.exact), BareLines(Sorted(p.bare));
    PinLinesAre(p.exact);
    BareLinesAre(p.bare);
    DistinctConcat(pins, bares);
    SharesNameOfSets(pins, bares, p.exact.Keys, p.bare, n => PinSpecs(p.exact, n), n => []);
  }

  lemma DenyingMembers(d: Dialect, p: Plan, l: PypiLine)
    requires RangeLinesOk(d, p.ranges)
    ensures l in DenyingLines(d, p) <==> DenyingLine(d, p, l)
  {
    RangeLinesAre(d, p.ranges);
    WholeLinesAre(p.whole);
  }

  lemma DenyingDistinct(d: Dialect, p: Plan)
    requires RangeLinesOk(d, p.ranges)
    ensures DistinctNames(DenyingLines(d, p)) <==> forall n | n in p.ranges :: n !in p.whole
  {
    var rangeLines, wholes := RangeLines(d, SortedKeys(p.ranges), p.ranges), WholeLines(Sorted(p.whole));
    RangeLinesAre(d, p.ranges);
    WholeLinesAre(p.whole);
    DistinctConcat(rangeLines, wholes);
    SharesNameOfSets(rangeLines, wholes, p.ranges.Keys, p.whole,
                     n => SafeRangeSpecs(d, p.ranges, n), n => [Spec(Eq, "0")]);
  }

  lemma DenyingLinesFacts(d: Dialect, p: Plan)
    requires RangeLinesOk(d, p.ranges)
    ensures forall l :: l in DenyingLines(d, p) <==> DenyingLine(d, p, l)
    ensures DistinctNames(DenyingLines(d, p)) <==> forall n | n in p.ranges :: n !in p.whole
  {
    forall l ensures l in DenyingLines(d, p) <==> DenyingLine(d, p, l) { DenyingMembers(d, p, l); }
    DenyingDistinct(d, p);
  }

  /** The plan's kinds of lines name disjoint packages, but for ranges and whole denies. */
  ghost predicate KindsApart(p: Plan) {
    && (forall n | n in p.exact :: n !in p.ranges && n !in p.whole && n !in p.bare)
    && (forall n | n in p.bare :: n !in p.ranges && n !in p.whole)
  }

  lemma LinesOfPlan(d: Dialect, p: Plan, denyAll: bool)
    requires PlanOk(d, p, denyAll) && KindsApart(p)
    ensures forall l :: l in LinesOf(d, p, denyAll) <==> (!denyAll && DenyingLine(d, p, l)) || PassingLine(p, l)
    ensures DistinctNames(LinesOf(d, p, denyAll)) <==> denyAll || forall n | n in p.ranges :: n !in p.whole
  {
    PassingLinesFacts(p);
    if denyAll {
      assert LinesOf(d, p, denyAll) == PassingLines(p);
    } else {
      DenyingLinesFacts(d, p);
      DistinctConcat(DenyingLines(d, p), PassingLines(p));
      assert LinesOf(d, p, denyAll) == DenyingLines(d, p) + PassingLines(p);
    }
  }

  lemma PlanKindsApart(b: Buckets, denyAll: bool)
    requires WellFormed(b) && Plannable(b, denyAll)
    ensures KindsApart(PlanOf(b, denyAll))
  {
    PinsOfPlan(b, denyAll);
    forall n | n in PlanOf(b, denyAll).exact ensures n !in PlanOf(b, denyAll).ranges { assert !CarvesRange(b, n); }
  }

  /** devpi accepts the emitted constraints, if and only if the index denies by default
      or no package has both a standing whole deny and a range deny. */
  lemma ConstraintsAccepted(rules: seq<Rule>, d: Dialect, denyAll: bool)
    requires Accepted(rules, d.a) && PlainRules(rules, d)
    requires Emittable(d, BucketsOf(rules, d.a), denyAll)
    ensures Parsed(EffectiveLines(TextOf(d, PlanOf(BucketsOf(rules, d.a), denyAll), denyAll))).Some?
            <==> denyAll || forall n :: !DeniedTwice(rules, d, n)
  {
    ExactsAreFaithful(rules, d.a);
    var b := BucketsOf(rules, d.a);
    var p := PlanOf(b, denyAll);
    ReadsBackPlan(rules, d, denyAll);
    if !denyAll {
      WholesAreFaithful(rules, d.a);
      forall n ensures DeniedTwice(rules, d, n) <==> n in p.ranges && n in p.whole {
        HasRange(rules, d.a, n);
        if n in b.exactAllows { assert !CarvesRange(b, n); }
      }
    }
  }

  /** The text reads back to the plan's lines, and those to their table. */
  lemma ReadsBackPlan(rules: seq<Rule>, d: Dialect, denyAll: bool)
    requires Accepted(rules, d.a) && PlainRules(rules, d)
    requires Emittable(d, BucketsOf(rules, d.a), denyAll)
    ensures var p := PlanOf(BucketsOf(rules, d.a), denyAll);
            var cs := Parsed(EffectiveLines(TextOf(d, p, denyAll)));
            && (cs.Some? <==> denyAll || forall n | n in p.ranges :: n !in p.whole)
            && (cs.Some? ==> cs.value.all == denyAll && Tabulates(cs.value.specs, LinesOf(d, p, denyAll)))
  {
    ExactsAreFaithful(rules, d.a);
    var b := BucketsOf(rules, d.a);
    var p := PlanOf(b, denyAll);
    var ls := LinesOf(d, p, denyAll);
    PlanLinesArePlain(rules, d, denyAll);
    PlanKindsApart(b, denyAll);
    LinesOfPlan(d, p, denyAll);
    TextReadsBack(ls, denyAll);
  }

  lemma TextReadsBack(ls: seq<PypiLine>, denyAll: bool)
    requires PlainLines(ls)
    ensures var cs := Parsed(EffectiveLines(Terminated(LineTexts(ls) + if denyAll then ["*"] else [])));
            && (cs.Some? <==> DistinctNames(ls))
            && (cs.Some? ==> cs.value.all == denyAll && Tabulates(cs.value.specs, ls))
  {
    var texts := LineTexts(ls) + if denyAll then ["*"] else [];
    forall i | 0 <= i < |texts| ensures CleanLine(texts[i]) {
      if i < |ls| { LineIsClean(ls[i]); }
    }
    CleanLinesAreEffective(texts);
    ParsesLines(ls);
    ParsesLinesAndStar(ls);
    assert !denyAll ==> texts == LineTexts(ls);
  }

  /******* Meaning *******/

  /** The joined complements of some range denies admit exactly what none of them matches. */
  lemma ComplementsMeet(d: Dialect, ds: seq<RangeDeny>, x: Release)
    requires PlainTexts(d, Texts(ds)) && Complementable(d, SortByText(ds))
    ensures MeetsAll(RangeSpecs(d, ds), x) <==> forall t | t in Texts(ds) :: !RangeMatches(d, t, x)
  {
    SortKeepsTexts(ds);
    var sorted, specs := SortByText(ds), RangeSpecs(d, ds);
    forall i | 0 <= i < |sorted| ensures Meets(specs[i], x) <==> !RangeMatches(d, sorted[i].text, x) {
      assert Texts(sorted)[i] in Texts(sorted);
      var s := d.comparator(sorted[i].text).value;
      ComplementIsExact(s.op, x, ReadRelease(s.version).value);
    }
    forall i | 0 <= i < |sorted| ensures sorted[i].text in Texts(ds) { assert Texts(sorted)[i] in Texts(sorted); }
    forall t | t in Texts(ds) ensures exists i | 0 <= i < |sorted| :: sorted[i].text == t {
      assert t in Texts(sorted);
    }
  }

  /** The joined complements admit exactly the releases that no deny matches. */
  lemma ComplementsAreExact(rules: seq<Rule>, d: Dialect, name: string, x: Release)
    requires Accepted(rules, d.a) && PlainRules(rules, d)
    requires name in BucketsOf(rules, d.a).ranges && Complementable(d, SortByText(BucketsOf(rules, d.a).ranges[name]))
    ensures MeetsAll(RangeSpecs(d, BucketsOf(rules, d.a).ranges[name]), x)
            <==> !exists t :: RangeDenied(rules, d.a, name, t) && RangeMatches(d, t, x)
  {
    RangesAreFaithful(rules, d.a);
    RangeDeniesMeaning(rules, d.a, name);
    var ds := BucketsOf(rules, d.a).ranges[name];
    assert ds == RangesOf(BucketsOf(rules, d.a), name);
    DeniesArePlain(rules, d, name);
    ComplementsMeet(d, ds, x);
  }

  ghost predicate TableFits(cs: Constraints, d: Dialect, p: Plan, denyAll: bool, name: string)
    requires !denyAll ==> RangeLinesOk(d, p.ranges)
  {
    && cs.all == denyAll
    && (name in cs.specs <==> (!denyAll && (name in p.ranges || name in p.whole)) || name in p.exact || name in p.bare)
    && (!denyAll && name in p.ranges ==> cs.specs[name] == RangeSpecs(d, p.ranges[name]))
    && (!denyAll && name in p.whole ==> cs.specs[name] == [Spec(Eq, "0")])
    && (name in p.exact ==> cs.specs[name] == [Spec(Eq, p.exact[name])])
    && (name in p.bare ==> cs.specs[name] == [])
  }

  lemma TableOfLines(cs: Constraints, ls: seq<PypiLine>, d: Dialect, p: Plan, denyAll: bool, name: string)
    requires cs.all == denyAll && Tabulates(cs.specs, ls)
    requires forall l :: l in ls <==> (!denyAll && DenyingLine(d, p, l)) || PassingLine(p, l)
    requires !denyAll ==> RangeLinesOk(d, p.ranges)
    ensures TableFits(cs, d, p, denyAll, name)
  {
    if !denyAll && name in p.ranges {
      assert RangeLineOk(d, name, p.ranges[name]);
      Listed(cs.specs, ls, name, SafeRangeSpecs(d, p.ranges, name));
    }
    if !denyAll && name in p.whole { Listed(cs.specs, ls, name, [Spec(Eq, "0")]); }
    if name in p.exact { Listed(cs.specs, ls, name, [Spec(Eq, p.exact[name])]); }
    if name in p.bare { Listed(cs.specs, ls, name, []); }
  }

  lemma Listed(specs: map<string, seq<Spec>>, ls: seq<PypiLine>, name: string, line: seq<Spec>)
    requires Tabulates(specs, ls) && PypiLine(name, line) in ls
    ensures name in specs && specs[name] == line
  {
  }

  /** A standing whole deny without an exact allow: printed as `==0` where the index allows by default. */
  ghost predicate Killed(rules: seq<Rule>, d: Dialect, denyAll: bool, name: string) {
    && !denyAll && WholeRule(rules, d.a, name, Deny) && !WholeRule(rules, d.a, name, Allow)
    && !exists e :: ExactAllowed(rules, d.a, name, e)
  }

  lemma KilledInPlan(rules: seq<Rule>, d: Dialect, name: string)
    requires Accepted(rules, d.a)
    ensures name in PlanOf(BucketsOf(rules, d.a), false).whole <==> Killed(rules, d, false, name)
  {
    WholesAreFaithful(rules, d.a);
    HasExact(rules, d.a, name);
  }

  lemma ReadZero()
    ensures ReadRelease("0") == Some([0])
  {
    ReadDigit("0");
  }

  /** The pin of a planned name is its only exact allow. */
  lemma OnlyPin(rules: seq<Rule>, d: Dialect, denyAll: bool, name: string)
    requires Accepted(rules, d.a) && Plannable(BucketsOf(rules, d.a), denyAll)
    requires name in PlanOf(BucketsOf(rules, d.a), denyAll).exact
    ensures forall f :: ExactAllowed(rules, d.a, name, f) <==> f == PlanOf(BucketsOf(rules, d.a), denyAll).exact[name]
  {
    var b := BucketsOf(rules, d.a);
    ExactsAreFaithful(rules, d.a);
    PinsOfPlan(b, denyAll);
    forall f ensures ExactAllowed(rules, d.a, name, f) <==> f in ExactsOf(b, name) {}
  }

  /** Which releases an exact allow of the plan covers. */
  lemma PinnedCovers(rules: seq<Rule>, d: Dialect, denyAll: bool, name: string, x: Release)
    requires Accepted(rules, d.a) && Plannable(BucketsOf(rules, d.a), denyAll)
    requires name in PlanOf(BucketsOf(rules, d.a), denyAll).exact
    ensures AllowCovers(rules, d, name, x) <==> Pins(PlanOf(BucketsOf(rules, d.a), denyAll).exact[name], x)
    ensures denyAll || DenyMatches(rules, d, name, x)
  {
    OnlyPin(rules, d, denyAll, name);
    WholesAreFaithful(rules, d.a);
    assert NeedsExact(BucketsOf(rules, d.a), denyAll, name);
  }

  /** A name without a line: covered or untouched by denies where the index allows by default. */
  lemma UnlistedMeaning(rules: seq<Rule>, d: Dialect, denyAll: bool, name: string, x: Release)
    requires Accepted(rules, d.a) && Plannable(BucketsOf(rules, d.a), denyAll)
    requires var p := PlanOf(BucketsOf(rules, d.a), denyAll);
             name !in p.exact && name !in p.bare && (denyAll || (name !in p.ranges && name !in p.whole))
    ensures AllowedByRules(rules, d, denyAll, name, x) <==> !denyAll
  {
    var b := BucketsOf(rules, d.a);
    ExactsAreFaithful(rules, d.a);
    PinsOfPlan(b, denyAll);
    WholesAreFaithful(rules, d.a);
    HasRange(rules, d.a, name);
    if e :| ExactAllowed(rules, d.a, name, e) {
      assert e in ExactsOf(b, name);
      assert !CarvesRange(b, name);
    }
  }

  /** A name whose lines are inverted range denies has no other rule that matters. */
  lemma RangedMeaning(rules: seq<Rule>, d: Dialect, name: string, x: Release)
    requires Accepted(rules, d.a) && PlainRules(rules, d) && Plannable(BucketsOf(rules, d.a), false)
    requires var p := PlanOf(BucketsOf(rules, d.a), false); name in p.ranges && name !in p.whole
    requires Complementable(d, SortByText(BucketsOf(rules, d.a).ranges[name]))
    ensures AllowedByRules(rules, d, false, name, x) <==> MeetsAll(RangeSpecs(d, BucketsOf(rules, d.a).ranges[name]), x)
  {
    var b := BucketsOf(rules, d.a);
    WholesAreFaithful(rules, d.a);
    ExactsAreFaithful(rules, d.a);
    ComplementsAreExact(rules, d, name, x);
    assert name !in b.exactAllows by { if name in b.exactAllows { assert CarvesRange(b, name); } }
    assert forall e :: ExactAllowed(rules, d.a, name, e) <==> e in ExactsOf(b, name);
  }

  /** One name of the table, release by release. */
  lemma TableMeaning(rules: seq<Rule>, d: Dialect, denyAll: bool, name: string, x: Release, cs: Constraints)
    requires Accepted(rules, d.a) && PlainRules(rules, d)
    requires Emittable(d, BucketsOf(rules, d.a), denyAll)
    requires var p := PlanOf(BucketsOf(rules, d.a), denyAll);
             TableFits(cs, d, p, denyAll, name) && (!denyAll ==> name !in p.ranges || name !in p.whole)
    ensures (Admits(cs, name, x) <==> AllowedByRules(rules, d, denyAll, name, x))
            <==> !(Killed(rules, d, denyAll, name) && ReleaseOrder.Compare(x, [0]) == 0)
  {
    ExactsAreFaithful(rules, d.a);
    var p := PlanOf(BucketsOf(rules, d.a), denyAll);
    PlanKindsApart(BucketsOf(rules, d.a), denyAll);
    if !denyAll { KilledInPlan(rules, d, name); }
    if name in p.bare {
      WholesAreFaithful(rules, d.a);
    } else if name in p.exact {
      PinnedCovers(rules, d, denyAll, name, x);
      OneSpec(Spec(Eq, p.exact[name]), x);
    } else if !denyAll && name in p.ranges {
      assert RangeLineOk(d, name, p.ranges[name]);
      RangedMeaning(rules, d, name, x);
    } else if !denyAll && name in p.whole {
      KilledMeaning(rules, d, name, x);
    } else {
      UnlistedMeaning(rules, d, denyAll, name, x);
    }
  }

  lemma OneSpec(s: Spec, x: Release)
    ensures MeetsAll([s], x) <==> Meets(s, x)
  {
    assert [s][0] == s;
  }

  lemma KilledMeaning(rules: seq<Rule>, d: Dialect, name: string, x: Release)
    requires Killed(rules, d, false, name)
    ensures MeetsAll([Spec(Eq, "0")], x) <==> ReleaseOrder.Compare(x, [0]) == 0
    ensures !AllowedByRules(rules, d, false, name, x)
  {
    ReadZero();
    assert [Spec(Eq, "0")][0] == Spec(Eq, "0");
  }

  /** The accepted constraints admit a plain release exactly when the rules allow it,
      if and only if it is not release 0 of a package that is killed whole. */
  lemma TranslationMeaning(rules: seq<Rule>, d: Dialect, denyAll: bool, name: string, x: Release)
    requires Accepted(rules, d.a) && PlainRules(rules, d)
    requires Emittable(d, BucketsOf(rules, d.a), denyAll)
    requires Parsed(EffectiveLines(TextOf(d, PlanOf(BucketsOf(rules, d.a), denyAll), denyAll))).Some?
    ensures var cs := Parsed(EffectiveLines(TextOf(d, PlanOf(BucketsOf(rules, d.a), denyAll), denyAll))).value;
            (Admits(cs, name, x) <==> AllowedByRules(rules, d, denyAll, name, x))
            <==> !(Killed(rules, d, denyAll, name) && ReleaseOrder.Compare(x, [0]) == 0)
  {
    ExactsAreFaithful(rules, d.a);
    var p := PlanOf(BucketsOf(rules, d.a), denyAll);
    var cs := Parsed(EffectiveLines(TextOf(d, p, denyAll))).value;
    ReadsBackPlan(rules, d, denyAll);
    PlanKindsApart(BucketsOf(rules, d.a), denyAll);
    LinesOfPlan(d, p, denyAll);
    TableOfLines(cs, LinesOf(d, p, denyAll), d, p, denyAll, name);
    TableMeaning(rules, d, denyAll, name, x, cs);
  }
}
