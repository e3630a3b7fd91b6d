/** The pypi half of the compiler: allow-wins resolution into PEP 440 constraint lines. */
module PypiCompiler {
  import opened Base
  import opened Text
  import opened Rules
  import opened Pep440

  /** The adapter, and its reader of single comparators (`_PEP440_SINGLE_CMP_RE`). */
  datatype Dialect = Dialect(a: Adapter, comparator: string -> Option<Spec>)

  /** One constraint line before it is printed. */
  datatype PypiLine = PypiLine(name: string, specs: seq<Spec>)

  /******* Printing *******/

  function OpText(op: SpecOp): string {
    match op case Lt => "<" case Le => "<=" case Gt => ">" case Ge => ">=" case Eq => "==" case Ne => "!="
  }

  function SpecText(s: Spec): string { OpText(s.op) + s.version }

  function SpecTexts(specs: seq<Spec>): seq<string> { seq(|specs|, i requires 0 <= i < |specs| => SpecText(specs[i])) }

  function LineText(l: PypiLine): string { l.name + JoinWith(SpecTexts(l.specs), ',') }

  function LineTexts(ls: seq<PypiLine>): seq<string> { seq(|ls|, i requires 0 <= i < |ls| => LineText(ls[i])) }

  /******* complement *******/

  function Complement(d: Dialect, text: string): Option<Spec> {
    match d.comparator(text)
    case Some(s) => if s.op == Ne then None else Some(Spec(ComplementOp(s.op), s.version))
    case None => None
  }

  predicate Complementable(d: Dialect, ds: seq<RangeDeny>) {
    forall i | 0 <= i < |ds| :: Complement(d, ds[i].text).Some?
  }

  function Complements(d: Dialect, ds: seq<RangeDeny>): seq<Spec>
    requires Complementable(d, ds)
  {
    seq(|ds|, i requires 0 <= i < |ds| => Complement(d, ds[i].text).value)
  }

  /** What the test for a contradictory complement answers. */
  ghost predicate ReadsAsEmpty(specs: seq<Spec>) {
    (forall s | s in specs :: Decidable(s)) && Crossed(Tightest(specs, true), Tightest(specs, false))
  }

  /******* The guard on one emitted line *******/

  predicate IsOpChar(c: char) { c == '=' || c == '!' || c == '<' || c == '>' || c == '~' }

  predicate Contains(line: string, sub: string) {
    sub <= line || (line != [] && Contains(line[1..], sub))
  }

  predicate HasComparator(line: string) {
    Contains(line, "==") || Contains(line, "!=") || Contains(line, "<") || Contains(line, ">") || Contains(line, "~=")
  }

  /** What is left of a line from its first comparator character on. */
  function FromOp(line: string): string {
    if line == [] || IsOpChar(line[0]) then line else FromOp(line[1..])
  }

  predicate LineValid(d: Dialect, line: string) {
    !HasComparator(line) || FromOp(line) == [] || d.a.valid(FromOp(line))
  }

  lemma {:induction false} FromOpAfter(name: string, rest: string)
    requires (forall i | 0 <= i < |name| :: !IsOpChar(name[i])) && rest != [] && IsOpChar(rest[0])
    ensures FromOp(name + rest) == rest
  {
    if name == [] {
      assert name + rest == rest;
    } else {
      assert (name + rest)[1..] == name[1..] + rest;
      FromOpAfter(name[1..], rest);
    }
  }

  lemma {:induction false} ContainsAfter(front: string, rest: string, sub: string)
    requires sub <= rest
    ensures Contains(front + rest, sub)
  {
    if front == [] {
      assert front + rest == rest;
    } else {
      assert (front + rest)[1..] == front[1..] + rest;
      ContainsAfter(front[1..], rest, sub);
    }
  }

  lemma {:induction false} NothingFromOp(name: string)
    requires forall i | 0 <= i < |name| :: !IsOpChar(name[i])
    ensures FromOp(name) == []
  {
    if name != [] { NothingFromOp(name[1..]); }
  }

  /** After a name without comparator characters the guard validates just the joined comparators. */
  lemma GuardChecksSpecifiers(d: Dialect, name: string, specs: seq<Spec>)
    requires (forall i | 0 <= i < |name| :: !IsOpChar(name[i])) && specs != []
    ensures LineValid(d, LineText(PypiLine(name, specs))) <==> d.a.valid(JoinWith(SpecTexts(specs), ','))
  {
    var joined, op := JoinWith(SpecTexts(specs), ','), OpText(specs[0].op);
    StartsWithOp(specs);
    FromOpAfter(name, joined);
    var sub := if op == "<=" then "<" else if op == ">=" then ">" else op;
    assert sub <= op <= joined;
    ContainsAfter(name, joined, sub);
  }

  lemma StartsWithOp(specs: seq<Spec>)
    requires specs != []
    ensures var joined := JoinWith(SpecTexts(specs), ',');
      OpText(specs[0].op) <= joined && joined != [] && IsOpChar(joined[0])
  {
    var texts := SpecTexts(specs);
    assert texts[0] == OpText(specs[0].op) + specs[0].version;
    assert texts[0] <= JoinWith(texts, ',');
  }

  /** A bare name passes. */
  lemma GuardPassesNames(d: Dialect, name: string)
    requires forall i | 0 <= i < |name| :: !IsOpChar(name[i])
    ensures LineValid(d, LineText(PypiLine(name, [])))
  {
    NothingFromOp(name);
    assert LineText(PypiLine(name, [])) == name;
  }

  method ValidatePypiLine(d: Dialect, line: string) returns (ok: bool)
    ensures ok <==> LineValid(d, line)
  {
    if !HasComparator(line) { return true; }
    for i := 0 to |line|
      invariant FromOp(line) == FromOp(line[i..])
    {
      assert line[i..][1..] == line[i + 1..];
      if IsOpChar(line[i]) { return d.a.valid(line[i..]); }
    }
    assert line[|line|..] == [];
    return true;
  }

  /******* Resolution *******/

  /** What is emitted, by kind of line. */
  datatype Plan = Plan(ranges: map<string, seq<RangeDeny>>, whole: set<string>, exact: map<string, string>,
                       bare: set<string>)

  predicate CarvesRange(b: Buckets, n: string) {
    n in b.exactAllows && n !in b.wholeAllows && n in b.ranges
  }

  /** Exact allows that need a line: over a whole deny, or under default-deny. */
  predicate NeedsExact(b: Buckets, denyAll: bool, n: string) {
    n in b.exactAllows && n !in b.wholeAllows && (n in b.whole || denyAll)
  }

  predicate TooManyExacts(b: Buckets, denyAll: bool, n: string) {
    NeedsExact(b, denyAll, n) && |b.exactAllows[n]| > 1
  }

  predicate Plannable(b: Buckets, denyAll: bool) {
    forall n | n in b.exactAllows :: !CarvesRange(b, n) && !TooManyExacts(b, denyAll, n)
  }

  function TheOne(s: set<string>): string {
    SortedFacts(s);
    if s == {} then "" else Sorted(s)[0]
  }

  function ExactLines(b: Buckets, denyAll: bool, names: set<string>): map<string, string>
    requires names <= b.exactAllows.Keys
  {
    map n | n in names && NeedsExact(b, denyAll, n) :: TheOne(b.exactAllows[n])
  }

  function PlanOf(b: Buckets, denyAll: bool): Plan {
    Plan(
      b.ranges - b.wholeAllows,
      b.whole.Keys - b.wholeAllows - b.exactAllows.Keys,
      ExactLines(b, denyAll, b.exactAllows.Keys),
      if denyAll then b.wholeAllows else {})
  }

  lemma TheOnly(s: set<string>, v: string)
    requires v in s && |s| <= 1
    ensures s == {v} && TheOne(s) == v
  {
    assert |s - {v}| == |s| - 1;
    SortedFacts(s);
    assert Sorted(s)[0] in Sorted(s);
  }

  method ResolvePypi(b: Buckets, denyAll: bool) returns (r: Result<Plan, PolicyError>)
    requires forall n | n in b.exactAllows :: b.exactAllows[n] != {}
    ensures r.Ok? <==> Plannable(b, denyAll)
    ensures r.Ok? ==> r.value == PlanOf(b, denyAll)
  {
    var whole, ranges := b.whole, b.ranges;
    var bare := {};
    var todo := b.wholeAllows;
    while todo != {}
      invariant todo <= b.wholeAllows
      invariant whole == b.whole - (b.wholeAllows - todo) && ranges == b.ranges - (b.wholeAllows - todo)
      invariant bare == if denyAll then b.wholeAllows - todo else {}
    {
      var name :| name in todo;
      whole, ranges := whole - {name}, ranges - {name};
      if denyAll { bare := bare + {name}; }
      todo := todo - {name};
    }
    var picked := PickExacts(b, denyAll, whole, ranges);
    if picked.Err? { return Err(picked.error); }
    return Ok(Plan(ranges, picked.value.0, picked.value.1, bare));
  }

  lemma ExactLinesNext(b: Buckets, denyAll: bool, done: set<string>, n: string)
    requires done <= b.exactAllows.Keys && n in b.exactAllows
    ensures ExactLines(b, denyAll, done + {n})
         == if NeedsExact(b, denyAll, n) then ExactLines(b, denyAll, done)[n := TheOne(b.exactAllows[n])]
            else ExactLines(b, denyAll, done)
  {
  }

  method PickExacts(b: Buckets, denyAll: bool, whole0: map<string, Option<string>>, ranges: map<string, seq<RangeDeny>>)
    returns (r: Result<(set<string>, map<string, string>), PolicyError>)
    requires forall n | n in b.exactAllows :: b.exactAllows[n] != {}
    requires whole0 == b.whole - b.wholeAllows && ranges == b.ranges - b.wholeAllows
    ensures r.Ok? <==> Plannable(b, denyAll)
    ensures r.Ok? ==>
      r.value == (b.whole.Keys - b.wholeAllows - b.exactAllows.Keys, ExactLines(b, denyAll, b.exactAllows.Keys))
  {
    var whole, exact := whole0, map[];
    var todo := b.exactAllows.Keys;
    ghost var done := {};
    while todo != {}
      invariant todo == b.exactAllows.Keys - done && done <= b.exactAllows.Keys
      invariant whole.Keys == b.whole.Keys - b.wholeAllows - done
      invariant exact == ExactLines(b, denyAll, done)
      invariant forall n | n in done :: !CarvesRange(b, n) && !TooManyExacts(b, denyAll, n)
      decreases todo
    {
      var name :| name in todo;
      ExactLinesNext(b, denyAll, done, name);
      if name !in b.wholeAllows {
        if name in ranges { assert CarvesRange(b, name); return Err(RangeCarving); }
        var emitExact := name in whole || denyAll;
        whole := whole - {name};
        if emitExact {
          if |b.exactAllows[name]| > 1 { assert TooManyExacts(b, denyAll, name); return Err(SeveralExactAllows); }
          exact := exact[name := TheOne(b.exactAllows[name])];
        }
      }
      todo, done := todo - {name}, done + {name};
    }
    assert done == b.exactAllows.Keys;
    return Ok((whole.Keys, exact));
  }

  /******* Lines *******/

  function RangeSpecs(d: Dialect, ds: seq<RangeDeny>): seq<Spec>
    requires Complementable(d, SortByText(ds))
  {
    Complements(d, SortByText(ds))
  }

  /** Every deny inverts, and the joined complement is a valid, not provably empty, allow-set. */
  ghost predicate RangeLineOk(d: Dialect, name: string, ds: seq<RangeDeny>) {
    && Complementable(d, SortByText(ds))
    && d.a.valid(JoinWith(SpecTexts(RangeSpecs(d, ds)), ','))
    && !ReadsAsEmpty(RangeSpecs(d, ds))
    && LineValid(d, LineText(PypiLine(name, RangeSpecs(d, ds))))
  }

  ghost predicate RangeLinesOk(d: Dialect, ranges: map<string, seq<RangeDeny>>) {
    forall n | n in ranges :: RangeLineOk(d, n, ranges[n])
  }

  function RangeLines(d: Dialect, names: seq<string>, ranges: map<string, seq<RangeDeny>>): seq<PypiLine>
    requires forall i | 0 <= i < |names| :: names[i] in ranges && Complementable(d, SortByText(ranges[names[i]]))
  {
    seq(|names|, i requires 0 <= i < |names| => PypiLine(names[i], RangeSpecs(d, ranges[names[i]])))
  }

  function WholeLines(names: seq<string>): seq<PypiLine> {
    seq(|names|, i requires 0 <= i < |names| => PypiLine(names[i], [Spec(Eq, "0")]))
  }

  function PinLines(names: seq<string>, exact: map<string, string>): seq<PypiLine>
    requires forall i | 0 <= i < |names| :: names[i] in exact
  {
    seq(|names|, i requires 0 <= i < |names| => PypiLine(names[i], [Spec(Eq, exact[names[i]])]))
  }

  function BareLines(names: seq<string>): seq<PypiLine> {
    seq(|names|, i requires 0 <= i < |names| => PypiLine(names[i], []))
  }

  predicate LinesValid(d: Dialect, lines: seq<PypiLine>) {
    forall i | 0 <= i < |lines| :: LineValid(d, LineText(lines[i]))
  }

  /** All lines of a plan in emit order; range and whole denies are not printed under default-deny. */
  function LinesOf(d: Dialect, p: Plan, denyAll: bool): seq<PypiLine>
    requires !denyAll ==> forall n | n in p.ranges :: Complementable(d, SortByText(p.ranges[n]))
  {
    (if denyAll then [] else RangeLines(d, SortedKeys(p.ranges), p.ranges) + WholeLines(Sorted(p.whole)))
    + (PinLines(SortedKeys(p.exact), p.exact) + BareLines(Sorted(p.bare)))
  }

  function TextOf(d: Dialect, p: Plan, denyAll: bool): string
    requires !denyAll ==> forall n | n in p.ranges :: Complementable(d, SortByText(p.ranges[n]))
  {
    Terminated(LineTexts(LinesOf(d, p, denyAll)) + if denyAll then ["*"] else [])
  }

  /** No line trips a guard. */
  ghost predicate PlanOk(d: Dialect, p: Plan, denyAll: bool) {
    && (!denyAll ==> RangeLinesOk(d, p.ranges))
    && (!denyAll ==> LinesValid(d, WholeLines(Sorted(p.whole))))
    && LinesValid(d, PinLines(SortedKeys(p.exact), p.exact))
    && LinesValid(d, BareLines(Sorted(p.bare)))
  }

  method EmitPypiRange(d: Dialect, name: string, ds: seq<RangeDeny>) returns (r: Result<PypiLine, PolicyError>)
    ensures r.Ok? <==> RangeLineOk(d, name, ds)
    ensures r.Ok? ==> r.value == PypiLine(name, RangeSpecs(d, ds))
  {
    var sorted := SortByText(ds);
    var specs := [];
    for i := 0 to |sorted|
      invariant Complementable(d, sorted[..i]) && specs == Complements(d, sorted[..i])
    {
      var c := Complement(d, sorted[i].text);
      assert sorted[..i + 1] == sorted[..i] + [sorted[i]];
      if c.None? { return Err(NotComplementable); }
      specs := specs + [c.value];
    }
    assert sorted[..|sorted|] == sorted;
    if !d.a.valid(JoinWith(SpecTexts(specs), ',')) { return Err(CombinedInvalid); }
    var empty := ComplementSetIsEmpty(specs);
    if empty { return Err(EmptyAllowSet); }
    var ok := ValidatePypiLine(d, LineText(PypiLine(name, specs)));
    if !ok { return Err(LineInvalid); }
    return Ok(PypiLine(name, specs));
  }

  ghost predicate RangesOkAt(d: Dialect, names: seq<string>, ranges: map<string, seq<RangeDeny>>)
    requires forall i | 0 <= i < |names| :: names[i] in ranges
  {
    forall i | 0 <= i < |names| :: RangeLineOk(d, names[i], ranges[names[i]])
  }

  method EmitPypiRanges(d: Dialect, ranges: map<string, seq<RangeDeny>>, denyAll: bool)
    returns (r: Result<seq<PypiLine>, PolicyError>)
    ensures denyAll ==> r == Ok([])
    ensures !denyAll ==> (r.Ok? <==> RangeLinesOk(d, ranges))
    ensures !denyAll && r.Ok? ==> r.value == RangeLines(d, SortedKeys(ranges), ranges)
  {
    if denyAll { return Ok([]); }
    var names := SortedKeys(ranges);
    assert forall i | 0 <= i < |names| :: names[i] in names;
    r := EmitEachRange(d, names, ranges);
    if RangesOkAt(d, names, ranges) {
      forall n | n in ranges ensures RangeLineOk(d, n, ranges[n]) {
        var j :| 0 <= j < |names| && names[j] == n;
      }
    }
  }

  method EmitEachRange(d: Dialect, names: seq<string>, ranges: map<string, seq<RangeDeny>>)
    returns (r: Result<seq<PypiLine>, PolicyError>)
    requires forall i | 0 <= i < |names| :: names[i] in ranges
    ensures r.Ok? <==> RangesOkAt(d, names, ranges)
    ensures r.Ok? ==> r.value == RangeLines(d, names, ranges)
  {
    var out := [];
    for i := 0 to |names|
      invariant |out| == i && forall j | 0 <= j < i :: IsRangeLine(d, out[j], names[j], ranges[names[j]])
    {
      var line := EmitPypiRange(d, names[i], ranges[names[i]]);
      if line.Err? {
        assert !RangeLineOk(d, names[i], ranges[names[i]]);
        return Err(line.error);
      }
      assert IsRangeLine(d, line.value, names[i], ranges[names[i]]);
      out := out + [line.value];
    }
    AreRangeLines(d, out, names, ranges);
    return Ok(out);
  }

  ghost predicate IsRangeLine(d: Dialect, line: PypiLine, name: string, ds: seq<RangeDeny>) {
    RangeLineOk(d, name, ds) && line == PypiLine(name, RangeSpecs(d, ds))
  }

  lemma AreRangeLines(d: Dialect, out: seq<PypiLine>, names: seq<string>, ranges: map<string, seq<RangeDeny>>)
    requires forall i | 0 <= i < |names| :: names[i] in ranges
    requires |out| == |names| && forall j | 0 <= j < |names| :: IsRangeLine(d, out[j], names[j], ranges[names[j]])
    ensures RangesOkAt(d, names, ranges) && out == RangeLines(d, names, ranges)
  {
    assert forall j | 0 <= j < |names| ::
      RangeLineOk(d, names[j], ranges[names[j]]) && out[j] == PypiLine(names[j], RangeSpecs(d, ranges[names[j]]));
  }

  method CheckLines(d: Dialect, lines: seq<PypiLine>) returns (ok: bool)
    ensures ok <==> LinesValid(d, lines)
  {
    for i := 0 to |lines|
      invariant forall j | 0 <= j < i :: LineValid(d, LineText(lines[j]))
    {
      var valid := ValidatePypiLine(d, LineText(lines[i]));
      if !valid { return false; }
    }
    return true;
  }

  ghost predicate Emittable(d: Dialect, b: Buckets, denyAll: bool) {
    Plannable(b, denyAll) && PlanOk(d, PlanOf(b, denyAll), denyAll)
  }

  method EmitPypi(d: Dialect, b: Buckets, dflt: Action) returns (r: Result<string, PolicyError>)
    requires forall n | n in b.exactAllows :: b.exactAllows[n] != {}
    ensures r.Ok? <==> Emittable(d, b, dflt.Deny?)
    ensures r.Ok? ==> r.value == TextOf(d, PlanOf(b, dflt.Deny?), dflt.Deny?)
  {
    var denyAll := dflt.Deny?;
    var plan := ResolvePypi(b, denyAll);
    if plan.Err? { return Err(plan.error); }
    var p := plan.value;
    var rangeLines := EmitPypiRanges(d, p.ranges, denyAll);
    if rangeLines.Err? { return Err(rangeLines.error); }
    var lines := rangeLines.value;
    if !denyAll {
      var ok := CheckLines(d, WholeLines(Sorted(p.whole)));
      if !ok { return Err(LineInvalid); }
      lines := lines + WholeLines(Sorted(p.whole));
    }
    var pins, bares := PinLines(SortedKeys(p.exact), p.exact), BareLines(Sorted(p.bare));
    var pinsOk := CheckLines(d, pins);
    if !pinsOk { return Err(LineInvalid); }
    var baresOk := CheckLines(d, bares);
    if !baresOk { return Err(LineInvalid); }
    lines := lines + (pins + bares);
    assert lines == LinesOf(d, p, denyAll);
    var texts := LineTexts(lines) + if denyAll then ["*"] else [];
    if texts == [] { return Ok(""); }
    JoinTerminated(texts);
    return Ok(JoinLines(texts) + "\n");
  }
}
