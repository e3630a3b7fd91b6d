/** Single PEP 440 comparators, their complements, and the empty allow-set test. */
module Pep440 {
  import opened Base
  import opened Text
  import ReleaseOrder

  type Release = ReleaseOrder.Release

  /** The comparators a complement or a constraint line can hold. */
  datatype SpecOp = Lt | Le | Gt | Ge | Eq | Ne

  /** One comparator against a version text. */
  datatype Spec = Spec(op: SpecOp, version: string)

  /******* Reading a plain release *******/

  predicate IsDigit(c: char) { '0' <= c <= '9' }

  predicate AllDigits(s: string) { forall i | 0 <= i < |s| :: IsDigit(s[i]) }

  function DigitsValue(s: string): nat
    requires AllDigits(s)
  {
    if s == [] then 0 else DigitsValue(s[..|s| - 1]) * 10 + (s[|s| - 1] as int - '0' as int)
  }

  function Segments(text: string): (r: seq<string>)
    ensures r != []
  {
    SplitOn(text, '.')
  }

  predicate IsNumeral(s: string) { s != [] && AllDigits(s) }

  predicate AllNumerals(parts: seq<string>) { forall i | 0 <= i < |parts| :: IsNumeral(parts[i]) }

  /** The dotted numerals of a plain release, or None for any other version text. */
  function ReadRelease(text: string): Option<Release> {
    if AllNumerals(Segments(text)) then Some(Values(Segments(text))) else None
  }

  function Values(parts: seq<string>): Release
    requires AllNumerals(parts)
  {
    if parts == [] then [] else [DigitsValue(parts[0])] + Values(parts[1..])
  }

  const SEGMENT_MAX_DIGITS := 18

  /** `_release_tuple`: None also when a segment has more than 18 digits. */
  function ReleaseTuple(text: string): Option<Release> {
    if exists i | 0 <= i < |Segments(text)| :: |Segments(text)[i]| > SEGMENT_MAX_DIGITS then None else ReadRelease(text)
  }

  /** It reads exactly the releases without a segment of more than 18 digits. */
  lemma ReleaseTupleReads(text: string)
    ensures ReleaseTuple(text)
         == if forall i | 0 <= i < |Segments(text)| :: |Segments(text)[i]| <= 18 then ReadRelease(text) else None
  {
  }

  /******* Meaning of one comparator on plain releases *******/

  predicate Holds(op: SpecOp, x: Release, bound: Release) {
    var c := ReleaseOrder.Compare(x, bound);
    match op
    case Lt => c < 0
    case Le => c <= 0
    case Gt => c > 0
    case Ge => c >= 0
    case Eq => c == 0
    case Ne => c != 0
  }

  function ComplementOp(op: SpecOp): SpecOp
    requires op != Ne
  {
    match op
    case Lt => Ge
    case Le => Gt
    case Gt => Le
    case Ge => Lt
    case Eq => Ne
  }

  /** The inverted comparator admits exactly the releases the deny range does not match. */
  lemma ComplementIsExact(op: SpecOp, x: Release, bound: Release)
    requires op != Ne
    ensures Holds(ComplementOp(op), x, bound) <==> !Holds(op, x, bound)
  {
  }

  /******* complement_set_is_empty *******/

  datatype Bound = Bound(release: Release, inclusive: bool)

  predicate OneSided(s: Spec) { s.op in {Lt, Le, Gt, Ge} }

  predicate Decidable(s: Spec) { OneSided(s) && ReleaseTuple(s.version).Some? }

  function Rel(s: Spec): Release
    requires Decidable(s)
  {
    ReleaseTuple(s.version).value
  }

  predicate IsLower(s: Spec) { s.op in {Gt, Ge} }

  predicate Inclusive(s: Spec) { s.op in {Ge, Le} }

  predicate Tighter(lower: bool, cand: Release, current: Release) {
    if lower then ReleaseOrder.TupleLess(current, cand) else ReleaseOrder.TupleLess(cand, current)
  }

  /** The bound the loop holds for one direction: the first of the tightest by tuple order. */
  function Tightest(specs: seq<Spec>, lower: bool): Option<Bound>
    requires forall s | s in specs :: Decidable(s)
  {
    if specs == [] then None
    else
      var s := specs[|specs| - 1];
      var before := Tightest(specs[..|specs| - 1], lower);
      if IsLower(s) == lower && (before.None? || Tighter(lower, Rel(s), before.value.release))
      then Some(Bound(Rel(s), Inclusive(s)))
      else before
  }

  predicate Crossed(lo: Option<Bound>, up: Option<Bound>) {
    && lo.Some? && up.Some?
    && (|| ReleaseOrder.TupleLess(up.value.release, lo.value.release)
        || (lo.value.release == up.value.release && !(lo.value.inclusive && up.value.inclusive)))
  }

  method ComplementSetIsEmpty(specs: seq<Spec>) returns (empty: bool)
    ensures empty <==> (forall s | s in specs :: Decidable(s))
                       && Crossed(Tightest(specs, true), Tightest(specs, false))
  {
    var lower: Option<Bound> := None;
    var upper: Option<Bound> := None;
    for i := 0 to |specs|
      invariant forall s | s in specs[..i] :: Decidable(s)
      invariant lower == Tightest(specs[..i], true) && upper == Tightest(specs[..i], false)
    {
      var s := specs[i];
      assert s in specs;
      if !OneSided(s) { return false; }
      var rel := ReleaseTuple(s.version);
      if rel.None? { return false; }
      assert specs[..i + 1][..i] == specs[..i];
      if s.op == Gt || s.op == Ge {
        if lower.None? || ReleaseOrder.TupleLess(lower.value.release, rel.value) {
          lower := Some(Bound(rel.value, s.op == Ge));
        }
      } else if upper.None? || ReleaseOrder.TupleLess(rel.value, upper.value.release) {
        upper := Some(Bound(rel.value, s.op == Le));
      }
    }
    assert specs[..|specs|] == specs;
    if lower.None? || upper.None? { return false; }
    if ReleaseOrder.TupleLess(upper.value.release, lower.value.release) { return true; }
    return lower.value.release == upper.value.release && !(lower.value.inclusive && upper.value.inclusive);
  }

  /** Some plain release meets every comparator. */
  ghost predicate Satisfiable(specs: seq<Spec>)
    requires forall s | s in specs :: Decidable(s)
  {
    exists x :: Admitted(specs, x)
  }

  ghost predicate Admitted(specs: seq<Spec>, x: Release)
    requires forall s | s in specs :: Decidable(s)
  {
    forall s | s in specs :: Holds(s.op, x, Rel(s))
  }

  /** The comparator whose bound is kept for one direction: no bound of that direction is tighter
      by tuple order, and none before it is the same tuple. */
  ghost predicate Kept(specs: seq<Spec>, i: nat, lower: bool)
    requires forall s | s in specs :: Decidable(s)
  {
    && i < |specs| && IsLower(specs[i]) == lower
    && (forall s | s in specs && IsLower(s) == lower :: !Tighter(lower, Rel(s), Rel(specs[i])))
    && (forall j | 0 <= j < i && IsLower(specs[j]) == lower :: Rel(specs[j]) != Rel(specs[i]))
  }

  /** The bound is that of a kept comparator. */
  ghost predicate KeepsBound(specs: seq<Spec>, lower: bool, b: Bound)
    requires forall s | s in specs :: Decidable(s)
  {
    exists i: nat :: Kept(specs, i, lower) && b == Bound(Rel(specs[i]), Inclusive(specs[i]))
  }

  lemma {:induction false} TightestIsKept(specs: seq<Spec>, lower: bool)
    requires forall s | s in specs :: Decidable(s)
    ensures Tightest(specs, lower).None? <==> forall s | s in specs :: IsLower(s) != lower
    ensures Tightest(specs, lower).Some? ==> KeepsBound(specs, lower, Tightest(specs, lower).value)
  {
    if specs != [] {
      var front, s := specs[..|specs| - 1], specs[|specs| - 1];
      assert forall t :: t in specs <==> t in front || t == s;
      TightestIsKept(front, lower);
      if IsLower(s) == lower && Tightest(front, lower).None? {
        OnlyOneIsKept(specs, lower);
      } else if Tightest(front, lower).Some? {
        BoundNext(specs, lower, Tightest(front, lower).value);
      }
    }
  }

  lemma BoundNext(specs: seq<Spec>, lower: bool, before: Bound)
    requires specs != [] && forall s | s in specs :: Decidable(s)
    requires forall s | s in specs[..|specs| - 1] :: Decidable(s)
    requires KeepsBound(specs[..|specs| - 1], lower, before)
    ensures var s := specs[|specs| - 1];
      KeepsBound(specs, lower,
                 if IsLower(s) == lower && Tighter(lower, Rel(s), before.release)
                 then Bound(Rel(s), Inclusive(s))
                 else before)
  {
    var front, s := specs[..|specs| - 1], specs[|specs| - 1];
    var i: nat :| Kept(front, i, lower) && before == Bound(Rel(front[i]), Inclusive(front[i]));
    assert front[i] == specs[i];
    if IsLower(s) == lower && Tighter(lower, Rel(s), before.release) {
      TakesOver(specs, i, lower);
    } else {
      StaysKept(specs, i, lower);
    }
  }

  lemma OnlyOneIsKept(specs: seq<Spec>, lower: bool)
    requires specs != [] && forall s | s in specs :: Decidable(s)
    requires IsLower(specs[|specs| - 1]) == lower && forall s | s in specs[..|specs| - 1] :: IsLower(s) != lower
    ensures Kept(specs, |specs| - 1, lower)
  {
    var n := |specs| - 1;
    assert forall t :: t in specs <==> t in specs[..n] || t == specs[n];
    assert forall j | 0 <= j < n :: specs[j] in specs[..n];
    ReleaseOrder.NeverBelowItself(Rel(specs[n]));
  }

  /** A tighter last comparator takes over. */
  lemma TakesOver(specs: seq<Spec>, i: nat, lower: bool)
    requires specs != [] && forall s | s in specs :: Decidable(s)
    requires forall s | s in specs[..|specs| - 1] :: Decidable(s)
    requires Kept(specs[..|specs| - 1], i, lower) && IsLower(specs[|specs| - 1]) == lower
    requires Tighter(lower, Rel(specs[|specs| - 1]), Rel(specs[i]))
    ensures Kept(specs, |specs| - 1, lower)
  {
    var n := |specs| - 1;
    var front, last := specs[..n], specs[n];
    assert front[i] == specs[i];
    forall s | s in front && IsLower(s) == lower
      ensures !Tighter(lower, Rel(s), Rel(last)) && Rel(s) != Rel(last)
    {
      TighterThanTightest(lower, Rel(s), Rel(last), Rel(specs[i]));
    }
    ReleaseOrder.NeverBelowItself(Rel(last));
    assert forall t | t in specs :: t in front || t == last;
    assert forall j | 0 <= j < n :: specs[j] in front;
  }

  /** Any other last comparator leaves the kept one. */
  lemma StaysKept(specs: seq<Spec>, i: nat, lower: bool)
    requires specs != [] && forall s | s in specs :: Decidable(s)
    requires forall s | s in specs[..|specs| - 1] :: Decidable(s)
    requires Kept(specs[..|specs| - 1], i, lower)
    requires IsLower(specs[|specs| - 1]) == lower ==> !Tighter(lower, Rel(specs[|specs| - 1]), Rel(specs[i]))
    ensures Kept(specs, i, lower)
  {
    var front, last := specs[..|specs| - 1], specs[|specs| - 1];
    assert forall t | t in specs :: t in front || t == last;
    assert front[i] == specs[i] && forall j | 0 <= j < i :: front[j] == specs[j];
  }

  lemma TighterThanTightest(lower: bool, other: Release, next: Release, kept: Release)
    requires Tighter(lower, next, kept) && !Tighter(lower, other, kept)
    ensures !Tighter(lower, other, next) && other != next
  {
    if Tighter(lower, other, next) {
      if lower { ReleaseOrder.TupleLessTransitive(kept, next, other); }
      else { ReleaseOrder.TupleLessTransitive(other, next, kept); }
    }
  }

  /** The kept bound is the tightest one in padded order too: tuple order only refines it. */
  lemma KeptIsTightest(specs: seq<Spec>, i: nat, lower: bool)
    requires forall s | s in specs :: Decidable(s)
    requires Kept(specs, i, lower)
    ensures forall s | s in specs && IsLower(s) == lower ::
      if lower then ReleaseOrder.Compare(Rel(s), Rel(specs[i])) <= 0
      else ReleaseOrder.Compare(Rel(s), Rel(specs[i])) >= 0
  {
    forall s | s in specs && IsLower(s) == lower
      ensures if lower then ReleaseOrder.Compare(Rel(s), Rel(specs[i])) <= 0
              else ReleaseOrder.Compare(Rel(s), Rel(specs[i])) >= 0
    {
      ReleaseOrder.TupleOrderRefines(Rel(specs[i]), Rel(s));
      ReleaseOrder.TupleOrderRefines(Rel(s), Rel(specs[i]));
      ReleaseOrder.CompareAntisymmetric(Rel(s), Rel(specs[i]));
    }
  }

  /** One direction keeps one comparator. */
  lemma KeptIsUnique(specs: seq<Spec>, i: nat, j: nat, lower: bool)
    requires forall s | s in specs :: Decidable(s)
    requires Kept(specs, i, lower) && Kept(specs, j, lower)
    ensures i == j
  {
    assert specs[i] in specs && specs[j] in specs;
    ReleaseOrder.TupleOrderRefines(Rel(specs[i]), Rel(specs[j]));
  }

  /** A strict comparator bounds at this release. */
  ghost predicate StrictAt(specs: seq<Spec>, x: Release)
    requires forall s | s in specs :: Decidable(s)
  {
    exists s | s in specs :: !Inclusive(s) && ReleaseOrder.Compare(Rel(s), x) == 0
  }

  /** The kept bounds are one release once padded, and their tuples hide that:
      the upper tuple is the smaller although no comparator at that release is strict,
      or it is not the smaller, the kept bounds look inclusive, and some comparator there is strict. */
  ghost predicate MisreadAt(specs: seq<Spec>, i: nat, j: nat)
    requires forall s | s in specs :: Decidable(s)
  {
    && Kept(specs, i, true) && Kept(specs, j, false)
    && var lo, up := specs[i], specs[j];
       && ReleaseOrder.Compare(Rel(lo), Rel(up)) == 0
       && if ReleaseOrder.TupleLess(Rel(up), Rel(lo)) then !StrictAt(specs, Rel(lo))
          else StrictAt(specs, Rel(lo)) && (Rel(lo) == Rel(up) ==> Inclusive(lo) && Inclusive(up))
  }

  ghost predicate Misread(specs: seq<Spec>)
    requires forall s | s in specs :: Decidable(s)
  {
    exists i: nat, j: nat :: MisreadAt(specs, i, j)
  }

  lemma BeyondLower(s: Spec, lo: Release, x: Release)
    requires Decidable(s) && IsLower(s)
    requires ReleaseOrder.Compare(Rel(s), lo) <= 0 && ReleaseOrder.Compare(lo, x) <= 0
    requires Inclusive(s) || ReleaseOrder.Compare(Rel(s), lo) < 0 || ReleaseOrder.Compare(lo, x) < 0
    ensures Holds(s.op, x, Rel(s))
  {
    ReleaseOrder.CompareTransitive(Rel(s), lo, x);
    ReleaseOrder.CompareAntisymmetric(x, Rel(s));
  }

  lemma BelowUpper(s: Spec, up: Release, x: Release)
    requires Decidable(s) && !IsLower(s)
    requires ReleaseOrder.Compare(Rel(s), up) >= 0 && ReleaseOrder.Compare(x, up) <= 0
    requires Inclusive(s) || ReleaseOrder.Compare(Rel(s), up) > 0 || ReleaseOrder.Compare(x, up) < 0
    ensures Holds(s.op, x, Rel(s))
  {
    ReleaseOrder.CompareAntisymmetric(Rel(s), up);
    ReleaseOrder.CompareTransitive(x, up, Rel(s));
  }

  /** Bounds that leave room between them admit a release. */
  lemma RoomAdmits(specs: seq<Spec>, i: nat, j: nat)
    requires forall s | s in specs :: Decidable(s)
    requires Kept(specs, i, true) && Kept(specs, j, false)
    requires ReleaseOrder.Compare(Rel(specs[i]), Rel(specs[j])) < 0
    ensures Satisfiable(specs)
  {
    var lo, up := Rel(specs[i]), Rel(specs[j]);
    var x := ReleaseOrder.Between(lo, up);
    ReleaseOrder.BetweenIsBetween(lo, up);
    KeptIsTightest(specs, i, true);
    KeptIsTightest(specs, j, false);
    forall s | s in specs ensures Holds(s.op, x, Rel(s)) {
      if IsLower(s) { BeyondLower(s, lo, x); } else { BelowUpper(s, up, x); }
    }
    assert Admitted(specs, x);
  }

  /** Bounds that pass each other admit nothing. */
  lemma PassedAdmitsNothing(specs: seq<Spec>, i: nat, j: nat)
    requires forall s | s in specs :: Decidable(s)
    requires Kept(specs, i, true) && Kept(specs, j, false)
    requires ReleaseOrder.Compare(Rel(specs[i]), Rel(specs[j])) > 0
    ensures !Satisfiable(specs)
  {
    forall x | Admitted(specs, x) ensures false {
      assert specs[i] in specs && specs[j] in specs;
      ReleaseOrder.CompareAntisymmetric(Rel(specs[i]), x);
      ReleaseOrder.CompareTransitive(Rel(specs[i]), x, Rel(specs[j]));
    }
  }

  /** Bounds that meet at one release admit just that release, unless a comparator there is strict. */
  lemma MeetingAdmitsUnlessStrict(specs: seq<Spec>, i: nat, j: nat)
    requires forall s | s in specs :: Decidable(s)
    requires Kept(specs, i, true) && Kept(specs, j, false)
    requires ReleaseOrder.Compare(Rel(specs[i]), Rel(specs[j])) == 0
    ensures Satisfiable(specs) <==> !StrictAt(specs, Rel(specs[i]))
  {
    var lo, up := Rel(specs[i]), Rel(specs[j]);
    KeptIsTightest(specs, i, true);
    KeptIsTightest(specs, j, false);
    ReleaseOrder.CompareAntisymmetric(lo, lo);
    ReleaseOrder.CompareAntisymmetric(lo, up);
    if s :| s in specs && !Inclusive(s) && ReleaseOrder.Compare(Rel(s), lo) == 0 {
      forall x | Admitted(specs, x) ensures false {
        assert specs[i] in specs && specs[j] in specs;
        OnlyThePoint(specs[i], specs[j], s, x);
      }
    } else {
      forall s | s in specs ensures Holds(s.op, lo, Rel(s)) {
        if IsLower(s) {
          BeyondLower(s, lo, lo);
        } else {
          UpperAtPoint(s, lo, up);
          BelowUpper(s, up, lo);
        }
      }
      assert Admitted(specs, lo);
    }
  }

  lemma UpperAtPoint(s: Spec, lo: Release, up: Release)
    requires Decidable(s) && ReleaseOrder.Compare(lo, up) == 0 && ReleaseOrder.Compare(Rel(s), up) >= 0
    ensures ReleaseOrder.Compare(Rel(s), up) > 0 || ReleaseOrder.Compare(Rel(s), lo) == 0
  {
    ReleaseOrder.CompareAntisymmetric(lo, up);
    ReleaseOrder.CompareAntisymmetric(Rel(s), up);
    ReleaseOrder.CompareAntisymmetric(Rel(s), lo);
    ReleaseOrder.CompareTransitive(Rel(s), up, lo);
    ReleaseOrder.CompareTransitive(lo, up, Rel(s));
  }

  /** Between meeting bounds there is only their release, and a strict comparator there excludes it. */
  lemma OnlyThePoint(lo: Spec, up: Spec, s: Spec, x: Release)
    requires Decidable(lo) && Decidable(up) && Decidable(s) && IsLower(lo) && !IsLower(up) && !Inclusive(s)
    requires ReleaseOrder.Compare(Rel(lo), Rel(up)) == 0 && ReleaseOrder.Compare(Rel(s), Rel(lo)) == 0
    ensures !(Holds(lo.op, x, Rel(lo)) && Holds(up.op, x, Rel(up)) && Holds(s.op, x, Rel(s)))
  {
    ReleaseOrder.CompareAntisymmetric(Rel(lo), x);
    ReleaseOrder.CompareAntisymmetric(Rel(lo), Rel(up));
    ReleaseOrder.CompareAntisymmetric(Rel(s), Rel(lo));
    ReleaseOrder.CompareAntisymmetric(Rel(s), x);
    ReleaseOrder.CompareTransitive(x, Rel(up), Rel(lo));
    ReleaseOrder.CompareTransitive(x, Rel(lo), Rel(s));
    ReleaseOrder.CompareTransitive(Rel(s), Rel(lo), x);
  }

  /** Both directions are bounded and no release is admitted. */
  ghost predicate BoundedAndEmpty(specs: seq<Spec>)
    requires forall s | s in specs :: Decidable(s)
  {
    (exists s | s in specs :: IsLower(s)) && (exists s | s in specs :: !IsLower(s)) && !Satisfiable(specs)
  }

  /** On every list of one-sided comparators the test answers "bounded in both directions and nothing admitted",
      if and only if the tuples of the kept bounds do not hide how they meet. */
  lemma EmptyTestIsExact(specs: seq<Spec>)
    requires forall s | s in specs :: Decidable(s)
    ensures (Crossed(Tightest(specs, true), Tightest(specs, false)) <==> BoundedAndEmpty(specs)) <==> !Misread(specs)
  {
    TightestIsKept(specs, true);
    TightestIsKept(specs, false);
    var lo, up := Tightest(specs, true), Tightest(specs, false);
    if lo.Some? && up.Some? {
      var i: nat :| Kept(specs, i, true) && lo.value == Bound(Rel(specs[i]), Inclusive(specs[i]));
      var j: nat :| Kept(specs, j, false) && up.value == Bound(Rel(specs[j]), Inclusive(specs[j]));
      assert specs[i] in specs && specs[j] in specs;
      ExactForKept(specs, i, j);
      forall k: nat, l: nat | MisreadAt(specs, k, l) ensures k == i && l == j {
        KeptIsUnique(specs, k, i, true);
        KeptIsUnique(specs, l, j, false);
      }
    } else {
      forall k: nat, l: nat ensures !MisreadAt(specs, k, l) {
        if MisreadAt(specs, k, l) { MisreadIsBounded(specs, k, l); }
      }
    }
  }

  lemma MisreadIsBounded(specs: seq<Spec>, i: nat, j: nat)
    requires forall s | s in specs :: Decidable(s)
    requires MisreadAt(specs, i, j)
    ensures Tightest(specs, true).Some? && Tightest(specs, false).Some?
  {
    TightestIsKept(specs, true);
    TightestIsKept(specs, false);
    assert specs[i] in specs && specs[j] in specs;
  }

  lemma ExactForKept(specs: seq<Spec>, i: nat, j: nat)
    requires forall s | s in specs :: Decidable(s)
    requires Kept(specs, i, true) && Kept(specs, j, false)
    ensures var lo, up := Bound(Rel(specs[i]), Inclusive(specs[i])), Bound(Rel(specs[j]), Inclusive(specs[j]));
      (Crossed(Some(lo), Some(up)) <==> !Satisfiable(specs)) <==> !MisreadAt(specs, i, j)
  {
    var lo, up := Rel(specs[i]), Rel(specs[j]);
    assert specs[i] in specs && specs[j] in specs;
    ReleaseOrder.TupleOrderRefines(lo, up);
    ReleaseOrder.TupleOrderRefines(up, lo);
    ReleaseOrder.CompareAntisymmetric(lo, up);
    ReleaseOrder.CompareAntisymmetric(lo, lo);
    if ReleaseOrder.Compare(lo, up) < 0 {
      RoomAdmits(specs, i, j);
    } else if ReleaseOrder.Compare(lo, up) > 0 {
      PassedAdmitsNothing(specs, i, j);
    } else {
      MeetingAdmitsUnlessStrict(specs, i, j);
      if lo == up { StrictBounds(specs, i, j); }
    }
  }

  /** A strict kept bound is a strict comparator at its release. */
  lemma StrictBounds(specs: seq<Spec>, i: nat, j: nat)
    requires forall s | s in specs :: Decidable(s)
    requires i < |specs| && j < |specs| && Rel(specs[i]) == Rel(specs[j])
    ensures !(Inclusive(specs[i]) && Inclusive(specs[j])) ==> StrictAt(specs, Rel(specs[i]))
  {
    ReleaseOrder.CompareAntisymmetric(Rel(specs[i]), Rel(specs[i]));
    assert specs[i] in specs && specs[j] in specs;
  }

  /** One way to err: a strict comparator at the meeting release is not seen, and an empty set passes. */
  lemma HiddenExclusiveAdmitsNothing(specs: seq<Spec>, i: nat, j: nat)
    requires forall s | s in specs :: Decidable(s)
    requires MisreadAt(specs, i, j) && !ReleaseOrder.TupleLess(Rel(specs[j]), Rel(specs[i]))
    ensures !Satisfiable(specs) && !Crossed(Tightest(specs, true), Tightest(specs, false))
  {
    MeetingAdmitsUnlessStrict(specs, i, j);
    EmptyTestIsExact(specs);
    assert specs[i] in specs && specs[j] in specs && MisreadAt(specs, i, j);
  }

  /** The other way: one release spelled as two tuples makes the bounds look crossed, and a non-empty set is refused. */
  lemma SplitReleaseIsAdmitted(specs: seq<Spec>, i: nat, j: nat)
    requires forall s | s in specs :: Decidable(s)
    requires MisreadAt(specs, i, j) && ReleaseOrder.TupleLess(Rel(specs[j]), Rel(specs[i]))
    ensures Satisfiable(specs) && Crossed(Tightest(specs, true), Tightest(specs, false))
  {
    MeetingAdmitsUnlessStrict(specs, i, j);
    EmptyTestIsExact(specs);
    assert specs[i] in specs && specs[j] in specs && MisreadAt(specs, i, j);
  }

  /** On bounds of one segment count only strict comparators behind inclusive kept bounds are misread. */
  lemma EqualLengthsHideOnlyStrict(specs: seq<Spec>, i: nat, j: nat)
    requires forall s | s in specs :: Decidable(s)
    requires forall s, t | s in specs && t in specs :: |Rel(s)| == |Rel(t)|
    requires MisreadAt(specs, i, j)
    ensures Rel(specs[i]) == Rel(specs[j]) && Inclusive(specs[i]) && Inclusive(specs[j])
    ensures StrictAt(specs, Rel(specs[i]))
  {
    assert specs[i] in specs && specs[j] in specs;
    ReleaseOrder.TupleOrderAtOneLength(Rel(specs[j]), Rel(specs[i]));
    ReleaseOrder.TupleOrderAtOneLength(Rel(specs[i]), Rel(specs[j]));
  }

  /** Without padding the test errs both ways: it calls `>=1.0,<=1` empty and `>=1,<1.0` not. */
  lemma UnpaddedTuplesErr()
    ensures var wide := [Spec(Ge, "1.0"), Spec(Le, "1")];
            && (forall s | s in wide :: Decidable(s))
            && Crossed(Tightest(wide, true), Tightest(wide, false)) && Admitted(wide, [1])
    ensures var none := [Spec(Ge, "1"), Spec(Lt, "1.0")];
            && (forall s | s in none :: Decidable(s))
            && !Crossed(Tightest(none, true), Tightest(none, false)) && !Satisfiable(none)
  {
    UnpaddedRejectsSome();
    UnpaddedAcceptsNone();
  }

  lemma UnpaddedRejectsSome()
    ensures var wide := [Spec(Ge, "1.0"), Spec(Le, "1")];
            && (forall s | s in wide :: Decidable(s))
            && Crossed(Tightest(wide, true), Tightest(wide, false)) && Admitted(wide, [1])
  {
    ReadOne();
    ReadOneZero();
    TightestOfTwo(Spec(Ge, "1.0"), Spec(Le, "1"));
    assert ReleaseOrder.Compare([1], [1, 0]) == 0 && ReleaseOrder.Compare([1], [1]) == 0;
  }

  lemma UnpaddedAcceptsNone()
    ensures var none := [Spec(Ge, "1"), Spec(Lt, "1.0")];
            && (forall s | s in none :: Decidable(s))
            && !Crossed(Tightest(none, true), Tightest(none, false)) && !Satisfiable(none)
  {
    ReadOne();
    ReadOneZero();
    TightestOfTwo(Spec(Ge, "1"), Spec(Lt, "1.0"));
    var none := [Spec(Ge, "1"), Spec(Lt, "1.0")];
    forall x | Admitted(none, x) ensures false {
      assert none[0] in none && none[1] in none;
      NoneBetween(x);
    }
  }

  lemma NoneBetween(x: Release)
    ensures !(Holds(Ge, x, [1]) && Holds(Lt, x, [1, 0]))
  {
    ReleaseOrder.CompareAntisymmetric([1], x);
    ReleaseOrder.CompareAntisymmetric([1, 0], x);
    ReleaseOrder.CompareTransitive([1, 0], [1], x);
    assert ReleaseOrder.Compare([1, 0], [1]) == 0;
  }

  lemma TightestOfTwo(lower: Spec, upper: Spec)
    requires Decidable(lower) && Decidable(upper) && IsLower(lower) && !IsLower(upper)
    ensures Tightest([lower, upper], true) == Some(Bound(Rel(lower), Inclusive(lower)))
    ensures Tightest([lower, upper], false) == Some(Bound(Rel(upper), Inclusive(upper)))
  {
    var two := [lower, upper];
    assert forall s :: s in two <==> s == lower || s == upper;
    assert two[..1] == [lower] && [lower][..0] == [];
    assert Tightest([lower], true) == Some(Bound(Rel(lower), Inclusive(lower)));
    assert Tightest([lower], false) == None;
  }

  lemma ReadOne()
    ensures ReleaseTuple("1") == Some([1])
  {
    ReadDigit("1");
  }

  lemma ReadOneZero()
    ensures ReleaseTuple("1.0") == Some([1, 0])
  {
    ReadDigit("1");
    ReadDigit("0");
    SplitFirst("1", "0", '.');
    assert "1" + ['.'] + "0" == "1.0";
    var parts := Segments("1.0");
    assert parts == ["1", "0"] && AllNumerals(parts);
    assert Values(parts) == [1] + Values(parts[1..]) && Values(["0"]) == [0] + Values(["0"][1..]);
    assert Values(parts) == [1, 0];
    assert forall i | 0 <= i < |parts| :: |parts[i]| <= 1;
  }

  lemma ReadDigit(s: string)
    requires |s| == 1 && IsDigit(s[0])
    ensures Segments(s) == [s] && IsNumeral(s) && DigitsValue(s) == s[0] as int - '0' as int
    ensures ReadRelease(s) == ReleaseTuple(s) == Some([s[0] as int - '0' as int])
  {
    SplitFirst(s, "", '.');
    assert Values([s]) == [DigitsValue(s)] + Values([s][1..]) == [DigitsValue(s)];
    assert DigitsValue(s) == DigitsValue(s[..0]) * 10 + (s[0] as int - '0' as int);
    assert AllNumerals(Segments(s)) && Values(Segments(s)) == [s[0] as int - '0' as int];
    assert forall i | 0 <= i < |Segments(s)| :: |Segments(s)[i]| <= 1;
  }
}
