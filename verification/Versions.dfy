/** Semantic versions and the order `_compare_semver` puts on them. */
module SemverOrder {
  import opened Base
  import opened Text

  /** A dot-separated prerelease identifier: a number, or any other text. */
  datatype Ident = Num(n: nat) | Alpha(s: string)

  datatype Semver = Semver(major: nat, minor: nat, patch: nat, pre: Option<seq<Ident>>)

  /******* The order by recursion (section 11 of Semantic Versioning 2.0.0) *******/

  function CompareIdent(l: Ident, r: Ident): int {
    if l == r then 0
    else match (l, r)
      case (Num(m), Num(n)) => if m < n then -1 else 1
      case (Num(_), Alpha(_)) => -1
      case (Alpha(_), Num(_)) => 1
      case (Alpha(s), Alpha(t)) => if Before(s, t) then -1 else 1
  }

  function CompareIdents(l: seq<Ident>, r: seq<Ident>): int {
    if l == [] && r == [] then 0
    else if l == [] then -1
    else if r == [] then 1
    else if CompareIdent(l[0], r[0]) != 0 then CompareIdent(l[0], r[0])
    else CompareIdents(l[1..], r[1..])
  }

  function ComparePre(l: Option<seq<Ident>>, r: Option<seq<Ident>>): int {
    match (l, r)
    case (None, None) => 0
    case (None, Some(_)) => 1
    case (Some(_), None) => -1
    case (Some(ls), Some(rs)) => CompareIdents(ls, rs)
  }

  function Compare(l: Semver, r: Semver): int {
    if l.major != r.major then (if l.major < r.major then -1 else 1)
    else if l.minor != r.minor then (if l.minor < r.minor then -1 else 1)
    else if l.patch != r.patch then (if l.patch < r.patch then -1 else 1)
    else ComparePre(l.pre, r.pre)
  }

  /******* The loop of the source refines the recursion *******/

  method ComparePrerelease(left: Option<seq<Ident>>, right: Option<seq<Ident>>) returns (c: int)
    ensures c == ComparePre(left, right)
  {
    if left.None? && right.None? { return 0; }
    if left.None? { return 1; }
    if right.None? { return -1; }
    var l, r := left.value, right.value;
    var i := 0;
    while i < |l| && i < |r|
      invariant 0 <= i <= |l| && i <= |r|
      invariant CompareIdents(l, r) == CompareIdents(l[i..], r[i..])
    {
      assert l[i..][1..] == l[i + 1..] && r[i..][1..] == r[i + 1..];
      if l[i] != r[i] {
        if l[i].Num? && r[i].Num? { return if l[i].n < r[i].n then -1 else 1; }
        if l[i].Num? { return -1; }
        if r[i].Num? { return 1; }
        return if Before(l[i].s, r[i].s) then -1 else 1;
      }
      i := i + 1;
    }
    if |l| == |r| { return 0; }
    return if |l| < |r| then -1 else 1;
  }

  /******* Total order *******/

  lemma IdentOrder(a: Ident, b: Ident, c: Ident)
    ensures CompareIdent(a, b) == -CompareIdent(b, a)
    ensures CompareIdent(a, b) == 0 <==> a == b
    ensures CompareIdent(a, b) < 0 && CompareIdent(b, c) < 0 ==> CompareIdent(a, c) < 0
  {
    if a.Alpha? && b.Alpha? {
      BeforeTotal(a.s, b.s);
      BeforeAsymmetric(a.s, b.s);
      if c.Alpha? && Before(a.s, b.s) && Before(b.s, c.s) {
        BeforeTransitive(a.s, b.s, c.s);
        BeforeAsymmetric(a.s, c.s);
      }
    }
  }

  lemma {:induction false} IdentsOrder(a: seq<Ident>, b: seq<Ident>, c: seq<Ident>)
    ensures CompareIdents(a, b) == -CompareIdents(b, a)
    ensures CompareIdents(a, b) == 0 <==> a == b
    ensures CompareIdents(a, b) < 0 && CompareIdents(b, c) < 0 ==> CompareIdents(a, c) < 0
  {
    if a != [] && b != [] {
      var ct := if c == [] then [] else c[1..];
      var c0 := if c == [] then a[0] else c[0];
      IdentOrder(a[0], b[0], c0);
      IdentOrder(b[0], c0, a[0]);
      IdentsOrder(a[1..], b[1..], ct);
      assert a == [a[0]] + a[1..] && b == [b[0]] + b[1..];
    }
  }

  /** `_compare_semver` is a total order whose zero is equality of parsed versions. */
  lemma CompareIsTotalOrder(a: Semver, b: Semver, c: Semver)
    ensures Compare(a, b) == -Compare(b, a)
    ensures Compare(a, b) == 0 <==> a == b
    ensures Compare(a, b) <= 0 && Compare(b, c) <= 0 ==> Compare(a, c) <= 0
    ensures Compare(a, b) < 0 && Compare(b, c) < 0 ==> Compare(a, c) < 0
  {
    PreOrder(a.pre, b.pre, c.pre);
    PreOrder(b.pre, c.pre, a.pre);
  }

  lemma PreOrder(a: Option<seq<Ident>>, b: Option<seq<Ident>>, c: Option<seq<Ident>>)
    ensures ComparePre(a, b) == -ComparePre(b, a)
    ensures ComparePre(a, b) == 0 <==> a == b
    ensures ComparePre(a, b) < 0 && ComparePre(b, c) < 0 ==> ComparePre(a, c) < 0
  {
    if a.Some? && b.Some? {
      IdentsOrder(a.value, b.value, if c.Some? then c.value else []);
    }
  }

  /** Which identifiers decide: the first that differ, else the longer list is the later version. */
  lemma {:induction false} FirstDifferenceDecides(l: seq<Ident>, r: seq<Ident>, k: nat)
    requires k <= |l| && k <= |r| && l[..k] == r[..k]
    requires k < |l| && k < |r| ==> l[k] != r[k]
    requires k == |l| || k == |r| || l[k] != r[k]
    ensures k < |l| && k < |r| ==> CompareIdents(l, r) == CompareIdent(l[k], r[k])
    ensures k == |l| < |r| ==> CompareIdents(l, r) == -1
    ensures k == |r| < |l| ==> CompareIdents(l, r) == 1
  {
    if k > 0 {
      assert l[0] == l[..k][0] == r[..k][0] == r[0];
      assert l[1..][..k - 1] == l[..k][1..] && r[1..][..k - 1] == r[..k][1..];
      FirstDifferenceDecides(l[1..], r[1..], k - 1);
    } else if k < |l| && k < |r| {
      IdentOrder(l[0], r[0], l[0]);
    }
  }

  /******* Which way the order goes *******/

  /** A smaller number, a number against a text, or a text smaller at the first difference. */
  ghost predicate LowerIdent(l: Ident, r: Ident) {
    match (l, r)
    case (Num(m), Num(n)) => m < n
    case (Num(_), Alpha(_)) => true
    case (Alpha(_), Num(_)) => false
    case (Alpha(s), Alpha(t)) => exists k: nat :: BeforeAt(s, t, k)
  }

  /** The lists agree up to `k`, and there the first one ends or has the lower identifier. */
  ghost predicate LowerAt(l: seq<Ident>, r: seq<Ident>, k: nat) {
    k <= |l| && k < |r| && l[..k] == r[..k] && (k == |l| || LowerIdent(l[k], r[k]))
  }

  ghost predicate LowerCore(l: Semver, r: Semver) {
    || l.major < r.major
    || (l.major == r.major && (l.minor < r.minor || (l.minor == r.minor && l.patch < r.patch)))
  }

  lemma IdentDirection(l: Ident, r: Ident)
    ensures CompareIdent(l, r) < 0 <==> LowerIdent(l, r)
  {
    if l.Alpha? && r.Alpha? {
      BeforeMeaning(l.s, r.s);
      BeforeAsymmetric(l.s, r.s);
    }
  }

  lemma {:induction false} IdentsDirection(l: seq<Ident>, r: seq<Ident>)
    ensures CompareIdents(l, r) < 0 <==> exists k: nat :: LowerAt(l, r, k)
  {
    if l != [] && r != [] && l[0] == r[0] {
      IdentsDirection(l[1..], r[1..]);
      IdentDirection(l[0], r[0]);
      if k: nat :| LowerAt(l[1..], r[1..], k) {
        assert l[..k + 1] == [l[0]] + l[1..][..k] && r[..k + 1] == [r[0]] + r[1..][..k];
        assert LowerAt(l, r, k + 1);
      }
      if k: nat :| LowerAt(l, r, k) {
        assert l[1..][..k - 1] == l[..k][1..] && r[1..][..k - 1] == r[..k][1..];
        assert LowerAt(l[1..], r[1..], k - 1);
      }
    } else {
      if l != [] && r != [] {
        IdentDirection(l[0], r[0]);
        IdentOrder(l[0], r[0], l[0]);
      }
      if CompareIdents(l, r) < 0 { assert LowerAt(l, r, 0); }
      AgreeAtStart(l, r);
    }
  }

  lemma AgreeAtStart(l: seq<Ident>, r: seq<Ident>)
    ensures forall k: nat | LowerAt(l, r, k) && k > 0 :: l != [] && r != [] && l[0] == r[0]
  {
    forall k: nat | LowerAt(l, r, k) && k > 0 ensures l != [] && r != [] && l[0] == r[0] {
      assert l[0] == l[..k][0] && r[0] == r[..k][0];
    }
  }

  /** Section 11 of Semantic Versioning 2.0.0: the core decides; then a prerelease is lower than its release; then the
      first identifier that differs, or the shorter list. */
  lemma PrecedenceMeaning(l: Semver, r: Semver)
    ensures Compare(l, r) < 0 <==>
      || LowerCore(l, r)
      || ((l.major, l.minor, l.patch) == (r.major, r.minor, r.patch) && l.pre.Some?
          && (r.pre.None? || exists k: nat :: LowerAt(l.pre.value, r.pre.value, k)))
  {
    if l.pre.Some? && r.pre.Some? { IdentsDirection(l.pre.value, r.pre.value); }
  }
}

/** Plain dotted releases (`1`, `1.2`, `1.2.0`): the PEP 440 order pads with zeros. */
module ReleaseOrder {
  import opened Base

  type Release = seq<nat>

  function First(r: Release): nat { if r == [] then 0 else r[0] }
  function Rest(r: Release): Release { if r == [] then [] else r[1..] }

  /** PEP 440 order: missing components count as zero. */
  function Compare(a: Release, b: Release): int
    decreases |a| + |b|
  {
    if a == [] && b == [] then 0
    else if First(a) < First(b) then -1
    else if First(a) > First(b) then 1
    else Compare(Rest(a), Rest(b))
  }

  lemma {:induction false} CompareAntisymmetric(a: Release, b: Release)
    ensures Compare(a, b) == -Compare(b, a)
    ensures a == b ==> Compare(a, b) == 0
    decreases |a| + |b|
  {
    if (a != [] || b != []) && First(a) == First(b) {
      CompareAntisymmetric(Rest(a), Rest(b));
    }
  }

  lemma {:induction false} CompareTransitive(a: Release, b: Release, c: Release)
    ensures Compare(a, b) <= 0 && Compare(b, c) <= 0 ==> Compare(a, c) <= 0
    ensures Compare(a, b) <= 0 && Compare(b, c) <= 0 && Compare(a, b) + Compare(b, c) < 0 ==> Compare(a, c) < 0
    decreases |a| + |b| + |c|
  {
    if a != [] || b != [] || c != [] {
      CompareTransitive(Rest(a), Rest(b), Rest(c));
    }
  }

  function Zeros(n: nat): Release { seq(n, _ => 0) }

  function Pad(r: Release, n: nat): (p: Release)
    ensures |r| <= n ==> |p| == n
  {
    if |r| < n then r + Zeros(n - |r|) else r
  }

  /** Python's `<` on tuples of ints: no padding, a proper prefix is smaller. */
  predicate TupleLess(a: Release, b: Release) {
    b != [] && (a == [] || a[0] < b[0] || (a[0] == b[0] && TupleLess(a[1..], b[1..])))
  }

  /** On tuples of one length the tuple order is the padded order. */
  lemma {:induction false} TupleOrderAtOneLength(a: Release, b: Release)
    requires |a| == |b|
    ensures TupleLess(a, b) <==> Compare(a, b) < 0
    ensures a == b <==> Compare(a, b) == 0
  {
    if a != [] {
      TupleOrderAtOneLength(a[1..], b[1..]);
      assert a == [a[0]] + a[1..] && b == [b[0]] + b[1..];
    }
  }

  /** On tuples of any lengths the tuple order refines the padded order, and it is total. */
  lemma {:induction false} TupleOrderRefines(a: Release, b: Release)
    ensures TupleLess(a, b) ==> Compare(a, b) <= 0
    ensures Compare(a, b) < 0 ==> TupleLess(a, b)
    ensures TupleLess(a, b) || a == b || TupleLess(b, a)
    ensures !(TupleLess(a, b) && TupleLess(b, a)) && !TupleLess(a, a)
  {
    if a != [] && b != [] && a[0] == b[0] {
      TupleOrderRefines(a[1..], b[1..]);
      assert a == [a[0]] + a[1..] && b == [b[0]] + b[1..];
    }
    if a == [] { EmptyIsLeast(b); }
    if b == [] { EmptyIsLeast(a); }
    NeverBelowItself(a);
  }

  lemma {:induction false} EmptyIsLeast(r: Release)
    ensures Compare([], r) <= 0 <= Compare(r, [])
  {
    if r != [] { EmptyIsLeast(r[1..]); }
  }

  lemma {:induction false} NeverBelowItself(r: Release)
    ensures !TupleLess(r, r)
  {
    if r != [] { NeverBelowItself(r[1..]); }
  }

  lemma {:induction false} TupleLessTransitive(a: Release, b: Release, c: Release)
    requires TupleLess(a, b) && TupleLess(b, c)
    ensures TupleLess(a, c)
  {
    if a != [] && a[0] == b[0] == c[0] { TupleLessTransitive(a[1..], b[1..], c[1..]); }
  }

  lemma {:induction false} PaddingIsNeutral(a: Release, n: nat, b: Release)
    ensures Compare(Pad(a, n), b) == Compare(a, b)
    ensures Compare(b, Pad(a, n)) == Compare(b, a)
    decreases |a| + |b| + n
  {
    if n > 0 && (a != [] || b != [] || Pad(a, n) != []) {
      PaddingIsNeutral(Rest(a), n - 1, Rest(b));
      assert Rest(Pad(a, n)) == Pad(Rest(a), n - 1);
    }
  }

  /** `exact_allows` on releases: equal tuples after both are padded to the longer length. */
  lemma PaddedTuplesEqual(a: Release, b: Release)
    ensures var w := if |a| < |b| then |b| else |a|;
            Pad(a, w) == Pad(b, w) <==> Compare(a, b) == 0
  {
    var w := if |a| < |b| then |b| else |a|;
    TupleOrderAtOneLength(Pad(a, w), Pad(b, w));
    PaddingIsNeutral(a, w, Pad(b, w));
    PaddingIsNeutral(b, w, a);
  }

  /** The order is dense: some release lies strictly between any two. */
  function Between(a: Release, b: Release): Release {
    Pad(a, |b|) + [1]
  }

  lemma {:induction false} BetweenIsBetween(a: Release, b: Release)
    requires Compare(a, b) < 0
    ensures Compare(a, Between(a, b)) < 0 && Compare(Between(a, b), b) < 0
  {
    var p := Pad(a, |b|);
    PaddingIsNeutral(a, |b|, b);
    AppendOne(p, b);
    CompareAntisymmetric(p, p);
    AppendOneAbove(p);
    PaddingIsNeutral(a, |b|, p + [1]);
  }

  lemma {:induction false} AppendOne(p: Release, b: Release)
    requires Compare(p, b) < 0 && |b| <= |p|
    ensures Compare(p + [1], b) < 0
  {
    if First(p) == First(b) {
      assert p != [];
      assert Rest(p + [1]) == Rest(p) + [1];
      AppendOne(Rest(p), Rest(b));
    }
  }

  lemma {:induction false} AppendOneAbove(p: Release)
    ensures Compare(p, p + [1]) < 0
  {
    if p != [] {
      assert Rest(p + [1]) == Rest(p) + [1];
      AppendOneAbove(Rest(p));
    }
  }
}
