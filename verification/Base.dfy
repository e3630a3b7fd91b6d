/** Result types shared by every module. */
module Base {

  datatype Option<+T> = None | Some(value: T)

  /** A value, or the error that stands for the exception the source raises. */
  datatype Result<+T, +E> = Ok(value: T) | Err(error: E)

  predicate Distinct<T(==)>(xs: seq<T>) { forall i, j | 0 <= i < j < |xs| :: xs[i] != xs[j] }

  /** Each element once, in the order of first occurrence. */
  function Unique<T(==)>(xs: seq<T>): seq<T> {
    if xs == [] then []
    else
      var front, last := xs[..|xs| - 1], xs[|xs| - 1];
      Unique(front) + if last in front then [] else [last]
  }

  lemma {:induction false} UniqueFacts<T>(xs: seq<T>)
    ensures Distinct(Unique(xs))
    ensures forall v :: v in Unique(xs) <==> v in xs
  {
    if xs != [] {
      var front := xs[..|xs| - 1];
      UniqueFacts(front);
      assert xs == front + [xs[|xs| - 1]];
    }
  }

  /** Of two elements the one that occurs first comes first. */
  lemma {:induction false} UniqueInOrder<T>(xs: seq<T>, p: nat, q: nat) returns (i: nat, j: nat)
    requires p < q < |xs| && xs[p] !in xs[..p] && xs[q] !in xs[..q]
    ensures i < j < |Unique(xs)| && Unique(xs)[i] == xs[p] && Unique(xs)[j] == xs[q]
  {
    var front := xs[..|xs| - 1];
    if q < |xs| - 1 {
      assert front[..p] == xs[..p] && front[..q] == xs[..q];
      i, j := UniqueInOrder(front, p, q);
    } else {
      UniqueFacts(front);
      assert front[p] in front && front[p] in Unique(front);
      i :| 0 <= i < |Unique(front)| && Unique(front)[i] == xs[p];
      j := |Unique(front)|;
    }
  }
}
