/** Dictionaries that remember insertion order: a map, and the list of its keys. */
module OrderedMap {

  /** `order` lists the keys of `data`, each once. */
  ghost predicate Lists<K(!new), V>(order: seq<K>, data: map<K, V>) {
    && (forall k :: k in order <==> k in data)
    && (forall i, j | 0 <= i < j < |order| :: order[i] != order[j])
  }

  lemma {:induction false} ListsLength<K(!new), V>(order: seq<K>, data: map<K, V>)
    requires Lists(order, data)
    ensures |order| == |data|
    decreases |order|
  {
    if order == [] {
      assert data == map[];
    } else {
      var n := |order| - 1;
      ListsWithout(order, n, data);
      assert order[..n] + order[n + 1..] == order[..n];
      ListsLength(order[..n], data - {order[n]});
      assert data.Keys == (data - {order[n]}).Keys + {order[n]};
    }
  }

  lemma ListsWithout<K(!new), V>(order: seq<K>, i: nat, data: map<K, V>)
    requires Lists(order, data) && i < |order|
    ensures Lists(order[..i] + order[i + 1..], data - {order[i]})
  {
    var rest := order[..i] + order[i + 1..];
    forall k ensures k in rest <==> k in data - {order[i]} {
      if k in data - {order[i]} {
        var j :| 0 <= j < |order| && order[j] == k;
        assert rest[if j < i then j else j - 1] == k;
      }
    }
  }

  lemma ListsTail<K(!new), V>(order: seq<K>, data: map<K, V>)
    requires Lists(order, data) && order != []
    ensures Lists(order[1..], data - {order[0]})
  {
    ListsWithout(order, 0, data);
    assert order[..0] + order[0 + 1..] == order[1..];
  }

  lemma {:induction false} SubsetSize<K>(xs: set<K>, ys: set<K>)
    requires xs <= ys
    ensures |xs| <= |ys| && (|xs| == |ys| ==> xs == ys)
  {
    if xs != {} {
      var x :| x in xs;
      SubsetSize(xs - {x}, ys - {x});
    }
  }

  /** What is left after deleting the listed entries whose value goes. */
  function Surviving<K(==), V>(data: map<K, V>, keys: seq<K>, goes: V -> bool): map<K, V> {
    map k | k in data && !(k in keys && goes(data[k])) :: data[k]
  }

  lemma SurvivingNext<K(!new), V>(data: map<K, V>, keys: seq<K>, k: K, goes: V -> bool)
    requires k in data && k !in keys
    ensures var now := Surviving(data, keys, goes);
      k in now && now[k] == data[k] && Surviving(data, keys + [k], goes) == if goes(data[k]) then now - {k} else now
  {
    assert forall j :: j in keys + [k] <==> j in keys || j == k;
  }

  /** The keys of `order` that are in `keys`, in order. */
  function Restrict<K(==)>(order: seq<K>, keys: set<K>): seq<K> {
    if order == [] then []
    else
      var n := |order| - 1;
      Restrict(order[..n], keys) + if order[n] in keys then [order[n]] else []
  }

  lemma {:induction false} RestrictFacts<K(!new)>(order: seq<K>, keys: set<K>)
    ensures forall k :: k in Restrict(order, keys) <==> k in order && k in keys
    ensures (forall i, j | 0 <= i < j < |order| :: order[i] != order[j]) ==>
      forall i, j | 0 <= i < j < |Restrict(order, keys)| :: Restrict(order, keys)[i] != Restrict(order, keys)[j]
  {
    if order != [] {
      var n := |order| - 1;
      RestrictFacts(order[..n], keys);
      assert order == order[..n] + [order[n]];
    }
  }

  lemma {:induction false} RestrictPrefix<K(!new)>(order: seq<K>, keys: set<K>, more: set<K>)
    requires forall k | k in order :: k in keys <==> k in more
    ensures Restrict(order, keys) == Restrict(order, more)
  {
    if order != [] { RestrictPrefix(order[..|order| - 1], keys, more); }
  }

  ghost predicate Precedes<K(!new)>(order: seq<K>, a: K, b: K) {
    exists i: nat, j: nat :: i < j < |order| && order[i] == a && order[j] == b
  }

  lemma PrecedesInFront<K(!new)>(front: seq<K>, last: K, a: K, b: K)
    requires Precedes(front, a, b)
    ensures Precedes(front + [last], a, b)
  {
    var i: nat, j: nat :| i < j < |front| && front[i] == a && front[j] == b;
    assert (front + [last])[i] == a && (front + [last])[j] == b;
  }

  /** Leaving keys out keeps the order of the others. */
  lemma {:induction false} RestrictPrecedes<K(!new)>(order: seq<K>, keys: set<K>, a: K, b: K)
    requires Precedes(Restrict(order, keys), a, b)
    ensures Precedes(order, a, b)
  {
    var n := |order| - 1;
    var front, kept := Restrict(order[..n], keys), Restrict(order, keys);
    assert order == order[..n] + [order[n]];
    var i: nat, j: nat :| i < j < |kept| && kept[i] == a && kept[j] == b;
    if j < |front| {
      assert front[i] == a && front[j] == b;
      RestrictPrecedes(order[..n], keys, a, b);
      PrecedesInFront(order[..n], order[n], a, b);
    } else {
      RestrictFacts(order[..n], keys);
      assert front[i] == a && a in front;
      var m: nat :| m < n && order[m] == a;
      assert order[n] == b;
    }
  }

  /** Deletes the entries whose value `goes`, keeping the order of the rest. */
  method Sweep<K(==, !new), V>(order: seq<K>, data: map<K, V>, goes: V -> bool) returns (kept: seq<K>, left: map<K, V>)
    requires Lists(order, data)
    ensures Lists(kept, left) && kept == Restrict(order, left.Keys)
    ensures left == map k | k in data && !goes(data[k]) :: data[k]
  {
    kept, left := [], data;
    for i := 0 to |order|
      invariant left == Surviving(data, order[..i], goes)
      invariant kept == Restrict(order[..i], left.Keys)
    {
      var k := order[i];
      assert k in order && k !in order[..i];
      assert order[..i + 1] == order[..i] + [k] && order[..i + 1][..i] == order[..i];
      SurvivingNext(data, order[..i], k, goes);
      if goes(left[k]) {
        RestrictPrefix(order[..i], left.Keys, (left - {k}).Keys);
        left := left - {k};
      } else {
        kept := kept + [k];
      }
    }
    assert order[..|order|] == order;
    RestrictFacts(order, left.Keys);
  }
}
