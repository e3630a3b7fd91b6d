/** The bounded verdict cache with two lifetimes, and its file. */
module VerdictCache {
  import opened Base
  import opened OrderedMap
  import opened OsvQuery

  type Key = (string, string, string)

  datatype Entry = Entry(storedAt: int, verdict: Verdict)

  datatype Lifetimes = Lifetimes(positive: int, negative: int)

  predicate Expired(e: Entry, now: int, ttl: Lifetimes) {
    now - e.storedAt >= if e.verdict.blocked then ttl.positive else ttl.negative
  }

  function Live(data: map<Key, Entry>, now: int, ttl: Lifetimes): map<Key, Entry> {
    map k | k in data && !Expired(data[k], now, ttl) :: data[k]
  }

  /** What a lookup answers. */
  function Lookup(data: map<Key, Entry>, key: Key, now: int, ttl: Lifetimes): Option<Verdict> {
    if key in data && !Expired(data[key], now, ttl) then Some(data[key].verdict) else None
  }

  /** Evicted strictly sooner: clean before malicious, then the older. */
  predicate Sooner(a: Entry, b: Entry) {
    (!a.verdict.blocked && b.verdict.blocked) || (a.verdict.blocked == b.verdict.blocked && a.storedAt < b.storedAt)
  }

  /******* Eviction *******/

  /** Drops what has expired. */
  method DropExpired(order: seq<Key>, data: map<Key, Entry>, now: int, ttl: Lifetimes)
    returns (kept: seq<Key>, left: map<Key, Entry>)
    requires Lists(order, data)
    ensures Lists(kept, left) && left == Live(data, now, ttl)
    ensures forall a, b :: Precedes(kept, a, b) ==> Precedes(order, a, b)
  {
    kept, left := Sweep(order, data, e => Expired(e, now, ttl));
    forall a, b | Precedes(kept, a, b) ensures Precedes(order, a, b) { RestrictPrecedes(order, left.Keys, a, b); }
  }

  /** The first key that no other is to be evicted sooner than. */
  method FirstLeast(order: seq<Key>, data: map<Key, Entry>) returns (i: nat)
    requires order != [] && Lists(order, data)
    ensures i < |order| && forall j | 0 <= j < |order| :: !Sooner(data[order[j]], data[order[i]])
    ensures forall j | 0 <= j < i :: Sooner(data[order[i]], data[order[j]])
  {
    i := 0;
    for n := 1 to |order|
      invariant i < n && forall j | 0 <= j < n :: !Sooner(data[order[j]], data[order[i]])
      invariant forall j | 0 <= j < i :: Sooner(data[order[i]], data[order[j]])
    {
      if Sooner(data[order[n]], data[order[i]]) { i := n; }
    }
  }

  /** Only the soonest to be evicted are gone, and no more of them than needed. */
  ghost predicate EvictedTo(before: map<Key, Entry>, after: map<Key, Entry>, size: nat) {
    && after.Keys <= before.Keys && (forall k | k in after :: after[k] == before[k])
    && |after| == (if |before| <= size then |before| else size)
    && (forall victim, k | victim in before && victim !in after && k in after :: !Sooner(after[k], before[victim]))
  }

  lemma EvictedOneMore(before: map<Key, Entry>, data: map<Key, Entry>, victim: Key)
    requires EvictedTo(before, data, |data|) && victim in data
    requires forall k | k in data :: !Sooner(data[k], data[victim])
    ensures EvictedTo(before, data - {victim}, |data| - 1) && |data - {victim}| == |data| - 1
  {
    var rest := data - {victim};
    assert data.Keys == rest.Keys + {victim};
    SubsetSize(data.Keys, before.Keys);
  }

  /** Of entries that rank alike, the ones inserted first are gone. */
  ghost predicate FirstInserted(order: seq<Key>, before: map<Key, Entry>, after: map<Key, Entry>) {
    forall victim, k | victim in before && victim !in after && k in after && k in before ::
      Sooner(before[victim], before[k]) || Precedes(order, victim, k)
  }

  /** What comes later in the order is evicted later, where it does not rank sooner. */
  lemma VictimComesFirst(order: seq<Key>, kept: seq<Key>, data: map<Key, Entry>, i: nat, k: Key)
    requires Lists(kept, data) && i < |kept| && k in data && k != kept[i]
    requires forall j | 0 <= j < i :: Sooner(data[kept[i]], data[kept[j]])
    requires forall a, b :: Precedes(kept, a, b) ==> Precedes(order, a, b)
    ensures Sooner(data[kept[i]], data[k]) || Precedes(order, kept[i], k)
  {
    var j: nat :| j < |kept| && kept[j] == k;
    if j > i { assert Precedes(kept, kept[i], k); }
  }

  lemma WithoutPrecedes(order: seq<Key>, kept: seq<Key>, i: nat)
    requires i < |kept| && forall a, b :: Precedes(kept, a, b) ==> Precedes(order, a, b)
    ensures forall a, b :: Precedes(kept[..i] + kept[i + 1..], a, b) ==> Precedes(order, a, b)
  {
    var rest := kept[..i] + kept[i + 1..];
    forall a, b | Precedes(rest, a, b) ensures Precedes(order, a, b) {
      var m: nat, n: nat :| m < n < |rest| && rest[m] == a && rest[n] == b;
      var m', n' := if m < i then m else m + 1, if n < i then n else n + 1;
      assert m' < n' < |kept| && kept[m'] == a && kept[n'] == b;
      assert Precedes(kept, a, b);
    }
  }

  /** Evicts, soonest first and of those that rank alike the first inserted, until the cache is within its bound. */
  method Evict(order: seq<Key>, data: map<Key, Entry>, size: nat) returns (kept: seq<Key>, left: map<Key, Entry>)
    requires Lists(order, data)
    ensures Lists(kept, left) && EvictedTo(data, left, size) && FirstInserted(order, data, left)
  {
    kept, left := order, data;
    while |left| > size
      invariant Lists(kept, left) && EvictedTo(data, left, |left|) && |left| >= if |data| <= size then |data| else size
      invariant FirstInserted(order, data, left) && forall a, b :: Precedes(kept, a, b) ==> Precedes(order, a, b)
      decreases |left|
    {
      ListsLength(kept, left);
      var i := FirstLeast(kept, left);
      forall k | k in left ensures !Sooner(left[k], left[kept[i]]) {
        assert k in kept;
      }
      forall k | k in left && k != kept[i] ensures Sooner(left[kept[i]], left[k]) || Precedes(order, kept[i], k) {
        VictimComesFirst(order, kept, left, i, k);
      }
      ListsWithout(kept, i, left);
      WithoutPrecedes(order, kept, i);
      EvictedOneMore(data, left, kept[i]);
      left := left - {kept[i]};
      kept := kept[..i] + kept[i + 1..];
    }
    SubsetSize(left.Keys, data.Keys);
  }

  /******* The file *******/

  /** One entry of the file; the fields of an entry of another shape are not looked at. */
  datatype Raw = Malformed | Raw(key: seq<string>, storedAt: int, blocked: bool, ids: seq<string>)

  predicate Loadable(raw: Raw, now: int, ttl: Lifetimes) {
    && raw.Raw? && |raw.key| == 3 && (forall i | 0 <= i < 3 :: raw.key[i] != "")
    && !Expired(EntryOf(raw), now, ttl)
  }

  function KeyOf(raw: Raw): Key
    requires raw.Raw? && |raw.key| == 3
  {
    (raw.key[0], raw.key[1], raw.key[2])
  }

  function EntryOf(raw: Raw): Entry
    requires raw.Raw? && |raw.key| == 3
  {
    Entry(raw.storedAt, Verdict(raw.key[2], raw.blocked, raw.ids))
  }

  function RawOf(k: Key, e: Entry): Raw { Raw([k.0, k.1, k.2], e.storedAt, e.verdict.blocked, e.verdict.ids) }

  function Snapshot(order: seq<Key>, data: map<Key, Entry>): seq<Raw>
    requires forall k | k in order :: k in data
  {
    seq(|order|, i requires 0 <= i < |order| => assert order[i] in order; RawOf(order[i], data[order[i]]))
  }

  function LoadedCount(raws: seq<Raw>, now: int, ttl: Lifetimes): nat {
    if raws == [] then 0
    else LoadedCount(raws[..|raws| - 1], now, ttl) + if Loadable(raws[|raws| - 1], now, ttl) then 1 else 0
  }

  /** The entries of a file prefix: the last entry of a key wins. */
  function Loaded(raws: seq<Raw>, now: int, ttl: Lifetimes): map<Key, Entry> {
    if raws == [] then map[]
    else
      var front, last := Loaded(raws[..|raws| - 1], now, ttl), raws[|raws| - 1];
      if Loadable(last, now, ttl) then front[KeyOf(last) := EntryOf(last)] else front
  }

  /** Where reading stops: at the entry that fills the cache, or at the end. */
  predicate StopsAt(raws: seq<Raw>, n: nat, now: int, ttl: Lifetimes, maxEntries: nat) {
    && n <= |raws|
    && (n < |raws| ==> n > 0 && Loadable(raws[n - 1], now, ttl) && LoadedCount(raws[..n], now, ttl) >= maxEntries)
    && (forall m | 0 < m < n && Loadable(raws[m - 1], now, ttl) :: LoadedCount(raws[..m], now, ttl) < maxEntries)
  }

  /******* The cache *******/

  lemma StoredLists(order: seq<Key>, data: map<Key, Entry>, key: Key, value: Entry)
    requires Lists(order, data)
    ensures Lists(if key in data then order else order + [key], data[key := value])
    ensures |data[key := value]| <= |data| + 1
  {
    assert data[key := value].Keys == data.Keys + {key};
  }

  /** An insertion keeps a known key's place. */
  function Inserted(order: seq<Key>, key: Key): seq<Key> { if key in order then order else order + [key] }

  /** Drops what has expired, then evicts. */
  method Shrink(order: seq<Key>, data: map<Key, Entry>, now: int, ttl: Lifetimes, size: nat)
    returns (kept: seq<Key>, left: map<Key, Entry>)
    requires Lists(order, data)
    ensures Lists(kept, left) && EvictedTo(Live(data, now, ttl), left, size)
    ensures FirstInserted(order, Live(data, now, ttl), left)
  {
    var live: map<Key, Entry>;
    kept, live := DropExpired(order, data, now, ttl);
    kept, left := Evict(kept, live, size);
  }

  class Cache {
    const ttl: Lifetimes
    const maxEntries: nat
    const persistMinInterval: int
    var data: map<Key, Entry>
    var order: seq<Key>
    var lastPersist: int

    /** A cache that loads one entry even when it is allowed none. */
    function Bound(): nat { if maxEntries == 0 then 1 else maxEntries }

    ghost predicate Valid()
      reads this
    {
      Lists(order, data) && |data| <= Bound()
    }

    constructor (ttl: Lifetimes, maxEntries: nat, persistMinInterval: int)
      ensures Valid() && data == map[] && order == [] && lastPersist == 0
      ensures this.ttl == ttl && this.maxEntries == maxEntries && this.persistMinInterval == persistMinInterval
    {
      this.ttl, this.maxEntries, this.persistMinInterval := ttl, maxEntries, persistMinInterval;
      data, order, lastPersist := map[], [], 0;
    }

    method Get(key: Key, now: int) returns (r: Option<Verdict>)
      ensures r == Lookup(data, key, now, ttl)
      ensures r.Some? <==>
        key in data && now - data[key].storedAt < if data[key].verdict.blocked then ttl.positive else ttl.negative
      ensures r.Some? ==> r.value == data[key].verdict
    {
      if key !in data { return None; }
      var entry := data[key];
      if Expired(entry, now, ttl) { return None; }
      return Some(entry.verdict);
    }

    method Set(key: Key, verdict: Verdict, now: int)
      requires Valid()
      modifies this`data, this`order
      ensures Valid() && |data| <= maxEntries && AfterSet(old(data), data, key, verdict, now, ttl, maxEntries)
      ensures FirstInserted(Inserted(old(order), key), Live(old(data)[key := Entry(now, verdict)], now, ttl), data)
      ensures |old(data)[key := Entry(now, verdict)]| <= maxEntries ==> data == old(data)[key := Entry(now, verdict)]
    {
      StoredLists(order, data, key, Entry(now, verdict));
      if key !in data { order := order + [key]; }
      data := data[key := Entry(now, verdict)];
      if |data| <= maxEntries { return; }
      order, data := Shrink(order, data, now, ttl, maxEntries);
    }

    /** The unexpired entries in order, at most once per interval; None when it is too early to write. */
    method Persist(now: int) returns (file: Option<seq<Raw>>)
      requires Valid()
      modifies this
      ensures Valid()
      ensures file.None? <==> now - old(lastPersist) < persistMinInterval
      ensures file.None? ==> data == old(data) && lastPersist == old(lastPersist)
      ensures file.Some? ==>
        lastPersist == now && data == Live(old(data), now, ttl) && file.value == Snapshot(order, data)
    {
      if now - lastPersist < persistMinInterval { return None; }
      lastPersist := now;
      order, data := DropExpired(order, data, now, ttl);
      LiveIsSmaller(old(data), now, ttl);
      return Some(Snapshot(order, data));
    }

    /** Reads a file into an empty cache. */
    method Load(raws: seq<Raw>, now: int)
      requires Valid() && data == map[]
      modifies this`data, this`order
      ensures Valid()
      ensures exists n: nat :: StopsAt(raws, n, now, ttl, maxEntries) && data == Loaded(raws[..n], now, ttl)
    {
      ghost var n: nat;
      order, data, n := ReadFile(raws, now, ttl, maxEntries);
    }
  }

  ghost predicate StillOpen(raws: seq<Raw>, n: nat, now: int, ttl: Lifetimes, maxEntries: nat)
    requires n <= |raws|
  {
    forall m | 0 < m <= n && Loadable(raws[m - 1], now, ttl) :: LoadedCount(raws[..m], now, ttl) < maxEntries
  }

  /** The state of reading after `i` entries. */
  ghost predicate ReadSoFar(raws: seq<Raw>, i: nat, order: seq<Key>, data: map<Key, Entry>, loaded: nat, now: int,
                            ttl: Lifetimes, maxEntries: nat)
    requires i <= |raws|
  {
    && Lists(order, data) && data == Loaded(raws[..i], now, ttl)
    && |data| <= loaded && loaded == LoadedCount(raws[..i], now, ttl)
    && StillOpen(raws, i, now, ttl, maxEntries) && (loaded == 0 || loaded < maxEntries)
  }

  lemma SkipNext(raws: seq<Raw>, i: nat, order: seq<Key>, data: map<Key, Entry>, loaded: nat, now: int,
                 ttl: Lifetimes, maxEntries: nat)
    requires i < |raws| && ReadSoFar(raws, i, order, data, loaded, now, ttl, maxEntries)
    requires !Loadable(raws[i], now, ttl)
    ensures ReadSoFar(raws, i + 1, order, data, loaded, now, ttl, maxEntries)
  {
    assert raws[..i + 1][..i] == raws[..i];
  }

  lemma TakeNext(raws: seq<Raw>, i: nat, order: seq<Key>, data: map<Key, Entry>, loaded: nat, now: int,
                 ttl: Lifetimes, maxEntries: nat)
    requires i < |raws| && ReadSoFar(raws, i, order, data, loaded, now, ttl, maxEntries)
    requires Loadable(raws[i], now, ttl)
    ensures var k := KeyOf(raws[i]);
      var more, all := data[k := EntryOf(raws[i])], if k in data then order else order + [k];
      && Lists(all, more) && |more| <= loaded + 1 && more == Loaded(raws[..i + 1], now, ttl)
      && (loaded + 1 < maxEntries ==> ReadSoFar(raws, i + 1, all, more, loaded + 1, now, ttl, maxEntries))
      && (loaded + 1 >= maxEntries ==> StopsAt(raws, i + 1, now, ttl, maxEntries))
  {
    StoredLists(order, data, KeyOf(raws[i]), EntryOf(raws[i]));
    assert raws[..i + 1][..i] == raws[..i];
  }

  /** Takes the loadable entries of a file, until they fill a cache of `maxEntries`. */
  method ReadFile(raws: seq<Raw>, now: int, ttl: Lifetimes, maxEntries: nat)
    returns (order: seq<Key>, data: map<Key, Entry>, ghost n: nat)
    ensures Lists(order, data) && |data| <= if maxEntries == 0 then 1 else maxEntries
    ensures StopsAt(raws, n, now, ttl, maxEntries) && data == Loaded(raws[..n], now, ttl)
  {
    order, data := [], map[];
    var loaded := 0;
    for i := 0 to |raws|
      invariant ReadSoFar(raws, i, order, data, loaded, now, ttl, maxEntries)
    {
      var raw := raws[i];
      if Loadable(raw, now, ttl) {
        TakeNext(raws, i, order, data, loaded, now, ttl, maxEntries);
        if KeyOf(raw) !in data { order := order + [KeyOf(raw)]; }
        data := data[KeyOf(raw) := EntryOf(raw)];
        loaded := loaded + 1;
        if loaded >= maxEntries { n := i + 1; return; }
      } else {
        SkipNext(raws, i, order, data, loaded, now, ttl, maxEntries);
      }
    }
    n := |raws|;
    assert raws[..|raws|] == raws;
  }

  lemma LiveIsSmaller(data: map<Key, Entry>, now: int, ttl: Lifetimes)
    ensures |Live(data, now, ttl)| <= |data|
  {
    SubsetSize(Live(data, now, ttl).Keys, data.Keys);
  }

  /******* What the cache promises *******/

  ghost predicate AfterSet(before: map<Key, Entry>, after: map<Key, Entry>, key: Key, verdict: Verdict, now: int,
                           ttl: Lifetimes, maxEntries: nat) {
    var full := before[key := Entry(now, verdict)];
    if |full| <= maxEntries then after == full else EvictedTo(Live(full, now, ttl), after, maxEntries)
  }

  /** An unexpired malicious verdict is evicted only when no clean one is left. */
  lemma MaliciousGoLast(before: map<Key, Entry>, after: map<Key, Entry>, key: Key, verdict: Verdict, now: int,
                        ttl: Lifetimes, maxEntries: nat, victim: Key)
    requires AfterSet(before, after, key, verdict, now, ttl, maxEntries)
    requires victim in before && victim != key && before[victim].verdict.blocked && !Expired(before[victim], now, ttl)
    requires victim !in after
    ensures |after| == maxEntries && forall k | k in after :: after[k].verdict.blocked && !Expired(after[k], now, ttl)
  {
    var full := before[key := Entry(now, verdict)];
    assert victim in Live(full, now, ttl);
    SubsetSize(after.Keys, Live(full, now, ttl).Keys);
  }

  /** Of verdicts that are both malicious or both clean, what is evicted was stored no later than what is kept. */
  lemma OldestGoFirst(before: map<Key, Entry>, after: map<Key, Entry>, key: Key, verdict: Verdict, now: int,
                      ttl: Lifetimes, maxEntries: nat, victim: Key, kept: Key)
    requires AfterSet(before, after, key, verdict, now, ttl, maxEntries)
    requires victim in before && victim != key && victim !in after && !Expired(before[victim], now, ttl)
    requires kept in after && after[kept].verdict.blocked == before[victim].verdict.blocked
    ensures before[victim].storedAt <= after[kept].storedAt
  {
    assert victim in Live(before[key := Entry(now, verdict)], now, ttl);
  }

  /** A cached verdict is about its key's version. */
  predicate WellKeyed(data: map<Key, Entry>) { forall k | k in data :: data[k].verdict.version == k.2 }

  /** A key that a file entry may have. */
  predicate Filled(k: Key) { k.0 != "" && k.1 != "" && k.2 != "" }

  lemma LoadedNext(raws: seq<Raw>, n: nat, now: int, ttl: Lifetimes)
    requires n < |raws|
    ensures LoadedCount(raws[..n + 1], now, ttl) <= LoadedCount(raws[..n], now, ttl) + 1
    ensures var front := Loaded(raws[..n], now, ttl);
      Loaded(raws[..n + 1], now, ttl)
      == if Loadable(raws[n], now, ttl) then front[KeyOf(raws[n]) := EntryOf(raws[n])] else front
  {
    assert raws[..n + 1][..n] == raws[..n];
  }

  /** What reading one entry of a snapshot adds. */
  lemma SnapshotEntry(order: seq<Key>, data: map<Key, Entry>, i: nat, now: int, ttl: Lifetimes)
    requires Lists(order, data) && WellKeyed(data) && i < |order|
    ensures order[i] in data
    ensures Loadable(Snapshot(order, data)[i], now, ttl) <==> Filled(order[i]) && !Expired(data[order[i]], now, ttl)
    ensures KeyOf(Snapshot(order, data)[i]) == order[i] && EntryOf(Snapshot(order, data)[i]) == data[order[i]]
  {
    assert order[i] in order;
    var raw, k := Snapshot(order, data)[i], order[i];
    assert raw == RawOf(k, data[k]) && raw.key[0] == k.0 && raw.key[1] == k.1 && raw.key[2] == k.2;
  }

  /** What reading the first `n` entries of a snapshot gives. */
  ghost predicate ReadsPrefix(order: seq<Key>, data: map<Key, Entry>, loaded: map<Key, Entry>, n: nat, now: int,
                              ttl: Lifetimes)
    requires Lists(order, data) && n <= |order|
  {
    && (forall k :: k in loaded <==> k in order[..n] && Filled(k) && !Expired(data[k], now, ttl))
    && (forall k | k in loaded :: loaded[k] == data[k])
  }

  lemma ReadsOneMore(order: seq<Key>, data: map<Key, Entry>, loaded: map<Key, Entry>, n: nat, now: int, ttl: Lifetimes)
    requires Lists(order, data) && n < |order| && order[n] in data && ReadsPrefix(order, data, loaded, n, now, ttl)
    ensures var k := order[n];
      var more := if Filled(k) && !Expired(data[k], now, ttl) then loaded[k := data[k]] else loaded;
      ReadsPrefix(order, data, more, n + 1, now, ttl)
  {
    assert order[..n + 1] == order[..n] + [order[n]];
  }

  lemma {:induction false} SnapshotPrefix(order: seq<Key>, data: map<Key, Entry>, n: nat, now: int, ttl: Lifetimes)
    requires Lists(order, data) && WellKeyed(data) && n <= |order|
    ensures LoadedCount(Snapshot(order, data)[..n], now, ttl) <= n
    ensures ReadsPrefix(order, data, Loaded(Snapshot(order, data)[..n], now, ttl), n, now, ttl)
  {
    var raws := Snapshot(order, data);
    if n > 0 {
      SnapshotPrefix(order, data, n - 1, now, ttl);
      SnapshotEntry(order, data, n - 1, now, ttl);
      ReadsOneMore(order, data, Loaded(raws[..n - 1], now, ttl), n - 1, now, ttl);
      LoadedNext(raws, n - 1, now, ttl);
    }
  }

  /** A file entry of three non-empty strings whose lifetime is not over. */
  predicate Usable(raw: Raw, k: Key, e: Entry, now: int, ttl: Lifetimes) {
    && raw == Raw([k.0, k.1, k.2], e.storedAt, e.verdict.blocked, e.verdict.ids) && Filled(k)
    && e.verdict.version == k.2 && now - e.storedAt < if e.verdict.blocked then ttl.positive else ttl.negative
  }

  /** The last usable entry of the key among the first `n` is this one. */
  ghost predicate LastUsable(raws: seq<Raw>, n: nat, i: nat, k: Key, e: Entry, now: int, ttl: Lifetimes)
    requires n <= |raws|
  {
    i < n && Usable(raws[i], k, e, now, ttl) && forall j, f | i < j < n :: !Usable(raws[j], k, f, now, ttl)
  }

  /** What is loaded of a key is its last usable entry among those that were read. */
  lemma {:induction false} LoadedMeaning(raws: seq<Raw>, n: nat, now: int, ttl: Lifetimes, k: Key, e: Entry)
    requires n <= |raws|
    ensures k in Loaded(raws[..n], now, ttl) && Loaded(raws[..n], now, ttl)[k] == e <==>
      exists i: nat :: LastUsable(raws, n, i, k, e, now, ttl)
  {
    if n > 0 {
      var m: nat := n - 1;
      LoadedMeaning(raws, m, now, ttl, k, e);
      LoadedNext(raws, m, now, ttl);
      LoadableIsUsable(raws[m], now, ttl);
      if Loadable(raws[m], now, ttl) && KeyOf(raws[m]) == k {
        assert Usable(raws[m], k, EntryOf(raws[m]), now, ttl);
        if EntryOf(raws[m]) == e { assert LastUsable(raws, n, m, k, e, now, ttl); }
      } else {
        if i: nat :| LastUsable(raws, n, i, k, e, now, ttl) { assert LastUsable(raws, m, i, k, e, now, ttl); }
        if i: nat :| LastUsable(raws, m, i, k, e, now, ttl) { assert LastUsable(raws, n, i, k, e, now, ttl); }
      }
    }
  }

  lemma LoadableIsUsable(raw: Raw, now: int, ttl: Lifetimes)
    ensures forall k, e ::
      Usable(raw, k, e, now, ttl) <==> Loadable(raw, now, ttl) && KeyOf(raw) == k && EntryOf(raw) == e
  {
    if Loadable(raw, now, ttl) { assert raw.key == [raw.key[0], raw.key[1], raw.key[2]]; }
  }

  /** A cache loaded from the snapshot of another answers as the other does, then and later, but for keys with an
      empty part, which it never answers. */
  lemma ReloadAnswersAlike(order: seq<Key>, data: map<Key, Entry>, n: nat, loadedAt: int, now: int, ttl: Lifetimes,
                           maxEntries: nat, key: Key)
    requires Lists(order, data) && WellKeyed(data) && |data| <= maxEntries
    requires StopsAt(Snapshot(order, data), n, loadedAt, ttl, maxEntries) && loadedAt <= now
    ensures Lookup(Loaded(Snapshot(order, data)[..n], loadedAt, ttl), key, now, ttl)
         == if Filled(key) then Lookup(data, key, now, ttl) else None
  {
    ListsLength(order, data);
    SnapshotPrefix(order, data, n, loadedAt, ttl);
    if key in data {
      assert key in order;
      assert order[..|order|] == order;
    }
  }

  lemma {:induction false} NothingLoads(raws: seq<Raw>, n: nat, now: int, ttl: Lifetimes)
    requires n <= |raws| && forall j | 0 <= j < n :: !Loadable(raws[j], now, ttl)
    ensures Loaded(raws[..n], now, ttl) == map[] && LoadedCount(raws[..n], now, ttl) == 0
  {
    if n > 0 {
      NothingLoads(raws, n - 1, now, ttl);
      assert raws[..n][..n - 1] == raws[..n - 1];
    }
  }

  /** A cache that may hold no entry loads the first one that can be loaded, and stops there. */
  lemma NoRoomLoadsOne(raws: seq<Raw>, i: nat, n: nat, now: int, ttl: Lifetimes)
    requires i < |raws| && Loadable(raws[i], now, ttl) && forall j | 0 <= j < i :: !Loadable(raws[j], now, ttl)
    requires StopsAt(raws, n, now, ttl, 0)
    ensures n == i + 1 && Loaded(raws[..n], now, ttl) == map[KeyOf(raws[i]) := EntryOf(raws[i])]
  {
    NothingLoads(raws, i, now, ttl);
    LoadedNext(raws, i, now, ttl);
  }

  /** Sweeping what has expired changes no answer, then and later. */
  lemma SweepChangesNoAnswer(data: map<Key, Entry>, sweptAt: int, now: int, ttl: Lifetimes, key: Key)
    requires sweptAt <= now
    ensures Lookup(Live(data, sweptAt, ttl), key, now, ttl) == Lookup(data, key, now, ttl)
  {
  }
}
