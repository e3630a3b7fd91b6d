/** The filter plugin's verdict cache: bounded, in last-use order. */
module Lru {
  import opened Base
  import opened OrderedMap

  /** Package name and version; url and ecosystem are fixed. */
  type Key = (string, string)

  datatype CachedVerdict = CachedVerdict(ids: seq<string>, expiresAt: int)

  /** `used` says when each key was last read or written; `order` is in that order. */
  ghost predicate InUseOrder(order: seq<Key>, used: map<Key, nat>, ticks: nat) {
    && (forall k | k in order :: k in used && used[k] < ticks)
    && (forall i, j | 0 <= i < j < |order| :: used[order[i]] < used[order[j]])
  }

  lemma {:induction false} RestrictKeepsUse(order: seq<Key>, keys: set<Key>, used: map<Key, nat>, ticks: nat)
    requires InUseOrder(order, used, ticks)
    ensures InUseOrder(Restrict(order, keys), used, ticks)
  {
    if order != [] {
      var front := order[..|order| - 1];
      assert forall k | k in front :: k in order;
      RestrictKeepsUse(front, keys, used, ticks);
      RestrictFacts(front, keys);
      forall k | k in front ensures used[k] < used[order[|order| - 1]] {}
    }
  }

  function Fresh(data: map<Key, CachedVerdict>, now: int): map<Key, CachedVerdict> {
    map k | k in data && data[k].expiresAt > now :: data[k]
  }

  /** What is left after evicting the least recently used down to `size`. */
  ghost predicate EvictedTo(before: map<Key, CachedVerdict>, after: map<Key, CachedVerdict>, used: map<Key, nat>,
                            size: nat) {
    && after.Keys <= before.Keys <= used.Keys && (forall k | k in after :: after[k] == before[k])
    && |after| == (if |before| <= size then |before| else size)
    && (forall victim, k | victim in before && victim !in after && k in after :: used[victim] < used[k])
  }

  method Evict(order: seq<Key>, data: map<Key, CachedVerdict>, size: nat, ghost used: map<Key, nat>, ghost ticks: nat)
    returns (kept: seq<Key>, left: map<Key, CachedVerdict>)
    requires Lists(order, data) && InUseOrder(order, used, ticks)
    ensures Lists(kept, left) && InUseOrder(kept, used, ticks) && EvictedTo(data, left, used, size)
  {
    kept, left := order, data;
    NothingEvicted(order, data, used, ticks);
    while |left| > size
      invariant Lists(kept, left) && InUseOrder(kept, used, ticks)
      invariant EvictedTo(data, left, used, |left|) && |left| >= if |data| <= size then |data| else size
      decreases |left|
    {
      ListsLength(kept, left);
      FirstIsOldest(kept, left, used, ticks);
      OneMoreEvicted(data, left, kept[0], used);
      TailInUseOrder(kept, used, ticks);
      ListsTail(kept, left);
      kept, left := kept[1..], left - {kept[0]};
    }
    SubsetSize(left.Keys, data.Keys);
  }

  lemma NothingEvicted(order: seq<Key>, data: map<Key, CachedVerdict>, used: map<Key, nat>, ticks: nat)
    requires Lists(order, data) && InUseOrder(order, used, ticks)
    ensures EvictedTo(data, data, used, |data|)
  {
    assert forall k | k in data :: k in order;
  }

  /** The first key was used before all others. */
  lemma FirstIsOldest(order: seq<Key>, data: map<Key, CachedVerdict>, used: map<Key, nat>, ticks: nat)
    requires Lists(order, data) && order != [] && InUseOrder(order, used, ticks)
    ensures order[0] in data && forall k | k in data && k != order[0] :: k in used && used[order[0]] < used[k]
  {
    assert order[0] in order;
    forall k | k in data && k != order[0] ensures k in used && used[order[0]] < used[k] {
      assert k in order;
      var j :| 0 <= j < |order| && order[j] == k;
    }
  }

  lemma OneMoreEvicted(before: map<Key, CachedVerdict>, data: map<Key, CachedVerdict>, victim: Key, used: map<Key, nat>)
    requires EvictedTo(before, data, used, |data|) && victim in data
    requires forall k | k in data && k != victim :: used[victim] < used[k]
    ensures |data - {victim}| + 1 == |data| && EvictedTo(before, data - {victim}, used, |data - {victim}|)
  {
    var rest := data - {victim};
    assert data.Keys == rest.Keys + {victim};
    SubsetSize(data.Keys, before.Keys);
  }

  lemma TailInUseOrder(order: seq<Key>, used: map<Key, nat>, ticks: nat)
    requires order != [] && InUseOrder(order, used, ticks)
    ensures InUseOrder(order[1..], used, ticks)
  {
    var rest := order[1..];
    forall k | k in rest ensures k in used && used[k] < ticks { assert k in order; }
    forall i, j | 0 <= i < j < |rest| ensures used[rest[i]] < used[rest[j]] {
      assert rest[i] == order[i + 1] && rest[j] == order[j + 1];
    }
  }

  /** The order without a key. */
  function Dropped(order: seq<Key>, data: map<Key, CachedVerdict>, key: Key): seq<Key> {
    Restrict(order, data.Keys - {key})
  }

  lemma DroppedFacts(order: seq<Key>, data: map<Key, CachedVerdict>, key: Key, used: map<Key, nat>, ticks: nat)
    requires Lists(order, data) && InUseOrder(order, used, ticks)
    ensures Lists(Dropped(order, data, key), data - {key}) && InUseOrder(Dropped(order, data, key), used, ticks)
  {
    RestrictFacts(order, data.Keys - {key});
    RestrictKeepsUse(order, data.Keys - {key}, used, ticks);
  }

  lemma StoredFacts(order: seq<Key>, data: map<Key, CachedVerdict>, key: Key, value: CachedVerdict,
                    used: map<Key, nat>, ticks: nat)
    requires Lists(order, data) && InUseOrder(order, used, ticks)
    ensures Lists(Dropped(order, data, key) + [key], data[key := value])
    ensures InUseOrder(Dropped(order, data, key) + [key], used[key := ticks], ticks + 1)
  {
    DroppedFacts(order, data, key, used, ticks);
    var rest := Dropped(order, data, key);
    assert forall k | k in rest :: k in data - {key};
    ListsAppend(rest, data - {key}, key, value);
    assert (data - {key})[key := value] == data[key := value];
    UseAppend(rest, key, used, ticks);
  }

  lemma ListsAppend(order: seq<Key>, data: map<Key, CachedVerdict>, key: Key, value: CachedVerdict)
    requires Lists(order, data) && key !in data
    ensures Lists(order + [key], data[key := value])
  {
  }

  lemma UseAppend(order: seq<Key>, key: Key, used: map<Key, nat>, ticks: nat)
    requires InUseOrder(order, used, ticks) && key !in order
    ensures InUseOrder(order + [key], used[key := ticks], ticks + 1)
  {
    forall i | 0 <= i < |order| ensures order[i] in order {}
  }

  lemma AbsentStays(data: map<Key, CachedVerdict>, key: Key)
    ensures key !in data ==> data - {key} == data
  {
  }

  lemma DroppedSize(data: map<Key, CachedVerdict>, key: Key)
    ensures |data - {key}| <= |data|
  {
    SubsetSize((data - {key}).Keys, data.Keys);
  }

  class LruCache {
    var data: map<Key, CachedVerdict>
    var order: seq<Key>
    var lastSweep: int
    ghost var used: map<Key, nat>
    ghost var ticks: nat

    ghost predicate Valid()
      reads this
    {
      Lists(order, data) && InUseOrder(order, used, ticks)
    }

    constructor ()
      ensures Valid() && data == map[]
    {
      data, order, lastSweep, used, ticks := map[], [], 0, map[], 0;
    }

    /** Deletes and sets again: the key becomes the most recently used. */
    method Store(key: Key, value: CachedVerdict)
      requires Valid()
      modifies this`data, this`order, this`used, this`ticks
      ensures Valid() && data == old(data)[key := value]
      ensures used == old(used)[key := old(ticks)] && ticks == old(ticks) + 1
    {
      StoredFacts(order, data, key, value, used, ticks);
      order, data := Dropped(order, data, key) + [key], data[key := value];
      used, ticks := used[key := ticks], ticks + 1;
    }

    method Delete(key: Key)
      requires Valid()
      modifies this`data, this`order
      ensures Valid() && data == old(data) - {key}
    {
      DroppedFacts(order, data, key, used, ticks);
      order := Dropped(order, data, key);
      data := data - {key};
    }

    /** Stores a key's own entry again. */
    method Touch(key: Key)
      requires Valid() && key in data
      modifies this`data, this`order, this`used, this`ticks
      ensures Valid() && data == old(data) && used == old(used)[key := old(ticks)] && ticks == old(ticks) + 1
    {
      assert data[key := data[key]] == data;
      Store(key, data[key]);
    }

    method GetFresh(key: Key, now: int) returns (r: Option<seq<string>>)
      requires Valid()
      modifies this`data, this`order, this`used, this`ticks
      ensures Valid()
      ensures r == if key in old(data) && old(data)[key].expiresAt > now then Some(old(data)[key].ids) else None
      ensures r.Some? ==> data == old(data) && used == old(used)[key := old(ticks)]
      ensures r.None? ==> data == old(data) - {key} && used == old(used)
    {
      AbsentStays(data, key);
      if key !in data { return None; }
      var entry := data[key];
      if entry.expiresAt <= now {
        Delete(key);
        return None;
      }
      Touch(key);
      return Some(entry.ids);
    }

    /** Sweeps when it is due or needed, then evicts what was used least recently. */
    method Prune(now: int, maxEntries: nat, sweepInterval: int)
      requires Valid()
      modifies this`data, this`order, this`lastSweep
      ensures Valid() && |data| <= maxEntries
      ensures var swept := now - old(lastSweep) >= sweepInterval || |old(data)| > maxEntries;
        lastSweep == (if swept then now else old(lastSweep))
        && EvictedTo(if swept then Fresh(old(data), now) else old(data), data, used, maxEntries)
    {
      if now - lastSweep >= sweepInterval || |data| > maxEntries {
        lastSweep := now;
        order, data := DropExpired(order, data, now, used, ticks);
      }
      order, data := Evict(order, data, maxEntries, used, ticks);
    }
  }

  method DropExpired(order: seq<Key>, data: map<Key, CachedVerdict>, now: int, ghost used: map<Key, nat>,
                     ghost ticks: nat)
    returns (kept: seq<Key>, left: map<Key, CachedVerdict>)
    requires Lists(order, data) && InUseOrder(order, used, ticks)
    ensures Lists(kept, left) && InUseOrder(kept, used, ticks) && left == Fresh(data, now)
  {
    kept, left := Sweep(order, data, (v: CachedVerdict) => v.expiresAt <= now);
    RestrictKeepsUse(order, left.Keys, used, ticks);
  }
}

/** The client: cached verdicts first, one shared request for equal misses, and only trusted answers cached. */
module NpmOsvClient {
  import opened Base
  import opened Lru
  import opened OrderedMap
  import opened Text

  const EXPIRY_SWEEP_MAX_INTERVAL := 60000

  /******* Responses *******/

  datatype ResultEntry = BadEntry | Entry(version: string, blocked: bool, ids: seq<string>)

  /** `Failed` is a request that threw; `results` is None when the field is not a list. */
  datatype Response = Failed | Body(status: string, results: Option<seq<ResultEntry>>)

  /** The blocked entries, the last of a version winning. */
  function Blocked(entries: seq<ResultEntry>): map<string, seq<string>> {
    if entries == [] then map[]
    else
      var front, last := Blocked(entries[..|entries| - 1]), entries[|entries| - 1];
      if last.Entry? && last.blocked then front[last.version := last.ids] else front
  }

  /** The last entry that blocks this version is the `i`-th, with these ids. */
  ghost predicate LastBlocking(entries: seq<ResultEntry>, i: nat, v: string, ids: seq<string>) {
    && i < |entries| && entries[i] == Entry(v, true, ids)
    && forall j, other | i < j < |entries| :: entries[j] != Entry(v, true, other)
  }

  /** A version is blocked by the last entry that names it as blocked, with the ids of that one. */
  lemma {:induction false} BlockedMeaning(entries: seq<ResultEntry>, v: string, ids: seq<string>)
    ensures v in Blocked(entries) && Blocked(entries)[v] == ids <==>
      exists i: nat :: LastBlocking(entries, i, v, ids)
  {
    if entries != [] {
      var front, m: nat := entries[..|entries| - 1], |entries| - 1;
      BlockedMeaning(front, v, ids);
      if entries[m].Entry? && entries[m].blocked && entries[m].version == v {
        assert entries[m] == Entry(v, true, entries[m].ids);
        if entries[m].ids == ids { assert LastBlocking(entries, m, v, ids); }
      } else {
        if i: nat :| LastBlocking(entries, i, v, ids) { assert LastBlocking(front, i, v, ids); }
        if i: nat :| LastBlocking(front, i, v, ids) { assert LastBlocking(entries, i, v, ids); }
      }
    }
  }

  predicate WellFormed(body: Response) {
    body.Body? && body.results.Some? && forall i | 0 <= i < |body.results.value| :: body.results.value[i].Entry?
  }

  method ParseResponse(body: Response) returns (r: Option<map<string, seq<string>>>)
    ensures r.Some? <==> WellFormed(body)
    ensures r.Some? ==> r.value == Blocked(body.results.value)
  {
    if body.Failed? || body.results.None? { return None; }
    var entries, out := body.results.value, map[];
    for i := 0 to |entries|
      invariant out == Blocked(entries[..i]) && forall j | 0 <= j < i :: entries[j].Entry?
    {
      assert entries[..i + 1][..i] == entries[..i];
      if entries[i].BadEntry? { return None; }
      if entries[i].blocked { out := out[entries[i].version := entries[i].ids]; }
    }
    assert entries[..|entries|] == entries;
    return Some(out);
  }

  /******* What the answers are measured against *******/

  /** What is true of a package version: None when it is clean, else its malicious-package ids, if any are known. */
  type Truth = (string, string) -> Option<seq<string>>

  ghost predicate Agrees(blocked: map<string, seq<string>>, name: string, v: string, truth: Truth) {
    (v in blocked <==> truth(name, v).Some?) && (v in blocked ==> blocked[v] == truth(name, v).value)
  }

  /** A response with status ok names exactly the blocked ones of the requested versions, with their ids. */
  ghost predicate Honest(name: string, versions: seq<string>, body: Response, truth: Truth) {
    WellFormed(body) && body.status == "ok" ==>
      && (forall v | v in versions :: Agrees(Blocked(body.results.value), name, v, truth))
      && (forall v | v in Blocked(body.results.value) :: Agrees(Blocked(body.results.value), name, v, truth))
  }

  /** What the cache keeps: a clean version and one blocked without ids look alike. */
  function Stored(t: Option<seq<string>>): seq<string> { if t.Some? then t.value else [] }

  /******* Sharing requests *******/

  predicate NoCommas(versions: seq<string>) { forall i | 0 <= i < |versions| :: ',' !in versions[i] }

  function InFlightKey(name: string, misses: seq<string>): (string, string) { (name, JoinWith(misses, ',')) }

  /** What stands between the commas of the versions. */
  function Pieces(versions: seq<string>): seq<string> {
    if versions == [] then [] else SplitOn(versions[0], ',') + Pieces(versions[1..])
  }

  lemma {:induction false} SplitJoined(versions: seq<string>)
    requires versions != []
    ensures SplitOn(JoinWith(versions, ','), ',') == Pieces(versions)
  {
    var rest := versions[1..];
    if rest == [] {
      assert Pieces(rest) == [];
    } else {
      SplitJoined(rest);
      SplitConcat(versions[0], JoinWith(rest, ','), ',');
    }
  }

  /** Lookups share a request exactly when they are for the same package and their misses have the same pieces. */
  lemma SameKeySamePieces(n: string, xs: seq<string>, m: string, ys: seq<string>)
    requires xs != [] && ys != []
    ensures InFlightKey(n, xs) == InFlightKey(m, ys) <==> n == m && Pieces(xs) == Pieces(ys)
  {
    SplitJoined(xs);
    SplitJoined(ys);
    JoinSplit(JoinWith(xs, ','), ',');
    JoinSplit(JoinWith(ys, ','), ',');
  }

  lemma {:induction false} PiecesWithoutCommas(versions: seq<string>)
    requires NoCommas(versions)
    ensures Pieces(versions) == versions
  {
    if versions != [] {
      SplitFirst(versions[0], "", ',');
      PiecesWithoutCommas(versions[1..]);
    }
  }

  /** Without commas, they share it exactly when they miss the same versions. */
  lemma SameKeySameMisses(n: string, xs: seq<string>, m: string, ys: seq<string>)
    requires xs != [] && ys != [] && NoCommas(xs) && NoCommas(ys)
    ensures InFlightKey(n, xs) == InFlightKey(m, ys) <==> n == m && xs == ys
  {
    SameKeySamePieces(n, xs, m, ys);
    PiecesWithoutCommas(xs);
    PiecesWithoutCommas(ys);
  }

  /******* Requests and lookups *******/

  datatype Request = Request(name: string, versions: seq<string>, response: Option<Response>)

  /** A lookup that waits for its request. */
  datatype Lookup = Lookup(name: string, unique: seq<string>, cachedBlocked: map<string, seq<string>>,
                           misses: seq<string>, request: nat)

  datatype Decision = Decision(blocked: map<string, seq<string>>, complete: bool)

  /** The misses of a lookup that the request it waits for does not ask for. */
  ghost function UnaskedBy(name: string, misses: seq<string>, versions: seq<string>): set<Key> {
    set v | v in misses && v !in versions :: (name, v)
  }

  /** Every entry keeps what is true of its version, unless that version once went unasked. */
  ghost predicate TrueCache(data: map<Key, CachedVerdict>, unasked: set<Key>, truth: Truth) {
    forall k | k in data :: data[k].ids == Stored(truth(k.0, k.1)) || (data[k].ids == [] && k in unasked)
  }

  ghost predicate RequestOk(r: Request, truth: Truth) {
    r.versions != [] && (r.response.Some? ==> Honest(r.name, r.versions, r.response.value, truth))
  }

  /** The hits of a lookup: a blocked one has its true ids, and one that is not blocked was cached without ids. */
  ghost predicate CachedPart(cachedBlocked: map<string, seq<string>>, misses: seq<string>, name: string,
                             versions: seq<string>, unasked: set<Key>, truth: Truth) {
    && (forall v | v in misses :: v in versions)
    && (forall v | v in cachedBlocked ::
          v in versions && v !in misses && cachedBlocked[v] != [] && truth(name, v) == Some(cachedBlocked[v]))
    && (forall v | v in versions && v !in misses && v !in cachedBlocked ::
          Stored(truth(name, v)) == [] || (name, v) in unasked)
  }

  ghost predicate LookupOk(l: Lookup, requests: seq<Request>, unasked: set<Key>, truth: Truth) {
    && l.request < |requests| && l.misses != []
    && InFlightKey(l.name, l.misses) == InFlightKey(requests[l.request].name, requests[l.request].versions)
    && (forall v | v in l.misses && v !in requests[l.request].versions :: (l.name, v) in unasked)
    && CachedPart(l.cachedBlocked, l.misses, l.name, l.unique, unasked, truth)
  }

  ghost predicate WentUnasked(k: Key, l: Lookup, requests: seq<Request>) {
    l.request < |requests| && k.0 == l.name && k.1 in l.misses && k.1 !in requests[l.request].versions
  }

  ghost predicate SomeWentUnasked(unasked: set<Key>, lookups: seq<Lookup>, requests: seq<Request>) {
    forall k | k in unasked :: exists i: nat :: i < |lookups| && WentUnasked(k, lookups[i], requests)
  }

  ghost predicate InFlightOk(inFlight: map<(string, string), nat>, requests: seq<Request>) {
    forall key | key in inFlight ::
      inFlight[key] < |requests| && requests[inFlight[key]].response.None?
      && key == InFlightKey(requests[inFlight[key]].name, requests[inFlight[key]].versions)
  }

  ghost predicate QueueOk(inFlight: map<(string, string), nat>, requests: seq<Request>, lookups: seq<Lookup>,
                          unasked: set<Key>, truth: Truth) {
    && InFlightOk(inFlight, requests)
    && (forall i | 0 <= i < |requests| :: RequestOk(requests[i], truth))
    && (forall i | 0 <= i < |lookups| :: LookupOk(lookups[i], requests, unasked, truth))
    && SomeWentUnasked(unasked, lookups, requests)
  }

  lemma RequestAdded(inFlight: map<(string, string), nat>, requests: seq<Request>, lookups: seq<Lookup>,
                     unasked: set<Key>, truth: Truth, name: string, misses: seq<string>)
    requires QueueOk(inFlight, requests, lookups, unasked, truth) && misses != []
    ensures QueueOk(inFlight[InFlightKey(name, misses) := |requests|], requests + [Request(name, misses, None)],
                    lookups, unasked, truth)
  {
    var more := requests + [Request(name, misses, None)];
    forall k | k in unasked ensures exists i: nat :: i < |lookups| && WentUnasked(k, lookups[i], more) {
      var i: nat :| i < |lookups| && WentUnasked(k, lookups[i], requests);
      assert WentUnasked(k, lookups[i], more);
    }
  }

  /** More unasked versions allow more. */
  lemma LookupStaysOk(l: Lookup, requests: seq<Request>, unasked: set<Key>, more: set<Key>, truth: Truth)
    requires LookupOk(l, requests, unasked, truth) && unasked <= more
    ensures LookupOk(l, requests, more, truth)
  {
  }

  lemma UnaskedAdded(requests: seq<Request>, lookups: seq<Lookup>, unasked: set<Key>, l: Lookup)
    requires SomeWentUnasked(unasked, lookups, requests) && l.request < |requests|
    ensures SomeWentUnasked(unasked + UnaskedBy(l.name, l.misses, requests[l.request].versions), lookups + [l],
                            requests)
  {
    var all := lookups + [l];
    forall k | k in unasked + UnaskedBy(l.name, l.misses, requests[l.request].versions)
      ensures exists i: nat :: i < |all| && WentUnasked(k, all[i], requests)
    {
      if k in unasked {
        var i: nat :| i < |lookups| && WentUnasked(k, lookups[i], requests);
        assert all[i] == lookups[i];
      } else {
        assert all[|lookups|] == l && WentUnasked(k, l, requests);
      }
    }
  }

  lemma LookupAdded(inFlight: map<(string, string), nat>, requests: seq<Request>, lookups: seq<Lookup>,
                    unasked: set<Key>, truth: Truth, l: Lookup)
    requires QueueOk(inFlight, requests, lookups, unasked, truth) && l.request < |requests| && l.misses != []
    requires InFlightKey(l.name, l.misses) == InFlightKey(requests[l.request].name, requests[l.request].versions)
    requires CachedPart(l.cachedBlocked, l.misses, l.name, l.unique, unasked, truth)
    ensures QueueOk(inFlight, requests, lookups + [l],
                    unasked + UnaskedBy(l.name, l.misses, requests[l.request].versions), truth)
  {
    var more := unasked + UnaskedBy(l.name, l.misses, requests[l.request].versions);
    UnaskedAdded(requests, lookups, unasked, l);
    forall i | 0 <= i < |lookups + [l]| ensures LookupOk((lookups + [l])[i], requests, more, truth) {
      if i < |lookups| { LookupStaysOk(lookups[i], requests, unasked, more, truth); }
    }
  }

  lemma RequestSettled(inFlight: map<(string, string), nat>, requests: seq<Request>, lookups: seq<Lookup>,
                       unasked: set<Key>, truth: Truth, id: nat, response: Response)
    requires QueueOk(inFlight, requests, lookups, unasked, truth)
    requires id < |requests| && Honest(requests[id].name, requests[id].versions, response, truth)
    ensures QueueOk(inFlight - {InFlightKey(requests[id].name, requests[id].versions)},
                    requests[id := requests[id].(response := Some(response))], lookups, unasked, truth)
  {
    var after := requests[id := requests[id].(response := Some(response))];
    forall k | k in unasked ensures exists i: nat :: i < |lookups| && WentUnasked(k, lookups[i], after) {
      var i: nat :| i < |lookups| && WentUnasked(k, lookups[i], requests);
      assert WentUnasked(k, lookups[i], after);
    }
  }

  /** Only a lookup whose misses or whose request hold a comma leaves a version unasked. */
  lemma UnaskedNeedsComma(inFlight: map<(string, string), nat>, requests: seq<Request>, lookups: seq<Lookup>,
                          unasked: set<Key>, truth: Truth, k: Key)
    requires QueueOk(inFlight, requests, lookups, unasked, truth) && k in unasked
    ensures exists i: nat ::
      && i < |lookups| && lookups[i].request < |requests| && k.0 == lookups[i].name && k.1 in lookups[i].misses
      && !(NoCommas(lookups[i].misses) && NoCommas(requests[lookups[i].request].versions))
  {
    var i: nat :| i < |lookups| && WentUnasked(k, lookups[i], requests);
    var l, asked := lookups[i], requests[lookups[i].request];
    assert LookupOk(l, requests, unasked, truth) && RequestOk(asked, truth);
    if NoCommas(l.misses) && NoCommas(asked.versions) {
      SameKeySameMisses(l.name, l.misses, asked.name, asked.versions);
    }
  }

  /** A lookup waits for the request in flight under its key, or else for a new one that asks for its misses. */
  ghost predicate Joined(id: nat, name: string, misses: seq<string>,
                         flightBefore: map<(string, string), nat>, flight: map<(string, string), nat>,
                         before: seq<Request>, requests: seq<Request>) {
    if InFlightKey(name, misses) in flightBefore
    then id == flightBefore[InFlightKey(name, misses)] && flight == flightBefore && requests == before
    else
      && id == |before| && flight == flightBefore[InFlightKey(name, misses) := id]
      && requests == before + [Request(name, misses, None)]
  }

  /** One more lookup waits for its request. */
  ghost predicate Waiting(name: string, unique: seq<string>, misses: seq<string>,
                          flightBefore: map<(string, string), nat>, flight: map<(string, string), nat>,
                          before: seq<Request>, requests: seq<Request>, others: seq<Lookup>, lookups: seq<Lookup>) {
    && lookups != [] && lookups[..|lookups| - 1] == others
    && var l := lookups[|lookups| - 1];
       && l == Lookup(name, unique, l.cachedBlocked, misses, l.request) && l.request < |requests|
       && Joined(l.request, name, misses, flightBefore, flight, before, requests)
  }

  /******* Answers *******/

  /** An answer from the cache: what it blocks is blocked, and it goes wrong exactly on what is blocked without ids. */
  ghost predicate HitAnswer(blocked: map<string, seq<string>>, name: string, v: string, unasked: set<Key>,
                            truth: Truth) {
    && (v in blocked ==> blocked[v] != [] && Agrees(blocked, name, v, truth))
    && ((name, v) !in unasked ==> (Agrees(blocked, name, v, truth) <==> truth(name, v) != Some([])))
  }

  lemma CachedAnswers(cachedBlocked: map<string, seq<string>>, misses: seq<string>, name: string,
                      unique: seq<string>, unasked: set<Key>, truth: Truth)
    requires CachedPart(cachedBlocked, misses, name, unique, unasked, truth)
    ensures forall v | v in unique && v !in misses :: HitAnswer(cachedBlocked, name, v, unasked, truth)
  {
  }

  /** A complete answer over a response that blocks `reported`, to a request for `asked`. */
  ghost predicate FullAnswer(blocked: map<string, seq<string>>, l: Lookup, asked: seq<string>,
                             reported: map<string, seq<string>>, unasked: set<Key>, truth: Truth) {
    forall v | v in l.unique ::
      if v in asked || v in reported then Agrees(blocked, l.name, v, truth)
      else if v in l.misses then v !in blocked
      else HitAnswer(blocked, l.name, v, unasked, truth)
  }

  function MergeBlocked(a: map<string, seq<string>>, b: map<string, seq<string>>): map<string, seq<string>> {
    if a == map[] then b else if b == map[] then a else a + b
  }

  lemma MergedAnswers(l: Lookup, asked: seq<string>, reported: map<string, seq<string>>, unasked: set<Key>,
                      truth: Truth)
    requires CachedPart(l.cachedBlocked, l.misses, l.name, l.unique, unasked, truth)
    requires forall v | v in asked || v in reported :: Agrees(reported, l.name, v, truth)
    ensures FullAnswer(MergeBlocked(l.cachedBlocked, reported), l, asked, reported, unasked, truth)
  {
    CachedAnswers(l.cachedBlocked, l.misses, l.name, l.unique, unasked, truth);
    var merged := MergeBlocked(l.cachedBlocked, reported);
    assert merged == l.cachedBlocked + reported;
    forall v | v in l.unique
      ensures if v in asked || v in reported then Agrees(merged, l.name, v, truth)
              else if v in l.misses then v !in merged
              else HitAnswer(merged, l.name, v, unasked, truth)
    {
      if v in asked || v in reported {
        assert Agrees(reported, l.name, v, truth);
      } else if v !in l.misses {
        assert HitAnswer(l.cachedBlocked, l.name, v, unasked, truth);
      }
    }
  }

  lemma NoCommasNoneUnasked(inFlight: map<(string, string), nat>, requests: seq<Request>, lookups: seq<Lookup>,
                            unasked: set<Key>, truth: Truth)
    requires QueueOk(inFlight, requests, lookups, unasked, truth)
    requires forall j | 0 <= j < |lookups| :: NoCommas(lookups[j].misses)
    requires forall j | 0 <= j < |requests| :: NoCommas(requests[j].versions)
    ensures unasked == {}
  {
    forall k | k in unasked ensures false {
      UnaskedNeedsComma(inFlight, requests, lookups, unasked, truth, k);
    }
  }

  /**
   * Where no version ever asked about holds a comma, a complete answer is the uncached one on every version, except
   * exactly on those that are blocked without ids, were answered from the cache and are not named by the response.
   */
  lemma WithoutCommas(inFlight: map<(string, string), nat>, requests: seq<Request>, lookups: seq<Lookup>,
                      unasked: set<Key>, truth: Truth, i: nat, blocked: map<string, seq<string>>,
                      reported: map<string, seq<string>>)
    requires QueueOk(inFlight, requests, lookups, unasked, truth) && i < |lookups|
    requires forall j | 0 <= j < |lookups| :: NoCommas(lookups[j].misses)
    requires forall j | 0 <= j < |requests| :: NoCommas(requests[j].versions)
    requires lookups[i].request < |requests|
    requires FullAnswer(blocked, lookups[i], requests[lookups[i].request].versions, reported, unasked, truth)
    ensures var l := lookups[i];
      forall v | v in l.unique ::
        Agrees(blocked, l.name, v, truth) <==> v in l.misses || v in reported || truth(l.name, v) != Some([])
  {
    NoCommasNoneUnasked(inFlight, requests, lookups, unasked, truth);
    var l, asked := lookups[i], requests[lookups[i].request];
    assert LookupOk(l, requests, unasked, truth) && RequestOk(asked, truth);
    SameKeySameMisses(l.name, l.misses, asked.name, asked.versions);
  }

  /******* Reading the cache *******/

  function NonEmpty(versions: seq<string>): seq<string> {
    if versions == [] then []
    else NonEmpty(versions[..|versions| - 1]) + if versions[|versions| - 1] == "" then []
                                                else [versions[|versions| - 1]]
  }

  /** The non-empty versions, each once. */
  method UniqueVersions(versions: seq<string>) returns (unique: seq<string>)
    ensures unique == Unique(NonEmpty(versions))
  {
    var present: seq<string>;
    present, unique := [], [];
    for i := 0 to |versions|
      invariant present == NonEmpty(versions[..i]) && unique == Unique(present)
    {
      assert versions[..i + 1][..i] == versions[..i];
      if versions[i] != "" {
        UniqueFacts(present);
        assert (present + [versions[i]])[..|present|] == present;
        if versions[i] !in unique { unique := unique + [versions[i]]; }
        present := present + [versions[i]];
      }
    }
    assert versions[..|versions|] == versions;
  }

  lemma {:induction false} DistinctStay(versions: seq<string>)
    requires Distinct(versions) && "" !in versions
    ensures Unique(NonEmpty(versions)) == versions
  {
    if versions != [] {
      var front := versions[..|versions| - 1];
      assert versions == front + [versions[|versions| - 1]];
      DistinctStay(front);
      var present := NonEmpty(front) + [versions[|versions| - 1]];
      UniqueFacts(NonEmpty(front));
      assert present[..|present| - 1] == NonEmpty(front);
    }
  }

  predicate Hits(cacheTtl: nat, data: map<Key, CachedVerdict>, key: Key, now: int) {
    cacheTtl > 0 && key in data && data[key].expiresAt > now
  }

  /** The versions without a fresh entry, in their order. */
  function Missing(cacheTtl: nat, data: map<Key, CachedVerdict>, name: string, versions: seq<string>,
                   now: int): seq<string> {
    if versions == [] then []
    else
      var front, last := versions[..|versions| - 1], versions[|versions| - 1];
      Missing(cacheTtl, data, name, front, now) + if Hits(cacheTtl, data, (name, last), now) then [] else [last]
  }

  lemma {:induction false} MissingFacts(cacheTtl: nat, data: map<Key, CachedVerdict>, name: string,
                                        versions: seq<string>, now: int)
    ensures forall v :: v in Missing(cacheTtl, data, name, versions, now)
                        <==> v in versions && !Hits(cacheTtl, data, (name, v), now)
  {
    if versions != [] {
      MissingFacts(cacheTtl, data, name, versions[..|versions| - 1], now);
      assert versions == versions[..|versions| - 1] + [versions[|versions| - 1]];
    }
  }

  lemma {:induction false} NothingCachedAllMissing(cacheTtl: nat, name: string, versions: seq<string>, now: int)
    ensures Missing(cacheTtl, map[], name, versions, now) == versions
  {
    if versions != [] {
      NothingCachedAllMissing(cacheTtl, name, versions[..|versions| - 1], now);
    }
  }

  ghost predicate SameAt(before: map<Key, CachedVerdict>, after: map<Key, CachedVerdict>, k: Key) {
    (k in before <==> k in after) && (k in before ==> before[k] == after[k])
  }

  ghost predicate SameBut(before: map<Key, CachedVerdict>, after: map<Key, CachedVerdict>, key: Key) {
    forall k | k != key :: SameAt(before, after, k)
  }

  /** Nothing is new. */
  ghost predicate Within(before: map<Key, CachedVerdict>, after: map<Key, CachedVerdict>) {
    forall k | k in after :: k in before && after[k] == before[k]
  }

  /** After the first `i` versions: their part of the answer, and the other versions' entries as they were. */
  ghost predicate ReadSoFar(before: map<Key, CachedVerdict>, data: map<Key, CachedVerdict>,
                            cachedBlocked: map<string, seq<string>>, misses: seq<string>, name: string,
                            unique: seq<string>, i: nat, cacheTtl: nat, now: int, unasked: set<Key>, truth: Truth)
    requires i <= |unique|
  {
    && CachedPart(cachedBlocked, misses, name, unique[..i], unasked, truth)
    && (forall j | i <= j < |unique| :: SameAt(before, data, (name, unique[j])))
    && misses == Missing(cacheTtl, before, name, unique[..i], now)
    && Within(before, data)
  }

  lemma SeenNext(unique: seq<string>, i: nat)
    requires i < |unique| && Distinct(unique)
    ensures unique[..i + 1] == unique[..i] + [unique[i]] && unique[i] !in unique[..i]
    ensures forall j | i < j < |unique| :: unique[j] != unique[i]
  {
  }

  lemma MissNext(cachedBlocked: map<string, seq<string>>, misses: seq<string>, name: string, seen: seq<string>,
                 v: string, unasked: set<Key>, truth: Truth)
    requires CachedPart(cachedBlocked, misses, name, seen, unasked, truth) && v !in seen
    ensures CachedPart(cachedBlocked, misses + [v], name, seen + [v], unasked, truth)
  {
  }

  lemma HitNext(cachedBlocked: map<string, seq<string>>, misses: seq<string>, name: string, seen: seq<string>,
                v: string, ids: seq<string>, unasked: set<Key>, truth: Truth)
    requires CachedPart(cachedBlocked, misses, name, seen, unasked, truth) && v !in seen
    requires ids == Stored(truth(name, v)) || (ids == [] && (name, v) in unasked)
    ensures CachedPart(if ids == [] then cachedBlocked else cachedBlocked[v := ids],
                       misses, name, seen + [v], unasked, truth)
  {
  }

  lemma MissingNext(cacheTtl: nat, data: map<Key, CachedVerdict>, name: string, unique: seq<string>, i: nat, now: int)
    requires i < |unique|
    ensures Missing(cacheTtl, data, name, unique[..i + 1], now)
         == Missing(cacheTtl, data, name, unique[..i], now)
            + if Hits(cacheTtl, data, (name, unique[i]), now) then [] else [unique[i]]
  {
    assert unique[..i + 1][..i] == unique[..i];
  }

  /******* Writing the cache *******/

  /** `fetched.get(version) ?? []` */
  function IdsOf(fetched: map<string, seq<string>>, v: string): seq<string> { if v in fetched then fetched[v] else [] }

  /** What is about to be stored for a version keeps the cache true. */
  ghost predicate TrueEntry(ids: seq<string>, k: Key, unasked: set<Key>, truth: Truth) {
    ids == Stored(truth(k.0, k.1)) || (ids == [] && k in unasked)
  }

  /** The first `n` misses are cached with what was fetched for them, until `expiresAt`. */
  predicate AllStored(data: map<Key, CachedVerdict>, name: string, misses: seq<string>, n: nat,
                      fetched: map<string, seq<string>>, expiresAt: int) {
    && n <= |misses|
    && forall i | 0 <= i < n ::
         (name, misses[i]) in data && data[(name, misses[i])] == CachedVerdict(IdsOf(fetched, misses[i]), expiresAt)
  }

  lemma OneMoreStored(data: map<Key, CachedVerdict>, name: string, misses: seq<string>, n: nat,
                      fetched: map<string, seq<string>>, expiresAt: int)
    requires n < |misses| && AllStored(data, name, misses, n, fetched, expiresAt)
    ensures AllStored(data[(name, misses[n]) := CachedVerdict(IdsOf(fetched, misses[n]), expiresAt)],
                      name, misses, n + 1, fetched, expiresAt)
  {
  }

  lemma StoredSize(data: map<Key, CachedVerdict>, key: Key, value: CachedVerdict)
    ensures |data[key := value]| <= |data| + 1
  {
    assert data[key := value].Keys == data.Keys + {key};
  }

  /** Pruning a cache that is within its bound drops nothing fresh. */
  lemma PrunedKeepsFresh(full: map<Key, CachedVerdict>, left: map<Key, CachedVerdict>, now: int,
                         used: map<Key, nat>, size: nat)
    requires EvictedTo(full, left, used, size) || EvictedTo(Fresh(full, now), left, used, size)
    ensures |full| <= size ==> forall k | k in full && full[k].expiresAt > now :: k in left && left[k] == full[k]
  {
    if |full| <= size {
      SubsetSize(Fresh(full, now).Keys, full.Keys);
      if EvictedTo(full, left, used, size) {
        SubsetSize(left.Keys, full.Keys);
      } else {
        SubsetSize(left.Keys, Fresh(full, now).Keys);
      }
    }
  }

  /** The response may be cached and is final. */
  predicate Trusted(body: Response) { WellFormed(body) && body.status == "ok" }

  /** An honest answer gives every miss what is true of it, or nothing where the miss went unasked. */
  lemma FetchedIsTrue(l: Lookup, requests: seq<Request>, unasked: set<Key>, truth: Truth, body: Response)
    requires LookupOk(l, requests, unasked, truth) && Trusted(body)
    requires Honest(l.name, requests[l.request].versions, body, truth)
    ensures forall v | v in l.misses :: TrueEntry(IdsOf(Blocked(body.results.value), v), (l.name, v), unasked, truth)
  {
    var reported := Blocked(body.results.value);
    forall v | v in l.misses ensures TrueEntry(IdsOf(reported, v), (l.name, v), unasked, truth) {
      if v in requests[l.request].versions || v in reported { assert Agrees(reported, l.name, v, truth); }
    }
  }

  /******* The client *******/

  class OsvDecisionClient {
    const cacheTtl: nat
    const cacheMaxEntries: nat
    const cache: LruCache
    var inFlight: map<(string, string), nat>
    var requests: seq<Request>
    var lookups: seq<Lookup>
    /** The versions some lookup missed while the request it joined did not ask for them. */
    ghost var unasked: set<Key>
    ghost const truth: Truth

    ghost predicate CacheOk()
      reads this`unasked, cache
    {
      cacheMaxEntries > 0 && cache.Valid() && |cache.data| <= cacheMaxEntries && TrueCache(cache.data, unasked, truth)
    }

    ghost predicate Valid()
      reads this, cache
    {
      CacheOk() && QueueOk(inFlight, requests, lookups, unasked, truth)
    }

    constructor (cacheTtl: nat, cacheMaxEntries: nat, cache: LruCache, ghost truth: Truth)
      requires cacheMaxEntries > 0 && cache.Valid() && cache.data == map[]
      ensures Valid() && this.truth == truth && this.cache == cache
      ensures this.cacheTtl == cacheTtl && this.cacheMaxEntries == cacheMaxEntries
      ensures inFlight == map[] && requests == [] && lookups == [] && unasked == {}
    {
      this.cacheTtl, this.cacheMaxEntries, this.cache, this.truth := cacheTtl, cacheMaxEntries, cache, truth;
      inFlight, requests, lookups, unasked := map[], [], [], {};
    }

    /** One version looked up: a fresh entry is a hit and moves to the end, a stale one goes. */
    method ReadOne(name: string, version: string, now: int) returns (r: Option<seq<string>>)
      requires CacheOk()
      modifies cache`data, cache`order, cache`used, cache`ticks
      ensures CacheOk() && SameBut(old(cache.data), cache.data, (name, version)) && Within(old(cache.data), cache.data)
      ensures r.Some? <==> Hits(cacheTtl, old(cache.data), (name, version), now)
      ensures r.Some? ==> TrueEntry(r.value, (name, version), unasked, truth)
    {
      if cacheTtl == 0 { return None; }
      DroppedSize(cache.data, (name, version));
      r := cache.GetFresh((name, version), now);
    }

    method ReadNext(name: string, unique: seq<string>, i: nat, now: int, cachedBlocked: map<string, seq<string>>,
                    misses: seq<string>, ghost before: map<Key, CachedVerdict>)
      returns (nextBlocked: map<string, seq<string>>, nextMisses: seq<string>)
      requires CacheOk() && i < |unique| && Distinct(unique)
      requires ReadSoFar(before, cache.data, cachedBlocked, misses, name, unique, i, cacheTtl, now, unasked, truth)
      modifies cache`data, cache`order, cache`used, cache`ticks
      ensures CacheOk()
      ensures ReadSoFar(before, cache.data, nextBlocked, nextMisses, name, unique, i + 1, cacheTtl, now, unasked, truth)
    {
      var version := unique[i];
      var cached := ReadOne(name, version, now);
      SeenNext(unique, i);
      MissingNext(cacheTtl, before, name, unique, i, now);
      forall j | i < j < |unique| ensures SameAt(before, cache.data, (name, unique[j])) {
        assert SameAt(old(cache.data), cache.data, (name, unique[j]));
      }
      if cached.None? {
        MissNext(cachedBlocked, misses, name, unique[..i], version, unasked, truth);
        nextBlocked, nextMisses := cachedBlocked, misses + [version];
        return;
      }
      HitNext(cachedBlocked, misses, name, unique[..i], version, cached.value, unasked, truth);
      return if cached.value == [] then cachedBlocked else cachedBlocked[version := cached.value], misses;
    }

    method ReadCache(name: string, unique: seq<string>, now: int)
      returns (cachedBlocked: map<string, seq<string>>, misses: seq<string>)
      requires CacheOk() && Distinct(unique)
      modifies cache`data, cache`order, cache`used, cache`ticks
      ensures CacheOk() && CachedPart(cachedBlocked, misses, name, unique, unasked, truth)
      ensures misses == Missing(cacheTtl, old(cache.data), name, unique, now) && Within(old(cache.data), cache.data)
    {
      cachedBlocked, misses := map[], [];
      for i := 0 to |unique|
        invariant CacheOk()
        invariant ReadSoFar(old(cache.data), cache.data, cachedBlocked, misses, name, unique, i, cacheTtl, now,
                            unasked, truth)
      {
        cachedBlocked, misses := ReadNext(name, unique, i, now, cachedBlocked, misses, old(cache.data));
      }
      assert unique[..|unique|] == unique;
    }

    /** The request in flight under the same key, or a new one. */
    method SharedRequest(name: string, misses: seq<string>) returns (id: nat)
      requires QueueOk(inFlight, requests, lookups, unasked, truth) && misses != []
      modifies this`inFlight, this`requests
      ensures QueueOk(inFlight, requests, lookups, unasked, truth)
      ensures id < |requests| && InFlightKey(name, misses) == InFlightKey(requests[id].name, requests[id].versions)
      ensures Joined(id, name, misses, old(inFlight), inFlight, old(requests), requests)
    {
      var key := InFlightKey(name, misses);
      if key in inFlight { return inFlight[key]; }
      RequestAdded(inFlight, requests, lookups, unasked, truth, name, misses);
      id := |requests|;
      requests := requests + [Request(name, misses, None)];
      inFlight := inFlight[key := id];
    }

    method AddLookup(lookup: Lookup)
      requires Valid() && lookup.request < |requests| && lookup.misses != []
      requires InFlightKey(lookup.name, lookup.misses)
            == InFlightKey(requests[lookup.request].name, requests[lookup.request].versions)
      requires CachedPart(lookup.cachedBlocked, lookup.misses, lookup.name, lookup.unique, unasked, truth)
      modifies this`lookups, this`unasked
      ensures Valid() && lookups == old(lookups) + [lookup]
      ensures unasked == old(unasked) + UnaskedBy(lookup.name, lookup.misses, requests[lookup.request].versions)
    {
      LookupAdded(inFlight, requests, lookups, unasked, truth, lookup);
      lookups := lookups + [lookup];
      unasked := unasked + UnaskedBy(lookup.name, lookup.misses, requests[lookup.request].versions);
    }

    /** The lookup waits for the request in flight under its key, or for a new one. */
    method Wait(name: string, unique: seq<string>, cachedBlocked: map<string, seq<string>>, misses: seq<string>)
      requires Valid() && misses != [] && CachedPart(cachedBlocked, misses, name, unique, unasked, truth)
      modifies this`inFlight, this`requests, this`lookups, this`unasked
      ensures Valid()
      ensures Waiting(name, unique, misses, old(inFlight), inFlight, old(requests), requests, old(lookups), lookups)
      ensures unasked == old(unasked) + UnaskedBy(name, misses, requests[lookups[|lookups| - 1].request].versions)
    {
      var id := SharedRequest(name, misses);
      AddLookup(Lookup(name, unique, cachedBlocked, misses, id));
    }

    /** The synchronous part of a lookup: answers from the cache, or joins or starts a request. */
    method Begin(name: string, versions: seq<string>, now: int) returns (r: Option<Decision>)
      requires Valid()
      modifies this`inFlight, this`requests, this`lookups, this`unasked
      modifies cache`data, cache`order, cache`used, cache`ticks
      ensures Valid() && Within(old(cache.data), cache.data)
      ensures r.Some? <==> Missing(cacheTtl, old(cache.data), name, Unique(NonEmpty(versions)), now) == []
      ensures r.Some? ==>
        && r.value.complete && inFlight == old(inFlight) && requests == old(requests)
        && lookups == old(lookups) && unasked == old(unasked)
        && forall v | v in Unique(NonEmpty(versions)) :: HitAnswer(r.value.blocked, name, v, unasked, truth)
      ensures r.None? ==>
        Waiting(name, Unique(NonEmpty(versions)),
                Missing(cacheTtl, old(cache.data), name, Unique(NonEmpty(versions)), now),
                old(inFlight), inFlight, old(requests), requests, old(lookups), lookups)
        && var l := lookups[|lookups| - 1];
           unasked == old(unasked) + UnaskedBy(name, l.misses, requests[l.request].versions)
    {
      var unique := UniqueVersions(versions);
      UniqueFacts(NonEmpty(versions));
      var cachedBlocked, misses := ReadCache(name, unique, now);
      CachedAnswers(cachedBlocked, misses, name, unique, unasked, truth);
      if misses == [] { return Some(Decision(cachedBlocked, true)); }
      Wait(name, unique, cachedBlocked, misses);
      return None;
    }

    /** A request ends, with an answer or without: it is no longer shared. */
    method Settle(id: nat, response: Response)
      requires Valid() && id < |requests| && requests[id].response.None?
      requires Honest(requests[id].name, requests[id].versions, response, truth)
      modifies this`inFlight, this`requests
      ensures Valid() && requests == old(requests)[id := old(requests)[id].(response := Some(response))]
      ensures forall key | key in inFlight :: inFlight[key] != id
    {
      RequestSettled(inFlight, requests, lookups, unasked, truth, id, response);
      var key := InFlightKey(requests[id].name, requests[id].versions);
      inFlight := inFlight - {key};
      requests := requests[id := requests[id].(response := Some(response))];
    }

    /** The rest of a lookup, once its request has ended. */
    method Resume(i: nat, now: int) returns (r: Decision)
      requires Valid() && i < |lookups| && requests[lookups[i].request].response.Some?
      modifies cache
      ensures Valid()
      ensures r.complete <==> Trusted(requests[lookups[i].request].response.value)
      ensures r.complete ==>
        FullAnswer(r.blocked, lookups[i], requests[lookups[i].request].versions,
                   Blocked(requests[lookups[i].request].response.value.results.value), unasked, truth)
      ensures !r.complete ==> cache.data == old(cache.data)
      ensures var body := requests[lookups[i].request].response.value;
        r.blocked == if WellFormed(body) then MergeBlocked(lookups[i].cachedBlocked, Blocked(body.results.value))
                     else lookups[i].cachedBlocked
      ensures r.complete && cacheTtl > 0 && |old(cache.data)| + |lookups[i].misses| <= cacheMaxEntries ==>
        AllStored(cache.data, lookups[i].name, lookups[i].misses, |lookups[i].misses|,
                  Blocked(requests[lookups[i].request].response.value.results.value), now + cacheTtl)
    {
      var lookup := lookups[i];
      var body := requests[lookup.request].response.value;
      assert RequestOk(requests[lookup.request], truth) && LookupOk(lookup, requests, unasked, truth);
      var fetched := ParseResponse(body);
      if fetched.None? { return Decision(lookup.cachedBlocked, false); }
      var complete := body.status == "ok";
      if complete && cacheTtl > 0 {
        FetchedIsTrue(lookup, requests, unasked, truth, body);
        WriteCache(lookup.name, lookup.misses, fetched.value, now);
      }
      if complete { MergedAnswers(lookup, requests[lookup.request].versions, fetched.value, unasked, truth); }
      return Decision(MergeBlocked(lookup.cachedBlocked, fetched.value), complete);
    }

    method StoreOne(name: string, v: string, ids: seq<string>, expiresAt: int)
      requires cache.Valid() && TrueCache(cache.data, unasked, truth) && TrueEntry(ids, (name, v), unasked, truth)
      modifies cache`data, cache`order, cache`used, cache`ticks
      ensures cache.Valid() && TrueCache(cache.data, unasked, truth)
      ensures cache.data == old(cache.data)[(name, v) := CachedVerdict(ids, expiresAt)]
      ensures |cache.data| <= |old(cache.data)| + 1
    {
      StoredSize(cache.data, (name, v), CachedVerdict(ids, expiresAt));
      cache.Store((name, v), CachedVerdict(ids, expiresAt));
    }

    /** Stores the fetched verdict of every miss, a clean one where nothing was reported. */
    method StoreAll(name: string, misses: seq<string>, fetched: map<string, seq<string>>, expiresAt: int)
      requires cache.Valid() && TrueCache(cache.data, unasked, truth)
      requires forall i | 0 <= i < |misses| :: TrueEntry(IdsOf(fetched, misses[i]), (name, misses[i]), unasked, truth)
      modifies cache`data, cache`order, cache`used, cache`ticks
      ensures cache.Valid() && TrueCache(cache.data, unasked, truth) && |cache.data| <= |old(cache.data)| + |misses|
      ensures AllStored(cache.data, name, misses, |misses|, fetched, expiresAt)
    {
      for i := 0 to |misses|
        invariant cache.Valid() && TrueCache(cache.data, unasked, truth) && |cache.data| <= |old(cache.data)| + i
        invariant AllStored(cache.data, name, misses, i, fetched, expiresAt)
      {
        OneMoreStored(cache.data, name, misses, i, fetched, expiresAt);
        StoreOne(name, misses[i], IdsOf(fetched, misses[i]), expiresAt);
      }
    }

    /** With room for all of them, every miss is cached until its time is up. */
    method WriteCache(name: string, misses: seq<string>, fetched: map<string, seq<string>>, now: int)
      requires cacheTtl > 0 && CacheOk()
      requires forall v | v in misses :: TrueEntry(IdsOf(fetched, v), (name, v), unasked, truth)
      modifies cache
      ensures CacheOk()
      ensures |old(cache.data)| + |misses| <= cacheMaxEntries ==>
        AllStored(cache.data, name, misses, |misses|, fetched, now + cacheTtl)
    {
      StoreAll(name, misses, fetched, now + cacheTtl);
      ghost var full := cache.data;
      cache.Prune(now, cacheMaxEntries,
                  if cacheTtl < EXPIRY_SWEEP_MAX_INTERVAL then cacheTtl else EXPIRY_SWEEP_MAX_INTERVAL);
      PrunedKeepsFresh(full, cache.data, now, cache.used, cacheMaxEntries);
    }
  }

  /******* Where the answers go wrong *******/

  lemma AllMissing(cacheTtl: nat, name: string, xs: seq<string>, now: int)
    requires xs != [] && Distinct(xs) && "" !in xs
    ensures Unique(NonEmpty(xs)) == xs && Missing(cacheTtl, map[], name, xs, now) == xs
  {
    DistinctStay(xs);
    NothingCachedAllMissing(cacheTtl, name, xs, now);
  }

  /** With nothing cached, a lookup misses all its versions and waits. */
  method BeginUncached(client: OsvDecisionClient, name: string, xs: seq<string>, now: int)
    requires client.Valid() && client.cache.data == map[] && xs != [] && Distinct(xs) && "" !in xs
    modifies client, client.cache
    ensures client.Valid() && client.cache.data == map[]
    ensures Waiting(name, xs, xs, old(client.inFlight), client.inFlight, old(client.requests), client.requests,
                    old(client.lookups), client.lookups)
  {
    AllMissing(client.cacheTtl, name, xs, now);
    var waits := client.Begin(name, xs, now);
    WithinNothing(client.cache.data);
  }

  lemma WithinNothing(after: map<Key, CachedVerdict>)
    requires Within(map[], after)
    ensures after == map[]
  {
  }

  /** A client whose first lookup, for `xs`, has just started its request. */
  method FirstLookup(name: string, xs: seq<string>, cacheTtl: nat, size: nat, now: int, ghost truth: Truth)
    returns (client: OsvDecisionClient)
    requires xs != [] && Distinct(xs) && "" !in xs && size > 0
    ensures fresh(client) && fresh(client.cache) && client.Valid() && client.truth == truth
    ensures client.cacheTtl == cacheTtl && client.cacheMaxEntries == size && client.cache.data == map[]
    ensures client.requests == [Request(name, xs, None)] && client.inFlight == map[InFlightKey(name, xs) := 0]
    ensures |client.lookups| == 1 && client.lookups[0] == Lookup(name, xs, client.lookups[0].cachedBlocked, xs, 0)
  {
    var cache := new LruCache();
    client := new OsvDecisionClient(cacheTtl, size, cache, truth);
    BeginUncached(client, name, xs, now);
  }

  /** A version blocked without ids whose entry is fresh: answered from the cache, and let through. */
  method AskAgain(client: OsvDecisionClient, name: string, v: string, now: int) returns (r: Option<Decision>)
    requires client.Valid() && v != "" && client.truth(name, v) == Some([])
    requires Hits(client.cacheTtl, client.cache.data, (name, v), now)
    modifies client, client.cache
    ensures r.Some? && r.value.complete && v !in r.value.blocked
  {
    SoleVersion(v);
    SoleHit(client.cacheTtl, client.cache.data, name, v, now);
    r := client.Begin(name, [v], now);
    assert v in [v];
  }

  /** A version blocked without ids is blocked by the fetched answer, and let through by the cached one after it. */
  method BlockedWithoutIds(name: string, v: string, cacheTtl: nat, size: nat, now: int, later: int, ghost truth: Truth)
    returns (first: Decision, second: Option<Decision>)
    requires v != "" && truth(name, v) == Some([]) && size > 0 && now <= later < now + cacheTtl
    ensures first.complete && v in first.blocked && first.blocked[v] == []
    ensures second.Some? && second.value.complete && v !in second.value.blocked
  {
    var client := FirstLookup(name, [v], cacheTtl, size, now, truth);
    SoleEntry(name, v, truth);
    client.Settle(0, Body("ok", Some([Entry(v, true, [])])));
    first := client.Resume(0, now);
    second := AskAgain(client, name, v, later);
  }

  lemma SoleVersion(v: string)
    requires v != ""
    ensures Unique(NonEmpty([v])) == [v]
  {
    DistinctStay([v]);
  }

  lemma SoleHit(cacheTtl: nat, data: map<Key, CachedVerdict>, name: string, v: string, now: int)
    requires Hits(cacheTtl, data, (name, v), now)
    ensures Missing(cacheTtl, data, name, [v], now) == []
  {
    assert [v][..0] == [];
  }

  lemma SoleEntry(name: string, v: string, truth: Truth)
    requires truth(name, v) == Some([])
    ensures Blocked([Entry(v, true, [])]) == map[v := []]
    ensures Honest(name, [v], Body("ok", Some([Entry(v, true, [])])), truth)
  {
    var entries := [Entry(v, true, [])];
    assert entries[..0] == [] && Blocked(entries) == map[v := []];
  }

  /** A lookup for versions with the same pieces joins the request of the first. */
  method Joins(client: OsvDecisionClient, name: string, xs: seq<string>, ys: seq<string>, now: int)
    requires client.Valid() && client.cache.data == map[] && ys != [] && Distinct(ys) && "" !in ys
    requires xs != [] && Pieces(xs) == Pieces(ys) && client.requests == [Request(name, xs, None)]
    requires client.inFlight == map[InFlightKey(name, xs) := 0] && |client.lookups| == 1
    modifies client, client.cache
    ensures client.Valid() && client.requests == old(client.requests) && |client.lookups| == 2
    ensures client.lookups[1] == Lookup(name, ys, client.lookups[1].cachedBlocked, ys, 0)
  {
    SameKeySamePieces(name, xs, name, ys);
    BeginUncached(client, name, ys, now);
  }

  /**
   * Two lookups whose misses have the same pieces share one request. What only the second one misses goes unasked:
   * unless the response names it all the same, the second lookup gets a complete answer that lets it through.
   */
  method CommaMixesLookups(name: string, xs: seq<string>, ys: seq<string>, response: Response, cacheTtl: nat,
                           size: nat, now: int, ghost truth: Truth)
    returns (second: Decision)
    requires xs != [] && Distinct(xs) && "" !in xs && Distinct(ys) && "" !in ys && Pieces(xs) == Pieces(ys)
    requires ys != [] && size > 0 && Trusted(response) && Honest(name, xs, response, truth)
    ensures second.complete
    ensures forall v | v in ys && v !in xs && v !in Blocked(response.results.value) :: v !in second.blocked
  {
    var client := FirstLookup(name, xs, cacheTtl, size, now, truth);
    Joins(client, name, xs, ys, now);
    client.Settle(0, response);
    second := client.Resume(1, now);
  }

  lemma OneCommaSuffices()
    ensures Pieces(["1,2"]) == Pieces(["1", "2"])
  {
    SplitFirst("1", "2", ',');
    SplitFirst("2", "", ',');
    assert "1" + [','] + "2" == "1,2";
    var parts: seq<string> := ["1", "2"];
    assert parts[1..] == ["2"] && parts[1..][1..] == [];
    assert Pieces(parts[1..]) == ["2"] && Pieces(parts) == ["1"] + ["2"];
    var whole: seq<string> := ["1,2"];
    assert whole[1..] == [] && Pieces(whole) == SplitOn("1,2", ',');
  }

  /** One lookup for the version `1,2` and one for the versions `1` and `2`: the request asks about neither `1` nor `2`,
      and unless the response names them the second lookup lets both through. */
  method OneCommaMixesLookups(name: string, response: Response, cacheTtl: nat, size: nat, now: int, ghost truth: Truth)
    returns (second: Decision)
    requires size > 0 && Trusted(response) && Honest(name, ["1,2"], response, truth)
    requires "1" !in Blocked(response.results.value) && "2" !in Blocked(response.results.value)
    ensures second.complete && "1" !in second.blocked && "2" !in second.blocked
  {
    OneCommaSuffices();
    var xs, ys := ["1,2"], ["1", "2"];
    assert "1" in ys && "2" in ys && "1" !in xs && "2" !in xs;
    second := CommaMixesLookups(name, xs, ys, response, cacheTtl, size, now, truth);
  }
}
