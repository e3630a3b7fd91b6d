/** OsvClient.decide: caches in front of OSV that never change an answer. */
module Decide {
  import opened Base
  import opened Text
  import opened Rules
  import opened Compile
  import opened OsvRecords
  import opened OsvQuery
  import opened OrderedMap
  import opened VerdictCache
  import BatchProtocol

  /** An adapter as `decide` uses it. */
  datatype Service = Service(a: Adapter, osvEcosystem: string, exactAllows: (string, string) -> bool, parse: Parser)

  function PackageOf(s: Service, name: string): OsvRecords.Package {
    OsvRecords.Package(s.osvEcosystem, name, s.a.normalizeName, s.parse)
  }

  /******* Allow overrides *******/

  predicate Names(rule: Rule, s: Service) {
    rule.ecosystem == s.a.ecosystem && rule.action.Allow? && rule.target.Package?
  }

  predicate Overrides(rule: Rule, s: Service, name: string, version: string) {
    && Names(rule, s) && s.a.normalizeName(rule.target.name) == Some(name)
    && (rule.versions.Some? ==> s.a.exact(rule.versions.value).Some? && s.exactAllows(rule.versions.value, version))
  }

  /** The first matching allow rule decides; None when a rule's name cannot be normalized before that. */
  function AllowOverrideApplies(rules: seq<Rule>, s: Service, name: string, version: string): Option<bool> {
    if rules == [] then Some(false)
    else if Names(rules[0], s) && s.a.normalizeName(rules[0].target.name).None? then None
    else if Overrides(rules[0], s, name, version) then Some(true)
    else AllowOverrideApplies(rules[1..], s, name, version)
  }

  lemma {:induction false} OverrideExists(rules: seq<Rule>, s: Service, name: string, version: string)
    requires Accepted(rules, s.a)
    ensures AllowOverrideApplies(rules, s, name, version)
         == Some(exists r :: r in rules && Overrides(r, s, name, version))
  {
    if rules != [] {
      assert rules[0] in rules && rules == [rules[0]] + rules[1..];
      OverrideExists(rules[1..], s, name, version);
    }
  }

  /** An allow rule for the whole package, or one whose pin allows the version. */
  ghost predicate AllowCovers(rules: seq<Rule>, s: Service, name: string, version: string) {
    || WholeRule(rules, s.a, name, Allow)
    || exists r :: r in rules && About(r, s.a, name) && r.action.Allow? && r.versions.Some?
                   && s.exactAllows(r.versions.value, version)
  }

  /** With the rules of a policy that compiles, the override applies iff an allow rule of this package covers the
      version. */
  lemma OverrideMeaning(rules: seq<Rule>, s: Service, name: string, version: string)
    requires Accepted(rules, s.a)
    ensures AllowOverrideApplies(rules, s, name, version) == Some(AllowCovers(rules, s, name, version))
  {
    OverrideExists(rules, s, name, version);
    if r :| r in rules && Overrides(r, s, name, version) { assert About(r, s.a, name); }
    if WholeRule(rules, s.a, name, Allow) {
      var r :| r in rules && IsWhole(r, s.a, name, Allow);
      assert Overrides(r, s, name, version);
    }
    if r :| r in rules && About(r, s.a, name) && r.action.Allow? && r.versions.Some?
            && s.exactAllows(r.versions.value, version)
    {
      assert Overrides(r, s, name, version);
    }
  }

  /******* Versions *******/

  method UniqueVersions(versions: seq<string>) returns (r: Option<seq<string>>)
    ensures r.Some? <==> "" !in versions
    ensures r.Some? ==> r.value == Unique(versions)
  {
    var out, seen: set<string> := [], {};
    for i := 0 to |versions|
      invariant "" !in versions[..i] && out == Unique(versions[..i])
      invariant forall v :: v in seen <==> v in versions[..i]
    {
      assert versions[..i + 1][..i] == versions[..i];
      assert versions[..i + 1] == versions[..i] + [versions[i]];
      if versions[i] == "" { assert versions[i] in versions; return None; }
      if versions[i] !in seen {
        seen := seen + {versions[i]};
        out := out + [versions[i]];
      }
    }
    assert versions[..|versions|] == versions;
    return Some(out);
  }

  /******* The page cache *******/

  datatype CachedPage = CachedPage(storedAt: int, page: Page, malicious: bool)

  predicate HasMalicious(page: Page) { exists x | x in page.vulns :: IsMal(x) }

  lemma MaliciousPages(page: Page)
    ensures HasMalicious(page) <==> exists id, affected :: Vuln(Some(id), affected) in page.vulns && "MAL-" <= id
  {
    if x :| x in page.vulns && IsMal(x) { assert Vuln(Some(x.id.value), x.affected) in page.vulns; }
    if id, affected :| Vuln(Some(id), affected) in page.vulns && "MAL-" <= id {
      assert IsMal(Vuln(Some(id), affected));
    }
  }

  type PageKey = (string, string)

  predicate Stale(e: CachedPage, now: int, ttl: Lifetimes) {
    now - e.storedAt >= if e.malicious then ttl.positive else ttl.negative
  }

  /** Only the oldest pages are gone, and no more of them than needed. */
  ghost predicate OldestGone(before: map<PageKey, CachedPage>, after: map<PageKey, CachedPage>, size: nat) {
    && after.Keys <= before.Keys && (forall k | k in after :: after[k] == before[k])
    && (|before| <= size ==> after == before) && (|before| > size ==> |after| == size)
    && (forall victim, k | victim in before && victim !in after && k in after ::
          before[victim].storedAt <= after[k].storedAt)
  }

  predicate IsOldest(pages: map<PageKey, CachedPage>, k: PageKey) {
    k in pages && forall j | j in pages :: pages[k].storedAt <= pages[j].storedAt
  }

  lemma {:induction false} OldestExists(pages: map<PageKey, CachedPage>)
    requires pages != map[]
    ensures exists k :: IsOldest(pages, k)
    decreases |pages|
  {
    var k :| k in pages;
    var rest := pages - {k};
    assert pages.Keys == rest.Keys + {k};
    if rest == map[] {
      assert IsOldest(pages, k);
    } else {
      OldestExists(rest);
      var l :| IsOldest(rest, l);
      assert IsOldest(pages, if pages[k].storedAt <= pages[l].storedAt then k else l);
    }
  }

  /** `sorted(pages, key=stored_at)[:overflow]` goes, one oldest page after another. */
  method DropOldest(pages: map<PageKey, CachedPage>, size: nat) returns (left: map<PageKey, CachedPage>)
    ensures OldestGone(pages, left, size)
  {
    left := pages;
    while |left| > size
      invariant left.Keys <= pages.Keys && (forall k | k in left :: left[k] == pages[k])
      invariant (|pages| <= size ==> left == pages) && (|pages| > size ==> |left| >= size)
      invariant forall victim, k | victim in pages && victim !in left && k in left ::
        pages[victim].storedAt <= left[k].storedAt
      decreases |left|
    {
      OldestExists(left);
      var k :| IsOldest(left, k);
      assert left.Keys == (left - {k}).Keys + {k};
      left := left - {k};
    }
  }

  /******* The client *******/

  datatype Status = StatusOk | Degraded | Disabled | PolicyUnavailable

  datatype DecisionResult = DecisionResult(status: Status, verdicts: seq<Verdict>)

  datatype DecideError = UnknownEcosystem | BadName | BadVersion

  type Truth = (string, string, string) -> set<string>

  function TruthOf(truth: Truth, ecosystem: string, name: string): string -> set<string> {
    v => truth(ecosystem, name, v)
  }

  function Allowed(v: string): Verdict { Verdict(v, false, []) }

  function AllAllowed(status: Status, versions: seq<string>): (r: DecisionResult)
    ensures |r.verdicts| == |versions|
    ensures forall i | 0 <= i < |versions| :: r.verdicts[i] == Verdict(versions[i], false, [])
  {
    DecisionResult(status, seq(|versions|, i requires 0 <= i < |versions| => Allowed(versions[i])))
  }

  /** The verdict without any cache. */
  ghost function Uncached(rules: seq<Rule>, s: Service, name: string, v: string, truth: Truth): Verdict {
    if AllowOverrideApplies(rules, s, name, v) == Some(true) then Allowed(v)
    else VerdictOf(v, truth(s.a.ecosystem, name, v))
  }

  /** Without any cache, under rules that compile: the true ids in order, unless an allow rule covers the version. */
  lemma UncachedMeaning(rules: seq<Rule>, s: Service, name: string, v: string, truth: Truth)
    requires Accepted(rules, s.a)
    ensures var verdict := Uncached(rules, s, name, v, truth);
      && verdict.version == v && (verdict.blocked <==> verdict.ids != []) && Ascending(verdict.ids)
      && forall id :: id in verdict.ids <==> id in truth(s.a.ecosystem, name, v) && !AllowCovers(rules, s, name, v)
  {
    OverrideMeaning(rules, s, name, v);
    SortedFacts(truth(s.a.ecosystem, name, v));
  }

  /** Services that share an OSV ecosystem are the same one. */
  ghost predicate Aliased(services: map<string, Service>) {
    forall e, f | e in services && f in services && services[e].osvEcosystem == services[f].osvEcosystem ::
      services[e] == services[f]
  }

  ghost predicate TrueEntries(data: map<Key, Entry>, truth: Truth) {
    forall k | k in data :: data[k].verdict == VerdictOf(k.2, truth(k.0, k.1, k.2))
  }

  /** A page that stands alone tells the truth about its package. */
  ghost predicate TruePage(page: Page, s: Service, name: string, truth: Truth) {
    page.next.None? ==> RecordsTell(page.vulns, OsvRecords.Package(s.osvEcosystem, name, s.a.normalizeName, s.parse),
                                    TruthOf(truth, s.a.ecosystem, name))
  }

  ghost predicate TruePages(pages: map<PageKey, CachedPage>, services: map<string, Service>, truth: Truth) {
    forall k, e | k in pages && e in services && services[e].osvEcosystem == k.0 ::
      TruePage(pages[k].page, services[e], k.1, truth)
  }

  /** The replies of one call agree with the truth about the package it asks for. */
  ghost predicate Honest(up: Upstream, limit: nat, s: Service, name: string, truth: Truth) {
    Agrees(up, limit, OsvRecords.Package(s.osvEcosystem, name, s.a.normalizeName, s.parse),
           TruthOf(truth, s.a.ecosystem, name))
  }

  /** No request of this call fails, and no page chain is too long. */
  predicate AllAnswered(up: Upstream, limit: nat, versions: seq<string>) {
    up.first.Some? && Records(up, None, limit).Some? && ChunkOk(up, limit, versions)
  }

  /******* The first page comes out of the batching protocol *******/

  /** A reply to a package query is a page of true records about that package. */
  ghost function TrueReplies(services: map<string, Service>, truth: Truth): BatchProtocol.Tells {
    (key: BatchProtocol.Key, page: Page) =>
      forall e | e in services && services[e].osvEcosystem == key.0 :: TruePage(page, services[e], key.1, truth)
  }

  /** What a thread that ran the protocol hands on: its page, or nothing when its batch failed. */
  function FirstOf(outcome: BatchProtocol.Outcome): Option<Page> {
    if outcome.Got? then Some(outcome.page.body) else None
  }

  /** In any interleaving of any lookups, a thread's first page is a true page of the package it asked for, or its
      batch failed: just what is asked of `first` in the replies of one call. */
  lemma BatchedFirstPageIsTrue(keys: seq<BatchProtocol.Key>, moves: seq<BatchProtocol.Move>, t: nat,
                               services: map<string, Service>, e: string, name: string, truth: Truth)
    requires BatchProtocol.IsRun(BatchProtocol.Initial(keys), moves) && t < |keys|
    requires BatchProtocol.RunTells(BatchProtocol.Initial(keys), moves, TrueReplies(services, truth))
    requires e in services && keys[t] == (services[e].osvEcosystem, name)
    ensures |BatchProtocol.After(BatchProtocol.Initial(keys), moves).threads| == |keys|
    ensures var phase := BatchProtocol.After(BatchProtocol.Initial(keys), moves).threads[t].phase;
      phase.Done? ==> FirstOf(phase.outcome).Some? ==> TruePage(FirstOf(phase.outcome).value, services[e], name, truth)
  {
    BatchProtocol.PagesTell(keys, moves, t, TrueReplies(services, truth));
  }

  /** The override bars of one call: the versions an allow rule covers. */
  predicate IsAllowed(rules: seq<Rule>, s: Service, name: string, v: string) {
    AllowOverrideApplies(rules, s, name, v) == Some(true)
  }

  predicate OverridesKnown(rules: seq<Rule>, s: Service, name: string, versions: seq<string>) {
    forall v | v in versions :: AllowOverrideApplies(rules, s, name, v).Some?
  }

  method AllowedVersions(rules: seq<Rule>, s: Service, name: string, versions: seq<string>)
    returns (r: Option<set<string>>)
    ensures r.Some? <==> OverridesKnown(rules, s, name, versions)
    ensures r.Some? ==> r.value == set v | v in versions && IsAllowed(rules, s, name, v)
  {
    var allowed := {};
    for i := 0 to |versions|
      invariant OverridesKnown(rules, s, name, versions[..i])
      invariant allowed == set v | v in versions[..i] && IsAllowed(rules, s, name, v)
    {
      assert versions[..i + 1] == versions[..i] + [versions[i]];
      var applies := AllowOverrideApplies(rules, s, name, versions[i]);
      if applies.None? { assert versions[i] in versions; return None; }
      if applies.value { allowed := allowed + {versions[i]}; }
    }
    assert versions[..|versions|] == versions;
    return Some(allowed);
  }

  predicate Holds(data: map<Key, Entry>, key: Key, verdict: Verdict) { key in data && data[key].verdict == verdict }

  function KeyFor(s: Service, name: string, v: string): Key { (s.a.ecosystem, name, v) }

  /** The versions seen so far, the i-th read at `readAt[i]`: allowed, or cached with what was live then, or missed. */
  ghost predicate Split(data: map<Key, Entry>, ttl: Lifetimes, s: Service, name: string, seen: seq<string>,
                        readAt: seq<int>, allowed: set<string>, cached: map<string, Verdict>, misses: seq<string>)
  {
    && Distinct(misses) && |readAt| == |seen|
    && (forall v | v in misses || v in cached :: v in seen && v !in allowed)
    && (forall i | 0 <= i < |seen| && seen[i] !in allowed ::
          ReadAs(Lookup(data, KeyFor(s, name, seen[i]), readAt[i], ttl), seen[i], cached, misses))
  }

  /** A hit is cached as it was read, and a miss is missed. */
  predicate ReadAs(hit: Option<Verdict>, v: string, cached: map<string, Verdict>, misses: seq<string>) {
    match hit
    case Some(verdict) => v in cached && cached[v] == verdict && v !in misses
    case None => v !in cached && v in misses
  }

  /** Clock readings of one call, none before `since` or after `now`. */
  predicate Readings(readAt: seq<int>, since: int, now: int) {
    && (forall i | 0 <= i < |readAt| :: since <= readAt[i] <= now)
    && (forall i, j | 0 <= i < j < |readAt| :: readAt[i] <= readAt[j])
  }

  lemma ReadingsNext(readAt: seq<int>, since: int, at: int, now: int)
    requires Readings(readAt, since, at) && since <= at <= now
    ensures Readings(readAt + [at], since, now)
  {
  }

  lemma SplitNext(data: map<Key, Entry>, ttl: Lifetimes, s: Service, name: string, seen: seq<string>, readAt: seq<int>,
                  v: string, now: int, allowed: set<string>, cached: map<string, Verdict>, misses: seq<string>)
    requires Split(data, ttl, s, name, seen, readAt, allowed, cached, misses) && v !in seen
    ensures var hit := Lookup(data, KeyFor(s, name, v), now, ttl);
      if v in allowed then Split(data, ttl, s, name, seen + [v], readAt + [now], allowed, cached, misses)
      else if hit.None? then Split(data, ttl, s, name, seen + [v], readAt + [now], allowed, cached, misses + [v])
      else Split(data, ttl, s, name, seen + [v], readAt + [now], allowed, cached[v := hit.value], misses)
  {
    forall i | 0 <= i < |seen| ensures seen[i] != v {}
  }

  class OsvClient {
    const services: map<string, Service>
    const batchSize: nat
    const maxPages: nat
    const cache: Cache
    var pages: map<PageKey, CachedPage>
    var clock: int
    ghost const truth: Truth

    ghost predicate Valid()
      reads this`pages, cache
    {
      && batchSize > 0 && maxPages > 0 && Aliased(services)
      && cache.Valid() && TrueEntries(cache.data, truth) && TruePages(pages, services, truth)
    }

    constructor (services: map<string, Service>, batchSize: nat, cache: Cache, ghost truth: Truth)
      requires batchSize > 0 && Aliased(services) && cache.Valid() && TrueEntries(cache.data, truth)
      ensures Valid() && this.services == services && this.cache == cache && this.truth == truth && pages == map[]
      ensures this.batchSize == batchSize && maxPages == MAX_PAGES
    {
      this.services, this.batchSize, maxPages, this.cache, this.truth := services, batchSize, MAX_PAGES, cache, truth;
      pages, clock := map[], 0;
    }

    /** Reads the clock: any time not before the last one read. */
    method Now() returns (t: int)
      modifies this`clock
      ensures old(clock) <= t == clock
    {
      t :| clock <= t;
      clock := t;
    }

    method GetCachedPage(key: PageKey) returns (r: Option<Page>)
      requires Valid()
      modifies this`pages, this`clock
      ensures Valid() && old(clock) <= clock
      ensures r == if key in old(pages) && !Stale(old(pages)[key], clock, cache.ttl) then Some(old(pages)[key].page)
                   else None
      ensures pages == if r.Some? then old(pages) else old(pages) - {key}
      ensures r.Some? <==>
        && key in old(pages)
        && clock - old(pages)[key].storedAt
           < if old(pages)[key].malicious then cache.ttl.positive else cache.ttl.negative
    {
      if key !in pages { return None; }
      var entry := pages[key];
      var now := Now();
      if Stale(entry, now, cache.ttl) {
        pages := pages - {key};
        return None;
      }
      return Some(entry.page);
    }

    method StorePage(key: PageKey, page: Page)
      requires Valid()
      requires forall e | e in services && services[e].osvEcosystem == key.0 ::
        TruePage(page, services[e], key.1, truth)
      modifies this`pages, this`clock
      ensures Valid() && old(clock) <= clock
      ensures OldestGone(old(pages)[key := CachedPage(clock, page, HasMalicious(page))], pages, cache.maxEntries)
      ensures key in pages ==>
        (pages[key].malicious <==> exists id, affected :: Vuln(Some(id), affected) in page.vulns && "MAL-" <= id)
    {
      var now := Now();
      MaliciousPages(page);
      pages := DropOldest(pages[key := CachedPage(now, page, HasMalicious(page))], cache.maxEntries);
    }

    /** The package's first page: cached, or asked for and then cached; None when the request fails. */
    method FirstPage(s: Service, name: string, up: Upstream) returns (r: Option<Page>)
      requires Valid() && Serves(s) && Honest(up, maxPages, s, name, truth)
      modifies this`pages, this`clock
      ensures Valid() && old(clock) <= clock
      ensures r.Some? ==> TruePage(r.value, s, name, truth)
      ensures r == up.first
           || ((s.osvEcosystem, name) in old(pages) && r == Some(old(pages)[(s.osvEcosystem, name)].page))
    {
      var key := (s.osvEcosystem, name);
      r := GetCachedPage(key);
      if r.Some? { return; }
      r := up.first;
      if r.Some? { StorePage(key, r.value); }
    }

    ghost predicate Serves(s: Service) { exists e :: e in services && services[e] == s }

    /** The cached verdicts of the versions no rule allows, and the versions that have none. */
    method ReadCache(s: Service, name: string, versions: seq<string>, allowed: set<string>)
      returns (cached: map<string, Verdict>, misses: seq<string>, ghost readAt: seq<int>)
      requires Valid() && Distinct(versions)
      modifies this`clock
      ensures old(clock) <= clock && Readings(readAt, old(clock), clock)
      ensures Split(cache.data, cache.ttl, s, name, versions, readAt, allowed, cached, misses)
    {
      cached, misses, readAt := map[], [], [];
      for i := 0 to |versions|
        invariant old(clock) <= clock && Readings(readAt, old(clock), clock)
        invariant Split(cache.data, cache.ttl, s, name, versions[..i], readAt, allowed, cached, misses)
      {
        var v := versions[i];
        assert versions[..i + 1] == versions[..i] + [v] && v !in versions[..i];
        ghost var at := clock;
        if v !in allowed {
          var hit;
          hit, at := ReadEntry(KeyFor(s, name, v));
          SplitNext(cache.data, cache.ttl, s, name, versions[..i], readAt, v, at, allowed, cached, misses);
          if hit.None? { misses := misses + [v]; } else { cached := cached[v := hit.value]; }
        } else {
          SplitNext(cache.data, cache.ttl, s, name, versions[..i], readAt, v, at, allowed, cached, misses);
        }
        ReadingsNext(readAt, old(clock), at, clock);
        readAt := readAt + [at];
      }
      assert versions[..|versions|] == versions;
    }

    /** The live entry of a key, at the clock reading it was looked up at. */
    method ReadEntry(key: Key) returns (hit: Option<Verdict>, ghost at: int)
      modifies this`clock
      ensures old(clock) <= at == clock && hit == Lookup(cache.data, key, at, cache.ttl)
    {
      var now := Now();
      at := now;
      hit := cache.Get(key, now);
    }

    method WriteOne(key: Key, verdict: Verdict)
      requires Valid() && verdict == VerdictOf(key.2, truth(key.0, key.1, key.2))
      modifies this`clock, cache
      ensures Valid() && old(clock) <= clock
      ensures AfterSet(old(cache.data), cache.data, key, verdict, clock, cache.ttl, cache.maxEntries)
    {
      var now := Now();
      cache.Set(key, verdict, now);
      SetKeepsTruth(old(cache.data), cache.data, key, verdict, now, cache.ttl, cache.maxEntries, truth);
    }

    /** Caches every fetched verdict; with room for all of them, all of them stay. */
    method WriteAll(s: Service, name: string, versions: seq<string>, fetched: map<string, Verdict>)
      requires Valid() && fetched == TrueVerdicts(versions, TruthOf(truth, s.a.ecosystem, name))
      modifies this`clock, cache
      ensures Valid() && old(clock) <= clock
      ensures |old(cache.data)| + |versions| <= cache.maxEntries ==>
        AllCached(cache.data, s, name, versions, |versions|, fetched, old(clock))
    {
      for i := 0 to |versions|
        invariant Valid() && old(clock) <= clock
        invariant |old(cache.data)| + |versions| <= cache.maxEntries ==>
          && |cache.data| + |versions| - i <= cache.maxEntries
          && AllCached(cache.data, s, name, versions, i, fetched, old(clock))
      {
        ghost var before := cache.data;
        WriteOne(KeyFor(s, name, versions[i]), fetched[versions[i]]);
        if |before| < cache.maxEntries {
          OneMoreCached(before, cache.data, s, name, versions, i, fetched, old(clock), clock, cache.ttl,
                        cache.maxEntries);
        }
      }
    }

    /** Caches what was fetched and writes the file when that is due. */
    method WriteCache(s: Service, name: string, versions: seq<string>, fetched: map<string, Verdict>)
      requires Valid() && fetched == TrueVerdicts(versions, TruthOf(truth, s.a.ecosystem, name))
      modifies this`clock, cache
      ensures Valid() && old(clock) <= clock
      ensures (|old(cache.data)| + |versions| <= cache.maxEntries
               && clock - old(clock) < cache.ttl.positive && clock - old(clock) < cache.ttl.negative) ==>
        forall i | 0 <= i < |versions| ::
          Lookup(cache.data, KeyFor(s, name, versions[i]), clock, cache.ttl) == Some(fetched[versions[i]])
    {
      WriteAll(s, name, versions, fetched);
      var now := Now();
      ghost var before := cache.data;
      var _ := cache.Persist(now);
      if AllCached(before, s, name, versions, |versions|, fetched, old(clock)) {
        FreshOnesAnswer(before, cache.data, s, name, versions, fetched, old(clock), now, cache.ttl);
      }
    }

    /** Asks OSV about the misses and, on success, caches what it says. */
    method Fetch(s: Service, name: string, misses: seq<string>, up: Upstream)
      returns (r: Result<map<string, Verdict>, OsvError>)
      requires Valid() && Serves(s) && Honest(up, maxPages, s, name, truth) && Distinct(misses)
      modifies this`pages, this`clock, cache
      ensures Valid() && old(clock) <= clock
      ensures r.Ok? ==> r.value == TrueVerdicts(misses, TruthOf(truth, s.a.ecosystem, name))
      ensures r.Err? ==> cache.data == old(cache.data) && !AllAnswered(up, maxPages, misses)
      ensures (r.Ok? && |old(cache.data)| + |misses| <= cache.maxEntries
               && clock - old(clock) < cache.ttl.positive && clock - old(clock) < cache.ttl.negative) ==>
        forall i | 0 <= i < |misses| ::
          Lookup(cache.data, KeyFor(s, name, misses[i]), clock, cache.ttl) == Some(r.value[misses[i]])
    {
      var first := FirstPage(s, name, up);
      AnyCompletion(ChunkCount(|misses|, batchSize));
      var order :| Completion(order, ChunkCount(|misses|, batchSize));
      r := QueryOsv(up, maxPages, PackageOf(s, name), first, misses, batchSize, order,
                    TruthOf(truth, s.a.ecosystem, name));
      if r.Ok? { WriteCache(s, name, misses, r.value); }
    }

    /** The caller's name and versions can be asked about. */
    predicate Askable(ecosystem: string, name: string, versions: seq<string>) {
      ecosystem in services && services[ecosystem].a.normalizeName(name).Some? && "" !in versions
    }

    /** An "ok" answer is the cache-free one; a degraded one never blocks more, and keeps every live cached verdict. */
    ghost predicate Faithful(res: DecisionResult, rules: seq<Rule>, s: Service, name: string, ordered: seq<string>,
                             was: map<Key, Entry>, now: int) {
      && res.status in {StatusOk, Degraded} && |res.verdicts| == |ordered|
      && (forall i | 0 <= i < |ordered| ::
            || res.verdicts[i] == Uncached(rules, s, name, ordered[i], truth)
            || (res.status == Degraded && res.verdicts[i] == Verdict(ordered[i], false, [])
                && Lookup(was, KeyFor(s, name, ordered[i]), now, cache.ttl).None?))
    }

    method Decide(policy: Option<Policy>, ecosystem: string, name: string, versions: seq<string>, up: Upstream)
      returns (r: Result<DecisionResult, DecideError>)
      requires Valid()
      requires Askable(ecosystem, name, versions) ==>
        Honest(up, maxPages, services[ecosystem], services[ecosystem].a.normalizeName(name).value, truth)
      modifies this`pages, this`clock, cache
      ensures Valid() && old(clock) <= clock
      ensures r.Err? ==> cache.data == old(cache.data) && pages == old(pages)
      ensures !Askable(ecosystem, name, versions) ==> r.Err?
      ensures Askable(ecosystem, name, versions) ==>
        var s := services[ecosystem]; var n := s.a.normalizeName(name).value;
        match policy
        case None => r == Ok(AllAllowed(PolicyUnavailable, Unique(versions)))
        case Some(p) =>
          if !p.osvMaliciousPackages then r == Ok(AllAllowed(Disabled, Unique(versions)))
          else
            && (r.Ok? <==> OverridesKnown(p.rules, s, n, Unique(versions)))
            && (r.Ok? ==> Faithful(r.value, p.rules, s, n, Unique(versions), old(cache.data), clock))
            && (r.Ok? && r.value.status == Degraded ==>
                  && !AllAnswered(up, maxPages, Unique(versions))
                  && exists i | 0 <= i < |Unique(versions)| ::
                       Missed(old(cache.data), clock, cache.ttl, p.rules, s, n, Unique(versions)[i]))
    {
      if ecosystem !in services { return Err(UnknownEcosystem); }
      var s := services[ecosystem];
      var normalized := s.a.normalizeName(name);
      if normalized.None? { return Err(BadName); }
      var unique := UniqueVersions(versions);
      if unique.None? { return Err(BadVersion); }
      var n, ordered := normalized.value, unique.value;
      UniqueFacts(versions);
      if policy.None? { return Ok(AllAllowed(PolicyUnavailable, ordered)); }
      if !policy.value.osvMaliciousPackages { return Ok(AllAllowed(Disabled, ordered)); }
      var allowed := AllowedVersions(policy.value.rules, s, n, ordered);
      if allowed.None? { return Err(BadName); }
      assert Serves(s);
      var res := Answer(policy.value.rules, s, n, ordered, allowed.value, up);
      return Ok(res);
    }

    method Answer(ghost rules: seq<Rule>, s: Service, name: string, ordered: seq<string>, allowed: set<string>,
                  up: Upstream)
      returns (res: DecisionResult)
      requires Valid() && Serves(s) && Honest(up, maxPages, s, name, truth) && Distinct(ordered)
      requires allowed == set v | v in ordered && IsAllowed(rules, s, name, v)
      modifies this`pages, this`clock, cache
      ensures Valid() && old(clock) <= clock
      ensures Faithful(res, rules, s, name, ordered, old(cache.data), clock)
      ensures res.status == Degraded ==> !AllAnswered(up, maxPages, ordered)
      ensures res.status == Degraded ==>
        exists i | 0 <= i < |ordered| :: Missed(old(cache.data), clock, cache.ttl, rules, s, name, ordered[i])
    {
      var cached, misses, readAt := ReadCache(s, name, ordered, allowed);
      ghost var was := cache.data;
      var status, fetched := StatusOk, map[];
      if misses != [] {
        var answer := Fetch(s, name, misses, up);
        if answer.Err? {
          status := Degraded;
          MissesWereAsked(up, maxPages, ordered, misses);
          assert misses[0] in misses;
          var i :| 0 <= i < |ordered| && ordered[i] == misses[0];
          assert ReadAs(Lookup(was, KeyFor(s, name, ordered[i]), readAt[i], cache.ttl), ordered[i], cached, misses);
          assert Missed(was, clock, cache.ttl, rules, s, name, ordered[i]);
        } else {
          fetched := answer.value;
        }
      }
      var verdicts := Assemble(ordered, allowed, cached, fetched);
      res := DecisionResult(status, verdicts);
      forall i | 0 <= i < |ordered|
        ensures verdicts[i] == Uncached(rules, s, name, ordered[i], truth) ||
          (status == Degraded && verdicts[i] == Allowed(ordered[i])
           && Lookup(was, KeyFor(s, name, ordered[i]), clock, cache.ttl).None?)
      {
        assert ordered[i] in ordered;
        PickedIsUncached(was, readAt, clock, cache.ttl, rules, s, name, ordered, i, allowed, cached, misses, fetched,
                         truth);
      }
    }
  }

  /** What is picked for a version is the uncached verdict, or it was missed and nothing was fetched. */
  lemma PickedIsUncached(was: map<Key, Entry>, readAt: seq<int>, now: int, ttl: Lifetimes, rules: seq<Rule>,
                         s: Service, name: string, ordered: seq<string>, i: nat, allowed: set<string>,
                         cached: map<string, Verdict>, misses: seq<string>, fetched: map<string, Verdict>, truth: Truth)
    requires Split(was, ttl, s, name, ordered, readAt, allowed, cached, misses) && TrueEntries(was, truth)
    requires i < |ordered| && readAt[i] <= now
    requires allowed == set w | w in ordered && IsAllowed(rules, s, name, w)
    requires fetched == map[] || fetched == TrueVerdicts(misses, TruthOf(truth, s.a.ecosystem, name))
    ensures var picked, v := Pick(ordered[i], allowed, cached, fetched), ordered[i];
      picked == Uncached(rules, s, name, v, truth) ||
      (fetched == map[] && misses != [] && picked == Allowed(v) && Lookup(was, KeyFor(s, name, v), now, ttl).None?)
  {
    assert ordered[i] in ordered;
  }

  /** No rule allows the version, and no live verdict is cached. */
  ghost predicate Missed(data: map<Key, Entry>, now: int, ttl: Lifetimes, rules: seq<Rule>, s: Service, name: string,
                         v: string) {
    !IsAllowed(rules, s, name, v) && Lookup(data, KeyFor(s, name, v), now, ttl).None?
  }

  lemma MissesWereAsked(up: Upstream, limit: nat, ordered: seq<string>, misses: seq<string>)
    requires !AllAnswered(up, limit, misses) && forall v | v in misses :: v in ordered
    ensures !AllAnswered(up, limit, ordered)
  {
    if !ChunkOk(up, limit, misses) { BadChunk(up, limit, ordered, misses); }
  }

  lemma AnyCompletion(n: nat)
    ensures exists order :: Completion(order, n)
  {
    var order: seq<nat> := seq(n, i requires 0 <= i => i);
    forall k: nat | k < n ensures k in order { assert order[k] == k; }
    assert Completion(order, n);
  }

  method Assemble(ordered: seq<string>, allowed: set<string>, cached: map<string, Verdict>,
                  fetched: map<string, Verdict>)
    returns (verdicts: seq<Verdict>)
    ensures |verdicts| == |ordered|
    ensures forall i | 0 <= i < |ordered| :: verdicts[i] == Pick(ordered[i], allowed, cached, fetched)
  {
    verdicts := [];
    for i := 0 to |ordered|
      invariant |verdicts| == i && forall j | 0 <= j < i :: verdicts[j] == Pick(ordered[j], allowed, cached, fetched)
    {
      verdicts := verdicts + [Pick(ordered[i], allowed, cached, fetched)];
    }
  }

  /** Allowed first, then cached, then fetched; a version nothing is known of is let through. */
  function Pick(v: string, allowed: set<string>, cached: map<string, Verdict>, fetched: map<string, Verdict>): Verdict {
    if v in allowed then Allowed(v) else if v in cached then cached[v] else if v in fetched then fetched[v]
    else Allowed(v)
  }

  /** The first `n` verdicts are cached, none of them stored before `since`. */
  ghost predicate AllCached(data: map<Key, Entry>, s: Service, name: string, versions: seq<string>, n: nat,
                            fetched: map<string, Verdict>, since: int) {
    && n <= |versions|
    && forall i | 0 <= i < n :: var key := KeyFor(s, name, versions[i]);
         versions[i] in fetched && Holds(data, key, fetched[versions[i]]) && data[key].storedAt >= since
  }

  lemma OneMoreCached(before: map<Key, Entry>, after: map<Key, Entry>, s: Service, name: string, versions: seq<string>,
                      n: nat, fetched: map<string, Verdict>, since: int, now: int, ttl: Lifetimes, maxEntries: nat)
    requires n < |versions| && versions[n] in fetched && since <= now && |before| < maxEntries
    requires AfterSet(before, after, KeyFor(s, name, versions[n]), fetched[versions[n]], now, ttl, maxEntries)
    ensures |after| <= |before| + 1
    ensures AllCached(before, s, name, versions, n, fetched, since) ==>
      AllCached(after, s, name, versions, n + 1, fetched, since)
  {
    var key := KeyFor(s, name, versions[n]);
    assert before[key := Entry(now, fetched[versions[n]])].Keys == before.Keys + {key};
  }

  /** What was stored during this call and less than a lifetime ago is still answered after expired entries are
      dropped. */
  lemma FreshOnesAnswer(before: map<Key, Entry>, after: map<Key, Entry>, s: Service, name: string,
                        versions: seq<string>, fetched: map<string, Verdict>, since: int, now: int, ttl: Lifetimes)
    requires AllCached(before, s, name, versions, |versions|, fetched, since)
    requires after == before || after == Live(before, now, ttl)
    ensures now - since < ttl.positive && now - since < ttl.negative ==>
      forall i | 0 <= i < |versions| ::
        Lookup(after, KeyFor(s, name, versions[i]), now, ttl) == Some(fetched[versions[i]])
  {
  }

  lemma SetKeepsTruth(before: map<Key, Entry>, after: map<Key, Entry>, key: Key, verdict: Verdict, now: int,
                      ttl: Lifetimes, maxEntries: nat, truth: Truth)
    requires TrueEntries(before, truth) && verdict == VerdictOf(key.2, truth(key.0, key.1, key.2))
    requires AfterSet(before, after, key, verdict, now, ttl, maxEntries)
    ensures TrueEntries(after, truth)
  {
  }

  /******* Restarts *******/

  /** A cache file whose readable entries tell the truth. */
  ghost predicate TrueFile(raws: seq<Raw>, truth: Truth) {
    forall i | 0 <= i < |raws| && raws[i].Raw? && |raws[i].key| == 3 ::
      var k := KeyOf(raws[i]); EntryOf(raws[i]).verdict == VerdictOf(k.2, truth(k.0, k.1, k.2))
  }

  /** What a client writes of true entries is a true file. */
  lemma SnapshotIsTrue(order: seq<Key>, data: map<Key, Entry>, truth: Truth)
    requires Lists(order, data) && TrueEntries(data, truth)
    ensures TrueFile(Snapshot(order, data), truth)
  {
    forall i | 0 <= i < |order| ensures var k := KeyOf(Snapshot(order, data)[i]);
      EntryOf(Snapshot(order, data)[i]).verdict == VerdictOf(k.2, truth(k.0, k.1, k.2))
    {
      SnapshotEntry(order, data, i, 0, Lifetimes(0, 0));
    }
  }

  /** What is loaded from a true file is true, wherever reading stops. */
  lemma {:induction false} LoadedIsTrue(raws: seq<Raw>, n: nat, now: int, ttl: Lifetimes, truth: Truth)
    requires n <= |raws| && TrueFile(raws, truth)
    ensures TrueEntries(Loaded(raws[..n], now, ttl), truth)
  {
    if n > 0 {
      LoadedIsTrue(raws, n - 1, now, ttl, truth);
      LoadedNext(raws, n - 1, now, ttl);
    }
  }

  /** A client that starts from a cache file. */
  method StartFrom(file: seq<Raw>, services: map<string, Service>, batchSize: nat, ttl: Lifetimes, maxEntries: nat,
                   persistMinInterval: int, now: int, ghost truth: Truth)
    returns (client: OsvClient)
    requires batchSize > 0 && Aliased(services) && TrueFile(file, truth)
    ensures fresh(client) && client.Valid() && client.services == services && client.truth == truth
    ensures exists n: nat :: StopsAt(file, n, now, ttl, maxEntries) && client.cache.data == Loaded(file[..n], now, ttl)
  {
    var cache := new Cache(ttl, maxEntries, persistMinInterval);
    cache.Load(file, now);
    ghost var n: nat :| StopsAt(file, n, now, ttl, maxEntries) && cache.data == Loaded(file[..n], now, ttl);
    LoadedIsTrue(file, n, now, ttl, truth);
    client := new OsvClient(services, batchSize, cache, truth);
  }

  /** A process ends after it wrote its file, and the next one starts from it: its client tells the same truth. */
  method Restart(was: OsvClient, wroteAt: int, startedAt: int) returns (next: Option<OsvClient>)
    requires was.Valid()
    modifies was.cache
    ensures next.None? <==> wroteAt - old(was.cache.lastPersist) < was.cache.persistMinInterval
    ensures next.Some? ==> fresh(next.value) && next.value.Valid() && next.value.truth == was.truth
  {
    var file := was.cache.Persist(wroteAt);
    if file.None? { return None; }
    SnapshotIsTrue(was.cache.order, was.cache.data, was.truth);
    var client := StartFrom(file.value, was.services, was.batchSize, was.cache.ttl, was.cache.maxEntries,
                            was.cache.persistMinInterval, startedAt, was.truth);
    return Some(client);
  }
}
