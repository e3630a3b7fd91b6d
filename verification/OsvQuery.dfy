/** Asking OSV: pages of one package, per-version chunks, and the two combined. */
module OsvQuery {
  import opened Base
  import opened Text
  import opened OsvRecords

  const MAX_PAGES := 8

  datatype OsvError = OsvError

  /** One page of records; a reply of the wrong shape counts as no reply. */
  datatype Page = Page(vulns: seq<Vuln>, next: Option<string>)

  datatype Verdict = Verdict(version: string, blocked: bool, ids: seq<string>)

  function VerdictOf(v: string, ids: set<string>): Verdict { Verdict(v, ids != {}, Sorted(ids)) }

  /** What OSV answers during one call: the batch endpoint for the package itself, the package endpoint for a page
      token, and the batch endpoint for a version and token. */
  datatype Upstream = Upstream(
    first: Option<Page>,
    fetch: Option<string> -> Option<Page>,
    lookup: (string, Option<string>) -> Option<Page>)

  /******* One package, page by page *******/

  /** All records on the page chain from `token`; None when a request fails or the chain is too long. */
  function Records(u: Upstream, token: Option<string>, budget: nat): Option<seq<Vuln>>
    decreases budget
  {
    if budget == 0 then None
    else match u.fetch(token)
      case None => None
      case Some(page) =>
        if page.next.None? then Some(page.vulns)
        else match Records(u, page.next, budget - 1)
          case None => None
          case Some(rest) => Some(page.vulns + rest)
  }

  /** The records the page loop gets to see before it ends, fails or gives up. */
  function Reached(u: Upstream, token: Option<string>, budget: nat): seq<Vuln>
    decreases budget
  {
    if budget == 0 then []
    else match u.fetch(token)
      case None => []
      case Some(page) => page.vulns + if page.next.None? then [] else Reached(u, page.next, budget - 1)
  }

  lemma {:induction false} ReachedIsRecords(u: Upstream, token: Option<string>, budget: nat)
    requires Records(u, token, budget).Some?
    ensures Reached(u, token, budget) == Records(u, token, budget).value
    decreases budget
  {
    var page := u.fetch(token).value;
    if page.next.Some? { ReachedIsRecords(u, page.next, budget - 1); }
  }

  /** The package's pages from a token on: each names the next, the last names none. */
  predicate IsPageChain(u: Upstream, token: Option<string>, pages: seq<Page>)
    decreases |pages|
  {
    && pages != [] && u.fetch(token) == Some(pages[0])
    && if |pages| == 1 then pages[0].next.None? else pages[0].next.Some? && IsPageChain(u, pages[0].next, pages[1..])
  }

  /** A finished page chain gives all records of its pages if it fits the limit, and an error if it does not. */
  lemma {:induction false} ChainGivesRecords(u: Upstream, token: Option<string>, pages: seq<Page>, limit: nat)
    requires IsPageChain(u, token, pages)
    ensures Records(u, token, limit).Some? <==> |pages| <= limit
    ensures |pages| <= limit ==>
      forall x :: x in Records(u, token, limit).value <==> exists i :: 0 <= i < |pages| && x in pages[i].vulns
    decreases limit
  {
    if limit > 0 && |pages| > 1 {
      ChainGivesRecords(u, pages[0].next, pages[1..], limit - 1);
      if |pages| <= limit {
        forall x ensures (exists i :: 0 <= i < |pages| && x in pages[i].vulns)
          <==> x in pages[0].vulns || exists i :: 0 <= i < |pages[1..]| && x in pages[1..][i].vulns
        {
          if i :| 0 <= i < |pages| && x in pages[i].vulns && i > 0 { assert pages[1..][i - 1] == pages[i]; }
          if i :| 0 <= i < |pages[1..]| && x in pages[1..][i].vulns { assert pages[i + 1] == pages[1..][i]; }
        }
      }
    }
  }

  /** `Raised` stands for the error, `Undecided` for the answer that cannot be given locally. */
  datatype Outcome = Raised | Undecided | Decided(verdicts: map<string, Verdict>)

  lemma AllDecidedAppend(xs: seq<Vuln>, ys: seq<Vuln>, p: Package, wanted: set<string>)
    ensures AllDecided(xs + ys, p, wanted) <==> AllDecided(xs, p, wanted) && AllDecided(ys, p, wanted)
  {
    if AllDecided(xs + ys, p, wanted) {
      forall i | 0 <= i < |xs| && IsMal(xs[i])
        ensures OsvRecords.Decided(xs[i], p, wanted)
      {
        assert (xs + ys)[i] == xs[i];
      }
      forall i | 0 <= i < |ys| && IsMal(ys[i])
        ensures OsvRecords.Decided(ys[i], p, wanted)
      {
        assert (xs + ys)[|xs| + i] == ys[i];
      }
    }
  }

  lemma Flat(xs: seq<Vuln>, ys: seq<Vuln>, zs: seq<Vuln>)
    ensures xs + (ys + zs) == xs + ys + zs
  {
  }

  /** After the pages holding `seen`: the same answer as from the start, with the pages from `token` to come. */
  ghost predicate PagesOnTrack(u: Upstream, limit: nat, seen: seq<Vuln>, token: Option<string>, budget: nat) {
    && Reached(u, None, limit) == seen + Reached(u, token, budget)
    && match Records(u, token, budget)
       case None => Records(u, None, limit).None?
       case Some(rest) => Records(u, None, limit) == Some(seen + rest)
  }

  lemma NothingMoreReached(u: Upstream, limit: nat, seen: seq<Vuln>, token: Option<string>, budget: nat)
    requires PagesOnTrack(u, limit, seen, token, budget) && (budget == 0 || u.fetch(token).None?)
    ensures Reached(u, None, limit) == seen && Records(u, None, limit).None?
  {
    assert seen + [] == seen;
  }

  lemma NextPageSeen(u: Upstream, limit: nat, seen: seq<Vuln>, token: Option<string>, budget: nat)
    requires budget > 0 && PagesOnTrack(u, limit, seen, token, budget) && u.fetch(token).Some?
    ensures var page := u.fetch(token).value;
      if page.next.Some? then PagesOnTrack(u, limit, seen + page.vulns, page.next, budget - 1)
      else Reached(u, None, limit) == seen + page.vulns && Records(u, None, limit) == Some(seen + page.vulns)
  {
    var page := u.fetch(token).value;
    if page.next.Some? {
      Flat(seen, page.vulns, Reached(u, page.next, budget - 1));
      if Records(u, page.next, budget - 1).Some? {
        Flat(seen, page.vulns, Records(u, page.next, budget - 1).value);
      }
    } else {
      assert page.vulns + [] == page.vulns;
    }
  }

  lemma SeenIsReached(u: Upstream, limit: nat, seen: seq<Vuln>, token: Option<string>, budget: nat, p: Package,
                      wanted: set<string>)
    requires budget > 0 && PagesOnTrack(u, limit, seen, token, budget) && u.fetch(token).Some?
    requires !AllDecided(u.fetch(token).value.vulns, p, wanted)
    ensures !AllDecided(Reached(u, None, limit), p, wanted)
  {
    var page := u.fetch(token).value;
    var rest := if page.next.None? then [] else Reached(u, page.next, budget - 1);
    AllDecidedAppend(page.vulns, rest, p, wanted);
    AllDecidedAppend(seen, page.vulns + rest, p, wanted);
  }

  /** Verdicts iff the chain ends within the page limit and every MAL record on it is decided locally. */
  method QueryPackageUnbatched(u: Upstream, limit: nat, p: Package, versions: seq<string>, wanted: set<string>)
    returns (r: Outcome)
    requires wanted == set v | v in versions
    ensures r.Undecided? <==> !AllDecided(Reached(u, None, limit), p, wanted)
    ensures r.Decided? <==> Records(u, None, limit).Some? && AllDecided(Records(u, None, limit).value, p, wanted)
    ensures r.Decided? ==> r.verdicts == PackageVerdicts(versions, Records(u, None, limit).value, p)
  {
    var ids: map<string, set<string>> := map v | v in wanted :: {};
    var token, pages := None, 0;
    ghost var seen: seq<Vuln> := [];
    StartOnTrack(u, limit);
    while true
      invariant pages <= limit && AllDecided(seen, p, wanted)
      invariant PagesOnTrack(u, limit, seen, token, limit - pages)
      invariant IdsSoFar(ids, seen, p, wanted)
      decreases limit - pages
    {
      ghost var budget: nat := limit - pages;
      pages := pages + 1;
      var data := if pages > limit then None else u.fetch(token);
      if data.None? {
        NothingMoreReached(u, limit, seen, token, budget);
        return Raised;
      }
      var page := data.value;
      var more := TakePage(seen, page.vulns, p, wanted, ids);
      if more.None? {
        SeenIsReached(u, limit, seen, token, budget, p, wanted);
        FailsOrUndecided(u, limit, p, wanted);
        return Undecided;
      }
      AllDecidedAppend(seen, page.vulns, p, wanted);
      NextPageSeen(u, limit, seen, token, budget);
      ids, seen, token := more.value, seen + page.vulns, page.next;
      if page.next.None? {
        assert Records(u, None, limit) == Some(seen) && Reached(u, None, limit) == seen;
        return Decided(map v | v in versions :: VerdictOf(v, ids[v]));
      }
    }
  }

  function PackageVerdicts(versions: seq<string>, vulns: seq<Vuln>, p: Package): map<string, Verdict> {
    map v | v in versions :: VerdictOf(v, MalIds(vulns, p, v))
  }

  /** An entry of a record says that this version of the package is affected. */
  ghost predicate Affects(item: Item, p: Package, v: string) {
    && item.Item? && item.package.Some? && item.package.value.0 == p.ecosystem
    && p.normalize(item.package.value.1) == Some(p.name)
    && (|| (item.versions.Some? && v in item.versions.value && v != "")
        || (item.ranges.SomeRanges? && exists range :: range in item.ranges.list && RangeCovers(range, v, p.parse)))
  }

  /** What the package's records say of one version: it lists, in order, exactly the ids starting with `MAL-` of records
      with an entry for this package and version, and is blocked iff there is one. */
  lemma AnswerOfPackage(versions: seq<string>, vulns: seq<Vuln>, p: Package, v: string)
    requires v in versions
    ensures var verdict := PackageVerdicts(versions, vulns, p)[v];
      && verdict.version == v && Ascending(verdict.ids) && (verdict.blocked <==> verdict.ids != [])
      && forall id :: id in verdict.ids <==> "MAL-" <= id && exists items: seq<Item>, item ::
           Vuln(Some(id), Some(items)) in vulns && item in items && Affects(item, p, v)
  {
    var ids := MalIds(vulns, p, v);
    SortedFacts(ids);
    forall id ensures id in ids <==> "MAL-" <= id && exists items: seq<Item>, item ::
      Vuln(Some(id), Some(items)) in vulns && item in items && Affects(item, p, v)
    {
      if id in ids {
        var x :| x in vulns && IsMal(x) && Covers(x, p, v) && x.id.value == id;
        var i :| 0 <= i < |x.affected.value| && ItemCovers(x.affected.value[i], p, v);
        CoversAffects(x.affected.value[i], p, v);
        assert x == Vuln(Some(id), Some(x.affected.value)) && x.affected.value[i] in x.affected.value;
      }
      if items: seq<Item>, item :|
        "MAL-" <= id && Vuln(Some(id), Some(items)) in vulns && item in items && Affects(item, p, v)
      {
        CoversAffects(item, p, v);
        var i :| 0 <= i < |items| && items[i] == item;
        assert Covers(Vuln(Some(id), Some(items)), p, v);
      }
    }
  }

  lemma CoversAffects(item: Item, p: Package, v: string)
    ensures ItemCovers(item, p, v) <==> Affects(item, p, v)
  {
    if item.Item? && item.ranges.SomeRanges? {
      var list := item.ranges.list;
      if range :| range in list && RangeCovers(range, v, p.parse) {
        var i :| 0 <= i < |list| && list[i] == range;
        assert RangeCovers(list[i], v, p.parse);
      }
      if i :| 0 <= i < |list| && RangeCovers(list[i], v, p.parse) { assert list[i] in list; }
    }
  }

  ghost predicate IdsSoFar(ids: map<string, set<string>>, seen: seq<Vuln>, p: Package, wanted: set<string>) {
    ids.Keys == wanted && forall v | v in wanted :: ids[v] == MalIds(seen, p, v)
  }

  method TakePage(ghost seen: seq<Vuln>, vulns: seq<Vuln>, p: Package, wanted: set<string>,
                  ids: map<string, set<string>>)
    returns (r: Option<map<string, set<string>>>)
    requires IdsSoFar(ids, seen, p, wanted)
    ensures r.Some? <==> AllDecided(vulns, p, wanted)
    ensures r.Some? ==> IdsSoFar(r.value, seen + vulns, p, wanted)
  {
    r := ApplyPackageVulns(vulns, p, wanted, ids);
    forall v { MalIdsAppend(seen, vulns, p, v); }
  }

  lemma StartOnTrack(u: Upstream, limit: nat)
    ensures PagesOnTrack(u, limit, [], None, limit)
  {
    assert [] + Reached(u, None, limit) == Reached(u, None, limit);
    if Records(u, None, limit).Some? {
      assert [] + Records(u, None, limit).value == Records(u, None, limit).value;
    }
  }

  lemma FailsOrUndecided(u: Upstream, limit: nat, p: Package, wanted: set<string>)
    requires !AllDecided(Reached(u, None, limit), p, wanted)
    ensures Records(u, None, limit).Some? ==> !AllDecided(Records(u, None, limit).value, p, wanted)
  {
    if Records(u, None, limit).Some? { ReachedIsRecords(u, None, limit); }
  }

  /******* Per-version queries *******/

  function MalOn(vulns: seq<Vuln>): set<string> { set x | x in vulns && IsMal(x) :: x.id.value }

  /** The malicious-package ids on a version's own page chain; None when a request fails or the chain is too long. */
  function VersionIds(u: Upstream, v: string, token: Option<string>, budget: nat): Option<set<string>>
    decreases budget
  {
    if budget == 0 then None
    else match u.lookup(v, token)
      case None => None
      case Some(page) =>
        if page.next.None? then Some(MalOn(page.vulns))
        else match VersionIds(u, v, page.next, budget - 1)
          case None => None
          case Some(rest) => Some(MalOn(page.vulns) + rest)
  }

  /** The pages of a version from a token on: each names the next, the last names none. */
  predicate IsChain(u: Upstream, v: string, token: Option<string>, pages: seq<Page>)
    decreases |pages|
  {
    && pages != [] && u.lookup(v, token) == Some(pages[0])
    && if |pages| == 1 then pages[0].next.None? else pages[0].next.Some? && IsChain(u, v, pages[0].next, pages[1..])
  }

  function MalOnAll(pages: seq<Page>): set<string> {
    set i, id | 0 <= i < |pages| && id in MalOn(pages[i].vulns) :: id
  }

  /** A finished chain gives the union of its pages' ids if it fits the limit, and an error if it does not. */
  lemma {:induction false} ChainGivesUnion(u: Upstream, v: string, token: Option<string>, pages: seq<Page>, limit: nat)
    requires IsChain(u, v, token, pages)
    ensures VersionIds(u, v, token, limit) == if |pages| <= limit then Some(MalOnAll(pages)) else None
    decreases limit
  {
    if limit > 0 && |pages| > 1 {
      ChainGivesUnion(u, v, pages[0].next, pages[1..], limit - 1);
      assert MalOnAll(pages) == MalOn(pages[0].vulns) + MalOnAll(pages[1..]) by {
        forall id | id in MalOnAll(pages) ensures id in MalOn(pages[0].vulns) + MalOnAll(pages[1..]) {
          var i :| 0 <= i < |pages| && id in MalOn(pages[i].vulns);
          if i > 0 { assert pages[1..][i - 1] == pages[i]; }
        }
      }
    } else if |pages| == 1 {
      assert MalOnAll(pages) == MalOn(pages[0].vulns);
    }
  }

  /** An answer comes from a finished chain. */
  lemma {:induction false} AnswerHasChain(u: Upstream, v: string, token: Option<string>, limit: nat)
    requires VersionIds(u, v, token, limit).Some?
    ensures exists pages :: IsChain(u, v, token, pages) && |pages| <= limit
    decreases limit
  {
    var page := u.lookup(v, token).value;
    if page.next.Some? {
      AnswerHasChain(u, v, page.next, limit - 1);
      var rest :| IsChain(u, v, page.next, rest) && |rest| <= limit - 1;
      assert ([page] + rest)[1..] == rest;
      assert IsChain(u, v, token, [page] + rest);
    } else {
      assert IsChain(u, v, token, [page]);
    }
  }

  /** A record on some page has this id, and it is a malicious-package one. */
  ghost predicate OnPages(pages: seq<Page>, id: string) {
    "MAL-" <= id && exists i, affected :: 0 <= i < |pages| && Vuln(Some(id), affected) in pages[i].vulns
  }

  lemma IdsOnPages(pages: seq<Page>, id: string)
    ensures id in MalOnAll(pages) <==> OnPages(pages, id)
  {
    if OnPages(pages, id) {
      var i, affected :| 0 <= i < |pages| && Vuln(Some(id), affected) in pages[i].vulns;
      assert IsMal(Vuln(Some(id), affected));
      assert id in MalOn(pages[i].vulns);
    }
    if id in MalOnAll(pages) {
      var i :| 0 <= i < |pages| && id in MalOn(pages[i].vulns);
      var x :| x in pages[i].vulns && IsMal(x) && x.id.value == id;
      assert Vuln(Some(id), x.affected) in pages[i].vulns;
    }
  }

  /** A version whose pages form a finished chain within the limit lists exactly the malicious-package ids on them, in
      order, and is blocked iff there is one. */
  lemma AnswerOfVersion(u: Upstream, limit: nat, versions: seq<string>, v: string, pages: seq<Page>)
    requires v in versions && IsChain(u, v, None, pages) && |pages| <= limit
    ensures var verdict := ChunkVerdicts(u, limit, versions)[v];
      && verdict.version == v && Ascending(verdict.ids) && (verdict.blocked <==> verdict.ids != [])
      && forall id :: id in verdict.ids <==> OnPages(pages, id)
  {
    var ids := MalOnAll(pages);
    ChainGivesUnion(u, v, None, pages, limit);
    SortedFacts(ids);
    forall id ensures id in Sorted(ids) <==> OnPages(pages, id) { IdsOnPages(pages, id); }
  }

  function TokenOf(tokens: map<string, string>, v: string): Option<string> {
    if v in tokens then Some(tokens[v]) else None
  }

  /** One batch request: every query is answered, or the request fails. */
  method PostBatch(u: Upstream, pending: seq<string>, tokens: map<string, string>) returns (r: Option<seq<Page>>)
    ensures r.None? <==> exists i | 0 <= i < |pending| :: u.lookup(pending[i], TokenOf(tokens, pending[i])).None?
    ensures r.Some? ==> |r.value| == |pending|
    ensures r.Some? ==>
      forall i | 0 <= i < |pending| :: u.lookup(pending[i], TokenOf(tokens, pending[i])) == Some(r.value[i])
  {
    var pages: seq<Page> := [];
    for i := 0 to |pending|
      invariant |pages| == i
      invariant forall j | 0 <= j < i :: u.lookup(pending[j], TokenOf(tokens, pending[j])) == Some(pages[j])
    {
      var page := u.lookup(pending[i], TokenOf(tokens, pending[i]));
      if page.None? { return None; }
      pages := pages + [page.value];
    }
    return Some(pages);
  }

  /** What is known of `v`'s chain: the ids so far, and the rest of the chain from its token. */
  ghost predicate OnTrack(u: Upstream, limit: nat, v: string, ids: set<string>, open: bool, token: Option<string>,
                          budget: nat) {
    var whole := VersionIds(u, v, None, limit);
    if open then
      match VersionIds(u, v, token, budget)
      case None => whole.None?
      case Some(rest) => whole == Some(ids + rest)
    else whole == Some(ids)
  }

  lemma NextPageOnTrack(u: Upstream, limit: nat, v: string, ids: set<string>, token: Option<string>, budget: nat,
                        page: Page)
    requires budget > 0 && u.lookup(v, token) == Some(page) && OnTrack(u, limit, v, ids, true, token, budget)
    ensures OnTrack(u, limit, v, ids + MalOn(page.vulns), page.next.Some?, page.next, budget - 1)
  {
    if page.next.Some? && VersionIds(u, v, page.next, budget - 1).Some? {
      var rest := VersionIds(u, v, page.next, budget - 1).value;
      assert ids + (MalOn(page.vulns) + rest) == ids + MalOn(page.vulns) + rest;
    }
  }

  predicate ChunkOk(u: Upstream, limit: nat, versions: seq<string>) {
    forall i | 0 <= i < |versions| :: VersionIds(u, versions[i], None, limit).Some?
  }

  function IdsOf(u: Upstream, limit: nat, v: string): set<string> {
    match VersionIds(u, v, None, limit) case Some(ids) => ids case None => {}
  }

  function ChunkVerdicts(u: Upstream, limit: nat, versions: seq<string>): map<string, Verdict> {
    map v | v in versions :: VerdictOf(v, IdsOf(u, limit, v))
  }

  lemma ChunkStart(u: Upstream, limit: nat, versions: seq<string>)
    ensures forall v | v in versions :: OnTrack(u, limit, v, {}, true, None, limit)
  {
    forall v | v in versions ensures OnTrack(u, limit, v, {}, true, None, limit) {
      match VersionIds(u, v, None, limit) case None => case Some(whole) => assert {} + whole == whole;
    }
  }

  lemma ChunkDone(u: Upstream, limit: nat, versions: seq<string>, ids: map<string, set<string>>)
    requires forall v | v in versions :: v in ids && VersionIds(u, v, None, limit) == Some(ids[v])
    ensures ChunkOk(u, limit, versions)
    ensures ChunkVerdicts(u, limit, versions) == map v | v in versions :: VerdictOf(v, ids[v])
  {
    forall i | 0 <= i < |versions| ensures VersionIds(u, versions[i], None, limit).Some? {
      assert versions[i] in versions;
    }
  }

  lemma ChunkFails(u: Upstream, limit: nat, versions: seq<string>, pending: seq<string>, tokens: map<string, string>,
                   ids: map<string, set<string>>, budget: nat)
    requires forall v | v in pending ::
      v in versions && v in ids && OnTrack(u, limit, v, ids[v], true, TokenOf(tokens, v), budget)
    requires pending != []
    requires budget == 0 || exists i | 0 <= i < |pending| :: u.lookup(pending[i], TokenOf(tokens, pending[i])).None?
    ensures !ChunkOk(u, limit, versions)
  {
    assert 0 <= 0 < |pending|;
    var i :| 0 <= i < |pending| && (budget == 0 || u.lookup(pending[i], TokenOf(tokens, pending[i])).None?);
    assert pending[i] in versions;
    assert OnTrack(u, limit, pending[i], ids[pending[i]], true, TokenOf(tokens, pending[i]), budget);
    var j :| 0 <= j < |versions| && versions[j] == pending[i];
  }

  /** Each version gets the ids of its own page chain; the chunk fails iff some chain fails or exceeds the limit. */
  method QueryChunk(u: Upstream, limit: nat, versions: seq<string>) returns (r: Result<map<string, Verdict>, OsvError>)
    requires Distinct(versions)
    ensures r.Ok? <==> ChunkOk(u, limit, versions)
    ensures r.Ok? ==> r.value == ChunkVerdicts(u, limit, versions)
  {
    var ids: map<string, set<string>> := map v | v in versions :: {};
    var pending, tokens, pages := versions, map[], 0;
    ChunkStart(u, limit, versions);
    while pending != []
      invariant pages <= limit && Distinct(pending)
      invariant forall v | v in pending :: v in versions
      invariant ids.Keys == set v | v in versions
      invariant forall v | v in versions ::
        OnTrack(u, limit, v, ids[v], v in pending, TokenOf(tokens, v), limit - pages)
      decreases limit - pages
    {
      pages := pages + 1;
      if pages > limit {
        ChunkFails(u, limit, versions, pending, tokens, ids, 0);
        return Err(OsvError);
      }
      var results := PostBatch(u, pending, tokens);
      if results.None? {
        ChunkFails(u, limit, versions, pending, tokens, ids, limit - pages + 1);
        return Err(OsvError);
      }
      ids, tokens, pending := TakePages(u, limit, versions, pending, results.value, ids, tokens, limit - pages + 1);
    }
    ChunkDone(u, limit, versions, ids);
    return Ok(map v | v in versions :: VerdictOf(v, ids[v]));
  }

  /** One reply: its ids are added, and its token, if any, keeps the version pending. */
  ghost predicate Taken(v: string, page: Page, ids: map<string, set<string>>, newIds: map<string, set<string>>,
                        newTokens: map<string, string>, next: seq<string>)
    requires v in ids && v in newIds
  {
    && newIds[v] == ids[v] + MalOn(page.vulns) && (v in next <==> page.next.Some?)
    && (page.next.Some? ==> TokenOf(newTokens, v) == page.next)
  }

  method TakePages(u: Upstream, limit: nat, versions: seq<string>, pending: seq<string>, results: seq<Page>,
                   ids: map<string, set<string>>, tokens: map<string, string>, budget: nat)
    returns (newIds: map<string, set<string>>, newTokens: map<string, string>, next: seq<string>)
    requires budget > 0 && Distinct(pending) && |results| == |pending|
    requires forall v | v in pending :: v in versions
    requires ids.Keys == set v | v in versions
    requires forall i | 0 <= i < |pending| :: u.lookup(pending[i], TokenOf(tokens, pending[i])) == Some(results[i])
    requires forall v | v in versions :: OnTrack(u, limit, v, ids[v], v in pending, TokenOf(tokens, v), budget)
    ensures newIds.Keys == ids.Keys && Distinct(next) && forall v | v in next :: v in versions
    ensures forall v | v in versions :: OnTrack(u, limit, v, newIds[v], v in next, TokenOf(newTokens, v), budget - 1)
  {
    newIds, newTokens, next := AddReplies(pending, results, ids, tokens);
    forall v | v in versions ensures OnTrack(u, limit, v, newIds[v], v in next, TokenOf(newTokens, v), budget - 1) {
      if v in pending {
        var j :| 0 <= j < |pending| && pending[j] == v;
        assert Taken(pending[j], results[j], ids, newIds, newTokens, next);
        NextPageOnTrack(u, limit, v, ids[v], TokenOf(tokens, v), budget, results[j]);
      }
    }
  }

  /** The first `i` replies are taken. */
  ghost predicate RepliesTaken(pending: seq<string>, results: seq<Page>, i: nat, ids: map<string, set<string>>,
                               newIds: map<string, set<string>>, newTokens: map<string, string>, next: seq<string>)
    requires i <= |pending| == |results| && newIds.Keys == ids.Keys
    requires forall j | 0 <= j < |pending| :: pending[j] in ids
  {
    forall j | 0 <= j < i :: Taken(pending[j], results[j], ids, newIds, newTokens, next)
  }

  /** What else is known then: the other versions have no new ids, and only versions that were answered go on. */
  ghost predicate RestKept(pending: seq<string>, i: nat, ids: map<string, set<string>>,
                           newIds: map<string, set<string>>, next: seq<string>)
    requires i <= |pending|
  {
    && newIds.Keys == ids.Keys && Distinct(next) && (forall v | v in next :: v in pending[..i])
    && (forall v | v in ids && v !in pending[..i] :: newIds[v] == ids[v])
  }

  /** What taking one reply leaves: its ids added, its token stored, its version pending if it has one. */
  ghost predicate TakesOne(v: string, page: Page, newIds: map<string, set<string>>, moreIds: map<string, set<string>>,
                           newTokens: map<string, string>, moreTokens: map<string, string>, next: seq<string>,
                           more: seq<string>)
    requires v in newIds
  {
    && moreIds == newIds[v := newIds[v] + MalOn(page.vulns)]
    && (if page.next.Some? then moreTokens == newTokens[v := page.next.value] && more == next + [v]
        else moreTokens == newTokens && more == next)
  }

  /** Another version's reply stays taken. */
  lemma StaysTaken(w: string, reply: Page, ids: map<string, set<string>>, v: string, page: Page,
                   newIds: map<string, set<string>>, moreIds: map<string, set<string>>, newTokens: map<string, string>,
                   moreTokens: map<string, string>, next: seq<string>, more: seq<string>)
    requires w in ids && w in newIds && v in newIds && w != v && Taken(w, reply, ids, newIds, newTokens, next)
    requires TakesOne(v, page, newIds, moreIds, newTokens, moreTokens, next, more)
    ensures Taken(w, reply, ids, moreIds, moreTokens, more)
  {
  }

  lemma NextIsNew(pending: seq<string>, i: nat)
    requires i < |pending| && Distinct(pending)
    ensures pending[i] !in pending[..i] && forall v :: v in pending[..i + 1] <==> v in pending[..i] || v == pending[i]
  {
    assert pending[..i + 1] == pending[..i] + [pending[i]];
  }

  lemma RestStaysKept(pending: seq<string>, page: Page, i: nat, ids: map<string, set<string>>,
                      newIds: map<string, set<string>>, moreIds: map<string, set<string>>,
                      newTokens: map<string, string>, moreTokens: map<string, string>, next: seq<string>,
                      more: seq<string>)
    requires i < |pending| && Distinct(pending) && pending[i] in ids && RestKept(pending, i, ids, newIds, next)
    requires TakesOne(pending[i], page, newIds, moreIds, newTokens, moreTokens, next, more)
    ensures RestKept(pending, i + 1, ids, moreIds, more)
  {
    NextIsNew(pending, i);
  }

  lemma OneMoreTaken(pending: seq<string>, results: seq<Page>, i: nat, ids: map<string, set<string>>,
                     newIds: map<string, set<string>>, moreIds: map<string, set<string>>,
                     newTokens: map<string, string>, moreTokens: map<string, string>, next: seq<string>,
                     more: seq<string>)
    requires i < |pending| == |results| && Distinct(pending) && forall j | 0 <= j < |pending| :: pending[j] in ids
    requires newIds.Keys == moreIds.Keys == ids.Keys && newIds[pending[i]] == ids[pending[i]] && pending[i] !in next
    requires RepliesTaken(pending, results, i, ids, newIds, newTokens, next)
    requires TakesOne(pending[i], results[i], newIds, moreIds, newTokens, moreTokens, next, more)
    ensures RepliesTaken(pending, results, i + 1, ids, moreIds, moreTokens, more)
  {
    forall j | 0 <= j < i ensures Taken(pending[j], results[j], ids, moreIds, moreTokens, more) {
      StaysTaken(pending[j], results[j], ids, pending[i], results[i], newIds, moreIds, newTokens, moreTokens, next,
                 more);
    }
    TakesOwn(pending[i], results[i], ids, newIds, moreIds, newTokens, moreTokens, next, more);
  }

  lemma TakesOwn(v: string, page: Page, ids: map<string, set<string>>, newIds: map<string, set<string>>,
                 moreIds: map<string, set<string>>, newTokens: map<string, string>, moreTokens: map<string, string>,
                 next: seq<string>, more: seq<string>)
    requires v in ids && v in newIds && newIds[v] == ids[v] && v !in next
    requires TakesOne(v, page, newIds, moreIds, newTokens, moreTokens, next, more)
    ensures Taken(v, page, ids, moreIds, moreTokens, more)
  {
  }

  method AddReplies(pending: seq<string>, results: seq<Page>, ids: map<string, set<string>>,
                    tokens: map<string, string>)
    returns (newIds: map<string, set<string>>, newTokens: map<string, string>, next: seq<string>)
    requires Distinct(pending) && |results| == |pending| && forall v | v in pending :: v in ids
    ensures newIds.Keys == ids.Keys && Distinct(next) && forall v | v in next :: v in pending
    ensures forall v | v in ids && v !in pending :: newIds[v] == ids[v]
    ensures forall j | 0 <= j < |pending| :: Taken(pending[j], results[j], ids, newIds, newTokens, next)
  {
    newIds, newTokens, next := ids, tokens, [];
    assert forall j | 0 <= j < |pending| :: pending[j] in pending;
    for i := 0 to |pending|
      invariant RestKept(pending, i, ids, newIds, next)
      invariant RepliesTaken(pending, results, i, ids, newIds, newTokens, next)
    {
      var version, result := pending[i], results[i];
      ghost var wasIds, wasTokens, was := newIds, newTokens, next;
      NextIsNew(pending, i);
      newIds := newIds[version := newIds[version] + MalOn(result.vulns)];
      if result.next.Some? {
        newTokens := newTokens[version := result.next.value];
        next := next + [version];
      }
      RestStaysKept(pending, result, i, ids, wasIds, newIds, wasTokens, newTokens, was, next);
      OneMoreTaken(pending, results, i, ids, wasIds, newIds, wasTokens, newTokens, was, next);
    }
    assert pending[..|pending|] == pending;
  }

  /******* Chunks in any completion order *******/

  function ChunkCount(n: nat, size: nat): nat
    requires size > 0
  {
    (n + size - 1) / size
  }

  function ChunkAt(versions: seq<string>, size: nat, k: nat): seq<string>
    requires size > 0
  {
    var start := k * size;
    if start >= |versions| then [] else versions[start..if start + size <= |versions| then start + size else |versions|]
  }

  /** Every index lies in exactly one chunk. */
  lemma ChunkOfIndex(n: nat, size: nat, i: nat)
    requires size > 0 && i < n
    ensures i / size < ChunkCount(n, size) && (i / size) * size <= i < (i / size) * size + size
  {
    assert i == (i / size) * size + i % size;
    var k, c := i / size, ChunkCount(n, size);
    if c <= k {
      assert n + size - 1 < (c + 1) * size;
      assert (c + 1) * size <= (k + 1) * size by { MulMonotone(c + 1, k + 1, size); }
      assert false;
    }
  }

  lemma MulMonotone(a: nat, b: nat, c: nat)
    requires a <= b
    ensures a * c <= b * c
  {
  }

  lemma ChunkHolds(versions: seq<string>, size: nat, i: nat)
    requires size > 0 && i < |versions|
    ensures i / size < ChunkCount(|versions|, size) && versions[i] in ChunkAt(versions, size, i / size)
  {
    ChunkOfIndex(|versions|, size, i);
    var start := (i / size) * size;
    assert ChunkAt(versions, size, i / size)[i - start] == versions[i];
  }

  lemma ChunkIsDistinct(versions: seq<string>, size: nat, k: nat)
    requires size > 0 && Distinct(versions)
    ensures Distinct(ChunkAt(versions, size, k))
    ensures forall v | v in ChunkAt(versions, size, k) :: v in versions
  {
    var chunk, start := ChunkAt(versions, size, k), k * size;
    forall i | 0 <= i < |chunk| ensures start + i < |versions| && chunk[i] == versions[start + i] {}
  }

  /** The order in which the chunks' requests complete: every chunk once. */
  predicate Completion(order: seq<nat>, n: nat) {
    (forall i | 0 <= i < |order| :: order[i] < n) && (forall k: nat | k < n :: k in order)
  }

  function ChunksOf(versions: seq<string>, size: nat): seq<seq<string>>
    requires size > 0
  {
    seq(ChunkCount(|versions|, size), k requires 0 <= k => ChunkAt(versions, size, k))
  }

  predicate InSome(v: string, chunks: seq<seq<string>>) { exists k | 0 <= k < |chunks| :: v in chunks[k] }

  /** The chunks hold exactly the versions, each chunk without repetition. */
  ghost predicate Cover(chunks: seq<seq<string>>, versions: seq<string>) {
    && (forall k | 0 <= k < |chunks| :: Distinct(chunks[k]) && forall v | v in chunks[k] :: v in versions)
    && (forall i | 0 <= i < |versions| :: InSome(versions[i], chunks))
  }

  lemma ChunksCover(versions: seq<string>, size: nat)
    requires size > 0 && Distinct(versions)
    ensures Cover(ChunksOf(versions, size), versions)
  {
    var chunks := ChunksOf(versions, size);
    forall k | 0 <= k < |chunks| ensures Distinct(chunks[k]) && forall v | v in chunks[k] :: v in versions {
      ChunkIsDistinct(versions, size, k);
    }
    forall i | 0 <= i < |versions| ensures InSome(versions[i], chunks) {
      ChunkHolds(versions, size, i);
      assert versions[i] in chunks[i / size];
    }
  }

  /** The merged answers of some chunks: only true verdicts, and all of those chunks' versions. */
  ghost predicate Merged(out: map<string, Verdict>, u: Upstream, limit: nat, versions: seq<string>,
                         chunks: seq<seq<string>>) {
    && (forall v | v in out :: v in versions && out[v] == VerdictOf(v, IdsOf(u, limit, v)))
    && (forall k | 0 <= k < |chunks| :: ChunkOk(u, limit, chunks[k]))
    && (forall k | 0 <= k < |chunks| :: forall v | v in chunks[k] :: v in out)
  }

  function Reordered(chunks: seq<seq<string>>, order: seq<nat>): seq<seq<string>>
    requires forall i | 0 <= i < |order| :: order[i] < |chunks|
  {
    seq(|order|, i requires 0 <= i < |order| => chunks[order[i]])
  }

  lemma ReorderedCover(chunks: seq<seq<string>>, order: seq<nat>, versions: seq<string>)
    requires Cover(chunks, versions) && Completion(order, |chunks|)
    ensures Cover(Reordered(chunks, order), versions)
  {
    var again := Reordered(chunks, order);
    forall i | 0 <= i < |versions| ensures InSome(versions[i], again) {
      var k: nat :| k < |chunks| && versions[i] in chunks[k];
      assert k in order;
      var j :| 0 <= j < |order| && order[j] == k;
      assert again[j] == chunks[k];
    }
  }

  lemma MergedAll(out: map<string, Verdict>, u: Upstream, limit: nat, versions: seq<string>, chunks: seq<seq<string>>)
    requires Merged(out, u, limit, versions, chunks) && Cover(chunks, versions)
    ensures ChunkOk(u, limit, versions) && out == ChunkVerdicts(u, limit, versions)
  {
    forall i | 0 <= i < |versions| ensures versions[i] in out && VersionIds(u, versions[i], None, limit).Some? {
      var k :| 0 <= k < |chunks| && versions[i] in chunks[k];
      var j :| 0 <= j < |chunks[k]| && chunks[k][j] == versions[i];
      assert ChunkOk(u, limit, chunks[k]);
    }
  }

  lemma BadChunk(u: Upstream, limit: nat, versions: seq<string>, chunk: seq<string>)
    requires !ChunkOk(u, limit, chunk) && forall v | v in chunk :: v in versions
    ensures !ChunkOk(u, limit, versions)
  {
    var k :| 0 <= k < |chunk| && VersionIds(u, chunk[k], None, limit).None?;
    assert chunk[k] in versions;
    var j :| 0 <= j < |versions| && versions[j] == chunk[k];
  }

  /** For unique versions, any batch size and any completion order the answer is the one of a single chunk. */
  method QueryOsvVersions(u: Upstream, limit: nat, versions: seq<string>, batchSize: nat, order: seq<nat>)
    returns (r: Result<map<string, Verdict>, OsvError>)
    requires Distinct(versions) && batchSize > 0 && Completion(order, ChunkCount(|versions|, batchSize))
    ensures r.Ok? <==> ChunkOk(u, limit, versions)
    ensures r.Ok? ==> r.value == ChunkVerdicts(u, limit, versions)
  {
    var chunks := ChunksOf(versions, batchSize);
    if |chunks| <= 1 {
      r := QueryChunk(u, limit, versions);
    } else {
      ChunksCover(versions, batchSize);
      ReorderedCover(chunks, order, versions);
      r := MergeChunks(u, limit, versions, Reordered(chunks, order));
    }
  }

  /** Answers merged in the order in which the chunks complete. */
  method MergeChunks(u: Upstream, limit: nat, versions: seq<string>, completed: seq<seq<string>>)
    returns (r: Result<map<string, Verdict>, OsvError>)
    requires Cover(completed, versions)
    ensures r.Ok? <==> ChunkOk(u, limit, versions)
    ensures r.Ok? ==> r.value == ChunkVerdicts(u, limit, versions)
  {
    var out: map<string, Verdict> := map[];
    for i := 0 to |completed|
      invariant Merged(out, u, limit, versions, completed[..i])
    {
      var answer := QueryChunk(u, limit, completed[i]);
      if answer.Err? {
        BadChunk(u, limit, versions, completed[i]);
        return Err(answer.error);
      }
      out := out + answer.value;
    }
    assert completed[..|completed|] == completed;
    MergedAll(out, u, limit, versions, completed);
    return Ok(out);
  }

  /******* Package first, then per version *******/

  /** The package's records and the per-version answers tell the same truth, whenever they tell anything. */
  ghost predicate Agrees(u: Upstream, limit: nat, p: Package, truth: string -> set<string>) {
    && (forall v :: VersionIds(u, v, None, limit).Some? ==> IdsOf(u, limit, v) == truth(v))
    && (Records(u, None, limit).Some? ==> RecordsTell(Records(u, None, limit).value, p, truth))
    && (u.first.Some? && u.first.value.next.None? ==> RecordsTell(u.first.value.vulns, p, truth))
  }

  /** Where the records decide a set of versions, they give the true ids. */
  ghost predicate RecordsTell(vulns: seq<Vuln>, p: Package, truth: string -> set<string>) {
    forall wanted: set<string> | AllDecided(vulns, p, wanted) ::
      forall v | v in wanted :: MalIds(vulns, p, v) == truth(v)
  }

  function TrueVerdicts(versions: seq<string>, truth: string -> set<string>): map<string, Verdict> {
    map v | v in versions :: VerdictOf(v, truth(v))
  }

  method QueryOsv(u: Upstream, limit: nat, p: Package, first: Option<Page>, versions: seq<string>, batchSize: nat,
                  order: seq<nat>, ghost truth: string -> set<string>)
    returns (r: Result<map<string, Verdict>, OsvError>)
    requires Distinct(versions) && batchSize > 0 && Completion(order, ChunkCount(|versions|, batchSize))
    requires Agrees(u, limit, p, truth)
    requires first.Some? && first.value.next.None? ==> RecordsTell(first.value.vulns, p, truth)
    ensures r.Ok? ==> r.value == TrueVerdicts(versions, truth)
    ensures r.Err? ==> first.None? || Records(u, None, limit).None? || !ChunkOk(u, limit, versions)
  {
    var outcome := QueryPackage(u, limit, p, first, versions);
    if outcome.Raised? {
      if Records(u, None, limit).Some? { ReachedIsRecords(u, None, limit); }
      return Err(OsvError);
    }
    if outcome.Decided? {
      assert versions != [] ==> versions[0] in (set v | v in versions);
      return Ok(outcome.verdicts);
    }
    r := QueryOsvVersions(u, limit, versions, batchSize, order);
    if r.Ok? {
      forall v | v in versions ensures IdsOf(u, limit, v) == truth(v) {
        var i :| 0 <= i < |versions| && versions[i] == v;
      }
    }
  }

  /** The first page decides when it is the only one; otherwise all pages are read again. */
  method QueryPackage(u: Upstream, limit: nat, p: Package, first: Option<Page>, versions: seq<string>)
    returns (r: Outcome)
    ensures first.None? ==> r.Raised?
    ensures first.Some? && first.value.next.None? ==>
      && (r == Undecided <==> !AllDecided(first.value.vulns, p, set v | v in versions)) && !r.Raised?
      && (r.Decided? ==> r.verdicts == PackageVerdicts(versions, first.value.vulns, p))
    ensures first.Some? && first.value.next.Some? ==>
      && (r.Undecided? <==> !AllDecided(Reached(u, None, limit), p, set v | v in versions))
      && (r.Decided?
          <==> Records(u, None, limit).Some? && AllDecided(Records(u, None, limit).value, p, set v | v in versions))
      && (r.Decided? ==> r.verdicts == PackageVerdicts(versions, Records(u, None, limit).value, p))
  {
    if first.None? { return Raised; }
    var wanted := set v | v in versions;
    if first.value.next.Some? {
      r := QueryPackageUnbatched(u, limit, p, versions, wanted);
      return;
    }
    var none: map<string, set<string>> := map v | v in wanted :: {};
    assert [] + first.value.vulns == first.value.vulns;
    var ids := TakePage([], first.value.vulns, p, wanted, none);
    if ids.None? { return Undecided; }
    return Decided(map v | v in versions :: VerdictOf(v, ids.value[v]));
  }
}
