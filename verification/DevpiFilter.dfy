/** The constrained index at request time: listing, download, and the cached malicious-package lookup. */
module DevpiFilter {
  import opened Base
  import opened DevpiConstraints
  import opened OrderedMap
  import opened Pep440
  import opened ReleaseOrder

  /******* What a request sees *******/

  /** A version as devpi reads it: a plain release, or a legacy version. */
  datatype LinkVersion = Plain(text: string, release: Release) | Legacy(text: string)

  /** `version` is None when no version can be read off the link. */
  datatype Link = Link(version: Option<LinkVersion>, filename: string)

  /** Upload times by file name and by version, at the time of the request. */
  datatype Metadata = Metadata(files: map<string, int>, versions: map<string, seq<int>>)

  /** One index and one request: its settings, the clock, the upstream metadata, and the blocked subset of asked
      versions. */
  datatype Request = Request(
    constraints: Constraints,
    minAge: int,
    osv: bool,
    now: int,
    metadata: Metadata,
    query: set<string> -> set<string>)

  /** The lookup answers for each version by itself. */
  ghost predicate Pointwise(query: set<string> -> set<string>, malicious: string -> bool) {
    forall vs: set<string> :: query(vs) == set v | v in vs && malicious(v)
  }

  /******* Decisions *******/

  datatype Opening = NoOpinion | Inspect(filter: Option<seq<Spec>>, includeLegacy: bool)

  function ConstraintDecision(r: Request, project: string): Opening {
    var filter := if project in r.constraints.specs then Some(r.constraints.specs[project]) else None;
    if filter.None? && !r.constraints.all && r.minAge <= 0 && !r.osv then NoOpinion
    else Inspect(filter, filter.None? || filter.value == [])
  }

  predicate VersionMatchesFilter(v: LinkVersion, filter: Option<seq<Spec>>, all: bool, includeLegacy: bool) {
    match (filter, v)
    case (None, _) => !all
    case (_, Legacy(_)) => includeLegacy
    case (Some(specs), Plain(_, release)) => MeetsAll(specs, release)
  }

  /** An unknown upload time is not old enough. */
  predicate FileOldEnough(r: Request, filename: string) {
    filename in r.metadata.files && r.now - r.metadata.files[filename] >= r.minAge
  }

  predicate VersionOldEnough(r: Request, version: string) {
    version in r.metadata.versions && exists t | t in r.metadata.versions[version] :: r.now - t >= r.minAge
  }

  function NonEmpty(versions: set<string>): set<string> { set v | v in versions && v != "" }

  /** Only non-empty versions are asked about, and only when a service is configured. */
  function BlockedVersions(r: Request, versions: set<string>): set<string> {
    var unique := NonEmpty(versions);
    if !r.osv || unique == {} then {} else r.query(unique)
  }

  /** The download gate. */
  predicate LinkAllowed(r: Request, project: string, link: Link) {
    match ConstraintDecision(r, project)
    case NoOpinion => true
    case Inspect(filter, includeLegacy) =>
      && link.version.Some?
      && VersionMatchesFilter(link.version.value, filter, r.constraints.all, includeLegacy)
      && (r.minAge > 0 ==> FileOldEnough(r, link.filename))
      && !(r.osv && link.version.value.text in BlockedVersions(r, {link.version.value.text}))
  }

  /******* The listing *******/

  /** One item of the listing before the lookup: its version, and whether it is allowed so far. */
  datatype Pending = Pending(version: Option<string>, allowed: bool)

  function PendingOf<T>(r: Request, item: T, filter: Option<seq<Spec>>, includeLegacy: bool,
                        versionOf: T -> Option<LinkVersion>, ageOk: T -> bool): Pending {
    match versionOf(item)
    case None => Pending(None, false)
    case Some(v) =>
      Pending(Some(v.text),
              VersionMatchesFilter(v, filter, r.constraints.all, includeLegacy) && (r.minAge > 0 ==> ageOk(item)))
  }

  function PendingsOf<T>(r: Request, items: seq<T>, opening: Opening, versionOf: T -> Option<LinkVersion>,
                         ageOk: T -> bool): seq<Pending>
    requires opening.Inspect?
  {
    seq(|items|,
        i requires 0 <= i < |items| => PendingOf(r, items[i], opening.filter, opening.includeLegacy, versionOf, ageOk))
  }

  function Asked(pending: seq<Pending>): set<string> {
    set p | p in pending && p.allowed && p.version.Some? :: p.version.value
  }

  predicate Passes(p: Pending, blocked: set<string>) {
    p.allowed && (p.version.Some? ==> p.version.value !in blocked)
  }

  lemma PrefixNext<T>(xs: seq<T>, i: nat)
    requires i < |xs|
    ensures xs[..i + 1] == xs[..i] + [xs[i]]
  {
  }

  /** The generic filter of the listings; None when it expresses no opinion. */
  method FilterIter<T>(r: Request, project: string, items: seq<T>, versionOf: T -> Option<LinkVersion>,
                       ageOk: T -> bool)
    returns (out: Option<seq<bool>>)
    ensures out.None? <==> ConstraintDecision(r, project).NoOpinion?
    ensures out.Some? ==> |out.value| == |items|
    ensures out.Some? && project !in r.constraints.specs && r.constraints.all ==>
      forall i | 0 <= i < |items| :: !out.value[i]
    ensures out.Some? && (project in r.constraints.specs || !r.constraints.all) ==>
      var pending := PendingsOf(r, items, ConstraintDecision(r, project), versionOf, ageOk);
      forall i | 0 <= i < |items| :: out.value[i] == Passes(pending[i], BlockedVersions(r, Asked(pending)))
  {
    var opening := ConstraintDecision(r, project);
    if opening.NoOpinion? { return None; }
    if opening.filter.None? && r.constraints.all {
      return Some(seq(|items|, i => false));
    }
    var pending: seq<Pending> := [];
    for i := 0 to |items|
      invariant pending == PendingsOf(r, items, opening, versionOf, ageOk)[..i]
    {
      var version := versionOf(items[i]);
      if version.None? {
        pending := pending + [Pending(None, false)];
      } else if !VersionMatchesFilter(version.value, opening.filter, r.constraints.all, opening.includeLegacy) {
        pending := pending + [Pending(Some(version.value.text), false)];
      } else if r.minAge > 0 && !ageOk(items[i]) {
        pending := pending + [Pending(Some(version.value.text), false)];
      } else {
        pending := pending + [Pending(Some(version.value.text), true)];
      }
      PrefixNext(PendingsOf(r, items, opening, versionOf, ageOk), i);
    }
    assert pending == PendingsOf(r, items, opening, versionOf, ageOk);
    var blocked := if r.osv then BlockedVersions(r, Asked(pending)) else {};
    var verdicts: seq<bool> := [];
    for i := 0 to |pending|
      invariant |verdicts| == i && forall j | 0 <= j < i :: verdicts[j] == Passes(pending[j], blocked)
    {
      verdicts := verdicts + [Passes(pending[i], blocked)];
    }
    return Some(verdicts);
  }

  /******* Listing and download agree *******/

  /** What the generic filter means for one item, whatever else is listed with it. */
  predicate ItemAllowed(r: Request, project: string, version: Option<LinkVersion>, oldEnough: bool) {
    match ConstraintDecision(r, project)
    case NoOpinion => true
    case Inspect(filter, includeLegacy) =>
      && version.Some?
      && VersionMatchesFilter(version.value, filter, r.constraints.all, includeLegacy)
      && (r.minAge > 0 ==> oldEnough)
      && !(r.osv && version.value.text in BlockedVersions(r, {version.value.text}))
  }

  lemma PassesIsAllowed<T>(r: Request, project: string, items: seq<T>, i: nat, versionOf: T -> Option<LinkVersion>,
                           ageOk: T -> bool, malicious: string -> bool)
    requires Pointwise(r.query, malicious) && i < |items| && ConstraintDecision(r, project).Inspect?
    ensures var pending := PendingsOf(r, items, ConstraintDecision(r, project), versionOf, ageOk);
      Passes(pending[i], BlockedVersions(r, Asked(pending)))
      <==> ItemAllowed(r, project, versionOf(items[i]), ageOk(items[i]))
  {
    var pending := PendingsOf(r, items, ConstraintDecision(r, project), versionOf, ageOk);
    if pending[i].allowed && r.osv {
      var text := pending[i].version.value;
      assert pending[i] in pending && text in Asked(pending);
      OnlyOwnMatters(r, Asked(pending), text, malicious);
    }
  }

  function AgeOkOf(r: Request): Link -> bool { (link: Link) => FileOldEnough(r, link.filename) }

  function VersionOf(link: Link): Option<LinkVersion> { link.version }

  /** Whether a version is blocked does not depend on what else is asked. */
  lemma OnlyOwnMatters(r: Request, asked: set<string>, text: string, malicious: string -> bool)
    requires Pointwise(r.query, malicious) && text in asked
    ensures text in BlockedVersions(r, asked) <==> text in BlockedVersions(r, {text})
  {
    var all, own := NonEmpty(asked), NonEmpty({text});
    assert text != "" ==> text in all && text in own;
    assert text in r.query(all) <==> text in all && malicious(text);
    assert text in r.query(own) <==> text in own && malicious(text);
  }

  /** The i-th verdict of the generic filter depends on the i-th item alone. */
  method FilterEach<T>(r: Request, project: string, items: seq<T>, versionOf: T -> Option<LinkVersion>,
                       ageOk: T -> bool, ghost malicious: string -> bool)
    returns (out: Option<seq<bool>>)
    requires Pointwise(r.query, malicious)
    ensures out.None? ==> ConstraintDecision(r, project).NoOpinion?
    ensures out.Some? ==> |out.value| == |items| && forall i | 0 <= i < |items| ::
      out.value[i] == ItemAllowed(r, project, versionOf(items[i]), ageOk(items[i]))
  {
    out := FilterIter(r, project, items, versionOf, ageOk);
    if out.Some? {
      forall i | 0 <= i < |items|
        ensures out.value[i] == ItemAllowed(r, project, versionOf(items[i]), ageOk(items[i]))
      {
        PassesIsAllowed(r, project, items, i, versionOf, ageOk, malicious);
      }
    }
  }

  /** The i-th verdict of the file listing is the download gate's; expressing no opinion means allowing all. */
  method SimpleLinksFilter(r: Request, project: string, links: seq<Link>, ghost malicious: string -> bool)
    returns (out: Option<seq<bool>>)
    requires Pointwise(r.query, malicious)
    ensures out.None? ==> forall i | 0 <= i < |links| :: LinkAllowed(r, project, links[i])
    ensures out.Some? ==>
      |out.value| == |links| && forall i | 0 <= i < |links| :: out.value[i] == LinkAllowed(r, project, links[i])
  {
    out := FilterEach(r, project, links, VersionOf, AgeOkOf(r), malicious);
  }

  /******* Files and versions *******/

  predicate VersionAllowed(r: Request, project: string, v: LinkVersion) {
    ItemAllowed(r, project, Some(v), VersionOldEnough(r, v.text))
  }

  function SomeVersion(v: LinkVersion): Option<LinkVersion> { Some(v) }

  function VersionAgeOf(r: Request): LinkVersion -> bool { (v: LinkVersion) => VersionOldEnough(r, v.text) }

  method VersionsFilter(r: Request, project: string, versions: seq<LinkVersion>, ghost malicious: string -> bool)
    returns (out: Option<seq<bool>>)
    requires Pointwise(r.query, malicious)
    ensures out.None? ==> forall i | 0 <= i < |versions| :: VersionAllowed(r, project, versions[i])
    ensures out.Some? ==> |out.value| == |versions|
    ensures out.Some? ==> forall i | 0 <= i < |versions| :: out.value[i] == VersionAllowed(r, project, versions[i])
  {
    out := FilterEach(r, project, versions, SomeVersion, VersionAgeOf(r), malicious);
  }

  /******* What the gate and the listing allow *******/

  /** The constraints admit a version: a legacy one unless its project is listed with comparators. */
  predicate ConstraintsAdmit(cs: Constraints, project: string, v: LinkVersion) {
    match v
    case Plain(_, release) => Admits(cs, project, release)
    case Legacy(_) => if project in cs.specs then cs.specs[project] == [] else !cs.all
  }

  /** Nothing is configured that could deny anything of this project. */
  predicate Unconfigured(r: Request, project: string) {
    project !in r.constraints.specs && !r.constraints.all && r.minAge <= 0 && !r.osv
  }

  lemma BlockedIsMalicious(r: Request, text: string, malicious: string -> bool)
    requires Pointwise(r.query, malicious)
    ensures text in BlockedVersions(r, {text}) <==> r.osv && text != "" && malicious(text)
  {
    var own := NonEmpty({text});
    if text != "" { assert text in own; }
    assert text in r.query(own) <==> text in own && malicious(text);
  }

  /** A file can be downloaded iff nothing is configured for its project, or it has a version that the constraints
      admit and that is not malicious, and a known upload time that is old enough. */
  lemma GateIsExact(r: Request, project: string, link: Link, malicious: string -> bool)
    requires Pointwise(r.query, malicious)
    ensures LinkAllowed(r, project, link) <==>
      || Unconfigured(r, project)
      || (&& link.version.Some? && ConstraintsAdmit(r.constraints, project, link.version.value)
          && (r.minAge > 0 ==>
                link.filename in r.metadata.files && r.now - r.metadata.files[link.filename] >= r.minAge)
          && (r.osv && link.version.value.text != "" ==> !malicious(link.version.value.text)))
  {
    if link.version.Some? { BlockedIsMalicious(r, link.version.value.text, malicious); }
  }

  /** A version is listed iff nothing is configured for its project, or the constraints admit it, it is not malicious,
      and one of its files is old enough. */
  lemma VersionIsExact(r: Request, project: string, v: LinkVersion, malicious: string -> bool)
    requires Pointwise(r.query, malicious)
    ensures VersionAllowed(r, project, v) <==>
      || Unconfigured(r, project)
      || (&& ConstraintsAdmit(r.constraints, project, v)
          && (r.minAge > 0 ==> v.text in r.metadata.versions
                               && exists t | t in r.metadata.versions[v.text] :: r.now - t >= r.minAge)
          && (r.osv && v.text != "" ==> !malicious(v.text)))
  {
    BlockedIsMalicious(r, v.text, malicious);
  }

  /** The metadata knows each of these files under the version its link names. */
  predicate Indexed(m: Metadata, link: Link) {
    link.version.Some? && link.filename in m.files ==>
      link.version.value.text in m.versions && m.files[link.filename] in m.versions[link.version.value.text]
  }

  /** A version is listed whenever one of its files can be downloaded, and an old enough file of a listed version can
      be. */
  lemma DownloadableIsListed(r: Request, project: string, link: Link)
    requires link.version.Some? && Indexed(r.metadata, link)
    ensures LinkAllowed(r, project, link) ==> VersionAllowed(r, project, link.version.value)
    ensures VersionAllowed(r, project, link.version.value) && FileOldEnough(r, link.filename) ==>
      LinkAllowed(r, project, link)
  {
    if FileOldEnough(r, link.filename) {
      assert VersionOldEnough(r, link.version.value.text);
    }
  }
}

/** query_osv_blocked_versions: the index's own bounded cache of whole answers. */
module DevpiOsvCache {
  import opened Base
  import opened OrderedMap

  const OSV_CACHE_SECONDS := 300
  const OSV_CACHE_MAX_ENTRIES := 4096

  /** Project and asked versions; the service url is fixed. */
  type Key = (string, set<string>)

  datatype Stored = Stored(at: int, blocked: set<string>)

  /** `ok` is the response's status; None is a lookup that failed or answered something unreadable. */
  datatype Reply = Reply(ok: bool, blocked: set<string>)

  /** Every entry of `part` is one of `whole`. */
  ghost predicate PartOf(part: map<Key, Stored>, whole: map<Key, Stored>) {
    forall k | k in part :: k in whole && part[k] == whole[k]
  }

  function Recent(data: map<Key, Stored>, now: int): map<Key, Stored> {
    map k | k in data && now - data[k].at < OSV_CACHE_SECONDS :: data[k]
  }

  lemma RecentIsSmaller(data: map<Key, Stored>, key: Key, stored: Stored, now: int)
    ensures |Recent(data[key := stored], now)| <= |data| + 1
  {
    var full := data[key := stored];
    assert full.Keys == data.Keys + {key};
    SubsetSize(Recent(full, now).Keys, full.Keys);
  }

  method DropStale(order: seq<Key>, data: map<Key, Stored>, now: int) returns (kept: seq<Key>, left: map<Key, Stored>)
    requires Lists(order, data)
    ensures Lists(kept, left) && left == Recent(data, now) && kept == Restrict(order, left.Keys)
  {
    kept, left := Sweep(order, data, (s: Stored) => now - s.at >= OSV_CACHE_SECONDS);
  }

  /** The last `size` of the keys, or all of them. */
  function Newest(order: seq<Key>, size: nat): seq<Key> {
    if |order| <= size then order else order[|order| - size..]
  }

  ghost predicate Tail(order: seq<Key>, data: map<Key, Stored>, kept: seq<Key>, left: map<Key, Stored>) {
    Lists(kept, left) && PartOf(left, data) && |kept| <= |order| && kept == order[|order| - |kept|..]
  }

  lemma OneFewer(order: seq<Key>, data: map<Key, Stored>, kept: seq<Key>, left: map<Key, Stored>)
    requires Tail(order, data, kept, left) && kept != []
    ensures Tail(order, data, kept[1..], left - {kept[0]})
  {
    ListsTail(kept, left);
    DropMore(order, |order| - |kept|);
    PartStays(left, data, kept[0]);
  }

  lemma PartStays(left: map<Key, Stored>, data: map<Key, Stored>, k: Key)
    requires PartOf(left, data)
    ensures PartOf(left - {k}, data)
  {
  }

  lemma DropMore<T>(xs: seq<T>, n: nat)
    requires n < |xs|
    ensures xs[n..][1..] == xs[n + 1..]
  {
  }

  /** Evicts from the front until at most `size` entries are left, and no more than needed. */
  method EvictFront(order: seq<Key>, data: map<Key, Stored>, size: nat) returns (kept: seq<Key>, left: map<Key, Stored>)
    requires Lists(order, data)
    ensures Lists(kept, left) && PartOf(left, data) && |left| <= size && (|data| <= size ==> left == data)
    ensures kept == Newest(order, size)
  {
    kept, left := order, data;
    ListsLength(order, data);
    while |left| > size
      invariant Tail(order, data, kept, left) && |kept| == |left|
      invariant (|order| > size ==> |left| >= size) && (|order| <= size ==> left == data)
      decreases |left|
    {
      OneFewer(order, data, kept, left);
      kept, left := kept[1..], left - {kept[0]};
      ListsLength(kept, left);
    }
  }

  /** The order after a store: the key last, without what is stale, and the newest of the rest. */
  function OrderAfter(order: seq<Key>, data: map<Key, Stored>, key: Key, stored: Stored): seq<Key> {
    Newest(Restrict(Restrict(order, data.Keys - {key}) + [key], Recent(data[key := stored], stored.at).Keys),
           OSV_CACHE_MAX_ENTRIES)
  }

  method Replaced(order: seq<Key>, data: map<Key, Stored>, key: Key, stored: Stored)
    returns (kept: seq<Key>, left: map<Key, Stored>)
    requires Lists(order, data)
    ensures Lists(kept, left) && |left| <= OSV_CACHE_MAX_ENTRIES && kept == OrderAfter(order, data, key, stored)
    ensures PartOf(left, Recent(data[key := stored], stored.at))
    ensures |data| < OSV_CACHE_MAX_ENTRIES ==> left == Recent(data[key := stored], stored.at)
  {
    RestrictFacts(order, data.Keys - {key});
    RecentIsSmaller(data, key, stored, stored.at);
    kept, left := Restrict(order, data.Keys - {key}) + [key], data[key := stored];
    kept, left := DropStale(kept, left, stored.at);
    kept, left := EvictFront(kept, left, OSV_CACHE_MAX_ENTRIES);
  }

  class OsvCache {
    var data: map<Key, Stored>
    var order: seq<Key>
    ghost const truth: Key -> set<string>

    ghost predicate Valid()
      reads this
    {
      Lists(order, data) && |data| <= OSV_CACHE_MAX_ENTRIES && forall k | k in data :: data[k].blocked == truth(k)
    }

    constructor (ghost truth: Key -> set<string>)
      ensures Valid() && data == map[] && this.truth == truth
    {
      data, order, this.truth := map[], [], truth;
    }

    method StoreEntry(key: Key, fetchedAt: int, blocked: set<string>)
      requires Valid() && blocked == truth(key)
      modifies this
      ensures Valid() && order == OrderAfter(old(order), old(data), key, Stored(fetchedAt, blocked))
      ensures PartOf(data, Recent(old(data)[key := Stored(fetchedAt, blocked)], fetchedAt))
      ensures |old(data)| < OSV_CACHE_MAX_ENTRIES ==>
        data == Recent(old(data)[key := Stored(fetchedAt, blocked)], fetchedAt)
    {
      order, data := Replaced(order, data, key, Stored(fetchedAt, blocked));
    }

    method MoveToEnd(key: Key)
      requires Valid() && key in data
      modifies this`order
      ensures Valid() && order == Restrict(old(order), data.Keys - {key}) + [key]
    {
      RestrictFacts(order, data.Keys - {key});
      order := Restrict(order, data.Keys - {key}) + [key];
    }

    method Delete(key: Key)
      requires Valid()
      modifies this`data, this`order
      ensures Valid() && data == old(data) - {key} && |data| <= |old(data)|
    {
      RestrictFacts(order, data.Keys - {key});
      order := Restrict(order, data.Keys - {key});
      SubsetSize((data - {key}).Keys, data.Keys);
      data := data - {key};
    }

    /** A fresh cached answer, or the service's; only answers with status ok are cached, and a failed lookup blocks
        nothing. */
    method QueryBlockedVersions(project: string, versions: set<string>, stamp: int, fetchedAt: int,
                                reply: Option<Reply>)
      returns (blocked: set<string>)
      requires Valid()
      requires reply.Some? && reply.value.ok ==> reply.value.blocked == truth((project, versions))
      modifies this
      ensures Valid()
      ensures versions == {} ==> blocked == {}
      ensures versions != {} && IsFresh(old(data), (project, versions), stamp) ==> blocked == truth((project, versions))
      ensures versions != {} && !IsFresh(old(data), (project, versions), stamp) ==>
        blocked == if reply.None? then {} else reply.value.blocked
      ensures versions != {} && !IsFresh(old(data), (project, versions), stamp) && (reply.Some? ==> !reply.value.ok) ==>
        data == old(data) - {(project, versions)}
      ensures versions != {} && IsFresh(old(data), (project, versions), stamp) ==> data == old(data)
      ensures (versions != {} && !IsFresh(old(data), (project, versions), stamp)
               && reply.Some? && reply.value.ok && |old(data)| < OSV_CACHE_MAX_ENTRIES) ==>
        IsFresh(data, (project, versions), fetchedAt)
    {
      if versions == {} { return {}; }
      var key := (project, versions);
      if key in data {
        var stored := data[key];
        if stamp - stored.at < OSV_CACHE_SECONDS {
          MoveToEnd(key);
          return stored.blocked;
        }
        Delete(key);
      }
      if reply.None? { return {}; }
      if reply.value.ok { StoreEntry(key, fetchedAt, reply.value.blocked); }
      return reply.value.blocked;
    }
  }

  predicate IsFresh(data: map<Key, Stored>, key: Key, stamp: int) {
    key in data && stamp - data[key].at < 300
  }
}
