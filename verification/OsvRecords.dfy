/** OSV records: the range event scan and the local fast path over package pages. */
module OsvRecords {
  import opened Base
  import opened Text
  import opened SemverOrder

  /******* Range events *******/

  datatype EventKind = Introduced | Fixed | Limit | LastAffected | OtherKind

  /** One entry of a range's events; `version` is None when the text is no semantic version. */
  datatype Event = NotAnEvent | Event(kind: EventKind, version: Option<Semver>)

  /** `events` is None when the field is not a list. */
  datatype RawRange = NotARange | RawRange(isSemver: bool, events: Option<seq<Event>>)

  predicate Usable(e: Event) { e.Event? && e.version.Some? && e.kind != OtherKind }

  predicate AllUsable(events: seq<Event>) { forall i | 0 <= i < |events| :: Usable(events[i]) }

  predicate Opens(e: Event, v: Semver)
    requires Usable(e)
  {
    e.kind == Introduced && Compare(v, e.version.value) >= 0
  }

  predicate Closes(e: Event, v: Semver)
    requires Usable(e)
  {
    var c := Compare(v, e.version.value);
    match e.kind
    case Fixed => c >= 0
    case Limit => c >= 0
    case LastAffected => c > 0
    case _ => false
  }

  /** The flag the loop ends with. */
  function Scan(events: seq<Event>, v: Semver): bool
    requires AllUsable(events)
  {
    if events == [] then false
    else
      var last, before := events[|events| - 1], Scan(events[..|events| - 1], v);
      if Opens(last, v) then true else if Closes(last, v) then false else before
  }

  /** The flag is set iff some applicable `introduced` has no later applicable closing event. */
  lemma {:induction false} ScanMeaning(events: seq<Event>, v: Semver)
    requires AllUsable(events)
    ensures Scan(events, v) <==> exists i | 0 <= i < |events| :: OpenAfter(events, i, v)
  {
    if events != [] {
      var front, k := events[..|events| - 1], |events| - 1;
      ScanMeaning(front, v);
      if Opens(events[k], v) {
        assert OpenAfter(events, k, v);
      } else {
        forall i | 0 <= i < k ensures OpenAfter(events, i, v) <==> OpenAfter(front, i, v) && !Closes(events[k], v) {
          if OpenAfter(events, i, v) {
            forall j | i < j < k ensures !Closes(front[j], v) { assert front[j] == events[j]; }
          }
        }
        assert !OpenAfter(events, k, v);
      }
    }
  }

  predicate OpenAfter(events: seq<Event>, i: nat, v: Semver)
    requires i < |events| && AllUsable(events)
  {
    Opens(events[i], v) && forall j | i < j < |events| :: !Closes(events[j], v)
  }

  /** Introduced at 0.0.0 and fixed in a release: its prereleases are affected, the release is not. */
  lemma PrereleasesOfTheFixAreAffected(fix: Semver, pre: seq<Ident>)
    requires fix.pre.None? && fix != Semver(0, 0, 0, None)
    ensures var events := [Event(Introduced, Some(Semver(0, 0, 0, None))), Event(Fixed, Some(fix))];
      && AllUsable(events) && Scan(events, fix.(pre := Some(pre))) && !Scan(events, fix)
  {
    var events := [Event(Introduced, Some(Semver(0, 0, 0, None))), Event(Fixed, Some(fix))];
    assert events[..1] == [events[0]] && [events[0]][..0] == [];
  }

  predicate IsClosing(e: Event) { e.Event? && e.kind in {Fixed, Limit, LastAffected} }

  predicate FirstClosingAfter(events: seq<Event>, i: nat, j: nat) {
    i < j < |events| && IsClosing(events[j]) && forall k | i < k < j :: !IsClosing(events[k])
  }

  /** From an `introduced` up to the next `fixed` or `limit` (exclusive) or `last_affected` (inclusive). */
  predicate InInterval(events: seq<Event>, i: nat, v: Semver)
    requires i < |events| && AllUsable(events)
  {
    && events[i].kind == Introduced && Compare(v, events[i].version.value) >= 0
    && forall j | i < j < |events| && FirstClosingAfter(events, i, j) ::
         var c := Compare(v, events[j].version.value);
         if events[j].kind == LastAffected then c <= 0 else c < 0
  }

  predicate AscendingEvents(events: seq<Event>)
    requires AllUsable(events)
  {
    forall i, j | 0 <= i < j < |events| :: Compare(events[i].version.value, events[j].version.value) < 0
  }

  /** If any event after `i` closes on `v`, the first closing one already does. */
  lemma FirstClosingCloses(events: seq<Event>, i: nat, j: nat, v: Semver)
    requires AllUsable(events) && AscendingEvents(events)
    requires i < j < |events| && Closes(events[j], v)
    ensures exists f: nat :: FirstClosingAfter(events, i, f) && Closes(events[f], v)
    decreases j
  {
    if k :| i < k < j && IsClosing(events[k]) {
      CompareIsTotalOrder(events[k].version.value, events[j].version.value, v);
      CompareIsTotalOrder(v, events[j].version.value, events[k].version.value);
      CompareIsTotalOrder(events[k].version.value, v, v);
      assert Closes(events[k], v);
      FirstClosingCloses(events, i, k, v);
    } else {
      assert FirstClosingAfter(events, i, j);
    }
  }

  /** On ascending events the scan is membership in the union of the intervals. */
  lemma ScanIsIntervalUnion(events: seq<Event>, v: Semver)
    requires AllUsable(events) && AscendingEvents(events)
    ensures Scan(events, v) <==> exists i | 0 <= i < |events| :: InInterval(events, i, v)
  {
    ScanMeaning(events, v);
    forall i | 0 <= i < |events| ensures OpenAfter(events, i, v) <==> InInterval(events, i, v) {
      if Opens(events[i], v) && !OpenAfter(events, i, v) {
        var j :| i < j < |events| && Closes(events[j], v);
        FirstClosingCloses(events, i, j, v);
        var f: nat :| FirstClosingAfter(events, i, f) && Closes(events[f], v);
        assert !InInterval(events, i, v);
      }
    }
  }

  method ScanEvents(events: seq<Event>, v: Semver) returns (r: Option<bool>)
    ensures r.Some? <==> AllUsable(events)
    ensures r.None? <==>
      exists i :: 0 <= i < |events| && (events[i].NotAnEvent? || events[i].version.None? || events[i].kind.OtherKind?)
    ensures r.Some? ==> r.value == Scan(events, v)
  {
    var affected := false;
    for i := 0 to |events|
      invariant AllUsable(events[..i]) && affected == Scan(events[..i], v)
    {
      var event := events[i];
      assert events[..i + 1][..i] == events[..i];
      if event.NotAnEvent? || event.version.None? { return None; }
      var comparison := Compare(v, event.version.value);
      match event.kind {
        case Introduced => if comparison >= 0 { affected := true; }
        case Fixed => if comparison >= 0 { affected := false; }
        case Limit => if comparison >= 0 { affected := false; }
        case LastAffected => if comparison > 0 { affected := false; }
        case OtherKind => return None;
      }
    }
    assert events[..|events|] == events;
    return Some(affected);
  }

  /** A version reader that is None on texts that are no semantic version. */
  type Parser = string -> Option<Semver>

  /** The range can be evaluated for all candidate versions. */
  predicate RangeDecided(range: RawRange, wanted: set<string>, parse: Parser) {
    && range.RawRange? && range.isSemver && range.events.Some?
    && (forall v | v in wanted :: parse(v).Some?)
    && (wanted != {} ==> AllUsable(range.events.value))
  }

  predicate RangeCovers(range: RawRange, v: string, parse: Parser) {
    && range.RawRange? && range.events.Some? && parse(v).Some? && AllUsable(range.events.value)
    && Scan(range.events.value, parse(v).value)
  }

  method SemverRangeAffectedVersions(range: RawRange, wanted: set<string>, parse: Parser)
    returns (r: Option<set<string>>)
    ensures r.Some? <==> RangeDecided(range, wanted, parse)
    ensures r.Some? ==> r.value == set v | v in wanted && RangeCovers(range, v, parse)
  {
    if range.NotARange? || !range.isSemver || range.events.None? { return None; }
    var todo := wanted;
    while todo != {}
      invariant todo <= wanted && forall v | v in wanted - todo :: parse(v).Some?
    {
      var v :| v in todo;
      if parse(v).None? { return None; }
      todo := todo - {v};
    }
    var affected := {};
    todo := wanted;
    while todo != {}
      invariant todo <= wanted && (todo != wanted ==> AllUsable(range.events.value))
      invariant affected == set v | v in wanted - todo && RangeCovers(range, v, parse)
    {
      var v :| v in todo;
      var hit := ScanEvents(range.events.value, parse(v).value);
      if hit.None? { return None; }
      if hit.value { affected := affected + {v}; }
      assert wanted - (todo - {v}) == (wanted - todo) + {v};
      todo := todo - {v};
    }
    assert wanted - todo == wanted;
    return Some(affected);
  }

  /******* Affected entries and records *******/

  /** The `ranges` field: absent or empty, something that is no list, or a list. */
  datatype RangesField = NoRanges | BadRanges | SomeRanges(list: seq<RawRange>)

  /** One affected entry: the package it names, and the string entries of its version list, if it is one. */
  datatype Item = NotAnItem | Item(package: Option<(string, string)>, versions: Option<seq<string>>,
                                   ranges: RangesField)

  /** `affected` is None when the field is not a list. */
  datatype Vuln = NotAVuln | Vuln(id: Option<string>, affected: Option<seq<Item>>)

  /** The queried package, and what reads names and versions of its ecosystem. */
  datatype Package = Package(ecosystem: string, name: string, normalize: string -> Option<string>, parse: Parser)

  const NPM := "npm"

  predicate Matches(item: Item, p: Package) {
    && item.Item? && item.package.Some? && item.package.value.0 == p.ecosystem
    && p.normalize(item.package.value.1) == Some(p.name)
  }

  predicate IsMal(v: Vuln) { v.Vuln? && v.id.Some? && "MAL-" <= v.id.value }

  predicate HasEvidence(item: Item) { item.Item? && (item.versions.Some? || !item.ranges.NoRanges?) }

  /** A matching entry can be evaluated: outside npm only one without versions and ranges. */
  predicate ItemDecided(item: Item, p: Package, wanted: set<string>) {
    Matches(item, p) && HasEvidence(item) ==>
      && p.ecosystem == NPM && !item.ranges.BadRanges?
      && (item.ranges.SomeRanges? ==>
            forall i | 0 <= i < |item.ranges.list| :: RangeDecided(item.ranges.list[i], wanted, p.parse))
  }

  predicate ItemCovers(item: Item, p: Package, v: string) {
    && Matches(item, p)
    && (|| (item.versions.Some? && v in item.versions.value && v != "")
        || (item.ranges.SomeRanges?
            && exists i | 0 <= i < |item.ranges.list| :: RangeCovers(item.ranges.list[i], v, p.parse)))
  }

  predicate Decided(vuln: Vuln, p: Package, wanted: set<string>) {
    && vuln.Vuln? && vuln.affected.Some?
    && (forall i | 0 <= i < |vuln.affected.value| :: ItemDecided(vuln.affected.value[i], p, wanted))
    && (exists i | 0 <= i < |vuln.affected.value| ::
          Matches(vuln.affected.value[i], p) && HasEvidence(vuln.affected.value[i]))
  }

  /** The record has an entry for this package that lists the version or covers it by a range. */
  predicate Covers(vuln: Vuln, p: Package, v: string) {
    && vuln.Vuln? && vuln.affected.Some?
    && exists i | 0 <= i < |vuln.affected.value| :: ItemCovers(vuln.affected.value[i], p, v)
  }

  method RangesAffected(list: seq<RawRange>, wanted: set<string>, parse: Parser) returns (r: Option<set<string>>)
    ensures r.Some? <==> forall i | 0 <= i < |list| :: RangeDecided(list[i], wanted, parse)
    ensures r.Some? ==>
      forall v | v in wanted :: v in r.value <==> exists i | 0 <= i < |list| :: RangeCovers(list[i], v, parse)
  {
    var out := {};
    for i := 0 to |list|
      invariant forall j | 0 <= j < i :: RangeDecided(list[j], wanted, parse)
      invariant forall v | v in wanted :: v in out <==> exists j | 0 <= j < i :: RangeCovers(list[j], v, parse)
    {
      var affected := SemverRangeAffectedVersions(list[i], wanted, parse);
      if affected.None? { return None; }
      out := out + affected.value;
    }
    return Some(out);
  }

  method LocallyAffectedVersions(vuln: Vuln, p: Package, wanted: set<string>) returns (r: Option<set<string>>)
    requires vuln.Vuln?
    ensures r.Some? <==> Decided(vuln, p, wanted)
    ensures r.Some? ==> forall v | v in wanted :: v in r.value <==> Covers(vuln, p, v)
  {
    if vuln.affected.None? { return None; }
    var items := vuln.affected.value;
    var out, sawDecidable := {}, false;
    for k := 0 to |items|
      invariant forall j | 0 <= j < k :: ItemDecided(items[j], p, wanted)
      invariant sawDecidable <==> exists j | 0 <= j < k :: Matches(items[j], p) && HasEvidence(items[j])
      invariant forall v | v in wanted :: v in out <==> exists j | 0 <= j < k :: ItemCovers(items[j], p, v)
    {
      var covered := ItemAffected(items[k], p, wanted);
      if covered.None? { return None; }
      out := out + covered.value;
      sawDecidable := sawDecidable || (Matches(items[k], p) && HasEvidence(items[k]));
    }
    return if sawDecidable then Some(out) else None;
  }

  method ItemAffected(item: Item, p: Package, wanted: set<string>) returns (r: Option<set<string>>)
    ensures r.Some? <==> ItemDecided(item, p, wanted)
    ensures r.Some? ==> forall v | v in wanted :: v in r.value <==> ItemCovers(item, p, v)
  {
    if !Matches(item, p) { return Some({}); }
    var out := {};
    if item.versions.Some? {
      if p.ecosystem != NPM { return None; }
      out := set v | v in item.versions.value && v != "";
    }
    if !item.ranges.NoRanges? {
      if p.ecosystem != NPM || item.ranges.BadRanges? { return None; }
      var affected := RangesAffected(item.ranges.list, wanted, p.parse);
      if affected.None? { return None; }
      out := out + affected.value;
    }
    return Some(out);
  }

  /******* What can be decided *******/

  /** An entry about this package that has a version list or ranges. */
  predicate SaysSomething(item: Item, p: Package) {
    && item.Item? && item.package.Some? && item.package.value.0 == p.ecosystem
    && p.normalize(item.package.value.1) == Some(p.name) && (item.versions.Some? || item.ranges != NoRanges)
  }

  /** A semver range of readable events of known kinds, and versions that all parse. */
  ghost predicate Readable(range: RawRange, wanted: set<string>, parse: Parser) {
    && range.RawRange? && range.isSemver && range.events.Some? && (forall v | v in wanted :: parse(v).Some?)
    && (wanted != {} ==> forall e | e in range.events.value ::
          e.Event? && e.version.Some? && e.kind in {Introduced, Fixed, Limit, LastAffected})
  }

  lemma RangeDecidedMeaning(range: RawRange, wanted: set<string>, parse: Parser)
    ensures RangeDecided(range, wanted, parse) <==> Readable(range, wanted, parse)
  {
    if range.RawRange? && range.events.Some? {
      var events := range.events.value;
      forall i | 0 <= i < |events| ensures events[i] in events {}
    }
  }

  /** An entry is in the way only if it says something about the package, and is no npm one or has ranges that are no
      list of readable ranges. */
  lemma ItemDecidedMeaning(item: Item, p: Package, wanted: set<string>)
    ensures ItemDecided(item, p, wanted) <==>
      (SaysSomething(item, p) ==>
         p.ecosystem == "npm" && item.ranges != BadRanges
         && (item.ranges.SomeRanges? ==> forall range | range in item.ranges.list :: Readable(range, wanted, p.parse)))
  {
    if item.Item? && item.ranges.SomeRanges? {
      var list := item.ranges.list;
      forall i | 0 <= i < |list|
        ensures list[i] in list && (RangeDecided(list[i], wanted, p.parse) <==> Readable(list[i], wanted, p.parse))
      {
        RangeDecidedMeaning(list[i], wanted, p.parse);
      }
    }
  }

  /** A record can be decided iff it has entries that say something about the package, all npm ones whose ranges are
      lists of readable ranges. */
  lemma DecidedMeaning(vuln: Vuln, p: Package, wanted: set<string>)
    ensures Decided(vuln, p, wanted) <==>
      && vuln.Vuln? && vuln.affected.Some? && (exists item :: item in vuln.affected.value && SaysSomething(item, p))
      && forall item | item in vuln.affected.value && SaysSomething(item, p) ::
           && p.ecosystem == "npm" && item.ranges != BadRanges
           && (item.ranges.SomeRanges? ==>
                 forall range | range in item.ranges.list :: Readable(range, wanted, p.parse))
  {
    if vuln.Vuln? && vuln.affected.Some? {
      var items := vuln.affected.value;
      forall i | 0 <= i < |items|
        ensures items[i] in items && (Matches(items[i], p) && HasEvidence(items[i]) <==> SaysSomething(items[i], p))
      {}
      forall item ensures ItemDecided(item, p, wanted) <==>
        (SaysSomething(item, p) ==>
           p.ecosystem == "npm" && item.ranges != BadRanges
           && (item.ranges.SomeRanges? ==>
                 forall range | range in item.ranges.list :: Readable(range, wanted, p.parse)))
      {
        ItemDecidedMeaning(item, p, wanted);
      }
    }
  }

  /******* Pages of records *******/

  predicate AllDecided(vulns: seq<Vuln>, p: Package, wanted: set<string>) {
    forall i | 0 <= i < |vulns| && IsMal(vulns[i]) :: Decided(vulns[i], p, wanted)
  }

  /** The malicious-package records that cover the version. */
  function MalIds(vulns: seq<Vuln>, p: Package, v: string): set<string> {
    set x | x in vulns && IsMal(x) && Covers(x, p, v) :: x.id.value
  }

  lemma MalIdsNext(vulns: seq<Vuln>, k: nat, p: Package, v: string)
    requires k < |vulns|
    ensures MalIds(vulns[..k + 1], p, v)
            == MalIds(vulns[..k], p, v) + if IsMal(vulns[k]) && Covers(vulns[k], p, v) then {vulns[k].id.value} else {}
  {
    assert forall x :: x in vulns[..k + 1] <==> x in vulns[..k] || x == vulns[k];
  }

  lemma MalIdsAppend(xs: seq<Vuln>, ys: seq<Vuln>, p: Package, v: string)
    ensures MalIds(xs + ys, p, v) == MalIds(xs, p, v) + MalIds(ys, p, v)
  {
  }

  method ApplyPackageVulns(vulns: seq<Vuln>, p: Package, wanted: set<string>, ids: map<string, set<string>>)
    returns (r: Option<map<string, set<string>>>)
    requires ids.Keys == wanted
    ensures r.Some? <==> AllDecided(vulns, p, wanted)
    ensures r.Some? ==> r.value.Keys == wanted && forall v | v in wanted :: r.value[v] == ids[v] + MalIds(vulns, p, v)
  {
    var out := ids;
    for k := 0 to |vulns|
      invariant forall j | 0 <= j < k && IsMal(vulns[j]) :: Decided(vulns[j], p, wanted)
      invariant Added(out, ids, vulns[..k], p, wanted)
    {
      out, r := AddVuln(out, ids, vulns, k, p, wanted);
      if r.None? { return; }
    }
    assert vulns[..|vulns|] == vulns;
    return Some(out);
  }

  ghost predicate Added(out: map<string, set<string>>, ids: map<string, set<string>>, vulns: seq<Vuln>, p: Package,
                        wanted: set<string>)
    requires ids.Keys == wanted
  {
    out.Keys == wanted && forall v | v in wanted :: out[v] == ids[v] + MalIds(vulns, p, v)
  }

  /** One record: ignored unless it is a malicious-package one, undecidable, or added to the versions it covers. */
  method AddVuln(before: map<string, set<string>>, ghost ids: map<string, set<string>>, vulns: seq<Vuln>, k: nat,
                 p: Package, wanted: set<string>)
    returns (out: map<string, set<string>>, r: Option<map<string, set<string>>>)
    requires k < |vulns| && ids.Keys == wanted && Added(before, ids, vulns[..k], p, wanted)
    ensures r.Some? <==> (IsMal(vulns[k]) ==> Decided(vulns[k], p, wanted))
    ensures r.Some? ==> Added(out, ids, vulns[..k + 1], p, wanted)
  {
    var vuln := vulns[k];
    if !IsMal(vuln) {
      AddedNext(before, before, ids, vulns, k, p, wanted);
      return before, Some(before);
    }
    var affected := LocallyAffectedVersions(vuln, p, wanted);
    if affected.None? { return before, None; }
    out := map v | v in wanted :: if v in affected.value then before[v] + {vuln.id.value} else before[v];
    AddedNext(before, out, ids, vulns, k, p, wanted);
    return out, Some(out);
  }

  lemma AddedNext(before: map<string, set<string>>, out: map<string, set<string>>, ids: map<string, set<string>>,
                  vulns: seq<Vuln>, k: nat, p: Package, wanted: set<string>)
    requires k < |vulns| && ids.Keys == wanted && Added(before, ids, vulns[..k], p, wanted)
    requires out.Keys == wanted
    requires forall v | v in wanted ::
      out[v] == if IsMal(vulns[k]) && Covers(vulns[k], p, v) then before[v] + {vulns[k].id.value} else before[v]
    ensures Added(out, ids, vulns[..k + 1], p, wanted)
  {
    forall v | v in wanted ensures out[v] == ids[v] + MalIds(vulns[..k + 1], p, v) {
      MalIdsNext(vulns, k, p, v);
    }
  }

  /** Outside npm the local path decides only when there is no malicious-package record at all. */
  lemma OutsideNpmOnlyWithoutMal(vulns: seq<Vuln>, p: Package, wanted: set<string>)
    requires p.ecosystem != NPM
    ensures AllDecided(vulns, p, wanted) <==> forall i | 0 <= i < |vulns| :: !IsMal(vulns[i])
  {
    forall i | 0 <= i < |vulns| && IsMal(vulns[i]) ensures !Decided(vulns[i], p, wanted) {
      EvidenceUndecidesOutsideNpm(vulns[i], p, wanted);
    }
  }

  lemma EvidenceUndecidesOutsideNpm(vuln: Vuln, p: Package, wanted: set<string>)
    requires p.ecosystem != NPM
    ensures !Decided(vuln, p, wanted)
  {
  }
}
