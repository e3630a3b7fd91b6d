/** Keeping the devpi index in step with the constraints text. */
module DevpiApply {
  import opened Base
  import opened Text

  /** The stored constraints: raw text, a list of lines, or something else. */
  datatype Stored = RawText(text: string) | Lines(lines: seq<string>) | Other

  datatype Bases = OneBase(name: string) | BaseList(names: seq<string>) | NoBases

  datatype IndexConfig = IndexConfig(indexType: string, bases: Bases, constraints: Stored,
                                     minUpstreamAge: Option<string>)

  /** How the two requests end; a PATCH may be carried out although its answer is lost. */
  datatype Patch = Answered | Lost | Refused
  datatype Net = Net(getWorks: bool, patch: Patch)

  function EffectiveOf(stored: Stored): Option<seq<string>> {
    match stored
    case RawText(text) => Some(EffectiveLines(text))
    case Lines(lines) => Some(Effective(lines))
    case Other => None
  }

  predicate HasExpectedBase(b: Bases) { b == OneBase("root/pypi") || b == BaseList(["root/pypi"]) }

  predicate Constrained(c: IndexConfig) { c.indexType == "constrained" && HasExpectedBase(c.bases) }

  /** The index holds these constraints, line for line as they take effect, and this minimum age. */
  predicate Holds(c: IndexConfig, text: string, minAge: string) {
    && EffectiveOf(c.constraints) == Some(EffectiveLines(text))
    && (if c.minUpstreamAge.None? then "P0D" else c.minUpstreamAge.value) == minAge
  }

  /** The server keeps the effective lines of what it is sent. */
  function Patched(c: IndexConfig, text: string, minAge: string): IndexConfig {
    c.(constraints := Lines(EffectiveLines(text)), minUpstreamAge := Some(minAge))
  }

  lemma PatchedHolds(c: IndexConfig, text: string, minAge: string)
    ensures Holds(Patched(c, text, minAge), text, minAge)
    ensures Constrained(Patched(c, text, minAge)) <==> Constrained(c)
  {
    EffectiveIsIdempotent(LinesBy(text, IsLineBoundary));
  }

  /** A constrained index over the PyPI mirror alone. */
  predicate OverMirror(c: IndexConfig) {
    c.indexType == "constrained" && (c.bases == OneBase("root/pypi") || c.bases == BaseList(["root/pypi"]))
  }

  /** What is stored takes effect as these constraints and this minimum age, no age being `P0D`. */
  predicate Stores(c: IndexConfig, text: string, minAge: string) {
    && (c.minUpstreamAge == Some(minAge) || (c.minUpstreamAge.None? && minAge == "P0D"))
    && match c.constraints
       case RawText(stored) => EffectiveLines(stored) == EffectiveLines(text)
       case Lines(stored) => Effective(stored) == EffectiveLines(text)
       case Other => false
  }

  /** Compares, and replaces the two properties only when they differ; None is the error. */
  method ApplyConstraints(c: IndexConfig, text: string, minAge: string, net: Net)
    returns (after: IndexConfig, patched: Option<bool>, sent: bool)
    ensures patched.Some? <==> net.getWorks && Constrained(c) && (Holds(c, text, minAge) || net.patch.Answered?)
    ensures patched.Some? ==> Holds(after, text, minAge) && (patched.value <==> !Holds(c, text, minAge))
    ensures after == c || after == Patched(c, text, minAge)
    ensures sent <==> net.getWorks && Constrained(c) && !Holds(c, text, minAge)
    ensures Holds(c, text, minAge) ==> after == c
    ensures Constrained(after) <==> Constrained(c)
    ensures patched.Some? ==> OverMirror(c) && Stores(after, text, minAge)
    ensures net.getWorks && OverMirror(c) && net.patch.Answered? ==> patched.Some?
  {
    after, sent := c, false;
    if !net.getWorks || !Constrained(c) { return after, None, false; }
    if Holds(c, text, minAge) { return after, Some(false), false; }
    PatchedHolds(c, text, minAge);
    if !net.patch.Refused? { after := Patched(c, text, minAge); }
    return after, if net.patch.Answered? then Some(true) else None, true;
  }
}

/** One sync: fetch, compile, then publish to every output in order. */
module Sync {
  import opened Base
  import opened Compile
  import opened DevpiApply
  import opened Rules
  import PypiCompiler

  datatype Place = UpstreamStore | UpstreamFile | NpmStore | NpmFile | PolicyFile | PypiFile

  /** The order in which the outputs are published. */
  function Rank(p: Place): nat {
    match p
    case UpstreamStore => 0
    case UpstreamFile => 1
    case NpmStore => 2
    case NpmFile => 3
    case PolicyFile => 4
    case PypiFile => 5
  }

  predicate IsFile(p: Place) { p in {UpstreamFile, NpmFile, PolicyFile, PypiFile} }

  datatype Fetch = Missing | FetchFails | Data(text: string)

  /** What the world does during one sync: the fetch, the files that cannot be written, and the index. */
  datatype World = World(fetched: Fetch, broken: set<Place>, net: Net)

  function Wanted(p: Place, art: Artifacts, data: string): string {
    match p
    case UpstreamStore => art.upstreamYaml
    case UpstreamFile => art.upstreamYaml
    case NpmStore => art.npmYaml
    case NpmFile => art.npmYaml
    case PolicyFile => data
    case PypiFile => art.pypiConstraints
  }

  predicate Fails(p: Place, configured: set<Place>, broken: set<Place>) { IsFile(p) && p in configured && p in broken }

  /** Nothing up to and including this place fails. */
  predicate Reaches(rank: nat, configured: set<Place>, broken: set<Place>) {
    forall q: Place | Rank(q) <= rank :: !Fails(q, configured, broken)
  }

  predicate Published(p: Place, configured: set<Place>, broken: set<Place>) {
    p in configured && Reaches(Rank(p), configured, broken)
  }

  /** The outputs after publishing: new up to the first failure, as before from there on. */
  ghost predicate TextsAfter(before: map<Place, string>, after: map<Place, string>, configured: set<Place>,
                             broken: set<Place>, art: Artifacts, data: string) {
    forall p: Place ::
      if Published(p, configured, broken) then p in after && after[p] == Wanted(p, art, data)
      else SameAt(before, after, p)
  }

  ghost predicate AllShown(texts: map<Place, string>, configured: set<Place>, art: Artifacts, data: string) {
    forall place | place in configured :: place in texts && texts[place] == Wanted(place, art, data)
  }

  /** Every configured output holds its own document. */
  ghost predicate Delivered(texts: map<Place, string>, configured: set<Place>, art: Artifacts, data: string) {
    && (UpstreamStore in configured ==> UpstreamStore in texts && texts[UpstreamStore] == art.upstreamYaml)
    && (UpstreamFile in configured ==> UpstreamFile in texts && texts[UpstreamFile] == art.upstreamYaml)
    && (NpmStore in configured ==> NpmStore in texts && texts[NpmStore] == art.npmYaml)
    && (NpmFile in configured ==> NpmFile in texts && texts[NpmFile] == art.npmYaml)
    && (PolicyFile in configured ==> PolicyFile in texts && texts[PolicyFile] == data)
    && (PypiFile in configured ==> PypiFile in texts && texts[PypiFile] == art.pypiConstraints)
  }

  lemma ShownIsDelivered(texts: map<Place, string>, configured: set<Place>, art: Artifacts, data: string)
    requires AllShown(texts, configured, art, data)
    ensures Delivered(texts, configured, art, data)
  {
  }

  /** What comes before a failure is published, and nothing after it: the upstream document, the npm document, the
      policy, the constraints, each at its store before its file. */
  lemma FailuresStopTheRest(configured: set<Place>, broken: set<Place>)
    ensures var up := UpstreamFile in configured && UpstreamFile in broken;
      var npm := NpmFile in configured && NpmFile in broken;
      var doc, pypi := PolicyFile in configured && PolicyFile in broken, PypiFile in configured && PypiFile in broken;
      && (Published(UpstreamStore, configured, broken) <==> UpstreamStore in configured)
      && (Published(UpstreamFile, configured, broken) <==> UpstreamFile in configured && !up)
      && (Published(NpmStore, configured, broken) <==> NpmStore in configured && !up)
      && (Published(NpmFile, configured, broken) <==> NpmFile in configured && !up && !npm)
      && (Published(PolicyFile, configured, broken) <==> PolicyFile in configured && !up && !npm && !doc)
      && (Published(PypiFile, configured, broken) <==> PypiFile in configured && !up && !npm && !doc && !pypi)
      && (Reaches(5, configured, broken) <==> !up && !npm && !doc && !pypi)
  {
    assert Fails(UpstreamFile, configured, broken) <==> UpstreamFile in configured && UpstreamFile in broken;
    assert Fails(NpmFile, configured, broken) <==> NpmFile in configured && NpmFile in broken;
    assert Fails(PolicyFile, configured, broken) <==> PolicyFile in configured && PolicyFile in broken;
    assert Fails(PypiFile, configured, broken) <==> PypiFile in configured && PypiFile in broken;
  }

  /** Everything below this rank is published, the rest as before. */
  ghost predicate UpTo(before: map<Place, string>, texts: map<Place, string>, rank: nat, configured: set<Place>,
                       broken: set<Place>, art: Artifacts, data: string) {
    && (forall q: Place | Rank(q) < rank :: !Fails(q, configured, broken))
    && (forall p: Place :: if Rank(p) < rank && p in configured then p in texts && texts[p] == Wanted(p, art, data)
                           else SameAt(before, texts, p))
  }

  predicate SameAt(before: map<Place, string>, after: map<Place, string>, p: Place) {
    (p in after <==> p in before) && (p in before ==> after[p] == before[p])
  }

  lemma OneMorePlace(before: map<Place, string>, texts: map<Place, string>, next: map<Place, string>, p: Place,
                     configured: set<Place>, broken: set<Place>, art: Artifacts, data: string)
    requires UpTo(before, texts, Rank(p), configured, broken, art, data) && !Fails(p, configured, broken)
    requires next == if p in configured then texts[p := Wanted(p, art, data)] else texts
    ensures UpTo(before, next, Rank(p) + 1, configured, broken, art, data)
  {
    forall q: Place | Rank(q) == Rank(p) ensures q == p {}
  }

  /** Where everything was shown already, nothing changes. */
  lemma ShownStays(before: map<Place, string>, texts: map<Place, string>, next: map<Place, string>, p: Place,
                   configured: set<Place>, broken: set<Place>, art: Artifacts, data: string)
    requires UpTo(before, texts, Rank(p), configured, broken, art, data) && AllShown(before, configured, art, data)
    requires next == if p in configured then texts[p := Wanted(p, art, data)] else texts
    ensures next == texts
  {
    if p in configured {
      assert SameAt(before, texts, p);
      assert p in before && before[p] == Wanted(p, art, data);
    }
  }

  class Syncer {
    const parse: string -> Option<Policy>
    const npm: Adapter
    const pypi: PypiCompiler.Dialect
    const configured: set<Place>
    const keepsPolicy: bool
    var texts: map<Place, string>
    var policy: Option<Policy>
    var index: IndexConfig
    ghost var writes: nat
    ghost var patches: nat

    /** A document that parses to a policy that compiles. */
    ghost predicate Good(data: string) {
      parse(data).Some? && Compilable(parse(data).value, npm, pypi)
    }

    ghost function Art(data: string): Artifacts
      requires Good(data)
    {
      ArtifactsOf(parse(data).value, npm, pypi)
    }

    /** Every output shows this document. */
    ghost predicate Shows(art: Artifacts, data: string, p: Policy)
      reads this
    {
      && AllShown(texts, configured, art, data)
      && (keepsPolicy ==> policy == Some(p))
      && Holds(index, art.pypiConstraints, art.minAge)
    }

    /** Replaces a file only when its content changes; false is the error. */
    method Write(p: Place, data: string, broken: set<Place>) returns (ok: bool)
      requires IsFile(p)
      modifies this`texts, this`writes
      ensures ok <==> !Fails(p, configured, broken)
      ensures texts == if ok && p in configured then old(texts)[p := data] else old(texts)
      ensures writes == old(writes) + if texts == old(texts) then 0 else 1
    {
      if p !in configured { return true; }
      if p in broken { return false; }
      if p !in texts || texts[p] != data {
        texts := texts[p := data];
        writes := writes + 1;
      }
      return true;
    }

    method SetStore(p: Place, data: string)
      requires !IsFile(p)
      modifies this`texts
      ensures texts == if p in configured then old(texts)[p := data] else old(texts)
    {
      if p in configured { texts := texts[p := data]; }
    }

    /** Publishes the text documents and the policy, in order, until something fails. */
    method Publish(art: Artifacts, data: string, p: Policy, broken: set<Place>) returns (ok: bool)
      modifies this`texts, this`writes, this`policy
      ensures TextsAfter(old(texts), texts, configured, broken, art, data)
      ensures policy == if keepsPolicy && Reaches(4, configured, broken) then Some(p) else old(policy)
      ensures ok <==> Reaches(5, configured, broken)
      ensures writes >= old(writes) && (AllShown(old(texts), configured, art, data) ==> writes == old(writes))
    {
      ghost var before := texts;
      ok := EmitDocuments(art, data, broken, before);
      if !ok { return; }
      ok := WriteNext(PolicyFile, art, data, broken, before);
      if !ok { return; }
      if keepsPolicy { policy := Some(p); }
      ok := WriteNext(PypiFile, art, data, broken, before);
    }

    /** The upstream document, then the npm document. */
    method EmitDocuments(art: Artifacts, data: string, broken: set<Place>, ghost before: map<Place, string>)
      returns (ok: bool)
      requires texts == before
      modifies this`texts, this`writes
      ensures ok <==> Reaches(3, configured, broken)
      ensures ok ==> UpTo(before, texts, 4, configured, broken, art, data)
      ensures !ok ==> TextsAfter(before, texts, configured, broken, art, data)
      ensures writes >= old(writes) && (AllShown(before, configured, art, data) ==> writes == old(writes))
    {
      ok := EmitPair(UpstreamStore, UpstreamFile, art, data, broken, before);
      if !ok { return; }
      ok := EmitPair(NpmStore, NpmFile, art, data, broken, before);
    }

    /** A document's store, then its file. */
    method EmitPair(store: Place, file: Place, art: Artifacts, data: string, broken: set<Place>,
                    ghost before: map<Place, string>)
      returns (ok: bool)
      requires !IsFile(store) && IsFile(file) && Rank(file) == Rank(store) + 1
      requires Wanted(store, art, data) == Wanted(file, art, data)
      requires UpTo(before, texts, Rank(store), configured, broken, art, data)
      modifies this`texts, this`writes
      ensures ok <==> !Fails(file, configured, broken)
      ensures ok ==> UpTo(before, texts, Rank(file) + 1, configured, broken, art, data)
      ensures !ok ==>
        TextsAfter(before, texts, configured, broken, art, data) && !Reaches(Rank(file), configured, broken)
      ensures writes >= old(writes) && (AllShown(before, configured, art, data) ==> writes == old(writes))
    {
      ghost var was := texts;
      SetStore(store, Wanted(store, art, data));
      OneMorePlace(before, was, texts, store, configured, broken, art, data);
      ok := WriteNext(file, art, data, broken, before);
    }

    /** Writes the next file in the order; a failure is where publishing stops. */
    method WriteNext(p: Place, art: Artifacts, data: string, broken: set<Place>, ghost before: map<Place, string>)
      returns (ok: bool)
      requires IsFile(p) && UpTo(before, texts, Rank(p), configured, broken, art, data)
      modifies this`texts, this`writes
      ensures ok <==> !Fails(p, configured, broken)
      ensures ok ==> UpTo(before, texts, Rank(p) + 1, configured, broken, art, data)
      ensures !ok ==> TextsAfter(before, texts, configured, broken, art, data) && !Reaches(Rank(p), configured, broken)
      ensures writes >= old(writes) && (AllShown(before, configured, art, data) ==> writes == old(writes))
    {
      ghost var was := texts;
      ok := Write(p, Wanted(p, art, data), broken);
      if ok {
        OneMorePlace(before, was, texts, p, configured, broken, art, data);
        if AllShown(before, configured, art, data) { ShownStays(before, was, texts, p, configured, broken, art, data); }
      }
    }

    /** What one sync does with compiled artifacts. */
    method Apply(art: Artifacts, data: string, p: Policy, w: World) returns (ok: bool)
      modifies this
      ensures TextsAfter(old(texts), texts, configured, w.broken, art, data)
      ensures policy == if keepsPolicy && Reaches(4, configured, w.broken) then Some(p) else old(policy)
      ensures index == old(index) || index == Patched(old(index), art.pypiConstraints, art.minAge)
      ensures ok <==> Reaches(5, configured, w.broken) && w.net.getWorks && Constrained(old(index))
                      && (Holds(old(index), art.pypiConstraints, art.minAge) || w.net.patch.Answered?)
      ensures ok ==> Shows(art, data, p)
      ensures old(Shows(art, data, p)) ==> Untouched(old(texts), old(policy), old(index), old(writes), old(patches))
    {
      ok := Publish(art, data, p, w.broken);
      if !ok { return; }
      var after, patched, sent := ApplyConstraints(index, art.pypiConstraints, art.minAge, w.net);
      if sent { patches := patches + 1; }
      index := after;
      ok := patched.Some?;
    }

    ghost predicate Untouched(wasTexts: map<Place, string>, wasPolicy: Option<Policy>, wasIndex: IndexConfig,
                              wasWrites: nat, wasPatches: nat)
      reads this
    {
      texts == wasTexts && policy == wasPolicy && index == wasIndex && writes == wasWrites && patches == wasPatches
    }

    method SyncOnce(w: World) returns (ok: bool)
      modifies this
      ensures !(w.fetched.Data? && Good(w.fetched.text)) ==>
        !ok && Untouched(old(texts), old(policy), old(index), old(writes), old(patches))
      ensures w.fetched.Data? && Good(w.fetched.text) ==>
        Applied(old(texts), old(policy), old(index), Art(w.fetched.text), parse(w.fetched.text).value, w, ok)
      ensures (w.fetched.Data? && Good(w.fetched.text)
               && old(Shows(Art(w.fetched.text), w.fetched.text, parse(w.fetched.text).value))) ==>
        Untouched(old(texts), old(policy), old(index), old(writes), old(patches))
      ensures ok ==> w.fetched.Data? && Good(w.fetched.text)
      ensures ok ==> Delivered(texts, configured, Art(w.fetched.text), w.fetched.text)
    {
      if !w.fetched.Data? { return false; }
      var data := w.fetched.text;
      var parsed := parse(data);
      if parsed.None? { return false; }
      var compiled := CompilePolicy(parsed.value, npm, pypi);
      if compiled.Err? { return false; }
      ok := Apply(compiled.value, data, parsed.value, w);
      if ok { ShownIsDelivered(texts, configured, compiled.value, data); }
    }

    /** The outputs after a sync of a good document: published in order up to the first failure; success shows it
        everywhere. */
    ghost predicate Applied(wasTexts: map<Place, string>, wasPolicy: Option<Policy>, wasIndex: IndexConfig,
                            art: Artifacts, p: Policy, w: World, ok: bool)
      requires w.fetched.Data?
      reads this
    {
      && TextsAfter(wasTexts, texts, configured, w.broken, art, w.fetched.text)
      && policy == (if keepsPolicy && Reaches(4, configured, w.broken) then Some(p) else wasPolicy)
      && (index == wasIndex || index == Patched(wasIndex, art.pypiConstraints, art.minAge))
      && (ok <==> Reaches(5, configured, w.broken) && w.net.getWorks && Constrained(wasIndex)
                  && (Holds(wasIndex, art.pypiConstraints, art.minAge) || w.net.patch.Answered?))
      && (ok ==> Shows(art, w.fetched.text, p))
    }

    /******* Whole runs *******/

    /** The document of a sync that had one to publish. */
    ghost predicate Offers(worlds: seq<World>, d: string) {
      Good(d) && exists i | 0 <= i < |worlds| :: worlds[i].fetched == Data(d)
    }

    ghost predicate TextFrom(worlds: seq<World>, place: Place, text: string) {
      exists d :: Offers(worlds, d) && text == Wanted(place, Art(d), d)
    }

    ghost predicate PolicyFrom(worlds: seq<World>, p: Option<Policy>) {
      exists d :: Offers(worlds, d) && p == parse(d)
    }

    ghost predicate IndexFrom(worlds: seq<World>, c: IndexConfig) {
      exists d, was :: Offers(worlds, d) && c == Patched(was, Art(d).pypiConstraints, Art(d).minAge)
    }

    ghost predicate TextsGrounded(worlds: seq<World>, first: map<Place, string>, now: map<Place, string>) {
      forall p: Place :: SameAt(first, now, p) || (p in now && TextFrom(worlds, p, now[p]))
    }

    /** Every output is what it was at first, or an artifact of a document some sync could publish. */
    ghost predicate Grounded(worlds: seq<World>, firstTexts: map<Place, string>, firstPolicy: Option<Policy>,
                             firstIndex: IndexConfig)
      reads this
    {
      && TextsGrounded(worlds, firstTexts, texts)
      && (policy == firstPolicy || PolicyFrom(worlds, policy))
      && (index == firstIndex || IndexFrom(worlds, index))
    }

    lemma MoreWorlds(worlds: seq<World>, w: World, d: string)
      ensures Offers(worlds, d) ==> Offers(worlds + [w], d)
      ensures w.fetched == Data(d) && Good(d) ==> Offers(worlds + [w], d)
    {
      if i :| 0 <= i < |worlds| && worlds[i].fetched == Data(d) { assert (worlds + [w])[i].fetched == Data(d); }
      assert (worlds + [w])[|worlds|] == w;
    }

    lemma MoreWorldsText(worlds: seq<World>, w: World, place: Place, text: string)
      ensures TextFrom(worlds, place, text) ==> TextFrom(worlds + [w], place, text)
    {
      if TextFrom(worlds, place, text) {
        var d :| Offers(worlds, d) && text == Wanted(place, Art(d), d);
        MoreWorlds(worlds, w, d);
      }
    }

    lemma MoreWorldsRest(worlds: seq<World>, w: World, p: Option<Policy>, c: IndexConfig)
      ensures PolicyFrom(worlds, p) ==> PolicyFrom(worlds + [w], p)
      ensures IndexFrom(worlds, c) ==> IndexFrom(worlds + [w], c)
    {
      if PolicyFrom(worlds, p) {
        var d :| Offers(worlds, d) && p == parse(d);
        MoreWorlds(worlds, w, d);
      }
      if IndexFrom(worlds, c) {
        var d, was :| Offers(worlds, d) && c == Patched(was, Art(d).pypiConstraints, Art(d).minAge);
        MoreWorlds(worlds, w, d);
      }
    }

    lemma TextsStayGrounded(worlds: seq<World>, w: World, first: map<Place, string>, was: map<Place, string>,
                            now: map<Place, string>)
      requires TextsGrounded(worlds, first, was)
      requires now == was
            || (w.fetched.Data? && Good(w.fetched.text)
                && TextsAfter(was, now, configured, w.broken, Art(w.fetched.text), w.fetched.text))
      ensures TextsGrounded(worlds + [w], first, now)
    {
      forall p: Place ensures SameAt(first, now, p) || (p in now && TextFrom(worlds + [w], p, now[p])) {
        if SameAt(was, now, p) {
          if !SameAt(first, now, p) { MoreWorldsText(worlds, w, p, now[p]); }
        } else {
          MoreWorlds(worlds, w, w.fetched.text);
          assert now[p] == Wanted(p, Art(w.fetched.text), w.fetched.text);
        }
      }
    }

    lemma RestStaysGrounded(worlds: seq<World>, w: World, was: Option<Policy>, now: Option<Policy>,
                            wasIndex: IndexConfig, nowIndex: IndexConfig)
      requires w.fetched.Data? && Good(w.fetched.text)
      ensures now == parse(w.fetched.text) ==> PolicyFrom(worlds + [w], now)
      ensures nowIndex == Patched(wasIndex, Art(w.fetched.text).pypiConstraints, Art(w.fetched.text).minAge) ==>
        IndexFrom(worlds + [w], nowIndex)
    {
      MoreWorlds(worlds, w, w.fetched.text);
    }

    /** One more sync, whatever the world does. */
    method SyncOneMore(w: World, ghost worlds: seq<World>, ghost firstTexts: map<Place, string>,
                       ghost firstPolicy: Option<Policy>, ghost firstIndex: IndexConfig)
      requires Grounded(worlds, firstTexts, firstPolicy, firstIndex)
      modifies this
      ensures Grounded(worlds + [w], firstTexts, firstPolicy, firstIndex)
    {
      ghost var wasTexts, wasPolicy, wasIndex := texts, policy, index;
      var _ := SyncOnce(w);
      TextsStayGrounded(worlds, w, firstTexts, wasTexts, texts);
      MoreWorldsRest(worlds, w, wasPolicy, wasIndex);
      if w.fetched.Data? && Good(w.fetched.text) {
        RestStaysGrounded(worlds, w, wasPolicy, policy, wasIndex, index);
      }
    }

    /** Any sequence of syncs. */
    method RunSyncs(worlds: seq<World>)
      modifies this
      ensures Grounded(worlds, old(texts), old(policy), old(index))
    {
      for i := 0 to |worlds|
        invariant Grounded(worlds[..i], old(texts), old(policy), old(index))
      {
        SyncOneMore(worlds[i], worlds[..i], old(texts), old(policy), old(index));
        assert worlds[..i + 1] == worlds[..i] + [worlds[i]];
      }
      assert worlds[..|worlds|] == worlds;
    }

    /** Retries with doubling, capped pauses: at most `attempts` syncs, and none after a success. */
    method SyncWithRetry(worlds: seq<World>, baseDelay: int, maxDelay: int) returns (ok: bool, delays: seq<int>)
      modifies this
      ensures ok ==> |delays| < |worlds| && worlds[|delays|].fetched.Data? && var data := worlds[|delays|].fetched.text;
        Good(data) && Shows(Art(data), data, parse(data).value)
      ensures !ok && worlds != [] ==> |delays| == |worlds| - 1
      ensures Backoff(delays, baseDelay, maxDelay)
    {
      var delay := baseDelay;
      delays := [];
      for attempt := 0 to |worlds|
        invariant |delays| == if attempt < |worlds| || worlds == [] then attempt else attempt - 1
        invariant Backoff(delays, baseDelay, maxDelay)
        invariant attempt < |worlds| ==> Backoff(delays + [delay], baseDelay, maxDelay)
      {
        var synced := SyncOnce(worlds[attempt]);
        if synced { return true, delays; }
        if attempt + 1 < |worlds| {
          BackoffNext(delays, delay, baseDelay, maxDelay);
          delays := delays + [delay];
          delay := if delay * 2 < maxDelay then delay * 2 else maxDelay;
        }
      }
      return false, delays;
    }
  }

  /** The first pause is the base one, and each further one doubles it up to the cap. */
  predicate Backoff(delays: seq<int>, baseDelay: int, maxDelay: int) {
    && (delays != [] ==> delays[0] == baseDelay)
    && forall i | 0 < i < |delays| ::
         delays[i] == if delays[i - 1] * 2 < maxDelay then delays[i - 1] * 2 else maxDelay
  }

  lemma BackoffNext(delays: seq<int>, delay: int, baseDelay: int, maxDelay: int)
    requires Backoff(delays + [delay], baseDelay, maxDelay)
    ensures Backoff(delays + [delay] + [if delay * 2 < maxDelay then delay * 2 else maxDelay], baseDelay, maxDelay)
  {
  }
}
