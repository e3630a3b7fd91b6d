/** The serving side: the last synced document with its entity tag, and conditional requests. */
module PolicyServing {
  import opened Base
  import opened Text

  /******* Entity tags *******/

  /** The content hash in hexadecimal: different contents have different digests. */
  type Digest = string -> string

  predicate IsHex(s: string) { s != [] && forall i | 0 <= i < |s| :: '0' <= s[i] <= '9' || 'a' <= s[i] <= 'f' }

  ghost predicate CollisionFree(digest: Digest) {
    (forall c :: IsHex(digest(c))) && (forall c, d :: digest(c) == digest(d) ==> c == d)
  }

  function EtagFor(content: string, digest: Digest): string { "\"" + digest(content) + "\"" }

  /** The tag without its weakness marker. */
  function Opaque(tag: string): string { if "W/" <= tag then tag[2..] else tag }

  function Candidates(header: string): seq<string> {
    var parts := SplitOn(header, ',');
    seq(|parts|, i requires 0 <= i < |parts| => Strip(parts[i]))
  }

  predicate EtagMatches(ifNoneMatch: string, etag: string) {
    var candidates := Candidates(ifNoneMatch);
    "*" in candidates || exists i | 0 <= i < |candidates| :: Opaque(candidates[i]) == etag
  }

  /** What a list entry says: any content, or this one's tag, strong or weak. */
  predicate Says(entry: string, etag: string) {
    entry == "*" || entry == "W/" + etag || (entry == etag && !("W/" <= etag))
  }

  lemma OpaqueSays(entry: string, etag: string)
    ensures entry == "*" || Opaque(entry) == etag <==> Says(entry, etag)
  {
    if "W/" <= entry { assert entry == "W/" + entry[2..]; }
    if entry == "W/" + etag { assert entry[2..] == etag; }
  }

  /** A list of tags matches when one of them is `*` or names the content, weakly or strongly. */
  lemma ListMatches(parts: seq<string>, etag: string)
    requires parts != [] && forall i | 0 <= i < |parts| :: ',' !in parts[i]
    ensures EtagMatches(JoinWith(parts, ','), etag) <==> exists i | 0 <= i < |parts| :: Says(Strip(parts[i]), etag)
  {
    SplitJoin(parts, ',');
    var candidates := Candidates(JoinWith(parts, ','));
    forall i | 0 <= i < |parts|
      ensures candidates[i] == Strip(parts[i])
           && (candidates[i] == "*" || Opaque(candidates[i]) == etag <==> Says(candidates[i], etag))
    {
      OpaqueSays(candidates[i], etag);
    }
    if "*" in candidates {
      var i :| 0 <= i < |candidates| && candidates[i] == "*";
      assert Says(Strip(parts[i]), etag);
    }
    if i :| 0 <= i < |parts| && Says(Strip(parts[i]), etag) {
      assert candidates[i] == "*" ==> "*" in candidates;
    }
  }

  lemma TagIsClean(content: string, digest: Digest)
    requires IsHex(digest(content))
    ensures var tag := EtagFor(content, digest); ',' !in tag && Stripped(tag) && tag != "*" && Opaque(tag) == tag
  {
    var tag := EtagFor(content, digest);
    assert tag[0] == '\"' && tag[|tag| - 1] == '\"';
    forall i | 0 <= i < |tag| ensures tag[i] != ',' {
      if 0 < i < |tag| - 1 { assert tag[i] == digest(content)[i - 1]; }
    }
  }

  /** Sent back alone, a tag matches exactly the content it was made for. */
  lemma OwnTagMatches(c: string, d: string, digest: Digest)
    requires CollisionFree(digest)
    ensures EtagMatches(EtagFor(c, digest), EtagFor(d, digest)) <==> c == d
  {
    var tag := EtagFor(c, digest);
    TagIsClean(c, digest);
    StripFacts(tag);
    assert JoinWith([tag], ',') == tag;
    ListMatches([tag], EtagFor(d, digest));
    assert EtagFor(c, digest) == EtagFor(d, digest) ==> digest(c) == digest(d) by {
      assert EtagFor(c, digest)[1..|digest(c)| + 1] == digest(c);
      assert EtagFor(d, digest)[1..|digest(d)| + 1] == digest(d);
    }
    OpaqueSays(tag, EtagFor(d, digest));
    assert [tag][0] == tag && Strip(tag) == tag;
    if EtagMatches(tag, EtagFor(d, digest)) {
      var i :| 0 <= i < |[tag]| && Says(Strip([tag][i]), EtagFor(d, digest));
      assert [tag][i] == tag;
    } else {
      assert !Says(Strip([tag][0]), EtagFor(d, digest));
    }
  }

  /******* The store *******/

  datatype Reply = Missing | NotModified(etag: string) | Content(body: string, etag: string)

  class PolicyStore {
    const digest: Digest
    var content: Option<string>
    var etag: Option<string>

    /** Content and tag never disagree. */
    ghost predicate Valid()
      reads this
    {
      (content.Some? <==> etag.Some?) && (content.Some? ==> etag.value == EtagFor(content.value, digest))
    }

    constructor (digest: Digest)
      ensures Valid() && content == None && this.digest == digest
    {
      this.digest, content, etag := digest, None, None;
    }

    method Set(newContent: string)
      requires Valid()
      modifies this
      ensures Valid() && content == Some(newContent)
    {
      var tag := EtagFor(newContent, digest);
      content, etag := Some(newContent), Some(tag);
    }

    /** What is served now: what was set last, or the fallback file before anything was. */
    function Served(fallback: Option<string>): Option<string>
      reads this
    {
      if content.Some? then content else fallback
    }

    method Get(fallback: Option<string>) returns (r: Option<(string, string)>)
      requires Valid()
      ensures r.Some? <==> Served(fallback).Some?
      ensures r.Some? ==> r.value.0 == Served(fallback).value && r.value.1 == EtagFor(r.value.0, digest)
    {
      if content.Some? { return Some((content.value, etag.value)); }
      if fallback.None? { return None; }
      return Some((fallback.value, EtagFor(fallback.value, digest)));
    }

    method ServePolicy(ifNoneMatch: Option<string>, fallback: Option<string>) returns (r: Reply)
      requires Valid()
      ensures r == ReplyTo(Served(fallback), ifNoneMatch, digest)
    {
      var got := Get(fallback);
      if got.None? { return Missing; }
      var content, etag := got.value.0, got.value.1;
      if ifNoneMatch.Some? && ifNoneMatch.value != "" && EtagMatches(ifNoneMatch.value, etag) {
        return NotModified(etag);
      }
      return Content(content, etag);
    }
  }

  function ReplyTo(served: Option<string>, ifNoneMatch: Option<string>, digest: Digest): Reply {
    if served.None? then Missing
    else if ifNoneMatch.Some? && ifNoneMatch.value != ""
            && EtagMatches(ifNoneMatch.value, EtagFor(served.value, digest))
    then NotModified(EtagFor(served.value, digest))
    else Content(served.value, EtagFor(served.value, digest))
  }

  /** A client that sends back the tag of what it holds is told that nothing changed iff that is what is served, and
      gets the content and its tag otherwise. */
  lemma OwnTagIsAnswered(held: string, served: string, digest: Digest)
    requires CollisionFree(digest)
    ensures ReplyTo(Some(served), Some(EtagFor(held, digest)), digest)
         == if held == served then NotModified(EtagFor(held, digest)) else Content(served, EtagFor(served, digest))
  {
    OwnTagMatches(held, served, digest);
  }
}

/** The filter plugin's side: polling with a grace window, and watching a file. */
module PolicyLoaders {
  import opened Base
  import opened PolicyServing

  /** Parses and compiles a document; None when it throws. */
  type Compiler<P> = string -> Option<P>

  /** How one refresh ends. */
  datatype Outcome = Unchanged | Fetched(ok: bool, text: string, etag: Option<string>) | Unreachable

  /** A finished poll: whether it counts as a success, and when it ended. */
  datatype Poll = Poll(success: bool, at: int)

  /** The failures from `i` on are the whole streak. */
  predicate StreakFrom(polls: seq<Poll>, i: nat)
    requires i < |polls|
  {
    !polls[i].success && (i == 0 || polls[i - 1].success) && forall j | i < j < |polls| :: !polls[j].success
  }

  /** `since` is the time of the first failure after the last success. */
  predicate StreakStartsAt(polls: seq<Poll>, since: Option<int>) {
    if since.None? then polls == [] || polls[|polls| - 1].success
    else exists i | 0 <= i < |polls| :: StreakFrom(polls, i) && polls[i].at == since.value
  }

  lemma StreakGoesOn(polls: seq<Poll>, t: int, at: int)
    requires StreakStartsAt(polls, Some(t))
    ensures StreakStartsAt(polls + [Poll(false, at)], Some(t))
  {
    var i :| 0 <= i < |polls| && StreakFrom(polls, i) && polls[i].at == t;
    var more := polls + [Poll(false, at)];
    assert StreakFrom(more, i) && more[i].at == t;
  }

  lemma StreakBegins(polls: seq<Poll>, at: int)
    requires StreakStartsAt(polls, None)
    ensures StreakStartsAt(polls + [Poll(false, at)], Some(at))
  {
    var more := polls + [Poll(false, at)];
    assert StreakFrom(more, |polls|) && more[|polls|].at == at;
  }

  class HttpPolicyLoader<P> {
    const failGrace: int
    const compiler: Compiler<P>
    var state: Option<P>
    var hasPolicy: bool
    var etag: Option<string>
    var failingSince: Option<int>
    var pending: Option<Option<string>>
    ghost var lastBody: Option<string>
    ghost var lastTag: Option<string>
    ghost var polls: seq<Poll>

    /** The state is the compiled last parsed body, the tag came with that body, and the streak is measured from its
        start. */
    ghost predicate Valid()
      reads this
    {
      && (hasPolicy <==> lastBody.Some?)
      && (if hasPolicy then state.Some? && state == compiler(lastBody.value) else state.None?)
      && (etag == if hasPolicy then lastTag else None)
      && StreakStartsAt(polls, failingSince)
      && (pending.Some? ==> pending.value == etag)
    }

    constructor (failGrace: int, compiler: Compiler<P>)
      ensures Valid() && !hasPolicy && pending.None? && polls == []
      ensures this.failGrace == failGrace && this.compiler == compiler
    {
      this.failGrace, this.compiler := failGrace, compiler;
      state, hasPolicy, etag, failingSince := None, false, None, None;
      pending, lastBody, lastTag, polls := None, None, None, [];
    }

    /** Open only after a successful parse, and while no failure streak has outlasted the grace window. */
    method Current(now: int) returns (r: Option<P>)
      requires Valid()
      ensures r.Some? <==> lastBody.Some? && !(failingSince.Some? && now - failingSince.value >= failGrace)
      ensures r.Some? ==> r == compiler(lastBody.value)
    {
      if hasPolicy && failingSince.Some? && now - failingSince.value >= failGrace { return None; }
      return state;
    }

    /** Starts a refresh, unless one is under way: the conditional header it sends, if it sends a request. */
    method StartPoll() returns (started: bool, ifNoneMatch: Option<string>)
      requires Valid()
      modifies this`pending
      ensures Valid() && pending.Some?
      ensures started <==> old(pending).None?
      ensures started ==> ifNoneMatch == etag
    {
      if pending.Some? { return false, None; }
      pending := Some(etag);
      return true, etag;
    }

    method RecordSuccess(now: int)
      modifies this`failingSince, this`polls
      ensures failingSince == None && polls == old(polls) + [Poll(true, now)]
    {
      failingSince := None;
      polls := polls + [Poll(true, now)];
    }

    method RecordFailure(now: int)
      requires Valid()
      modifies this`failingSince, this`state, this`polls
      ensures Valid() && polls == old(polls) + [Poll(false, now)]
      ensures failingSince == if old(failingSince).None? then Some(now) else old(failingSince)
    {
      if failingSince.None? {
        StreakBegins(polls, now);
        failingSince := Some(now);
      } else {
        StreakGoesOn(polls, failingSince.value, now);
      }
      polls := polls + [Poll(false, now)];
      if !hasPolicy { state := None; }
    }

    /** The request of the refresh under way has ended. */
    method FinishPoll(outcome: Outcome, now: int)
      requires Valid() && pending.Some?
      modifies this
      ensures Valid() && pending.None? && polls == old(polls) + [Poll(Succeeds(outcome), now)]
      ensures failingSince == if Succeeds(outcome) then None else if old(failingSince).None? then Some(now)
                              else old(failingSince)
      ensures Swaps(outcome) ==> lastBody == Some(outcome.text) && lastTag == outcome.etag
      ensures !Swaps(outcome) ==> lastBody == old(lastBody) && lastTag == old(lastTag) && state == old(state)
    {
      pending := None;
      match outcome {
        case Unchanged => RecordSuccess(now);
        case Unreachable => RecordFailure(now);
        case Fetched(ok, text, tag) =>
          var policy := compiler(text);
          if !ok || policy.None? {
            RecordFailure(now);
          } else {
            etag, state, hasPolicy := tag, policy, true;
            lastBody, lastTag := Some(text), tag;
            RecordSuccess(now);
          }
      }
    }

    /** A document this compiler accepts. */
    predicate Swaps(outcome: Outcome) { outcome.Fetched? && outcome.ok && compiler(outcome.text).Some? }

    predicate Succeeds(outcome: Outcome) { outcome.Unchanged? || Swaps(outcome) }

    /** The tag held is the one the store makes for the last parsed body. */
    ghost predicate TagsAgree(digest: Digest)
      reads this
    {
      lastBody.Some? ==> lastTag == Some(EtagFor(lastBody.value, digest))
    }

    /** A refresh answered by the store: not modified, or a document that parses, leaves exactly what is served
        active. */
    method PollStore(store: PolicyStore, fallback: Option<string>, now: int)
      requires Valid() && store.Valid() && pending.None? && CollisionFree(store.digest) && TagsAgree(store.digest)
      modifies this
      ensures Valid() && TagsAgree(store.digest) && pending.None?
      ensures var served := store.Served(fallback);
        if served.Some? && compiler(served.value).Some? then
          lastBody == served && state == compiler(served.value) && failingSince == None
        else lastBody == old(lastBody) && state == old(state) && failingSince.Some?
    {
      var _, ifNoneMatch := StartPoll();
      var reply := store.ServePolicy(ifNoneMatch, fallback);
      ghost var served := store.Served(fallback);
      if served.Some? && lastBody.Some? { OwnTagMatches(lastBody.value, served.value, store.digest); }
      match reply {
        case Missing => FinishPoll(Fetched(false, "", None), now);
        case NotModified(_) => FinishPoll(Unchanged, now);
        case Content(body, tag) => FinishPoll(Fetched(true, body, Some(tag)), now);
      }
    }
  }

  /******* Files *******/

  /** What a look at the file finds: its modification time, and its text unless reading fails. */
  datatype Look = Absent | Present(mtime: int, text: Option<string>)

  class FilePolicyLoader<P> {
    const compiler: Compiler<P>
    var state: Option<P>
    var lastMtime: Option<int>
    var missing: bool
    ghost var lastLook: Look

    /** The state comes from the last look that read the file; while the file is missing there is none. */
    ghost predicate Valid()
      reads this
    {
      && lastMtime == (if lastLook.Present? then Some(lastLook.mtime) else None)
      && (missing <==> lastLook.Absent?)
      && state == StateOf(lastLook)
    }

    function StateOf(look: Look): Option<P> {
      match look
      case Absent => None
      case Present(_, text) => if text.None? then None else compiler(text.value)
    }

    constructor (compiler: Compiler<P>, look: Look)
      ensures Valid() && this.compiler == compiler && lastLook == look
    {
      this.compiler := compiler;
      missing, lastMtime, state := look.Absent?, None, None;
      lastLook := look;
      new;
      if look.Present? {
        state := if look.text.None? then None else compiler(look.text.value);
        lastMtime := Some(look.mtime);
      }
    }

    /** A changed modification time reads the file again; a missing file closes until it reappears. */
    method Current(look: Look) returns (r: Option<P>)
      requires Valid()
      modifies this
      ensures Valid() && r == state
      ensures lastLook == if look.Present? && old(lastLook).Present? && old(lastLook).mtime == look.mtime
                          then old(lastLook) else look
      ensures (look.Present? && old(lastLook).Present? && old(lastLook).mtime == look.mtime ==>
                 old(lastLook) == look) ==>
        r == StateOf(look)
    {
      if look.Absent? {
        if !missing {
          missing, lastMtime, state := true, None, None;
          lastLook := look;
        }
        return state;
      }
      missing := false;
      if lastMtime == Some(look.mtime) { return state; }
      state := if look.text.None? then None else compiler(look.text.value);
      lastMtime := Some(look.mtime);
      lastLook := look;
      return state;
    }
  }
}
