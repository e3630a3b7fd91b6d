/** The leader/follower batching of concurrent package queries, as a state machine over the threads' steps. */
module BatchProtocol {
  import opened Base
  import OsvQuery

  type Key = (string, string)

  /** A reply, and the query it answers. */
  datatype Page = Page(query: Key, body: OsvQuery.Page)

  /** The shared object the threads asking for one package wait on. */
  datatype Query = Query(key: Key, result: Option<Page>, error: bool, event: bool)

  datatype Outcome = Got(page: Page) | Failed | NoAnswer

  datatype Phase =
    | Start
    | Leading(own: nat)
    | Resolving(own: nat, batch: seq<nat>, next: nat)
    | Signalling(own: nat, batch: seq<nat>, next: nat)
    | Waiting(own: nat)
    | Done(own: nat, outcome: Outcome)

  datatype Thread = Thread(key: Key, phase: Phase)

  datatype State = State(threads: seq<Thread>, queries: seq<Query>, pending: map<Key, nat>, active: bool)

  datatype Step =
    | Enter
    | Drain(batch: seq<nat>)
    | Answer(body: OsvQuery.Page)
    | Fail
    | Finish
    | Signal
    | LeaderReturns
    | WaiterReturns

  /******* Steps *******/

  function Initial(keys: seq<Key>): State {
    State(seq(|keys|, i requires 0 <= i < |keys| => Thread(keys[i], Start)), [], map[], false)
  }

  /** `list(pending.values())`, in whatever order. */
  predicate Enumerates(batch: seq<nat>, pending: map<Key, nat>) {
    Distinct(batch) && (set q | q in batch) == pending.Values
  }

  predicate Enabled(s: State, t: nat, step: Step)
    requires t < |s.threads|
  {
    var phase := s.threads[t].phase;
    match step
    case Enter => phase.Start?
    case Drain(batch) => phase.Leading? && Enumerates(batch, s.pending)
    case Answer(_) => phase.Resolving? && phase.next < |phase.batch| && phase.batch[phase.next] < |s.queries|
    case Fail => phase.Resolving?
    case Finish => phase.Resolving? && phase.next == |phase.batch|
    case Signal => phase.Signalling? && phase.next < |phase.batch| && phase.batch[phase.next] < |s.queries|
    case LeaderReturns => phase.Signalling? && phase.next == |phase.batch| && phase.own < |s.queries|
    case WaiterReturns => phase.Waiting? && phase.own < |s.queries| && s.queries[phase.own].event
  }

  function OutcomeOf(q: Query): Outcome {
    if q.error then Failed else if q.result.None? then NoAnswer else Got(q.result.value)
  }

  function WithErrors(queries: seq<Query>, batch: seq<nat>): seq<Query> {
    seq(|queries|, i requires 0 <= i < |queries| => if i in batch then queries[i].(error := true) else queries[i])
  }

  function To(s: State, t: nat, phase: Phase): seq<Thread>
    requires t < |s.threads|
  {
    s.threads[t := s.threads[t].(phase := phase)]
  }

  function Apply(s: State, t: nat, step: Step): State
    requires t < |s.threads| && Enabled(s, t, step)
  {
    var thread := s.threads[t];
    match step
    case Enter =>
      var known := thread.key in s.pending;
      var own := if known then s.pending[thread.key] else |s.queries|;
      State(
        To(s, t, if s.active then Waiting(own) else Leading(own)),
        if known then s.queries else s.queries + [Query(thread.key, None, false, false)],
        if known then s.pending else s.pending[thread.key := own],
        true)
    case Drain(batch) => State(To(s, t, Resolving(thread.phase.own, batch, 0)), s.queries, map[], false)
    case Answer(body) =>
      var q := thread.phase.batch[thread.phase.next];
      s.(threads := To(s, t, Resolving(thread.phase.own, thread.phase.batch, thread.phase.next + 1)),
         queries := s.queries[q := s.queries[q].(result := Some(Page(s.queries[q].key, body)))])
    case Fail =>
      s.(threads := To(s, t, Signalling(thread.phase.own, thread.phase.batch, 0)),
         queries := WithErrors(s.queries, thread.phase.batch))
    case Finish => s.(threads := To(s, t, Signalling(thread.phase.own, thread.phase.batch, 0)))
    case Signal =>
      var q := thread.phase.batch[thread.phase.next];
      s.(threads := To(s, t, Signalling(thread.phase.own, thread.phase.batch, thread.phase.next + 1)),
         queries := s.queries[q := s.queries[q].(event := true)])
    case LeaderReturns => s.(threads := To(s, t, Done(thread.phase.own, OutcomeOf(s.queries[thread.phase.own]))))
    case WaiterReturns => s.(threads := To(s, t, Done(thread.phase.own, OutcomeOf(s.queries[thread.phase.own]))))
  }

  /******* The invariant *******/

  predicate IsPending(s: State, q: nat) {
    q < |s.queries| && s.queries[q].key in s.pending && s.pending[s.queries[q].key] == q
  }

  /** Pending queries are the untouched ones of their key. */
  ghost predicate PendingOk(s: State) {
    forall k | k in s.pending ::
      && s.pending[k] < |s.queries|
      && s.queries[s.pending[k]] == Query(k, None, false, false)
  }

  /** The flag is up exactly while a leader has not drained yet, there is at most one, and without it nothing is
      pending. */
  ghost predicate ActiveOk(s: State) {
    && (s.active <==> exists t | 0 <= t < |s.threads| :: s.threads[t].phase.Leading?)
    && (forall t, u | 0 <= t < |s.threads| && 0 <= u < |s.threads|
                      && s.threads[t].phase.Leading? && s.threads[u].phase.Leading? :: t == u)
    && (!s.active ==> s.pending == map[])
  }

  predicate HasBatch(phase: Phase) { phase.Resolving? || phase.Signalling? }

  /** A drained batch: its queries are distinct, no longer pending, and the leader's own is among them. */
  ghost predicate BatchOk(s: State, thread: Thread) {
    var phase := thread.phase;
    HasBatch(phase) ==>
      && Distinct(phase.batch) && phase.next <= |phase.batch| && phase.own in phase.batch
      && (forall j | 0 <= j < |phase.batch| :: phase.batch[j] < |s.queries| && !IsPending(s, phase.batch[j]))
  }

  /** How far the resolving and the signalling have come. */
  ghost predicate ProgressOk(s: State, phase: Phase)
    requires HasBatch(phase) ==> forall j | 0 <= j < |phase.batch| :: phase.batch[j] < |s.queries|
  {
    && (phase.Resolving? ==> forall j | 0 <= j < |phase.batch| ::
          var q := s.queries[phase.batch[j]];
          !q.error && !q.event && (q.result.Some? <==> j < phase.next))
    && (phase.Signalling? ==> forall j | 0 <= j < |phase.batch| ::
          var q := s.queries[phase.batch[j]];
          (q.error || q.result.Some?) && (q.event <==> j < phase.next))
  }

  /** A thread's own query is for its own key, and what it returned is what became of that query. */
  ghost predicate OwnOk(s: State, thread: Thread) {
    match thread.phase
    case Start => true
    case Leading(own) => own < |s.queries| && s.queries[own].key == thread.key && IsPending(s, own)
    case Resolving(own, _, _) => own < |s.queries| && s.queries[own].key == thread.key
    case Signalling(own, _, _) => own < |s.queries| && s.queries[own].key == thread.key
    case Waiting(own) => own < |s.queries| && s.queries[own].key == thread.key
    case Done(own, outcome) =>
      && own < |s.queries| && s.queries[own].key == thread.key
      && s.queries[own].event && outcome == OutcomeOf(s.queries[own])
      && !outcome.NoAnswer? && (outcome.Got? ==> outcome.page.query == thread.key)
  }

  ghost predicate Disjoint(s: State) {
    forall t, u | 0 <= t < |s.threads| && 0 <= u < |s.threads| && t != u
                  && HasBatch(s.threads[t].phase) && HasBatch(s.threads[u].phase) ::
      forall q | q in s.threads[t].phase.batch :: q !in s.threads[u].phase.batch
  }

  ghost predicate QueryOk(q: Query) {
    && (q.result.Some? ==> q.result.value.query == q.key)
    && (q.event ==> q.error || q.result.Some?)
  }

  predicate InHand(s: State, q: nat, t: nat) {
    t < |s.threads| && HasBatch(s.threads[t].phase) && q in s.threads[t].phase.batch
  }

  /** Somebody will set the event: it is set, the query is pending, or a leader has it in hand. */
  ghost predicate Attended(s: State, q: nat)
    requires q < |s.queries|
  {
    s.queries[q].event || IsPending(s, q) || exists t :: InHand(s, q, t)
  }

  ghost predicate ThreadsOk(s: State) {
    forall t | 0 <= t < |s.threads| ::
      OwnOk(s, s.threads[t]) && BatchOk(s, s.threads[t]) && ProgressOk(s, s.threads[t].phase)
  }

  ghost predicate QueriesOk(s: State) {
    forall q | 0 <= q < |s.queries| :: QueryOk(s.queries[q]) && Attended(s, q)
  }

  ghost predicate Inv(s: State) {
    PendingOk(s) && ActiveOk(s) && ThreadsOk(s) && Disjoint(s) && QueriesOk(s)
  }

  lemma InitialInv(keys: seq<Key>)
    ensures Inv(Initial(keys))
  {
  }

  /******* Every step keeps the invariant *******/

  ghost predicate ThreadOk(s: State, thread: Thread) {
    OwnOk(s, thread) && BatchOk(s, thread) && ProgressOk(s, thread.phase)
  }

  /** What a step of another thread leaves alone. */
  ghost predicate Untouched(s: State, r: State, thread: Thread) {
    && |s.queries| <= |r.queries|
    && (forall q | 0 <= q < |s.queries| ::
          r.queries[q].key == s.queries[q].key && (IsPending(r, q) ==> IsPending(s, q)))
    && (thread.phase.Leading? && thread.phase.own < |s.queries| && IsPending(s, thread.phase.own) ==>
          IsPending(r, thread.phase.own))
    && (HasBatch(thread.phase) ==> forall j | 0 <= j < |thread.phase.batch| && thread.phase.batch[j] < |s.queries| ::
          r.queries[thread.phase.batch[j]] == s.queries[thread.phase.batch[j]])
    && (thread.phase.Done? && thread.phase.own < |s.queries| && s.queries[thread.phase.own].event ==>
          r.queries[thread.phase.own] == s.queries[thread.phase.own])
  }

  lemma ThreadFrame(s: State, r: State, thread: Thread)
    requires ThreadOk(s, thread) && Untouched(s, r, thread)
    ensures ThreadOk(r, thread)
  {
  }

  /** A step of `t` that leaves the other threads alone keeps them in order. */
  lemma OthersFrame(s: State, r: State, t: nat)
    requires ThreadsOk(s) && t < |s.threads| && |r.threads| == |s.threads| && ThreadOk(r, r.threads[t])
    requires forall u | 0 <= u < |s.threads| && u != t :: r.threads[u] == s.threads[u] && Untouched(s, r, s.threads[u])
    ensures ThreadsOk(r)
  {
    forall u | 0 <= u < |r.threads| && u != t ensures ThreadOk(r, r.threads[u]) {
      assert ThreadOk(s, s.threads[u]);
      ThreadFrame(s, r, s.threads[u]);
    }
  }

  lemma StillAttended(s: State, r: State, q: nat)
    requires q < |s.queries| && q < |r.queries| && Attended(s, q)
    requires s.queries[q].event ==> r.queries[q].event
    requires IsPending(s, q) ==> IsPending(r, q) || exists u :: InHand(r, q, u)
    requires forall u | InHand(s, q, u) :: InHand(r, q, u) || r.queries[q].event
    ensures Attended(r, q)
  {
    if u :| InHand(s, q, u) { assert InHand(r, q, u) || r.queries[q].event; }
  }

  /* Enter */

  lemma EnterKeepsQueries(s: State, t: nat)
    requires Inv(s) && t < |s.threads| && Enabled(s, t, Enter)
    ensures PendingOk(Apply(s, t, Enter)) && QueriesOk(Apply(s, t, Enter))
  {
    var r := Apply(s, t, Enter);
    forall q | 0 <= q < |r.queries| ensures Attended(r, q) {
      if q < |s.queries| {
        forall u: nat | InHand(s, q, u) ensures InHand(r, q, u) { assert r.threads[u] == s.threads[u]; }
        StillAttended(s, r, q);
      } else {
        assert IsPending(r, q);
      }
    }
  }

  lemma EnterKeepsActive(s: State, t: nat)
    requires Inv(s) && t < |s.threads| && Enabled(s, t, Enter)
    ensures ActiveOk(Apply(s, t, Enter)) && Disjoint(Apply(s, t, Enter))
  {
    var r := Apply(s, t, Enter);
    if s.active {
      var u :| 0 <= u < |s.threads| && s.threads[u].phase.Leading?;
      assert r.threads[u].phase.Leading?;
    } else {
      assert r.threads[t].phase.Leading?;
    }
  }

  lemma EnterKeepsThreads(s: State, t: nat)
    requires Inv(s) && t < |s.threads| && Enabled(s, t, Enter)
    ensures ThreadsOk(Apply(s, t, Enter))
  {
    var r := Apply(s, t, Enter);
    forall u | 0 <= u < |s.threads| && u != t ensures Untouched(s, r, s.threads[u]) {}
    OthersFrame(s, r, t);
  }

  /* Drain */

  lemma PendingIsBatch(s: State, batch: seq<nat>, q: nat)
    requires PendingOk(s) && Enumerates(batch, s.pending)
    ensures q in batch <==> q < |s.queries| && IsPending(s, q)
  {
    assert q in batch <==> q in s.pending.Values;
    if q in s.pending.Values {
      var k :| k in s.pending && s.pending[k] == q;
    }
  }

  lemma DrainKeepsInv(s: State, t: nat, batch: seq<nat>)
    requires Inv(s) && t < |s.threads| && Enabled(s, t, Drain(batch))
    ensures Inv(Apply(s, t, Drain(batch)))
  {
    var r := Apply(s, t, Drain(batch));
    forall q: nat ensures q in batch <==> q < |s.queries| && IsPending(s, q) {
      PendingIsBatch(s, batch, q);
    }
    forall j | 0 <= j < |batch| ensures batch[j] < |s.queries| && IsPending(s, batch[j]) {
      assert batch[j] in batch;
    }
    OthersFrame(s, r, t);
    DrainKeepsRest(s, t, batch);
  }

  lemma DrainKeepsRest(s: State, t: nat, batch: seq<nat>)
    requires Inv(s) && t < |s.threads| && Enabled(s, t, Drain(batch))
    requires forall q: nat :: q in batch <==> q < |s.queries| && IsPending(s, q)
    ensures ActiveOk(Apply(s, t, Drain(batch))) && QueriesOk(Apply(s, t, Drain(batch)))
    ensures Disjoint(Apply(s, t, Drain(batch)))
  {
    var r := Apply(s, t, Drain(batch));
    forall q | 0 <= q < |r.queries| ensures Attended(r, q) {
      if IsPending(s, q) { assert InHand(r, q, t); }
      StillAttended(s, r, q);
    }
    forall u, q | 0 <= u < |s.threads| && HasBatch(s.threads[u].phase) && q in s.threads[u].phase.batch
      ensures q !in batch
    {
      assert BatchOk(s, s.threads[u]);
    }
  }

  /* Answer, Fail, Finish and Signal: only the thread's own batch is touched */

  /** A step on the thread's own batch: its queries may change, the batch and everything else stay. */
  ghost predicate OwnBatchStep(s: State, r: State, t: nat) {
    && t < |s.threads| && |r.threads| == |s.threads| && |r.queries| == |s.queries|
    && r.pending == s.pending && r.active == s.active
    && (forall u | 0 <= u < |s.threads| && u != t :: r.threads[u] == s.threads[u])
    && HasBatch(s.threads[t].phase) && HasBatch(r.threads[t].phase)
    && r.threads[t].phase.batch == s.threads[t].phase.batch
    && (forall q | 0 <= q < |s.queries| ::
          r.queries[q].key == s.queries[q].key && (s.queries[q].event ==> r.queries[q] == s.queries[q]))
    && (forall q | 0 <= q < |s.queries| && q !in s.threads[t].phase.batch :: r.queries[q] == s.queries[q])
  }

  lemma OwnBatchStepKeepsInv(s: State, r: State, t: nat)
    requires Inv(s) && OwnBatchStep(s, r, t) && ThreadOk(r, r.threads[t])
    requires forall q | 0 <= q < |r.queries| :: QueryOk(r.queries[q])
    ensures Inv(r)
  {
    forall k | k in r.pending ensures r.queries[r.pending[k]] == Query(k, None, false, false) {
      assert IsPending(s, s.pending[k]);
      assert BatchOk(s, s.threads[t]);
    }
    forall u | 0 <= u < |s.threads| && u != t ensures Untouched(s, r, s.threads[u]) {
      assert ThreadOk(s, s.threads[u]);
      OtherBatchUntouched(s, r, t, u);
    }
    OthersFrame(s, r, t);
    OwnBatchStepKeepsRest(s, r, t);
  }

  lemma OtherBatchUntouched(s: State, r: State, t: nat, u: nat)
    requires Inv(s) && OwnBatchStep(s, r, t) && u < |s.threads| && u != t
    ensures Untouched(s, r, s.threads[u])
  {
    if HasBatch(s.threads[u].phase) {
      forall j | 0 <= j < |s.threads[u].phase.batch| ensures s.threads[u].phase.batch[j] !in s.threads[t].phase.batch {
        assert s.threads[u].phase.batch[j] in s.threads[u].phase.batch;
      }
    }
  }

  lemma OwnBatchStepKeepsRest(s: State, r: State, t: nat)
    requires Inv(s) && OwnBatchStep(s, r, t)
    requires forall q | 0 <= q < |r.queries| :: QueryOk(r.queries[q])
    ensures ActiveOk(r) && Disjoint(r) && QueriesOk(r)
  {
    forall q | 0 <= q < |r.queries| ensures Attended(r, q) {
      forall u: nat | InHand(s, q, u) ensures InHand(r, q, u) {}
      StillAttended(s, r, q);
    }
    if u :| 0 <= u < |s.threads| && s.threads[u].phase.Leading? { assert r.threads[u].phase.Leading?; }
  }

  lemma InBatchOnce(batch: seq<nat>, i: nat, j: nat)
    requires Distinct(batch) && i < |batch| && j < |batch| && i != j
    ensures batch[i] != batch[j]
  {
  }

  lemma AnswerKeepsInv(s: State, t: nat, body: OsvQuery.Page)
    requires Inv(s) && t < |s.threads| && Enabled(s, t, Answer(body))
    ensures Inv(Apply(s, t, Answer(body)))
  {
    AnswerKeepsOwn(s, t, body);
    OwnBatchStepKeepsInv(s, Apply(s, t, Answer(body)), t);
  }

  lemma AnswerKeepsOwn(s: State, t: nat, body: OsvQuery.Page)
    requires Inv(s) && t < |s.threads| && Enabled(s, t, Answer(body))
    ensures var r := Apply(s, t, Answer(body));
      OwnBatchStep(s, r, t) && ThreadOk(r, r.threads[t]) && forall q | 0 <= q < |r.queries| :: QueryOk(r.queries[q])
  {
    var r, phase := Apply(s, t, Answer(body)), s.threads[t].phase;
    assert ThreadOk(s, s.threads[t]);
    assert phase.batch[phase.next] in phase.batch;
    forall j | 0 <= j < |phase.batch| && j != phase.next
      ensures r.queries[phase.batch[j]] == s.queries[phase.batch[j]]
    {
      if j < phase.next { InBatchOnce(phase.batch, j, phase.next); } else { InBatchOnce(phase.batch, phase.next, j); }
    }
  }

  lemma SignalKeepsInv(s: State, t: nat)
    requires Inv(s) && t < |s.threads| && Enabled(s, t, Signal)
    ensures Inv(Apply(s, t, Signal))
  {
    SignalKeepsOwn(s, t);
    OwnBatchStepKeepsInv(s, Apply(s, t, Signal), t);
  }

  lemma SignalKeepsOwn(s: State, t: nat)
    requires Inv(s) && t < |s.threads| && Enabled(s, t, Signal)
    ensures var r := Apply(s, t, Signal);
      OwnBatchStep(s, r, t) && ThreadOk(r, r.threads[t]) && forall q | 0 <= q < |r.queries| :: QueryOk(r.queries[q])
  {
    var r, phase := Apply(s, t, Signal), s.threads[t].phase;
    assert ThreadOk(s, s.threads[t]);
    assert phase.batch[phase.next] in phase.batch;
    forall j | 0 <= j < |phase.batch| && j != phase.next
      ensures r.queries[phase.batch[j]] == s.queries[phase.batch[j]]
    {
      if j < phase.next { InBatchOnce(phase.batch, j, phase.next); } else { InBatchOnce(phase.batch, phase.next, j); }
    }
  }

  lemma FailKeepsInv(s: State, t: nat)
    requires Inv(s) && t < |s.threads| && Enabled(s, t, Fail)
    ensures Inv(Apply(s, t, Fail))
  {
    var r := Apply(s, t, Fail);
    assert ThreadOk(s, s.threads[t]);
    forall j | 0 <= j < |s.threads[t].phase.batch| ensures s.threads[t].phase.batch[j] in s.threads[t].phase.batch {}
    OwnBatchStepKeepsInv(s, r, t);
  }

  lemma FinishKeepsInv(s: State, t: nat)
    requires Inv(s) && t < |s.threads| && Enabled(s, t, Finish)
    ensures Inv(Apply(s, t, Finish))
  {
    assert ThreadOk(s, s.threads[t]);
    OwnBatchStepKeepsInv(s, Apply(s, t, Finish), t);
  }

  /* Return */

  lemma ReturnKeepsInv(s: State, t: nat, step: Step)
    requires Inv(s) && t < |s.threads| && Enabled(s, t, step) && (step.LeaderReturns? || step.WaiterReturns?)
    ensures Inv(Apply(s, t, step))
  {
    var r := Apply(s, t, step);
    assert ThreadOk(s, s.threads[t]);
    var own := s.threads[t].phase.own;
    if step.LeaderReturns? {
      var j :| 0 <= j < |s.threads[t].phase.batch| && s.threads[t].phase.batch[j] == own;
      assert s.queries[own].event;
    }
    assert QueryOk(s.queries[own]) && s.queries[own].event;
    forall u | 0 <= u < |s.threads| && u != t ensures Untouched(s, r, s.threads[u]) {}
    OthersFrame(s, r, t);
    ReturnKeepsRest(s, t, step);
  }

  lemma ReturnKeepsRest(s: State, t: nat, step: Step)
    requires Inv(s) && t < |s.threads| && Enabled(s, t, step) && (step.LeaderReturns? || step.WaiterReturns?)
    ensures var r := Apply(s, t, step); ActiveOk(r) && Disjoint(r) && QueriesOk(r)
  {
    var r := Apply(s, t, step);
    assert ThreadOk(s, s.threads[t]);
    forall q | 0 <= q < |r.queries| ensures Attended(r, q) {
      forall u: nat | InHand(s, q, u) ensures InHand(r, q, u) || r.queries[q].event {
        if u == t {
          var j :| 0 <= j < |s.threads[t].phase.batch| && s.threads[t].phase.batch[j] == q;
        }
      }
      StillAttended(s, r, q);
    }
    if u :| 0 <= u < |s.threads| && s.threads[u].phase.Leading? { assert r.threads[u].phase.Leading?; }
  }

  /** Every step of every thread keeps the invariant. */
  lemma StepKeepsInv(s: State, t: nat, step: Step)
    requires Inv(s) && t < |s.threads| && Enabled(s, t, step)
    ensures Inv(Apply(s, t, step))
  {
    match step
    case Enter =>
      EnterKeepsQueries(s, t);
      EnterKeepsActive(s, t);
      EnterKeepsThreads(s, t);
    case Drain(batch) => DrainKeepsInv(s, t, batch);
    case Answer(body) => AnswerKeepsInv(s, t, body);
    case Fail => FailKeepsInv(s, t);
    case Finish => FinishKeepsInv(s, t);
    case Signal => SignalKeepsInv(s, t);
    case LeaderReturns => ReturnKeepsInv(s, t, step);
    case WaiterReturns => ReturnKeepsInv(s, t, step);
  }

  /******* Progress *******/

  function PhaseRank(phase: Phase): nat {
    match phase
    case Start => 10
    case Leading(_) => 4
    case Resolving(_, _, _) => 3
    case Signalling(_, _, _) => 2
    case Waiting(_) => 1
    case Done(_, _) => 0
  }

  function QueryRank(q: Query): nat {
    (if q.event then 0 else 1) + if q.error || q.result.Some? then 0 else 1
  }

  function ThreadsRank(threads: seq<Thread>): nat {
    if threads == [] then 0 else ThreadsRank(threads[..|threads| - 1]) + PhaseRank(threads[|threads| - 1].phase)
  }

  function QueriesRank(queries: seq<Query>): nat {
    if queries == [] then 0 else QueriesRank(queries[..|queries| - 1]) + QueryRank(queries[|queries| - 1])
  }

  function Rank(s: State): nat { ThreadsRank(s.threads) + QueriesRank(s.queries) }

  lemma {:induction false} ThreadsRankUpdate(threads: seq<Thread>, t: nat, thread: Thread)
    requires t < |threads|
    ensures ThreadsRank(threads[t := thread])
         == ThreadsRank(threads) - PhaseRank(threads[t].phase) + PhaseRank(thread.phase)
  {
    var n := |threads| - 1;
    if t < n {
      ThreadsRankUpdate(threads[..n], t, thread);
      assert threads[t := thread][..n] == threads[..n][t := thread];
    } else {
      assert threads[t := thread][..n] == threads[..n];
    }
  }

  lemma {:induction false} QueriesRankBelow(before: seq<Query>, after: seq<Query>)
    requires |before| == |after| && forall q | 0 <= q < |before| :: QueryRank(after[q]) <= QueryRank(before[q])
    ensures QueriesRank(after) <= QueriesRank(before)
    ensures (exists q :: 0 <= q < |before| && QueryRank(after[q]) < QueryRank(before[q])) ==>
      QueriesRank(after) < QueriesRank(before)
  {
    if before != [] {
      QueriesRankBelow(before[..|before| - 1], after[..|after| - 1]);
      if q :| 0 <= q < |before| && QueryRank(after[q]) < QueryRank(before[q]) {
        if q < |before| - 1 { assert QueryRank(after[..|after| - 1][q]) < QueryRank(before[..|before| - 1][q]); }
      }
    }
  }

  /** Every step lowers the rank: a run takes at most as many steps as the rank of its first state. */
  lemma StepLowersRank(s: State, t: nat, step: Step)
    requires Inv(s) && t < |s.threads| && Enabled(s, t, step)
    ensures Rank(Apply(s, t, step)) < Rank(s)
  {
    var r := Apply(s, t, step);
    ThreadsRankUpdate(s.threads, t, r.threads[t]);
    assert r.threads == s.threads[t := r.threads[t]];
    StepLowersPhase(s, t, step);
    if step.Enter? { EnterAddsOneQuery(s, t); } else { StepLowersQueries(s, t, step); }
  }

  /** How far a step lowers its own thread's rank; answering and signalling lower the query's instead. */
  lemma StepLowersPhase(s: State, t: nat, step: Step)
    requires t < |s.threads| && Enabled(s, t, step)
    ensures PhaseRank(Apply(s, t, step).threads[t].phase)
            <= PhaseRank(s.threads[t].phase) - if step.Enter? then 6 else if step.Answer? || step.Signal? then 0 else 1
  {
  }

  lemma EnterAddsOneQuery(s: State, t: nat)
    requires t < |s.threads| && Enabled(s, t, Enter)
    ensures QueriesRank(Apply(s, t, Enter).queries) <= QueriesRank(s.queries) + 2
  {
    var r := Apply(s, t, Enter);
    if |r.queries| > |s.queries| { assert r.queries[..|s.queries|] == s.queries; }
  }

  lemma StepLowersQueries(s: State, t: nat, step: Step)
    requires Inv(s) && t < |s.threads| && Enabled(s, t, step) && !step.Enter?
    ensures var r := Apply(s, t, step);
      && QueriesRank(r.queries) <= QueriesRank(s.queries)
      && (step.Answer? || step.Signal? ==> QueriesRank(r.queries) < QueriesRank(s.queries))
  {
    var r := Apply(s, t, step);
    assert ThreadOk(s, s.threads[t]);
    if step.Answer? || step.Signal? {
      var q := s.threads[t].phase.batch[s.threads[t].phase.next];
      assert QueryRank(r.queries[q]) < QueryRank(s.queries[q]);
      assert forall p | 0 <= p < |s.queries| && p != q :: r.queries[p] == s.queries[p];
    }
    QueriesRankBelow(s.queries, r.queries);
  }

  lemma {:induction false} SomeEnumeration(values: set<nat>)
    ensures exists batch: seq<nat> :: Distinct(batch) && (set q | q in batch) == values
  {
    if values == {} {
      var none: seq<nat> := [];
      assert Distinct(none) && (set q | q in none) == values;
    } else {
      var x :| x in values;
      SomeEnumeration(values - {x});
      var rest: seq<nat> :| Distinct(rest) && (set q | q in rest) == values - {x};
      var batch := rest + [x];
      assert x !in (set q | q in rest);
      var elements, before := set q | q in batch, set q | q in rest;
      forall q ensures q in elements <==> q in before || q == x {
        assert q in elements <==> q in rest || q == x;
      }
      assert before == values - {x};
      assert before + {x} == values;
      assert elements == before + {x};
      assert Distinct(batch);
    }
  }

  /** Some thread can take a step that is no failure. */
  ghost predicate CanGoOn(s: State) {
    exists t: nat, step :: t < |s.threads| && step != Fail && Enabled(s, t, step)
  }

  lemma LeaderCanGoOn(s: State, t: nat)
    requires Inv(s) && t < |s.threads| && (s.threads[t].phase.Leading? || HasBatch(s.threads[t].phase))
    ensures CanGoOn(s)
  {
    var phase := s.threads[t].phase;
    assert ThreadOk(s, s.threads[t]);
    if phase.Leading? {
      SomeEnumeration(s.pending.Values);
      var batch: seq<nat> :| Distinct(batch) && (set q | q in batch) == s.pending.Values;
      assert Enabled(s, t, Drain(batch));
    } else if phase.Resolving? && phase.next < |phase.batch| {
      assert Enabled(s, t, Answer(OsvQuery.Page([], None)));
    } else if phase.Resolving? {
      assert Enabled(s, t, Finish);
    } else if phase.next < |phase.batch| {
      assert Enabled(s, t, Signal);
    } else {
      assert Enabled(s, t, LeaderReturns);
    }
  }

  /** While a thread is not done, some thread can take a step that is no failure: nobody waits forever. */
  lemma NoDeadlock(s: State, t: nat)
    requires Inv(s) && t < |s.threads| && !s.threads[t].phase.Done?
    ensures CanGoOn(s)
  {
    assert ThreadOk(s, s.threads[t]);
    match s.threads[t].phase
    case Start => assert Enabled(s, t, Enter);
    case Leading(_) => LeaderCanGoOn(s, t);
    case Resolving(_, _, _) => LeaderCanGoOn(s, t);
    case Signalling(_, _, _) => LeaderCanGoOn(s, t);
    case Waiting(own) =>
      assert Attended(s, own);
      if s.queries[own].event {
        assert Enabled(s, t, WaiterReturns);
      } else if IsPending(s, own) {
        var u :| 0 <= u < |s.threads| && s.threads[u].phase.Leading?;
        LeaderCanGoOn(s, u);
      } else {
        var u :| InHand(s, own, u);
        LeaderCanGoOn(s, u);
      }
    case Done(_, _) =>
  }

  /******* Whole runs *******/

  datatype Move = Move(thread: nat, step: Step)

  predicate IsRun(s: State, moves: seq<Move>)
    decreases |moves|
  {
    moves == [] ||
    (moves[0].thread < |s.threads| && Enabled(s, moves[0].thread, moves[0].step)
     && IsRun(Apply(s, moves[0].thread, moves[0].step), moves[1..]))
  }

  function After(s: State, moves: seq<Move>): State
    requires IsRun(s, moves)
    decreases |moves|
  {
    if moves == [] then s else After(Apply(s, moves[0].thread, moves[0].step), moves[1..])
  }

  lemma {:induction false} RunKeepsInv(s: State, moves: seq<Move>)
    requires Inv(s) && IsRun(s, moves)
    ensures Inv(After(s, moves)) && Rank(After(s, moves)) + |moves| <= Rank(s)
    ensures |After(s, moves).threads| == |s.threads|
    ensures forall t | 0 <= t < |s.threads| :: After(s, moves).threads[t].key == s.threads[t].key
    decreases |moves|
  {
    if moves != [] {
      StepKeepsInv(s, moves[0].thread, moves[0].step);
      StepLowersRank(s, moves[0].thread, moves[0].step);
      RunKeepsInv(Apply(s, moves[0].thread, moves[0].step), moves[1..]);
    }
  }

  lemma {:induction false} InitialRank(keys: seq<Key>)
    ensures Rank(Initial(keys)) == 10 * |keys|
  {
    if keys != [] {
      InitialRank(keys[..|keys| - 1]);
      assert Initial(keys).threads[..|keys| - 1] == Initial(keys[..|keys| - 1]).threads;
    }
  }

  /******* Who fails *******/

  /** The queries a step strikes: the whole batch of the leader whose request fails. */
  function StruckBy(s: State, t: nat, step: Step): set<nat>
    requires t < |s.threads| && Enabled(s, t, step)
  {
    if step.Fail? then set q | q in s.threads[t].phase.batch else {}
  }

  /** The queries that were in a batch when it failed. */
  function Struck(s: State, moves: seq<Move>): set<nat>
    requires IsRun(s, moves)
    decreases |moves|
  {
    if moves == [] then {}
    else
      var t, step := moves[0].thread, moves[0].step;
      StruckBy(s, t, step) + Struck(Apply(s, t, step), moves[1..])
  }

  /** Exactly the struck queries have an error. */
  ghost predicate ErrorsAre(s: State, struck: set<nat>) {
    && (forall q | q in struck :: q < |s.queries|)
    && forall q | 0 <= q < |s.queries| :: s.queries[q].error <==> q in struck
  }

  lemma StepStrikes(s: State, t: nat, step: Step, struck: set<nat>)
    requires Inv(s) && t < |s.threads| && Enabled(s, t, step) && ErrorsAre(s, struck)
    ensures ErrorsAre(Apply(s, t, step), struck + StruckBy(s, t, step))
  {
    if step.Fail? {
      var batch := s.threads[t].phase.batch;
      assert ThreadOk(s, s.threads[t]);
      forall q | q in batch ensures q < |s.queries| {
        var j :| 0 <= j < |batch| && batch[j] == q;
      }
    }
  }

  lemma {:induction false} RunStrikes(s: State, moves: seq<Move>, struck: set<nat>)
    requires Inv(s) && IsRun(s, moves) && ErrorsAre(s, struck)
    ensures ErrorsAre(After(s, moves), struck + Struck(s, moves))
    decreases |moves|
  {
    if moves == [] {
      assert struck + Struck(s, moves) == struck;
    } else {
      var t, step := moves[0].thread, moves[0].step;
      var more := struck + StruckBy(s, t, step);
      StepKeepsInv(s, t, step);
      StepStrikes(s, t, step, struck);
      RunStrikes(Apply(s, t, step), moves[1..], more);
      assert more + Struck(Apply(s, t, step), moves[1..]) == struck + Struck(s, moves);
    }
  }

  lemma {:induction false} NothingStruck(s: State, moves: seq<Move>)
    requires IsRun(s, moves) && forall i | 0 <= i < |moves| :: moves[i].step != Fail
    ensures Struck(s, moves) == {}
    decreases |moves|
  {
    if moves != [] {
      assert moves[0].step != Fail;
      forall i | 0 <= i < |moves| - 1 ensures moves[1..][i].step != Fail { assert moves[1..][i] == moves[i + 1]; }
      NothingStruck(Apply(s, moves[0].thread, moves[0].step), moves[1..]);
    }
  }

  /** What a thread that is done returned: a page of its own package, or the error of its batch, exactly when its query
      was in a batch that failed. */
  ghost predicate Answered(s: State, t: nat, key: Key, struck: set<nat>)
    requires t < |s.threads|
  {
    && s.threads[t].phase.Done?
    && var phase := s.threads[t].phase;
       && phase.own < |s.queries| && s.queries[phase.own].key == key
       && if phase.own in struck then phase.outcome == Failed
          else phase.outcome.Got? && phase.outcome.page.query == key
  }

  lemma DoneIsAnswered(keys: seq<Key>, moves: seq<Move>, t: nat)
    requires IsRun(Initial(keys), moves) && t < |keys|
    ensures var s := After(Initial(keys), moves);
      |s.threads| == |keys|
      && (s.threads[t].phase.Done? ==> Answered(s, t, keys[t], Struck(Initial(keys), moves)))
  {
    var s := After(Initial(keys), moves);
    InitialInv(keys);
    RunKeepsInv(Initial(keys), moves);
    RunStrikes(Initial(keys), moves, {});
    assert {} + Struck(Initial(keys), moves) == Struck(Initial(keys), moves);
    assert ThreadOk(s, s.threads[t]);
  }

  /** Any interleaving ends within ten steps a thread. When no thread can go on, every thread has a page of its own
      package, but for those whose query was in a batch that failed: they have its error. */
  lemma EveryThreadIsAnswered(keys: seq<Key>, moves: seq<Move>)
    requires IsRun(Initial(keys), moves)
    ensures |moves| <= 10 * |keys|
    ensures var s := After(Initial(keys), moves);
      !CanGoOn(s) ==>
        |s.threads| == |keys| && forall t | 0 <= t < |keys| :: Answered(s, t, keys[t], Struck(Initial(keys), moves))
  {
    InitialInv(keys);
    InitialRank(keys);
    RunKeepsInv(Initial(keys), moves);
    var s, struck := After(Initial(keys), moves), Struck(Initial(keys), moves);
    if !CanGoOn(s) {
      forall t | 0 <= t < |keys| ensures Answered(s, t, keys[t], struck) {
        if !s.threads[t].phase.Done? { NoDeadlock(s, t); }
        DoneIsAnswered(keys, moves, t);
      }
    }
  }

  /** Where no request fails, every thread gets a page of its own package. */
  lemma WithoutFailuresAllGetPages(keys: seq<Key>, moves: seq<Move>)
    requires IsRun(Initial(keys), moves) && forall i | 0 <= i < |moves| :: moves[i].step != Fail
    ensures var s := After(Initial(keys), moves);
      !CanGoOn(s) ==> |s.threads| == |keys| && forall t | 0 <= t < |keys| ::
        && s.threads[t].phase.Done? && s.threads[t].phase.outcome.Got?
        && s.threads[t].phase.outcome.page.query == keys[t]
  {
    NothingStruck(Initial(keys), moves);
    EveryThreadIsAnswered(keys, moves);
    var s := After(Initial(keys), moves);
    if !CanGoOn(s) {
      forall t | 0 <= t < |keys| ensures s.threads[t].phase.Done? && s.threads[t].phase.outcome.Got?
        && s.threads[t].phase.outcome.page.query == keys[t]
      {
        assert Answered(s, t, keys[t], {});
      }
    }
  }

  /******* What the answers tell reaches the threads *******/

  /** What is true of every reply to a query. */
  type Tells = (Key, OsvQuery.Page) -> bool

  ghost predicate AllTell(s: State, tells: Tells) {
    && (forall q | 0 <= q < |s.queries| && s.queries[q].result.Some? ::
          tells(s.queries[q].key, s.queries[q].result.value.body))
    && (forall t | 0 <= t < |s.threads| && s.threads[t].phase.Done? && s.threads[t].phase.outcome.Got? ::
          tells(s.threads[t].key, s.threads[t].phase.outcome.page.body))
  }

  /** The reply a step brings, if it brings one, tells of its query. */
  ghost predicate StepTells(s: State, t: nat, step: Step, tells: Tells)
    requires t < |s.threads| && Enabled(s, t, step)
  {
    step.Answer? ==> tells(s.queries[s.threads[t].phase.batch[s.threads[t].phase.next]].key, step.body)
  }

  ghost predicate RunTells(s: State, moves: seq<Move>, tells: Tells)
    requires IsRun(s, moves)
    decreases |moves|
  {
    moves == [] ||
    (StepTells(s, moves[0].thread, moves[0].step, tells)
     && RunTells(Apply(s, moves[0].thread, moves[0].step), moves[1..], tells))
  }

  lemma StepKeepsTelling(s: State, t: nat, step: Step, tells: Tells)
    requires Inv(s) && t < |s.threads| && Enabled(s, t, step) && AllTell(s, tells) && StepTells(s, t, step, tells)
    ensures AllTell(Apply(s, t, step), tells)
  {
    assert ThreadOk(s, s.threads[t]);
  }

  lemma {:induction false} RunKeepsTelling(s: State, moves: seq<Move>, tells: Tells)
    requires Inv(s) && IsRun(s, moves) && AllTell(s, tells) && RunTells(s, moves, tells)
    ensures AllTell(After(s, moves), tells)
    decreases |moves|
  {
    if moves != [] {
      StepKeepsInv(s, moves[0].thread, moves[0].step);
      StepKeepsTelling(s, moves[0].thread, moves[0].step, tells);
      RunKeepsTelling(Apply(s, moves[0].thread, moves[0].step), moves[1..], tells);
    }
  }

  /** Where every reply tells the truth of its query, a thread that got a page got one that does so of its own
      package. */
  lemma PagesTell(keys: seq<Key>, moves: seq<Move>, t: nat, tells: Tells)
    requires IsRun(Initial(keys), moves) && RunTells(Initial(keys), moves, tells) && t < |keys|
    ensures |After(Initial(keys), moves).threads| == |keys|
    ensures var phase := After(Initial(keys), moves).threads[t].phase;
      phase.Done? && phase.outcome.Got? ==> tells(keys[t], phase.outcome.page.body)
  {
    InitialInv(keys);
    RunKeepsInv(Initial(keys), moves);
    RunKeepsTelling(Initial(keys), moves, tells);
  }
}
