/** The request life cycle of the HTTP worker pool (engine/net/HttpPool.cpp), up to stop(). */
module HttpPool {
  // Callers, workers, the polling thread and HTTP/2 completions move requests between four priority
  // queues, the workers, HTTP/2 streams and a result queue.  Every locked section, every update of the
  // atomic counter and every run of a callback is one step.  Transports are the environment: which path a
  // worker takes and when a stream completes are choices of the step taken.

  import opened Common
  import opened HostPort
  import Strings

  const LEVELS := 4

  /** The completion callback of a request: null, or what its run does.  It never runs twice, so one
      outcome for each request is enough. */
  datatype Callback = Null | Returns | Throws

  /** The chunk callback of a request: null, or whether something other than a std::exception leaves it. */
  datatype ChunkCallback = Absent | Contained | Escapes

  datatype Request = Request(id: nat, host: string, priority: nat, callback: Callback, chunks: ChunkCallback) {
    const streaming := chunks != Absent

    predicate Valid() { priority < LEVELS }

    /** Something leaves one of its callbacks on the worker thread. */
    predicate ThrowsOnWorker() { chunks == Escapes || (streaming && callback == Throws) }
  }

  const NO_REQUEST := Request(0, "", 0, Null, Absent)

  type Queues = q: seq<seq<Request>> | |q| == LEVELS witness [[], [], [], []]

  // ----- Priority queues

  /** The requests of the `n` lowest levels, in the order drop_below visits them. */
  function Below(queues: Queues, n: nat): seq<Request>
    requires n <= LEVELS
  {
    if n == 0 then [] else queues[n - 1] + Below(queues, n - 1)
  }

  function Enqueue(queues: Queues, r: Request): Queues
    requires r.Valid()
  {
    queues[r.priority := queues[r.priority] + [r]]
  }

  /** The highest nonempty level among the `n` lowest, or -1. */
  function TopLevel(queues: Queues, n: nat): (level: int)
    requires n <= LEVELS
    ensures -1 <= level < n
    ensures level >= 0 ==> queues[level] != []
    ensures forall i :: level < i < n ==> queues[i] == []
  {
    if n == 0 then -1 else if queues[n - 1] != [] then n - 1 else TopLevel(queues, n - 1)
  }

  function Clear(queues: Queues, n: nat): Queues
    requires n <= LEVELS
  {
    seq(LEVELS, i requires 0 <= i < LEVELS => if i < n then [] else queues[i])
  }

  /** How often `r` stands in `q`. */
  function Occurs(q: seq<Request>, r: Request): nat {
    if q == [] then 0 else (if q[0] == r then 1 else 0) + Occurs(q[1..], r)
  }

  /** How often `r` stands in the `n` lowest levels. */
  function OccursBelow(queues: Queues, n: nat, r: Request): nat
    requires n <= LEVELS
  {
    if n == 0 then 0 else Occurs(queues[n - 1], r) + OccursBelow(queues, n - 1, r)
  }

  function SizeBelow(queues: Queues, n: nat): nat
    requires n <= LEVELS
  {
    if n == 0 then 0 else |queues[n - 1]| + SizeBelow(queues, n - 1)
  }

  lemma {:induction false} OccursConcat(a: seq<Request>, b: seq<Request>, r: Request)
    ensures Occurs(a + b, r) == Occurs(a, r) + Occurs(b, r)
  {
    if a == [] {
      assert a + b == b;
    } else {
      OccursConcat(a[1..], b, r);
      assert (a + b)[1..] == a[1..] + b;
    }
  }

  lemma {:induction false} OccursIsMultiplicity(q: seq<Request>, r: Request)
    ensures multiset(q)[r] == Occurs(q, r)
  {
    if q != [] {
      OccursIsMultiplicity(q[1..], r);
      assert q == [q[0]] + q[1..];
    }
  }

  lemma {:induction false} BelowOccurs(queues: Queues, n: nat, r: Request)
    requires n <= LEVELS
    ensures Occurs(Below(queues, n), r) == OccursBelow(queues, n, r)
    ensures |Below(queues, n)| == SizeBelow(queues, n)
  {
    if n > 0 {
      BelowOccurs(queues, n - 1, r);
      OccursConcat(queues[n - 1], Below(queues, n - 1), r);
    }
  }

  /** Replacing one level changes the totals by that level's change. */
  lemma {:induction false} LevelChange(queues: Queues, level: nat, q: seq<Request>, n: nat, r: Request)
    requires level < LEVELS && n <= LEVELS
    ensures OccursBelow(queues[level := q], n, r) - OccursBelow(queues, n, r)
         == if level < n then Occurs(q, r) - Occurs(queues[level], r) else 0
    ensures SizeBelow(queues[level := q], n) - SizeBelow(queues, n)
         == if level < n then |q| - |queues[level]| else 0
  {
    if n > 0 {
      LevelChange(queues, level, q, n - 1, r);
    }
  }

  lemma {:induction false} ClearChange(queues: Queues, t: nat, n: nat, r: Request)
    requires t <= LEVELS && n <= LEVELS
    ensures OccursBelow(Clear(queues, t), n, r)
         == OccursBelow(queues, n, r) - OccursBelow(queues, if t < n then t else n, r)
    ensures SizeBelow(Clear(queues, t), n)
         == SizeBelow(queues, n) - SizeBelow(queues, if t < n then t else n)
  {
    if n > 0 {
      ClearChange(queues, t, n - 1, r);
    }
  }

  /** How often `r` stands in the sequences of `drops`. */
  function OccursIn(drops: seq<seq<Request>>, r: Request): nat {
    if drops == [] then 0 else Occurs(drops[0], r) + OccursIn(drops[1..], r)
  }

  lemma {:induction false} OccursInAppend(drops: seq<seq<Request>>, q: seq<Request>, r: Request)
    ensures OccursIn(drops + [q], r) == OccursIn(drops, r) + Occurs(q, r)
  {
    if drops == [] {
      assert drops + [q] == [q];
    } else {
      OccursInAppend(drops[1..], q, r);
      assert (drops + [q])[1..] == drops[1..] + [q];
    }
  }

  lemma {:induction false} OccursInChange(drops: seq<seq<Request>>, k: nat, q: seq<Request>, r: Request)
    requires k < |drops|
    ensures OccursIn(drops[k := q], r) - OccursIn(drops, r) == Occurs(q, r) - Occurs(drops[k], r)
  {
    if k == 0 {
      assert drops[0 := q][1..] == drops[1..];
    } else {
      OccursInChange(drops[1..], k - 1, q, r);
      assert drops[k := q][1..] == drops[1..][k - 1 := q];
    }
  }

  /** drop_below lists its requests by falling priority. */
  lemma {:induction false} BelowFalls(queues: Queues, n: nat)
    requires LevelInv(queues) && n <= LEVELS
    ensures Falling(Below(queues, n)) && forall r :: r in Below(queues, n) ==> r.priority < n
  {
    if n > 0 {
      BelowFalls(queues, n - 1);
    }
  }

  ghost predicate LevelInv(queues: Queues) {
    forall i, r :: 0 <= i < LEVELS && r in queues[i] ==> r.priority == i
  }

  ghost predicate Falling(q: seq<Request>) {
    forall i, j :: 0 <= i < j < |q| ==> q[i].priority >= q[j].priority
  }

  // ----- The state machine

  datatype State = State(
    accepted: set<Request>,          // every request handed to get or get_streaming
    submitting: multiset<Request>,   // counted, not yet queued
    queues: Queues,
    drops: seq<seq<Request>>,        // for each call of drop_below, those whose turn has not come
    working: multiset<Request>,      // popped by a worker, transport not chosen yet
    onH1: multiset<Request>,         // in an HTTP/1.1 transfer
    onH2: multiset<Request>,         // submitted to an HTTP/2 connection
    results: seq<Request>,
    batch: seq<Request>,             // swapped out by poll, not yet delivered
    finished: multiset<Request>,
    lost: multiset<Request>,         // destroyed when poll or drop_below threw
    ran: multiset<Request>,          // one entry per run of a completion callback
    unsettled: multiset<Request>,    // past the worker, counter not yet decremented
    pending: int,
    eligible: set<string>,           // hosts with a successful HTTP/1.1 request
    terminated: bool)                // an exception has left a worker thread

  const EMPTY: Queues := [[], [], [], []]
  const INITIAL := State({}, multiset{}, EMPTY, [], multiset{}, multiset{}, multiset{}, [], [],
                         multiset{}, multiset{}, multiset{}, multiset{}, 0, {}, false)

  datatype Step =
    | Accept(r: Request)
    | Push(r: Request)
    | DropBelow(threshold: nat)
    | RunDropped(call: nat)
    | Pop
    | SubmitH2(r: Request)
    | CompleteH2(r: Request)
    | ReadPort(r: Request)
    | UseH1(r: Request)
    | ChunkEscapes(r: Request)
    | MarkEligible(r: Request)
    | FinishH1(r: Request)
    | Settle(r: Request)
    | PollSwap
    | PollNext

  /** A host whose port cannot be read is never connected to, nor among those that failed: both come after
      the port is read, or without reading it. */
  predicate Enabled(s: State, step: Step) {
    !s.terminated &&
    match step
    case Accept(r) => r !in s.accepted && r.Valid()
    case Push(r) => r in s.submitting && r.Valid()
    case DropBelow(threshold) => threshold < LEVELS
    case RunDropped(call) => call < |s.drops| && s.drops[call] != []
    case Pop => TopLevel(s.queues, LEVELS) >= 0
    case SubmitH2(r) => r in s.working && !r.streaming
    case CompleteH2(r) => r in s.onH2
    case ReadPort(r) => r in s.working && !r.streaming && r.host in s.eligible && PortThrows(r.host)
    case UseH1(r) => r in s.working
    case ChunkEscapes(r) => r in s.onH1 && r.chunks == Escapes
    case MarkEligible(r) => r in s.onH1
    case FinishH1(r) => r in s.onH1
    case Settle(r) => r in s.unsettled
    case PollSwap => s.batch == []
    case PollNext => s.batch != []
  }

  function One(r: Request): multiset<Request> { multiset{r} }

  /** The completion callback of `r`, if there is one, runs; `r` is done. */
  function Deliver(s: State, r: Request): State {
    s.(finished := s.finished + One(r), ran := if r.callback.Null? then s.ran else s.ran + One(r))
  }

  /** The next turn in the loop of drop_below: a null callback is skipped, and the rest goes with an
      exception. */
  function NextDropped(s: State, call: nat): State
    requires call < |s.drops| && s.drops[call] != []
  {
    var r, rest := s.drops[call][0], s.drops[call][1..];
    if r.callback.Throws? then
      Deliver(s, r).(drops := s.drops[call := []], lost := s.lost + multiset(rest))
    else
      Deliver(s, r).(drops := s.drops[call := rest])
  }

  /** The next turn in the loop of poll: calling a null callback throws too, before anything runs. */
  function NextResult(s: State): State
    requires s.batch != []
  {
    var r, rest := s.batch[0], s.batch[1..];
    match r.callback
    case Null => s.(batch := [], lost := s.lost + multiset(s.batch))
    case Returns => Deliver(s, r).(batch := rest)
    case Throws => Deliver(s, r).(batch := [], lost := s.lost + multiset(rest))
  }

  /** The callback handed to a connection: it queues the result if there is a callback to deliver it to. */
  function Answered(s: State, r: Request): State {
    var s1 := s.(onH2 := s.onH2 - One(r), unsettled := s.unsettled + One(r));
    if r.callback.Null? then Deliver(s1, r) else s1.(results := s.results + [r])
  }

  function Next(s: State, step: Step): State
    requires Enabled(s, step)
  {
    match step
    case Accept(r) =>
      s.(accepted := s.accepted + {r}, submitting := s.submitting + One(r), pending := s.pending + 1)
    case Push(r) => s.(submitting := s.submitting - One(r), queues := Enqueue(s.queues, r))
    case DropBelow(threshold) =>
      var dropped := Below(s.queues, threshold);
      s.(queues := Clear(s.queues, threshold), drops := s.drops + [dropped], pending := s.pending - |dropped|)
    case RunDropped(call) => NextDropped(s, call)
    case Pop =>
      var level := TopLevel(s.queues, LEVELS);
      s.(queues := s.queues[level := s.queues[level][1..]], working := s.working + One(s.queues[level][0]))
    case SubmitH2(r) => s.(working := s.working - One(r), onH2 := s.onH2 + One(r))
    case CompleteH2(r) => Answered(s, r)
    case ReadPort(r) => s.(terminated := true)
    case UseH1(r) => s.(working := s.working - One(r), onH1 := s.onH1 + One(r))
    case ChunkEscapes(r) => s.(terminated := true)
    case MarkEligible(r) => s.(eligible := s.eligible + {r.host})
    case FinishH1(r) =>
      var s1 := s.(onH1 := s.onH1 - One(r), unsettled := s.unsettled + One(r));
      if r.streaming then Deliver(s1, r).(terminated := r.callback.Throws?) else s1.(results := s.results + [r])
    case Settle(r) => s.(unsettled := s.unsettled - One(r), pending := s.pending - 1)
    case PollSwap => s.(batch := s.results, results := [])
    case PollNext => NextResult(s)
  }

  // ----- The invariant

  /** The number of places that hold `r`. */
  function Held(s: State, r: Request): nat {
    s.submitting[r] + OccursBelow(s.queues, LEVELS, r) + OccursIn(s.drops, r) + s.working[r] + s.onH1[r] + s.onH2[r]
    + Occurs(s.results, r) + Occurs(s.batch, r) + s.finished[r] + s.lost[r]
  }

  function Outstanding(s: State): nat {
    |s.submitting| + SizeBelow(s.queues, LEVELS) + |s.working| + |s.onH1| + |s.onH2| + |s.unsettled|
  }

  ghost predicate PlaceInv(s: State) {
    forall r :: Held(s, r) == if r in s.accepted then 1 else 0
  }

  ghost predicate RanInv(s: State) {
    RanExactly(s) && AllValid(s.accepted)
  }

  ghost predicate RanExactly(s: State) {
    forall r :: s.ran[r] == if r.callback.Null? then 0 else s.finished[r]
  }

  ghost predicate AllValid(accepted: set<Request>) {
    forall r :: r in accepted ==> r.Valid()
  }

  /** A request waits at its own level, only plain requests go through the result queue, and what is
      dropped together stands by falling priority, all below the highest. */
  ghost predicate SortInv(s: State) {
    LevelInv(s.queues) && DropInv(s.drops) && ResultsInv(s)
  }

  ghost predicate ResultsInv(s: State) {
    && (forall r :: r in s.onH2 ==> !r.streaming)
    && (forall r :: r in s.results || r in s.batch ==> !r.streaming)
  }

  ghost predicate DropInv(drops: seq<seq<Request>>) {
    forall q :: q in drops ==> Droppable(q)
  }

  ghost predicate Droppable(q: seq<Request>) {
    Falling(q) && forall r :: r in q ==> r.priority < LEVELS - 1
  }

  /** The callback of `t` can take `r` with it.  In a batch of poll a null one takes its own request and
      any other, a throwing one any other.  In a drop a throwing one takes those of no higher priority. */
  predicate Takes(t: Request, r: Request) {
    match t.callback
    case Null => !t.streaming && !r.streaming
    case Returns => false
    case Throws => t != r && ((!t.streaming && !r.streaming) || r.priority <= t.priority < LEVELS - 1)
  }

  ghost predicate Takable(accepted: set<Request>, r: Request) {
    exists t :: t in accepted && Takes(t, r)
  }

  ghost predicate LostInv(s: State) {
    forall r :: r in s.lost ==> Takable(s.accepted, r)
  }

  /** A callback throws on the worker thread, or a plain request goes to a host whose port cannot be read
      and that another request can make eligible. */
  ghost predicate Terminates(accepted: set<Request>) {
    || (exists t :: t in accepted && t.ThrowsOnWorker())
    || (exists t, q :: t in accepted && q in accepted && MeetsPort(t, q))
  }

  predicate MeetsPort(t: Request, q: Request) {
    t != q && !t.streaming && t.host == q.host && PortThrows(t.host)
  }

  /** The transport of `r` is chosen: no earlier place holds it. */
  ghost predicate Past(s: State, r: Request) {
    && r in s.accepted
    && s.submitting[r] == 0 && OccursBelow(s.queues, LEVELS, r) == 0
    && OccursIn(s.drops, r) == 0 && s.working[r] == 0
  }

  ghost predicate UsedBy(s: State, host: string) {
    exists q :: Past(s, q) && q.host == host
  }

  ghost predicate EligibleInv(s: State) {
    forall host :: host in s.eligible ==> UsedBy(s, host)
  }

  ghost predicate Inv(s: State) {
    && PlaceInv(s) && RanInv(s) && SortInv(s) && s.pending == Outstanding(s)
    && LostInv(s) && EligibleInv(s) && (s.terminated ==> Terminates(s.accepted))
  }

  /** The queue steps change the queues by exactly what they put in or take out. */
  lemma QueueChange(s: State, step: Step, r: Request)
    requires Enabled(s, step)
    ensures step.Push? ==>
      && OccursBelow(Next(s, step).queues, LEVELS, r)
         == OccursBelow(s.queues, LEVELS, r) + (if step.r == r then 1 else 0)
      && SizeBelow(Next(s, step).queues, LEVELS) == SizeBelow(s.queues, LEVELS) + 1
    ensures step.DropBelow? ==>
      && OccursBelow(Next(s, step).queues, LEVELS, r) + multiset(Below(s.queues, step.threshold))[r]
         == OccursBelow(s.queues, LEVELS, r)
      && SizeBelow(Next(s, step).queues, LEVELS) + |Below(s.queues, step.threshold)| == SizeBelow(s.queues, LEVELS)
    ensures step.Pop? ==>
      && OccursBelow(Next(s, step).queues, LEVELS, r)
         == OccursBelow(s.queues, LEVELS, r)
            - (if s.queues[TopLevel(s.queues, LEVELS)][0] == r then 1 else 0)
      && SizeBelow(Next(s, step).queues, LEVELS) == SizeBelow(s.queues, LEVELS) - 1
  {
    match step {
      case Push(q) =>
        LevelChange(s.queues, q.priority, s.queues[q.priority] + [q], LEVELS, r);
        OccursConcat(s.queues[q.priority], [q], r);
      case DropBelow(threshold) =>
        ClearChange(s.queues, threshold, LEVELS, r);
        BelowOccurs(s.queues, threshold, r);
        OccursIsMultiplicity(Below(s.queues, threshold), r);
      case Pop =>
        var level := TopLevel(s.queues, LEVELS);
        LevelChange(s.queues, level, s.queues[level][1..], LEVELS, r);
      case _ =>
    }
  }

  ghost predicate Conserves(s: State, step: Step, r: Request)
    requires Enabled(s, step)
  {
    Held(Next(s, step), r) == Held(s, r) + if step == Accept(r) then 1 else 0
  }

  lemma QueueStepConserves(s: State, step: Step, r: Request)
    requires Enabled(s, step) && (step.Push? || step.DropBelow? || step.Pop?)
    ensures Conserves(s, step, r)
  {
    QueueChange(s, step, r);
    if step.DropBelow? {
      OccursInAppend(s.drops, Below(s.queues, step.threshold), r);
      OccursIsMultiplicity(Below(s.queues, step.threshold), r);
    }
  }

  lemma CompletionConserves(s: State, step: Step, r: Request)
    requires Enabled(s, step) && step.CompleteH2?
    ensures Conserves(s, step, r)
  {
    OccursConcat(s.results, [step.r], r);
  }

  lemma FinishConserves(s: State, step: Step, r: Request)
    requires Enabled(s, step) && step.FinishH1?
    ensures Conserves(s, step, r)
  {
    OccursConcat(s.results, [step.r], r);
  }

  lemma DropConserves(s: State, step: Step, r: Request)
    requires Enabled(s, step) && step.RunDropped?
    ensures Conserves(s, step, r)
  {
    var rest := s.drops[step.call][1..];
    OccursInChange(s.drops, step.call, if s.drops[step.call][0].callback.Throws? then [] else rest, r);
    OccursIsMultiplicity(rest, r);
  }

  lemma SwapConserves(s: State, r: Request)
    requires Enabled(s, PollSwap)
    ensures Conserves(s, PollSwap, r)
  {
  }

  lemma NullConserves(s: State, r: Request)
    requires Enabled(s, PollNext) && s.batch[0].callback.Null?
    ensures Conserves(s, PollNext, r)
  {
    OccursIsMultiplicity(s.batch, r);
  }

  lemma ReturnConserves(s: State, r: Request)
    requires Enabled(s, PollNext) && s.batch[0].callback.Returns?
    ensures Conserves(s, PollNext, r)
  {
  }

  lemma ThrowConserves(s: State, r: Request)
    requires Enabled(s, PollNext) && s.batch[0].callback.Throws?
    ensures Conserves(s, PollNext, r)
  {
    OccursIsMultiplicity(s.batch[1..], r);
  }

  /** One step moves `r` from at most one place to another, and only acceptance adds it. */
  lemma StepConserves(s: State, step: Step, r: Request)
    requires Enabled(s, step)
    ensures Conserves(s, step, r)
  {
    match step {
      case Push(_) => QueueStepConserves(s, step, r);
      case DropBelow(_) => QueueStepConserves(s, step, r);
      case Pop => QueueStepConserves(s, step, r);
      case RunDropped(_) => DropConserves(s, step, r);
      case CompleteH2(_) => CompletionConserves(s, step, r);
      case FinishH1(_) => FinishConserves(s, step, r);
      case PollSwap => SwapConserves(s, r);
      case PollNext =>
        match s.batch[0].callback {
          case Null => NullConserves(s, r);
          case Returns => ReturnConserves(s, r);
          case Throws => ThrowConserves(s, r);
        }
      case _ =>
    }
  }

  ghost predicate Counts(s: State, step: Step)
    requires Enabled(s, step)
  {
    Next(s, step).pending - Outstanding(Next(s, step)) == s.pending - Outstanding(s)
  }

  lemma QueueStepCounts(s: State, step: Step)
    requires Enabled(s, step) && (step.Push? || step.DropBelow? || step.Pop?)
    ensures Counts(s, step)
  {
    QueueChange(s, step, NO_REQUEST);
  }

  /** The loops of drop_below and poll leave the counter alone. */
  lemma TurnCounts(s: State, step: Step)
    requires Enabled(s, step) && (step.RunDropped? || step.PollSwap? || step.PollNext?)
    ensures Counts(s, step)
  {
  }

  lemma StartCounts(s: State, step: Step)
    requires Enabled(s, step) && (step.SubmitH2? || step.UseH1?)
    ensures Counts(s, step)
  {
  }

  lemma EndCounts(s: State, step: Step)
    requires Enabled(s, step) && (step.CompleteH2? || step.FinishH1?)
    ensures Counts(s, step)
  {
  }

  lemma StepCounts(s: State, step: Step)
    requires Enabled(s, step)
    ensures Counts(s, step)
  {
    match step {
      case Accept(_) =>
      case Settle(_) =>
      case ReadPort(_) =>
      case ChunkEscapes(_) =>
      case MarkEligible(_) =>
      case SubmitH2(_) => StartCounts(s, step);
      case UseH1(_) => StartCounts(s, step);
      case CompleteH2(_) => EndCounts(s, step);
      case FinishH1(_) => EndCounts(s, step);
      case RunDropped(_) => TurnCounts(s, step);
      case PollSwap => TurnCounts(s, step);
      case PollNext => TurnCounts(s, step);
      case _ => QueueStepCounts(s, step);
    }
  }

  lemma PlacePreserved(s: State, step: Step)
    requires PlaceInv(s) && Enabled(s, step)
    ensures PlaceInv(Next(s, step))
  {
    forall r ensures Held(Next(s, step), r) == if r in Next(s, step).accepted then 1 else 0 {
      StepConserves(s, step, r);
      assert Conserves(s, step, r);
      assert Held(s, r) == if r in s.accepted then 1 else 0;
    }
  }

  lemma InvPreserved(s: State, step: Step)
    requires Inv(s) && Enabled(s, step)
    ensures Inv(Next(s, step))
  {
    PlacePreserved(s, step);
    StepCounts(s, step);
    assert Counts(s, step);
    RanPreserved(s, step);
    SortPreserved(s, step);
    LostPreserved(s, step);
    EligiblePreserved(s, step);
    TerminatesPreserved(s, step);
  }

  lemma LevelPreserved(s: State, step: Step)
    requires LevelInv(s.queues) && Enabled(s, step)
    ensures LevelInv(Next(s, step).queues)
  {
  }

  lemma RestDroppable(q: seq<Request>)
    requires Droppable(q) && q != []
    ensures Droppable(q[1..])
  {
    assert forall i :: 0 <= i < |q[1..]| ==> q[1..][i] == q[i + 1];
  }

  lemma DropTurn(drops: seq<seq<Request>>, call: nat, q: seq<Request>)
    requires DropInv(drops) && call < |drops| && Droppable(q)
    ensures DropInv(drops[call := q])
  {
  }

  lemma DropAdded(drops: seq<seq<Request>>, q: seq<Request>)
    requires DropInv(drops) && Droppable(q)
    ensures DropInv(drops + [q])
  {
  }

  lemma DropPreserved(s: State, step: Step)
    requires LevelInv(s.queues) && DropInv(s.drops) && Enabled(s, step)
    ensures DropInv(Next(s, step).drops)
  {
    if step.DropBelow? {
      BelowFalls(s.queues, step.threshold);
      DropAdded(s.drops, Below(s.queues, step.threshold));
    } else if step.RunDropped? {
      var q := s.drops[step.call];
      assert q in s.drops;
      RestDroppable(q);
      DropTurn(s.drops, step.call, if q[0].callback.Throws? then [] else q[1..]);
    }
  }

  lemma ResultsPreserved(s: State, step: Step)
    requires ResultsInv(s) && Enabled(s, step)
    ensures ResultsInv(Next(s, step))
  {
    if step.SubmitH2? || step.CompleteH2? || step.FinishH1? {
      WorkerResults(s, step);
    } else {
      OtherResults(s, step);
    }
  }

  lemma WorkerResults(s: State, step: Step)
    requires ResultsInv(s) && Enabled(s, step) && (step.SubmitH2? || step.CompleteH2? || step.FinishH1?)
    ensures ResultsInv(Next(s, step))
  {
  }

  lemma OtherResults(s: State, step: Step)
    requires ResultsInv(s) && Enabled(s, step) && !step.SubmitH2? && !step.CompleteH2? && !step.FinishH1?
    ensures ResultsInv(Next(s, step))
  {
  }

  lemma SortPreserved(s: State, step: Step)
    requires SortInv(s) && Enabled(s, step)
    ensures SortInv(Next(s, step))
  {
    LevelPreserved(s, step);
    DropPreserved(s, step);
    ResultsPreserved(s, step);
  }

  lemma {:induction false} PresentOccurs(q: seq<Request>, r: Request)
    ensures r in q <==> Occurs(q, r) > 0
  {
    if q != [] {
      PresentOccurs(q[1..], r);
      assert r in q <==> r == q[0] || r in q[1..];
    }
  }

  lemma {:induction false} PartOccurs(drops: seq<seq<Request>>, k: nat, r: Request)
    requires k < |drops|
    ensures Occurs(drops[k], r) <= OccursIn(drops, r)
  {
    if k > 0 {
      PartOccurs(drops[1..], k - 1, r);
    }
  }

  /** What stands behind the first request of a drop is other requests, all accepted. */
  lemma DroppedDiffer(s: State, call: nat, r: Request)
    requires PlaceInv(s) && call < |s.drops| && s.drops[call] != [] && r in s.drops[call][1..]
    ensures r != s.drops[call][0] && r in s.accepted && s.drops[call][0] in s.accepted
  {
    var t := s.drops[call][0];
    PresentOccurs(s.drops[call][1..], r);
    PartOccurs(s.drops, call, r);
    PartOccurs(s.drops, call, t);
    assert Held(s, r) > 0 && Held(s, t) > 0;
    assert Held(s, t) == 1;
  }

  lemma BatchDiffer(s: State, r: Request)
    requires PlaceInv(s) && s.batch != [] && r in s.batch[1..]
    ensures r != s.batch[0] && r in s.accepted
  {
    PresentOccurs(s.batch[1..], r);
    assert Held(s, r) > 0;
    assert Held(s, r) == 1;
  }

  lemma FirstAccepted(s: State)
    requires PlaceInv(s) && s.batch != []
    ensures s.batch[0] in s.accepted
  {
    assert Held(s, s.batch[0]) > 0;
  }

  /** What a throwing callback takes with it in drop_below stands behind it, at no higher priority. */
  lemma DropTakes(s: State, call: nat, r: Request)
    requires PlaceInv(s) && SortInv(s) && Enabled(s, RunDropped(call))
    requires r !in s.lost && r in Next(s, RunDropped(call)).lost
    ensures Takable(s.accepted, r)
  {
    var q := s.drops[call];
    assert q in s.drops;
    assert r in q[1..];
    DroppedDiffer(s, call, r);
    var j :| 0 <= j < |q[1..]| && q[1..][j] == r;
    assert q[0].priority >= q[j + 1].priority;
    assert Takes(q[0], r);
  }

  /** What goes with a batch is plain. */
  lemma BatchTakes(s: State, r: Request)
    requires PlaceInv(s) && SortInv(s) && Enabled(s, PollNext)
    requires r !in s.lost && r in Next(s, PollNext).lost
    ensures Takable(s.accepted, r)
  {
    FirstAccepted(s);
    if s.batch[0].callback.Throws? {
      assert r in s.batch[1..];
      BatchDiffer(s, r);
    }
    assert s.batch[0] in s.batch && r in s.batch;
    assert Takes(s.batch[0], r);
  }

  lemma LostPreserved(s: State, step: Step)
    requires PlaceInv(s) && SortInv(s) && LostInv(s) && Enabled(s, step)
    ensures LostInv(Next(s, step))
  {
    forall r | r in Next(s, step).lost ensures Takable(Next(s, step).accepted, r) {
      if r in s.lost {
        assert Takable(s.accepted, r);
      } else if step.RunDropped? {
        DropTakes(s, step.call, r);
      } else if step.PollNext? {
        BatchTakes(s, r);
      }
    }
  }

  /** What has left the earlier places never comes back to them. */
  lemma PastStays(s: State, step: Step, r: Request)
    requires Past(s, r) && Enabled(s, step)
    ensures Past(Next(s, step), r)
  {
    QueueChange(s, step, r);
    if step.DropBelow? {
      var dropped := Below(s.queues, step.threshold);
      OccursIsMultiplicity(dropped, r);
      OccursInAppend(s.drops, dropped, r);
    } else if step.RunDropped? {
      DropShrinks(s, step.call, r);
    }
  }

  lemma DropShrinks(s: State, call: nat, r: Request)
    requires Enabled(s, RunDropped(call)) && OccursIn(s.drops, r) == 0
    ensures OccursIn(Next(s, RunDropped(call)).drops, r) == 0
  {
    var q := s.drops[call];
    PartOccurs(s.drops, call, r);
    OccursInChange(s.drops, call, [], r);
    OccursInChange(s.drops, call, q[1..], r);
  }

  lemma UsedStays(s: State, step: Step, host: string)
    requires UsedBy(s, host) && Enabled(s, step)
    ensures UsedBy(Next(s, step), host)
  {
    var q :| Past(s, q) && q.host == host;
    PastStays(s, step, q);
  }

  /** A request in a transfer has left the places before it. */
  lemma TransferPast(s: State, r: Request)
    requires PlaceInv(s) && r in s.onH1
    ensures Past(s, r)
  {
    assert Held(s, r) == if r in s.accepted then 1 else 0;
  }

  lemma EligiblePreserved(s: State, step: Step)
    requires PlaceInv(s) && EligibleInv(s) && Enabled(s, step)
    ensures EligibleInv(Next(s, step))
  {
    forall host | host in Next(s, step).eligible ensures UsedBy(Next(s, step), host) {
      if step.MarkEligible? && host == step.r.host {
        TransferPast(s, step.r);
      }
      UsedStays(s, step, host);
    }
  }

  lemma WorkerAccepted(s: State, r: Request)
    requires PlaceInv(s) && (r in s.working || r in s.onH1)
    ensures r in s.accepted
  {
    assert Held(s, r) > 0;
  }

  lemma TerminatesPreserved(s: State, step: Step)
    requires PlaceInv(s) && EligibleInv(s) && Enabled(s, step)
    ensures Next(s, step).terminated ==> Terminates(Next(s, step).accepted)
  {
    if Next(s, step).terminated {
      var t := step.r;
      WorkerAccepted(s, t);
      if step.ReadPort? {
        var q :| Past(s, q) && q.host == t.host;
        assert MeetsPort(t, q);
      } else {
        assert t.ThrowsOnWorker();
      }
    }
  }

  lemma RanPreserved(s: State, step: Step)
    requires RanInv(s) && Enabled(s, step)
    ensures RanInv(Next(s, step))
  {
    RanStays(s, step);
    ValidStays(s, step);
  }

  lemma RanAfterOne(s: State, r: Request)
    requires RanExactly(s)
    ensures RanExactly(Deliver(s, r))
  {
  }

  lemma RanSame(s: State, t: State)
    requires RanExactly(s) && t.ran == s.ran && t.finished == s.finished
    ensures RanExactly(t)
  {
  }

  /** Every step that finishes a request runs its callback, if it has one. */
  lemma RanStays(s: State, step: Step)
    requires RanExactly(s) && Enabled(s, step)
    ensures RanExactly(Next(s, step))
  {
    match step {
      case CompleteH2(r) => RanAfterWorker(s, step);
      case FinishH1(r) => RanAfterWorker(s, step);
      case RunDropped(call) => RanAfterDrop(s, call);
      case PollNext => RanAfterTurn(s);
      case _ => RanSame(s, Next(s, step));
    }
  }

  lemma RanAfterWorker(s: State, step: Step)
    requires RanExactly(s) && Enabled(s, step) && (step.CompleteH2? || step.FinishH1?)
    ensures RanExactly(Next(s, step))
  {
    RanAfterOne(s, step.r);
    if Next(s, step).finished == s.finished {
      RanSame(s, Next(s, step));
    } else {
      RanSame(Deliver(s, step.r), Next(s, step));
    }
  }

  lemma RanAfterDrop(s: State, call: nat)
    requires RanExactly(s) && call < |s.drops| && s.drops[call] != []
    ensures RanExactly(NextDropped(s, call))
  {
    RanAfterOne(s, s.drops[call][0]);
    RanSame(Deliver(s, s.drops[call][0]), NextDropped(s, call));
  }

  lemma RanAfterTurn(s: State)
    requires RanExactly(s) && s.batch != []
    ensures RanExactly(NextResult(s))
  {
    RanAfterOne(s, s.batch[0]);
    if s.batch[0].callback.Null? {
      RanSame(s, NextResult(s));
    } else {
      RanSame(Deliver(s, s.batch[0]), NextResult(s));
    }
  }

  lemma ValidStays(s: State, step: Step)
    requires AllValid(s.accepted) && Enabled(s, step)
    ensures AllValid(Next(s, step).accepted)
  {
  }

  // ----- Runs

  ghost predicate Follows(s: State, step: Step, t: State) {
    Enabled(s, step) && t == Next(s, step)
  }

  ghost predicate IsRun(run: seq<State>, steps: seq<Step>) {
    && |run| == |steps| + 1
    && run[0] == INITIAL
    && forall i :: 0 <= i < |steps| ==> Follows(run[i], steps[i], run[i + 1])
  }

  /** A step that starts in the invariant ends in it. */
  ghost predicate Keeps(s: State, t: State) { Inv(s) ==> Inv(t) }

  lemma FollowingKeeps(s: State, step: Step, t: State)
    requires Follows(s, step, t)
    ensures Keeps(s, t)
  {
    if Inv(s) {
      InvPreserved(s, step);
    }
  }

  lemma InvHolds(run: seq<State>, steps: seq<Step>, i: nat)
    requires IsRun(run, steps) && i < |run|
    ensures Inv(run[i])
  {
    InitialInv();
    forall k | 0 <= k < |steps| ensures Keeps(run[k], run[k + 1]) {
      assert Follows(run[k], steps[k], run[k + 1]);
      FollowingKeeps(run[k], steps[k], run[k + 1]);
    }
    KeptTo(run, i);
  }

  lemma {:induction false} KeptTo(run: seq<State>, i: nat)
    requires i < |run| && Inv(run[0]) && forall k :: 0 <= k < |run| - 1 ==> Keeps(run[k], run[k + 1])
    ensures Inv(run[i])
  {
    if i > 0 {
      KeptTo(run, i - 1);
      assert Keeps(run[i - 1], run[i]);
    }
  }

  lemma InitialInv()
    ensures Inv(INITIAL)
  {
    forall r ensures Held(INITIAL, r) == 0 {
      NothingBelow(INITIAL.queues, LEVELS, r);
    }
    NothingBelow(INITIAL.queues, LEVELS, NO_REQUEST);
  }

  lemma {:induction false} NothingBelow(queues: Queues, n: nat, r: Request)
    requires n <= LEVELS && forall i :: 0 <= i < LEVELS ==> queues[i] == []
    ensures OccursBelow(queues, n, r) == 0 && SizeBelow(queues, n) == 0
  {
    if n > 0 {
      NothingBelow(queues, n - 1, r);
    }
  }

  /** In every interleaving a request is in exactly one place once accepted, and nowhere before. */
  lemma {:induction false} ExactlyOnePlace(run: seq<State>, steps: seq<Step>, i: nat, r: Request)
    requires IsRun(run, steps) && i < |run|
    ensures Held(run[i], r) == if r in run[i].accepted then 1 else 0
  {
    InvHolds(run, steps, i);
  }

  /** The counter is the number of requests on their way to a settlement, and so never negative. */
  lemma {:induction false} PendingCounts(run: seq<State>, steps: seq<Step>, i: nat)
    requires IsRun(run, steps) && i < |run|
    ensures run[i].pending == |run[i].submitting| + SizeBelow(run[i].queues, LEVELS) + |run[i].working|
                              + |run[i].onH1| + |run[i].onH2| + |run[i].unsettled|
  {
    InvHolds(run, steps, i);
  }

  /** Nothing is on its way any more: all that was accepted has left every place but the last two. */
  ghost predicate Quiescent(s: State) {
    && s.submitting == s.working == s.onH1 == s.onH2 == multiset{}
    && (forall i :: 0 <= i < LEVELS ==> s.queues[i] == [])
    && (forall q :: q in s.drops ==> q == [])
    && s.results == s.batch == []
  }

  lemma {:induction false} NothingIn(drops: seq<seq<Request>>, r: Request)
    requires forall q :: q in drops ==> q == []
    ensures OccursIn(drops, r) == 0
  {
    if drops != [] {
      assert drops[0] in drops && forall q :: q in drops[1..] ==> q in drops;
      NothingIn(drops[1..], r);
    }
  }

  /** No callback runs twice in any interleaving.  When nothing is on its way, the non-null callbacks
      that have run are exactly those of the requests not lost; and a request is never lost unless an
      accepted request takes it. */
  lemma {:induction false} CallbackRunsExactlyOnce(run: seq<State>, steps: seq<Step>, i: nat, r: Request)
    requires IsRun(run, steps) && i < |run|
    ensures run[i].ran[r] <= if r in run[i].accepted && !r.callback.Null? then 1 else 0
    ensures r in run[i].lost ==> r in run[i].accepted && Takable(run[i].accepted, r)
    ensures Quiescent(run[i]) && r in run[i].accepted ==>
              run[i].ran[r] == if !r.callback.Null? && r !in run[i].lost then 1 else 0
    ensures Quiescent(run[i]) && r in run[i].accepted && !Takable(run[i].accepted, r) ==>
              run[i].finished[r] == 1 && run[i].ran[r] == if r.callback.Null? then 0 else 1
  {
    InvHolds(run, steps, i);
    assert Held(run[i], r) == if r in run[i].accepted then 1 else 0;
    if Quiescent(run[i]) {
      NothingBelow(run[i].queues, LEVELS, r);
      NothingIn(run[i].drops, r);
    }
  }

  /** What a step puts at the back of a level. */
  function Arrives(step: Step, level: nat): seq<Request> {
    if step.Push? && step.r.priority == level then [step.r] else []
  }

  /** What a step takes from the front of a level: the request popped, or all of them when dropped. */
  function Leaves(queues: Queues, step: Step, level: nat): seq<Request>
    requires level < LEVELS
  {
    match step
    case Pop => if TopLevel(queues, LEVELS) == level then queues[level][..1] else []
    case DropBelow(threshold) => if level < threshold then queues[level] else []
    case _ => []
  }

  /** The requests pushed to a level by the first `n` steps, in order. */
  function Pushed(steps: seq<Step>, n: nat, level: nat): seq<Request>
    requires n <= |steps|
  {
    if n == 0 then [] else Pushed(steps, n - 1, level) + Arrives(steps[n - 1], level)
  }

  /** The requests that left a level in the first `n` steps, popped or dropped, in order. */
  function Left(run: seq<State>, steps: seq<Step>, n: nat, level: nat): seq<Request>
    requires |run| == |steps| + 1 && n <= |steps| && level < LEVELS
  {
    if n == 0 then [] else Left(run, steps, n - 1, level) + Leaves(run[n - 1].queues, steps[n - 1], level)
  }

  /** Nothing overtakes in a level at one step: what is there and arrives is what leaves and stays. */
  predicate Moves(before: Queues, step: Step, after: Queues, level: nat)
    requires level < LEVELS
  {
    before[level] + Arrives(step, level) == Leaves(before, step, level) + after[level]
  }

  ghost predicate MovesAlways(run: seq<State>, steps: seq<Step>, level: nat)
    requires |run| == |steps| + 1 && level < LEVELS
  {
    forall i :: 0 <= i < |steps| ==> Moves(run[i].queues, steps[i], run[i + 1].queues, level)
  }

  /** Every level is first in, first out over the whole run: what has left it is what was pushed to it
      first, in that order, and what was pushed later still waits. */
  lemma LevelsAreQueues(run: seq<State>, steps: seq<Step>, n: nat, level: nat)
    requires IsRun(run, steps) && n <= |steps| && level < LEVELS
    ensures Pushed(steps, n, level) == Left(run, steps, n, level) + run[n].queues[level]
  {
    forall i | 0 <= i < |steps| ensures Moves(run[i].queues, steps[i], run[i + 1].queues, level) {
      assert Follows(run[i], steps[i], run[i + 1]);
      LevelMoves(run[i], steps[i], level);
    }
    LevelHistory(run, steps, n, level);
  }

  lemma {:induction false} LevelHistory(run: seq<State>, steps: seq<Step>, n: nat, level: nat)
    requires |run| == |steps| + 1 && n <= |steps| && level < LEVELS
    requires MovesAlways(run, steps, level) && run[0].queues[level] == []
    ensures Pushed(steps, n, level) == Left(run, steps, n, level) + run[n].queues[level]
  {
    if n > 0 {
      LevelHistory(run, steps, n - 1, level);
      var left, queues := Left(run, steps, n - 1, level), run[n - 1].queues;
      assert Moves(queues, steps[n - 1], run[n].queues, level);
      Regroup(left, queues[level], Arrives(steps[n - 1], level));
      Regroup(left, Leaves(queues, steps[n - 1], level), run[n].queues[level]);
    }
  }

  lemma LevelMoves(s: State, step: Step, level: nat)
    requires Enabled(s, step) && level < LEVELS
    ensures Moves(s.queues, step, Next(s, step).queues, level)
  {
    match step {
      case Push(r) => PushMoves(s, r, level);
      case DropBelow(threshold) => DropMoves(s, threshold, level);
      case Pop => PopMoves(s, level);
      case _ => StillMoves(s, step, level);
    }
  }

  lemma StillMoves(s: State, step: Step, level: nat)
    requires Enabled(s, step) && !step.Push? && !step.DropBelow? && !step.Pop? && level < LEVELS
    ensures Moves(s.queues, step, Next(s, step).queues, level)
  {
    var q := s.queues[level];
    assert q + [] == [] + q;
  }

  lemma PushMoves(s: State, r: Request, level: nat)
    requires Enabled(s, Push(r)) && level < LEVELS
    ensures Moves(s.queues, Push(r), Next(s, Push(r)).queues, level)
  {
  }

  lemma DropMoves(s: State, threshold: nat, level: nat)
    requires Enabled(s, DropBelow(threshold)) && level < LEVELS
    ensures Moves(s.queues, DropBelow(threshold), Next(s, DropBelow(threshold)).queues, level)
  {
  }

  lemma PopMoves(s: State, level: nat)
    requires Enabled(s, Pop) && level < LEVELS
    ensures Moves(s.queues, Pop, Next(s, Pop).queues, level)
  {
  }

  /** A worker never starts a request while a request of higher priority is queued, and takes the
      oldest of its level: the first pushed to it that has not left it. */
  lemma {:induction false} HighestFirst(run: seq<State>, steps: seq<Step>, i: nat, other: Request)
    requires IsRun(run, steps) && i < |steps| && steps[i] == Pop
    ensures
      var level := TopLevel(run[i].queues, LEVELS);
      && level >= 0
      && |Left(run, steps, i, level)| < |Pushed(steps, i, level)|
      && var taken := Pushed(steps, i, level)[|Left(run, steps, i, level)|];
      && taken.priority == level
      && run[i + 1].working == run[i].working + One(taken)
      && (OccursBelow(run[i].queues, LEVELS, other) > 0 ==> other.priority <= level)
  {
    InvHolds(run, steps, i);
    assert Follows(run[i], steps[i], run[i + 1]);
    var level := TopLevel(run[i].queues, LEVELS);
    LevelsAreQueues(run, steps, i, level);
    assert run[i].queues[level][0] in run[i].queues[level];
    if OccursBelow(run[i].queues, LEVELS, other) > 0 {
      var j := LevelOf(run[i].queues, LEVELS, other);
    }
  }

  lemma {:induction false} LevelOf(queues: Queues, n: nat, r: Request) returns (level: nat)
    requires n <= LEVELS && OccursBelow(queues, n, r) > 0
    ensures level < n && r in queues[level]
  {
    PresentOccurs(queues[n - 1], r);
    if r in queues[n - 1] {
      level := n - 1;
    } else {
      level := LevelOf(queues, n - 1, r);
    }
  }

  // ----- The result queue

  /** The requests that complete with a result to deliver in the first `n` steps, in the order in which they
      complete. */
  function Completions(steps: seq<Step>, n: nat): seq<Request>
    requires n <= |steps|
  {
    if n == 0 then [] else Completions(steps, n - 1) + Completes(steps[n - 1])
  }

  function Completes(step: Step): seq<Request> {
    match step
    case CompleteH2(r) => if r.callback == Null then [] else [r]
    case FinishH1(r) => if r.streaming then [] else [r]
    case _ => []
  }

  /** The results poll came to in the first `n` steps, or lost, in order. */
  function Collected(run: seq<State>, steps: seq<Step>, n: nat): seq<Request>
    requires |run| == |steps| + 1 && n <= |steps|
  {
    if n == 0 then [] else Collected(run, steps, n - 1) + Collects(run[n - 1].batch, steps[n - 1])
  }

  function Collects(batch: seq<Request>, step: Step): seq<Request> {
    if step != PollNext || batch == [] then []
    else if batch[0].callback == Returns then [batch[0]]
    else batch
  }

  /** Nothing overtakes between completing and being collected in one step. */
  predicate Passes(s: State, step: Step, t: State) {
    (s.batch + s.results) + Completes(step) == Collects(s.batch, step) + (t.batch + t.results)
  }

  lemma ResultsPass(s: State, step: Step)
    requires Enabled(s, step)
    ensures Passes(s, step, Next(s, step))
  {
    match step {
      case CompleteH2(r) => CompletionPasses(s, step);
      case FinishH1(r) => CompletionPasses(s, step);
      case PollSwap => SwapPasses(s);
      case PollNext => TurnPasses(s, s.batch, s.results);
      case _ => NothingPasses(s.batch + s.results);
    }
  }

  lemma CompletionPasses(s: State, step: Step)
    requires Enabled(s, step) && (step.CompleteH2? || step.FinishH1?)
    ensures Passes(s, step, Next(s, step))
  {
    Regroup(s.batch, s.results, Completes(step));
    NothingPasses(s.batch + (s.results + Completes(step)));
    NothingPasses(s.results);
  }

  lemma NothingPasses(q: seq<Request>)
    ensures q + [] == [] + q == q
  {
  }

  lemma SwapPasses(s: State)
    requires s.batch == []
    ensures Passes(s, PollSwap, s.(batch := s.results, results := []))
  {
    NothingPasses(s.results);
  }

  lemma TurnPasses(s: State, batch: seq<Request>, results: seq<Request>)
    requires s.batch == batch != [] && s.results == results
    ensures Passes(s, PollNext, NextResult(s))
  {
    NothingPasses(batch + results);
    NothingPasses(results);
    assert batch == [batch[0]] + batch[1..];
    Regroup([batch[0]], batch[1..], results);
  }

  ghost predicate PassesAlways(run: seq<State>, steps: seq<Step>) {
    |run| == |steps| + 1 && forall i :: 0 <= i < |steps| ==> Passes(run[i], steps[i], run[i + 1])
  }

  lemma RunPasses(run: seq<State>, steps: seq<Step>)
    requires IsRun(run, steps)
    ensures PassesAlways(run, steps)
  {
    forall i | 0 <= i < |steps| ensures Passes(run[i], steps[i], run[i + 1]) {
      assert Follows(run[i], steps[i], run[i + 1]);
      ResultsPass(run[i], steps[i]);
    }
  }

  /** The result queue is first in, first out over the whole run, from the step that completes a request to
      poll: what poll has come to or lost, what it has swapped out and what is queued are the completed
      requests in the order of their completion. */
  lemma ResultsInOrder(run: seq<State>, steps: seq<Step>, n: nat)
    requires IsRun(run, steps) && n <= |steps|
    ensures Completions(steps, n) == Collected(run, steps, n) + (run[n].batch + run[n].results)
  {
    RunPasses(run, steps);
    ResultHistory(run, steps, n);
  }

  lemma {:induction false} ResultHistory(run: seq<State>, steps: seq<Step>, n: nat)
    requires PassesAlways(run, steps) && n <= |steps| && run[0].batch + run[0].results == []
    ensures Completions(steps, n) == Collected(run, steps, n) + (run[n].batch + run[n].results)
  {
    if n > 0 {
      ResultHistory(run, steps, n - 1);
      var s, step, t, collected := run[n - 1], steps[n - 1], run[n], Collected(run, steps, n - 1);
      assert Passes(s, step, t);
      Regroup(collected, s.batch + s.results, Completes(step));
      Regroup(collected, Collects(s.batch, step), t.batch + t.results);
    }
  }

  /** Poll calls the callback of the request that completed first among those it has not come to: if it is
      not null, that one runs and no other. */
  lemma CollectedInOrder(run: seq<State>, steps: seq<Step>, i: nat)
    requires IsRun(run, steps) && i < |steps| && steps[i] == PollNext
    ensures
      && |Collected(run, steps, i)| < |Completions(steps, i)|
      && var next := Completions(steps, i)[|Collected(run, steps, i)|];
      && run[i].batch != [] && run[i].batch[0] == next
      && run[i + 1].ran == run[i].ran + if next.callback == Null then multiset{} else multiset{next}
  {
    assert Follows(run[i], steps[i], run[i + 1]);
    ResultsInOrder(run, steps, i);
    var collected, batch := Collected(run, steps, i), run[i].batch;
    assert (collected + (batch + run[i].results))[|collected|] == batch[0];
  }

  // ----- Callbacks that throw

  /** One call of poll once it has swapped its batch out: turn by turn until the batch is empty. */
  function DeliverBatch(s: State): State
    decreases |s.batch|
  {
    if s.batch == [] then s else DeliverBatch(NextResult(s))
  }

  /** The loop of one call of drop_below. */
  function DeliverDrop(s: State, call: nat): State
    requires call < |s.drops|
    decreases |s.drops[call]|
  {
    if s.drops[call] == [] then s else DeliverDrop(NextDropped(s, call), call)
  }

  /** The requests of `q` that have a callback, in order. */
  function WithCallback(q: seq<Request>): seq<Request> {
    if q == [] then []
    else WithCallback(q[..|q| - 1]) + if q[|q| - 1].callback == Null then [] else [q[|q| - 1]]
  }

  /** Calling the callbacks in order reaches every request: none but the last throws. */
  predicate Reaches(q: seq<Request>) {
    forall i :: 0 <= i < |q| - 1 ==> q[i].callback != Throws
  }

  predicate NoneNull(q: seq<Request>) {
    forall i :: 0 <= i < |q| ==> q[i].callback != Null
  }

  /** A call of poll delivers its whole batch if and only if every callback in it is non-null and none
      but the last throws; otherwise everything from the first null callback on, or behind the first
      throwing one, is gone. */
  lemma BatchDeliveredIffCallable(s: State)
    ensures DeliverBatch(s).lost == s.lost <==> NoneNull(s.batch) && Reaches(s.batch)
    ensures |DeliverBatch(s).lost| >= |s.lost|
    ensures NoneNull(s.batch) && Reaches(s.batch) ==>
              DeliverBatch(s).finished == s.finished + multiset(s.batch)
              && DeliverBatch(s).ran == s.ran + multiset(s.batch)
  {
    BatchLost(s);
    if NoneNull(s.batch) && Reaches(s.batch) {
      BatchRun(s);
    }
  }

  lemma {:induction false} BatchLost(s: State)
    ensures DeliverBatch(s).lost == s.lost <==> NoneNull(s.batch) && Reaches(s.batch)
    ensures |DeliverBatch(s).lost| >= |s.lost|
    decreases |s.batch|
  {
    if s.batch != [] {
      BatchLost(NextResult(s));
      ReachesRest(s.batch);
      FirstTurn(s);
    }
  }

  lemma {:induction false} BatchRun(s: State)
    requires NoneNull(s.batch) && Reaches(s.batch)
    ensures DeliverBatch(s).finished == s.finished + multiset(s.batch)
    ensures DeliverBatch(s).ran == s.ran + multiset(s.batch)
    decreases |s.batch|
  {
    if s.batch != [] {
      ReachesRest(s.batch);
      FirstTurn(s);
      BatchRun(NextResult(s));
    }
  }

  /** What the first turn of poll's loop leaves. */
  lemma FirstTurn(s: State)
    requires s.batch != []
    ensures
      var r, rest, t := s.batch[0], s.batch[1..], NextResult(s);
      && multiset(s.batch) == One(r) + multiset(rest)
      && t.batch == (if r.callback == Returns then rest else [])
      && t.lost == s.lost + (if r.callback == Null then multiset(s.batch)
                             else if r.callback == Throws then multiset(rest) else multiset{})
      && (r.callback != Null ==> t.finished == s.finished + One(r) && t.ran == s.ran + One(r))
  {
    assert s.batch == [s.batch[0]] + s.batch[1..];
  }

  lemma ReachesRest(q: seq<Request>)
    requires q != []
    ensures Reaches(q) <==> Reaches(q[1..]) && (q[0].callback == Throws ==> q[1..] == [])
    ensures NoneNull(q) <==> NoneNull(q[1..]) && q[0].callback != Null
    ensures |multiset(q)| > 0 && (q[1..] != [] ==> |multiset(q[1..])| > 0)
  {
    assert forall i :: 0 <= i < |q| - 1 ==> q[1..][i] == q[i + 1];
    if NoneNull(q[1..]) && q[0].callback != Null {
      assert forall i :: 0 < i < |q| ==> q[i] == q[1..][i - 1];
    }
    if Reaches(q[1..]) && (q[0].callback == Throws ==> q[1..] == []) {
      assert forall i :: 0 < i < |q| - 1 ==> q[i] == q[1..][i - 1];
    }
  }

  /** A call of drop_below reaches every request it took out if and only if no callback but the last
      throws; a null one is skipped. */
  lemma {:induction false} DropDeliveredIff(s: State, call: nat)
    requires call < |s.drops|
    ensures DeliverDrop(s, call).lost == s.lost <==> Reaches(s.drops[call])
    ensures |DeliverDrop(s, call).lost| >= |s.lost|
    ensures Reaches(s.drops[call]) ==>
              DeliverDrop(s, call).finished == s.finished + multiset(s.drops[call])
    decreases |s.drops[call]|
  {
    var q := s.drops[call];
    if q != [] {
      assert q == [q[0]] + q[1..];
      DropDeliveredIff(NextDropped(s, call), call);
      ReachesRest(q);
    }
  }

  /** The callbacks poll calls that run: up to the first that throws, or before the first that is null. */
  function CallsOf(q: seq<Request>): seq<Request> {
    if q == [] || q[0].callback == Null then []
    else [q[0]] + if q[0].callback == Throws then [] else CallsOf(q[1..])
  }

  /** How many requests the loop of drop_below comes to: up to the first that throws. */
  function ReachedIn(q: seq<Request>): (n: nat)
    ensures n <= |q|
  {
    if q == [] then 0 else 1 + if q[0].callback == Throws then 0 else ReachedIn(q[1..])
  }

  /** No callback of `q` is null or throws. */
  predicate AllReturn(q: seq<Request>) {
    forall r :: r in q ==> r.callback == Returns
  }

  /** The callbacks that run are a prefix of the batch, with no null one and no throwing one but the last. */
  lemma {:induction false} CallsArePrefix(q: seq<Request>)
    ensures CallsOf(q) <= q && NoneNull(CallsOf(q)) && Reaches(CallsOf(q))
  {
    if q != [] {
      CallsArePrefix(q[1..]);
      assert q == [q[0]] + q[1..];
      if q[0].callback == Returns {
        BehindReturning(q[0], CallsOf(q[1..]));
      }
    }
  }

  lemma BehindReturning(r: Request, called: seq<Request>)
    requires r.callback == Returns && NoneNull(called) && Reaches(called)
    ensures NoneNull([r] + called) && Reaches([r] + called)
  {
  }

  /** They are the whole of it unless one is null or throws, and otherwise all that return before the first
      such one, and that one too if it throws. */
  predicate RightCalls(q: seq<Request>, called: seq<Request>) {
    if AllReturn(q) then called == q
    else (called != [] && called[|called| - 1].callback == Throws)
         || (AllReturn(called) && |called| < |q| && q[|called|].callback == Null)
  }

  lemma {:induction false} CallsAreRight(q: seq<Request>)
    ensures RightCalls(q, CallsOf(q))
  {
    if q != [] {
      AllReturnRest(q);
      if q[0].callback == Returns {
        CallsAreRight(q[1..]);
        RightBehind(q, CallsOf(q[1..]));
      }
    }
  }

  lemma RightBehind(q: seq<Request>, called: seq<Request>)
    requires q != [] && q[0].callback == Returns && RightCalls(q[1..], called)
    ensures RightCalls(q, [q[0]] + called)
  {
    AllReturnRest(q);
    AllReturnRest([q[0]] + called);
  }

  lemma AllReturnRest(q: seq<Request>)
    requires q != []
    ensures AllReturn(q) <==> q[0].callback == Returns && AllReturn(q[1..])
  {
    assert q == [q[0]] + q[1..];
  }

  lemma {:induction false} WithCallbackFirst(r: Request, q: seq<Request>)
    ensures WithCallback([r] + q) == (if r.callback == Null then [] else [r]) + WithCallback(q)
  {
    if q == [] {
      assert [r] + q == [r] && WithCallback([r][..0]) == [];
    } else {
      var front, last := q[..|q| - 1], q[|q| - 1];
      WithCallbackFirst(r, front);
      assert ([r] + q)[..|q|] == [r] + front;
      Regroup(if r.callback == Null then [] else [r], WithCallback(front), if last.callback == Null then [] else [last]);
    }
  }

  /** What a call of poll does to the machine when it runs `called`, the first requests of its batch. */
  function PollEffect(s: State, called: seq<Request>): State
    requires |called| <= |s.batch|
  {
    s.(batch := [], finished := s.finished + multiset(called), ran := s.ran + multiset(called),
       lost := s.lost + multiset(s.batch[|called|..]))
  }

  /** One call of poll changes the machine by exactly the callbacks it called and the requests it did not
      come to. */
  lemma {:induction false} PollDelivers(s: State)
    ensures CallsOf(s.batch) <= s.batch && DeliverBatch(s) == PollEffect(s, CallsOf(s.batch))
    decreases |s.batch|
  {
    CallsArePrefix(s.batch);
    if s.batch == [] {
      assert s.batch[0..] == [];
    } else {
      match s.batch[0].callback {
        case Null => PollNull(s);
        case Throws => PollThrows(s);
        case Returns =>
          PollDelivers(NextResult(s));
          PollReturns(s, CallsOf(s.batch[1..]));
      }
    }
  }

  lemma PollNull(s: State)
    requires s.batch != [] && s.batch[0].callback == Null
    ensures PollEffect(s, []) == NextResult(s)
  {
    assert s.batch[0..] == s.batch;
  }

  lemma PollThrows(s: State)
    requires s.batch != [] && s.batch[0].callback == Throws
    ensures PollEffect(s, [s.batch[0]]) == NextResult(s)
  {
  }

  lemma PollReturns(s: State, called: seq<Request>)
    requires s.batch != [] && s.batch[0].callback == Returns && |called| < |s.batch|
    ensures PollEffect(NextResult(s), called) == PollEffect(s, [s.batch[0]] + called)
  {
    assert s.batch[1..][|called|..] == s.batch[|called| + 1..];
  }

  /** What a call of drop_below does to the machine when it reaches the first `n` requests it took out. */
  function DropEffect(s: State, call: nat, n: nat): State
    requires call < |s.drops| && n <= |s.drops[call]|
  {
    var q := s.drops[call];
    s.(drops := s.drops[call := []], finished := s.finished + multiset(q[..n]),
       ran := s.ran + multiset(WithCallback(q[..n])), lost := s.lost + multiset(q[n..]))
  }

  /** And so does one call of drop_below. */
  lemma {:induction false} DropDelivers(s: State, call: nat)
    requires call < |s.drops|
    ensures DeliverDrop(s, call) == DropEffect(s, call, ReachedIn(s.drops[call]))
    decreases |s.drops[call]|
  {
    if s.drops[call] == [] {
      NothingToDrop(s, call);
    } else if s.drops[call][0].callback == Throws {
      DropThrows(s, call);
    } else {
      DropDelivers(NextDropped(s, call), call);
      DropGoesOn(s, call, ReachedIn(s.drops[call][1..]));
    }
  }

  lemma NothingToDrop(s: State, call: nat)
    requires call < |s.drops| && s.drops[call] == []
    ensures DropEffect(s, call, 0) == s
  {
    assert s.drops[call := []] == s.drops;
  }

  lemma DropThrows(s: State, call: nat)
    requires call < |s.drops| && s.drops[call] != [] && s.drops[call][0].callback == Throws
    ensures DropEffect(s, call, 1) == NextDropped(s, call)
  {
    OnlyFirst(s.drops[call][0], s.drops[call]);
  }

  lemma OnlyFirst(r: Request, q: seq<Request>)
    requires q != [] && q[0] == r && r.callback == Throws
    ensures q[..1] == [r] && WithCallback(q[..1]) == [r]
  {
    WithCallbackFirst(r, []);
    assert [r] + [] == [r];
  }

  lemma DropGoesOn(s: State, call: nat, n: nat)
    requires call < |s.drops| && n < |s.drops[call]| && s.drops[call][0].callback != Throws
    ensures DropEffect(NextDropped(s, call), call, n) == DropEffect(s, call, n + 1)
  {
    var q := s.drops[call];
    var behind := q[1..][..n];
    SplitReached(q, n);
    WithCallbackFirst(q[0], behind);
    AddCalled(s, call, behind, WithCallback(behind), q[n + 1..]);
  }

  lemma SplitReached(q: seq<Request>, n: nat)
    requires n < |q|
    ensures q[..n + 1] == [q[0]] + q[1..][..n] && q[1..][n..] == q[n + 1..]
  {
  }

  /** One turn of the loop and then the rest, against both at once. */
  lemma AddCalled(s: State, call: nat, behind: seq<Request>, called: seq<Request>, rest: seq<Request>)
    requires call < |s.drops| && s.drops[call] != [] && s.drops[call][0].callback != Throws
    ensures
      var r, t := s.drops[call][0], NextDropped(s, call);
      && t.finished + multiset(behind) == s.finished + multiset([r] + behind)
      && t.ran + multiset(called) == s.ran + multiset((if r.callback == Null then [] else [r]) + called)
      && t.lost == s.lost && t.drops[call := []] == s.drops[call := []]
      && t.(drops := [], finished := multiset{}, ran := multiset{}, lost := multiset{})
         == s.(drops := [], finished := multiset{}, ran := multiset{}, lost := multiset{})
  {
    assert [] + called == called;
  }

  lemma Extend(run: seq<State>, steps: seq<Step>, step: Step) returns (run': seq<State>, steps': seq<Step>)
    requires IsRun(run, steps) && Enabled(run[|run| - 1], step)
    ensures IsRun(run', steps') && run'[|run'| - 1] == Next(run[|run| - 1], step)
    ensures steps' == steps + [step]
  {
    run', steps' := run + [Next(run[|run| - 1], step)], steps + [step];
    forall i | 0 <= i < |steps'| ensures Follows(run'[i], steps'[i], run'[i + 1]) {
      assert i < |steps| ==> Follows(run[i], steps[i], run[i + 1]);
    }
  }

  /** One more request is accepted and queued. */
  lemma Queued(run: seq<State>, steps: seq<Step>, r: Request) returns (run': seq<State>, steps': seq<Step>)
    requires IsRun(run, steps) && r.Valid()
    requires
      var last := run[|run| - 1];
      !last.terminated && last.submitting == multiset{} && r !in last.accepted
    ensures IsRun(run', steps')
    ensures
      var last := run[|run| - 1];
      run'[|run'| - 1] == last.(accepted := last.accepted + {r}, queues := Enqueue(last.queues, r),
                                pending := last.pending + 1)
  {
    run', steps' := Extend(run, steps, Accept(r));
    run', steps' := Extend(run', steps', Push(r));
    assert run'[|run'| - 1].submitting == multiset{};
  }

  lemma {:induction false} TopOfOne(r: Request, n: nat)
    requires r.priority < n <= LEVELS
    ensures TopLevel(Enqueue(EMPTY, r), n) == r.priority
  {
    if r.priority < n - 1 {
      TopOfOne(r, n - 1);
    }
  }

  /** Nothing is on its way to a worker, and no worker holds anything. */
  ghost predicate Clean(s: State) {
    !s.terminated && s.submitting == s.working == multiset{} && s.queues == EMPTY
  }

  /** One more request is accepted, queued and popped by a worker. */
  lemma Popped(run: seq<State>, steps: seq<Step>, r: Request) returns (run': seq<State>, steps': seq<Step>)
    requires IsRun(run, steps) && r.Valid() && Clean(run[|run| - 1]) && r !in run[|run| - 1].accepted
    ensures IsRun(run', steps')
    ensures
      var last := run[|run| - 1];
      run'[|run'| - 1] == last.(accepted := last.accepted + {r}, working := One(r), pending := last.pending + 1)
  {
    run', steps' := Queued(run, steps, r);
    TopOfOne(r, LEVELS);
    assert Enqueue(EMPTY, r)[r.priority] == [r] && [r][1..] == [];
    assert Enqueue(EMPTY, r)[r.priority := []] == EMPTY;
    run', steps' := Extend(run', steps', Pop);
  }

  /** And its worker turns to HTTP/1.1. */
  lemma Transferred(run: seq<State>, steps: seq<Step>, r: Request) returns (run': seq<State>, steps': seq<Step>)
    requires IsRun(run, steps) && r.Valid() && Clean(run[|run| - 1]) && r !in run[|run| - 1].accepted
    ensures IsRun(run', steps') && Clean(run'[|run'| - 1])
    ensures
      var last := run[|run| - 1];
      run'[|run'| - 1]
      == last.(accepted := last.accepted + {r}, onH1 := last.onH1 + One(r), pending := last.pending + 1)
  {
    run', steps' := Popped(run, steps, r);
    run', steps' := Extend(run', steps', UseH1(r));
    assert One(r) - One(r) == multiset{};
  }

  /** One more plain request is accepted, queued and completed by an HTTP/1.1 worker. */
  lemma Completed(run: seq<State>, steps: seq<Step>, r: Request) returns (run': seq<State>, steps': seq<Step>)
    requires IsRun(run, steps) && r.Valid() && !r.streaming
    requires Clean(run[|run| - 1]) && r !in run[|run| - 1].accepted
    ensures IsRun(run', steps')
    ensures
      var last := run[|run| - 1];
      run'[|run'| - 1] == last.(accepted := last.accepted + {r}, results := last.results + [r],
                                unsettled := last.unsettled + One(r), pending := last.pending + 1)
  {
    run', steps' := Transferred(run, steps, r);
    run', steps' := Extend(run', steps', FinishH1(r));
    var onH1 := run[|run| - 1].onH1;
    assert onH1 + One(r) - One(r) == onH1;
  }

  /** `r` is accepted with `t`, lost, and its callback never runs. */
  ghost predicate LosesWith(run: seq<State>, steps: seq<Step>, t: Request, r: Request) {
    && IsRun(run, steps)
    && var last := run[|run| - 1];
    last.accepted == {t, r} && Quiescent(last) && last.lost[r] == 1 && last.ran[r] == 0
  }

  /** Plain requests have completed, and one poll comes to a callback that does not return. */
  lemma Polled(run: seq<State>, steps: seq<Step>, t: Request, rest: seq<Request>)
    returns (run': seq<State>, steps': seq<Step>)
    requires IsRun(run, steps)
    requires
      var last := run[|run| - 1];
      !last.terminated && last.batch == [] && last.results == [t] + rest && t.callback != Returns
    ensures IsRun(run', steps') && PollNext in steps'
    ensures
      var last, end := run[|run| - 1], run'[|run'| - 1];
      && end == last.(results := [], lost := end.lost, finished := end.finished, ran := end.ran)
      && end.lost == last.lost + (if t.callback == Null then One(t) else multiset{}) + multiset(rest)
      && end.ran == last.ran + if t.callback == Null then multiset{} else One(t)
  {
    assert ([t] + rest)[1..] == rest && multiset([t] + rest) == One(t) + multiset(rest);
    run', steps' := Extend(run, steps, PollSwap);
    run', steps' := Extend(run', steps', PollNext);
  }

  /** A null callback loses its own request. */
  lemma NullLosesItself(t: Request) returns (run: seq<State>, steps: seq<Step>)
    requires t.Valid() && Takes(t, t)
    ensures LosesWith(run, steps, t, t) && PollNext in steps
  {
    run, steps := Completed([INITIAL], [], t);
    assert [] + [t] == [t] + [];
    var none: seq<Request> := [];
    run, steps := Polled(run, steps, t, none);
    assert multiset(none) == multiset{} && run[|run| - 1].accepted == {t, t};
  }

  /** Two plain requests complete one after the other and are delivered in one batch. */
  lemma BatchLoses(t: Request, r: Request) returns (run: seq<State>, steps: seq<Step>)
    requires t.Valid() && r.Valid() && t != r && Takes(t, r) && !t.streaming && !r.streaming
    ensures LosesWith(run, steps, t, r) && PollNext in steps
  {
    run, steps := Completed([INITIAL], [], t);
    run, steps := Completed(run, steps, r);
    assert ([] + [t]) + [r] == [t] + [r];
    run, steps := Polled(run, steps, t, [r]);
    assert multiset([r]) == One(r);
  }

  lemma OneAtLevel(queues: Queues, r: Request, level: nat)
    requires r.Valid() && level < LEVELS
    ensures Enqueue(queues, r)[level] == queues[level] + if r.priority == level then [r] else []
  {
    assert queues[level] + [] == queues[level];
  }

  lemma {:induction false} BelowOne(r: Request, n: nat)
    requires r.Valid() && n <= LEVELS
    ensures Below(Enqueue(EMPTY, r), n) == if r.priority < n then [r] else []
  {
    if n > 0 {
      BelowOne(r, n - 1);
      OneAtLevel(EMPTY, r, n - 1);
    }
  }

  lemma {:induction false} BelowTwo(t: Request, r: Request, n: nat)
    requires t.Valid() && r.priority <= t.priority && n <= LEVELS
    ensures Below(Enqueue(Enqueue(EMPTY, t), r), n)
         == (if t.priority < n then [t] else []) + (if r.priority < n then [r] else [])
  {
    if n > 0 {
      BelowTwo(t, r, n - 1);
    }
  }

  lemma ClearTwo(t: Request, r: Request)
    requires r.priority <= t.priority < LEVELS
    ensures Clear(Enqueue(Enqueue(EMPTY, t), r), t.priority + 1) == EMPTY
  {
    var queues := Clear(Enqueue(Enqueue(EMPTY, t), r), t.priority + 1);
    assert forall i :: 0 <= i < LEVELS ==> queues[i] == EMPTY[i];
  }

  lemma DroppedTogether(t: Request, r: Request) returns (run: seq<State>, steps: seq<Step>)
    requires t != r && r.priority <= t.priority < LEVELS - 1
    ensures IsRun(run, steps)
    ensures run[|run| - 1] == INITIAL.(accepted := {t, r}, drops := [[t, r]])
  {
    run, steps := Queued([INITIAL], [], t);
    run, steps := Queued(run, steps, r);
    BelowTwo(t, r, t.priority + 1);
    ClearTwo(t, r);
    run, steps := Extend(run, steps, DropBelow(t.priority + 1));
    assert [t] + [r] == [t, r] && [] + [[t, r]] == [[t, r]];
  }

  /** Two queued requests are dropped together, and the callback of the first throws. */
  lemma DropLoses(t: Request, r: Request) returns (run: seq<State>, steps: seq<Step>)
    requires t.callback == Throws && t != r && r.priority <= t.priority < LEVELS - 1
    ensures LosesWith(run, steps, t, r) && RunDropped(0) in steps
  {
    run, steps := DroppedTogether(t, r);
    run, steps := Extend(run, steps, RunDropped(0));
    assert [t, r][1..] == [r] && multiset([r]) == One(r);
    assert [[t, r]][0 := []] == [[]];
  }

  /** Some run that accepts no other requests than these loses `r`. */
  ghost predicate CanLose(requests: set<Request>, r: Request) {
    exists run: seq<State>, steps: seq<Step> ::
      IsRun(run, steps) && run[|run| - 1].accepted <= requests && r in run[|run| - 1].lost
  }

  /** Exactly when a request can be lost: some request handed over takes it. */
  lemma LostIffTaken(requests: set<Request>, r: Request)
    requires AllValid(requests)
    ensures CanLose(requests, r) <==> r in requests && Takable(requests, r)
  {
    if CanLose(requests, r) {
      var run: seq<State>, steps: seq<Step> :| IsRun(run, steps) && run[|run| - 1].accepted <= requests && r in run[|run| - 1].lost;
      CallbackRunsExactlyOnce(run, steps, |run| - 1, r);
    }
    if r in requests && Takable(requests, r) {
      var t :| t in requests && Takes(t, r);
      var run, steps;
      if t == r {
        run, steps := NullLosesItself(t);
      } else if !t.streaming && !r.streaming {
        run, steps := BatchLoses(t, r);
      } else {
        run, steps := DropLoses(t, r);
      }
    }
  }

  /** A plain request without a callback takes the next one with it, whose callback then never runs. */
  lemma NullCallbackLosesAnother() returns (run: seq<State>, steps: seq<Step>)
    ensures LosesWith(run, steps, Request(0, "", 1, Null, Absent), Request(1, "", 1, Returns, Absent))
  {
    run, steps := BatchLoses(Request(0, "", 1, Null, Absent), Request(1, "", 1, Returns, Absent));
  }

  /** So does one whose callback throws, in poll and in drop_below. */
  lemma ThrowingCallbackLosesAnother()
    returns (run: seq<State>, steps: seq<Step>, dropRun: seq<State>, dropSteps: seq<Step>)
    ensures LosesWith(run, steps, Request(0, "", 1, Throws, Absent), Request(1, "", 1, Returns, Absent))
    ensures LosesWith(dropRun, dropSteps, Request(0, "", 1, Throws, Absent), Request(1, "", 1, Returns, Absent))
    ensures PollNext in steps && RunDropped(0) in dropSteps
  {
    var t, r := Request(0, "", 1, Throws, Absent), Request(1, "", 1, Returns, Absent);
    run, steps := BatchLoses(t, r);
    dropRun, dropSteps := DropLoses(t, r);
  }

  /** A request whose callback throws on the worker thread ends the run there. */
  lemma CallbackTerminates(t: Request) returns (run: seq<State>, steps: seq<Step>)
    requires t.Valid() && t.ThrowsOnWorker()
    ensures IsRun(run, steps) && run[|run| - 1].terminated && run[|run| - 1].accepted == {t}
  {
    run, steps := Transferred([INITIAL], [], t);
    run, steps := Extend(run, steps, if t.chunks == Escapes then ChunkEscapes(t) else FinishH1(t));
  }

  /** So does a plain request to a host whose port cannot be read, once an HTTP/1.1 transfer of another
      request has succeeded there.  No callback has run. */
  lemma PortTerminates(t: Request, q: Request) returns (run: seq<State>, steps: seq<Step>)
    requires t.Valid() && q.Valid() && MeetsPort(t, q)
    ensures IsRun(run, steps) && run[|run| - 1].terminated
    ensures run[|run| - 1].accepted == {t, q} && run[|run| - 1].ran == multiset{}
  {
    run, steps := Transferred([INITIAL], [], q);
    run, steps := Extend(run, steps, MarkEligible(q));
    run, steps := Popped(run, steps, t);
    run, steps := Extend(run, steps, ReadPort(t));
  }

  /** Two plain requests with harmless callbacks to an IPv6 address in brackets are enough. */
  lemma BracketedHostTerminates() returns (run: seq<State>, steps: seq<Step>)
    ensures IsRun(run, steps) && run[|run| - 1].terminated
    ensures forall r :: r in run[|run| - 1].accepted ==>
      r.host == "https://[::1]:8443" && r.callback == Returns && !r.streaming
  {
    var host := "https://[::1]:8443";
    BracketedThrows();
    run, steps := PortTerminates(Request(0, host, 1, Returns, Absent), Request(1, host, 1, Returns, Absent));
  }

  /** An exception can leave a worker thread exactly when a callback throws there, or two requests meet at a
      host whose port cannot be read. */
  lemma TerminatesIff(requests: set<Request>)
    requires AllValid(requests)
    ensures CanTerminate(requests) <==> Terminates(requests)
  {
    if CanTerminate(requests) {
      var run: seq<State>, steps: seq<Step> :|
        IsRun(run, steps) && run[|run| - 1].accepted <= requests && run[|run| - 1].terminated;
      InvHolds(run, steps, |run| - 1);
      TerminatesMore(run[|run| - 1].accepted, requests);
    }
    if exists t :: t in requests && t.ThrowsOnWorker() {
      var t :| t in requests && t.ThrowsOnWorker();
      var run, steps := CallbackTerminates(t);
    } else if Terminates(requests) {
      var t, q :| t in requests && q in requests && MeetsPort(t, q);
      var run, steps := PortTerminates(t, q);
    }
  }

  lemma TerminatesMore(some: set<Request>, all: set<Request>)
    requires some <= all && Terminates(some)
    ensures Terminates(all)
  {
    if t :| t in some && t.ThrowsOnWorker() {
      assert t in all;
    } else {
      var t, q :| t in some && q in some && MeetsPort(t, q);
      assert t in all && q in all;
    }
  }

  ghost predicate CanTerminate(requests: set<Request>) {
    exists run: seq<State>, steps: seq<Step> ::
      IsRun(run, steps) && run[|run| - 1].accepted <= requests && run[|run| - 1].terminated
  }

  // ----- The object itself

  /** The pool's shared fields and the code of its locked sections. */
  class Pool {
    var queues: Queues
    var results: seq<Request>
    var pending: int

    constructor ()
      ensures queues == INITIAL.queues && results == [] && pending == 0
    {
      queues, results, pending := [[], [], [], []], [], 0;
    }

    /** get and get_streaming: the request is counted before it can be popped. */
    method Get(r: Request)
      requires r.Valid()
      modifies this
      ensures queues == Enqueue(old(queues), r)
      ensures pending == old(pending) + 1 && results == old(results)
    {
      pending := pending + 1;
      queues := queues[r.priority := queues[r.priority] + [r]];
    }

    /** The locked part of drop_below: the levels strictly below the threshold, from the top down. */
    method TakeBelow(threshold: nat) returns (dropped: seq<Request>)
      requires threshold < LEVELS
      modifies this
      ensures dropped == Below(old(queues), threshold)
      ensures queues == Clear(old(queues), threshold)
      ensures pending == old(pending) - |dropped| && results == old(results)
    {
      dropped := [];
      var i := threshold;
      while i > 0
        invariant 0 <= i <= threshold
        invariant dropped + Below(old(queues), i) == Below(old(queues), threshold)
        invariant pending == old(pending) - |dropped| && results == old(results)
        invariant forall k :: 0 <= k < LEVELS ==>
          queues[k] == if i <= k < threshold then [] else old(queues)[k]
      {
        i := i - 1;
        assert Below(old(queues), i + 1) == queues[i] + Below(old(queues), i);
        assert dropped + (queues[i] + Below(old(queues), i)) == (dropped + queues[i]) + Below(old(queues), i);
        pending := pending - |queues[i]|;
        dropped := dropped + queues[i];
        queues := queues[i := []];
      }
      assert dropped + [] == dropped;
    }

    /** drop_below: the callbacks of what was taken out run in order, null ones are skipped, and an
        exception ends the loop.  `reached` counts those whose turn came, `called` lists those that ran. */
    method DropBelow(threshold: nat)
      returns (dropped: seq<Request>, reached: nat, called: seq<Request>, threw: bool)
      requires threshold < LEVELS
      modifies this
      ensures dropped == Below(old(queues), threshold)
      ensures queues == Clear(old(queues), threshold)
      ensures pending == old(pending) - |dropped| && results == old(results)
      ensures reached == ReachedIn(dropped) && called == WithCallback(dropped[..reached])
      ensures Reaches(dropped[..reached])
      ensures if threw then reached > 0 && dropped[reached - 1].callback == Throws
              else reached == |dropped| && forall r :: r in dropped ==> r.callback != Throws
    {
      dropped := TakeBelow(threshold);
      called := [];
      reached := 0;
      while reached < |dropped|
        invariant reached <= |dropped| && called == WithCallback(dropped[..reached])
        invariant reached + ReachedIn(dropped[reached..]) == ReachedIn(dropped)
        invariant forall i :: 0 <= i < reached ==> dropped[i].callback != Throws
        invariant queues == Clear(old(queues), threshold)
        invariant pending == old(pending) - |dropped| && results == old(results)
      {
        assert dropped[..reached + 1][..reached] == dropped[..reached];
        assert dropped[reached..][1..] == dropped[reached + 1..];
        if dropped[reached].callback != Null {
          called := called + [dropped[reached]];
        }
        reached := reached + 1;
        if dropped[reached - 1].callback == Throws {
          return dropped, reached, called, true;
        }
      }
      threw := false;
    }

    /** pop_highest. */
    method PopHighest() returns (found: bool, out: Request)
      modifies this
      ensures found == (TopLevel(old(queues), LEVELS) >= 0)
      ensures found ==>
        var level := TopLevel(old(queues), LEVELS);
        out == old(queues)[level][0] && queues == old(queues)[level := old(queues)[level][1..]]
      ensures !found ==> queues == old(queues)
      ensures pending == old(pending) && results == old(results)
    {
      out := NO_REQUEST;
      var i := LEVELS - 1;
      while i >= 0
        invariant -1 <= i < LEVELS
        invariant TopLevel(queues, LEVELS) == TopLevel(queues, i + 1)
        invariant queues == old(queues) && pending == old(pending) && results == old(results)
      {
        if queues[i] != [] {
          out := queues[i][0];
          queues := queues[i := queues[i][1..]];
          return true, out;
        }
        i := i - 1;
      }
      return false, out;
    }

    /** The callback given to a connection: the result is queued, if there is a callback to deliver it to. */
    method OnH2Complete(r: Request)
      modifies this
      ensures results == old(results) + if r.callback == Null then [] else [r]
      ensures pending == old(pending) - 1 && queues == old(queues)
    {
      if r.callback != Null {
        results := results + [r];
      }
      pending := pending - 1;
    }

    /** The end of a turn of worker_loop behind an HTTP/1.1 transfer: a streaming request's callback runs
        here, and the counter stays when it throws. */
    method FinishTransfer(r: Request) returns (called: bool, threw: bool)
      modifies this
      ensures called == (r.streaming && r.callback != Null) && threw == (called && r.callback == Throws)
      ensures results == old(results) + if r.streaming then [] else [r]
      ensures pending == old(pending) - (if threw then 0 else 1) && queues == old(queues)
    {
      called, threw := false, false;
      if r.streaming {
        if r.callback != Null {
          called, threw := true, r.callback == Throws;
        }
      } else {
        results := results + [r];
      }
      if !threw {
        pending := pending - 1;
      }
    }

    /** poll: swap the result queue out, then run the callbacks in order.  An exception ends the loop, and
        the rest of the batch goes with it: a null callback throws without running, one that throws has
        run. */
    method Poll() returns (called: seq<Request>, threw: bool)
      modifies this
      ensures results == [] && queues == old(queues) && pending == old(pending)
      ensures called == CallsOf(old(results)) && threw == !AllReturn(old(results))
    {
      var batch := results;
      results := [];
      called := [];
      while batch != []
        invariant called + CallsOf(batch) == CallsOf(old(results)) && AllReturn(batch) == AllReturn(old(results))
        invariant results == [] && queues == old(queues) && pending == old(pending)
        decreases |batch|
      {
        AllReturnRest(batch);
        if batch[0].callback == Null {
          return called, true;
        }
        Regroup(called, [batch[0]], CallsOf(batch[1..]));
        called := called + [batch[0]];
        if batch[0].callback == Throws {
          return called, true;
        }
        batch := batch[1..];
      }
      threw := false;
    }
  }

  /** Which hosts get HTTP/2: the sets behind mark_h2_eligible and get_h2. */
  datatype Lookup = UseConnection | FallBack | Connect

  class H2Hosts {
    var failed: set<string>
    var eligible: set<string>
    var connecting: set<string>
    var live: map<string, bool>                 // connections, with is_alive()
    ghost var connectors: multiset<string>      // one entry per worker inside a connect

    /** At most one worker connects to a host, only to an eligible one, never to one that failed. */
    ghost predicate Valid()
      reads this
    {
      && connectors == multiset(connecting)
      && connecting <= eligible
      && failed !! connecting && failed !! live.Keys && connecting !! live.Keys
    }

    constructor ()
      ensures Valid() && failed == {} && eligible == {} && live == map[] && connecting == {}
    {
      failed, eligible, connecting, live, connectors := {}, {}, {}, map[], multiset{};
    }

    method MarkEligible(host: string)
      requires Valid()
      modifies this
      ensures Valid()
      ensures eligible == old(eligible) + if host in failed then {} else {host}
      ensures failed == old(failed) && connecting == old(connecting) && live == old(live)
      ensures connectors == old(connectors)
    {
      if host !in failed {
        eligible := eligible + {host};
      }
    }

    /** The first locked section of get_h2. */
    method Find(host: string) returns (lookup: Lookup)
      requires Valid()
      modifies this
      ensures Valid()
      ensures lookup == UseConnection <==> host in old(live) && old(live)[host]
      ensures lookup == Connect <==>
        host in eligible && host !in failed && host !in old(connecting) && !(host in old(live) && old(live)[host])
      ensures lookup == Connect ==>
        old(connectors)[host] == 0 && connecting == old(connecting) + {host} && connectors[host] == 1
      ensures lookup != Connect ==> connecting == old(connecting) && connectors == old(connectors)
      ensures live == if host in old(live) && !old(live)[host] then old(live) - {host} else old(live)
      ensures failed == old(failed) && eligible == old(eligible)
    {
      if host in failed {
        return FallBack;
      }
      if host in live {
        if live[host] {
          return UseConnection;
        }
        live := live - {host};
      }
      if host !in eligible {
        return FallBack;
      }
      if host in connecting {
        return FallBack;
      }
      connecting := connecting + {host};
      connectors := connectors + multiset{host};
      return Connect;
    }

    /** The hosts whose port was never read are neither connected to nor failed. */
    ghost predicate PortsRead()
      reads this
    {
      forall host :: host in failed || host in live ==> !PortThrows(host)
    }

    /** The rest of get_h2 for a host it goes on to connect to; `ok` when the peer negotiates HTTP/2.  The
        exception of a port that cannot be read leaves the host among those being connected to. */
    method ConnectTo(host: string, ok: bool) returns (threw: bool)
      requires Valid() && host in connectors
      modifies this
      ensures Valid() && threw == PortThrows(host) && (old(PortsRead()) ==> PortsRead())
      ensures eligible == old(eligible)
      ensures threw ==>
        connecting == old(connecting) && connectors == old(connectors) && failed == old(failed) && live == old(live)
      ensures !threw ==>
        && connecting == old(connecting) - {host} && connectors == old(connectors) - multiset{host}
        && var connected := ok && !("http://" <= host);
        && failed == old(failed) + (if connected then {} else {host})
        && live == if connected then old(live)[host := true] else old(live)
    {
      threw := ReadPort(host);
      if !threw {
        ConnectEnds(host, ok && !("http://" <= host));
      }
    }

    /** Whether reading the port throws; a plain-text host falls back before that. */
    method ReadPort(host: string) returns (threw: bool)
      ensures threw == PortThrows(host)
    {
      if "http://" <= host {
        return false;
      }
      var authority := Authority(host);
      var colon := Strings.Find(authority, ':', 0);
      threw := colon < |authority| && !Converts(authority[colon + 1..]);
    }

    /** The locked section after the connect: `ok` when the peer negotiated HTTP/2. */
    method ConnectEnds(host: string, ok: bool)
      requires Valid() && host in connectors
      modifies this
      ensures Valid()
      ensures connecting == old(connecting) - {host} && connectors == old(connectors) - multiset{host}
      ensures failed == old(failed) + if ok then {} else {host}
      ensures live == if ok then old(live)[host := true] else old(live)
      ensures eligible == old(eligible)
    {
      connecting := connecting - {host};
      connectors := connectors - multiset{host};
      if ok {
        live := live[host := true];
      } else {
        failed := failed + {host};
      }
    }
  }
}
