/** The completion protocol of one HTTP/2 connection (engine/net/Http2Connection.cpp). */
module Http2Connection {
  // Submitting threads and the I/O thread share a stream table under a mutex, and two flags that are
  // written without it.  The protocol is a state machine whose steps are the stretches of code that no
  // other thread can observe half done; the class at the end performs the same steps on fields.
  // Sockets and the nghttp2 session are the environment: which frames arrive, when the peer goes away
  // and whether a submission is accepted are choices of the step taken.

  /** What a request is answered with. */
  datatype Outcome =
    | ConnectionClosed
    | SubmitFailed
    | StreamEnded(code: nat)

  datatype Completion = Completion(request: nat, outcome: Outcome)

  /** Where one call of submit_get, submit_get_async, submit_post or submit_post_async stands.  The last
      two are the ways it returns: without a stream, or having put its request on stream `id`. */
  datatype CallPhase = Waiting | Locked | Admitted | Turned | Registered(id: int) {
    predicate Returned() { Turned? || Registered? }
    predicate Holding() { Locked? || Admitted? }
  }

  /** Where the I/O thread stands: `Receiving` is inside the locked receive of the pump, `Leaving` is
      after the loop and before the flag is cleared, `Drainable` is between the flag and the lock. */
  datatype IoPc = Pumping | Receiving | Leaving | Drainable | Draining | Finished {
    predicate HoldsMutex() { Receiving? || Draining? }
    predicate Closing() { Draining? || Finished? }
  }

  datatype Holder = Free | Caller(request: nat) | IoThread

  datatype State = State(
    alive: bool,
    running: bool,
    streams: map<int, nat>,          // stream id -> request waiting on it
    nextId: int,                     // the session never hands out an id twice
    lock: Holder,
    calls: map<nat, CallPhase>,
    pc: IoPc,
    drained: set<int>,               // ids the draining loop has visited
    log: seq<Completion>)            // every callback run and promise set, in order

  datatype Step =
    | Call(request: nat)
    | LockForSubmit(request: nat)
    | TestAlive(request: nat)
    | OpenStream(request: nat, accepted: bool)
    | ShutdownAlive
    | ShutdownRunning
    | LockForPump
    | CloseStream(id: int, code: nat)
    | LoseAlive
    | UnlockPump
    | PumpError
    | PumpEnds
    | LoopStops
    | ClearAlive
    | LockForDrain
    | DrainOne(id: int)
    | DrainEnds

  const INITIAL := State(true, true, map[], 1, Free, map[], Pumping, {}, [])

  predicate Enabled(s: State, step: Step) {
    match step
    case Call(r) => r !in s.calls
    case LockForSubmit(r) => r in s.calls && s.calls[r] == Waiting && s.lock == Free
    case TestAlive(r) => r in s.calls && s.calls[r] == Locked
    case OpenStream(r, _) => r in s.calls && s.calls[r] == Admitted
    case ShutdownAlive => true
    case ShutdownRunning => true
    case LockForPump => s.pc == Pumping && s.lock == Free
    case CloseStream(_, _) => s.pc == Receiving
    case LoseAlive => s.pc == Receiving
    case UnlockPump => s.pc == Receiving
    case PumpError => s.pc == Receiving
    case PumpEnds => s.pc == Pumping
    case LoopStops => s.pc == Pumping && !s.running
    case ClearAlive => s.pc == Leaving
    case LockForDrain => s.pc == Drainable && s.lock == Free
    case DrainOne(id) => s.pc == Draining && id in s.streams && id !in s.drained
    case DrainEnds => s.pc == Draining && s.drained == s.streams.Keys
  }

  /** The callbacks run and promises set by a step. */
  function Answers(s: State, step: Step): seq<Completion>
    requires Enabled(s, step)
  {
    match step
    case TestAlive(r) => if s.alive then [] else [Completion(r, ConnectionClosed)]
    case OpenStream(r, accepted) => if accepted then [] else [Completion(r, SubmitFailed)]
    case CloseStream(id, code) => if id in s.streams then [Completion(s.streams[id], StreamEnded(code))] else []
    case DrainOne(id) => [Completion(s.streams[id], ConnectionClosed)]
    case _ => []
  }

  /** The rest of the state after a step.  A submission that returns releases the mutex. */
  function Control(s: State, step: Step): State
    requires Enabled(s, step)
  {
    match step
    case Call(r) => s.(calls := s.calls[r := Waiting])
    case LockForSubmit(r) => s.(calls := s.calls[r := Locked], lock := Caller(r))
    case TestAlive(r) =>
      if s.alive then s.(calls := s.calls[r := Admitted]) else s.(calls := s.calls[r := Turned], lock := Free)
    case OpenStream(r, accepted) =>
      if accepted then
        s.(streams := s.streams[s.nextId := r], nextId := s.nextId + 2,
           calls := s.calls[r := Registered(s.nextId)], lock := Free)
      else
        s.(calls := s.calls[r := Turned], lock := Free)
    case ShutdownAlive => s.(alive := false)
    case ShutdownRunning => s.(running := false)
    case LockForPump => s.(lock := IoThread, pc := Receiving)
    case CloseStream(id, code) => s.(streams := s.streams - {id})
    case LoseAlive => s.(alive := false)
    case UnlockPump => s.(lock := Free, pc := Pumping)
    case PumpError => s.(alive := false, lock := Free, pc := Leaving)
    case PumpEnds => s.(alive := false, pc := Leaving)
    case LoopStops => s.(pc := Leaving)
    case ClearAlive => s.(alive := false, pc := Drainable)
    case LockForDrain => s.(lock := IoThread, pc := Draining)
    case DrainOne(id) => s.(drained := s.drained + {id})
    case DrainEnds => s.(streams := map[], drained := {}, lock := Free, pc := Finished)
  }

  function Next(s: State, step: Step): State
    requires Enabled(s, step)
  {
    Control(s, step).(log := s.log + Answers(s, step))
  }

  // ----- Counting completions

  function Count(log: seq<Completion>, r: nat): nat {
    if log == [] then 0
    else Count(log[..|log| - 1], r) + if log[|log| - 1].request == r then 1 else 0
  }

  lemma {:induction false} CountConcat(a: seq<Completion>, b: seq<Completion>, r: nat)
    ensures Count(a + b, r) == Count(a, r) + Count(b, r)
  {
    if b == [] {
      assert a + b == a;
    } else {
      CountConcat(a, b[..|b| - 1], r);
      assert (a + b)[..|a + b| - 1] == a + b[..|b| - 1];
    }
  }

  // ----- The invariant

  /** Request `r` waits on a stream that nobody has answered yet. */
  predicate Outstanding(s: State, r: nat) {
    r in s.calls && s.calls[r].Registered? && s.calls[r].id in s.streams && s.calls[r].id !in s.drained
  }

  /** How often `r` must have been answered: once, after its call returned, unless its stream is open. */
  function Due(s: State, r: nat): nat {
    if r in s.calls && s.calls[r].Returned() && !Outstanding(s, r) then 1 else 0
  }

  ghost predicate MutexInv(s: State) {
    && (s.lock == IoThread <==> s.pc.HoldsMutex())
    && (s.lock.Caller? ==> s.lock.request in s.calls)
    && (forall r :: r in s.calls ==> (s.calls[r].Holding() <==> s.lock == Caller(r)))
  }

  ghost predicate TableInv(s: State) {
    && (forall id :: id in s.streams ==>
          id < s.nextId && s.streams[id] in s.calls && s.calls[s.streams[id]] == Registered(id))
    && s.drained <= s.streams.Keys
    && (s.pc != Draining ==> s.drained == {})
  }

  ghost predicate CallsInv(s: State) {
    forall r :: r in s.calls && s.calls[r].Registered? ==>
      s.calls[r].id < s.nextId && (s.calls[r].id in s.streams ==> s.streams[s.calls[r].id] == r)
  }

  ghost predicate ClosingInv(s: State) {
    && (s.pc == Drainable || s.pc.Closing() ==> !s.alive)
    && (s.pc.Closing() ==> forall r :: r in s.calls ==> s.calls[r] != Admitted)
    && (s.pc == Finished ==> s.streams == map[])
  }

  ghost predicate ControlInv(s: State) {
    MutexInv(s) && TableInv(s) && CallsInv(s) && ClosingInv(s)
  }

  ghost predicate AnswersInv(s: State) {
    forall r :: Count(s.log, r) == Due(s, r)
  }

  lemma MutexPreserved(s: State, step: Step)
    requires MutexInv(s) && Enabled(s, step)
    ensures MutexInv(Control(s, step))
  {
  }

  lemma TablePreserved(s: State, step: Step)
    requires TableInv(s) && Enabled(s, step)
    ensures TableInv(Control(s, step))
  {
  }

  lemma CallsPreserved(s: State, step: Step)
    requires CallsInv(s) && TableInv(s) && Enabled(s, step)
    ensures CallsInv(Control(s, step))
  {
  }

  lemma ClosingPreserved(s: State, step: Step)
    requires MutexInv(s) && ClosingInv(s) && Enabled(s, step)
    ensures ClosingInv(Control(s, step))
  {
  }

  /** One step answers `r` exactly as often as it makes an answer to `r` due. */
  lemma StepAnswersWhatFallsDue(s: State, step: Step, r: nat)
    requires TableInv(s) && CallsInv(s) && Enabled(s, step)
    ensures Due(Control(s, step), r) == Due(s, r) + Count(Answers(s, step), r)
  {
  }

  lemma ControlPreserved(s: State, step: Step)
    requires ControlInv(s) && Enabled(s, step)
    ensures ControlInv(Control(s, step)) && ControlInv(Next(s, step))
  {
    MutexPreserved(s, step);
    TablePreserved(s, step);
    CallsPreserved(s, step);
    ClosingPreserved(s, step);
  }

  lemma AnswersPreserved(s: State, step: Step)
    requires ControlInv(s) && AnswersInv(s) && Enabled(s, step)
    ensures AnswersInv(Next(s, step))
  {
    forall r ensures Count(Next(s, step).log, r) == Due(Next(s, step), r) {
      CountConcat(s.log, Answers(s, step), r);
      StepAnswersWhatFallsDue(s, step, r);
      assert Count(s.log, r) == Due(s, r);
      assert Due(Next(s, step), r) == Due(Control(s, step), r);
    }
  }

  // ----- Runs

  /** A run starts in the constructed state, and every state follows from the one before by a step. */
  ghost predicate IsRun(run: seq<State>, steps: seq<Step>) {
    && |run| == |steps| + 1
    && run[0] == INITIAL
    && forall i :: 0 <= i < |steps| ==> Follows(run[i], steps[i], run[i + 1])
  }

  ghost predicate Follows(s: State, step: Step, t: State) {
    Enabled(s, step) && t == Next(s, step)
  }

  lemma {:induction false} InvHolds(run: seq<State>, steps: seq<Step>, i: nat)
    requires IsRun(run, steps) && i < |run|
    ensures ControlInv(run[i]) && AnswersInv(run[i])
  {
    if i > 0 {
      InvHolds(run, steps, i - 1);
      assert Follows(run[i - 1], steps[i - 1], run[i]);
      ControlPreserved(run[i - 1], steps[i - 1]);
      AnswersPreserved(run[i - 1], steps[i - 1]);
    }
  }

  /** In every interleaving no request is ever answered twice, and none before its call returns. */
  lemma {:induction false} AnsweredAtMostOnce(run: seq<State>, steps: seq<Step>, i: nat, r: nat)
    requires IsRun(run, steps) && i < |run|
    ensures Count(run[i].log, r) <= 1
    ensures Count(run[i].log, r) == 1 ==> r in run[i].calls && run[i].calls[r].Returned()
  {
    InvHolds(run, steps, i);
    assert Count(run[i].log, r) == Due(run[i], r);
  }

  /** Once the I/O thread has returned, the requests whose submission has returned are exactly the
      answered ones, each answered once; a submission made later is answered before it returns. */
  lemma {:induction false} AnsweredExactlyOnceWhenFinished(run: seq<State>, steps: seq<Step>, i: nat, r: nat)
    requires IsRun(run, steps) && i < |run| && run[i].pc == Finished
    ensures Count(run[i].log, r) == if r in run[i].calls && run[i].calls[r].Returned() then 1 else 0
  {
    InvHolds(run, steps, i);
    assert Count(run[i].log, r) == Due(run[i], r);
  }

  lemma {:induction false} ControlHolds(run: seq<State>, steps: seq<Step>, i: nat)
    requires IsRun(run, steps) && i < |run|
    ensures ControlInv(run[i])
  {
    InvHolds(run, steps, i);
  }

  /** The final drain holds the mutex or is over, and only streams among `ids` are left. */
  ghost predicate DrainingOnly(s: State, ids: set<int>) {
    && s.pc.Closing()
    && (s.pc == Finished ==> s.streams == map[])
    && forall id :: id in s.streams ==> id in ids
  }

  lemma DrainStep(s: State, step: Step, t: State, ids: set<int>)
    requires ControlInv(s) && Follows(s, step, t) && DrainingOnly(s, ids)
    ensures DrainingOnly(t, ids)
  {
    ClosingPreserved(s, step);
  }

  lemma DrainStart(s: State)
    requires ControlInv(s) && s.pc.Closing()
    ensures DrainingOnly(s, s.streams.Keys)
  {
  }

  lemma DrainContinues(run: seq<State>, steps: seq<Step>, j: nat, ids: set<int>)
    requires IsRun(run, steps) && 0 < j < |run| && DrainingOnly(run[j - 1], ids)
    ensures DrainingOnly(run[j], ids)
  {
    var s, step, t := run[j - 1], steps[j - 1], run[j];
    ControlHolds(run, steps, j - 1);
    DrainStep(s, step, t, ids);
  }

  /** From the moment the final drain holds the mutex no stream is registered any more, and once the
      I/O thread has returned the table stays empty. */
  lemma {:induction false} NothingRegisteredAfterDrain(run: seq<State>, steps: seq<Step>, i: nat, j: nat)
    requires IsRun(run, steps) && i <= j < |run| && run[i].pc.Closing()
    ensures DrainingOnly(run[j], run[i].streams.Keys)
    decreases j
  {
    if i == j {
      ControlHolds(run, steps, i);
      DrainStart(run[i]);
    } else {
      NothingRegisteredAfterDrain(run, steps, i, j - 1);
      DrainContinues(run, steps, j, run[i].streams.Keys);
    }
  }

  lemma ReturnedStep(s: State, step: Step, t: State, r: nat)
    requires Follows(s, step, t) && r in s.calls && s.calls[r].Returned()
    ensures r in t.calls && t.calls[r].Returned()
  {
  }

  lemma {:induction false} ReturnedStays(run: seq<State>, steps: seq<Step>, i: nat, j: nat, r: nat)
    requires IsRun(run, steps) && i <= j < |run|
    requires r in run[i].calls && run[i].calls[r].Returned()
    ensures r in run[j].calls && run[j].calls[r].Returned()
    decreases j
  {
    if i < j {
      ReturnedStays(run, steps, i, j - 1, r);
      ReturnedStep(run[j - 1], steps[j - 1], run[j], r);
    }
  }

  /** A request that got a stream at any time has its one answer when the I/O thread has returned,
      however many steps of other threads lie between. */
  lemma {:induction false} RegisteredIsAnswered(run: seq<State>, steps: seq<Step>, i: nat, j: nat, id: int)
    requires IsRun(run, steps) && i <= j < |run|
    requires id in run[i].streams && run[j].pc == Finished
    ensures Count(run[j].log, run[i].streams[id]) == 1
  {
    InvHolds(run, steps, i);
    ReturnedStays(run, steps, i, j, run[i].streams[id]);
    AnsweredExactlyOnceWhenFinished(run, steps, j, run[i].streams[id]);
  }

  // ----- What a request is answered with

  /** The step is the reason for this answer: a frame closed the stream of the request with this code, the
      request came to a dead connection or was left to the drain, or the session refused it. */
  predicate Causes(s: State, step: Step, c: Completion) {
    match c.outcome
    case StreamEnded(code) =>
      step.CloseStream? && step.code == code && step.id in s.streams && s.streams[step.id] == c.request
    case ConnectionClosed =>
      || (step == TestAlive(c.request) && !s.alive)
      || (step.DrainOne? && step.id in s.streams && s.streams[step.id] == c.request)
    case SubmitFailed => step == OpenStream(c.request, false)
  }

  /** The log grows behind its end, by the answer the step is the reason for, if there is one. */
  ghost predicate Logs(s: State, step: Step, t: State) {
    && s.log <= t.log && |t.log| <= |s.log| + 1
    && forall c :: Causes(s, step, c) <==> |t.log| > |s.log| && t.log[|s.log|] == c
  }

  lemma StepLogs(s: State, step: Step, t: State)
    requires Follows(s, step, t)
    ensures Logs(s, step, t)
  {
  }

  ghost predicate LogsAlways(run: seq<State>, steps: seq<Step>) {
    |run| == |steps| + 1 && run[0].log == [] && forall i :: 0 <= i < |steps| ==> Logs(run[i], steps[i], run[i + 1])
  }

  lemma RunLogs(run: seq<State>, steps: seq<Step>)
    requires IsRun(run, steps)
    ensures LogsAlways(run, steps)
  {
    forall i | 0 <= i < |steps| ensures Logs(run[i], steps[i], run[i + 1]) {
      StepLogs(run[i], steps[i], run[i + 1]);
    }
  }

  lemma {:induction false} LogGrows(run: seq<State>, steps: seq<Step>, i: nat, n: nat)
    requires LogsAlways(run, steps) && i <= n < |run|
    ensures run[i].log <= run[n].log
  {
    if i < n {
      LogGrows(run, steps, i, n - 1);
      assert Logs(run[n - 1], steps[n - 1], run[n]);
    }
  }

  /** Every entry was put where it stands by a step that is the reason for it. */
  lemma {:induction false} EntryHasCause(run: seq<State>, steps: seq<Step>, n: nat, k: nat) returns (i: nat)
    requires LogsAlways(run, steps) && n < |run| && k < |run[n].log|
    ensures i < n && |run[i].log| == k && Causes(run[i], steps[i], run[n].log[k])
  {
    assert Logs(run[n - 1], steps[n - 1], run[n]);
    if k < |run[n - 1].log| {
      i := EntryHasCause(run, steps, n - 1, k);
    } else {
      i := n - 1;
    }
  }

  /** In every run the answers are, in order and each with its outcome, those that some step gave a
      reason for. */
  lemma OutcomeIff(run: seq<State>, steps: seq<Step>, n: nat, k: nat, c: Completion)
    requires IsRun(run, steps) && n < |run|
    ensures (k < |run[n].log| && run[n].log[k] == c)
       <==> exists i :: 0 <= i < n && |run[i].log| == k && Causes(run[i], steps[i], c)
  {
    RunLogs(run, steps);
    if k < |run[n].log| && run[n].log[k] == c {
      var i := EntryHasCause(run, steps, n, k);
    }
    if i :| 0 <= i < n && |run[i].log| == k && Causes(run[i], steps[i], c) {
      assert Logs(run[i], steps[i], run[i + 1]);
      LogGrows(run, steps, i + 1, n);
    }
  }

  lemma {:induction false} CountFinds(log: seq<Completion>, r: nat, k: nat)
    requires k < |log| && log[k].request == r
    ensures Count(log, r) > 0 && Count(log[..k], r) < Count(log, r)
  {
    var front := log[..|log| - 1];
    if k < |front| {
      CountFinds(front, r, k);
      assert front[..k] == log[..k];
    }
  }

  /** The first reason for an answer to a request settles it: whatever happens before or after, the log
      holds that answer to the request and no other. */
  lemma AnswerIsFinal(run: seq<State>, steps: seq<Step>, i: nat, n: nat, c: Completion)
    requires IsRun(run, steps) && i < n < |run| && Causes(run[i], steps[i], c)
    ensures c in run[n].log && forall d :: d in run[n].log && d.request == c.request ==> d == c
  {
    OutcomeIff(run, steps, n, |run[i].log|, c);
    var k, log := |run[i].log|, run[n].log;
    forall j | 0 <= j < |log| && log[j].request == c.request ensures j == k {
      if j != k {
        var first, second := if j < k then j else k, if j < k then k else j;
        CountFinds(log, c.request, second);
        CountFinds(log[..second], c.request, first);
        AnsweredAtMostOnce(run, steps, n, c.request);
      }
    }
  }

  // ----- A dead connection

  /** Shutdown, a GOAWAY frame, a failed or ended pump and the end of the loop. */
  predicate Kills(step: Step) {
    step == ShutdownAlive || step == LoseAlive || step == PumpError || step == PumpEnds || step == ClearAlive
  }

  /** A step that kills leaves the flag false, and no other step touches it. */
  ghost predicate Flags(s: State, step: Step, t: State) { t.alive <==> s.alive && !Kills(step) }

  lemma StepFlags(s: State, step: Step, t: State)
    requires Follows(s, step, t)
    ensures Flags(s, step, t)
  {
  }

  ghost predicate FlagsAlways(run: seq<State>, steps: seq<Step>) {
    |run| == |steps| + 1 && run[0].alive && forall i :: 0 <= i < |steps| ==> Flags(run[i], steps[i], run[i + 1])
  }

  lemma {:induction false} AliveIff(run: seq<State>, steps: seq<Step>, n: nat)
    requires FlagsAlways(run, steps) && n < |run|
    ensures run[n].alive <==> forall i :: 0 <= i < n ==> !Kills(steps[i])
  {
    if n > 0 {
      AliveIff(run, steps, n - 1);
      assert Flags(run[n - 1], steps[n - 1], run[n]);
    }
  }

  /** A submission is turned away as closed exactly when something has killed the connection before it
      tested the flag, and admitted otherwise. */
  lemma AdmittedIffNotKilled(run: seq<State>, steps: seq<Step>, i: nat, r: nat)
    requires IsRun(run, steps) && i < |steps| && steps[i] == TestAlive(r)
    ensures
      var killed := exists k :: 0 <= k < i && Kills(steps[k]);
      && (killed <==> run[i + 1].log == run[i].log + [Completion(r, ConnectionClosed)])
      && (!killed <==> run[i + 1].calls[r] == Admitted)
  {
    forall k | 0 <= k < |steps| ensures Flags(run[k], steps[k], run[k + 1]) {
      StepFlags(run[k], steps[k], run[k + 1]);
    }
    AliveIff(run, steps, i);
    assert Follows(run[i], steps[i], run[i + 1]);
  }

  // ----- The object itself

  method AnyOf<T>(ids: set<T>) returns (id: T)
    requires ids != {}
    ensures id in ids
  {
    id :| id in ids;
  }

  /** The connection with the fields its threads share.  Each method is the code of one critical
      section; the mutex, the control points and the log of answers are ghost. */
  class Connection {
    var alive: bool
    var running: bool
    var streams: map<int, nat>
    var nextId: int
    ghost var lock: Holder
    ghost var calls: map<nat, CallPhase>
    ghost var pc: IoPc
    ghost var drained: set<int>
    ghost var log: seq<Completion>

    ghost function View(): State
      reads this
    {
      State(alive, running, streams, nextId, lock, calls, pc, drained, log)
    }

    constructor ()
      ensures View() == INITIAL
    {
      alive, running, streams, nextId := true, true, map[], 1;
      lock, calls, pc, drained, log := Free, map[], Pumping, {}, [];
    }

    /** The start of submit_*: the mutex is held, and the flag decides. */
    method AdmitSubmit(r: nat) returns (admitted: bool)
      requires Enabled(View(), TestAlive(r))
      modifies this
      ensures View() == Next(old(View()), TestAlive(r))
      ensures admitted == old(alive)
      ensures log == old(log) + if admitted then [] else [Completion(r, ConnectionClosed)]
    {
      if !alive {
        log := log + [Completion(r, ConnectionClosed)];
        calls, lock := calls[r := Turned], Free;
        return false;
      }
      calls := calls[r := Admitted];
      assert log + [] == log;
      return true;
    }

    /** The rest of submit_*: the session took the request or refused it. */
    method FinishSubmit(r: nat, accepted: bool)
      requires Enabled(View(), OpenStream(r, accepted))
      modifies this
      ensures View() == Next(old(View()), OpenStream(r, accepted))
      ensures log == old(log) + if accepted then [] else [Completion(r, SubmitFailed)]
      ensures streams == if accepted then old(streams)[old(nextId) := r] else old(streams)
    {
      if !accepted {
        log := log + [Completion(r, SubmitFailed)];
        calls, lock := calls[r := Turned], Free;
        return;
      }
      calls, lock := calls[r := Registered(nextId)], Free;
      streams, nextId := streams[nextId := r], nextId + 2;
      assert log + [] == log;
    }

    /** The stream-close callback, run by the session inside the locked receive. */
    method OnStreamClose(id: int, code: nat)
      requires Enabled(View(), CloseStream(id, code))
      modifies this
      ensures View() == Next(old(View()), CloseStream(id, code))
      ensures log == old(log) + if id in old(streams) then [Completion(old(streams)[id], StreamEnded(code))] else []
      ensures streams == old(streams) - {id}
    {
      if id in streams {
        log := log + [Completion(streams[id], StreamEnded(code))];
        streams := streams - {id};
      } else {
        assert streams - {id} == streams && log + [] == log;
      }
    }

    /** The end of io_loop when nothing else runs: clear the flag, take the mutex, answer every stream,
        clear the table.  Whatever was outstanding is answered exactly once, with a closed connection. */
    method FinishLoop() returns (ghost answered: seq<Completion>)
      requires ControlInv(View()) && pc == Leaving && lock == Free
      modifies this
      ensures View() == old(View()).(alive := false, streams := map[], pc := Finished, log := old(log) + answered)
      ensures forall r :: Count(answered, r) == if Outstanding(old(View()), r) then 1 else 0
      ensures forall c :: c in answered ==> c.outcome == ConnectionClosed
    {
      ghost var s0 := View();
      alive := false;
      lock, pc := IoThread, Draining;
      answered := [];
      var rest := streams.Keys;
      while rest != {}
        invariant rest <= s0.streams.Keys
        invariant !alive && lock == IoThread && pc == Draining && running == s0.running
        invariant streams == s0.streams && nextId == s0.nextId && calls == s0.calls
        invariant drained == s0.streams.Keys - rest && log == s0.log + answered
        invariant forall c :: c in answered ==> c.outcome == ConnectionClosed
        invariant forall r :: Count(answered, r) == if Drained(s0, rest, r) then 1 else 0
        decreases rest
      {
        var id := AnyOf(rest);
        var reply := Completion(streams[id], ConnectionClosed);
        OneMoreAnswered(s0, answered, rest, id);
        assert s0.log + answered + [reply] == s0.log + (answered + [reply]);
        log := log + [reply];
        answered := answered + [reply];
        drained := drained + {id};
        rest := rest - {id};
        assert s0.streams.Keys - rest == drained;
      }
      streams, drained := map[], {};
      lock, pc := Free, Finished;
    }
  }

  /** Request `r` waited when the drain began, on a stream the loop has visited. */
  ghost predicate Drained(s: State, rest: set<int>, r: nat) {
    Outstanding(s, r) && s.calls[r].id !in rest
  }

  lemma OneMoreAnswered(s: State, answered: seq<Completion>, rest: set<int>, id: int)
    requires TableInv(s) && CallsInv(s) && s.drained == {} && id in rest && rest <= s.streams.Keys
    requires forall r :: Count(answered, r) == if Drained(s, rest, r) then 1 else 0
    ensures forall r :: Count(answered + [Completion(s.streams[id], ConnectionClosed)], r)
                     == if Drained(s, rest - {id}, r) then 1 else 0
  {
    forall r ensures Count(answered + [Completion(s.streams[id], ConnectionClosed)], r)
                     == if Drained(s, rest - {id}, r) then 1 else 0 {
      CountConcat(answered, [Completion(s.streams[id], ConnectionClosed)], r);
      assert Count(answered, r) == if Drained(s, rest, r) then 1 else 0;
    }
  }
}
