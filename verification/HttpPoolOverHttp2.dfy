/** The HTTP worker pool together with its HTTP/2 connections (engine/net/HttpPool.cpp,
    engine/net/Http2Connection.cpp). */
module HttpPoolOverHttp2 {
  // A worker that submits a request starts a call on a connection, and an entry in the log of a connection
  // is a run of the callback it was given.  Nothing else joins the two: whether the pool still waits for
  // the request when that callback runs is proved, not assumed.

  import H = Http2Connection
  import P = HttpPool

  /** `requests[c][k]` is the request of the call number `k` on connection `c`. */
  datatype System = System(pool: P.State, conns: seq<H.State>, requests: seq<seq<P.Request>>)

  const INITIAL := System(P.INITIAL, [], [])

  datatype Step =
    | InPool(move: P.Step)
    | Connect
    | Submit(c: nat, r: P.Request)
    | OnConnection(c: nat, event: H.Step)

  predicate Enabled(s: System, step: Step) {
    !s.pool.terminated && |s.conns| == |s.requests| &&
    match step
    case InPool(p) => !p.SubmitH2? && !p.CompleteH2? && P.Enabled(s.pool, p)
    case Connect => true
    case Submit(c, r) =>
      c < |s.conns| && P.Enabled(s.pool, P.SubmitH2(r)) && H.Enabled(s.conns[c], H.Call(|s.requests[c]|))
    case OnConnection(c, h) => c < |s.conns| && !h.Call? && H.Enabled(s.conns[c], h)
  }

  /** The callbacks that a step of a connection runs. */
  function AnswerAll(pool: P.State, requests: seq<P.Request>, answers: seq<H.Completion>): P.State
    decreases |answers|
  {
    if answers == [] then pool
    else
      var k := answers[0].request;
      AnswerAll(if k < |requests| then P.Answered(pool, requests[k]) else pool, requests, answers[1..])
  }

  function Next(s: System, step: Step): System
    requires Enabled(s, step)
  {
    match step
    case InPool(p) => s.(pool := P.Next(s.pool, p))
    case Connect => s.(conns := s.conns + [H.INITIAL], requests := s.requests + [[]])
    case Submit(c, r) =>
      System(P.Next(s.pool, P.SubmitH2(r)),
             s.conns[c := H.Next(s.conns[c], H.Call(|s.requests[c]|))],
             s.requests[c := s.requests[c] + [r]])
    case OnConnection(c, h) =>
      s.(pool := AnswerAll(s.pool, s.requests[c], H.Answers(s.conns[c], h)),
         conns := s.conns[c := H.Next(s.conns[c], h)])
  }

  // ----- The invariant

  predicate At(requests: seq<seq<P.Request>>, c: int, k: int) {
    0 <= c < |requests| && 0 <= k < |requests[c]|
  }

  /** The pool waits for a request exactly as long as its connection has not answered it. */
  ghost predicate LinkAt(s: System, c: int, k: int)
    requires At(s.requests, c, k) && |s.conns| == |s.requests|
  {
    && P.Past(s.pool, s.requests[c][k])
    && s.pool.onH2[s.requests[c][k]] == if H.Count(s.conns[c].log, k) == 0 then 1 else 0
  }

  ghost predicate Links(s: System)
    requires |s.conns| == |s.requests|
  {
    forall c, k :: At(s.requests, c, k) ==> LinkAt(s, c, k)
  }

  /** No request is submitted twice. */
  ghost predicate Apart(requests: seq<seq<P.Request>>) {
    forall c, k, d, j ::
      At(requests, c, k) && At(requests, d, j) && requests[c][k] == requests[d][j] ==> c == d && k == j
  }

  ghost predicate Placed(s: System, r: P.Request) {
    exists c, k :: At(s.requests, c, k) && s.requests[c][k] == r
  }

  ghost predicate AllPlaced(s: System) {
    forall r :: r in s.pool.onH2 ==> Placed(s, r)
  }

  ghost predicate ConnInv(conn: H.State, calls: nat) {
    H.ControlInv(conn) && H.AnswersInv(conn) && forall k :: k in conn.calls <==> 0 <= k < calls
  }

  ghost predicate ConnsInv(s: System)
    requires |s.conns| == |s.requests|
  {
    forall c :: 0 <= c < |s.conns| ==> ConnInv(s.conns[c], |s.requests[c]|)
  }

  ghost predicate Inv(s: System) {
    |s.conns| == |s.requests| && P.Inv(s.pool) && ConnsInv(s) && Links(s) && Apart(s.requests) && AllPlaced(s)
  }

  // ----- A connection only answers what the pool waits for

  /** A step of a connection answers nothing, or one call that was not answered before. */
  lemma AnswersOne(conn: H.State, step: H.Step, calls: nat)
    requires ConnInv(conn, calls) && H.Enabled(conn, step) && !step.Call?
    ensures
      var answers := H.Answers(conn, step);
      answers == [] || (|answers| == 1 && answers[0].request < calls && H.Count(conn.log, answers[0].request) == 0)
  {
    var answers := H.Answers(conn, step);
    if answers != [] {
      var k := answers[0].request;
      H.StepAnswersWhatFallsDue(conn, step, k);
      assert answers[..0] == [];
      assert H.Count(answers, k) == 1;
      assert H.Count(conn.log, k) == H.Due(conn, k);
    }
  }

  lemma AnswerFirst(pool: P.State, requests: seq<P.Request>, answers: seq<H.Completion>)
    requires |answers| == 1 && answers[0].request < |requests|
    ensures AnswerAll(pool, requests, answers) == P.Answered(pool, requests[answers[0].request])
  {
    var next := P.Answered(pool, requests[answers[0].request]);
    assert AnswerAll(next, requests, answers[1..]) == next;
  }

  /** The pool step that a joint step performs: none when nothing in the pool changes. */
  function PoolStep(s: System, step: Step): seq<P.Step>
    requires Enabled(s, step)
  {
    match step
    case InPool(p) => [p]
    case Connect => []
    case Submit(_, r) => [P.SubmitH2(r)]
    case OnConnection(c, h) =>
      var answers := H.Answers(s.conns[c], h);
      if answers == [] || answers[0].request >= |s.requests[c]| then []
      else [P.CompleteH2(s.requests[c][answers[0].request])]
  }

  /** Every joint step is a step of the pool or leaves the pool alone.  In particular the callback given to
      a connection only ever runs while the pool waits for its request. */
  lemma PoolFollows(s: System, step: Step)
    requires Inv(s) && Enabled(s, step)
    ensures |PoolStep(s, step)| <= 1
    ensures PoolStep(s, step) == [] ==> Next(s, step).pool == s.pool
    ensures PoolStep(s, step) != [] ==> P.Follows(s.pool, PoolStep(s, step)[0], Next(s, step).pool)
  {
    if step.OnConnection? {
      AnswersOne(s.conns[step.c], step.event, |s.requests[step.c]|);
      var answers := H.Answers(s.conns[step.c], step.event);
      if answers != [] {
        var k := answers[0].request;
        assert At(s.requests, step.c, k) && LinkAt(s, step.c, k);
        AnswerFirst(s.pool, s.requests[step.c], answers);
      }
    }
  }

  lemma PoolPreserved(s: System, step: Step)
    requires Inv(s) && Enabled(s, step)
    ensures P.Inv(Next(s, step).pool)
  {
    PoolFollows(s, step);
    if PoolStep(s, step) != [] {
      P.InvPreserved(s.pool, PoolStep(s, step)[0]);
    }
  }

  lemma ConnPreserved(conn: H.State, step: H.Step, calls: nat)
    requires ConnInv(conn, calls) && H.Enabled(conn, step) && (step.Call? ==> step.request == calls)
    ensures ConnInv(H.Next(conn, step), if step.Call? then calls + 1 else calls)
  {
    H.ControlPreserved(conn, step);
    H.AnswersPreserved(conn, step);
  }

  lemma ConnFresh()
    ensures ConnInv(H.INITIAL, 0)
  {
  }

  lemma ConnsPreserved(s: System, step: Step)
    requires Inv(s) && Enabled(s, step)
    ensures |Next(s, step).conns| == |Next(s, step).requests| && ConnsInv(Next(s, step))
  {
    ConnFresh();
    match step {
      case Submit(c, r) => ConnPreserved(s.conns[c], H.Call(|s.requests[c]|), |s.requests[c]|);
      case OnConnection(c, h) => ConnPreserved(s.conns[c], h, |s.requests[c]|);
      case _ =>
    }
  }

  /** A new state of the pool and of one connection that leaves the link of one call intact. */
  lemma LinkKept(s: System, t: System, d: int, j: int)
    requires |s.conns| == |s.requests| && |t.conns| == |t.requests|
    requires At(s.requests, d, j) && LinkAt(s, d, j)
    requires At(t.requests, d, j) && t.requests[d][j] == s.requests[d][j]
    requires P.Past(t.pool, s.requests[d][j])
    requires t.pool.onH2[s.requests[d][j]] == s.pool.onH2[s.requests[d][j]]
    requires H.Count(t.conns[d].log, j) == H.Count(s.conns[d].log, j)
    ensures LinkAt(t, d, j)
  {
  }

  lemma OthersWait(pool: P.State, p: P.Step)
    requires P.Enabled(pool, p) && !p.SubmitH2? && !p.CompleteH2?
    ensures P.Next(pool, p).onH2 == pool.onH2
  {
  }

  lemma InPoolLinks(s: System, p: P.Step)
    requires Inv(s) && Enabled(s, InPool(p))
    ensures Links(Next(s, InPool(p))) && Apart(Next(s, InPool(p)).requests)
  {
    var t := s.(pool := P.Next(s.pool, p));
    OthersWait(s.pool, p);
    forall c, k | At(t.requests, c, k) ensures LinkAt(t, c, k) {
      assert LinkAt(s, c, k);
      P.PastStays(s.pool, p, s.requests[c][k]);
      LinkKept(s, t, c, k);
    }
  }

  lemma ConnectLinks(s: System)
    requires Inv(s) && Enabled(s, Connect)
    ensures Links(Next(s, Connect)) && Apart(Next(s, Connect).requests)
  {
    var t := Next(s, Connect);
    forall c, k | At(t.requests, c, k) ensures At(s.requests, c, k) && LinkAt(t, c, k) {
      assert At(s.requests, c, k) && LinkAt(s, c, k);
    }
  }

  /** A request a worker holds was never submitted before. */
  lemma SubmitsNew(s: System, c: nat, r: P.Request)
    requires Inv(s) && Enabled(s, Submit(c, r))
    ensures s.pool.onH2[r] == 0 && P.Past(Next(s, Submit(c, r)).pool, r)
    ensures forall d, j :: At(s.requests, d, j) ==> s.requests[d][j] != r
    ensures H.Count(s.conns[c].log, |s.requests[c]|) == 0
  {
    assert P.Held(s.pool, r) == if r in s.pool.accepted then 1 else 0;
    forall d, j | At(s.requests, d, j) ensures s.requests[d][j] != r {
      assert LinkAt(s, d, j);
    }
    assert ConnInv(s.conns[c], |s.requests[c]|);
    assert H.Count(s.conns[c].log, |s.requests[c]|) == H.Due(s.conns[c], |s.requests[c]|);
  }

  lemma SubmitLinkOld(s: System, c: nat, r: P.Request, d: int, j: int)
    requires Inv(s) && Enabled(s, Submit(c, r)) && At(s.requests, d, j)
    ensures LinkAt(Next(s, Submit(c, r)), d, j)
  {
    var t := Next(s, Submit(c, r));
    SubmitsNew(s, c, r);
    assert t.conns[d].log == s.conns[d].log;
    assert LinkAt(s, d, j);
    P.PastStays(s.pool, P.SubmitH2(r), s.requests[d][j]);
    LinkKept(s, t, d, j);
  }

  lemma SubmitLinkNew(s: System, c: nat, r: P.Request)
    requires Inv(s) && Enabled(s, Submit(c, r))
    ensures LinkAt(Next(s, Submit(c, r)), c, |s.requests[c]|)
  {
    SubmitsNew(s, c, r);
    assert Next(s, Submit(c, r)).conns[c].log == s.conns[c].log;
  }

  lemma AtWith(requests: seq<seq<P.Request>>, c: nat, r: P.Request, d: int, j: int)
    requires c < |requests| && At(requests[c := requests[c] + [r]], d, j)
    ensures if At(requests, d, j) then requests[c := requests[c] + [r]][d][j] == requests[d][j]
            else d == c && j == |requests[c]|
  {
  }

  lemma ApartWith(requests: seq<seq<P.Request>>, c: nat, r: P.Request)
    requires c < |requests| && Apart(requests)
    requires forall d, j :: At(requests, d, j) ==> requests[d][j] != r
    ensures Apart(requests[c := requests[c] + [r]])
  {
    var more := requests[c := requests[c] + [r]];
    forall d, j | At(more, d, j)
      ensures if At(requests, d, j) then more[d][j] == requests[d][j] else d == c && j == |requests[c]| {
      AtWith(requests, c, r, d, j);
    }
  }

  lemma SubmitApart(s: System, c: nat, r: P.Request)
    requires Inv(s) && Enabled(s, Submit(c, r))
    ensures Apart(Next(s, Submit(c, r)).requests)
  {
    SubmitsNew(s, c, r);
    ApartWith(s.requests, c, r);
  }

  lemma SubmitLinks(s: System, c: nat, r: P.Request)
    requires Inv(s) && Enabled(s, Submit(c, r))
    ensures Links(Next(s, Submit(c, r)))
  {
    var t := Next(s, Submit(c, r));
    forall d, j | At(t.requests, d, j) ensures LinkAt(t, d, j) {
      AtWith(s.requests, c, r, d, j);
      if At(s.requests, d, j) {
        SubmitLinkOld(s, c, r, d, j);
      } else {
        SubmitLinkNew(s, c, r);
      }
    }
  }

  /** The log of a connection after one step. */
  lemma LogGrows(conn: H.State, h: H.Step, calls: nat, j: nat)
    requires ConnInv(conn, calls) && H.Enabled(conn, h) && !h.Call?
    ensures
      var answers := H.Answers(conn, h);
      H.Count(H.Next(conn, h).log, j) == H.Count(conn.log, j)
        + if answers != [] && answers[0].request == j then 1 else 0
  {
    AnswersOne(conn, h, calls);
    var answers := H.Answers(conn, h);
    H.CountConcat(conn.log, answers, j);
    if answers != [] {
      assert answers[..0] == [];
    }
  }

  lemma AnsweredPool(pool: P.State, r: P.Request, q: P.Request)
    requires P.Enabled(pool, P.CompleteH2(r)) && P.Past(pool, q)
    ensures P.Past(P.Answered(pool, r), q)
    ensures P.Answered(pool, r).onH2[q] == pool.onH2[q] - if q == r then 1 else 0
  {
  }

  lemma SilentLink(s: System, c: nat, h: H.Step, d: int, j: int)
    requires Inv(s) && Enabled(s, OnConnection(c, h)) && At(s.requests, d, j)
    requires H.Answers(s.conns[c], h) == []
    ensures LinkAt(Next(s, OnConnection(c, h)), d, j)
  {
    assert LinkAt(s, d, j);
    LogGrows(s.conns[c], h, |s.requests[c]|, j);
    LinkKept(s, Next(s, OnConnection(c, h)), d, j);
  }

  /** The answer to one call ends the wait for its request, and for no other. */
  lemma AnsweredLinkAt(s: System, t: System, c: nat, k: nat, d: int, j: int)
    requires |s.conns| == |s.requests| == |t.conns| && t.requests == s.requests && Apart(s.requests)
    requires At(s.requests, c, k) && At(s.requests, d, j) && LinkAt(s, d, j)
    requires P.Enabled(s.pool, P.CompleteH2(s.requests[c][k])) && t.pool == P.Answered(s.pool, s.requests[c][k])
    requires H.Count(s.conns[c].log, k) == 0
    requires H.Count(t.conns[d].log, j) == H.Count(s.conns[d].log, j) + if c == d && k == j then 1 else 0
    ensures LinkAt(t, d, j)
  {
    AnsweredPool(s.pool, s.requests[c][k], s.requests[d][j]);
    assert s.requests[d][j] == s.requests[c][k] <==> c == d && k == j;
  }

  lemma AnsweredLink(s: System, c: nat, h: H.Step, d: int, j: int)
    requires Inv(s) && Enabled(s, OnConnection(c, h)) && At(s.requests, d, j)
    requires H.Answers(s.conns[c], h) != []
    ensures LinkAt(Next(s, OnConnection(c, h)), d, j)
  {
    var answers := H.Answers(s.conns[c], h);
    AnswersOne(s.conns[c], h, |s.requests[c]|);
    AnswerFirst(s.pool, s.requests[c], answers);
    LogGrows(s.conns[c], h, |s.requests[c]|, j);
    var k := answers[0].request;
    assert At(s.requests, c, k) && LinkAt(s, c, k) && LinkAt(s, d, j);
    AnsweredLinkAt(s, Next(s, OnConnection(c, h)), c, k, d, j);
  }

  lemma AnswerLinks(s: System, c: nat, h: H.Step)
    requires Inv(s) && Enabled(s, OnConnection(c, h))
    ensures Links(Next(s, OnConnection(c, h))) && Apart(Next(s, OnConnection(c, h)).requests)
  {
    var t := Next(s, OnConnection(c, h));
    forall d, j | At(t.requests, d, j) ensures At(s.requests, d, j) && LinkAt(t, d, j) {
      if H.Answers(s.conns[c], h) == [] {
        SilentLink(s, c, h, d, j);
      } else {
        AnsweredLink(s, c, h, d, j);
      }
    }
  }

  lemma LinksPreserved(s: System, step: Step)
    requires Inv(s) && Enabled(s, step)
    ensures |Next(s, step).conns| == |Next(s, step).requests| && Links(Next(s, step)) && Apart(Next(s, step).requests)
  {
    match step {
      case InPool(p) => InPoolLinks(s, p);
      case Connect => ConnectLinks(s);
      case Submit(c, r) =>
        SubmitLinks(s, c, r);
        SubmitApart(s, c, r);
      case OnConnection(c, h) => AnswerLinks(s, c, h);
    }
  }

  lemma OnlySubmitted(pool: P.State, p: P.Step, r: P.Request)
    requires P.Enabled(pool, p) && r in P.Next(pool, p).onH2
    ensures r in pool.onH2 || p == P.SubmitH2(r)
  {
  }

  lemma WhichSubmits(s: System, step: Step, r: P.Request)
    requires Enabled(s, step) && PoolStep(s, step) == [P.SubmitH2(r)]
    ensures step.Submit? && step.r == r
  {
  }

  /** Only a submission adds to the requests the pool waits for, and it places what it adds. */
  lemma NothingElseWaits(s: System, step: Step, r: P.Request)
    requires Inv(s) && Enabled(s, step) && r in Next(s, step).pool.onH2
    ensures r in s.pool.onH2 || (step.Submit? && step.r == r)
  {
    PoolFollows(s, step);
    var moves, pool := PoolStep(s, step), Next(s, step).pool;
    if moves != [] && r !in s.pool.onH2 {
      OnlySubmitted(s.pool, moves[0], r);
      assert moves == [P.SubmitH2(r)];
      WhichSubmits(s, step, r);
    }
  }

  lemma PlacedStays(s: System, step: Step, r: P.Request)
    requires Enabled(s, step) && Placed(s, r)
    ensures Placed(Next(s, step), r)
  {
    var c, k :| At(s.requests, c, k) && s.requests[c][k] == r;
    assert At(Next(s, step).requests, c, k) && Next(s, step).requests[c][k] == r;
  }

  lemma SubmittedPlaced(s: System, c: nat, r: P.Request)
    requires Enabled(s, Submit(c, r))
    ensures Placed(Next(s, Submit(c, r)), r)
  {
    assert At(Next(s, Submit(c, r)).requests, c, |s.requests[c]|);
  }

  lemma PlacedPreserved(s: System, step: Step)
    requires Inv(s) && Enabled(s, step)
    ensures AllPlaced(Next(s, step))
  {
    forall r | r in Next(s, step).pool.onH2 ensures Placed(Next(s, step), r) {
      NothingElseWaits(s, step, r);
      if r in s.pool.onH2 {
        assert Placed(s, r);
        PlacedStays(s, step, r);
      } else {
        SubmittedPlaced(s, step.c, r);
      }
    }
  }

  lemma InvPreserved(s: System, step: Step)
    requires Inv(s) && Enabled(s, step)
    ensures Inv(Next(s, step))
  {
    PoolPreserved(s, step);
    ConnsPreserved(s, step);
    LinksPreserved(s, step);
    PlacedPreserved(s, step);
  }

  // ----- Runs

  ghost predicate Follows(s: System, step: Step, t: System) {
    Enabled(s, step) && t == Next(s, step)
  }

  ghost predicate IsRun(run: seq<System>, steps: seq<Step>) {
    && |run| == |steps| + 1
    && run[0] == INITIAL
    && forall i :: 0 <= i < |steps| ==> Follows(run[i], steps[i], run[i + 1])
  }

  lemma InitialInv()
    ensures Inv(INITIAL)
  {
    P.InitialInv();
  }

  lemma InvFollows(s: System, step: Step, t: System)
    requires Inv(s) && Follows(s, step, t)
    ensures Inv(t)
  {
    InvPreserved(s, step);
  }

  /** The step keeps the invariant. */
  ghost predicate Keeps(s: System, t: System) { Inv(s) ==> Inv(t) }

  ghost predicate KeepsAlways(run: seq<System>) {
    forall k :: 0 <= k < |run| - 1 ==> Keeps(run[k], run[k + 1])
  }

  lemma RunKeeps(run: seq<System>, steps: seq<Step>)
    requires IsRun(run, steps)
    ensures KeepsAlways(run)
  {
    forall k | 0 <= k < |steps| ensures Keeps(run[k], run[k + 1]) {
      if Inv(run[k]) {
        InvFollows(run[k], steps[k], run[k + 1]);
      }
    }
  }

  lemma {:induction false} KeptTo(run: seq<System>, i: nat)
    requires i < |run| && KeepsAlways(run) && Inv(run[0])
    ensures Inv(run[i])
  {
    if i > 0 {
      KeptTo(run, i - 1);
      assert Keeps(run[i - 1], run[i]);
    }
  }

  lemma InvHolds(run: seq<System>, steps: seq<Step>, i: nat)
    requires IsRun(run, steps) && i < |run|
    ensures Inv(run[i])
  {
    InitialInv();
    RunKeeps(run, steps);
    KeptTo(run, i);
  }

  /** The pool makes one step or none. */
  ghost predicate Moves(pool: P.State, moves: seq<P.Step>, next: P.State) {
    if moves == [] then next == pool else P.Follows(pool, moves[0], next)
  }

  lemma JointMoves(run: seq<System>, steps: seq<Step>, i: nat) returns (moves: seq<P.Step>)
    requires IsRun(run, steps) && i < |steps|
    ensures Moves(run[i].pool, moves, run[i + 1].pool)
  {
    InvHolds(run, steps, i);
    assert Follows(run[i], steps[i], run[i + 1]);
    PoolFollows(run[i], steps[i]);
    moves := PoolStep(run[i], steps[i]);
  }

  /** A run of the pool goes on by at most one step. */
  lemma PoolGoesOn(poolRun: seq<P.State>, poolSteps: seq<P.Step>, moves: seq<P.Step>, pool: P.State)
    returns (poolRun': seq<P.State>, poolSteps': seq<P.Step>)
    requires P.IsRun(poolRun, poolSteps)
    requires Moves(poolRun[|poolRun| - 1], moves, pool)
    ensures P.IsRun(poolRun', poolSteps') && poolRun'[|poolRun'| - 1] == pool
  {
    poolRun', poolSteps' := poolRun, poolSteps;
    if moves != [] {
      poolRun', poolSteps' := P.Extend(poolRun, poolSteps, moves[0]);
    }
  }

  /** What the pool does above real connections is a run of the pool alone, in which completions come
      from nowhere: all that is proved of the pool holds here. */
  lemma {:induction false} RefinesPool(run: seq<System>, steps: seq<Step>, i: nat)
    returns (poolRun: seq<P.State>, poolSteps: seq<P.Step>)
    requires IsRun(run, steps) && i < |run|
    ensures P.IsRun(poolRun, poolSteps) && poolRun[|poolRun| - 1] == run[i].pool
  {
    if i == 0 {
      poolRun, poolSteps := [P.INITIAL], [];
    } else {
      poolRun, poolSteps := RefinesPool(run, steps, i - 1);
      var moves := JointMoves(run, steps, i - 1);
      poolRun, poolSteps := PoolGoesOn(poolRun, poolSteps, moves, run[i].pool);
    }
  }

  /** The connection is closed: its I/O thread has returned, and so have the calls on it. */
  ghost predicate Closed(conn: H.State) {
    conn.pc == H.Finished && forall k :: k in conn.calls ==> conn.calls[k].Returned()
  }

  /** The pool waits for no request whose connection is closed, whatever the peer did. */
  lemma NothingWaitsOnClosed(run: seq<System>, steps: seq<Step>, i: nat, c: nat, k: nat)
    requires IsRun(run, steps) && i < |run| && At(run[i].requests, c, k) && c < |run[i].conns| && Closed(run[i].conns[c])
    ensures run[i].requests[c][k] !in run[i].pool.onH2
  {
    InvHolds(run, steps, i);
    var conn := run[i].conns[c];
    assert ConnInv(conn, |run[i].requests[c]|) && LinkAt(run[i], c, k);
    assert conn.streams == map[];
    assert H.Count(conn.log, k) == H.Due(conn, k) == 1;
  }

  /** The pool has nothing in its own hands any more. */
  ghost predicate PoolIdle(pool: P.State) {
    && pool.submitting == pool.working == pool.onH1 == multiset{}
    && (forall i :: 0 <= i < P.LEVELS ==> pool.queues[i] == [])
    && (forall q :: q in pool.drops ==> q == [])
    && pool.results == pool.batch == []
  }

  /** When the pool has nothing in its own hands and every connection is closed, the callback of every
      request that no other takes has run exactly once. */
  lemma EveryCallbackRuns(run: seq<System>, steps: seq<Step>, i: nat, r: P.Request)
    requires IsRun(run, steps) && i < |run|
    requires PoolIdle(run[i].pool) && forall c :: 0 <= c < |run[i].conns| ==> Closed(run[i].conns[c])
    requires r in run[i].pool.accepted && !P.Takable(run[i].pool.accepted, r)
    ensures run[i].pool.ran[r] == if r.callback == P.Null then 0 else 1
  {
    InvHolds(run, steps, i);
    var pool := run[i].pool;
    if pool.onH2 != multiset{} {
      var q :| q in pool.onH2;
      assert Placed(run[i], q);
      var c, k :| At(run[i].requests, c, k) && run[i].requests[c][k] == q;
      NothingWaitsOnClosed(run, steps, i, c, k);
    }
    var poolRun, poolSteps := RefinesPool(run, steps, i);
    P.CallbackRunsExactlyOnce(poolRun, poolSteps, |poolRun| - 1, r);
  }
}
