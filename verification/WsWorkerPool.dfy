/** The websocket worker pool (apps/kagami/WsWorkerPool.cpp): one poll thread hashes incoming frames to
    slots, each slot has one worker. */
module WsWorkerPool {
  // The two rate limiters are oracles: whether a frame passes is a parameter of the step.

  import opened Common

  /** A frame and its place in the order of arrival. */
  datatype Frame = Frame(id: nat, client: nat, data: string)

  /** What a worker holds between taking an item and finishing with it. */
  datatype Hand = Idle | Taken(frame: Frame) | Allowed(frame: Frame)

  datatype State = State(
    limiter: bool,          // whether a rate limiter is configured
    slots: seq<seq<Frame>>, // the queue of each slot
    hands: seq<Hand>,       // what each slot's worker holds
    batch: seq<Frame>,      // frames the poll thread has not put in a slot yet
    arrived: seq<Frame>,    // every frame received, in order
    limited: set<nat>,      // the places of the frames the limiter refused
    dispatched: seq<Frame>) // the frames handed to the game, in order

  datatype Step =
    | Poll(frames: seq<(nat, string)>)             // the poll thread receives a batch
    | Admit(frameAllowed: bool, bytesAllowed: bool) // the poll thread deals with one frame of it
    | Take(slot: nat)                              // a worker takes the front of its queue
    | Check(slot: nat, allowed: bool)              // and asks the limiter for its message type
    | Dispatch(slot: nat)                          // and hands it to the game under the router's lock

  predicate Shaped(s: State) {
    |s.slots| == |s.hands| > 0
  }

  predicate Enabled(s: State, step: Step)
    requires Shaped(s)
  {
    match step
    case Poll(_) => s.batch == []
    case Admit(_, _) => s.batch != []
    case Take(i) => i < |s.slots| && s.hands[i] == Idle && s.slots[i] != []
    case Check(i, _) => i < |s.slots| && s.hands[i].Taken?
    case Dispatch(i) => i < |s.slots| && s.hands[i].Allowed?
  }

  function Numbered(frames: seq<(nat, string)>, first: nat): (r: seq<Frame>)
    ensures |r| == |frames|
    ensures forall k :: 0 <= k < |r| ==> r[k] == Frame(first + k, frames[k].0, frames[k].1)
  {
    if frames == [] then [] else [Frame(first, frames[0].0, frames[0].1)] + Numbered(frames[1..], first + 1)
  }

  function SlotOf(s: State, client: nat): (i: nat)
    requires Shaped(s)
    ensures i < |s.slots|
  {
    client % |s.slots|
  }

  /** The message-type limiter is asked only about frames that have a header. */
  predicate Passes(s: State, f: Frame, allowed: bool) {
    !s.limiter || '#' !in f.data || allowed
  }

  function Next(s: State, step: Step): (t: State)
    requires Shaped(s) && Enabled(s, step)
    ensures Shaped(t) && |t.slots| == |s.slots|
  {
    match step
    case Poll(frames) =>
      var fs := Numbered(frames, |s.arrived|);
      s.(batch := fs, arrived := s.arrived + fs)
    case Admit(frameAllowed, bytesAllowed) =>
      var f, i := s.batch[0], SlotOf(s, s.batch[0].client);
      if s.limiter && (!frameAllowed || !bytesAllowed) then
        s.(batch := s.batch[1..], limited := s.limited + {f.id})
      else
        s.(batch := s.batch[1..], slots := s.slots[i := s.slots[i] + [f]])
    case Take(i) =>
      s.(hands := s.hands[i := Taken(s.slots[i][0])], slots := s.slots[i := s.slots[i][1..]])
    case Check(i, allowed) =>
      var f := s.hands[i].frame;
      if Passes(s, f, allowed) then s.(hands := s.hands[i := Allowed(f)])
      else s.(hands := s.hands[i := Idle], limited := s.limited + {f.id})
    case Dispatch(i) =>
      s.(hands := s.hands[i := Idle], dispatched := s.dispatched + [s.hands[i].frame])
  }

  // ----- one client's frames

  function Of(client: nat, fs: seq<Frame>): seq<Frame> {
    if fs == [] then []
    else (if fs[0].client == client then [fs[0]] else []) + Of(client, fs[1..])
  }

  function Without(fs: seq<Frame>, ids: set<nat>): seq<Frame> {
    if fs == [] then []
    else (if fs[0].id !in ids then [fs[0]] else []) + Without(fs[1..], ids)
  }

  function Held(h: Hand): seq<Frame> {
    if h == Idle then [] else [h.frame]
  }

  /** A client's frames on their way through, oldest first: handed over, held, queued, not yet queued. */
  function Line(s: State, client: nat): seq<Frame>
    requires Shaped(s)
  {
    var i := SlotOf(s, client);
    Joined(Of(client, s.dispatched), Of(client, Held(s.hands[i])), Of(client, s.slots[i]), Of(client, s.batch))
  }

  function Joined(d: seq<Frame>, h: seq<Frame>, q: seq<Frame>, b: seq<Frame>): seq<Frame> {
    d + (h + (q + b))
  }

  lemma JoinedMoves(d: seq<Frame>, h: seq<Frame>, p: seq<Frame>, q: seq<Frame>, b: seq<Frame>)
    ensures Joined(d, h, q, p + b) == Joined(d, h, q + p, b)
    ensures Joined(d, [], p + q, b) == Joined(d, p, q, b)
    ensures Joined(d, p, q, b) == Joined(d + p, [], q, b)
    ensures Joined(d, h, q, []) + b == Joined(d, h, q, b)
  {
    Regroup(q, p, b);
    Regroup(p, q, b);
    Regroup(d, p, q + b);
    Regroup(h, q, b);
    Regroup(d, h + q, b);
    assert [] + (p + q + b) == p + q + b;
    assert [] + (q + b) == q + b;
    assert q + [] == q;
  }

  /** The same with one frame singled out: in the batch, or in a worker's hand. */
  lemma JoinedSplits(d: seq<Frame>, h: seq<Frame>, q: seq<Frame>, p: seq<Frame>, b: seq<Frame>)
    ensures Joined(d, h, q, p + b) == (d + (h + q)) + (p + b)
    ensures Joined(d, h, q, b) == (d + (h + q)) + b
    ensures Joined(d, p, q, b) == d + (p + (q + b))
    ensures Joined(d, [], q, b) == d + (q + b)
  {
    Regroup(h, q, p + b);
    Regroup(d, h + q, p + b);
    Regroup(h, q, b);
    Regroup(d, h + q, b);
    assert [] + (q + b) == q + b;
  }

  lemma {:induction false} OfJoin(client: nat, a: seq<Frame>, b: seq<Frame>)
    ensures Of(client, a + b) == Of(client, a) + Of(client, b)
  {
    if a == [] {
      assert a + b == b;
    } else {
      assert (a + b)[1..] == a[1..] + b;
      OfJoin(client, a[1..], b);
      Regroup(if a[0].client == client then [a[0]] else [], Of(client, a[1..]), Of(client, b));
    }
  }

  lemma {:induction false} WithoutJoin(a: seq<Frame>, b: seq<Frame>, ids: set<nat>)
    ensures Without(a + b, ids) == Without(a, ids) + Without(b, ids)
  {
    if a == [] {
      assert a + b == b;
    } else {
      assert (a + b)[1..] == a[1..] + b;
      WithoutJoin(a[1..], b, ids);
      Regroup(if a[0].id !in ids then [a[0]] else [], Without(a[1..], ids), Without(b, ids));
    }
  }

  /** Filters keep exactly the frames they name. */
  lemma {:induction false} OfMembers(client: nat, fs: seq<Frame>, f: Frame)
    ensures f in Of(client, fs) <==> f in fs && f.client == client
  {
    if fs != [] {
      OfMembers(client, fs[1..], f);
    }
  }

  lemma {:induction false} WithoutMembers(fs: seq<Frame>, ids: set<nat>, f: Frame)
    ensures f in Without(fs, ids) <==> f in fs && f.id !in ids
  {
    if fs != [] {
      WithoutMembers(fs[1..], ids, f);
    }
  }

  lemma {:induction false} WithoutAbsent(fs: seq<Frame>, ids: set<nat>, id: nat)
    requires forall k :: 0 <= k < |fs| ==> fs[k].id != id
    ensures Without(fs, ids + {id}) == Without(fs, ids)
  {
    if fs != [] {
      WithoutAbsent(fs[1..], ids, id);
    }
  }

  lemma {:induction false} WithoutNone(fs: seq<Frame>, ids: set<nat>)
    requires forall k :: 0 <= k < |fs| ==> fs[k].id !in ids
    ensures Without(fs, ids) == fs
  {
    if fs != [] {
      WithoutNone(fs[1..], ids);
    }
  }

  lemma {:induction false} WithoutMore(fs: seq<Frame>, ids: set<nat>, id: nat)
    ensures Without(fs, ids + {id}) == Without(Without(fs, ids), {id})
  {
    if fs != [] {
      WithoutMore(fs[1..], ids, id);
      WithoutJoin(if fs[0].id !in ids then [fs[0]] else [], Without(fs[1..], ids), {id});
    }
  }

  // ----- order of arrival

  ghost predicate Increasing(fs: seq<Frame>) {
    forall i, j :: 0 <= i < j < |fs| ==> fs[i].id < fs[j].id
  }

  lemma {:induction false} OfIncreasing(client: nat, fs: seq<Frame>)
    requires Increasing(fs)
    ensures Increasing(Of(client, fs))
  {
    if fs != [] {
      OfIncreasing(client, fs[1..]);
      var rest := Of(client, fs[1..]);
      forall j | 0 <= j < |rest| ensures fs[0].id < rest[j].id {
        OfMembers(client, fs[1..], rest[j]);
        var k :| 0 <= k < |fs[1..]| && fs[1..][k] == rest[j];
        assert fs[k + 1] == rest[j];
      }
    }
  }

  lemma {:induction false} WithoutIncreasing(fs: seq<Frame>, ids: set<nat>)
    requires Increasing(fs)
    ensures Increasing(Without(fs, ids))
  {
    if fs != [] {
      WithoutIncreasing(fs[1..], ids);
      var rest := Without(fs[1..], ids);
      forall j | 0 <= j < |rest| ensures fs[0].id < rest[j].id {
        WithoutMembers(fs[1..], ids, rest[j]);
        var k :| 0 <= k < |fs[1..]| && fs[1..][k] == rest[j];
        assert fs[k + 1] == rest[j];
      }
    }
  }

  // ----- the invariant

  ghost predicate InOrder(s: State, client: nat)
    requires Shaped(s)
  {
    Line(s, client) == Without(Of(client, s.arrived), s.limited)
  }

  ghost predicate Homed(s: State)
    requires Shaped(s)
  {
    && (forall i, f :: 0 <= i < |s.slots| && f in s.slots[i] ==> SlotOf(s, f.client) == i)
    && (forall i, f :: 0 <= i < |s.slots| && f in Held(s.hands[i]) ==> SlotOf(s, f.client) == i)
  }

  ghost predicate Arrivals(s: State) {
    && (forall k :: 0 <= k < |s.arrived| ==> s.arrived[k].id == k)
    && (forall id :: id in s.limited ==> id < |s.arrived|)
  }

  ghost predicate Inv(s: State) {
    && Shaped(s) && Homed(s) && Arrivals(s)
    && forall client :: InOrder(s, client)
  }

  lemma ArrivedPlace(s: State, f: Frame)
    requires Arrivals(s) && f in s.arrived
    ensures f.id < |s.arrived| && s.arrived[f.id] == f
  {
  }

  /** Whatever is on its way is one of the client's arrivals that was not refused. */
  lemma LineArrived(s: State, client: nat, f: Frame)
    requires Inv(s) && f in Line(s, client)
    ensures f in s.arrived && f.client == client && f.id !in s.limited
  {
    assert InOrder(s, client);
    WithoutMembers(Of(client, s.arrived), s.limited, f);
    OfMembers(client, s.arrived, f);
  }

  lemma LineIncreasing(s: State, client: nat)
    requires Inv(s)
    ensures Increasing(Line(s, client))
  {
    assert InOrder(s, client);
    OfIncreasing(client, s.arrived);
    WithoutIncreasing(Of(client, s.arrived), s.limited);
  }

  // Refusing one frame

  lemma DropMiddle(before: seq<Frame>, f: Frame, after: seq<Frame>)
    requires Increasing(before + ([f] + after))
    ensures Without(before + ([f] + after), {f.id}) == before + after
  {
    MiddleDiffers(before, f, after);
    DropOne(before, f, after);
  }

  lemma DropOne(before: seq<Frame>, f: Frame, after: seq<Frame>)
    requires forall k :: 0 <= k < |before| ==> before[k].id != f.id
    requires forall k :: 0 <= k < |after| ==> after[k].id != f.id
    ensures Without(before + ([f] + after), {f.id}) == before + after
  {
    WithoutNone(before, {f.id});
    WithoutNone(after, {f.id});
    WithoutFirst(f, after);
    WithoutJoin(before, [f] + after, {f.id});
  }

  lemma WithoutFirst(f: Frame, after: seq<Frame>)
    ensures Without([f] + after, {f.id}) == Without(after, {f.id})
  {
    assert ([f] + after)[1..] == after;
  }

  lemma MiddleDiffers(before: seq<Frame>, f: Frame, after: seq<Frame>)
    requires Increasing(before + ([f] + after))
    ensures forall k :: 0 <= k < |before| ==> before[k].id != f.id
    ensures forall k :: 0 <= k < |after| ==> after[k].id != f.id
  {
    var all := before + ([f] + after);
    assert all[|before|] == f;
    forall k | 0 <= k < |before| ensures before[k].id != f.id {
      assert all[k] == before[k];
    }
    forall k | 0 <= k < |after| ensures after[k].id != f.id {
      assert all[|before| + 1 + k] == after[k];
    }
  }

  /** The refused frame leaves its own client's line, the rest of which stays as it is. */
  lemma RefuseOwn(s: State, f: Frame, before: seq<Frame>, after: seq<Frame>)
    requires Inv(s) && Line(s, f.client) == before + ([f] + after)
    ensures before + after == Without(Of(f.client, s.arrived), s.limited + {f.id})
  {
    LineIncreasing(s, f.client);
    assert InOrder(s, f.client);
    DropMiddle(before, f, after);
    WithoutMore(Of(f.client, s.arrived), s.limited, f.id);
  }

  lemma RefuseOther(s: State, f: Frame, client: nat)
    requires Inv(s) && f in Line(s, f.client) && client != f.client
    ensures Without(Of(client, s.arrived), s.limited + {f.id}) == Without(Of(client, s.arrived), s.limited)
  {
    LineArrived(s, f.client, f);
    ArrivedPlace(s, f);
    var mine := Of(client, s.arrived);
    forall k | 0 <= k < |mine| ensures mine[k].id != f.id {
      OfMembers(client, s.arrived, mine[k]);
      ArrivedPlace(s, mine[k]);
    }
    WithoutAbsent(Of(client, s.arrived), s.limited, f.id);
  }

  // ----- each step keeps every client's order

  lemma OfHead(client: nat, fs: seq<Frame>)
    requires fs != []
    ensures Of(client, fs) == Of(client, [fs[0]]) + Of(client, fs[1..])
  {
    OfOne(client, fs[0]);
  }

  lemma OfOne(client: nat, f: Frame)
    ensures Of(client, [f]) == if f.client == client then [f] else []
  {
  }

  lemma PollOrder(s: State, frames: seq<(nat, string)>, client: nat)
    requires Inv(s) && Enabled(s, Poll(frames))
    ensures InOrder(Next(s, Poll(frames)), client)
  {
    var fs, i := Numbered(frames, |s.arrived|), SlotOf(s, client);
    assert InOrder(s, client);
    NewArrivals(s, frames, client);
    JoinedMoves(Of(client, s.dispatched), Of(client, Held(s.hands[i])), [], Of(client, s.slots[i]), Of(client, fs));
  }

  lemma NewArrivals(s: State, frames: seq<(nat, string)>, client: nat)
    requires Arrivals(s)
    ensures var fs := Numbered(frames, |s.arrived|);
      Without(Of(client, s.arrived + fs), s.limited) == Without(Of(client, s.arrived), s.limited) + Of(client, fs)
  {
    var fs := Numbered(frames, |s.arrived|);
    var mine := Of(client, fs);
    OfJoin(client, s.arrived, fs);
    WithoutJoin(Of(client, s.arrived), mine, s.limited);
    forall k | 0 <= k < |mine| ensures mine[k].id !in s.limited {
      OfMembers(client, fs, mine[k]);
    }
    WithoutNone(mine, s.limited);
  }

  /** The client's slot gains the frame admitted, if that is its own. */
  lemma AdmitSlot(s: State, a: bool, b: bool, client: nat)
    requires Shaped(s) && Enabled(s, Admit(a, b)) && !(s.limiter && (!a || !b))
    ensures
      var t, i := Next(s, Admit(a, b)), SlotOf(s, client);
      && Of(client, t.slots[i]) == Of(client, s.slots[i]) + Of(client, [s.batch[0]])
      && t == s.(batch := s.batch[1..], slots := t.slots)
  {
    var f, i := s.batch[0], SlotOf(s, client);
    OfOne(client, f);
    OfJoin(client, s.slots[i], [f]);
    assert Of(client, s.slots[i]) + [] == Of(client, s.slots[i]);
  }

  lemma AdmitOrder(s: State, a: bool, b: bool, client: nat)
    requires Inv(s) && Enabled(s, Admit(a, b)) && !(s.limiter && (!a || !b))
    ensures InOrder(Next(s, Admit(a, b)), client)
  {
    var i := SlotOf(s, client);
    assert InOrder(s, client);
    AdmitSlot(s, a, b, client);
    OfHead(client, s.batch);
    JoinedMoves(Of(client, s.dispatched), Of(client, Held(s.hands[i])), Of(client, [s.batch[0]]), Of(client, s.slots[i]),
                Of(client, s.batch[1..]));
  }

  lemma AdmitDropOrder(s: State, a: bool, b: bool, client: nat)
    requires Inv(s) && Enabled(s, Admit(a, b)) && s.limiter && (!a || !b)
    ensures InOrder(Next(s, Admit(a, b)), client)
  {
    var f, i := s.batch[0], SlotOf(s, client);
    var d, h, q, rest := Of(client, s.dispatched), Of(client, Held(s.hands[i])), Of(client, s.slots[i]), Of(client, s.batch[1..]);
    OfHead(client, s.batch);
    OfOne(client, f);
    JoinedSplits(d, h, q, Of(client, [f]), rest);
    BatchDrop(s, client, d + (h + q), rest);
    assert Line(Next(s, Admit(a, b)), client) == Joined(d, h, q, rest);
  }

  lemma BatchDrop(s: State, client: nat, before: seq<Frame>, rest: seq<Frame>)
    requires Inv(s) && s.batch != [] && Line(s, client) == before + (Of(client, [s.batch[0]]) + rest)
    ensures before + rest == Without(Of(client, s.arrived), s.limited + {s.batch[0].id})
  {
    var f := s.batch[0];
    OfOne(client, f);
    if client == f.client {
      RefuseOwn(s, f, before, rest);
    } else {
      assert InOrder(s, client);
      BatchInLine(s, f);
      RefuseOther(s, f, client);
      assert [] + rest == rest;
    }
  }

  lemma BatchInLine(s: State, f: Frame)
    requires Shaped(s) && f in s.batch
    ensures f in Line(s, f.client)
  {
    OfMembers(f.client, s.batch, f);
  }

  lemma TakeOrder(s: State, i: nat, client: nat)
    requires Inv(s) && Enabled(s, Take(i))
    ensures InOrder(Next(s, Take(i)), client)
  {
    assert InOrder(s, client);
    if SlotOf(s, client) == i {
      var t, q := Next(s, Take(i)), s.slots[i];
      TakeLine(client, s.dispatched, q, s.batch);
      assert t.slots[i] == q[1..] && Held(t.hands[i]) == [q[0]];
      assert Line(t, client) == Line(s, client);
    }
  }

  lemma TakeLine(client: nat, d: seq<Frame>, q: seq<Frame>, b: seq<Frame>)
    requires q != []
    ensures Joined(Of(client, d), Of(client, []), Of(client, q), Of(client, b))
         == Joined(Of(client, d), Of(client, [q[0]]), Of(client, q[1..]), Of(client, b))
  {
    OfHead(client, q);
    JoinedMoves(Of(client, d), [], Of(client, [q[0]]), Of(client, q[1..]), Of(client, b));
  }

  lemma CheckOrder(s: State, i: nat, allowed: bool, client: nat)
    requires Inv(s) && Enabled(s, Check(i, allowed))
    ensures InOrder(Next(s, Check(i, allowed)), client)
  {
    assert InOrder(s, client);
    if !Passes(s, s.hands[i].frame, allowed) {
      CheckDropOrder(s, i, allowed, client);
    }
  }

  lemma CheckDropOrder(s: State, i: nat, allowed: bool, client: nat)
    requires Inv(s) && Enabled(s, Check(i, allowed)) && !Passes(s, s.hands[i].frame, allowed)
    ensures InOrder(Next(s, Check(i, allowed)), client)
  {
    var f := s.hands[i].frame;
    var d, q, b := Of(client, s.dispatched), Of(client, s.slots[SlotOf(s, client)]), Of(client, s.batch);
    assert InOrder(s, client);
    HeldInLine(s, i);
    OfOne(client, f);
    JoinedSplits(d, [], q, Of(client, [f]), b);
    if client == f.client {
      RefuseOwn(s, f, d, q + b);
    } else {
      RefuseOther(s, f, client);
    }
  }

  lemma HeldInLine(s: State, i: nat)
    requires Inv(s) && i < |s.slots| && s.hands[i] != Idle
    ensures SlotOf(s, s.hands[i].frame.client) == i && s.hands[i].frame in Line(s, s.hands[i].frame.client)
  {
    assert s.hands[i].frame in Held(s.hands[i]);
    OfOne(s.hands[i].frame.client, s.hands[i].frame);
  }

  lemma DispatchOrder(s: State, i: nat, client: nat)
    requires Inv(s) && Enabled(s, Dispatch(i))
    ensures InOrder(Next(s, Dispatch(i)), client)
  {
    var f, home := s.hands[i].frame, SlotOf(s, client);
    assert InOrder(s, client);
    HeldInLine(s, i);
    DispatchLine(client, s.dispatched, f, Of(client, s.slots[home]), Of(client, s.batch));
  }

  lemma DispatchLine(client: nat, d: seq<Frame>, f: Frame, q: seq<Frame>, b: seq<Frame>)
    ensures Joined(Of(client, d), Of(client, [f]), q, b) == Joined(Of(client, d + [f]), [], q, b)
    ensures f.client != client ==> Of(client, d + [f]) == Of(client, d)
  {
    OfJoin(client, d, [f]);
    OfOne(client, f);
    JoinedMoves(Of(client, d), [], Of(client, [f]), q, b);
  }

  lemma OrderKept(s: State, step: Step, client: nat)
    requires Inv(s) && Enabled(s, step)
    ensures InOrder(Next(s, step), client)
  {
    match step
    case Poll(frames) => PollOrder(s, frames, client);
    case Admit(a, b) =>
      if s.limiter && (!a || !b) { AdmitDropOrder(s, a, b, client); } else { AdmitOrder(s, a, b, client); }
    case Take(i) => TakeOrder(s, i, client);
    case Check(i, allowed) => CheckOrder(s, i, allowed, client);
    case Dispatch(i) => DispatchOrder(s, i, client);
  }

  lemma HomedKept(s: State, step: Step)
    requires Inv(s) && Enabled(s, step)
    ensures Homed(Next(s, step))
  {
  }

  lemma ArrivalsKept(s: State, step: Step)
    requires Inv(s) && Enabled(s, step)
    ensures Arrivals(Next(s, step))
  {
    if step.Admit? {
      var f := s.batch[0];
      BatchInLine(s, f);
      LineArrived(s, f.client, f);
    } else if step.Check? {
      HeldInLine(s, step.slot);
      LineArrived(s, s.hands[step.slot].frame.client, s.hands[step.slot].frame);
    }
  }

  lemma InvPreserved(s: State, step: Step)
    requires Inv(s) && Enabled(s, step)
    ensures Inv(Next(s, step))
  {
    HomedKept(s, step);
    ArrivalsKept(s, step);
    forall client ensures InOrder(Next(s, step), client) {
      OrderKept(s, step, client);
    }
  }

  // ----- runs

  predicate Initial(s: State) {
    && Shaped(s) && (forall i :: 0 <= i < |s.slots| ==> s.slots[i] == [] && s.hands[i] == Idle)
    && s.batch == [] && s.arrived == [] && s.limited == {} && s.dispatched == []
  }

  ghost predicate Follows(s: State, step: Step, t: State) {
    Shaped(s) && Enabled(s, step) && t == Next(s, step)
  }

  ghost predicate IsRun(run: seq<State>, steps: seq<Step>) {
    && |run| == |steps| + 1
    && Initial(run[0])
    && forall i :: 0 <= i < |steps| ==> Follows(run[i], steps[i], run[i + 1])
  }

  lemma {:induction false} InvHolds(run: seq<State>, steps: seq<Step>, i: nat)
    requires IsRun(run, steps) && i < |run|
    ensures Inv(run[i])
  {
    if i > 0 {
      InvHolds(run, steps, i - 1);
      assert Follows(run[i - 1], steps[i - 1], run[i]);
      InvPreserved(run[i - 1], steps[i - 1]);
    }
  }

  /** In every interleaving of the poll thread and the workers, what the game has been handed for a
      client is the beginning of what arrived from it without the refused frames, in order of arrival
      and with no duplicates. */
  lemma ClientOrder(run: seq<State>, steps: seq<Step>, i: nat, client: nat)
    requires IsRun(run, steps) && i < |run|
    ensures Of(client, run[i].dispatched) <= Without(Of(client, run[i].arrived), run[i].limited)
    ensures Increasing(Of(client, run[i].dispatched))
    ensures forall f :: f in Of(client, run[i].dispatched) ==> f in run[i].arrived && f.id !in run[i].limited
  {
    InvHolds(run, steps, i);
    var s := run[i];
    assert InOrder(s, client);
    LineIncreasing(s, client);
    var done := Of(client, s.dispatched);
    assert forall k :: 0 <= k < |done| ==> done[k] == Line(s, client)[k];
    forall f | f in done ensures f in s.arrived && f.id !in s.limited {
      LineArrived(s, client, f);
    }
  }

  /** A configured limiter is asked about the frame in this step and refuses it: the frame or byte limit
      when the poll thread deals with it, the limit of its message type when a worker has taken it and it
      has a header. */
  ghost predicate Refuses(s: State, step: Step, f: Frame) {
    && s.limiter
    && match step
       case Admit(frameAllowed, bytesAllowed) => s.batch != [] && s.batch[0] == f && !(frameAllowed && bytesAllowed)
       case Check(i, allowed) =>
         i < |s.hands| && s.hands[i] == Taken(f) && !allowed && exists k :: 0 <= k < |f.data| && f.data[k] == '#'
       case _ => false
  }

  ghost predicate RefusedAt(s: State, step: Step, id: nat) {
    exists f :: Refuses(s, step, f) && f.id == id
  }

  lemma StepRefuses(s: State, step: Step, t: State, id: nat)
    requires Follows(s, step, t)
    ensures id in t.limited <==> id in s.limited || RefusedAt(s, step, id)
  {
    match step
    case Admit(a, b) =>
      if s.limiter && !(a && b) {
        assert Refuses(s, step, s.batch[0]);
      }
    case Check(i, allowed) =>
      var f := s.hands[i].frame;
      if s.limiter && !allowed && '#' in f.data {
        assert Refuses(s, step, f);
      }
    case _ =>
  }

  /** In every run, the frames left out are exactly those a limiter was asked about and refused. */
  lemma {:induction false} LimitedIff(run: seq<State>, steps: seq<Step>, n: nat, id: nat)
    requires IsRun(run, steps) && n < |run|
    ensures id in run[n].limited <==> exists i :: 0 <= i < n && RefusedAt(run[i], steps[i], id)
  {
    if n > 0 {
      LimitedIff(run, steps, n - 1, id);
      assert Follows(run[n - 1], steps[n - 1], run[n]);
      StepRefuses(run[n - 1], steps[n - 1], run[n], id);
    }
  }

  predicate Drained(s: State) {
    s.batch == [] && (forall i :: 0 <= i < |s.slots| ==> s.slots[i] == []) && forall i :: 0 <= i < |s.hands| ==> s.hands[i] == Idle
  }

  /** When nothing is on its way, it is all of it. */
  lemma AllDelivered(run: seq<State>, steps: seq<Step>, i: nat, client: nat)
    requires IsRun(run, steps) && i < |run| && Drained(run[i])
    ensures Of(client, run[i].dispatched) == Without(Of(client, run[i].arrived), run[i].limited)
  {
    InvHolds(run, steps, i);
    assert InOrder(run[i], client);
  }

  /** Only the limiter refuses frames. */
  lemma {:induction false} NothingRefusedWithoutLimiter(run: seq<State>, steps: seq<Step>, i: nat)
    requires IsRun(run, steps) && i < |run| && !run[0].limiter
    ensures run[i].limited == {} && !run[i].limiter
  {
    if i > 0 {
      NothingRefusedWithoutLimiter(run, steps, i - 1);
      assert Follows(run[i - 1], steps[i - 1], run[i]);
    }
  }

  // ----- the object itself, one critical section at a time

  /** The poll thread's loop over a batch, with the limiter's answers. */
  function AdmitAll(s: State, verdicts: seq<(bool, bool)>): (t: State)
    requires Shaped(s) && |verdicts| == |s.batch|
    ensures Shaped(t) && t.batch == []
    decreases |verdicts|
  {
    if verdicts == [] then s else AdmitAll(Next(s, Admit(verdicts[0].0, verdicts[0].1)), verdicts[1..])
  }

  lemma {:induction false} AdmitAllInv(s: State, verdicts: seq<(bool, bool)>)
    requires Inv(s) && |verdicts| == |s.batch|
    ensures Inv(AdmitAll(s, verdicts))
    decreases |verdicts|
  {
    if verdicts != [] {
      var step := Admit(verdicts[0].0, verdicts[0].1);
      InvPreserved(s, step);
      AdmitAllInv(Next(s, step), verdicts[1..]);
    }
  }

  function Total(queues: seq<seq<Frame>>): nat {
    if queues == [] then 0 else Total(queues[..|queues| - 1]) + |queues[|queues| - 1]|
  }

  class Pool {
    const limiter: bool
    const slots: array<seq<Frame>>
    const hands: array<Hand>
    var batch: seq<Frame>
    var received: nat
    ghost var arrived: seq<Frame>
    ghost var limited: set<nat>
    ghost var dispatched: seq<Frame>

    ghost predicate Valid()
      reads this, slots, hands
    {
      slots.Length == hands.Length > 0 && received == |arrived|
    }

    ghost function Now(): (s: State)
      requires Valid()
      reads this, slots, hands
      ensures Shaped(s)
    {
      State(limiter, slots[..], hands[..], batch, arrived, limited, dispatched)
    }

    /** One slot for each hardware thread, and at least one. */
    constructor (threads: nat, limiter: bool)
      ensures Valid() && fresh(slots) && fresh(hands) && Initial(Now())
      ensures slots.Length == (if threads == 0 then 1 else threads) && this.limiter == limiter
    {
      var n := if threads == 0 then 1 else threads;
      this.limiter := limiter;
      slots := new seq<Frame>[n](i => []);
      hands := new Hand[n](i => Idle);
      batch, received, arrived, limited, dispatched := [], 0, [], {}, [];
    }

    method Receive(frames: seq<(nat, string)>)
      requires Valid() && batch == []
      modifies this
      ensures Valid() && Now() == Next(old(Now()), Poll(frames))
    {
      batch := Numbered(frames, received);
      received := received + |frames|;
      arrived := arrived + batch;
    }

    /** The poll thread's loop over the frames of a batch. */
    method EnqueueBatch(verdicts: seq<(bool, bool)>)
      requires Valid() && |verdicts| == |batch|
      modifies this, slots
      ensures Valid() && Now() == AdmitAll(old(Now()), verdicts)
    {
      var i := 0;
      while i < |verdicts|
        invariant i <= |verdicts| && |batch| == |verdicts| - i
        invariant Valid() && hands[..] == old(hands[..])
        invariant AdmitAll(Now(), verdicts[i..]) == AdmitAll(old(Now()), verdicts)
      {
        assert verdicts[i..][1..] == verdicts[i + 1..];
        EnqueueOne(verdicts[i].0, verdicts[i].1);
        i := i + 1;
      }
    }

    method EnqueueOne(frameAllowed: bool, bytesAllowed: bool)
      requires Valid() && batch != []
      modifies this, slots
      ensures Valid() && Now() == Next(old(Now()), Admit(frameAllowed, bytesAllowed))
    {
      var f := batch[0];
      batch := batch[1..];
      if limiter && (!frameAllowed || !bytesAllowed) {
        limited := limited + {f.id};
      } else {
        var i := f.client % slots.Length;
        slots[i] := slots[i] + [f];
      }
    }

    /** A worker takes the front of its slot's queue, under the slot's lock. */
    method TakeFront(i: nat)
      requires Valid() && i < slots.Length && hands[i] == Idle && slots[i] != []
      modifies slots, hands
      ensures Valid() && Now() == Next(old(Now()), Take(i))
    {
      hands[i] := Taken(slots[i][0]);
      slots[i] := slots[i][1..];
    }

    /** The worker drops an item whose message type is over its limit. */
    method CheckLimit(i: nat, allowed: bool) returns (dropped: bool)
      requires Valid() && i < slots.Length && hands[i].Taken?
      modifies this`limited, hands
      ensures Valid() && Now() == Next(old(Now()), Check(i, allowed))
      ensures dropped <==> hands[i] == Idle
    {
      var f := hands[i].frame;
      dropped := limiter && '#' in f.data && !allowed;
      if dropped {
        limited := limited + {f.id};
        hands[i] := Idle;
      } else {
        hands[i] := Allowed(f);
      }
    }

    method HandOver(i: nat) returns (f: Frame)
      requires Valid() && i < slots.Length && hands[i].Allowed?
      modifies this`dispatched, hands
      ensures Valid() && Now() == Next(old(Now()), Dispatch(i))
      ensures dispatched == old(dispatched) + [f]
    {
      f := hands[i].frame;
      dispatched := dispatched + [f];
      hands[i] := Idle;
    }

    method TotalQueued() returns (total: nat)
      requires Valid()
      ensures total == Total(slots[..])
    {
      total := 0;
      for i := 0 to slots.Length
        invariant total == Total(slots[..i])
      {
        assert slots[..i + 1][..i] == slots[..i];
        total := total + |slots[i]|;
      }
      assert slots[..slots.Length] == slots[..];
    }
  }
}
