/** The token-bucket rate limiter (engine/net/RateLimiter.cpp). */
module RateLimiter {
  // Tokens, costs and times are real numbers; a call's time is a parameter.

  datatype Rule = Rule(rate: real, burst: real) {
    predicate Valid() { rate >= 0.0 && burst >= 0.0 }
  }

  datatype Bucket = Bucket(tokens: real, maxTokens: real, rate: real, last: real)

  datatype Shard = Shard(rule: Rule, buckets: map<string, Bucket>)

  type Shards = map<string, Shard>

  function Min(a: real, b: real): real { if a < b then a else b }

  /** A new bucket starts full. */
  function Fresh(rule: Rule, now: real): Bucket {
    Bucket(rule.burst, rule.burst, rule.rate, now)
  }

  /** Tokens produced at `rate` over a stretch of time. */
  function Accrued(rate: real, from: real, to: real): real { (to - from) * rate }

  function Refill(b: Bucket, now: real): Bucket {
    b.(tokens := Min(b.maxTokens, b.tokens + Accrued(b.rate, b.last, now)), last := now)
  }

  /** The bucket a call finds: refilled, or fresh on first use. */
  function Found(s: Shard, key: string, now: real): Bucket {
    Refill(if key in s.buckets then s.buckets[key] else Fresh(s.rule, now), now)
  }

  /** Whether allow grants the call; an action without a rule is unlimited. */
  predicate Granted(shards: Shards, action: string, key: string, cost: real, now: real) {
    action in shards ==> Found(shards[action], key, now).tokens >= cost
  }

  function Allowed(shards: Shards, action: string, key: string, cost: real, now: real): Shards {
    if action !in shards then shards
    else
      var s, b := shards[action], Found(shards[action], key, now);
      var b' := if b.tokens >= cost then b.(tokens := b.tokens - cost) else b;
      shards[action := s.(buckets := s.buckets[key := b'])]
  }

  function Kept(buckets: map<string, Bucket>, maxIdle: real, now: real): map<string, Bucket> {
    map key | key in buckets && now - buckets[key].last <= maxIdle :: buckets[key]
  }

  function Swept(shards: Shards, maxIdle: real, now: real): Shards {
    map action | action in shards :: shards[action].(buckets := Kept(shards[action].buckets, maxIdle, now))
  }

  /** A sweep of one shard. */
  function SweptAt(shards: Shards, action: string, maxIdle: real, now: real): Shards {
    if action !in shards then shards
    else shards[action := shards[action].(buckets := Kept(shards[action].buckets, maxIdle, now))]
  }

  // ----- Histories under fixed rules

  /** A sweep reads the clock once, then takes the lock of one shard after the other: calls come between
      its shards, and it may act on an older time. */
  datatype Event =
    | Allow(at: real, action: string, key: string, cost: real)
    | Sweep(at: real, action: string, now: real, maxIdle: real)

  function Step(s: Shards, e: Event): Shards {
    match e
    case Allow(at, action, key, cost) => Allowed(s, action, key, cost, at)
    case Sweep(_, action, now, maxIdle) => SweptAt(s, action, maxIdle, now)
  }

  function Run(s: Shards, events: seq<Event>): Shards
    decreases |events|
  {
    if events == [] then s else Run(Step(s, events[0]), events[1..])
  }

  /** The answers of the calls to allow, in order. */
  function Answers(s: Shards, events: seq<Event>): seq<bool>
    decreases |events|
  {
    if events == [] then []
    else if events[0].Sweep? then Answers(Step(s, events[0]), events[1..])
    else
      [Granted(s, events[0].action, events[0].key, events[0].cost, events[0].at)]
      + Answers(Step(s, events[0]), events[1..])
  }

  /** The total cost admitted for one key of one action. */
  function Spent(s: Shards, events: seq<Event>, action: string, key: string): real
    decreases |events|
  {
    if events == [] then 0.0
    else
      var rest := Spent(Step(s, events[0]), events[1..], action, key);
      if events[0].Allow? && events[0].action == action && events[0].key == key
         && Granted(s, action, key, events[0].cost, events[0].at)
      then events[0].cost + rest else rest
  }

  function WithoutSweeps(events: seq<Event>): seq<Event> {
    if events == [] then []
    else if events[0].Sweep? then WithoutSweeps(events[1..])
    else [events[0]] + WithoutSweeps(events[1..])
  }

  /** The clock does not run backwards from `start` on, and no sweep uses a time in the future. */
  ghost predicate Timed(events: seq<Event>, start: real) {
    events != [] ==>
      && start <= events[0].at
      && (events[0].Sweep? ==> events[0].now <= events[0].at)
      && Timed(events[1..], events[0].at)
  }

  function End(events: seq<Event>, start: real): real {
    if events == [] then start else events[|events| - 1].at
  }

  /** A rule whose buckets refill completely within the idle time of every sweep. */
  predicate Covers(rule: Rule, maxIdle: real) {
    rule.burst <= rule.rate * maxIdle
  }

  ghost predicate PatientSweeps(shards: Shards, events: seq<Event>) {
    forall i :: 0 <= i < |events| && events[i].Sweep? && events[i].action in shards ==>
      Covers(shards[events[i].action].rule, events[i].maxIdle)
  }

  // ----- The state of a bucket over time

  ghost predicate BucketInv(rule: Rule, b: Bucket, now: real) {
    b.maxTokens == rule.burst && b.rate == rule.rate && b.tokens >= 0.0 && b.last <= now
  }

  ghost predicate Inv(s: Shards, now: real) {
    forall action :: action in s ==>
      s[action].rule.Valid() && forall key :: key in s[action].buckets ==> BucketInv(s[action].rule, s[action].buckets[key], now)
  }

  lemma Growth(rate: real, t: real, u: real)
    requires rate >= 0.0 && t <= u
    ensures (u - t) * rate >= 0.0
  {
  }

  lemma RefillInv(rule: Rule, b: Bucket, now: real, at: real)
    requires rule.Valid() && BucketInv(rule, b, now) && now <= at
    ensures BucketInv(rule, Refill(b, at), at)
  {
    Growth(b.rate, b.last, at);
    assert b.tokens + (at - b.last) * b.rate >= 0.0;
  }

  /** No time, no tokens. */
  lemma RefillNow(b: Bucket)
    ensures Refill(b, b.last).tokens == Min(b.maxTokens, b.tokens)
  {
    assert (b.last - b.last) * b.rate == 0.0;
  }

  lemma StepInv(s: Shards, e: Event, now: real)
    requires Inv(s, now) && now <= e.at
    ensures Inv(Step(s, e), e.at)
    ensures Step(s, e).Keys == s.Keys && forall a :: a in s ==> Step(s, e)[a].rule == s[a].rule
  {
    if e.Allow? && e.action in s {
      var shard := s[e.action];
      if e.key in shard.buckets {
        RefillInv(shard.rule, shard.buckets[e.key], now, e.at);
      } else {
        RefillNow(Fresh(shard.rule, e.at));
      }
    }
  }

  // ----- The bound over any window

  /** The tokens a call at time `at` would find. */
  function Available(s: Shards, action: string, key: string, at: real): real
    requires action in s
  {
    Found(s[action], key, at).tokens
  }

  lemma RefillGrows(b: Bucket, now: real, at: real)
    requires b.rate >= 0.0 && now <= at
    ensures Refill(b, now).tokens <= Refill(b, at).tokens <= Refill(b, now).tokens + (at - now) * b.rate
  {
    Growth(b.rate, now, at);
    assert (at - b.last) * b.rate == (now - b.last) * b.rate + (at - now) * b.rate;
  }

  lemma AvailableGrows(s: Shards, action: string, key: string, now: real, at: real)
    requires Inv(s, now) && action in s && now <= at
    ensures 0.0 <= Available(s, action, key, now) <= Available(s, action, key, at) <= s[action].rule.burst
    ensures Available(s, action, key, at) <= Available(s, action, key, now) + Accrued(s[action].rule.rate, now, at)
  {
    Growth(s[action].rule.rate, now, at);
    if key in s[action].buckets {
      var b := s[action].buckets[key];
      RefillInv(s[action].rule, b, now, now);
      RefillGrows(b, now, at);
    } else {
      RefillNow(Fresh(s[action].rule, now));
      RefillNow(Fresh(s[action].rule, at));
    }
  }

  /** A bucket a patient sweep removes has refilled completely. */
  lemma IdleIsFull(rule: Rule, b: Bucket, maxIdle: real, swept: real, at: real)
    requires rule.Valid() && BucketInv(rule, b, at) && Covers(rule, maxIdle)
    requires swept <= at && swept - b.last > maxIdle
    ensures Refill(b, at).tokens == rule.burst
  {
    var idle := at - b.last;
    LongerIsMore(rule.rate, maxIdle, idle);
    Commutes(rule.rate, idle);
    FullAgain(b, idle * b.rate);
  }

  lemma Commutes(a: real, b: real)
    ensures a * b == b * a
  {
  }

  lemma FullAgain(b: Bucket, gained: real)
    requires b.tokens >= 0.0 && gained >= b.maxTokens
    ensures Min(b.maxTokens, b.tokens + gained) == b.maxTokens
  {
  }

  /** What one event admits for the key. */
  function Cost(s: Shards, e: Event, action: string, key: string): real {
    if e.Allow? && e.action == action && e.key == key && Granted(s, action, key, e.cost, e.at) then e.cost else 0.0
  }

  /** An event cannot admit more than it takes from what is available, even when it is a sweep. */
  lemma StepSpends(s: Shards, e: Event, now: real, action: string, key: string)
    requires Inv(s, now) && now <= e.at && action in s
    requires e.Sweep? && e.action == action ==> e.now <= e.at && Covers(s[action].rule, e.maxIdle)
    ensures Cost(s, e, action, key) + Available(Step(s, e), action, key, e.at) <= Available(s, action, key, e.at)
  {
    RefillNow(Fresh(s[action].rule, e.at));
    if e.Sweep? && key in s[action].buckets && key !in Step(s, e)[action].buckets {
      IdleIsFull(s[action].rule, s[action].buckets[key], e.maxIdle, e.now, e.at);
    } else if e.Allow? && e.action == action && e.key == key {
      RefillNow(Step(s, e)[action].buckets[key]);
    }
  }

  lemma Telescope(rate: real, a: real, b: real, c: real)
    ensures Accrued(rate, a, b) + Accrued(rate, b, c) == Accrued(rate, a, c)
  {
  }

  lemma TailEvents(s: Shards, e: Event, t: Shards, events: seq<Event>)
    requires events != [] && PatientSweeps(s, events) && t.Keys == s.Keys && forall a :: a in s ==> t[a].rule == s[a].rule
    ensures PatientSweeps(t, events[1..])
  {
    assert forall i :: 0 <= i < |events| - 1 ==> events[1..][i] == events[i + 1];
  }

  lemma SpentUnfolds(s: Shards, events: seq<Event>, action: string, key: string)
    requires events != []
    ensures Spent(s, events, action, key)
         == Cost(s, events[0], action, key) + Spent(Step(s, events[0]), events[1..], action, key)
  {
  }

  lemma {:induction false} SpentIsBounded(s: Shards, events: seq<Event>, now: real, action: string, key: string)
    requires Inv(s, now) && Timed(events, now) && action in s && PatientSweeps(s, events)
    ensures Spent(s, events, action, key)
         <= Available(s, action, key, now) + Accrued(s[action].rule.rate, now, End(events, now))
    decreases |events|
  {
    AvailableGrows(s, action, key, now, now);
    if events != [] {
      var e, t, rate := events[0], Step(s, events[0]), s[action].rule.rate;
      StepInv(s, e, now);
      assert e.Sweep? && e.action == action ==> Covers(s[action].rule, e.maxIdle);
      StepSpends(s, e, now, action, key);
      AvailableGrows(s, action, key, now, e.at);
      TailEvents(s, e, t, events);
      SpentIsBounded(t, events[1..], e.at, action, key);
      SpentUnfolds(s, events, action, key);
      assert End(events[1..], e.at) == End(events, now);
      Telescope(rate, now, e.at, End(events, now));
      Combine(Cost(s, e, action, key), Spent(t, events[1..], action, key),
              Available(s, action, key, now), Available(s, action, key, e.at), Available(t, action, key, e.at),
              Accrued(rate, now, e.at), Accrued(rate, e.at, End(events, now)));
    }
  }

  lemma Combine(cost: real, rest: real, before: real, found: real, after: real, gained: real, toCome: real)
    requires rest <= after + toCome && cost + after <= found && found <= before + gained
    ensures cost + rest <= before + (gained + toCome)
  {
  }

  /** In any run and any window of it, across any number of patient sweeps, the cost admitted for one
      key is at most the burst plus the rate times the length of the window. */
  lemma WindowBound(s: Shards, before: seq<Event>, window: seq<Event>, start: real, action: string, key: string)
    requires Inv(s, start) && Timed(before, start) && window != [] && Timed(window, End(before, start))
    requires action in s && PatientSweeps(s, window)
    ensures Spent(Run(s, before), window, action, key)
         <= s[action].rule.burst + Accrued(s[action].rule.rate, window[0].at, End(window, start))
  {
    RunInv(s, before, start);
    var t, now := Run(s, before), window[0].at;
    InvLater(t, End(before, start), now);
    assert PatientSweeps(t, window);
    SpentIsBounded(t, window, now, action, key);
    AvailableGrows(t, action, key, now, now);
  }

  lemma InvLater(s: Shards, now: real, at: real)
    requires Inv(s, now) && now <= at
    ensures Inv(s, at)
  {
  }

  lemma {:induction false} RunInv(s: Shards, events: seq<Event>, now: real)
    requires Inv(s, now) && Timed(events, now)
    ensures Inv(Run(s, events), End(events, now))
    ensures Run(s, events).Keys == s.Keys && forall a :: a in s ==> Run(s, events)[a].rule == s[a].rule
    decreases |events|
  {
    if events != [] {
      StepInv(s, events[0], now);
      RunInv(Step(s, events[0]), events[1..], events[0].at);
    }
  }

  // ----- Nothing is refused that the bound allows

  /** What a call leaves in its bucket, seen from a later time. */
  lemma AllowLeaves(s: Shard, key: string, cost: real, at: real, b: Bucket, later: real)
    requires b == Found(s, key, at) && at <= later
    ensures
      var left := if b.tokens >= cost then b.(tokens := b.tokens - cost) else b;
      Refill(left, later).tokens
      == Min(b.maxTokens, b.tokens - (if b.tokens >= cost then cost else 0.0) + Accrued(b.rate, at, later))
  {
    var left := if b.tokens >= cost then b.(tokens := b.tokens - cost) else b;
    assert left.last == at && left.rate == b.rate && left.maxTokens == b.maxTokens;
  }

  /** What one event leaves for the key, seen from a later time. */
  lemma StepLeaves(s: Shards, e: Event, now: real, action: string, key: string, at: real)
    requires Inv(s, now) && now <= e.at <= at && action in s
    requires e.Sweep? && e.action == action ==> e.now <= e.at && Covers(s[action].rule, e.maxIdle)
    ensures action in Step(s, e)
    ensures Available(Step(s, e), action, key, at)
         == Min(s[action].rule.burst,
                Available(s, action, key, e.at) - Cost(s, e, action, key) + Accrued(s[action].rule.rate, e.at, at))
  {
    if e.Allow? && e.action == action && e.key == key {
      var b := Found(s[action], key, e.at);
      var left := if b.tokens >= e.cost then b.(tokens := b.tokens - e.cost) else b;
      assert b.maxTokens == s[action].rule.burst && b.rate == s[action].rule.rate;
      AllowLeaves(s[action], key, e.cost, e.at, b, at);
      assert Step(s, e)[action].buckets[key] == left;
      assert Available(Step(s, e), action, key, at) == Refill(left, at).tokens;
      assert Cost(s, e, action, key) == if b.tokens >= e.cost then e.cost else 0.0;
    } else {
      AvailableRefills(s, action, key, now, e.at, at);
      assert Cost(s, e, action, key) == 0.0;
      if e.Sweep? && key in s[action].buckets && key !in Step(s, e)[action].buckets {
        IdleIsFull(s[action].rule, s[action].buckets[key], e.maxIdle, e.now, e.at);
        FreshIsFull(s[action].rule, e.at, at);
      } else {
        assert Available(Step(s, e), action, key, at) == Available(s, action, key, at);
      }
    }
  }

  lemma FreshIsFull(rule: Rule, now: real, at: real)
    requires rule.Valid() && now <= at
    ensures Refill(Fresh(rule, at), at).tokens == rule.burst == Min(rule.burst, rule.burst + Accrued(rule.rate, now, at))
  {
    RefillNow(Fresh(rule, at));
    Growth(rule.rate, now, at);
  }

  /** Refilling twice is refilling once. */
  lemma AvailableRefills(s: Shards, action: string, key: string, now: real, mid: real, at: real)
    requires Inv(s, now) && now <= mid <= at && action in s
    ensures Available(s, action, key, at)
         == Min(s[action].rule.burst, Available(s, action, key, mid) + Accrued(s[action].rule.rate, mid, at))
  {
    var rule := s[action].rule;
    if key in s[action].buckets {
      var b := s[action].buckets[key];
      Telescope(b.rate, b.last, mid, at);
      Growth(b.rate, mid, at);
    } else {
      FreshIsFull(rule, mid, at);
      RefillNow(Fresh(rule, mid));
    }
  }

  lemma {:induction false} RunSplit(s: Shards, a: seq<Event>, b: seq<Event>)
    ensures Run(s, a + b) == Run(Run(s, a), b)
    decreases |a|
  {
    if a == [] {
      assert a + b == b;
    } else {
      assert (a + b)[1..] == a[1..] + b;
      RunSplit(Step(s, a[0]), a[1..], b);
    }
  }

  lemma {:induction false} SpentSplit(s: Shards, a: seq<Event>, b: seq<Event>, action: string, key: string)
    ensures Spent(s, a + b, action, key) == Spent(s, a, action, key) + Spent(Run(s, a), b, action, key)
    decreases |a|
  {
    if a == [] {
      assert a + b == b;
    } else {
      assert (a + b)[1..] == a[1..] + b;
      SpentUnfolds(s, a + b, action, key);
      SpentUnfolds(s, a, action, key);
      SpentSplit(Step(s, a[0]), a[1..], b, action, key);
    }
  }

  lemma {:induction false} TimedSplit(a: seq<Event>, b: seq<Event>, start: real)
    ensures Timed(a + b, start) <==> Timed(a, start) && Timed(b, End(a, start))
    ensures Timed(a, start) ==> start <= End(a, start)
    decreases |a|
  {
    if a == [] {
      assert a + b == b;
    } else {
      assert (a + b)[1..] == a[1..] + b;
      TimedSplit(a[1..], b, a[0].at);
      assert End(a, start) == End(a[1..], a[0].at);
    }
  }

  /** The time of an event, or of the end. */
  function TimeOf(events: seq<Event>, i: nat, at: real): real
    requires i <= |events|
  {
    if i == |events| then at else events[i].at
  }

  /** What the window from event `i` on leaves of its burst and of what it has accrued since. */
  function Room(s: Shards, events: seq<Event>, i: nat, action: string, key: string, at: real): real
    requires i <= |events| && action in s
  {
    s[action].rule.burst + Accrued(s[action].rule.rate, TimeOf(events, i, at), at)
    - Spent(Run(s, events[..i]), events[i..], action, key)
  }

  lemma EmptyWindow(s: Shards, events: seq<Event>, action: string, key: string, at: real)
    requires action in s
    ensures Room(s, events, |events|, action, key, at) == s[action].rule.burst
  {
    assert events[|events|..] == [];
    assert (at - at) * s[action].rule.rate == 0.0;
  }

  /** One more event, for the windows that are not empty. */
  lemma RoomMore(s: Shards, front: seq<Event>, e: Event, i: nat, action: string, key: string, at: real)
    requires i <= |front| && action in s
    ensures Room(s, front + [e], i, action, key, at)
         == Room(s, front, i, action, key, e.at) - Cost(Run(s, front), e, action, key) + Accrued(s[action].rule.rate, e.at, at)
  {
    var all := front + [e];
    assert all[..i] == front[..i] && all[i..] == front[i..] + [e] && front == front[..i] + front[i..];
    RunSplit(s, front[..i], front[i..]);
    SpentSplit(Run(s, front[..i]), front[i..], [e], action, key);
    SpentUnfolds(Run(s, front), [e], action, key);
    Telescope(s[action].rule.rate, TimeOf(front, i, e.at), e.at, at);
  }

  /** What is available to a key that began without a bucket is the room that some window leaves. */
  lemma {:induction false} TightWindow(s: Shards, events: seq<Event>, start: real, action: string, key: string, at: real)
    returns (i: nat)
    requires Inv(s, start) && Timed(events, start) && End(events, start) <= at && action in s && PatientSweeps(s, events)
    requires key !in s[action].buckets
    ensures i <= |events| && action in Run(s, events)
    ensures Available(Run(s, events), action, key, at) == Room(s, events, i, action, key, at)
    decreases |events|
  {
    var n := |events|;
    RunInv(s, events, start);
    if n == 0 {
      FreshIsFull(s[action].rule, at, at);
      EmptyWindow(s, events, action, key, at);
      return 0;
    }
    var front, e := events[..n - 1], events[n - 1];
    assert events == front + [e];
    TimedSplit(front, [e], start);
    var j := TightWindow(s, front, start, action, key, e.at);
    LastLeaves(s, front, e, start, action, key, at);
    RoomMore(s, front, e, j, action, key, at);
    EmptyWindow(s, events, action, key, at);
    i := if Available(Run(s, events), action, key, at) == s[action].rule.burst then n else j;
  }

  lemma LastLeaves(s: Shards, front: seq<Event>, e: Event, start: real, action: string, key: string, at: real)
    requires Inv(s, start) && Timed(front, start) && End(front, start) <= e.at <= at && action in s
    requires PatientSweeps(s, front + [e]) && (e.Sweep? ==> e.now <= e.at)
    ensures action in Run(s, front) && action in Run(s, front + [e])
    ensures Available(Run(s, front + [e]), action, key, at)
         == Min(s[action].rule.burst, Available(Run(s, front), action, key, e.at) - Cost(Run(s, front), e, action, key)
                                      + Accrued(s[action].rule.rate, e.at, at))
  {
    RunInv(s, front, start);
    RunSplit(s, front, [e]);
    var t := Run(s, front);
    assert Run(t, [e]) == Step(t, e);
    assert (front + [e])[|front|] == e;
    StepLeaves(t, e, End(front, start), action, key, at);
  }

  /** A call is granted exactly when every window that ends with it keeps the bound: what the windows
      admitted, with the cost of the call, is at most the burst plus the rate times their length. */
  lemma GrantIff(s: Shards, events: seq<Event>, start: real, action: string, key: string, cost: real, at: real)
    requires Inv(s, start) && Timed(events, start) && End(events, start) <= at && action in s && PatientSweeps(s, events)
    requires key !in s[action].buckets
    ensures Granted(Run(s, events), action, key, cost, at)
       <==> forall i: nat :: i <= |events| ==> cost <= Room(s, events, i, action, key, at)
  {
    RunInv(s, events, start);
    if Granted(Run(s, events), action, key, cost, at) {
      forall i: nat | i <= |events| ensures cost <= Room(s, events, i, action, key, at) {
        GrantKeepsWindow(s, events, start, action, key, cost, at, i);
      }
    }
    var i := TightWindow(s, events, start, action, key, at);
  }

  lemma GrantKeepsWindow(s: Shards, events: seq<Event>, start: real, action: string, key: string, cost: real, at: real, i: nat)
    requires Inv(s, start) && Timed(events, start) && End(events, start) <= at && action in s && PatientSweeps(s, events)
    requires Granted(Run(s, events), action, key, cost, at) && i <= |events|
    ensures cost <= Room(s, events, i, action, key, at)
  {
    var e, before, window := Allow(at, action, key, cost), events[..i], events[i..];
    assert events == before + window;
    SpentWith(s, before, window, e);
    WindowTimed(before, window, e, start);
    assert PatientSweeps(s, window + [e]);
    WindowBound(s, before, window + [e], start, action, key);
  }

  /** A call that is granted behind a window adds its cost to what the window admitted. */
  lemma SpentWith(s: Shards, before: seq<Event>, window: seq<Event>, e: Event)
    requires e.Allow? && Granted(Run(s, before + window), e.action, e.key, e.cost, e.at)
    ensures Spent(Run(s, before), window + [e], e.action, e.key) == Spent(Run(s, before), window, e.action, e.key) + e.cost
  {
    RunSplit(s, before, window);
    SpentSplit(Run(s, before), window, [e], e.action, e.key);
    SpentUnfolds(Run(s, before + window), [e], e.action, e.key);
  }

  lemma WindowTimed(before: seq<Event>, window: seq<Event>, e: Event, start: real)
    requires e.Allow? && Timed(before + window, start) && End(before + window, start) <= e.at
    ensures Timed(before, start) && Timed(window + [e], End(before, start))
  {
    TimedSplit(before, window, start);
    TimedSplit(window, [e], End(before, start));
    assert End(window, End(before, start)) == End(before + window, start);
  }

  /** No bucket holds more than the burst of its rule. */
  ghost predicate Capped(s: Shards) {
    forall action, key ::
      action in s && key in s[action].buckets ==> s[action].buckets[key].tokens <= s[action].rule.burst
  }

  /** Every call asks for at least `least`. */
  ghost predicate CostsFrom(events: seq<Event>, least: real) {
    forall i :: 0 <= i < |events| && events[i].Allow? ==> events[i].cost >= least
  }

  lemma StepCapped(s: Shards, e: Event, now: real)
    requires Inv(s, now) && Capped(s) && (e.Allow? ==> e.cost >= 0.0)
    ensures Capped(Step(s, e))
  {
    if e.Allow? && e.action in s {
      RefillNow(Fresh(s[e.action].rule, e.at));
    }
  }

  lemma {:induction false} RunCapped(s: Shards, events: seq<Event>, now: real)
    requires Inv(s, now) && Timed(events, now) && Capped(s) && CostsFrom(events, 0.0)
    ensures Capped(Run(s, events))
    decreases |events|
  {
    if events != [] {
      StepInv(s, events[0], now);
      StepCapped(s, events[0], now);
      assert forall i :: 0 <= i < |events[1..]| ==> events[1..][i] == events[i + 1];
      RunCapped(Step(s, events[0]), events[1..], events[0].at);
    }
  }

  /** The burst is a ceiling in every history exactly when no cost is negative: allow accepts a negative
      cost, which fills a bucket above it. */
  lemma CeilingIff(rule: Rule, least: real)
    requires rule.Valid()
    ensures
      (forall events :: Timed(events, 0.0) && CostsFrom(events, least) ==> Capped(Run(Single(rule), events)))
      <==> least >= 0.0
  {
    if least >= 0.0 {
      forall events | Timed(events, 0.0) && CostsFrom(events, least) ensures Capped(Run(Single(rule), events)) {
        RunCapped(Single(rule), events, 0.0);
      }
    } else {
      var e := Allow(0.0, "action", "key", least);
      var s := Single(rule);
      RefillNow(Fresh(rule, 0.0));
      assert Run(s, [e]) == Run(Step(s, e), [e][1..]) == Step(s, e);
      assert Step(s, e)["action"].buckets["key"].tokens == rule.burst - least;
      assert Timed([e], 0.0) && CostsFrom([e], least);
    }
  }

  // ----- Sweeping is unobservable

  /** The swept limiter `s` against the one that never sweeps, `t`: a bucket missing in `s` is full in
      `t` again, and all others are equal. */
  ghost predicate Simulates(s: Shards, t: Shards, now: real) {
    && s.Keys == t.Keys
    && forall action :: action in s ==> s[action].rule == t[action].rule && SameBuckets(s[action], t[action], now)
  }

  ghost predicate SameBuckets(s: Shard, t: Shard, now: real) {
    forall key ::
      if key in s.buckets then key in t.buckets && s.buckets[key] == t.buckets[key]
      else key in t.buckets ==> Refill(t.buckets[key], now).tokens == t.rule.burst
  }

  lemma FullStaysFull(rule: Rule, b: Bucket, now: real, at: real)
    requires rule.Valid() && BucketInv(rule, b, now) && now <= at && Refill(b, now).tokens == rule.burst
    ensures Refill(b, at) == Refill(Fresh(rule, at), at)
  {
    RefillGrows(b, now, at);
    RefillInv(rule, b, now, at);
    RefillNow(Fresh(rule, at));
  }

  lemma LaterSimulates(s: Shards, t: Shards, now: real, at: real)
    requires Inv(t, now) && Simulates(s, t, now) && now <= at
    ensures Simulates(s, t, at)
  {
    forall action, key | action in s && key !in s[action].buckets && key in t[action].buckets
      ensures Refill(t[action].buckets[key], at).tokens == t[action].rule.burst {
      FullStaysFull(t[action].rule, t[action].buckets[key], now, at);
    }
  }

  lemma FoundSame(s: Shards, t: Shards, action: string, key: string, at: real)
    requires Inv(t, at) && Simulates(s, t, at) && action in s
    ensures Found(s[action], key, at) == Found(t[action], key, at)
  {
    if key !in s[action].buckets && key in t[action].buckets {
      FullStaysFull(t[action].rule, t[action].buckets[key], at, at);
    }
  }

  lemma AllowSimulates(s: Shards, t: Shards, e: Event)
    requires e.Allow? && Inv(t, e.at) && Simulates(s, t, e.at)
    ensures Simulates(Step(s, e), Step(t, e), e.at)
    ensures Granted(s, e.action, e.key, e.cost, e.at) == Granted(t, e.action, e.key, e.cost, e.at)
  {
    if e.action in s {
      FoundSame(s, t, e.action, e.key, e.at);
    }
  }

  /** The shards of one sweep, one after the other. */
  function EachShard(actions: seq<string>, at: real, now: real, maxIdle: real): seq<Event> {
    if actions == [] then [] else [Sweep(at, actions[0], now, maxIdle)] + EachShard(actions[1..], at, now, maxIdle)
  }

  /** When nothing comes between, sweeping shard by shard, in any order, sweeps them all at once. */
  lemma {:induction false} SweepIsEachShard(s: Shards, actions: seq<string>, at: real, now: real, maxIdle: real)
    requires forall a :: a in s ==> a in actions || s[a].buckets == Kept(s[a].buckets, maxIdle, now)
    ensures Run(s, EachShard(actions, at, now, maxIdle)) == Swept(s, maxIdle, now)
  {
    if actions == [] {
      assert Swept(s, maxIdle, now) == s;
    } else {
      var t, events := SweptAt(s, actions[0], maxIdle, now), EachShard(actions, at, now, maxIdle);
      assert events[1..] == EachShard(actions[1..], at, now, maxIdle);
      assert forall a :: a in actions ==> a == actions[0] || a in actions[1..];
      KeptTwice(s, actions[0], maxIdle, now);
      SweepIsEachShard(t, actions[1..], at, now, maxIdle);
    }
  }

  lemma KeptTwice(s: Shards, action: string, maxIdle: real, now: real)
    ensures forall b: map<string, Bucket> :: Kept(Kept(b, maxIdle, now), maxIdle, now) == Kept(b, maxIdle, now)
    ensures Swept(SweptAt(s, action, maxIdle, now), maxIdle, now) == Swept(s, maxIdle, now)
  {
    forall b: map<string, Bucket> ensures Kept(Kept(b, maxIdle, now), maxIdle, now) == Kept(b, maxIdle, now) {}
  }

  lemma SweepSimulates(s: Shards, t: Shards, e: Event)
    requires e.Sweep? && e.now <= e.at && Inv(t, e.at) && Simulates(s, t, e.at)
    requires e.action in s ==> Covers(s[e.action].rule, e.maxIdle)
    ensures Simulates(Step(s, e), t, e.at)
  {
    forall action, key | action in s && key in s[action].buckets && key !in Step(s, e)[action].buckets
      ensures Refill(t[action].buckets[key], e.at).tokens == t[action].rule.burst {
      IdleIsFull(t[action].rule, t[action].buckets[key], e.maxIdle, e.now, e.at);
    }
  }

  lemma {:induction false} SweepsUnobservable(s: Shards, t: Shards, events: seq<Event>, now: real)
    requires Inv(t, now) && Simulates(s, t, now) && Timed(events, now) && PatientSweeps(s, events)
    ensures Answers(s, events) == Answers(t, WithoutSweeps(events))
    decreases |events|
  {
    if events != [] {
      var e := events[0];
      LaterSimulates(s, t, now, e.at);
      InvLater(t, now, e.at);
      assert forall i :: 0 <= i < |events| - 1 ==> events[1..][i] == events[i + 1];
      if e.Sweep? {
        SweepSimulates(s, t, e);
        SweepsUnobservable(Step(s, e), t, events[1..], e.at);
      } else {
        AllowSimulates(s, t, e);
        StepInv(t, e, e.at);
        SweepsUnobservable(Step(s, e), Step(t, e), events[1..], e.at);
        assert WithoutSweeps(events)[0] == e && WithoutSweeps(events)[1..] == WithoutSweeps(events[1..]);
      }
    }
  }

  // ----- How patient a sweep has to be

  /** A limiter with one rule and no buckets. */
  function Single(rule: Rule): Shards { map["action" := Shard(rule, map[])] }

  ghost predicate SweepsAt(events: seq<Event>, maxIdle: real) {
    Timed(events, 0.0) && forall i :: 0 <= i < |events| && events[i].Sweep? ==> events[i].maxIdle == maxIdle
  }

  lemma LongerIsMore(rate: real, a: real, b: real)
    requires rate >= 0.0 && a <= b
    ensures rate * a <= rate * b
  {
    Growth(rate, a, b);
    assert (b - a) * rate == rate * b - rate * a;
  }

  /** A time after which an idle bucket is swept although it has not refilled. */
  lemma TooEarly(rule: Rule, maxIdle: real) returns (t: real)
    requires rule.Valid() && maxIdle >= 0.0 && !Covers(rule, maxIdle)
    ensures t > maxIdle && rule.rate * t < rule.burst
  {
    if rule.rate == 0.0 {
      t := maxIdle + 1.0;
    } else {
      var full := rule.burst / rule.rate;
      assert rule.rate * full == rule.burst;
      if full <= maxIdle {
        LongerIsMore(rule.rate, full, maxIdle);
      }
      t := (maxIdle + full) / 2.0;
      assert rule.rate * t == (rule.rate * maxIdle + rule.burst) / 2.0;
    }
  }

  /** Draining a bucket, sweeping too early and draining it again is granted, breaks the bound, and
      would have been refused without the sweep. */
  lemma EarlySweepShows(rule: Rule, maxIdle: real) returns (events: seq<Event>)
    requires rule.Valid() && maxIdle >= 0.0 && !Covers(rule, maxIdle)
    ensures SweepsAt(events, maxIdle)
    ensures Answers(Single(rule), events) != Answers(Single(rule), WithoutSweeps(events))
    ensures events != [] && Spent(Single(rule), events, "action", "key")
         > rule.burst + Accrued(rule.rate, events[0].at, End(events, 0.0))
  {
    var t := TooEarly(rule, maxIdle);
    var a, b, c := Allow(0.0, "action", "key", rule.burst), Sweep(t, "action", t, maxIdle), Allow(t, "action", "key", rule.burst);
    events := [a] + ([b] + ([c] + []));
    assert Timed([c], t) && Timed([b] + ([c] + []), 0.0);
    assert WithoutSweeps([b] + ([c] + [])) == WithoutSweeps([c] + []) == [c] + WithoutSweeps([]);
    assert WithoutSweeps(events) == [a] + ([c] + []);
    var s := Single(rule);
    var s1 := Drained(rule, a);
    var s2 := Step(s1, b);
    Unfold(s, a, [b] + ([c] + []));
    Unfold(s, a, [c] + []);
    Unfold(s1, b, [c] + []);
    Unfold(s1, c, []);
    Unfold(s2, c, []);
    RefillNow(Fresh(rule, t));
    assert s2["action"].buckets == map[];
    assert Granted(s2, "action", "key", rule.burst, t);
    assert (t - 0.0) * rule.rate == rule.rate * t;
    assert !Granted(s1, "action", "key", rule.burst, t);
    assert Answers(s, events)[1] != Answers(s, WithoutSweeps(events))[1];
  }

  /** The state after the first call has taken the whole burst. */
  lemma Drained(rule: Rule, first: Event) returns (s: Shards)
    requires rule.Valid() && first == Allow(0.0, "action", "key", rule.burst)
    ensures s == Step(Single(rule), first) && Granted(Single(rule), "action", "key", rule.burst, 0.0)
    ensures s == map["action" := Shard(rule, map["key" := Bucket(0.0, rule.burst, rule.rate, 0.0)])]
  {
    RefillNow(Fresh(rule, 0.0));
    s := Step(Single(rule), first);
  }

  lemma Unfold(s: Shards, e: Event, rest: seq<Event>)
    ensures Answers(s, [e] + rest)
         == (if e.Sweep? then [] else [Granted(s, e.action, e.key, e.cost, e.at)]) + Answers(Step(s, e), rest)
    ensures Spent(s, [e] + rest, "action", "key") == Cost(s, e, "action", "key") + Spent(Step(s, e), rest, "action", "key")
  {
    assert ([e] + rest)[1..] == rest;
  }

  /** Sweeping with a given idle time is unobservable in every history exactly when a bucket refills
      completely within it. */
  lemma SweepHarmlessIff(rule: Rule, maxIdle: real)
    requires rule.Valid() && maxIdle >= 0.0
    ensures
      (forall events :: SweepsAt(events, maxIdle) ==>
         Answers(Single(rule), events) == Answers(Single(rule), WithoutSweeps(events)))
      <==> Covers(rule, maxIdle)
  {
    if Covers(rule, maxIdle) {
      forall events | SweepsAt(events, maxIdle)
        ensures Answers(Single(rule), events) == Answers(Single(rule), WithoutSweeps(events)) {
        SweepsUnobservable(Single(rule), Single(rule), events, 0.0);
      }
    } else {
      var events := EarlySweepShows(rule, maxIdle);
    }
  }

  // ----- The object itself

  ghost function BucketCount(shards: Shards): nat
    decreases shards.Keys
  {
    if shards.Keys == {} then 0
    else
      var action :| action in shards.Keys;
      |shards[action].buckets| + BucketCount(shards - {action})
  }

  lemma {:induction false} CountWithout(shards: Shards, action: string)
    requires action in shards
    ensures BucketCount(shards) == |shards[action].buckets| + BucketCount(shards - {action})
    decreases shards.Keys
  {
    var a :| a in shards.Keys && BucketCount(shards) == |shards[a].buckets| + BucketCount(shards - {a});
    if a != action {
      CountWithout(shards - {a}, action);
      CountWithout(shards - {action}, a);
      RemoveInAnyOrder(shards, a, action);
    }
  }

  lemma RemoveInAnyOrder(shards: Shards, a: string, b: string)
    ensures shards - {a} - {b} == shards - {b} - {a}
  {
  }

  lemma CountReplaced(shards: Shards, action: string, shard: Shard)
    requires action in shards
    ensures BucketCount(shards) - BucketCount(shards[action := shard]) == |shards[action].buckets| - |shard.buckets|
  {
    CountWithout(shards, action);
    CountWithout(shards[action := shard], action);
    assert shards - {action} == shards[action := shard] - {action};
  }

  class Limiter {
    var shards: Shards

    constructor ()
      ensures shards == map[]
    {
      shards := map[];
    }

    /** configure: existing buckets keep the rate and the capacity they were created with. */
    method Configure(action: string, rule: Rule)
      modifies this
      ensures shards == old(shards)[action := Shard(rule, if action in old(shards) then old(shards)[action].buckets else map[])]
    {
      if action !in shards {
        shards := shards[action := Shard(rule, map[])];
      } else {
        shards := shards[action := shards[action].(rule := rule)];
      }
    }

    method Allow(now: real, action: string, key: string, cost: real) returns (granted: bool)
      modifies this
      ensures shards == Allowed(old(shards), action, key, cost, now)
      ensures granted == Granted(old(shards), action, key, cost, now)
    {
      if action !in shards {
        return true;
      }
      var shard := shards[action];
      var bucket := if key in shard.buckets then shard.buckets[key]
                    else Bucket(shard.rule.burst, shard.rule.burst, shard.rule.rate, now);
      var elapsed := now - bucket.last;
      var gained := elapsed * bucket.rate;
      assert gained == Accrued(bucket.rate, bucket.last, now);
      bucket := bucket.(tokens := Min(bucket.maxTokens, bucket.tokens + gained), last := now);
      assert bucket == Found(shard, key, now);
      granted := bucket.tokens >= cost;
      if granted {
        bucket := bucket.(tokens := bucket.tokens - cost);
      }
      shards := shards[action := shard.(buckets := shard.buckets[key := bucket])];
    }

    /** One turn of the outer loop: the buckets of one action. */
    method SweepShard(action: string, now: real, maxIdle: real) returns (gone: nat)
      requires action in shards
      modifies this
      ensures shards == old(shards)[action := old(shards)[action].(buckets := Kept(old(shards)[action].buckets, maxIdle, now))]
      ensures gone == BucketCount(old(shards)) - BucketCount(shards)
    {
      var kept, n := SweepBuckets(shards[action].buckets, now, maxIdle);
      CountReplaced(shards, action, shards[action].(buckets := kept));
      shards := shards[action := shards[action].(buckets := kept)];
      gone := n;
    }

    /** sweep: `now` was read before the locks were taken. */
    method SweepIdle(now: real, maxIdle: real) returns (evicted: nat)
      modifies this
      ensures shards == Swept(old(shards), maxIdle, now)
      ensures evicted == BucketCount(old(shards)) - BucketCount(shards)
    {
      evicted := 0;
      var rest := shards.Keys;
      while rest != {}
        invariant rest <= shards.Keys == old(shards).Keys
        invariant forall a :: a in rest ==> shards[a] == old(shards)[a]
        invariant forall a :: a in shards.Keys - rest ==>
          shards[a] == old(shards)[a].(buckets := Kept(old(shards)[a].buckets, maxIdle, now))
        invariant evicted == BucketCount(old(shards)) - BucketCount(shards)
        decreases rest
      {
        var action :| action in rest;
        var gone := SweepShard(action, now, maxIdle);
        evicted := evicted + gone;
        rest := rest - {action};
      }
    }
  }

  /** The inner loop of sweep: erase while iterating. */
  method SweepBuckets(buckets: map<string, Bucket>, now: real, maxIdle: real)
    returns (kept: map<string, Bucket>, gone: nat)
    ensures kept == Kept(buckets, maxIdle, now)
    ensures gone == |buckets| - |kept|
  {
    kept, gone := buckets, 0;
    var rest := buckets.Keys;
    while rest != {}
      invariant rest <= kept.Keys <= buckets.Keys
      invariant forall k :: k in kept ==> kept[k] == buckets[k]
      invariant forall k :: k in buckets.Keys - rest ==> (k in kept <==> now - buckets[k].last <= maxIdle)
      invariant gone == |buckets| - |kept|
      decreases rest
    {
      var key :| key in rest;
      if now - kept[key].last > maxIdle {
        assert (kept - {key}).Keys == kept.Keys - {key};
        kept := kept - {key};
        gone := gone + 1;
      }
      rest := rest - {key};
    }
  }
}
