/** What a user's heat and mute are after a history of messages (engine/moderation/ContentModerator.cpp). */
module HeatHistory {
  // The histories are those of the moderator, under one decay, which is exponential: the factors of two
  // stretches of time multiply to the factor of both.

  import opened Common
  import opened ContentModerator
  import opened ModerationHeat

  /** Below this, decay snaps to zero. */
  const SNAP := 0.000001

  function Positive(h: real): real { if h > 0.0 then h else 0.0 }

  /** What is left of one unit after so many milliseconds. */
  function Factor(decay: int -> real, ms: int): real { if ms <= 0 then 1.0 else decay(ms) }

  ghost predicate Exponential(decay: int -> real) {
    && (forall a :: a > 0 ==> 0.0 <= decay(a) <= 1.0)
    && (forall a, b :: a > 0 && b > 0 ==> Multiplies(decay, a, b))
  }

  predicate Multiplies(decay: int -> real, a: int, b: int) { decay(a + b) == decay(a) * decay(b) }

  lemma FactorsMultiply(decay: int -> real, a: int, b: int)
    requires Exponential(decay) && a >= 0 && b >= 0
    ensures Factor(decay, a) * Factor(decay, b) == Factor(decay, a + b)
    ensures 0.0 <= Factor(decay, a) <= 1.0
  {
    if a > 0 && b > 0 {
      assert Multiplies(decay, a, b);
    }
  }

  /** The heat an event adds for a user: a message with content, unless the user is exempt. */
  function Adds(e: Event, id: string): real {
    if e.Check? && e.id == id && !e.noheat && e.delta >= CLEAN_EPSILON then e.delta else 0.0
  }

  /** What one event has added that is left at a later time. */
  function Share(decay: int -> real, e: Event, id: string, at: int): real {
    Adds(e, id) * Factor(decay, at - e.now)
  }

  /** The sum of what the events add, each times its decay since. */
  function Worth(decay: int -> real, es: seq<Event>, id: string, at: int): real {
    if es == [] then 0.0
    else Share(decay, es[0], id, at) + Worth(decay, es[1..], id, at)
  }

  /** The positive heat of an entry, decayed to a later time and not snapped. */
  function Left(e: Entry, decay: int -> real, at: int): real { Positive(e.heat) * Factor(decay, at - e.last) }

  function Carried(t: Table, decay: int -> real, id: string, at: int): real { Left(Lookup(t, id), decay, at) }

  /** What one event can lose: a snap to zero, or an idle entry pruned. */
  function Loss(e: Event): real {
    if e.Sweep? && e.cfg.pruneBelow > SNAP then e.cfg.pruneBelow else SNAP
  }

  function Losses(es: seq<Event>): real {
    if es == [] then 0.0 else Loss(es[0]) + Losses(es[1..])
  }

  /** Every entry was updated, and not after `now`. */
  ghost predicate Stamped(t: Table, now: int) {
    forall id :: id in t ==> 0 < t[id].last <= now
  }

  predicate Resets(e: Event, id: string) { e.ResetState? && e.id == id }

  /** Time does not run backwards from `start` to `at`, the decay stays the same, and the user is not reset. */
  ghost predicate History(es: seq<Event>, id: string, decay: int -> real, start: int, at: int)
    decreases |es|
  {
    if es == [] then start <= at
    else start <= es[0].now && es[0].cfg.decay == decay && !Resets(es[0], id) && History(es[1..], id, decay, es[0].now, at)
  }

  lemma {:induction false} HistoryEnds(es: seq<Event>, id: string, decay: int -> real, start: int, at: int)
    requires History(es, id, decay, start, at)
    ensures start <= at
    decreases |es|
  {
    if es != [] {
      HistoryEnds(es[1..], id, decay, es[0].now, at);
    }
  }

  // ----- One event

  /** What a decay leaves of the positive part. */
  function Snapped(x: real): real { if x < SNAP then 0.0 else x }

  lemma DecayedPart(cfg: HeatConfig, e: Entry, now: int)
    requires Exponential(cfg.decay) && 0 < e.last < now
    ensures Positive(Decay(cfg, e, now).heat) == Snapped(Positive(e.heat) * Factor(cfg.decay, now - e.last))
  {
    var f := cfg.decay(now - e.last);
    assert e.heat > 0.0 ==> e.heat * f >= 0.0;
    assert e.heat <= 0.0 ==> e.heat * f <= 0.0;
  }

  /** The entry of a user after an event that touches it. */
  ghost predicate Touched(cfg: HeatConfig, e: Entry, f: Entry, now: int, adds: real) {
    Positive(f.heat) == Positive(Decay(cfg, e, now).heat) + adds && (f.heat <= 0.0 || f.last == now)
  }

  predicate Touches(e: Event, id: string) { (e.Check? || e.CurrentHeat?) && e.id == id }

  lemma EventTouches(s: State, e: Event, id: string)
    requires Touches(e, id) && Stamped(s.heat, e.now) && Exponential(e.cfg.decay)
    ensures Touched(e.cfg, Lookup(s.heat, id), Lookup(StepOf(s, e).0.heat, id), e.now, Adds(e, id))
  {
    var entry := Lookup(s.heat, id);
    if e.CurrentHeat? || e.noheat || e.delta < CLEAN_EPSILON {
      ReadTouches(e.cfg, s.heat, e.now, id);
      if e.Check? && e.delta < CLEAN_EPSILON && e.trust.enabled {
        TrustTouches(e.cfg, s.heat, e.now, id, e.trust.reward, -e.trust.maxTrust);
      }
    } else {
      ApplyTouches(e.cfg, entry, e.now, e.delta);
    }
  }

  lemma DecayStamps(cfg: HeatConfig, e: Entry, now: int)
    requires 0 < e.last <= now || e == Entry(0.0, 0)
    ensures Decay(cfg, e, now).last == now && (e.last == 0 ==> Decay(cfg, e, now).heat == 0.0)
  {
  }

  lemma ReadTouches(cfg: HeatConfig, t: Table, now: int, id: string)
    requires Stamped(t, now)
    ensures Touched(cfg, Lookup(t, id), Lookup(Peeked(cfg, t, now, id), id), now, 0.0)
  {
    DecayStamps(cfg, Lookup(t, id), now);
  }

  lemma TrustTouches(cfg: HeatConfig, t: Table, now: int, id: string, amount: real, floor: real)
    requires Stamped(t, now)
    ensures Touched(cfg, Lookup(t, id), Lookup(Accrued(cfg, t, now, id, amount, floor), id), now, 0.0)
  {
    DecayStamps(cfg, Lookup(t, id), now);
  }

  lemma ApplyTouches(cfg: HeatConfig, e: Entry, now: int, delta: real)
    requires (0 < e.last <= now || e == Entry(0.0, 0)) && delta >= 0.0
    ensures Touched(cfg, e, Applied(cfg, e, now, delta), now, delta)
  {
    DecayStamps(cfg, e, now);
  }

  /** What an event makes of a user's entry: one that does not touch the user leaves it alone, and a sweep
      decays it or prunes it. */
  ghost predicate EntryStep(e: Event, id: string, old_: Entry, new_: Entry) {
    if Touches(e, id) then Touched(e.cfg, old_, new_, e.now, Adds(e, id))
    else if e.Sweep? && old_ != Entry(0.0, 0) then
      new_ == Decay(e.cfg, old_, e.now)
      || (new_.heat == 0.0 && Positive(Decay(e.cfg, old_, e.now).heat) < e.cfg.pruneBelow)
    else new_ == old_
  }

  lemma EventSteps(s: State, e: Event, id: string)
    requires Stamped(s.heat, e.now) && Exponential(e.cfg.decay) && !Resets(e, id)
    ensures EntryStep(e, id, Lookup(s.heat, id), Lookup(StepOf(s, e).0.heat, id))
  {
    if Touches(e, id) {
      EventTouches(s, e, id);
    }
  }

  lemma StampsStay(s: State, e: Event)
    requires Stamped(s.heat, e.now) && e.now > 0
    ensures Stamped(StepOf(s, e).0.heat, e.now)
  {
  }

  lemma Assoc(x: real, f: real, g: real)
    ensures (x * f) * g == x * (f * g)
  {
  }

  lemma Shrinks(x: real, g: real)
    requires x >= 0.0 && 0.0 <= g <= 1.0
    ensures 0.0 <= x * g <= x
  {
    assert x * (1.0 - g) >= 0.0;
  }

  lemma Distributes(x: real, y: real, g: real)
    ensures (x + y) * g == x * g + y * g
  {
  }

  /** What an unsnapped heat of `whole`, of which `part` was there after an event, has lost. */
  predicate WithinLoss(part: real, whole: real, loss: real) { whole - loss <= part <= whole }

  /** Snapping and then decaying loses at most the snap, and nothing when enough is left in the end. */
  lemma SnapLoses(before: real, g: real)
    requires before >= 0.0 && 0.0 <= g <= 1.0
    ensures WithinLoss(Snapped(before) * g, before * g, SNAP)
    ensures before * g == 0.0 || before * g >= SNAP ==> Snapped(before) * g == before * g
  {
    Shrinks(before, g);
  }

  lemma PruneLoses(before: real, g: real, bound: real)
    requires before >= 0.0 && 0.0 <= g <= 1.0 && before < bound
    ensures 0.0 <= before * g < bound
  {
    Shrinks(before, g);
  }

  /** Decaying up to `now` and on to `at` is decaying up to `at`. */
  lemma DecaysOn(decay: int -> real, heat: real, last: int, now: int, at: int)
    requires Exponential(decay) && last <= now <= at
    ensures heat * Factor(decay, now - last) * Factor(decay, at - now) == heat * Factor(decay, at - last)
    ensures 0.0 <= Factor(decay, at - now) <= 1.0 && 0.0 <= Factor(decay, now - last)
  {
    FactorsMultiply(decay, now - last, at - now);
    FactorsMultiply(decay, at - now, 0);
    Assoc(heat, Factor(decay, now - last), Factor(decay, at - now));
  }

  /** The positive heat of an entry decayed to `now`, carried on to `at`. */
  lemma DecayCarries(cfg: HeatConfig, e: Entry, now: int, at: int)
    requires Exponential(cfg.decay) && 0 < e.last <= now <= at
    ensures
      var g, whole := Factor(cfg.decay, at - now), Left(e, cfg.decay, at);
      && 0.0 <= g <= 1.0
      && WithinLoss(Positive(Decay(cfg, e, now).heat) * g, whole, SNAP)
      && (whole == 0.0 || whole >= SNAP ==> Positive(Decay(cfg, e, now).heat) * g == whole)
  {
    var g := Factor(cfg.decay, at - now);
    DecaysOn(cfg.decay, Positive(e.heat), e.last, now, at);
    if e.last < now {
      LaterCarries(cfg, e, now, Positive(e.heat) * Factor(cfg.decay, now - e.last), g);
    }
  }

  lemma LaterCarries(cfg: HeatConfig, e: Entry, now: int, before: real, g: real)
    requires Exponential(cfg.decay) && 0 < e.last < now && 0.0 <= g <= 1.0
    requires before == Positive(e.heat) * Factor(cfg.decay, now - e.last)
    ensures
      var part := Positive(Decay(cfg, e, now).heat) * g;
      WithinLoss(part, before * g, SNAP) && (before * g == 0.0 || before * g >= SNAP ==> part == before * g)
  {
    DecayedPart(cfg, e, now);
    FactorsMultiply(cfg.decay, now - e.last, 0);
    SnapLoses(before, g);
  }

  /** One event, seen from a later time: it adds what it adds, and loses no more than its loss. */
  ghost predicate CarriesOn(before: real, after: real, adds: real, e: Event) {
    && WithinLoss(after, before + adds, Loss(e))
    && (!e.Sweep? && (before == 0.0 || before >= SNAP) ==> after == before + adds)
  }

  lemma StepCarries(s: State, e: Event, id: string, t: Table, at: int) returns (before: real, after: real, adds: real)
    requires Exponential(e.cfg.decay) && 0 < e.now <= at && Stamped(s.heat, e.now)
    requires EntryStep(e, id, Lookup(s.heat, id), Lookup(t, id))
    ensures before == Carried(s.heat, e.cfg.decay, id, at) && after == Carried(t, e.cfg.decay, id, at)
    ensures adds == Share(e.cfg.decay, e, id, at) && CarriesOn(before, after, adds, e)
  {
    before, after := Carried(s.heat, e.cfg.decay, id, at), Carried(t, e.cfg.decay, id, at);
    adds := Share(e.cfg.decay, e, id, at);
    EntryCarries(e, id, Lookup(s.heat, id), Lookup(t, id), at);
  }

  lemma EntryCarries(e: Event, id: string, old_: Entry, new_: Entry, at: int)
    requires Exponential(e.cfg.decay) && 0 < e.now <= at && (0 < old_.last <= e.now || old_ == Entry(0.0, 0))
    requires EntryStep(e, id, old_, new_)
    ensures CarriesOn(Left(old_, e.cfg.decay, at), Left(new_, e.cfg.decay, at),
                      Share(e.cfg.decay, e, id, at), e)
  {
    if Touches(e, id) {
      TouchedCarries(e.cfg, old_, new_, e.now, at, Adds(e, id));
    } else {
      AddsNothing(e, id, Factor(e.cfg.decay, at - e.now));
      if e.Sweep? && old_ != Entry(0.0, 0) {
        SweepCarries(e.cfg, old_, new_, e.now, at);
      }
    }
  }

  lemma AddsNothing(e: Event, id: string, g: real)
    requires !Touches(e, id)
    ensures Adds(e, id) * g == 0.0
  {
  }

  lemma TouchedCarries(cfg: HeatConfig, e: Entry, f: Entry, now: int, at: int, adds: real)
    requires Exponential(cfg.decay) && 0 < now <= at && (0 < e.last <= now || e == Entry(0.0, 0))
    requires Touched(cfg, e, f, now, adds) && adds >= 0.0
    ensures
      var before, after := Left(e, cfg.decay, at), Left(f, cfg.decay, at);
      var whole := before + adds * Factor(cfg.decay, at - now);
      && WithinLoss(after, whole, SNAP) && (before == 0.0 || before >= SNAP ==> after == whole)
  {
    var g, part := Factor(cfg.decay, at - now), Positive(Decay(cfg, e, now).heat);
    if e.last > 0 {
      DecayCarries(cfg, e, now, at);
    }
    Distributes(part, adds, g);
    if f.heat <= 0.0 {
      assert part == 0.0 && adds == 0.0;
    }
  }

  lemma SweepCarries(cfg: HeatConfig, e: Entry, f: Entry, now: int, at: int)
    requires Exponential(cfg.decay) && 0 < e.last <= now <= at
    requires f == Decay(cfg, e, now) || (f.heat == 0.0 && Positive(Decay(cfg, e, now).heat) < cfg.pruneBelow)
    ensures
      WithinLoss(Left(f, cfg.decay, at), Left(e, cfg.decay, at), if cfg.pruneBelow > SNAP then cfg.pruneBelow else SNAP)
  {
    DecayCarries(cfg, e, now, at);
    if f == Decay(cfg, e, now) {
      DecayStamps(cfg, e, now);
    } else {
      PrunedCarries(cfg, e, now, at);
    }
  }

  lemma PrunedCarries(cfg: HeatConfig, e: Entry, now: int, at: int)
    requires Exponential(cfg.decay) && 0 < e.last <= now <= at && Positive(Decay(cfg, e, now).heat) < cfg.pruneBelow
    ensures var whole := Left(e, cfg.decay, at); whole < SNAP || whole < cfg.pruneBelow
  {
    var whole := Left(e, cfg.decay, at);
    DecayCarries(cfg, e, now, at);
    if whole >= SNAP {
      Shrinks(Positive(Decay(cfg, e, now).heat), Factor(cfg.decay, at - now));
    }
  }

  // ----- Whole histories

  lemma LossesAdd(first: real, part: real, adds: real, rest: real, whole: real, loss: real, losses: real)
    requires WithinLoss(part, first + adds, loss) && WithinLoss(whole, part + rest, losses)
    ensures WithinLoss(whole, first + (adds + rest), loss + losses)
  {
  }

  /** Seen from the end, the heat is the worth of the events, less what snapping and pruning lose. */
  lemma {:induction false} HistoryCarries(s: State, es: seq<Event>, id: string, decay: int -> real, start: int, at: int)
    requires Exponential(decay) && 0 < start && Stamped(s.heat, start) && History(es, id, decay, start, at)
    ensures WithinLoss(Carried(Run(s, es).heat, decay, id, at),
                       Carried(s.heat, decay, id, at) + Worth(decay, es, id, at), Losses(es))
    decreases |es|
  {
    if es != [] {
      var e, rest, t := es[0], es[1..], StepOf(s, es[0]).0;
      var before, after, adds := HistoryBegins(s, es, id, decay, start, at);
      HistoryCarries(t, rest, id, decay, e.now, at);
      LossesAdd(before, after, adds, Worth(decay, rest, id, at),
                Carried(Run(t, rest).heat, decay, id, at), Loss(e), Losses(rest));
    }
  }

  lemma AtLeastZero(decay: int -> real, e: Event, id: string, at: int)
    requires Exponential(decay) && at >= e.now
    ensures Share(decay, e, id, at) >= 0.0
  {
    FactorsMultiply(decay, at - e.now, 0);
  }

  /** The same for the state after the event. */
  lemma OneCarries(s: State, e: Event, id: string, decay: int -> real, at: int)
    returns (before: real, after: real, adds: real)
    requires e.cfg.decay == decay && Exponential(decay) && !Resets(e, id)
    requires 0 < e.now <= at && Stamped(s.heat, e.now)
    ensures before == Carried(s.heat, decay, id, at) && after == Carried(StepOf(s, e).0.heat, decay, id, at)
    ensures adds == Share(decay, e, id, at) && CarriesOn(before, after, adds, e)
    ensures Stamped(StepOf(s, e).0.heat, e.now)
  {
    EventSteps(s, e, id);
    StampsStay(s, e);
    before, after, adds := StepCarries(s, e, id, StepOf(s, e).0.heat, at);
  }

  /** The first event of a history. */
  lemma HistoryFirst(es: seq<Event>, id: string, decay: int -> real, start: int, at: int)
    requires es != [] && History(es, id, decay, start, at)
    ensures start <= es[0].now <= at && es[0].cfg.decay == decay && !Resets(es[0], id)
    ensures History(es[1..], id, decay, es[0].now, at)
  {
    HistoryEnds(es[1..], id, decay, es[0].now, at);
  }

  lemma FirstCarries(s: State, e: Event, id: string, decay: int -> real, start: int, at: int)
    returns (before: real, after: real, adds: real)
    requires Exponential(decay) && 0 < start <= e.now <= at && Stamped(s.heat, start)
    requires e.cfg.decay == decay && !Resets(e, id)
    ensures before == Carried(s.heat, decay, id, at) && after == Carried(StepOf(s, e).0.heat, decay, id, at)
    ensures adds == Share(decay, e, id, at) && CarriesOn(before, after, adds, e)
    ensures Stamped(StepOf(s, e).0.heat, e.now)
  {
    StampsLater(s.heat, start, e.now);
    before, after, adds := OneCarries(s, e, id, decay, at);
  }

  lemma HistoryBegins(s: State, es: seq<Event>, id: string, decay: int -> real, start: int, at: int)
    returns (before: real, after: real, adds: real)
    requires es != [] && Exponential(decay) && 0 < start && Stamped(s.heat, start) && History(es, id, decay, start, at)
    ensures before == Carried(s.heat, decay, id, at) && after == Carried(StepOf(s, es[0]).0.heat, decay, id, at)
    ensures adds == Share(decay, es[0], id, at) && CarriesOn(before, after, adds, es[0])
    ensures start <= es[0].now <= at && Stamped(StepOf(s, es[0]).0.heat, es[0].now)
    ensures History(es[1..], id, decay, es[0].now, at)
  {
    HistoryFirst(es, id, decay, start, at);
    before, after, adds := FirstCarries(s, es[0], id, decay, start, at);
  }

  lemma StampsLater(t: Table, start: int, now: int)
    requires Stamped(t, start) && start <= now
    ensures Stamped(t, now)
  {
  }

  /** The first message that adds heat is still worth the snap at the end. */
  predicate Lasts(decay: int -> real, es: seq<Event>, id: string, at: int)
    decreases |es|
  {
    es == [] || if Adds(es[0], id) > 0.0 then Share(decay, es[0], id, at) >= SNAP
                else Lasts(decay, es[1..], id, at)
  }

  predicate NoSweep(es: seq<Event>) {
    forall i :: 0 <= i < |es| ==> !es[i].Sweep?
  }

  /** A heat that no later snap can touch: enough is left, or nothing is there yet and the first addition
      will be enough. */
  predicate Safe(carried: real, decay: int -> real, es: seq<Event>, id: string, at: int) {
    carried >= SNAP || (carried == 0.0 && Lasts(decay, es, id, at))
  }

  lemma SafeStep(before: real, after: real, adds: real, decay: int -> real, es: seq<Event>, id: string, at: int)
    requires es != [] && !es[0].Sweep? && CarriesOn(before, after, adds, es[0]) && Safe(before, decay, es, id, at)
    requires adds == Share(decay, es[0], id, at) >= 0.0
    ensures after == before + adds && Safe(after, decay, es[1..], id, at)
  {
  }

  /** Nothing is lost as long as the first heat has not decayed below the snap. */
  lemma {:induction false} HistoryCarriesAll(s: State, es: seq<Event>, id: string, decay: int -> real, start: int, at: int)
    requires Exponential(decay) && 0 < start && Stamped(s.heat, start) && History(es, id, decay, start, at) && NoSweep(es)
    requires Safe(Carried(s.heat, decay, id, at), decay, es, id, at)
    ensures
      var c := Carried(Run(s, es).heat, decay, id, at);
      c == Carried(s.heat, decay, id, at) + Worth(decay, es, id, at) && (c == 0.0 || c >= SNAP)
    decreases |es|
  {
    if es != [] {
      var before, after, adds := HistoryBegins(s, es, id, decay, start, at);
      AtLeastZero(decay, es[0], id, at);
      NoSweepRest(es);
      SafeStep(before, after, adds, decay, es, id, at);
      HistoryCarriesAll(StepOf(s, es[0]).0, es[1..], id, decay, es[0].now, at);
    }
  }

  lemma NoSweepRest(es: seq<Event>)
    requires es != [] && NoSweep(es)
    ensures !es[0].Sweep? && NoSweep(es[1..])
  {
  }

  lemma {:induction false} RunStamped(s: State, es: seq<Event>, id: string, decay: int -> real, start: int, at: int)
    requires 0 < start && Stamped(s.heat, start) && History(es, id, decay, start, at)
    ensures Stamped(Run(s, es).heat, at)
    decreases |es|
  {
    if es == [] {
      StampsLater(s.heat, start, at);
    } else {
      StampsLater(s.heat, start, es[0].now);
      StampsStay(s, es[0]);
      RunStamped(StepOf(s, es[0]).0, es[1..], id, decay, es[0].now, at);
    }
  }

  /** What a reader is told of a user's positive heat. */
  function Reading(cfg: HeatConfig, t: Table, now: int, id: string): real {
    Positive(HeatOf(Peeked(cfg, t, now, id), id))
  }

  lemma ReadingCarries(cfg: HeatConfig, t: Table, now: int, id: string)
    requires Exponential(cfg.decay) && Stamped(t, now)
    ensures
      var c := Carried(t, cfg.decay, id, now);
      WithinLoss(Reading(cfg, t, now, id), c, SNAP) && (c == 0.0 || c >= SNAP ==> Reading(cfg, t, now, id) == c)
  {
    if id in t {
      DecayCarries(cfg, Lookup(t, id), now, now);
    }
  }

  /** For a user with no entry, whatever others do and however often the heat is read: the heat is the sum
      of what the messages added, each times its decay since, less at most the snaps and prunings; and it is
      exactly the sum without sweeps, while the first addition is worth the snap. */
  lemma HeatOfHistory(s: State, es: seq<Event>, id: string, cfg: HeatConfig, start: int, at: int)
    requires Exponential(cfg.decay) && 0 < start && Stamped(s.heat, start) && id !in s.heat
    requires History(es, id, cfg.decay, start, at)
    ensures
      var sum := Worth(cfg.decay, es, id, at);
      && WithinLoss(Reading(cfg, Run(s, es).heat, at, id), sum, Losses(es) + SNAP)
      && (NoSweep(es) && Lasts(cfg.decay, es, id, at) ==> Reading(cfg, Run(s, es).heat, at, id) == sum)
  {
    var t := Run(s, es).heat;
    HistoryCarries(s, es, id, cfg.decay, start, at);
    RunStamped(s, es, id, cfg.decay, start, at);
    ReadingCarries(cfg, t, at, id);
    if NoSweep(es) && Lasts(cfg.decay, es, id, at) {
      HistoryCarriesAll(s, es, id, cfg.decay, start, at);
    }
  }

  /** The next message with content is judged by that sum and its own heat: the action is the most severe
      one whose threshold they reach. */
  lemma SentenceOfHistory(s: State, es: seq<Event>, e: Event, start: int)
    requires e.Check? && !e.noheat && e.delta >= CLEAN_EPSILON && Exponential(e.cfg.decay)
    requires 0 < start && Stamped(s.heat, start) && e.id !in s.heat
    requires History(es, e.id, e.cfg.decay, start, e.now)
    ensures
      var sum, verdict := Worth(e.cfg.decay, es, e.id, e.now) + e.delta, Checked(Run(s, es), e).1;
      && IsSentence(e.cfg, verdict.heatAfter, verdict.action)
      && WithinLoss(verdict.heatAfter, sum, Losses(es) + SNAP)
      && (NoSweep(es) && Lasts(e.cfg.decay, es, e.id, e.now) ==> verdict.heatAfter == sum)
  {
    HeatOfHistory(s, es, e.id, e.cfg, start, e.now);
    RunStamped(s, es, e.id, e.cfg.decay, start, e.now);
    var t := Run(s, es).heat;
    ApplyReads(e.cfg, t, e.now, e.id, e.delta);
    DecideIff(e.cfg, HeatOf(Checked(Run(s, es), e).0.heat, e.id), Checked(Run(s, es), e).1.action);
  }

  lemma ApplyReads(cfg: HeatConfig, t: Table, now: int, id: string, delta: real)
    requires delta >= 0.0 && Stamped(t, now)
    ensures Applied(cfg, Lookup(t, id), now, delta).heat == Reading(cfg, t, now, id) + delta
  {
  }

  // ----- All at one time

  /** The plain sum of what is added. */
  function Total(es: seq<Event>, id: string): real {
    if es == [] then 0.0 else Adds(es[0], id) + Total(es[1..], id)
  }

  lemma {:induction false} WorthAtOnce(decay: int -> real, es: seq<Event>, id: string, at: int)
    requires History(es, id, decay, at, at)
    ensures Worth(decay, es, id, at) == Total(es, id) && Lasts(decay, es, id, at)
    decreases |es|
  {
    if es != [] {
      HistoryEnds(es[1..], id, decay, es[0].now, at);
      WorthAtOnce(decay, es[1..], id, at);
    }
  }

  /** Messages at the same time add up. */
  lemma HeatAtOnce(s: State, es: seq<Event>, id: string, cfg: HeatConfig, at: int)
    requires Exponential(cfg.decay) && 0 < at && Stamped(s.heat, at) && id !in s.heat && NoSweep(es)
    requires History(es, id, cfg.decay, at, at)
    ensures Reading(cfg, Run(s, es).heat, at, id) == Total(es, id)
  {
    WorthAtOnce(cfg.decay, es, id, at);
    HeatOfHistory(s, es, id, cfg, at, at);
  }

  // ----- Credit, and exempt users

  /** `n` clean messages of one user at one time, under the same trust settings. */
  ghost predicate Praises(es: seq<Event>, id: string, trust: TrustBank, at: int) {
    forall i :: 0 <= i < |es| ==>
      es[i].Check? && es[i].id == id && es[i].delta < CLEAN_EPSILON && es[i].now == at && es[i].trust == trust
  }

  function Largest(a: real, b: real): real { if a < b then b else a }

  /** So many times the reward. */
  function Earned(n: nat, reward: real): real { if n == 0 then 0.0 else reward + Earned(n - 1, reward) }

  lemma {:induction false} EarnedIs(n: nat, reward: real)
    ensures Earned(n, reward) == n as real * reward
    ensures reward > 0.0 ==> Earned(n, reward) >= 0.0
  {
    if n > 0 {
      EarnedIs(n - 1, reward);
      assert n as real * reward == (n - 1) as real * reward + reward;
    }
  }

  /** Each clean message earns the reward, down to the limit and no further. */
  lemma {:induction false} CreditAtOnce(s: State, es: seq<Event>, id: string, trust: TrustBank, at: int)
    requires trust.enabled && trust.reward > 0.0 && trust.maxTrust > 0.0 && at > 0 && Praises(es, id, trust, at)
    requires -trust.maxTrust <= HeatOf(s.heat, id) <= 0.0 && (id in s.heat ==> s.heat[id].last == at)
    ensures HeatOf(Run(s, es).heat, id) == Largest(HeatOf(s.heat, id) - Earned(|es|, trust.reward), -trust.maxTrust)
    decreases |es|
  {
    if es != [] {
      PraiseEarns(s, es[0], id, trust, at);
      assert forall i :: 0 < i < |es| ==> es[i] == es[1..][i - 1];
      EarnedIs(|es| - 1, trust.reward);
      CreditAtOnce(StepOf(s, es[0]).0, es[1..], id, trust, at);
    }
  }

  lemma PraiseEarns(s: State, e: Event, id: string, trust: TrustBank, at: int)
    requires trust.enabled && trust.reward > 0.0 && trust.maxTrust > 0.0 && at > 0 && Praises([e], id, trust, at)
    requires -trust.maxTrust <= HeatOf(s.heat, id) <= 0.0 && (id in s.heat ==> s.heat[id].last == at)
    ensures
      var t := StepOf(s, e).0;
      && id in t.heat && t.heat[id].last == at
      && HeatOf(t.heat, id) == Largest(HeatOf(s.heat, id) - trust.reward, -trust.maxTrust)
  {
    assert [e][0] == e;
  }

  /** An exempt user's message is answered with no action and recorded with the one it would have had; it
      adds no heat and no mute. */
  lemma ExemptOnlyRecorded(s: State, e: Event)
    requires e.Check? && e.noheat && e.delta >= CLEAN_EPSILON
    ensures
      var (t, verdict) := Checked(s, e);
      && verdict.action == NONE && verdict.heatAfter == HeatOf(Peeked(e.cfg, s.heat, e.now, e.id), e.id)
      && IsSentence(e.cfg, verdict.heatAfter + e.delta, verdict.traced)
      && t == s.(heat := Peeked(e.cfg, s.heat, e.now, e.id))
  {
    var (t, verdict) := Checked(s, e);
    DecideIff(e.cfg, verdict.heatAfter + e.delta, verdict.traced);
  }

  // ----- Mutes

  /** A mute until then is in force; one without an end is kept as zero or less. */
  predicate InForce(until: int, sec: int) { until <= 0 || until > sec }

  predicate IsMuted(s: State, id: string, sec: int) { id in s.mutes && InForce(s.mutes[id], sec) }

  /** The end of the last mute a user was sentenced to, unless it was reset since. */
  function MutedUntil(es: seq<Event>, outs: seq<Output>, id: string, before: Option<int>): Option<int>
    requires |es| == |outs|
    decreases |es|
  {
    if es == [] then before
    else
      var e := es[0];
      var now :=
        if e.Check? && e.id == id && outs[0] == Enforced(MUTE) then Some(e.sec + e.cfg.muteSeconds)
        else if Resets(e, id) then None
        else before;
      MutedUntil(es[1..], outs[1..], id, now)
  }

  /** What is recorded, but for mutes that are over and swept. */
  predicate Recorded(s: State, id: string, until: Option<int>, sec: int) {
    if id in s.mutes then until == Some(s.mutes[id]) else until == None || !InForce(until.value, sec)
  }

  lemma {:induction false} OneOutputEach(s: State, es: seq<Event>)
    ensures |Outputs(s, es)| == |es|
    decreases |es|
  {
    if es != [] {
      OneOutputEach(StepOf(s, es[0]).0, es[1..]);
    }
  }

  /** A user is muted exactly as long as the last sentence says, or until a reset: no sweep, message or
      later sentence of another kind ends a mute early or keeps it longer. */
  lemma {:induction false} MutedAsSentenced(s: State, es: seq<Event>, id: string, before: Option<int>, sec: int)
    requires Recorded(s, id, before, sec)
    requires forall i :: 0 <= i < |es| && es[i].Sweep? ==> es[i].sec <= sec
    ensures |Outputs(s, es)| == |es|
    ensures
      var until := MutedUntil(es, Outputs(s, es), id, before);
      IsMuted(Run(s, es), id, sec) <==> until.Some? && InForce(until.value, sec)
    decreases |es|
  {
    OneOutputEach(s, es);
    if es != [] {
      var (t, out) := StepOf(s, es[0]);
      OneOutputEach(t, es[1..]);
      assert Outputs(s, es)[1..] == Outputs(t, es[1..]);
      var e := es[0];
      var now :=
        if e.Check? && e.id == id && out == Enforced(MUTE) then Some(e.sec + e.cfg.muteSeconds)
        else if Resets(e, id) then None
        else before;
      StepRecords(s, e, id, before, sec);
      MutedAsSentenced(t, es[1..], id, now, sec);
    }
  }

  lemma StepRecords(s: State, e: Event, id: string, before: Option<int>, sec: int)
    requires Recorded(s, id, before, sec) && (e.Sweep? ==> e.sec <= sec)
    ensures
      var (t, out) := StepOf(s, e);
      var now :=
        if e.Check? && e.id == id && out == Enforced(MUTE) then Some(e.sec + e.cfg.muteSeconds)
        else if Resets(e, id) then None
        else before;
      Recorded(t, id, now, sec)
  {
  }
}
