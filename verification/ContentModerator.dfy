/** The heat part of the content moderator (engine/moderation/ContentModerator.cpp). */
module ContentModerator {
  // The clean, the exempt and the enforcing branch of check, reset_state and sweep.  The heat a message
  // adds is computed by the detection layers, which are not part of this model: it is a parameter of
  // each check.

  import opened ModerationHeat

  datatype TrustBank = TrustBank(enabled: bool, reward: real, maxTrust: real)

  /** Messages adding less than this count as clean. */
  const CLEAN_EPSILON := 0.01

  datatype Event =
    | Check(now: int, sec: int, cfg: HeatConfig, id: string, delta: real, noheat: bool, trust: TrustBank)
    | ResetState(now: int, cfg: HeatConfig, id: string)
    | Sweep(now: int, sec: int, cfg: HeatConfig)
    | CurrentHeat(now: int, cfg: HeatConfig, id: string)

  /** The heat table, and when each active mute expires. */
  datatype State = State(heat: Table, mutes: map<string, int>)

  /** What a check answers: `action` is enforced, `traced` is what the trace and the counters record. */
  datatype Verdict = Verdict(action: Action, traced: Action, heatAfter: real)

  datatype Output = Enforced(action: Action) | Cleared(something: bool) | Nothing

  function CleanTable(cfg: HeatConfig, t: Table, now: int, id: string, trust: TrustBank): Table {
    if trust.enabled then Accrued(cfg, t, now, id, trust.reward, -trust.maxTrust) else Peeked(cfg, t, now, id)
  }

  function Checked(s: State, e: Event): (State, Verdict)
    requires e.Check?
  {
    if e.delta < CLEAN_EPSILON then
      var heat := CleanTable(e.cfg, s.heat, e.now, e.id, e.trust);
      (s.(heat := heat), Verdict(NONE, NONE, HeatOf(heat, e.id)))
    else if e.noheat then
      var heat := Peeked(e.cfg, s.heat, e.now, e.id);
      (s.(heat := heat), Verdict(NONE, Decide(e.cfg, HeatOf(heat, e.id) + e.delta), HeatOf(heat, e.id)))
    else
      var heat := s.heat[e.id := Applied(e.cfg, Lookup(s.heat, e.id), e.now, e.delta)];
      var action := Decide(e.cfg, HeatOf(heat, e.id));
      var mutes := if action == MUTE then s.mutes[e.id := e.sec + e.cfg.muteSeconds] else s.mutes;
      (State(heat, mutes), Verdict(action, action, HeatOf(heat, e.id)))
  }

  function StepOf(s: State, e: Event): (State, Output) {
    match e
    case Check(_, _, _, _, _, _, _) =>
      var (t, verdict) := Checked(s, e);
      (t, Enforced(verdict.action))
    case ResetState(now, cfg, id) =>
      var prior := HeatOf(Peeked(cfg, s.heat, now, id), id);
      (State(s.heat - {id}, s.mutes - {id}), Cleared(id in s.mutes || prior > 0.0))
    case Sweep(now, sec, cfg) => (State(Swept(cfg, s.heat, now), Unexpired(s.mutes, sec)), Nothing)
    case CurrentHeat(now, cfg, id) => (s.(heat := Peeked(cfg, s.heat, now, id)), Nothing)
  }

  function Unexpired(mutes: map<string, int>, sec: int): map<string, int> {
    map id | id in mutes && !(0 < mutes[id] <= sec) :: mutes[id]
  }

  function Run(s: State, events: seq<Event>): State
    decreases |events|
  {
    if events == [] then s else Run(StepOf(s, events[0]).0, events[1..])
  }

  function Outputs(s: State, events: seq<Event>): seq<Output>
    decreases |events|
  {
    if events == [] then [] else [StepOf(s, events[0]).1] + Outputs(StepOf(s, events[0]).0, events[1..])
  }

  // ----- Trust never softens enforcement

  ghost predicate SameButTrust(e: Event, f: Event) {
    if e.Check? && f.Check? then e.(trust := f.trust) == f else e == f
  }

  /** The same messages, resets and sweeps at the same times, under any two trust settings each. */
  ghost predicate SameHistory(es: seq<Event>, fs: seq<Event>) {
    |es| == |fs| && forall i :: 0 <= i < |es| ==> SameButTrust(es[i], fs[i])
  }

  /** The clock never runs backwards from `start` on, and decay factors are factors. */
  ghost predicate Timed(events: seq<Event>, start: int) {
    events == [] || (start <= events[0].now && events[0].cfg.Valid() && Timed(events[1..], events[0].now))
  }

  ghost predicate Related(s: State, t: State, now: int) {
    Agree(s.heat, t.heat) && s.mutes == t.mutes && Past(s.heat, now) && Past(t.heat, now)
  }

  /** A clean message leaves a heated entry to its decay, and keeps any other at or below zero. */
  lemma CleanEntry(cfg: HeatConfig, t: Table, now: int, id: string, trust: TrustBank)
    requires cfg.Valid()
    ensures
      var d, r := Decay(cfg, Lookup(t, id), now), Lookup(CleanTable(cfg, t, now, id, trust), id);
      (if d.heat > 0.0 then r == d else r.heat <= 0.0) && (d.last <= now ==> r.last <= now || r.last == 0)
  {
  }

  lemma CleanRelated(s: State, t: State, e: Event, f: Event)
    requires e.Check? && f.Check? && SameButTrust(e, f) && e.cfg.Valid() && Related(s, t, e.now)
    requires e.delta < CLEAN_EPSILON
    ensures Related(StepOf(s, e).0, StepOf(t, f).0, e.now)
  {
    CleanEntry(e.cfg, s.heat, e.now, e.id, e.trust);
    CleanEntry(e.cfg, t.heat, e.now, e.id, f.trust);
    DecayAgrees(e.cfg, Lookup(s.heat, e.id), Lookup(t.heat, e.id), e.now);
    forall id ensures AgreeAt(Lookup(StepOf(s, e).0.heat, id), Lookup(StepOf(t, f).0.heat, id)) {
      assert AgreeAt(Lookup(s.heat, id), Lookup(t.heat, id));
    }
  }

  lemma PeekRelated(cfg: HeatConfig, s: Table, t: Table, now: int, id: string)
    requires cfg.Valid() && Agree(s, t) && Past(s, now) && Past(t, now)
    ensures Agree(Peeked(cfg, s, now, id), Peeked(cfg, t, now, id))
    ensures Past(Peeked(cfg, s, now, id), now) && Past(Peeked(cfg, t, now, id), now)
    ensures AgreeAt(Lookup(Peeked(cfg, s, now, id), id), Lookup(Peeked(cfg, t, now, id), id))
  {
    CleanEntry(cfg, s, now, id, TrustBank(false, 0.0, 0.0));
    CleanEntry(cfg, t, now, id, TrustBank(false, 0.0, 0.0));
    DecayAgrees(cfg, Lookup(s, id), Lookup(t, id), now);
    forall i ensures AgreeAt(Lookup(Peeked(cfg, s, now, id), i), Lookup(Peeked(cfg, t, now, id), i)) {
      assert AgreeAt(Lookup(s, i), Lookup(t, i));
    }
  }

  /** A message with content gets the same heat on both sides, and so the same action and mute. */
  lemma ContentRelated(s: State, t: State, e: Event, f: Event)
    requires e.Check? && f.Check? && SameButTrust(e, f) && e.cfg.Valid() && Related(s, t, e.now)
    requires e.delta >= CLEAN_EPSILON && !e.noheat
    ensures Related(StepOf(s, e).0, StepOf(t, f).0, e.now)
    ensures StepOf(s, e).1 == StepOf(t, f).1
  {
    var a, b := Lookup(s.heat, e.id), Lookup(t.heat, e.id);
    assert AgreeAt(a, b);
    AppliedSame(e.cfg, a, b, e.now, e.delta);
    forall id ensures AgreeAt(Lookup(StepOf(s, e).0.heat, id), Lookup(StepOf(t, f).0.heat, id)) {
      assert AgreeAt(Lookup(s.heat, id), Lookup(t.heat, id));
    }
  }

  lemma SweepRelated(cfg: HeatConfig, s: Table, t: Table, now: int)
    requires cfg.Valid() && Agree(s, t) && Past(s, now) && Past(t, now)
    ensures Agree(Swept(cfg, s, now), Swept(cfg, t, now))
    ensures Past(Swept(cfg, s, now), now) && Past(Swept(cfg, t, now), now)
  {
    forall id ensures AgreeAt(Lookup(Swept(cfg, s, now), id), Lookup(Swept(cfg, t, now), id)) {
      assert AgreeAt(Lookup(s, id), Lookup(t, id));
      DecayAgrees(cfg, Lookup(s, id), Lookup(t, id), now);
      DecaySign(cfg, Lookup(s, id), now);
      DecaySign(cfg, Lookup(t, id), now);
    }
    forall id | id in Swept(cfg, s, now) ensures Swept(cfg, s, now)[id].last <= now {
      DecaySign(cfg, s[id], now);
    }
    forall id | id in Swept(cfg, t, now) ensures Swept(cfg, t, now)[id].last <= now {
      DecaySign(cfg, t[id], now);
    }
  }

  lemma RestRelated(s: State, t: State, e: Event)
    requires !e.Check? && e.cfg.Valid() && Related(s, t, e.now)
    ensures Related(StepOf(s, e).0, StepOf(t, e).0, e.now)
    ensures StepOf(s, e).1 == StepOf(t, e).1
  {
    match e {
      case ResetState(now, cfg, id) =>
        PeekRelated(cfg, s.heat, t.heat, now, id);
        forall i ensures AgreeAt(Lookup(s.heat - {id}, i), Lookup(t.heat - {id}, i)) {
          assert AgreeAt(Lookup(s.heat, i), Lookup(t.heat, i));
        }
      case Sweep(now, sec, cfg) => SweepRelated(cfg, s.heat, t.heat, now);
      case CurrentHeat(now, cfg, id) => PeekRelated(cfg, s.heat, t.heat, now, id);
    }
  }

  lemma StepRelated(s: State, t: State, e: Event, f: Event, now: int)
    requires SameButTrust(e, f) && e.cfg.Valid() && now <= e.now && Related(s, t, now)
    ensures Related(StepOf(s, e).0, StepOf(t, f).0, e.now)
    ensures StepOf(s, e).1 == StepOf(t, f).1
  {
    assert Related(s, t, e.now);
    if e.Check? && f.Check? {
      if e.delta < CLEAN_EPSILON {
        CleanRelated(s, t, e, f);
      } else if e.noheat {
        PeekRelated(e.cfg, s.heat, t.heat, e.now, e.id);
      } else {
        ContentRelated(s, t, e, f);
      }
    } else {
      RestRelated(s, t, e);
    }
  }

  /** For every history of messages, resets and sweeps, any two ways of configuring the trust bank,
      message by message, enforce the same actions, record the same mutes and answer resets alike. */
  lemma {:induction false} TrustNeverSoftens(s: State, t: State, es: seq<Event>, fs: seq<Event>, now: int)
    requires Related(s, t, now) && SameHistory(es, fs) && Timed(es, now)
    ensures Outputs(s, es) == Outputs(t, fs)
    ensures Run(s, es).mutes == Run(t, fs).mutes
    ensures Agree(Run(s, es).heat, Run(t, fs).heat)
    decreases |es|
  {
    if es != [] {
      assert SameButTrust(es[0], fs[0]);
      StepRelated(s, t, es[0], fs[0], now);
      TrustNeverSoftens(StepOf(s, es[0]).0, StepOf(t, fs[0]).0, es[1..], fs[1..], es[0].now);
    }
  }

  const FRESH := State(map[], map[])

  function Untrusting(e: Event): Event {
    if e.Check? then e.(trust := e.trust.(enabled := false)) else e
  }

  /** The trust bank switched off for a whole history. */
  function WithoutTrust(es: seq<Event>): seq<Event> {
    seq(|es|, i requires 0 <= i < |es| => Untrusting(es[i]))
  }

  /** From a fresh start: switching the trust bank off changes no action, and every heat without trust
      is the heat with trust, read as zero where it is credit. */
  lemma TrustBankIsInvisible(es: seq<Event>, start: int, id: string)
    requires Timed(es, start)
    ensures Outputs(FRESH, es) == Outputs(FRESH, WithoutTrust(es))
    ensures
      var with, without := HeatOf(Run(FRESH, es).heat, id), HeatOf(Run(FRESH, WithoutTrust(es)).heat, id);
      without == if with > 0.0 then with else 0.0
  {
    TrustNeverSoftens(FRESH, FRESH, es, WithoutTrust(es), start);
    TimedValid(es, start);
    NeverBelowZero(FRESH, WithoutTrust(es));
    var s, t := Run(FRESH, es).heat, Run(FRESH, WithoutTrust(es)).heat;
    assert AgreeAt(Lookup(s, id), Lookup(t, id));
  }

  lemma {:induction false} TimedValid(es: seq<Event>, start: int)
    requires Timed(es, start)
    ensures forall i :: 0 <= i < |es| ==> es[i].cfg.Valid()
    decreases |es|
  {
    if es != [] {
      TimedValid(es[1..], es[0].now);
      assert forall i :: 0 < i < |es| ==> es[i] == es[1..][i - 1];
    }
  }

  ghost predicate NoCredit(t: Table) {
    forall id :: id in t ==> t[id].heat >= 0.0
  }

  lemma NoCreditStep(s: State, e: Event)
    requires NoCredit(s.heat) && e.cfg.Valid() && (e.Check? ==> !e.trust.enabled)
    ensures NoCredit(StepOf(s, e).0.heat)
  {
    forall id | id in s.heat ensures Decay(e.cfg, s.heat[id], e.now).heat >= 0.0 {
      DecaySign(e.cfg, s.heat[id], e.now);
    }
  }

  /** Without the trust bank no heat is ever negative. */
  lemma {:induction false} NeverBelowZero(s: State, es: seq<Event>)
    requires NoCredit(s.heat) && forall i :: 0 <= i < |es| ==> es[i].cfg.Valid() && (es[i].Check? ==> !es[i].trust.enabled)
    ensures NoCredit(Run(s, es).heat)
    decreases |es|
  {
    if es != [] {
      NoCreditStep(s, es[0]);
      NeverBelowZero(StepOf(s, es[0]).0, es[1..]);
    }
  }

  // ----- What trust can change: the record kept for exempt users

  /** The hypothetical action recorded for an exempt user is untouched by credit, whatever the
      thresholds, exactly when the heat is not negative. */
  lemma TraceUntouchedIff(heat: real, delta: real)
    requires delta >= CLEAN_EPSILON
    ensures
      (forall cfg: HeatConfig :: cfg.Increasing() ==>
         Decide(cfg, heat + delta) == Decide(cfg, (if heat < 0.0 then 0.0 else heat) + delta))
      <==> heat >= 0.0
  {
    if heat < 0.0 {
      var cfg := HeatConfig(_ => 1.0, delta, delta + 1.0, delta + 2.0, delta + 3.0, delta + 4.0, delta + 5.0, 0, 0.0, 0);
      assert cfg.Increasing();
      assert Decide(cfg, 0.0 + delta) == CENSOR;
      assert Decide(cfg, heat + delta) != CENSOR;
    }
  }

  const DEFAULTS := HeatConfig(_ => 0.5, 1.0, 3.0, 6.0, 10.0, 15.0, 25.0, 900, 0.05, 3600)

  /** So with the trust bank on, the same offence of an exempt user can be recorded as milder than it
      is with the bank off; what is enforced, nothing, stays the same. */
  lemma TraceCanSoften() returns (praise: Event, offence: Event)
    ensures praise.Check? && offence.Check? && offence.noheat
    ensures
      var with := Checked(Checked(FRESH, praise).0, offence).1;
      var without := Checked(Checked(FRESH, Untrusting(praise)).0, Untrusting(offence)).1;
      with.traced == CENSOR && without.traced == MUTE && with.action == without.action == NONE
  {
    praise := Check(1, 1, DEFAULTS, "user", 0.0, false, TrustBank(true, 5.0, 10.0));
    offence := Check(1, 1, DEFAULTS, "user", 6.0, true, TrustBank(true, 5.0, 10.0));
    var s, t := Checked(FRESH, praise).0, Checked(FRESH, Untrusting(praise)).0;
    assert HeatOf(s.heat, "user") == -5.0;
    assert HeatOf(t.heat, "user") == 0.0;
  }

  // ----- The object itself

  class Moderator {
    const heat: Heat
    var mutes: map<string, int>
    var noheat: set<string>

    ghost function View(): State
      reads this, heat
    {
      State(heat.state, mutes)
    }

    constructor ()
      ensures fresh(heat) && View() == FRESH && noheat == {}
    {
      heat := new Heat();
      mutes, noheat := map[], {};
    }

    /** The tail of check, once the layers have produced the message's heat. */
    method Check(now: int, sec: int, cfg: HeatConfig, id: string, delta: real, trust: TrustBank)
      returns (verdict: Verdict)
      modifies this, heat
      ensures
        var e := Event.Check(now, sec, cfg, id, delta, id in noheat, trust);
        View() == Checked(old(View()), e).0 && verdict == Checked(old(View()), e).1
      ensures noheat == old(noheat)
    {
      var after;
      if delta < CLEAN_EPSILON {
        if trust.enabled {
          after := heat.AccrueTrust(cfg, now, id, trust.reward, -trust.maxTrust);
        } else {
          after := heat.Peek(cfg, now, id);
        }
        return Verdict(NONE, NONE, after);
      }
      if id in noheat {
        after := heat.Peek(cfg, now, id);
        return Verdict(NONE, Decide(cfg, after + delta), after);
      }
      after := heat.Apply(cfg, now, id, delta);
      var action := Decide(cfg, after);
      if action == MUTE {
        mutes := mutes[id := sec + cfg.muteSeconds];
      }
      verdict := Verdict(action, action, after);
    }

    method ResetState(now: int, cfg: HeatConfig, id: string) returns (cleared: bool)
      modifies this, heat
      ensures View() == StepOf(old(View()), Event.ResetState(now, cfg, id)).0
      ensures Cleared(cleared) == StepOf(old(View()), Event.ResetState(now, cfg, id)).1
      ensures noheat == old(noheat)
    {
      var prior := heat.Peek(cfg, now, id);
      var hadMute := id in mutes;
      mutes := mutes - {id};
      heat.Reset(id);
      assert Peeked(cfg, old(heat.state), now, id) - {id} == old(heat.state) - {id};
      cleared := hadMute || prior > 0.0;
    }

    method Sweep(now: int, sec: int, cfg: HeatConfig)
      modifies this, heat
      ensures View() == StepOf(old(View()), Event.Sweep(now, sec, cfg)).0
      ensures noheat == old(noheat)
    {
      heat.Sweep(cfg, now);
      var rest := mutes.Keys;
      while rest != {}
        invariant rest <= old(mutes).Keys
        invariant heat.state == Swept(cfg, old(heat.state), now) && noheat == old(noheat)
        invariant forall id :: id in mutes <==>
          id in old(mutes) && (id in rest || !(0 < old(mutes)[id] <= sec))
        invariant forall id :: id in mutes ==> mutes[id] == old(mutes)[id]
        decreases rest
      {
        var id :| id in rest;
        if 0 < mutes[id] <= sec {
          mutes := mutes - {id};
        }
        rest := rest - {id};
      }
    }
  }
}
