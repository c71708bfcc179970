/** The per-user heat accumulator (engine/moderation/ModerationHeat.cpp). */
module ModerationHeat {
  // Heat is a real number; exponential decay is any factor between 0 and 1 that depends on the elapsed
  // time.  Times are parameters and never run backwards.

  datatype Action = NONE | LOG | CENSOR | DROP | MUTE | KICK | BAN | PERMA_BAN

  datatype HeatConfig = HeatConfig(
    decay: int -> real,              // factor for a positive number of elapsed milliseconds
    censor: real, drop: real, mute: real, kick: real, ban: real, permaBan: real,
    muteSeconds: int,
    pruneBelow: real,
    sweepIdleSeconds: int)
  {
    ghost predicate Valid() {
      forall ms :: ms > 0 ==> 0.0 <= decay(ms) <= 1.0
    }

    /** The documented order of the thresholds. */
    predicate Increasing() {
      0.0 < censor < drop < mute < kick < ban < permaBan
    }
  }

  datatype Entry = Entry(heat: real, last: int)

  type Table = map<string, Entry>

  function Abs(x: real): real { if x < 0.0 then -x else x }

  /** decay_locked. */
  function Decay(cfg: HeatConfig, e: Entry, now: int): Entry {
    if e.last == 0 then e.(last := now)
    else if now - e.last <= 0 then e
    else
      var h := e.heat * cfg.decay(now - e.last);
      Entry(if Abs(h) < 0.000001 then 0.0 else h, now)
  }

  /** The entry of an id, created on first access. */
  function Lookup(t: Table, id: string): Entry {
    if id in t then t[id] else Entry(0.0, 0)
  }

  function Applied(cfg: HeatConfig, e: Entry, now: int, delta: real): Entry {
    var d := Decay(cfg, e, now);
    d.(heat := (if d.heat < 0.0 then 0.0 else d.heat) + if delta < 0.0 then 0.0 else delta)
  }

  function Trusted(cfg: HeatConfig, e: Entry, now: int, amount: real, floor: real): Entry {
    var d := Decay(cfg, e, now);
    if d.heat > 0.0 then d
    else d.(heat := if d.heat - amount < floor then floor else d.heat - amount)
  }

  function Peeked(cfg: HeatConfig, t: Table, now: int, id: string): Table {
    if id in t then t[id := Decay(cfg, t[id], now)] else t
  }

  /** What accrue_trust leaves: arguments that could not move heat downwards only read. */
  function Accrued(cfg: HeatConfig, t: Table, now: int, id: string, amount: real, floor: real): Table {
    if amount <= 0.0 || floor >= 0.0 then Peeked(cfg, t, now, id)
    else t[id := Trusted(cfg, Lookup(t, id), now, amount, floor)]
  }

  /** sweep decides on idleness before decaying. */
  predicate Pruned(cfg: HeatConfig, e: Entry, now: int) {
    now - e.last > cfg.sweepIdleSeconds * 1000 && Abs(Decay(cfg, e, now).heat) < cfg.pruneBelow
  }

  function Swept(cfg: HeatConfig, t: Table, now: int): Table {
    map id | id in t && !Pruned(cfg, t[id], now) :: Decay(cfg, t[id], now)
  }

  /** The heat of an id as a reader sees it. */
  function HeatOf(t: Table, id: string): real {
    Lookup(t, id).heat
  }

  function Decide(cfg: HeatConfig, heat: real): Action {
    if heat >= cfg.permaBan then PERMA_BAN
    else if heat >= cfg.ban then BAN
    else if heat >= cfg.kick then KICK
    else if heat >= cfg.mute then MUTE
    else if heat >= cfg.drop then DROP
    else if heat >= cfg.censor then CENSOR
    else if heat > 0.0 then LOG
    else NONE
  }

  /** The heat is enough for the action. */
  predicate Reaches(cfg: HeatConfig, heat: real, a: Action) {
    match a
    case NONE => true
    case LOG => heat > 0.0
    case CENSOR => heat >= cfg.censor
    case DROP => heat >= cfg.drop
    case MUTE => heat >= cfg.mute
    case KICK => heat >= cfg.kick
    case BAN => heat >= cfg.ban
    case PERMA_BAN => heat >= cfg.permaBan
  }

  /** How severe an action is. */
  function Rank(a: Action): nat {
    match a
    case NONE => 0 case LOG => 1 case CENSOR => 2 case DROP => 3
    case MUTE => 4 case KICK => 5 case BAN => 6 case PERMA_BAN => 7
  }

  /** The most severe action that the heat is enough for, whatever the order of the thresholds. */
  ghost predicate IsSentence(cfg: HeatConfig, heat: real, a: Action) {
    Reaches(cfg, heat, a) && forall b :: Reaches(cfg, heat, b) ==> Rank(b) <= Rank(a)
  }

  lemma DecideIff(cfg: HeatConfig, heat: real, a: Action)
    ensures Decide(cfg, heat) == a <==> IsSentence(cfg, heat, a)
  {
    forall b | Reaches(cfg, heat, b) ensures Rank(b) <= Rank(Decide(cfg, heat)) {}
  }

  /** The accumulator object. */
  class Heat {
    var state: Table

    constructor ()
      ensures state == map[]
    {
      state := map[];
    }

    method Apply(cfg: HeatConfig, now: int, id: string, delta: real) returns (heat: real)
      modifies this
      ensures state == old(state)[id := Applied(cfg, Lookup(old(state), id), now, delta)]
      ensures heat == HeatOf(state, id)
    {
      var d := if delta < 0.0 then 0.0 else delta;
      var entry := Decay(cfg, Lookup(state, id), now);
      if entry.heat < 0.0 {
        entry := entry.(heat := 0.0);
      }
      entry := entry.(heat := entry.heat + d);
      state := state[id := entry];
      heat := entry.heat;
    }

    method Peek(cfg: HeatConfig, now: int, id: string) returns (heat: real)
      modifies this
      ensures state == Peeked(cfg, old(state), now, id)
      ensures heat == HeatOf(state, id)
    {
      if id !in state {
        return 0.0;
      }
      state := state[id := Decay(cfg, state[id], now)];
      heat := state[id].heat;
    }

    method AccrueTrust(cfg: HeatConfig, now: int, id: string, amount: real, floor: real) returns (heat: real)
      modifies this
      ensures state == Accrued(cfg, old(state), now, id, amount, floor)
      ensures heat == HeatOf(state, id)
    {
      if amount <= 0.0 || floor >= 0.0 {
        heat := Peek(cfg, now, id);
        return;
      }
      var entry := Decay(cfg, Lookup(state, id), now);
      if entry.heat <= 0.0 {
        entry := entry.(heat := entry.heat - amount);
        if entry.heat < floor {
          entry := entry.(heat := floor);
        }
      }
      state := state[id := entry];
      heat := entry.heat;
    }

    method Reset(id: string)
      modifies this
      ensures state == old(state) - {id}
    {
      state := state - {id};
    }

    method Sweep(cfg: HeatConfig, now: int)
      modifies this
      ensures state == Swept(cfg, old(state), now)
    {
      var toErase: set<string> := {};
      var rest := state.Keys;
      while rest != {}
        invariant rest <= state.Keys == old(state).Keys
        invariant forall id :: id in rest ==> state[id] == old(state)[id]
        invariant forall id :: id in old(state).Keys - rest ==> state[id] == Decay(cfg, old(state)[id], now)
        invariant forall id :: id in toErase <==> id in old(state).Keys - rest && Pruned(cfg, old(state)[id], now)
        decreases rest
      {
        var id :| id in rest;
        var idle := now - state[id].last > cfg.sweepIdleSeconds * 1000;
        state := state[id := Decay(cfg, state[id], now)];
        if Abs(state[id].heat) < cfg.pruneBelow && idle {
          toErase := toErase + {id};
        }
        rest := rest - {id};
      }
      state := state - toErase;
    }
  }

  // ----- The relation between a run with more and a run with less trust

  /** Equal wherever heat is positive: the heats are equal once trust credit is read as zero, and a
      positive heat was updated at the same time. */
  ghost predicate Agree(s: Table, t: Table) {
    forall id :: AgreeAt(Lookup(s, id), Lookup(t, id))
  }

  predicate AgreeAt(e: Entry, f: Entry) {
    if e.heat > 0.0 || f.heat > 0.0 then e == f else true
  }

  /** No entry was updated after `now`. */
  ghost predicate Past(t: Table, now: int) {
    forall id :: id in t ==> t[id].last <= now
  }

  lemma DecaySign(cfg: HeatConfig, e: Entry, now: int)
    requires cfg.Valid()
    ensures e.heat <= 0.0 ==> Decay(cfg, e, now).heat <= 0.0
    ensures e.heat >= 0.0 ==> Decay(cfg, e, now).heat >= 0.0
    ensures e.last <= now ==> Decay(cfg, e, now).last <= now
  {
    if e.last != 0 && now - e.last > 0 {
      var f := cfg.decay(now - e.last);
      assert e.heat <= 0.0 ==> e.heat * f <= 0.0;
      assert e.heat >= 0.0 ==> e.heat * f >= 0.0;
    }
  }

  lemma DecayAgrees(cfg: HeatConfig, e: Entry, f: Entry, now: int)
    requires cfg.Valid() && AgreeAt(e, f)
    ensures AgreeAt(Decay(cfg, e, now), Decay(cfg, f, now))
  {
    DecaySign(cfg, e, now);
    DecaySign(cfg, f, now);
  }

  /** apply gives the same entry on both sides: credit is wiped, and the time is `now` either way. */
  lemma AppliedSame(cfg: HeatConfig, e: Entry, f: Entry, now: int, delta: real)
    requires cfg.Valid() && AgreeAt(e, f) && (e.last == 0 || e.last <= now) && (f.last == 0 || f.last <= now)
    ensures Applied(cfg, e, now, delta) == Applied(cfg, f, now, delta)
  {
    DecaySign(cfg, e, now);
    DecaySign(cfg, f, now);
  }
}
