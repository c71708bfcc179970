/** Hot reload of the content lists (apps/kagami/ConfigReloader.cpp): sessions, character selections and
    area states are carried over from the old lists to the new ones. */
module ConfigReloader {
  // The hash that makes an area's identifier from its name, and the slug that makes its path, are
  // functions of the name about which nothing is assumed.

  datatype Library = Library(hash: string -> string, slug: string -> string)

  // ----- sessions and characters

  /** Where a session of some area is after the areas `gone` have been looked at. */
  function MovedTo(area: string, gone: seq<string>, areas: seq<string>): (r: string)
    requires areas != []
    ensures area in gone ==> r in areas
    ensures r == area || r in areas
  {
    if area in gone && area !in areas then areas[0] else area
  }

  /** The last index of a character of that name, or -1. */
  function LastIndex(characters: seq<string>, name: string): (i: int)
    ensures -1 <= i < |characters|
    ensures i >= 0 ==> characters[i] == name
    ensures forall k :: i < k < |characters| ==> characters[k] != name
  {
    if characters == [] then -1
    else if characters[|characters| - 1] == name then |characters| - 1
    else LastIndex(characters[..|characters| - 1], name)
  }

  /** A selection by index into the old list as one into the new list. */
  function Remapped(c: int, old_: seq<string>, new_: seq<string>): (r: int)
    ensures r < |new_|
    ensures 0 <= c < |old_| && r >= 0 ==> new_[r] == old_[c]
    ensures 0 <= c < |old_| && r < 0 ==> r == -1 && old_[c] !in new_
    ensures c >= |old_| ==> r == -1
    ensures c < 0 ==> r == c
  {
    if c < 0 then c
    else if c >= |old_| then -1
    else LastIndex(new_, old_[c])
  }

  /** The session held a character of the old list whose name is gone. */
  predicate LosesCharacter(c: int, old_: seq<string>, new_: seq<string>) {
    0 <= c < |old_| && old_[c] !in new_
  }

  /** A selection is lost exactly when there was one and it comes out as none. */
  lemma LosesIff(c: int, old_: seq<string>, new_: seq<string>)
    requires c < |old_|
    ensures LosesCharacter(c, old_, new_) <==> c >= 0 && Remapped(c, old_, new_) < 0
  {
  }

  /** How many selections are lost. */
  function Losses(cs: seq<int>, old_: seq<string>, new_: seq<string>): nat {
    if cs == [] then 0
    else Losses(cs[..|cs| - 1], old_, new_) + if LosesCharacter(cs[|cs| - 1], old_, new_) then 1 else 0
  }

  /** How many sessions were in an area that is gone. */
  function Displaced(was: seq<string>, gone: seq<string>, areas: seq<string>): nat {
    if was == [] then 0
    else Displaced(was[..|was| - 1], gone, areas) + if was[|was| - 1] in gone && was[|was| - 1] !in areas then 1 else 0
  }

  /** How many sessions are in an area. */
  function InArea(now: seq<string>, area: string): nat {
    if now == [] then 0
    else InArea(now[..|now| - 1], area) + if now[|now| - 1] == area then 1 else 0
  }

  /** Nobody is counted twice, even when an old area is listed twice. */
  lemma {:induction false} DisplacedMore(was: seq<string>, now: seq<string>, gone: seq<string>, area: string, areas: seq<string>)
    requires areas != [] && |was| == |now| && area !in areas
    requires forall k :: 0 <= k < |was| ==> now[k] == MovedTo(was[k], gone, areas)
    ensures Displaced(was, gone + [area], areas) == Displaced(was, gone, areas) + InArea(now, area)
  {
    if was != [] {
      var n := |was| - 1;
      DisplacedMore(was[..n], now[..n], gone, area, areas);
    }
  }

  lemma {:induction false} DisplacedSame(was: seq<string>, gone: seq<string>, area: string, areas: seq<string>)
    requires area in areas
    ensures Displaced(was, gone + [area], areas) == Displaced(was, gone, areas)
  {
    if was != [] {
      DisplacedSame(was[..|was| - 1], gone, area, areas);
    }
  }

  // ----- areas

  datatype Background = Background(name: string, manifestHash: string, position: string)
  datatype Music = Music(name: string, assetHash: string, looping: bool, channel: int)
  datatype Hp = Hp(defense: int, prosecution: int)
  datatype Timer = Timer(valueMs: int, running: bool)
  datatype Evidence = Evidence(name: string, description: string, image: string)
  datatype Testimony = Testimony(state: nat, statements: seq<string>, currentIndex: int)
  datatype LockMode = Free | Locked | Spectatable

  datatype AreaState = AreaState(
    id: string, name: string, path: string,
    status: string, lockMode: LockMode, background: Background, music: Music, hp: Hp, timers: map<int, Timer>,
    evidence: seq<Evidence>, testimony: Testimony, cmOwners: set<nat>, cm: string, invited: set<nat>, bgLocked: bool)

  datatype AreaConfig = AreaConfig(name: string, background: string, bgLocked: bool)

  datatype Content = Content(characters: seq<string>, music: seq<string>, areaNames: seq<string>, areaConfigs: seq<AreaConfig>)

  /** An area as it is when it has just been listed. */
  function Fresh(lib: Library, name: string): AreaState {
    AreaState(lib.hash(name), name, lib.slug(name), "IDLE", Free, Background("", "", ""), Music("", "", false, 0),
              Hp(10, 10), map[], [], Testimony(0, [], -1), {}, "", {}, false)
  }

  /** The index of a list of areas: the first name of each identifier has the state. */
  function Indexed(lib: Library, names: seq<string>): map<string, AreaState> {
    if names == [] then map[]
    else
      var m, name := Indexed(lib, names[..|names| - 1]), names[|names| - 1];
      if lib.hash(name) in m then m else m[lib.hash(name) := Fresh(lib, name)]
  }

  function IdsByName(lib: Library, names: seq<string>): map<string, string> {
    map name | name in names :: lib.hash(name)
  }

  function LastIndexByName(names: seq<string>): map<string, int> {
    map name | name in names :: LastIndex(names, name)
  }

  /** Every state is filed under its own identifier, which is the hash of its name. */
  ghost predicate Filed(lib: Library, states: map<string, AreaState>) {
    forall id :: id in states ==> states[id].id == id && lib.hash(states[id].name) == id
  }

  /** The states by name. */
  ghost predicate ByName(states: map<string, AreaState>, preserved: map<string, AreaState>) {
    && (forall id :: id in states ==> states[id].name in preserved && preserved[states[id].name] == states[id])
    && (forall name :: name in preserved ==> exists id :: id in states && states[id].name == name)
  }

  /** A state with everything but its identity taken from another one. */
  function Restored(s: AreaState, from: AreaState): AreaState {
    s.(status := from.status, lockMode := from.lockMode, background := from.background, music := from.music, hp := from.hp,
       timers := from.timers, evidence := from.evidence, testimony := from.testimony, cmOwners := from.cmOwners,
       cm := from.cm, invited := from.invited, bgLocked := from.bgLocked)
  }

  function RestoredAll(states: map<string, AreaState>, preserved: map<string, AreaState>): map<string, AreaState> {
    map id | id in states ::
      if states[id].name in preserved then Restored(states[id], preserved[states[id].name]) else states[id]
  }

  function WithConfig(s: AreaState, c: AreaConfig): AreaState {
    s.(background := s.background.(name := c.background), bgLocked := c.bgLocked)
  }

  /** The settings file is applied to areas that are listed and were not there before. */
  function ConfiguredOne(ids: map<string, string>, preserved: map<string, AreaState>, states: map<string, AreaState>, c: AreaConfig): map<string, AreaState> {
    if c.name in ids && ids[c.name] in states && c.name !in preserved
    then states[ids[c.name] := WithConfig(states[ids[c.name]], c)]
    else states
  }

  function Configured(ids: map<string, string>, preserved: map<string, AreaState>, states: map<string, AreaState>, configs: seq<AreaConfig>): map<string, AreaState> {
    if configs == [] then states
    else ConfiguredOne(ids, preserved, Configured(ids, preserved, states, configs[..|configs| - 1]), configs[|configs| - 1])
  }

  // ----- what becomes of one area

  /** No two listed names have the same identifier. */
  ghost predicate DistinctIds(lib: Library, names: seq<string>) {
    forall a, b :: a in names && b in names && lib.hash(a) == lib.hash(b) ==> a == b
  }

  function ConfigFor(s: AreaState, configs: seq<AreaConfig>): AreaState {
    if configs == [] then s
    else
      var t, c := ConfigFor(s, configs[..|configs| - 1]), configs[|configs| - 1];
      if c.name == s.name then WithConfig(t, c) else t
  }

  lemma {:induction false} ConfigForName(s: AreaState, configs: seq<AreaConfig>)
    ensures ConfigFor(s, configs).name == s.name
  {
    if configs != [] {
      ConfigForName(s, configs[..|configs| - 1]);
    }
  }

  /** An area that was there keeps its runtime state; a new one begins fresh, with its settings. */
  function Carried(lib: Library, before: map<string, AreaState>, name: string, configs: seq<AreaConfig>): AreaState {
    if lib.hash(name) in before && before[lib.hash(name)].name == name
    then Restored(Fresh(lib, name), before[lib.hash(name)])
    else ConfigFor(Fresh(lib, name), configs)
  }

  lemma {:induction false} IndexedKeys(lib: Library, names: seq<string>, id: string)
    ensures id in Indexed(lib, names) <==> exists name :: name in names && lib.hash(name) == id
  {
    if names != [] {
      var n := |names| - 1;
      IndexedKeys(lib, names[..n], id);
      assert names == names[..n] + [names[n]];
    }
  }

  lemma {:induction false} IndexedFiled(lib: Library, names: seq<string>)
    ensures Filed(lib, Indexed(lib, names))
    ensures forall id :: id in Indexed(lib, names) ==> Indexed(lib, names)[id] == Fresh(lib, Indexed(lib, names)[id].name)
    ensures forall id :: id in Indexed(lib, names) ==> Indexed(lib, names)[id].name in names
  {
    if names != [] {
      var n := |names| - 1;
      IndexedFiled(lib, names[..n]);
      assert names == names[..n] + [names[n]];
    }
  }

  lemma IndexedAt(lib: Library, names: seq<string>, name: string)
    requires DistinctIds(lib, names) && name in names
    ensures lib.hash(name) in Indexed(lib, names) && Indexed(lib, names)[lib.hash(name)] == Fresh(lib, name)
  {
    IndexedKeys(lib, names, lib.hash(name));
    IndexedFiled(lib, names);
  }

  lemma PreservedIff(lib: Library, before: map<string, AreaState>, preserved: map<string, AreaState>, name: string)
    requires Filed(lib, before) && ByName(before, preserved)
    ensures name in preserved <==> lib.hash(name) in before && before[lib.hash(name)].name == name
    ensures name in preserved ==> preserved[name] == before[lib.hash(name)]
  {
    if name in preserved {
      var id :| id in before && before[id].name == name;
    }
  }

  /** The settings of one area, among all of them. */
  lemma {:induction false} ConfiguredAt(lib: Library, names: seq<string>, preserved: map<string, AreaState>, states: map<string, AreaState>,
                                        configs: seq<AreaConfig>, name: string)
    requires DistinctIds(lib, names) && name in names && lib.hash(name) in states && states[lib.hash(name)].name == name
    ensures var after := Configured(IdsByName(lib, names), preserved, states, configs);
      && after.Keys == states.Keys
      && after[lib.hash(name)] == if name in preserved then states[lib.hash(name)] else ConfigFor(states[lib.hash(name)], configs)
  {
    if configs != [] {
      var rest := configs[..|configs| - 1];
      ConfiguredAt(lib, names, preserved, states, rest, name);
      ConfigForName(states[lib.hash(name)], rest);
    }
  }

  /** Every listed area has the state it should have, under its identifier. */
  lemma StateCarried(lib: Library, before: map<string, AreaState>, preserved: map<string, AreaState>, names: seq<string>,
                     configs: seq<AreaConfig>, name: string)
    requires Filed(lib, before) && ByName(before, preserved) && DistinctIds(lib, names) && name in names
    ensures var after := Configured(IdsByName(lib, names), preserved, RestoredAll(Indexed(lib, names), preserved), configs);
      && lib.hash(name) in after && after[lib.hash(name)] == Carried(lib, before, name, configs)
  {
    var built := Indexed(lib, names);
    IndexedAt(lib, names, name);
    PreservedIff(lib, before, preserved, name);
    ConfiguredAt(lib, names, preserved, RestoredAll(built, preserved), configs, name);
  }

  /** What players see of an area that stays: every runtime field is as it was. */
  ghost predicate SameRuntime(now: AreaState, was: AreaState) {
    && now.status == was.status && now.lockMode == was.lockMode
    && now.background == was.background && now.bgLocked == was.bgLocked && now.music == was.music
    && now.hp == was.hp && now.timers == was.timers
    && now.evidence == was.evidence && now.testimony == was.testimony
    && now.cm == was.cm && now.cmOwners == was.cmOwners && now.invited == was.invited
  }

  /** What it is called follows from its name. */
  ghost predicate NamedAfter(lib: Library, s: AreaState, name: string) {
    s.id == lib.hash(name) && s.name == name && s.path == lib.slug(name)
  }

  /** The place of the last setting for a name, or -1. */
  function LastConfig(configs: seq<AreaConfig>, name: string): (k: int)
    ensures -1 <= k < |configs|
    ensures k >= 0 ==> configs[k].name == name
    ensures forall j :: k < j < |configs| ==> configs[j].name != name
  {
    if configs == [] then -1
    else if configs[|configs| - 1].name == name then |configs| - 1
    else LastConfig(configs[..|configs| - 1], name)
  }

  /** Nothing has happened in a new area: only its background and whether that is locked are set. */
  ghost predicate Untouched(s: AreaState, background: string, bgLocked: bool) {
    && s.status == "IDLE" && s.lockMode == Free && s.hp.defense == 10 && s.hp.prosecution == 10
    && s.timers == map[] && s.evidence == [] && s.testimony == Testimony(0, [], -1)
    && s.cm == "" && s.cmOwners == {} && s.invited == {} && s.music == Music("", "", false, 0)
    && s.background == Background(background, "", "") && s.bgLocked == bgLocked
  }

  lemma {:induction false} NewAreaSettings(lib: Library, name: string, configs: seq<AreaConfig>)
    ensures
      var s, k := ConfigFor(Fresh(lib, name), configs), LastConfig(configs, name);
      && NamedAfter(lib, s, name)
      && (if k >= 0 then Untouched(s, configs[k].background, configs[k].bgLocked) else Untouched(s, "", false))
  {
    if configs != [] {
      NewAreaSettings(lib, name, configs[..|configs| - 1]);
      ConfigForName(Fresh(lib, name), configs[..|configs| - 1]);
    }
  }

  /** Field by field: an area that was there under this name keeps all that players did in it, whatever the
      settings say; any other one begins untouched, with the last settings for its name. */
  lemma AreaAfterReload(lib: Library, before: map<string, AreaState>, after: map<string, AreaState>, names: seq<string>,
                        configs: seq<AreaConfig>, name: string)
    requires AreasCarried(lib, before, after, names, configs) && DistinctIds(lib, names) && name in names
    ensures lib.hash(name) in after && NamedAfter(lib, after[lib.hash(name)], name)
    ensures
      var now, id, k := after[lib.hash(name)], lib.hash(name), LastConfig(configs, name);
      if id in before && before[id].name == name then SameRuntime(now, before[id])
      else if k >= 0 then Untouched(now, configs[k].background, configs[k].bgLocked)
      else Untouched(now, "", false)
  {
    NewAreaSettings(lib, name, configs);
  }

  lemma AreasCarry(lib: Library, before: map<string, AreaState>, preserved: map<string, AreaState>,
                   names: seq<string>, configs: seq<AreaConfig>)
    requires Filed(lib, before) && ByName(before, preserved)
    ensures
      var after := Configured(IdsByName(lib, names), preserved, RestoredAll(Indexed(lib, names), preserved), configs);
      AreasCarried(lib, before, after, names, configs)
  {
    var restored := RestoredAll(Indexed(lib, names), preserved);
    var after := Configured(IdsByName(lib, names), preserved, restored, configs);
    IndexedFiled(lib, names);
    ConfiguredKeeps(lib, IdsByName(lib, names), preserved, restored, configs);
    if DistinctIds(lib, names) {
      forall name | name in names
        ensures lib.hash(name) in after && after[lib.hash(name)] == Carried(lib, before, name, configs)
      {
        StateCarried(lib, before, preserved, names, configs, name);
      }
    }
  }

  /** The states are those of the listed areas, and each is what it should be. */
  ghost predicate AreasCarried(lib: Library, before: map<string, AreaState>, after: map<string, AreaState>, names: seq<string>, configs: seq<AreaConfig>) {
    && Filed(lib, after) && after.Keys == Indexed(lib, names).Keys
    && (DistinctIds(lib, names) ==> forall name :: name in names ==>
          lib.hash(name) in after && after[lib.hash(name)] == Carried(lib, before, name, configs))
  }

  lemma {:induction false} ConfiguredKeeps(lib: Library, ids: map<string, string>, preserved: map<string, AreaState>, states: map<string, AreaState>, configs: seq<AreaConfig>)
    requires Filed(lib, states)
    ensures Filed(lib, Configured(ids, preserved, states, configs)) && Configured(ids, preserved, states, configs).Keys == states.Keys
  {
    if configs != [] {
      ConfiguredKeeps(lib, ids, preserved, states, configs[..|configs| - 1]);
    }
  }

  // ----- the room and its sessions

  class ServerSession {
    var area: string
    var characterId: int

    constructor (area: string, characterId: int)
      ensures this.area == area && this.characterId == characterId
    {
      this.area, this.characterId := area, characterId;
    }
  }

  ghost predicate Distinct(sessions: seq<ServerSession>) {
    forall i, j :: 0 <= i < j < |sessions| ==> sessions[i] != sessions[j]
  }

  ghost function AreasOf(sessions: seq<ServerSession>): (r: seq<string>)
    reads sessions
    ensures |r| == |sessions| && forall k :: 0 <= k < |r| ==> r[k] == sessions[k].area
  {
    seq(|sessions|, k requires 0 <= k < |sessions| reads sessions => sessions[k].area)
  }

  ghost function CharactersOf(sessions: seq<ServerSession>): (r: seq<int>)
    reads sessions
    ensures |r| == |sessions| && forall k :: 0 <= k < |r| ==> r[k] == sessions[k].characterId
  {
    seq(|sessions|, k requires 0 <= k < |sessions| reads sessions => sessions[k].characterId)
  }

  /** The areas of all sessions after some old areas have been looked at. */
  ghost predicate MovedAll(was: seq<string>, now: seq<string>, gone: seq<string>, areas: seq<string>)
    requires areas != []
  {
    |was| == |now| && forall k :: 0 <= k < |was| ==> now[k] == MovedTo(was[k], gone, areas)
  }

  ghost predicate RemappedAll(was: seq<int>, now: seq<int>, old_: seq<string>, new_: seq<string>) {
    |was| == |now| && forall k :: 0 <= k < |was| ==> now[k] == Remapped(was[k], old_, new_)
  }

  /** Lost selections dropped, and the others as they were. */
  ghost predicate KeptAll(was: seq<int>, now: seq<int>, old_: seq<string>, new_: seq<string>) {
    |was| == |now| && forall k :: 0 <= k < |was| ==> now[k] == if LosesCharacter(was[k], old_, new_) then -1 else was[k]
  }

  /** The same, with only the first `n` sessions visited. */
  ghost predicate KeptTo(was: seq<int>, now: seq<int>, n: nat, old_: seq<string>, new_: seq<string>) {
    && n <= |was| == |now|
    && KeptAll(was[..n], now[..n], old_, new_)
    && now[n..] == was[n..]
  }

  /** One more session is visited, and one more selection may be lost. */
  lemma KeptOneMore(was: seq<int>, now: seq<int>, i: nat, old_: seq<string>, new_: seq<string>)
    requires i < |was| && KeptTo(was, now, i, old_, new_)
    ensures
      var lost := LosesCharacter(was[i], old_, new_);
      && now[i] == was[i]
      && KeptTo(was, now[i := if lost then -1 else was[i]], i + 1, old_, new_)
      && Losses(was[..i + 1], old_, new_) == Losses(was[..i], old_, new_) + if lost then 1 else 0
  {
    assert now[i] == now[i..][0] == was[i..][0] == was[i];
    assert was[..i + 1][..i] == was[..i];
    var now' := now[i := if LosesCharacter(was[i], old_, new_) then -1 else was[i]];
    assert now'[..i] == now[..i] && now'[i + 1..] == now[i..][1..] == was[i..][1..] == was[i + 1..];
    assert now'[..i + 1] == now'[..i] + [now'[i]] && was[..i + 1] == was[..i] + [was[i]];
  }

  /** Dropping lost selections first makes no difference to where the others go. */
  lemma RemapAfterUnselect(was: seq<int>, kept: seq<int>, now: seq<int>, old_: seq<string>, new_: seq<string>)
    requires KeptAll(was, kept, old_, new_)
    requires RemappedAll(kept, now, old_, new_)
    ensures RemappedAll(was, now, old_, new_)
  {
    forall k | 0 <= k < |was| ensures now[k] == Remapped(was[k], old_, new_) {
      assert now[k] == Remapped(kept[k], old_, new_);
    }
  }

  /** A character is marked as taken exactly when some session holds it. */
  ghost predicate TakenExactly(taken: seq<int>, held: seq<int>, size: nat) {
    |taken| == size && forall i :: 0 <= i < size ==> (taken[i] != 0 <==> i in held)
  }

  /** The indexes of a list that one more name is added to. */
  lemma IndexMore(lib: Library, names: seq<string>, name: string)
    ensures Indexed(lib, names + [name]) ==
      if lib.hash(name) in Indexed(lib, names) then Indexed(lib, names) else Indexed(lib, names)[lib.hash(name) := Fresh(lib, name)]
  {
    assert (names + [name])[..|names|] == names;
  }

  lemma NamesMore(lib: Library, names: seq<string>, name: string)
    ensures IdsByName(lib, names + [name]) == IdsByName(lib, names)[name := lib.hash(name)]
  {
  }

  lemma LastMore(names: seq<string>, name: string)
    ensures LastIndexByName(names + [name]) == LastIndexByName(names)[name := |names|]
  {
    assert (names + [name])[..|names|] == names;
  }

  /** The marks after one more session. */
  function Marked(taken: seq<int>, c: int): (r: seq<int>)
    ensures |r| == |taken|
  {
    if 0 <= c < |taken| then taken[c := 1] else taken
  }

  lemma MarksOneMore(taken: seq<int>, held: seq<int>, c: int, size: nat)
    requires TakenExactly(taken, held, size) && c < size
    ensures TakenExactly(Marked(taken, c), held + [c], size)
  {
  }

  /** After a reload: the same character by name, and marked; or none, if it is gone. */
  lemma HolderKeepsCharacter(was: seq<int>, now: seq<int>, taken: seq<int>, old_: seq<string>, new_: seq<string>, k: nat)
    requires RemappedAll(was, now, old_, new_) && TakenExactly(taken, now, |new_|)
    requires k < |was| && 0 <= was[k] < |old_|
    ensures if old_[was[k]] in new_
      then 0 <= now[k] < |new_| && new_[now[k]] == old_[was[k]] && taken[now[k]] != 0
      else now[k] == -1
  {
    assert now[k] == Remapped(was[k], old_, new_);
    assert now[k] in now;
  }

  /** Nobody comes to share a character with somebody who held another one. */
  lemma NoNewSharing(was: seq<int>, now: seq<int>, old_: seq<string>, new_: seq<string>, i: nat, j: nat)
    requires RemappedAll(was, now, old_, new_) && i < |was| && j < |was|
    requires now[i] == now[j] >= 0
    ensures 0 <= was[i] < |old_| && 0 <= was[j] < |old_| && old_[was[i]] == old_[was[j]]
  {
    assert now[i] == Remapped(was[i], old_, new_) && now[j] == Remapped(was[j], old_, new_);
  }

  /** Reloading the same list leaves a selection alone exactly when no later character has its name. */
  lemma SameListIff(characters: seq<string>, c: nat)
    requires c < |characters|
    ensures Remapped(c, characters, characters) == c <==> forall k :: c < k < |characters| ==> characters[k] != characters[c]
  {
    assert Remapped(c, characters, characters) >= c;
  }

  /** Everybody who was in an old area is in a listed one, and everybody else stays. */
  lemma EverybodyListed(was: seq<string>, now: seq<string>, gone: seq<string>, areas: seq<string>, k: nat)
    requires areas != [] && MovedAll(was, now, gone, areas) && k < |was|
    ensures if was[k] in gone then now[k] in areas else now[k] == was[k]
    ensures was[k] in areas ==> now[k] == was[k]
  {
    assert now[k] == MovedTo(was[k], gone, areas);
  }

  class GameRoom {
    const lib: Library
    var sessions: seq<ServerSession>
    var characters: seq<string>
    var music: seq<string>
    var areas: seq<string>
    var charTaken: seq<int>
    var areaStates: map<string, AreaState>
    var areaNameToId: map<string, string>
    var areaNameToIndex: map<string, int>

    constructor (lib: Library)
      ensures sessions == [] && characters == [] && areas == [] && areaStates == map[]
    {
      this.lib := lib;
      sessions, characters, music, areas, charTaken := [], [], [], [], [];
      areaStates, areaNameToId, areaNameToIndex := map[], map[], map[];
    }

    method ResetTaken()
      modifies this`charTaken
      ensures charTaken == seq(|characters|, i => 0)
    {
      charTaken := seq(|characters|, i => 0);
    }

    method BuildAreaIndex()
      modifies this`areaStates, this`areaNameToId, this`areaNameToIndex
      ensures areaStates == Indexed(lib, areas)
      ensures areaNameToId == IdsByName(lib, areas)
      ensures areaNameToIndex == LastIndexByName(areas)
    {
      areaStates, areaNameToId, areaNameToIndex := map[], map[], map[];
      for i := 0 to |areas|
        invariant areaStates == Indexed(lib, areas[..i])
        invariant areaNameToId == IdsByName(lib, areas[..i])
        invariant areaNameToIndex == LastIndexByName(areas[..i])
      {
        var name := areas[i];
        IndexMore(lib, areas[..i], name);
        NamesMore(lib, areas[..i], name);
        LastMore(areas[..i], name);
        assert areas[..i + 1] == areas[..i] + [name];
        areaNameToId := areaNameToId[name := lib.hash(name)];
        areaNameToIndex := areaNameToIndex[name := i];
        if lib.hash(name) !in areaStates {
          areaStates := areaStates[lib.hash(name) := Fresh(lib, name)];
        }
      }
      assert areas[..|areas|] == areas;
    }

    /** The identifier under which an area of that name is filed, if there is one. */
    method FindAreaByName(name: string) returns (found: bool, id: string)
      ensures found <==> name in areaNameToId && areaNameToId[name] in areaStates
      ensures found ==> id == areaNameToId[name]
    {
      if name !in areaNameToId { return false, ""; }
      id := areaNameToId[name];
      found := id in areaStates;
    }

    method SessionsInArea(area: string) returns (result: seq<ServerSession>)
      ensures forall s :: s in result <==> s in sessions && s.area == area
      ensures forall k :: 0 <= k < |result| ==> result[k] in sessions
      ensures |result| == InArea(AreasOf(sessions), area)
    {
      result := [];
      ghost var now := AreasOf(sessions);
      for i := 0 to |sessions|
        invariant forall s :: s in result <==> s in sessions[..i] && s.area == area
        invariant |result| == InArea(now[..i], area)
      {
        assert now[..i + 1][..i] == now[..i];
        assert sessions[..i + 1] == sessions[..i] + [sessions[i]];
        if sessions[i].area == area {
          result := result + [sessions[i]];
        }
      }
      assert now[..|sessions|] == now && sessions[..|sessions|] == sessions;
    }

    /** The first phase: players in areas that are gone move to the first listed area. */
    method Relocate(oldAreas: seq<string>, newAreas: seq<string>) returns (relocated: nat)
      requires newAreas != []
      modifies sessions
      ensures MovedAll(old(AreasOf(sessions)), AreasOf(sessions), oldAreas, newAreas)
      ensures CharactersOf(sessions) == old(CharactersOf(sessions))
      ensures relocated == Displaced(old(AreasOf(sessions)), oldAreas, newAreas)
    {
      ghost var was := AreasOf(sessions);
      relocated := 0;
      NoneDisplaced(was, newAreas);
      for i := 0 to |oldAreas|
        invariant MovedAll(was, AreasOf(sessions), oldAreas[..i], newAreas)
        invariant CharactersOf(sessions) == old(CharactersOf(sessions))
        invariant relocated == Displaced(was, oldAreas[..i], newAreas)
      {
        var moved := RelocateFrom(oldAreas[i], newAreas, was, oldAreas[..i]);
        relocated := relocated + moved;
        assert oldAreas[..i + 1] == oldAreas[..i] + [oldAreas[i]];
      }
      assert oldAreas[..|oldAreas|] == oldAreas;
    }

    /** One turn of the outer loop: everybody in one old area, if that is gone. */
    method RelocateFrom(area: string, newAreas: seq<string>, ghost was: seq<string>, ghost gone: seq<string>) returns (moved: nat)
      requires newAreas != [] && MovedAll(was, AreasOf(sessions), gone, newAreas)
      modifies sessions
      ensures MovedAll(was, AreasOf(sessions), gone + [area], newAreas)
      ensures CharactersOf(sessions) == old(CharactersOf(sessions))
      ensures Displaced(was, gone, newAreas) + moved == Displaced(was, gone + [area], newAreas)
    {
      moved := 0;
      if area in newAreas {
        DisplacedSame(was, gone, area, newAreas);
      } else {
        DisplacedMore(was, AreasOf(sessions), gone, area, newAreas);
        moved := MoveFrom(area, newAreas[0]);
      }
    }

    method MoveFrom(area: string, to: string) returns (moved: nat)
      modifies sessions
      ensures CharactersOf(sessions) == old(CharactersOf(sessions))
      ensures forall k :: 0 <= k < |sessions| ==> sessions[k].area == if old(sessions[k].area) == area then to else old(sessions[k].area)
      ensures moved == InArea(old(AreasOf(sessions)), area)
    {
      var found := SessionsInArea(area);
      MoveTo(found, to);
      moved := |found|;
    }

    lemma {:induction false} NoneDisplaced(was: seq<string>, newAreas: seq<string>)
      ensures Displaced(was, [], newAreas) == 0
    {
      if was != [] {
        NoneDisplaced(was[..|was| - 1], newAreas);
      }
    }

    static method MoveTo(found: seq<ServerSession>, area: string)
      modifies found
      ensures forall s :: s in found ==> s.area == area && s.characterId == old(s.characterId)
    {
      for j := 0 to |found|
        invariant forall k :: 0 <= k < j ==> found[k].area == area
        invariant forall s :: s in found ==> s.characterId == old(s.characterId)
      {
        found[j].area := area;
      }
    }

    /** The second phase: selections of characters that are gone are dropped. */
    method Unselect(oldCharacters: seq<string>, newCharacters: seq<string>) returns (unselected: nat)
      requires Distinct(sessions)
      modifies sessions
      ensures AreasOf(sessions) == old(AreasOf(sessions))
      ensures KeptAll(old(CharactersOf(sessions)), CharactersOf(sessions), oldCharacters, newCharacters)
      ensures unselected == Losses(old(CharactersOf(sessions)), oldCharacters, newCharacters)
    {
      ghost var was := CharactersOf(sessions);
      unselected := 0;
      for i := 0 to |sessions|
        invariant AreasOf(sessions) == old(AreasOf(sessions))
        invariant KeptTo(was, CharactersOf(sessions), i, oldCharacters, newCharacters)
        invariant unselected == Losses(was[..i], oldCharacters, newCharacters)
      {
        KeptOneMore(was, CharactersOf(sessions), i, oldCharacters, newCharacters);
        var lost := UnselectAt(i, oldCharacters, newCharacters);
        if lost {
          unselected := unselected + 1;
        }
      }
      ghost var now := CharactersOf(sessions);
      assert was[..|sessions|] == was && now[..|sessions|] == now;
    }

    /** One turn of the loop. */
    method UnselectAt(i: nat, oldCharacters: seq<string>, newCharacters: seq<string>) returns (lost: bool)
      requires Distinct(sessions) && i < |sessions|
      modifies sessions
      ensures AreasOf(sessions) == old(AreasOf(sessions))
      ensures lost == LosesCharacter(old(CharactersOf(sessions))[i], oldCharacters, newCharacters)
      ensures CharactersOf(sessions)
           == old(CharactersOf(sessions))[i := if lost then -1 else old(CharactersOf(sessions))[i]]
    {
      lost := UnselectOne(sessions[i], oldCharacters, newCharacters);
    }

    static method UnselectOne(session: ServerSession, oldCharacters: seq<string>, newCharacters: seq<string>) returns (lost: bool)
      modifies session`characterId
      ensures lost == LosesCharacter(old(session.characterId), oldCharacters, newCharacters)
      ensures session.characterId == if lost then -1 else old(session.characterId)
    {
      var c := session.characterId;
      lost := 0 <= c < |oldCharacters| && oldCharacters[c] !in newCharacters;
      if lost {
        session.characterId := -1;
      }
    }

    /** The last phase: the selections that are left become indexes into the new list, and are marked. */
    method Remap(oldCharacters: seq<string>)
      requires Distinct(sessions) && charTaken == seq(|characters|, i => 0)
      modifies this`charTaken, sessions
      ensures AreasOf(sessions) == old(AreasOf(sessions))
      ensures RemappedAll(old(CharactersOf(sessions)), CharactersOf(sessions), oldCharacters, characters)
      ensures TakenExactly(charTaken, CharactersOf(sessions), |characters|)
    {
      var index := IndexByName(characters);
      ghost var was := CharactersOf(sessions);
      ghost var held: seq<int> := [];
      for i := 0 to |sessions|
        invariant AreasOf(sessions) == old(AreasOf(sessions))
        invariant forall k :: i <= k < |sessions| ==> sessions[k].characterId == was[k]
        invariant |held| == i && forall k :: 0 <= k < i ==> sessions[k].characterId == held[k] == Remapped(was[k], oldCharacters, characters)
        invariant TakenExactly(charTaken, held, |characters|)
      {
        ghost var taken := charTaken;
        RemapOne(sessions[i], oldCharacters, index);
        MarksOneMore(taken, held, sessions[i].characterId, |characters|);
        held := held + [sessions[i].characterId];
      }
      assert held == CharactersOf(sessions);
    }

    method RemapOne(session: ServerSession, oldCharacters: seq<string>, index: map<string, int>)
      requires index == LastIndexByName(characters) && |charTaken| == |characters|
      modifies this`charTaken, session`characterId
      ensures session.characterId == Remapped(old(session.characterId), oldCharacters, characters)
      ensures charTaken == Marked(old(charTaken), session.characterId)
    {
      var c := session.characterId;
      if c < 0 { return; }
      if c >= |oldCharacters| {
        session.characterId := -1;
        return;
      }
      if oldCharacters[c] in index {
        var next := index[oldCharacters[c]];
        IndexFound(oldCharacters[c]);
        session.characterId := next;
        if next < |charTaken| {
          charTaken := charTaken[next := 1];
        }
      } else {
        session.characterId := -1;
      }
    }

    /** The states of all areas, by name. */
    method PreserveStates() returns (preserved: map<string, AreaState>)
      requires Filed(lib, areaStates)
      ensures ByName(areaStates, preserved)
    {
      preserved := map[];
      var left := areaStates.Keys;
      while left != {}
        invariant left <= areaStates.Keys
        invariant forall id :: id in areaStates && id !in left ==> areaStates[id].name in preserved && preserved[areaStates[id].name] == areaStates[id]
        invariant forall name :: name in preserved ==> lib.hash(name) in areaStates && lib.hash(name) !in left && areaStates[lib.hash(name)].name == name
        decreases left
      {
        var id :| id in left;
        var state := areaStates[id];
        if state.name !in preserved {
          preserved := preserved[state.name := state];
        }
        left := left - {id};
      }
    }

    method RestoreStates(preserved: map<string, AreaState>)
      modifies this`areaStates
      ensures areaStates == RestoredAll(old(areaStates), preserved)
    {
      ghost var before := areaStates;
      var left := areaStates.Keys;
      while left != {}
        invariant left <= areaStates.Keys == before.Keys
        invariant forall id :: id in left ==> areaStates[id] == before[id]
        invariant forall id :: id in before && id !in left ==> areaStates[id] == RestoredAll(before, preserved)[id]
        decreases left
      {
        var id :| id in left;
        var state := areaStates[id];
        if state.name in preserved {
          areaStates := areaStates[id := Restored(state, preserved[state.name])];
        }
        left := left - {id};
      }
    }

    method ApplyConfigs(configs: seq<AreaConfig>, preserved: map<string, AreaState>)
      modifies this`areaStates
      ensures areaStates == Configured(areaNameToId, preserved, old(areaStates), configs)
    {
      for i := 0 to |configs|
        invariant areaStates == Configured(areaNameToId, preserved, old(areaStates), configs[..i])
      {
        assert configs[..i + 1][..i] == configs[..i];
        var found, id := FindAreaByName(configs[i].name);
        if found && configs[i].name !in preserved {
          areaStates := areaStates[id := WithConfig(areaStates[id], configs[i])];
        }
      }
      assert configs[..|configs|] == configs;
    }

    /** The area part of a reload. */
    method ReplaceAreas(names: seq<string>, configs: seq<AreaConfig>)
      requires Filed(lib, areaStates)
      modifies this`areas, this`areaStates, this`areaNameToId, this`areaNameToIndex
      ensures areas == names && AreasCarried(lib, old(areaStates), areaStates, names, configs)
      ensures areaNameToId == IdsByName(lib, names) && areaNameToIndex == LastIndexByName(names)
    {
      ghost var before := areaStates;
      var preserved := PreserveStates();
      areas := names;
      BuildAreaIndex();
      RestoreStates(preserved);
      AreasCarry(lib, before, preserved, names, configs);
      ApplyConfigs(configs, preserved);
    }

    /** A reload. With an empty list of areas nothing changes at all. Otherwise the lists are replaced;
        everybody who was in an old area is in a listed one; everybody who held a character holds the same
        one, by name, or none; a character is marked exactly when somebody holds it; and every listed area
        has the state it had, or a fresh one with its settings. */
    method ApplyContentChanges(content: Content, oldCharacters: seq<string>, oldAreas: seq<string>) returns (relocated: nat, unselected: nat)
      requires Distinct(sessions) && Filed(lib, areaStates)
      modifies this, sessions
      ensures sessions == old(sessions)
      ensures content.areaNames == [] ==>
        unchanged(this) && unchanged(sessions) && relocated == unselected == 0
      ensures content.areaNames != [] ==>
        && characters == content.characters && music == content.music && areas == content.areaNames
        && MovedAll(old(AreasOf(sessions)), AreasOf(sessions), oldAreas, content.areaNames)
        && relocated == Displaced(old(AreasOf(sessions)), oldAreas, content.areaNames)
        && RemappedAll(old(CharactersOf(sessions)), CharactersOf(sessions), oldCharacters, content.characters)
        && unselected == Losses(old(CharactersOf(sessions)), oldCharacters, content.characters)
        && TakenExactly(charTaken, CharactersOf(sessions), |content.characters|)
      ensures content.areaNames != [] ==> AreasCarried(lib, old(areaStates), areaStates, content.areaNames, content.areaConfigs)
    {
      if content.areaNames == [] { return 0, 0; }
      ghost var was := CharactersOf(sessions);
      relocated, unselected := Release(content, oldCharacters, oldAreas);
      ghost var kept := CharactersOf(sessions);
      Replace(content);
      Remap(oldCharacters);
      RemapAfterUnselect(was, kept, CharactersOf(sessions), oldCharacters, content.characters);
    }

    /** What happens to the sessions before the lists are replaced. */
    method Release(content: Content, oldCharacters: seq<string>, oldAreas: seq<string>) returns (relocated: nat, unselected: nat)
      requires Distinct(sessions) && content.areaNames != []
      modifies sessions
      ensures MovedAll(old(AreasOf(sessions)), AreasOf(sessions), oldAreas, content.areaNames)
      ensures relocated == Displaced(old(AreasOf(sessions)), oldAreas, content.areaNames)
      ensures KeptAll(old(CharactersOf(sessions)), CharactersOf(sessions), oldCharacters, content.characters)
      ensures unselected == Losses(old(CharactersOf(sessions)), oldCharacters, content.characters)
    {
      relocated := Relocate(oldAreas, content.areaNames);
      unselected := Unselect(oldCharacters, content.characters);
    }

    /** The lists and their indexes, with no character marked. */
    method Replace(content: Content)
      requires Filed(lib, areaStates)
      modifies this
      ensures sessions == old(sessions) && characters == content.characters && music == content.music && areas == content.areaNames
      ensures charTaken == seq(|characters|, i => 0)
      ensures AreasCarried(lib, old(areaStates), areaStates, content.areaNames, content.areaConfigs)
    {
      characters, music := content.characters, content.music;
      ResetTaken();
      ReplaceAreas(content.areaNames, content.areaConfigs);
    }

    lemma IndexFound(name: string)
      requires name in characters
      ensures LastIndex(characters, name) >= 0
    {
    }
  }

  /** The map from names to indexes: of a name listed twice, the last index. */
  method IndexByName(characters: seq<string>) returns (index: map<string, int>)
    ensures index == LastIndexByName(characters)
  {
    index := map[];
    for i := 0 to |characters|
      invariant index == LastIndexByName(characters[..i])
    {
      LastMore(characters[..i], characters[i]);
      assert characters[..i + 1] == characters[..i] + [characters[i]];
      index := index[characters[i] := i];
    }
    assert characters[..|characters|] == characters;
  }
}
