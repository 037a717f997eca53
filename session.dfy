/**
 * The tracker's module-level globals as one mutable object: the `players`
 * list of `Player` objects, `cycles`, `hostname`, `map_name`, the temp store,
 * the exports written and the weapon cache. Each method is proved against
 * the step function of the same name in module Tracker.
 */
module Globals {
  import opened Wrappers
  import opened Text
  import opened WeaponCache
  import opened KillParser
  import opened Registry
  import opened Staging
  import opened StatusCycle
  import opened Tracker

  /** The states of a list of player objects. */
  function StatesOf(ps: seq<Player>): (r: seq<PlayerState>)
    reads set p | p in ps
    ensures |r| == |ps|
  {
    if ps == [] then [] else [ps[0].State()] + StatesOf(ps[1..])
  }

  /** Entry i of the list of states is the state of object i. */
  lemma {:induction false} StatesOfAt(ps: seq<Player>)
    ensures forall i :: 0 <= i < |ps| ==> StatesOf(ps)[i] == ps[i].State()
    decreases |ps|
  {
    if ps != [] {
      StatesOfAt(ps[1..]);
      forall i | 1 <= i < |ps| ensures StatesOf(ps)[i] == ps[i].State() {
        assert ps[1..][i - 1] == ps[i];
      }
    }
  }

  /** No object occurs twice in the list. */
  predicate Distinct(ps: seq<Player>) {
    forall i, j :: 0 <= i < j < |ps| ==> ps[i] != ps[j]
  }

  /** Distinct names make distinct objects. */
  lemma UniqueNamesDistinct(ps: seq<Player>)
    requires UniqueNames(StatesOf(ps))
    ensures Distinct(ps)
  {
    StatesOfAt(ps);
    forall i, j | 0 <= i < j < |ps| ensures ps[i] != ps[j] {
      assert StatesOf(ps)[i].name != StatesOf(ps)[j].name;
    }
  }

  /** Once a line of the block raises, the scan of the block raises. */
  lemma ScanNoneExtends(log: seq<string>, start: nat, i: nat, init: ScanState)
    requires start < i <= |log| && i <= ScanEnd(log, start) && ScanLines(log[start..i], init).None?
    ensures ScanLines(log[start..ScanEnd(log, start)], init).None?
  {
    var e := ScanEnd(log, start);
    FeedNoneGrows(ScanLine, log, start, i, e, init);
  }

  /** In a list without repeated objects, the object at k occurs nowhere else. */
  lemma DistinctAlone(ps: seq<Player>, k: nat)
    requires Distinct(ps) && k < |ps|
    ensures Alone(ps, k)
  {
    forall j | 0 <= j < |ps| && j != k ensures ps[j] != ps[k] {
      if j < k {
        assert ps[j] != ps[k];
      } else {
        assert ps[k] != ps[j];
      }
    }
  }

  /** In a list of distinct names, the object at k occurs nowhere else. */
  lemma UniqueOthers(ps: seq<Player>, k: nat)
    requires UniqueNames(StatesOf(ps)) && k < |ps|
    ensures Alone(ps, k)
  {
    UniqueNamesDistinct(ps);
    DistinctAlone(ps, k);
  }

  /** The object at k occurs nowhere else in the list. */
  predicate Alone(ps: seq<Player>, k: nat) {
    k < |ps| && forall j :: 0 <= j < |ps| && j != k ==> ps[j] != ps[k]
  }

  /** A list of states that agrees with every object's state is the list of the objects' states. */
  lemma StatesOfIs(ps: seq<Player>, s: seq<PlayerState>)
    requires |s| == |ps| && forall i :: 0 <= i < |ps| ==> s[i] == ps[i].State()
    ensures StatesOf(ps) == s
  {
    StatesOfAt(ps);
  }

  /** The states of two lists, one after the other. */
  lemma {:induction false} StatesOfConcat(a: seq<Player>, b: seq<Player>)
    ensures StatesOf(a + b) == StatesOf(a) + StatesOf(b)
    decreases |a|
  {
    if a != [] {
      assert (a + b)[1..] == a[1..] + b;
      StatesOfConcat(a[1..], b);
    } else {
      assert a + b == b;
    }
  }

  /** The states of a list none of whose objects changed. */
  twostate lemma {:induction false} StatesOfFramed(ps: seq<Player>)
    requires forall q :: q in ps ==> unchanged(q)
    ensures StatesOf(ps) == old(StatesOf(ps))
    decreases |ps|
  {
    if ps != [] {
      assert ps[0] in ps;
      forall q | q in ps[1..] ensures unchanged(q) {
        var j :| 0 <= j < |ps[1..]| && ps[1..][j] == q;
        assert ps[j + 1] == q && ps[j + 1] in ps;
      }
      StatesOfFramed(ps[1..]);
    }
  }

  /** `players.remove(p)`: where the first occurrence of the object p sits. */
  function Position(ps: seq<Player>, p: Player): (r: nat)
    requires p in ps
    ensures r < |ps| && ps[r] == p && p !in ps[..r]
  {
    if ps[0] == p then 0 else Position(ps[1..], p) + 1
  }

  /**
   * The players list during the disconnect loop over a copy of it: the
   * players kept so far, all from the first i of the copy, then the rest.
   */
  predicate ReconcileShape(snapshot: seq<Player>, i: nat, kept: seq<Player>, players: seq<Player>) {
    Distinct(snapshot) && i <= |snapshot|
    && players == kept + snapshot[i..]
    && forall q :: q in kept ==> q in snapshot[..i]
  }

  /** The player looked at sits right after the kept ones and occurs nowhere else. */
  lemma ShapeAlone(snapshot: seq<Player>, i: nat, kept: seq<Player>, players: seq<Player>)
    requires ReconcileShape(snapshot, i, kept, players) && i < |snapshot|
    ensures snapshot[i] in players && Position(players, snapshot[i]) == |kept|
    ensures snapshot[i] !in kept && snapshot[i] !in snapshot[i + 1..]
  {
    var p := snapshot[i];
    assert players[|kept|] == p;
    assert forall j :: 0 <= j < i ==> snapshot[j] != p;
    assert p !in snapshot[..i];
    assert forall j :: i + 1 <= j < |snapshot| ==> snapshot[j] != p;
    assert players[..|kept|] == kept;
  }

  /** Removing the player looked at leaves the kept ones followed by the rest of the copy. */
  lemma ShapeDepart(snapshot: seq<Player>, i: nat, kept: seq<Player>, players: seq<Player>)
    requires ReconcileShape(snapshot, i, kept, players) && i < |snapshot|
    ensures players[..|kept|] + players[|kept| + 1..] == kept + snapshot[i + 1..]
    ensures ReconcileShape(snapshot, i + 1, kept, kept + snapshot[i + 1..])
  {
    assert players[..|kept|] == kept;
    assert players[|kept| + 1..] == snapshot[i + 1..];
    assert snapshot[..i] <= snapshot[..i + 1];
  }

  /** Keeping the player looked at makes it the last of the kept ones. */
  lemma ShapeKeep(snapshot: seq<Player>, i: nat, kept: seq<Player>, players: seq<Player>)
    requires ReconcileShape(snapshot, i, kept, players) && i < |snapshot|
    ensures ReconcileShape(snapshot, i + 1, kept + [snapshot[i]], players)
  {
    assert snapshot[i..] == [snapshot[i]] + snapshot[i + 1..];
    assert snapshot[..i + 1] == snapshot[..i] + [snapshot[i]];
  }

  /** The first of a list of states that matches the objects is the state of the first object. */
  lemma StatesOfTail(snapshot: seq<Player>, i: nat, s0: seq<PlayerState>)
    requires i < |snapshot| == |s0| && StatesOf(snapshot[i..]) == s0[i..]
    ensures s0[i] == snapshot[i].State() && StatesOf(snapshot[i + 1..]) == s0[i + 1..]
  {
    assert snapshot[i..] == [snapshot[i]] + snapshot[i + 1..];
    StatesOfConcat([snapshot[i]], snapshot[i + 1..]);
    assert [snapshot[i]][1..] == [];
    assert s0[i..] == [s0[i]] + s0[i + 1..];
  }

  class Session {
    var players: seq<Player>
    var cycles: nat
    var hostname: string
    var mapName: string
    var temp: TempStore
    var exports: seq<ExportData>
    const cache: map<string, string>

    /** The session as a value. */
    function Abs(): (r: SessionState)
      reads this, set p | p in players
    {
      SessionState(StatesOf(players), cycles, hostname, mapName, temp, exports)
    }

    predicate Valid()
      reads this, set p | p in players
    {
      WellFormed(StatesOf(players))
    }

    /** Start-up: `build_cache()`, then `clear_temp()`. */
    constructor (table: Table)
      ensures Valid() && Abs() == Initial() && cache == BuildCache(table)
    {
      cache := BuildCache(table);
      players := [];
      cycles := 0;
      hostname, mapName := "", "";
      temp := Stored(map[]);
      exports := [];
    }

    /** The loop of `get_player`: the position of the first player called exactly `name`. */
    method FindPlayer(name: string) returns (k: Option<nat>)
      ensures k == FindName(StatesOf(players), name)
    {
      ghost var s0 := StatesOf(players);
      StatesOfAt(players);
      var i := 0;
      while i < |players|
        invariant 0 <= i <= |players|
        invariant forall j :: 0 <= j < i ==> s0[j].name != name
      {
        if players[i].name == name {
          return Some(i);
        }
        i := i + 1;
      }
      return None;
    }

    /** `players.append(Player(name, cls))`. */
    method AppendPlayer(name: string, cls: string) returns (p: Player)
      modifies this`players
      ensures fresh(p) && players == old(players) + [p]
      ensures StatesOf(players) == old(StatesOf(players)) + [NewPlayer(name, cls)]
    {
      ghost var s0 := StatesOf(players);
      p := new Player(name, cls);
      players := players + [p];
      StatesOfConcat(old(players), [p]);
      assert StatesOf([p]) == [NewPlayer(name, cls)];
      assert unchanged(set q | q in old(players));
      StatesOfFramed(old(players));
    }

    /** `get_player(name, cls)`: the first player called exactly `name`, or a new one appended. */
    method GetPlayer(name: string, cls: string) returns (p: Player, k: nat)
      modifies this`players
      ensures GetOrCreate(old(StatesOf(players)), name, cls) == (StatesOf(players), k)
      ensures k < |players| && players[k] == p
      ensures players == old(players) || (fresh(p) && players == old(players) + [p])
    {
      var found := FindPlayer(name);
      if found.Some? {
        k := found.value;
        p := players[k];
      } else {
        k := |players|;
        p := AppendPlayer(name, cls);
      }
    }

    /** The killer's half of `update_class`: fetch or create, set the class, count the kill and the crit. */
    method CreditKiller(killer: string, cls: string, crit: bool)
      requires UniqueNames(StatesOf(players))
      modifies this`players, set p | p in players
      ensures Abs() == old(Abs()).(players := Registry.CreditKiller(old(StatesOf(players)), killer, cls, crit))
      ensures forall q :: q in players ==> q in old(players) || fresh(q)
    {
      ghost var s0 := StatesOf(players);
      var p, k := GetPlayer(killer, cls);
      GetOrCreateUnique(s0, killer, cls);
      UniqueOthers(players, k);
      CreditAt(k, cls, crit);
    }

    /** `update_class`, `add_kill` and `add_crit` on the player at k. */
    method CreditAt(k: nat, cls: string, crit: bool)
      requires Alone(players, k)
      modifies players[k]
      ensures StatesOf(players) == old(StatesOf(players))[k := Credit(old(StatesOf(players))[k], cls, crit)]
    {
      ghost var s0 := StatesOf(players);
      StatesOfAt(players);
      players[k].RecordKill(cls, crit);
      assert forall j :: 0 <= j < |players| && j != k ==> players[j].State() == s0[j];
      StatesOfIs(players, s0[k := players[k].State()]);
    }

    /** The victim's half of `update_class`: fetch or create with no class, count the death. */
    method ChargeVictim(victim: string)
      requires UniqueNames(StatesOf(players))
      modifies this`players, set p | p in players
      ensures Abs() == old(Abs()).(players := Registry.ChargeVictim(old(StatesOf(players)), victim))
      ensures forall q :: q in players ==> q in old(players) || fresh(q)
    {
      ghost var s0 := StatesOf(players);
      var p, v := GetPlayer(victim, "");
      GetOrCreateUnique(s0, victim, "");
      UniqueOthers(players, v);
      ChargeAt(v);
    }

    /** `add_death` on the player at k. */
    method ChargeAt(k: nat)
      requires Alone(players, k)
      modifies players[k]
      ensures StatesOf(players) == old(StatesOf(players))[k := Charge(old(StatesOf(players))[k])]
    {
      ghost var s0 := StatesOf(players);
      StatesOfAt(players);
      players[k].AddDeath();
      assert forall j :: 0 <= j < |players| && j != k ==> players[j].State() == s0[j];
      StatesOfIs(players, s0[k := players[k].State()]);
    }

    /** The top-level `update_class((killer, cls, crit, victim))`. */
    method UpdateClass(killer: string, cls: string, crit: bool, victim: string)
      requires Valid()
      modifies this`players, set p | p in players
      ensures Valid() && Abs() == old(Abs()).(players := ApplyKill(old(StatesOf(players)), killer, cls, crit, victim))
      ensures forall q :: q in players ==> q in old(players) || fresh(q)
    {
      if killer == "" {
        return;
      }
      CreditKiller(killer, cls, crit);
      KillKeepsRegistry(old(StatesOf(players)), killer, cls, crit, "");
      if victim != "" {
        ChargeVictim(victim);
      }
      KillKeepsRegistry(old(StatesOf(players)), killer, cls, crit, victim);
    }

    /** The Steam ID loop of `handle_cycle`: the first player whose name matches the roster name gets the ID. */
    method SetSteamId(username: string, id: string)
      requires Distinct(players)
      modifies set p | p in players
      ensures StatesOf(players) == AssignSteamId(old(StatesOf(players)), username, id)
    {
      var found := FindRosterPlayer(username);
      if found.Some? {
        DistinctAlone(players, found.value);
        SteamIdAt(found.value, id);
      }
    }

    /** The search of the Steam ID loop: the first player whose stripped, lower-cased name is the roster name. */
    method FindRosterPlayer(username: string) returns (k: Option<nat>)
      ensures k == FindRosterMatch(StatesOf(players), username, 0)
    {
      ghost var s0 := StatesOf(players);
      StatesOfAt(players);
      var i := 0;
      while i < |players|
        invariant 0 <= i <= |players|
        invariant FindRosterMatch(s0, username, i) == FindRosterMatch(s0, username, 0)
      {
        var p := players[i];
        assert s0[i] == p.State();
        if RosterMatch(p.State(), username) {
          return Some(i);
        }
        i := i + 1;
      }
      return None;
    }

    /** `player.steam_id = id` on the player at k. */
    method SteamIdAt(k: nat, id: string)
      requires Alone(players, k)
      modifies players[k]
      ensures StatesOf(players) == old(StatesOf(players))[k := old(StatesOf(players))[k].(steamId := id)]
    {
      ghost var s0 := StatesOf(players);
      StatesOfAt(players);
      players[k].steamId := id;
      assert forall j :: 0 <= j < |players| && j != k ==> players[j].State() == s0[j];
      StatesOfIs(players, s0[k := players[k].State()]);
    }

    /** Line i of the log, scanned after lines start..i; ok is false where the line raises. */
    method ScanOne(log: seq<string>, start: nat, i: nat, ghost init: ScanState, username: Option<string>, roster: seq<string>)
      returns (ok: bool, username': Option<string>, roster': seq<string>)
      requires start <= i < |log|
      requires ScanLines(log[start..i], init) == Some(ScanState(hostname, mapName, roster, username, StatesOf(players)))
      requires Distinct(players)
      modifies this`hostname, this`mapName, set p | p in players
      ensures var r := ScanLines(log[start..i + 1], init);
              (ok <==> r.Some?)
              && (ok ==> r.value == ScanState(hostname, mapName, roster', username', StatesOf(players)))
    {
      var line := log[i];
      FeedStep(ScanLine, log, start, i, init, ScanState(hostname, mapName, roster, username, StatesOf(players)));
      if IsHostnameLine(line) {
        ok, username', roster' := ScanHostname(line, username, roster);
      } else if IsMapLine(line) {
        ok, username', roster' := ScanMap(line, username, roster);
      } else if IsRosterRow(line) {
        ok, username', roster' := ScanRosterRow(line, username, roster);
      } else {
        ok, username', roster' := true, username, roster;
      }
    }

    /** `hostname = line.split(":", 1)[1].strip()`, which raises without a ':'. */
    method ScanHostname(line: string, username: Option<string>, roster: seq<string>)
      returns (ok: bool, username': Option<string>, roster': seq<string>)
      requires IsHostnameLine(line)
      requires Distinct(players)
      modifies this`hostname, this`mapName, set p | p in players
      ensures var r := ScanLine(line, ScanState(old(hostname), old(mapName), roster, username, old(StatesOf(players))));
              (ok <==> r.Some?)
              && (ok ==> r.value == ScanState(hostname, mapName, roster', username', StatesOf(players)))
    {
      username', roster' := username, roster;
      var c := IndexOf(line, ':');
      if c.None? {
        return false, username', roster';
      }
      hostname := Strip(line[c.value + 1..]);
      ok := true;
    }

    /** `map_name = parts[1].split()[0]` when the line has a ':', which raises when nothing follows it. */
    method ScanMap(line: string, username: Option<string>, roster: seq<string>)
      returns (ok: bool, username': Option<string>, roster': seq<string>)
      requires IsMapLine(line)
      requires Distinct(players)
      modifies this`hostname, this`mapName, set p | p in players
      ensures var r := ScanLine(line, ScanState(old(hostname), old(mapName), roster, username, old(StatesOf(players))));
              (ok <==> r.Some?)
              && (ok ==> r.value == ScanState(hostname, mapName, roster', username', StatesOf(players)))
    {
      ok, username', roster' := true, username, roster;
      var c := IndexOf(line, ':');
      if c.Some? {
        var t := FirstToken(line[c.value + 1..]);
        if t.None? {
          return false, username', roster';
        }
        mapName := t.value;
      }
    }

    /**
     * A roster row: its quoted name is appended and becomes `username`; a
     * Steam3 ID is given to the player `username` names, which raises while
     * `username` is unbound and there is a player to compare it with.
     */
    method ScanRosterRow(line: string, username: Option<string>, roster: seq<string>)
      returns (ok: bool, username': Option<string>, roster': seq<string>)
      requires IsRosterRow(line)
      requires Distinct(players)
      modifies this`hostname, this`mapName, set p | p in players
      ensures var r := ScanLine(line, ScanState(old(hostname), old(mapName), roster, username, old(StatesOf(players))));
              (ok <==> r.Some?)
              && (ok ==> r.value == ScanState(hostname, mapName, roster', username', StatesOf(players)))
    {
      ok, username', roster' := true, username, roster;
      var text := Strip(line);
      var m := QuotedName(text);
      if m.Some? {
        username' := Some(Strip(m.value));
        roster' := roster + [Strip(m.value)];
      }
      var account := Steam3Account(text);
      if account.Some? {
        if username'.None? {
          if players != [] {
            return false, username', roster';
          }
        } else {
          SetSteamId(username'.value, SteamId64(account.value));
        }
      }
    }

    /**
     * The line loop of `handle_cycle` from line `start` to the sentinel, the
     * scan state so far being `init`; ok is false where a line raises.
     */
    method ScanBlock(log: seq<string>, start: nat, ghost init: ScanState) returns (ok: bool, roster: seq<string>)
      requires start <= |log| && Distinct(players)
      requires init == ScanState(hostname, mapName, [], None, StatesOf(players))
      modifies this`hostname, this`mapName, set p | p in players
      ensures var r := ScanLines(log[start..ScanEnd(log, start)], init);
              (ok <==> r.Some?)
              && (ok ==> hostname == r.value.hostname && mapName == r.value.mapName
                         && roster == r.value.roster && StatesOf(players) == r.value.players)
    {
      var username: Option<string> := None;
      roster := [];
      ghost var e := ScanEnd(log, start);
      var i := start;
      while i < |log|
        invariant start <= i <= e
        invariant ScanLines(log[start..i], init) == Some(ScanState(hostname, mapName, roster, username, StatesOf(players)))
      {
        ScanEndFirst(log, start, i);
        if Strip(log[i]) == Done {
          break;
        }
        ok, username, roster := ScanOne(log, start, i, init, username, roster);
        if !ok {
          ScanNoneExtends(log, start, i + 1, init);
          return;
        }
        i := i + 1;
      }
      assert i == e;
      ok := true;
    }

    /**
     * The line loop of `handle_cycle`: the status block after line
     * `lineNumber`, read up to the sentinel; ok is false where a line raises.
     */
    method ScanStatus(log: seq<string>, lineNumber: nat) returns (ok: bool, roster: seq<string>)
      requires Distinct(players)
      modifies this`hostname, this`mapName, set p | p in players
      ensures var r := Scan(log, lineNumber, ScanInit(old(Abs())));
              (ok <==> r.Some?)
              && (ok ==> hostname == r.value.hostname && mapName == r.value.mapName
                         && roster == r.value.roster && StatesOf(players) == r.value.players)
    {
      ghost var init := ScanInit(Abs());
      var start := ScanStart(log, lineNumber);
      assert Scan(log, lineNumber, init) == ScanLines(log[start..ScanEnd(log, start)], init);
      ok, roster := ScanBlock(log, start, init);
    }

    /** `add_temp_players(player)`: upsert the player's record under "Players". */
    method AddTempPlayer(p: Player)
      modifies this`temp
      ensures temp == Stage(old(temp), p.State(), cycles)
    {
      // a missing or unreadable store, or one without "Players", starts from an empty "Players"
      var data := if temp.Stored? then temp.players else map[];
      data := data[p.name := StagedRecord(p.State(), cycles)];
      temp := Stored(data);
    }

    /** The body of the disconnect loop for a player missing from the roster: deactivate, `players.remove`, stage. */
    method Depart(p: Player)
      requires p in players
      modifies this`players, this`temp, p
      ensures var k := Position(old(players), p);
              players == old(players[..k] + players[k + 1..])
      ensures p.State() == old(p.State()).(active := false)
      ensures temp == Stage(old(temp), p.State(), cycles)
    {
      p.active := false;
      var k := Position(players, p);
      players := players[..k] + players[k + 1..];
      AddTempPlayer(p);
    }

    /**
     * The disconnect loop of `handle_cycle` over a copy of `players`: each
     * player whose canonical name is missing from the canonical roster is
     * deactivated, removed and staged with the current cycle count.
     */
    method Reconcile(croster: seq<string>)
      requires UniqueNames(StatesOf(players))
      modifies this`players, this`temp, set p | p in players
      ensures StatesOf(players) == Survivors(old(StatesOf(players)), croster)
      ensures temp == StageAll(old(temp), Departed(old(StatesOf(players)), croster), cycles)
      ensures forall q :: q in players ==> q in old(players)
    {
      ghost var s0 := StatesOf(players);
      ghost var t0 := temp;
      var snapshot := players;
      ghost var kept: seq<Player> := [];
      ReconcileStart(croster);
      var i := 0;
      while i < |snapshot|
        invariant ReconcileInvariant(snapshot, i, kept, croster, s0, t0)
      {
        kept := ReconcileOne(snapshot, i, croster, kept, s0, t0);
        i := i + 1;
      }
      ReconcileDone(snapshot, kept, croster, s0, t0);
    }

    /** Before the disconnect loop nothing is kept yet and nothing is staged. */
    lemma ReconcileStart(croster: seq<string>)
      requires UniqueNames(StatesOf(players))
      ensures ReconcileInvariant(players, 0, [], croster, StatesOf(players), temp)
    {
      UniqueNamesDistinct(players);
      assert StatesOf(players)[..0] == [] && players[0..] == players;
    }

    /** A turn of the disconnect loop: a player missing from the roster departs, any other is kept. */
    method ReconcileOne(snapshot: seq<Player>, i: nat, croster: seq<string>, ghost kept: seq<Player>,
                        ghost s0: seq<PlayerState>, ghost t0: TempStore) returns (ghost kept': seq<Player>)
      requires i < |snapshot| && ReconcileInvariant(snapshot, i, kept, croster, s0, t0)
      modifies this`players, this`temp, snapshot[i]
      ensures ReconcileInvariant(snapshot, i + 1, kept', croster, s0, t0)
    {
      if !Present(snapshot[i].State(), croster) {
        DepartOne(snapshot, i, croster, kept, s0, t0);
        kept' := kept;
      } else {
        KeepOne(snapshot, i, croster, kept, s0, t0);
        kept' := kept + [snapshot[i]];
      }
    }

    /** When the disconnect loop ends, the kept players are the survivors and the departed ones are staged. */
    lemma ReconcileDone(snapshot: seq<Player>, kept: seq<Player>, croster: seq<string>,
                        s0: seq<PlayerState>, t0: TempStore)
      requires ReconcileInvariant(snapshot, |snapshot|, kept, croster, s0, t0)
      ensures StatesOf(players) == Survivors(s0, croster)
      ensures temp == StageAll(t0, Departed(s0, croster), cycles)
      ensures forall q :: q in players ==> q in snapshot
    {
      assert s0[..|snapshot|] == s0 && snapshot[|snapshot|..] == [];
      assert players == kept;
    }

    /**
     * `handle_cycle(lineNumber)`: count the cycle, read the status block,
     * then drop and stage the players missing from the roster. ok is false
     * where reading the block raises; the model then promises nothing about
     * the half-updated globals.
     */
    method HandleCycle(log: seq<string>, lineNumber: nat) returns (ok: bool)
      requires Valid()
      modifies this`players, this`cycles, this`hostname, this`mapName, this`temp, set p | p in players
      ensures var r := CycleStep(old(Abs()), log, lineNumber);
              (ok <==> r.Some?) && (ok ==> Valid() && Abs() == r.value)
      ensures forall q :: q in players ==> q in old(players)
    {
      ghost var st := Abs();
      cycles := cycles + 1;
      assert ScanInit(Abs()) == ScanInit(st);
      UniqueNamesDistinct(players);
      var roster;
      ok, roster := ScanStatus(log, lineNumber);
      if ok {
        ScanKeepsWellFormed(st, log, lineNumber);
        FinishCycle(roster, st, Scan(log, lineNumber, ScanInit(st)).value);
      }
    }

    /** The disconnect half of `handle_cycle`, once the status block has been read without raising. */
    method FinishCycle(roster: seq<string>, ghost st: SessionState, ghost sc: ScanState)
      requires WellFormed(sc.players) && StatesOf(players) == sc.players && roster == sc.roster
      requires cycles == st.cycles + 1 && hostname == sc.hostname && mapName == sc.mapName
      requires temp == st.temp && exports == st.exports
      modifies this`players, this`temp, set p | p in players
      ensures Abs() == AfterScan(st, sc) && Valid()
      ensures forall q :: q in players ==> q in old(players)
    {
      var croster := CanonRoster(roster);
      SurvivorsWellFormed(sc.players, croster);
      Reconcile(croster);
    }

    /** The export `export_json` builds: the staged records, each registered player's live record written over them. */
    method BuildExport() returns (data: ExportData)
      ensures data == ExportOf(Abs())
    {
      ghost var live := StatesOf(players);
      StatesOfAt(players);
      // a missing or unreadable store, or one without "Players", gives no staged records
      var merged := if temp.Stored? then temp.players else map[];
      var i := 0;
      assert live[..0] == [];
      while i < |players|
        invariant i <= |players|
        invariant merged == Merge(StagedPlayers(temp), live[..i])
      {
        var p := players[i];
        assert live[..i + 1][..i] == live[..i];
        merged := merged[p.name := LiveRecord(p.State())];
        i := i + 1;
      }
      assert live[..i] == live;
      data := ExportData(cycles, hostname, mapName, merged);
    }

    /** `export_json()`: one more export, of the session as it stands. */
    method ExportJson()
      modifies this`exports
      ensures Abs() == ExportStep(old(Abs()))
    {
      var data := BuildExport();
      exports := exports + [data];
    }

    /**
     * One (stripped) line of the main loop with its 1-based number: the
     * export command, else a status-cycle trigger, then the kill handler
     * for a kill whose weapon is in the cache. ok is false where the cycle
     * raises, which ends the main loop.
     */
    method Dispatch(line: string, lineNumber: nat, log: seq<string>) returns (ok: bool)
      requires Valid()
      modifies this`players, this`cycles, this`hostname, this`mapName, this`temp, this`exports, set p | p in players
      ensures var r := Tracker.Dispatch(old(Abs()), cache, line, lineNumber, log);
              (ok <==> r.Some?) && (ok ==> Valid() && Abs() == r.value)
      ensures forall q :: q in players ==> q in old(players) || fresh(q)
    {
      if line == ExportCommand {
        ExportJson();
      } else if IsCycleTrigger(line) {
        ok := HandleCycle(log, lineNumber);
        if !ok {
          return;
        }
      }
      HandleKill(line);
      ok := true;
    }

    /** `checkPlayerWeapon(line)`, then `update_class` when the weapon is in the cache. */
    method HandleKill(line: string)
      requires Valid()
      modifies this`players, set p | p in players
      ensures Valid()
      ensures match KillClass(line, cache)
              case None => Abs() == old(Abs())
              case Some(cls) => Abs() == KillStep(old(Abs()), ParseKill(line, cache).value, cls)
      ensures forall q :: q in players ==> q in old(players) || fresh(q)
    {
      var result := ParseKill(line, cache);
      if result.Some? && result.value.cls.Some? {
        var e := result.value;
        UpdateClass(e.killer, e.cls.value, e.crit, e.victim);
      }
    }

    /**
     * The main loop from line index `start` on (the lines already in the log
     * when the tracker starts are skipped); halted is true where a line
     * raises, which the top-level handler turns into the end of the run.
     */
    method Run(log: seq<string>, start: nat) returns (halted: bool)
      requires Valid()
      modifies this`players, this`cycles, this`hostname, this`mapName, this`temp, this`exports, set p | p in players
      ensures var o := RunFrom(old(Abs()), cache, log, start);
              halted == o.halted && (!halted ==> Valid() && Abs() == o.state)
    {
      var i := start;
      while i < |log|
        invariant start <= i && Valid()
        invariant RunFrom(Abs(), cache, log, i) == RunFrom(old(Abs()), cache, log, start)
        invariant forall q :: q in players ==> q in old(players) || fresh(q)
        decreases |log| - i
      {
        var ok := RunLine(log, i);
        if !ok {
          return true;
        }
        i := i + 1;
      }
      return false;
    }

    /** One turn of the main loop on line index i: the run goes on from the next line, or ends here. */
    method RunLine(log: seq<string>, i: nat) returns (ok: bool)
      requires i < |log| && Valid()
      modifies this`players, this`cycles, this`hostname, this`mapName, this`temp, this`exports, set p | p in players
      ensures !ok ==> RunFrom(old(Abs()), cache, log, i).halted
      ensures ok ==> Valid() && RunFrom(Abs(), cache, log, i + 1) == RunFrom(old(Abs()), cache, log, i)
      ensures forall q :: q in players ==> q in old(players) || fresh(q)
    {
      RunFromStep(Abs(), cache, log, i);
      ok := Dispatch(Strip(log[i]), i + 1, log);
    }

    /** The disconnect loop after the first i players of the copy: the kept ones, then the rest of the copy. */
    ghost predicate ReconcileInvariant(snapshot: seq<Player>, i: nat, kept: seq<Player>, croster: seq<string>,
                                       s0: seq<PlayerState>, t0: TempStore)
      reads this, set q | q in snapshot
    {
      i <= |snapshot| == |s0| && ReconcileShape(snapshot, i, kept, players)
      && StatesOf(kept) == Survivors(s0[..i], croster)
      && StatesOf(snapshot[i..]) == s0[i..]
      && temp == StageAll(t0, Departed(s0[..i], croster), cycles)
    }

    /** A turn of the disconnect loop on a player whose name is on the roster keeps it. */
    lemma KeepOne(snapshot: seq<Player>, i: nat, croster: seq<string>, kept: seq<Player>,
                  s0: seq<PlayerState>, t0: TempStore)
      requires i < |snapshot| && ReconcileInvariant(snapshot, i, kept, croster, s0, t0)
      requires Present(snapshot[i].State(), croster)
      ensures ReconcileInvariant(snapshot, i + 1, kept + [snapshot[i]], croster, s0, t0)
    {
      var p := snapshot[i];
      ShapeKeep(snapshot, i, kept, players);
      StatesOfTail(snapshot, i, s0);
      ReconcileKeep(s0, i, croster);
      StatesOfConcat(kept, [p]);
      assert [p][1..] == [];
    }

    /** A turn of the disconnect loop on a player whose name is missing from the roster departs it. */
    method DepartOne(snapshot: seq<Player>, i: nat, croster: seq<string>, ghost kept: seq<Player>,
                     ghost s0: seq<PlayerState>, ghost t0: TempStore)
      requires i < |snapshot| && ReconcileInvariant(snapshot, i, kept, croster, s0, t0)
      requires !Present(snapshot[i].State(), croster)
      modifies this`players, this`temp, snapshot[i]
      ensures ReconcileInvariant(snapshot, i + 1, kept, croster, s0, t0)
    {
      var p := snapshot[i];
      ShapeAlone(snapshot, i, kept, players);
      ShapeDepart(snapshot, i, kept, players);
      StatesOfTail(snapshot, i, s0);
      ReconcileLeave(s0, i, croster);
      ghost var rest := snapshot[i + 1..];
      ghost var staged := Departed(s0[..i], croster);
      label before:
      Depart(p);
      assert forall q :: q in kept ==> unchanged@before(q);
      assert forall q :: q in rest ==> unchanged@before(q);
      StatesOfFramed@before(kept);
      StatesOfFramed@before(rest);
      StageAllSnoc(t0, staged, s0[i].(active := false), cycles);
    }
  }
}
