/**
 * The player registry: the `Player` record, the ordered `players` list, the
 * exact-name get-or-create `get_player` and the kill handler `update_class`.
 * The list is specified on values (`PlayerState`); the class `Player` below
 * holds the same fields as mutable state.
 */
module Registry {
  import opened Wrappers

  /** The fields of one `Player` object. */
  datatype PlayerState = PlayerState(
    name: string,
    currentClass: string,
    critAmount: nat,
    kills: nat,
    deaths: nat,
    steamId: string,
    playTime: string,
    active: bool)

  /** `Player(name, current_class)`: zero counters, no Steam ID, active. */
  function NewPlayer(name: string, cls: string): (r: PlayerState) {
    PlayerState(name, cls, 0, 0, 0, "", "", true)
  }

  /** The position of the first player whose name is exactly `name`. */
  function FindName(ps: seq<PlayerState>, name: string): (r: Option<nat>)
    ensures r.Some? ==> r.value < |ps| && ps[r.value].name == name
    ensures r.Some? ==> forall j :: 0 <= j < r.value ==> ps[j].name != name
    ensures r.None? ==> forall j :: 0 <= j < |ps| ==> ps[j].name != name
  {
    if ps == [] then None
    else if ps[0].name == name then Some(0)
    else
      match FindName(ps[1..], name)
      case None => None
      case Some(k) => Some(k + 1)
  }

  /** The first player called exactly `name`, if any. */
  function Lookup(ps: seq<PlayerState>, name: string): (r: Option<PlayerState>) {
    match FindName(ps, name)
    case None => None
    case Some(k) => Some(ps[k])
  }

  /** What `get_player(name, cls)` hands back: the registered player, or a new one. */
  function Before(ps: seq<PlayerState>, name: string, cls: string): (r: PlayerState) {
    Lookup(ps, name).GetOr(NewPlayer(name, cls))
  }

  /** `get_player(name, cls)`: the new list and the position of the player returned. */
  function GetOrCreate(ps: seq<PlayerState>, name: string, cls: string): (r: (seq<PlayerState>, nat)) {
    match FindName(ps, name)
    case Some(k) => (ps, k)
    case None => (ps + [NewPlayer(name, cls)], |ps|)
  }

  /** The registry invariant: no two players share a name. */
  predicate UniqueNames(ps: seq<PlayerState>) {
    forall i, j :: 0 <= i < j < |ps| ==> ps[i].name != ps[j].name
  }

  /** Crit kills are counted among kills, and every registered player is active. */
  predicate WellFormed(ps: seq<PlayerState>) {
    UniqueNames(ps) && forall i :: 0 <= i < |ps| ==> ps[i].active && ps[i].critAmount <= ps[i].kills
  }

  /** The killer's side of a kill: `update_class`, then `add_kill`, then `add_crit` on a crit. */
  function Credit(p: PlayerState, cls: string, crit: bool): (r: PlayerState) {
    p.(currentClass := cls, kills := p.kills + 1, critAmount := if crit then p.critAmount + 1 else p.critAmount)
  }

  /** The victim's side of a kill: `add_death`. */
  function Charge(p: PlayerState): (r: PlayerState) {
    p.(deaths := p.deaths + 1)
  }

  /**
   * The top-level `update_class((killer, cls, crit, victim))`: nothing for an
   * empty killer; otherwise the killer is fetched or created with `cls` and
   * credited, then a non-empty victim is fetched or created (with no class)
   * and charged with a death.
   */
  function ApplyKill(ps: seq<PlayerState>, killer: string, cls: string, crit: bool, victim: string): (r: seq<PlayerState>) {
    if killer == "" then ps
    else
      var ps2 := CreditKiller(ps, killer, cls, crit);
      if victim == "" then ps2 else ChargeVictim(ps2, victim)
  }

  /** The killer fetched or created with `cls`, then credited. */
  function CreditKiller(ps: seq<PlayerState>, killer: string, cls: string, crit: bool): (r: seq<PlayerState>) {
    var (ps1, k) := GetOrCreate(ps, killer, cls);
    ps1[k := Credit(ps1[k], cls, crit)]
  }

  /** The victim fetched or created with no class, then charged. */
  function ChargeVictim(ps: seq<PlayerState>, victim: string): (r: seq<PlayerState>) {
    var (ps3, v) := GetOrCreate(ps, victim, "");
    ps3[v := Charge(ps3[v])]
  }

  predicate SameNames(ps: seq<PlayerState>, qs: seq<PlayerState>) {
    |ps| == |qs| && forall i :: 0 <= i < |ps| ==> ps[i].name == qs[i].name
  }

  /** The search looks at names only. */
  lemma SameNamesFind(ps: seq<PlayerState>, qs: seq<PlayerState>, name: string)
    requires SameNames(ps, qs)
    ensures FindName(ps, name) == FindName(qs, name)
  {
  }

  /** Replacing the player at k by one of the same name changes what the search finds for that name only. */
  lemma LookupUpdate(ps: seq<PlayerState>, k: nat, p: PlayerState, name: string)
    requires k < |ps| && p.name == ps[k].name
    ensures Lookup(ps[k := p], name) == if FindName(ps, name) == Some(k) then Some(p) else Lookup(ps, name)
  {
    SameNamesFind(ps, ps[k := p], name);
  }

  /** Appending a player is seen only under a name that was not registered yet. */
  lemma LookupAppend(ps: seq<PlayerState>, q: PlayerState, name: string)
    ensures FindName(ps + [q], name) ==
      if FindName(ps, name).Some? then FindName(ps, name)
      else if q.name == name then Some(|ps|) else None
    ensures Lookup(ps + [q], name) ==
      if Lookup(ps, name).Some? then Lookup(ps, name)
      else if q.name == name then Some(q) else None
  {
    FindAppend(ps, q, name);
    var qs := ps + [q];
    assert qs[|ps|] == q;
    if FindName(ps, name).Some? {
      assert qs[FindName(ps, name).value] == ps[FindName(ps, name).value];
    }
  }

  lemma {:induction false} FindAppend(ps: seq<PlayerState>, q: PlayerState, name: string)
    ensures FindName(ps + [q], name) ==
      if FindName(ps, name).Some? then FindName(ps, name)
      else if q.name == name then Some(|ps|) else None
  {
    if ps != [] {
      assert (ps + [q])[0] == ps[0];
      assert (ps + [q])[1..] == ps[1..] + [q];
      FindAppend(ps[1..], q, name);
    } else {
      assert ps + [q] == [q];
    }
  }

  /**
   * `get_player` is a get-or-create by exact name: a registered name gives back
   * the first player of that name and leaves the list alone; otherwise exactly
   * one new player with the given class, zero counters, no Steam ID and
   * `active` set is appended. Asking again for the same name then finds it.
   */
  lemma GetPlayerIdempotent(ps: seq<PlayerState>, name: string, cls: string, cls': string)
    ensures var (ps1, k) := GetOrCreate(ps, name, cls);
            k < |ps1| && ps1[k] == Before(ps, name, cls) && Lookup(ps1, name) == Some(ps1[k])
            && (Lookup(ps, name).Some? ==> ps1 == ps)
            && (Lookup(ps, name).None? ==> ps1 == ps + [NewPlayer(name, cls)] && k == |ps|)
            && GetOrCreate(ps1, name, cls') == (ps1, k)
  {
    LookupAppend(ps, NewPlayer(name, cls), name);
  }

  /** get-or-create keeps names distinct, whatever the players' other fields. */
  lemma GetOrCreateUnique(ps: seq<PlayerState>, name: string, cls: string)
    requires UniqueNames(ps)
    ensures UniqueNames(GetOrCreate(ps, name, cls).0)
  {
  }

  /** get-or-create keeps names unique and the registry well formed. */
  lemma GetOrCreateWellFormed(ps: seq<PlayerState>, name: string, cls: string)
    requires WellFormed(ps)
    ensures WellFormed(GetOrCreate(ps, name, cls).0)
  {
  }

  /** A kill with an empty killer name changes nothing. */
  lemma KillWithoutKiller(ps: seq<PlayerState>, cls: string, crit: bool, victim: string)
    ensures ApplyKill(ps, "", cls, crit, victim) == ps
  {
  }

  /** The state of the named player after the killer's half of the kill. */
  lemma CreditStep(ps: seq<PlayerState>, killer: string, cls: string, crit: bool, name: string)
    ensures var (ps1, k) := GetOrCreate(ps, killer, cls);
            var ps2 := ps1[k := Credit(ps1[k], cls, crit)];
            Lookup(ps2, name) == if name == killer then Some(Credit(Before(ps, killer, cls), cls, crit)) else Lookup(ps, name)
  {
    var (ps1, k) := GetOrCreate(ps, killer, cls);
    GetPlayerIdempotent(ps, killer, cls, cls);
    LookupAppend(ps, NewPlayer(killer, cls), name);
    LookupUpdate(ps1, k, Credit(ps1[k], cls, crit), name);
    if name != killer {
      assert FindName(ps1, name) != Some(k);
    }
  }

  /** The state of the named player after the victim's half of the kill. */
  lemma ChargeStep(ps: seq<PlayerState>, victim: string, name: string)
    ensures var (ps3, v) := GetOrCreate(ps, victim, "");
            var r := ps3[v := Charge(ps3[v])];
            Lookup(r, name) == if name == victim then Some(Charge(Before(ps, victim, ""))) else Lookup(ps, name)
  {
    var (ps3, v) := GetOrCreate(ps, victim, "");
    GetPlayerIdempotent(ps, victim, "", "");
    LookupAppend(ps, NewPlayer(victim, ""), name);
    LookupUpdate(ps3, v, Charge(ps3[v]), name);
    if name != victim {
      assert FindName(ps3, name) != Some(v);
    }
  }

  /**
   * The kill handler, player by player: the killer's kills go up by one, its
   * crit count by one exactly on a crit, and its class becomes `cls`; a
   * non-empty victim's deaths go up by one (on the killer itself for a
   * self-kill); an empty victim is left alone; nobody else changes.
   */
  lemma {:induction false} KillEffect(ps: seq<PlayerState>, killer: string, cls: string, crit: bool, victim: string, name: string)
    requires killer != ""
    ensures var r := ApplyKill(ps, killer, cls, crit, victim);
            var k0 := Credit(Before(ps, killer, cls), cls, crit);
            Lookup(r, name) ==
              if name == killer then Some(if victim == killer then Charge(k0) else k0)
              else if name == victim && victim != "" then Some(Charge(Before(ps, victim, "")))
              else Lookup(ps, name)
  {
    var (ps1, k) := GetOrCreate(ps, killer, cls);
    var ps2 := ps1[k := Credit(ps1[k], cls, crit)];
    CreditStep(ps, killer, cls, crit, name);
    if victim != "" {
      var (ps3, v) := GetOrCreate(ps2, victim, "");
      assert ApplyKill(ps, killer, cls, crit, victim) == ps3[v := Charge(ps3[v])];
      ChargeStep(ps2, victim, name);
      CreditStep(ps, killer, cls, crit, victim);
      if victim == killer {
        assert Before(ps2, victim, "") == Credit(Before(ps, killer, cls), cls, crit);
      } else {
        assert Before(ps2, victim, "") == Before(ps, victim, "");
      }
    }
  }

  /**
   * The killer's half of a kill keeps the list well formed and in order, and
   * appends at most the killer.
   */
  lemma CreditKeepsRegistry(ps: seq<PlayerState>, killer: string, cls: string, crit: bool)
    requires WellFormed(ps)
    ensures var r := CreditKiller(ps, killer, cls, crit);
            WellFormed(r) && |ps| <= |r| <= |ps| + 1
            && (forall i :: 0 <= i < |ps| ==> r[i].name == ps[i].name)
            && (forall i :: |ps| <= i < |r| ==> r[i].name == killer)
  {
    var (ps1, k) := GetOrCreate(ps, killer, cls);
    GetOrCreateWellFormed(ps, killer, cls);
    assert SameNames(ps1, ps1[k := Credit(ps1[k], cls, crit)]);
  }

  /**
   * The victim's half of a kill keeps the list well formed and in order, and
   * appends at most the victim.
   */
  lemma ChargeKeepsRegistry(ps: seq<PlayerState>, victim: string)
    requires WellFormed(ps)
    ensures var r := ChargeVictim(ps, victim);
            WellFormed(r) && |ps| <= |r| <= |ps| + 1
            && (forall i :: 0 <= i < |ps| ==> r[i].name == ps[i].name)
            && (forall i :: |ps| <= i < |r| ==> r[i].name == victim)
  {
    var (ps3, v) := GetOrCreate(ps, victim, "");
    GetOrCreateWellFormed(ps, victim, "");
    assert SameNames(ps3, ps3[v := Charge(ps3[v])]);
  }

  /**
   * A kill keeps the list in order and well formed: the players already
   * registered keep their positions and names, and at most the killer and the
   * victim are appended.
   */
  lemma KillKeepsRegistry(ps: seq<PlayerState>, killer: string, cls: string, crit: bool, victim: string)
    requires WellFormed(ps)
    ensures var r := ApplyKill(ps, killer, cls, crit, victim);
            WellFormed(r) && |ps| <= |r| <= |ps| + 2
            && (forall i :: 0 <= i < |ps| ==> r[i].name == ps[i].name)
            && (forall i :: |ps| <= i < |r| ==> r[i].name == killer || r[i].name == victim)
  {
    if killer != "" {
      var ps2 := CreditKiller(ps, killer, cls, crit);
      CreditKeepsRegistry(ps, killer, cls, crit);
      if victim != "" {
        ChargeKeepsRegistry(ps2, victim);
      }
    }
  }

  /** A `Player` object: its fields change in place through the methods below. */
  class Player {
    var name: string
    var currentClass: string
    var critAmount: nat
    var kills: nat
    var deaths: nat
    var steamId: string
    var playTime: string
    var active: bool

    function State(): (r: PlayerState)
      reads this
    {
      PlayerState(name, currentClass, critAmount, kills, deaths, steamId, playTime, active)
    }

    constructor (name: string, currentClass: string)
      ensures State() == NewPlayer(name, currentClass)
    {
      this.name := name;
      this.currentClass := currentClass;
      critAmount, kills, deaths := 0, 0, 0;
      steamId, playTime := "", "";
      active := true;
    }

    /** Sets the class (the source announces the change when it differs). */
    method UpdateClass(newClass: string)
      modifies this
      ensures State() == old(State()).(currentClass := newClass)
    {
      if currentClass != newClass {
        currentClass := newClass;
      }
    }

    method AddCrit()
      modifies this
      ensures State() == old(State()).(critAmount := old(critAmount) + 1)
    {
      critAmount := critAmount + 1;
    }

    method AddKill()
      modifies this
      ensures State() == old(State()).(kills := old(kills) + 1)
    {
      kills := kills + 1;
    }

    /** The killer's calls of the kill handler, in order: `update_class`, `add_kill`, then `add_crit` on a crit. */
    method RecordKill(cls: string, crit: bool)
      modifies this
      ensures State() == Credit(old(State()), cls, crit)
    {
      UpdateClass(cls);
      AddKill();
      if crit {
        AddCrit();
      }
    }

    method AddDeath()
      modifies this
      ensures State() == Charge(old(State()))
    {
      deaths := deaths + 1;
    }
  }
}
