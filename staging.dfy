/**
 * The persisted records: the per-player JSON record shared by temp.json and
 * the export file, the staging upsert `add_temp_players` and the merge of
 * staged and live players done by `export_json`.
 */
module Staging {
  import opened Registry

  /**
   * A number in a record. `Ratio2(a, b)` is `round(a / b, 2)` and
   * `Percent2(a, b)` is `round(a / b * 100, 2)`, both in floating point.
   */
  datatype Stat = Int(value: nat) | Ratio2(num: nat, den: nat) | Percent2(num: nat, den: nat)

  /** The exact value a stat rounds. */
  ghost function Exact(s: Stat): (r: real) {
    match s
    case Int(n) => n as real
    case Ratio2(a, b) => if b == 0 then 0.0 else a as real / b as real
    case Percent2(a, b) => if b == 0 then 0.0 else a as real / b as real * 100.0
  }

  /** "KD Ratio": kills per death, or the plain kill count when there are no deaths. */
  function KdRatio(kills: nat, deaths: nat): (r: Stat)
    ensures deaths == 0 ==> r == Int(kills)
    ensures deaths > 0 ==> Exact(r) * deaths as real == kills as real
  {
    if deaths > 0 then Ratio2(kills, deaths) else Int(kills)
  }

  /** "Crit Kill Percent": the share of crit kills among kills, 0 without kills. */
  function CritPercent(crits: nat, kills: nat): (r: Stat)
    ensures kills == 0 ==> r == Int(0)
    ensures kills > 0 ==> Exact(r) * kills as real == crits as real * 100.0
    ensures crits <= kills ==> 0.0 <= Exact(r) <= 100.0
  {
    if kills > 0 then
      var q := crits as real / kills as real;
      assert q * kills as real == crits as real;
      assert crits <= kills ==> q <= 1.0;
      Percent2(crits, kills)
    else Int(0)
  }

  /**
   * The departure member of a record: `"Discount Cycle": n` when the player is
   * staged at cycle n, `"Disconnect Cycle": null` when it is exported live.
   */
  datatype CycleField = DiscountCycle(cycle: nat) | DisconnectCycleNull

  /** One player's JSON record. */
  datatype Record = Record(
    kills: nat,
    deaths: nat,
    kdRatio: Stat,
    critKills: nat,
    critPercent: Stat,
    active: bool,
    cycle: CycleField,
    steamId: string)

  function Snapshot(p: PlayerState, cycle: CycleField): (r: Record) {
    Record(p.kills, p.deaths, KdRatio(p.kills, p.deaths), p.critAmount,
           CritPercent(p.critAmount, p.kills), p.active, cycle, p.steamId)
  }

  /** The record `add_temp_players` writes for a player leaving at cycle `cycles`. */
  function StagedRecord(p: PlayerState, cycles: nat): (r: Record) {
    Snapshot(p, DiscountCycle(cycles))
  }

  /** The record `export_json` writes for a registered player. */
  function LiveRecord(p: PlayerState): (r: Record) {
    Snapshot(p, DisconnectCycleNull)
  }

  /** The derived numbers of a record agree with its counters. */
  lemma RecordNumbers(p: PlayerState, cycle: CycleField)
    requires p.critAmount <= p.kills
    ensures var r := Snapshot(p, cycle);
            (r.deaths == 0 ==> r.kdRatio == Int(r.kills))
            && (r.deaths > 0 ==> Exact(r.kdRatio) * r.deaths as real == r.kills as real)
            && (r.kills == 0 ==> r.critPercent == Int(0))
            && 0.0 <= Exact(r.critPercent) <= 100.0
  {
  }

  /**
   * The contents of temp.json. `Missing` stands for a file that is absent,
   * is not valid JSON, or has no "Players" member: each reads as no players.
   */
  datatype TempStore = Missing | Stored(players: map<string, Record>)

  /** `data.get("Players", {})`. */
  function StagedPlayers(t: TempStore): (r: map<string, Record>) {
    if t.Stored? then t.players else map[]
  }

  /**
   * `add_temp_players(player)`: the record of `player.name` under "Players" is
   * written (after resetting a store without "Players" to an empty one) and
   * every other staged record is kept.
   */
  function Stage(t: TempStore, p: PlayerState, cycles: nat): (r: TempStore)
    ensures r.Stored? && r.players.Keys == StagedPlayers(t).Keys + {p.name}
    ensures r.players[p.name] == StagedRecord(p, cycles)
    ensures forall n :: n in StagedPlayers(t) && n != p.name ==> r.players[n] == StagedPlayers(t)[n]
  {
    Stored(StagedPlayers(t)[p.name := StagedRecord(p, cycles)])
  }

  /** Staging the players `ps` one after the other. */
  function StageAll(t: TempStore, ps: seq<PlayerState>, cycles: nat): (r: TempStore)
    decreases |ps|
  {
    if ps == [] then t
    else Stage(StageAll(t, ps[..|ps| - 1], cycles), ps[|ps| - 1], cycles)
  }

  /** Staging one more player after a list of them. */
  lemma StageAllSnoc(t: TempStore, ps: seq<PlayerState>, p: PlayerState, cycles: nat)
    ensures StageAll(t, ps + [p], cycles) == Stage(StageAll(t, ps, cycles), p, cycles)
  {
    assert (ps + [p])[..|ps|] == ps;
  }

  function NameSet(ps: seq<PlayerState>): (r: set<string>) {
    set p | p in ps :: p.name
  }

  lemma NameSetSnoc(ps: seq<PlayerState>)
    requires ps != []
    ensures NameSet(ps) == NameSet(ps[..|ps| - 1]) + {ps[|ps| - 1].name}
  {
    var front := ps[..|ps| - 1];
    assert ps == front + [ps[|ps| - 1]];
    forall n | n in NameSet(ps) ensures n in NameSet(front) || n == ps[|ps| - 1].name {
      var p :| p in ps && p.name == n;
    }
  }

  /**
   * The union of `base` and the records `Snapshot(p, cf)` of the players `ps`,
   * each player's record written over `base`.
   */
  predicate Overlays(m: map<string, Record>, base: map<string, Record>, ps: seq<PlayerState>, cf: CycleField) {
    m.Keys == base.Keys + NameSet(ps)
    && (forall i :: 0 <= i < |ps| ==> ps[i].name in m && m[ps[i].name] == Snapshot(ps[i], cf))
    && (forall n :: n in base && n !in NameSet(ps) ==> m[n] == base[n])
  }

  /** Writing the record of one more player with a new name extends an overlay by that player. */
  lemma OverlaySnoc(m: map<string, Record>, base: map<string, Record>, ps: seq<PlayerState>, cf: CycleField)
    requires ps != [] && UniqueNames(ps)
    requires Overlays(m, base, ps[..|ps| - 1], cf)
    ensures Overlays(m[ps[|ps| - 1].name := Snapshot(ps[|ps| - 1], cf)], base, ps, cf)
  {
    var front := ps[..|ps| - 1];
    var last := ps[|ps| - 1];
    var m' := m[last.name := Snapshot(last, cf)];
    NameSetSnoc(ps);
    assert m'.Keys == base.Keys + NameSet(ps);
    forall i | 0 <= i < |ps| ensures ps[i].name in m' && m'[ps[i].name] == Snapshot(ps[i], cf) {
      if i < |front| {
        assert front[i] == ps[i];
        assert ps[i].name != last.name;
      }
    }
    forall n | n in base && n !in NameSet(ps) ensures m'[n] == base[n] {
      assert n !in NameSet(front) && n != last.name;
    }
  }

  /**
   * Staging players with distinct names records each of them exactly once,
   * with the given cycle, and keeps every other staged record.
   */
  lemma StageAllEffect(t: TempStore, ps: seq<PlayerState>, cycles: nat)
    requires UniqueNames(ps)
    ensures var r := StagedPlayers(StageAll(t, ps, cycles));
            r.Keys == StagedPlayers(t).Keys + NameSet(ps)
            && (forall i :: 0 <= i < |ps| ==> r[ps[i].name] == StagedRecord(ps[i], cycles))
            && (forall n :: n in StagedPlayers(t) && n !in NameSet(ps) ==> r[n] == StagedPlayers(t)[n])
  {
    StageAllOverlays(t, ps, cycles);
  }

  lemma {:induction false} StageAllOverlays(t: TempStore, ps: seq<PlayerState>, cycles: nat)
    requires UniqueNames(ps)
    ensures Overlays(StagedPlayers(StageAll(t, ps, cycles)), StagedPlayers(t), ps, DiscountCycle(cycles))
    decreases |ps|
  {
    if ps == [] {
      assert NameSet(ps) == {};
    } else {
      var front := ps[..|ps| - 1];
      var last := ps[|ps| - 1];
      StageAllOverlays(t, front, cycles);
      var prev := StagedPlayers(StageAll(t, front, cycles));
      assert StagedPlayers(StageAll(t, ps, cycles)) == prev[last.name := StagedRecord(last, cycles)];
      OverlaySnoc(prev, StagedPlayers(t), ps, DiscountCycle(cycles));
    }
  }

  /**
   * The players map of an export: the staged records, then each registered
   * player's live record written over them in registry order.
   */
  function Merge(staged: map<string, Record>, live: seq<PlayerState>): (r: map<string, Record>)
    decreases |live|
  {
    if live == [] then staged
    else
      var last := live[|live| - 1];
      Merge(staged, live[..|live| - 1])[last.name := LiveRecord(last)]
  }

  /**
   * The export's players are the staged names together with the registered
   * names; a registered player's live record always wins over a staged record
   * of the same name, and the other staged records are exported as staged.
   */
  lemma MergeEffect(staged: map<string, Record>, live: seq<PlayerState>)
    requires UniqueNames(live)
    ensures var m := Merge(staged, live);
            m.Keys == staged.Keys + NameSet(live)
            && (forall i :: 0 <= i < |live| ==> m[live[i].name] == LiveRecord(live[i]))
            && (forall n :: n in staged && n !in NameSet(live) ==> m[n] == staged[n])
  {
    MergeOverlays(staged, live);
  }

  lemma {:induction false} MergeOverlays(staged: map<string, Record>, live: seq<PlayerState>)
    requires UniqueNames(live)
    ensures Overlays(Merge(staged, live), staged, live, DisconnectCycleNull)
    decreases |live|
  {
    if live == [] {
      assert NameSet(live) == {};
    } else {
      MergeOverlays(staged, live[..|live| - 1]);
      OverlaySnoc(Merge(staged, live[..|live| - 1]), staged, live, DisconnectCycleNull);
    }
  }

  /** An export: the session figures and the merged players (the times are not modelled). */
  datatype ExportData = ExportData(cycles: nat, hostname: string, mapName: string, players: map<string, Record>)
}
