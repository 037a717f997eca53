/**
 * The tracker's session: the globals `players`, `cycles`, `hostname`,
 * `map_name`, the temp store and the exports written so far, the three
 * handlers (`export_json`, `handle_cycle`, the kill handler) and the line
 * dispatch of the main loop. The session is specified on values here
 * (`SessionState` and its step functions); the class `Session` in
 * session.dfy carries the same state as mutable fields.
 */
module Tracker {
  import opened Wrappers
  import opened Text
  import opened WeaponCache
  import opened KillParser
  import opened Registry
  import opened Staging
  import opened StatusCycle

  /** The exact console line that asks for an export. */
  const ExportCommand: string := "export_stats"

  datatype SessionState = SessionState(
    players: seq<PlayerState>,
    cycles: nat,
    hostname: string,
    mapName: string,
    temp: TempStore,
    exports: seq<ExportData>)

  /** A fresh session: no players, no cycles, and `clear_temp` has left `{"Players": {}}`. */
  function Initial(): (r: SessionState) {
    SessionState([], 0, "", "", Stored(map[]), [])
  }

  /** `export_json()`: the session figures with the staged and live players merged. */
  function ExportOf(st: SessionState): (r: ExportData) {
    ExportData(st.cycles, st.hostname, st.mapName, Merge(StagedPlayers(st.temp), st.players))
  }

  function ExportStep(st: SessionState): (r: SessionState) {
    st.(exports := st.exports + [ExportOf(st)])
  }

  /** The scan's starting point: the session's hostname, map and players, an empty roster, no username. */
  function ScanInit(st: SessionState): (r: ScanState) {
    ScanState(st.hostname, st.mapName, [], None, st.players)
  }

  /**
   * `handle_cycle(lineNumber)`: count the cycle, scan the status block, then
   * drop the players missing from the roster and stage them with the new
   * cycle count. None where the scan raises.
   */
  function CycleStep(st: SessionState, log: seq<string>, lineNumber: nat): (r: Option<SessionState>) {
    match Scan(log, lineNumber, ScanInit(st))
    case None => None
    case Some(r) => Some(AfterScan(st, r))
  }

  /** The session after a status block read as `r`: the new cycle count, then the disconnects at that count. */
  function AfterScan(st: SessionState, r: ScanState): (res: SessionState) {
    var cycles := st.cycles + 1;
    var croster := CanonRoster(r.roster);
    SessionState(
      Survivors(r.players, croster), cycles, r.hostname, r.mapName,
      StageAll(st.temp, Departed(r.players, croster), cycles), st.exports)
  }

  /** The kill handler for a kill whose weapon resolved to class `cls`. */
  function KillStep(st: SessionState, e: KillEvent, cls: string): (r: SessionState) {
    st.(players := ApplyKill(st.players, e.killer, cls, e.crit, e.victim))
  }

  /** The three substrings that mark a status-cycle trigger. */
  predicate IsCycleTrigger(line: string) {
    Contains(line, "[Status Cycle] Running") || Contains(line, "Status Running") || Contains(line, "[Status Cycle]")
  }

  /** The class a line's kill resolves to, if the line is a kill with a known weapon. */
  function KillClass(line: string, cache: map<string, string>): (r: Option<string>) {
    match ParseKill(line, cache)
    case None => None
    case Some(e) => e.cls
  }

  /**
   * One (stripped) console line with its 1-based number: export on the exact
   * command, otherwise a status cycle on a trigger; then, independently, the
   * kill handler when the line is a kill with a known weapon. None where the
   * cycle raises.
   */
  function Dispatch(st: SessionState, cache: map<string, string>, line: string, lineNumber: nat, log: seq<string>)
    : (r: Option<SessionState>)
  {
    var mid :=
      if line == ExportCommand then Some(ExportStep(st))
      else if IsCycleTrigger(line) then CycleStep(st, log, lineNumber)
      else Some(st);
    match mid
    case None => None
    case Some(s) =>
      match KillClass(line, cache)
      case None => Some(s)
      case Some(cls) => Some(KillStep(s, ParseKill(line, cache).value, cls))
  }

  /** Where a run ends: the last state reached, and whether a line raised. */
  datatype Outcome = Outcome(state: SessionState, halted: bool)

  /** The main loop over the lines from index i on (line numbers i + 1, ...); it ends at the first line that raises. */
  function RunFrom(st: SessionState, cache: map<string, string>, log: seq<string>, i: nat): (r: Outcome)
    decreases |log| - i
  {
    if i >= |log| then Outcome(st, false)
    else
      match Dispatch(st, cache, Strip(log[i]), i + 1, log)
      case None => Outcome(st, true)
      case Some(st') => RunFrom(st', cache, log, i + 1)
  }

  /** One line of the main loop: a line that raises ends the run where it stands, any other goes on from the next. */
  lemma RunFromStep(st: SessionState, cache: map<string, string>, log: seq<string>, i: nat)
    requires i < |log|
    ensures var d := Dispatch(st, cache, Strip(log[i]), i + 1, log);
            (d.None? ==> RunFrom(st, cache, log, i) == Outcome(st, true))
            && (d.Some? ==> RunFrom(st, cache, log, i) == RunFrom(d.value, cache, log, i + 1))
  {
  }

  /** The tracker from start-up: the cache built, the temp store cleared, the last `start` lines of the log already there. */
  function Run(table: Table, log: seq<string>, start: nat): (r: Outcome) {
    RunFrom(Initial(), BuildCache(table), log, start)
  }

  // ------------------------------------------------------------ properties

  /** An export announces exactly the staged names plus the registered ones, live records winning. */
  lemma ExportEffect(st: SessionState)
    requires WellFormed(st.players)
    ensures var d := ExportOf(st);
            d.cycles == st.cycles && d.hostname == st.hostname && d.mapName == st.mapName
            && d.players.Keys == StagedPlayers(st.temp).Keys + NameSet(st.players)
            && (forall i :: 0 <= i < |st.players| ==> d.players[st.players[i].name] == LiveRecord(st.players[i]))
            && (forall n :: n in StagedPlayers(st.temp) && n !in NameSet(st.players) ==>
                  d.players[n] == StagedPlayers(st.temp)[n])
  {
    MergeEffect(StagedPlayers(st.temp), st.players);
  }

  /** Changing Steam IDs keeps a registry well formed. */
  lemma SteamIdsKeepWellFormed(ps: seq<PlayerState>, qs: seq<PlayerState>)
    requires WellFormed(ps) && SameButSteamIds(ps, qs)
    ensures WellFormed(qs)
  {
    assert forall i :: 0 <= i < |ps| ==> qs[i].name == ps[i].name;
  }

  /** Reading a status block keeps the registry well formed. */
  lemma ScanKeepsWellFormed(st: SessionState, log: seq<string>, lineNumber: nat)
    requires WellFormed(st.players) && Scan(log, lineNumber, ScanInit(st)).Some?
    ensures WellFormed(Scan(log, lineNumber, ScanInit(st)).value.players)
  {
    ScanResult(Window(log, lineNumber), ScanInit(st));
    SteamIdsKeepWellFormed(st.players, Scan(log, lineNumber, ScanInit(st)).value.players);
  }

  /** The survivors of a well-formed registry are well formed. */
  lemma SurvivorsWellFormed(ps: seq<PlayerState>, croster: seq<string>)
    requires WellFormed(ps)
    ensures WellFormed(Survivors(ps, croster))
  {
    ReconcileUnique(ps, croster);
    ReconcileSurvivors(ps, croster);
    var s := Survivors(ps, croster);
    forall i | 0 <= i < |s| ensures s[i].active && s[i].critAmount <= s[i].kills {
      assert s[i] in s;
    }
  }

  /**
   * A status cycle that does not raise: the cycle count goes up by exactly
   * one; the hostname and map are those of the last such lines of the
   * window; every remaining player is on the roster of the window and the
   * remaining players keep their order; every player missing from the roster
   * is staged, inactive, with the new cycle count; the exports are untouched.
   */
  lemma CycleEffect(st: SessionState, log: seq<string>, lineNumber: nat)
    requires WellFormed(st.players)
    requires CycleStep(st, log, lineNumber).Some?
    ensures var r := CycleStep(st, log, lineNumber).value;
            var w := Window(log, lineNumber);
            var scanned := Scan(log, lineNumber, ScanInit(st)).value.players;
            var croster := CanonRoster(RosterNames(w));
            var gone := Departed(scanned, croster);
            r.cycles == st.cycles + 1 && r.exports == st.exports
            && r.hostname == LastHostname(w, st.hostname) && r.mapName == LastMap(w, st.mapName)
            && WellFormed(r.players) && SubSeq(r.players, scanned)
            && (forall p :: p in r.players ==> Present(p, croster))
            && |r.players| + |gone| == |st.players|
            && StagedPlayers(r.temp).Keys == StagedPlayers(st.temp).Keys + NameSet(gone)
            && (forall i :: 0 <= i < |gone| ==>
                  !gone[i].active && !Present(gone[i], croster)
                  && StagedPlayers(r.temp)[gone[i].name] == StagedRecord(gone[i], r.cycles))
  {
    var w := Window(log, lineNumber);
    var sc := Scan(log, lineNumber, ScanInit(st)).value;
    ScanResult(w, ScanInit(st));
    assert sc.roster == RosterNames(w);
    SteamIdsKeepWellFormed(st.players, sc.players);
    var croster := CanonRoster(sc.roster);
    SurvivorsWellFormed(sc.players, croster);
    ReconcileSurvivors(sc.players, croster);
    ReconcileDeparted(sc.players, croster);
    ReconcileUnique(sc.players, croster);
    var gone := Departed(sc.players, croster);
    StageAllEffect(st.temp, gone, st.cycles + 1);
    forall i | 0 <= i < |gone| ensures !gone[i].active && !Present(gone[i], croster) {
      assert gone[i] in gone;
      var p :| p in sc.players && !Present(p, croster) && gone[i] == p.(active := false);
      assert Canon(gone[i].name) == Canon(p.name);
    }
  }

  /** Each dispatched line keeps the registry well formed. */
  lemma DispatchKeepsWellFormed(st: SessionState, cache: map<string, string>, line: string, lineNumber: nat, log: seq<string>)
    requires WellFormed(st.players)
    requires Dispatch(st, cache, line, lineNumber, log).Some?
    ensures WellFormed(Dispatch(st, cache, line, lineNumber, log).value.players)
  {
    if line != ExportCommand && IsCycleTrigger(line) {
      CycleEffect(st, log, lineNumber);
    }
    var mid :=
      if line == ExportCommand then ExportStep(st)
      else if IsCycleTrigger(line) then CycleStep(st, log, lineNumber).value
      else st;
    var e := ParseKill(line, cache);
    if KillClass(line, cache).Some? {
      KillKeepsRegistry(mid.players, e.value.killer, KillClass(line, cache).value, e.value.crit, e.value.victim);
    }
  }

  /**
   * Dispatch, line by line: exactly the export command adds one export (of
   * the state before the line); exactly a trigger that is not the export
   * command counts one cycle; a line that raises is a trigger; the kill
   * handler changes only the players.
   */
  lemma DispatchCounts(st: SessionState, cache: map<string, string>, line: string, lineNumber: nat, log: seq<string>)
    ensures var r := Dispatch(st, cache, line, lineNumber, log);
            (r.None? ==> line != ExportCommand && IsCycleTrigger(line) && CycleStep(st, log, lineNumber).None?)
            && (r.Some? ==>
                 r.value.exports == st.exports + (if line == ExportCommand then [ExportOf(st)] else [])
                 && r.value.cycles == st.cycles + (if line != ExportCommand && IsCycleTrigger(line) then 1 else 0))
  {
  }

  /** A line that is neither the export command nor a trigger nor a kill with a known weapon changes nothing. */
  lemma DispatchIgnores(st: SessionState, cache: map<string, string>, line: string, lineNumber: nat, log: seq<string>)
    requires line != ExportCommand && !IsCycleTrigger(line) && KillClass(line, cache).None?
    ensures Dispatch(st, cache, line, lineNumber, log) == Some(st)
  {
  }

  /** A kill with a known weapon is credited exactly as the kill handler does. */
  lemma DispatchKill(st: SessionState, cache: map<string, string>, line: string, lineNumber: nat, log: seq<string>)
    requires line != ExportCommand && !IsCycleTrigger(line) && KillClass(line, cache).Some?
    ensures var e := ParseKill(line, cache).value;
            Dispatch(st, cache, line, lineNumber, log)
              == Some(st.(players := ApplyKill(st.players, e.killer, e.cls.value, e.crit, e.victim)))
  {
  }

  /** The number of export commands among the (stripped) lines from i on. */
  function CountExports(log: seq<string>, i: nat): (r: nat)
    decreases |log| - i
  {
    if i >= |log| then 0 else (if Strip(log[i]) == ExportCommand then 1 else 0) + CountExports(log, i + 1)
  }

  /** A run keeps the registry well formed, whether or not it halts. */
  lemma {:induction false} RunKeepsWellFormed(st: SessionState, cache: map<string, string>, log: seq<string>, i: nat)
    requires WellFormed(st.players)
    ensures var o := RunFrom(st, cache, log, i);
            WellFormed(o.state.players)
    decreases |log| - i
  {
    if i < |log| {
      var line := Strip(log[i]);
      match Dispatch(st, cache, line, i + 1, log)
      case None =>
      case Some(st') =>
        DispatchKeepsWellFormed(st, cache, line, i + 1, log);
        RunKeepsWellFormed(st', cache, log, i + 1);
    }
  }

  /** The exports after one dispatched line: one more exactly on the export command, the earlier ones kept. */
  lemma DispatchExports(st: SessionState, cache: map<string, string>, line: string, lineNumber: nat, log: seq<string>)
    requires Dispatch(st, cache, line, lineNumber, log).Some?
    ensures var r := Dispatch(st, cache, line, lineNumber, log).value;
            |r.exports| == |st.exports| + (if line == ExportCommand then 1 else 0)
            && r.exports[..|st.exports|] == st.exports
  {
    DispatchCounts(st, cache, line, lineNumber, log);
  }

  /** A run only ever appends exports. */
  lemma {:induction false} RunKeepsExports(st: SessionState, cache: map<string, string>, log: seq<string>, i: nat)
    ensures var o := RunFrom(st, cache, log, i);
            |st.exports| <= |o.state.exports| && o.state.exports[..|st.exports|] == st.exports
    decreases |log| - i
  {
    if i < |log| {
      RunFromStep(st, cache, log, i);
      var d := Dispatch(st, cache, Strip(log[i]), i + 1, log);
      if d.Some? {
        DispatchExports(st, cache, Strip(log[i]), i + 1, log);
        RunKeepsExports(d.value, cache, log, i + 1);
        var o := RunFrom(d.value, cache, log, i + 1);
        assert o.state.exports[..|d.value.exports|][..|st.exports|] == o.state.exports[..|st.exports|];
      }
    }
  }

  /** A run that reaches the end of the log has written one export per export command it read. */
  lemma {:induction false} RunCountsExports(st: SessionState, cache: map<string, string>, log: seq<string>, i: nat)
    ensures var o := RunFrom(st, cache, log, i);
            !o.halted ==> |o.state.exports| == |st.exports| + CountExports(log, i)
    decreases |log| - i
  {
    if i < |log| {
      RunFromStep(st, cache, log, i);
      var d := Dispatch(st, cache, Strip(log[i]), i + 1, log);
      if d.Some? {
        DispatchExports(st, cache, Strip(log[i]), i + 1, log);
        RunCountsExports(d.value, cache, log, i + 1);
      }
    }
  }

  /**
   * A run only ever appends exports; a run that reaches the end of the log
   * has written one export per export command it read.
   */
  lemma RunExports(st: SessionState, cache: map<string, string>, log: seq<string>, i: nat)
    ensures var o := RunFrom(st, cache, log, i);
            |st.exports| <= |o.state.exports| && o.state.exports[..|st.exports|] == st.exports
            && (!o.halted ==> |o.state.exports| == |st.exports| + CountExports(log, i))
  {
    RunKeepsExports(st, cache, log, i);
    RunCountsExports(st, cache, log, i);
  }

  /** The tracker from start-up keeps its registry well formed. */
  lemma RunWellFormed(table: Table, log: seq<string>, start: nat)
    ensures WellFormed(Run(table, log, start).state.players)
    ensures !Run(table, log, start).halted ==> |Run(table, log, start).state.exports| == CountExports(log, start)
  {
    RunKeepsWellFormed(Initial(), BuildCache(table), log, start);
    RunExports(Initial(), BuildCache(table), log, start);
  }
}
