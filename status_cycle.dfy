/**
 * The status-cycle handler `handle_cycle`, as functions: the bounded scan of the
 * lines after the trigger (hostname, map, roster names, Steam3 IDs) and the
 * case-insensitive disconnect reconciliation against the registry.
 */
module StatusCycle {
  import opened Wrappers
  import opened Text
  import opened Registry

  /** Steam64 = Steam3 account id + this base. */
  const SteamBase: nat := 76561197960265728
  /** The sentinel line that ends a status block. */
  const Done: string := "__DONE__"
  const Steam3Prefix: string := "[U:1:"

  // ---------------------------------------------------------------- `"(.*?)"`

  /** No '"' and no line break in s[i..q]: what the lazy `.*?` crosses before the closing quote. */
  ghost predicate Clean(s: string, i: nat, q: nat) {
    forall k :: i <= k < q && k < |s| ==> s[k] != '"' && s[k] != '\n'
  }

  /** `"(.*?)"` matches with its quotes at p and q. */
  ghost predicate QuoteAt(s: string, p: nat, q: nat) {
    p < q < |s| && s[p] == '"' && s[q] == '"' && Clean(s, p + 1, q)
  }

  /** The closing quote for an opening quote just before i. */
  function CloseQuote(s: string, i: nat): (r: Option<nat>)
    requires i <= |s|
    ensures r.Some? ==> i <= r.value < |s| && s[r.value] == '"' && Clean(s, i, r.value)
    ensures r.None? ==> forall q :: i <= q < |s| && s[q] == '"' ==> !Clean(s, i, q)
    decreases |s| - i
  {
    if i == |s| || s[i] == '\n' then None
    else if s[i] == '"' then Some(i)
    else CloseQuote(s, i + 1)
  }

  /** `re.search(r'"(.*?)"', s)`: the leftmost opening quote that has a closing one. */
  function FindQuote(s: string, p: nat): (r: Option<(nat, nat)>)
    requires p <= |s|
    ensures r.Some? ==> p <= r.value.0 && QuoteAt(s, r.value.0, r.value.1)
    ensures r.Some? ==> forall p', q' :: p <= p' < r.value.0 ==> !QuoteAt(s, p', q')
    ensures r.None? ==> forall p', q' :: p <= p' ==> !QuoteAt(s, p', q')
    decreases |s| - p
  {
    if p == |s| then None
    else if s[p] == '"' && CloseQuote(s, p + 1).Some? then Some((p, CloseQuote(s, p + 1).value))
    else FindQuote(s, p + 1)
  }

  /** `match.group(1)` of `re.search(r'"(.*?)"', s)`: the text between the first usable pair of quotes. */
  function QuotedName(s: string): (r: Option<string>)
    ensures r.Some? ==> '"' !in r.value
  {
    match FindQuote(s, 0)
    case None => None
    case Some((p, q)) =>
      Some(s[p + 1..q])
  }

  // ------------------------------------------------------- `\[U:1:(\d+)\]`

  /** The end of the run of ASCII digits starting at i. */
  function DigitRunEnd(s: string, i: nat): (e: nat)
    requires i <= |s|
    ensures i <= e <= |s| && (e == |s| || !IsDigit(s[e]))
    ensures forall k :: i <= k < e ==> IsDigit(s[k])
    decreases |s| - i
  {
    if i == |s| || !IsDigit(s[i]) then i else DigitRunEnd(s, i + 1)
  }

  /** `\[U:1:(\d+)\]` matches at p: the prefix, at least one digit, then ']'. */
  predicate Steam3At(s: string, p: nat) {
    At(s, p, Steam3Prefix)
    && var e := DigitRunEnd(s, p + |Steam3Prefix|);
       p + |Steam3Prefix| < e < |s| && s[e] == ']'
  }

  /** The leftmost match of the Steam3 pattern at or after p. */
  function FindSteam3(s: string, p: nat): (r: Option<nat>)
    requires p <= |s|
    ensures r.Some? ==> p <= r.value && Steam3At(s, r.value)
    ensures r.Some? ==> forall x :: p <= x < r.value ==> !Steam3At(s, x)
    ensures r.None? ==> forall x :: p <= x ==> !Steam3At(s, x)
    decreases |s| - p
  {
    if p + |Steam3Prefix| >= |s| then None
    else if Steam3At(s, p) then Some(p)
    else FindSteam3(s, p + 1)
  }

  /** `int(steam3_match.group(1))`: the account id of the first Steam3 ID in s. */
  function Steam3Account(s: string): (r: Option<nat>) {
    match FindSteam3(s, 0)
    case None => None
    case Some(p) =>
      var i := p + |Steam3Prefix|;
      Some(DigitsValue(s[i..DigitRunEnd(s, i)]))
  }

  /** `str(account_id + 76561197960265728)`. */
  function SteamId64(account: nat): (r: string) {
    NatToString(account + SteamBase)
  }

  /** The Steam64 ID is the decimal text of the account id plus the base. */
  lemma SteamIdValue(account: nat)
    ensures DigitsValue(SteamId64(account)) == account + SteamBase
    ensures SteamId64(account)[0] != '0'
  {
    NatToStringRoundTrip(account + SteamBase);
  }

  lemma SteamIdExample()
    ensures SteamId64(12345) == "76561197960278073"
  {
    assert NatToString(7) == "7";
    assert NatToString(76) == "76";
    assert NatToString(765) == "765";
    assert NatToString(7656) == "7656";
    assert NatToString(76561) == "76561";
    assert NatToString(765611) == "765611";
    assert NatToString(7656119) == "7656119";
    assert NatToString(76561197) == "76561197";
    assert NatToString(765611979) == "765611979";
    assert NatToString(7656119796) == "7656119796";
    assert NatToString(76561197960) == "76561197960";
    assert NatToString(765611979602) == "765611979602";
    assert NatToString(7656119796027) == "7656119796027";
    assert NatToString(76561197960278) == "76561197960278";
    assert NatToString(765611979602780) == "765611979602780";
    assert NatToString(7656119796027807) == "7656119796027807";
    assert NatToString(76561197960278073) == "76561197960278073";
  }

  // ----------------------------------------------------- Steam ID assignment

  /** `player.name.strip().lower() == username.lower()`. */
  predicate RosterMatch(p: PlayerState, username: string) {
    Lower(Strip(p.name)) == Lower(username)
  }

  /** The first registered player from index i on that the roster name matches. */
  function FindRosterMatch(ps: seq<PlayerState>, username: string, i: nat): (r: Option<nat>)
    requires i <= |ps|
    ensures r.Some? ==> i <= r.value < |ps|
    decreases |ps| - i
  {
    if i == |ps| then None
    else if RosterMatch(ps[i], username) then Some(i)
    else FindRosterMatch(ps, username, i + 1)
  }

  /** No player in ps[lo..hi] matches the roster name. */
  predicate NoRosterMatch(ps: seq<PlayerState>, username: string, lo: nat, hi: nat)
    requires lo <= hi <= |ps|
  {
    forall j :: lo <= j < hi ==> !RosterMatch(ps[j], username)
  }

  /** The search from index i finds the first matching player there is, or reports that none matches. */
  lemma {:induction false} FindRosterMatchSpec(ps: seq<PlayerState>, username: string, i: nat)
    requires i <= |ps|
    ensures var r := FindRosterMatch(ps, username, i);
            (r.Some? ==> RosterMatch(ps[r.value], username) && NoRosterMatch(ps, username, i, r.value))
            && (r.None? ==> NoRosterMatch(ps, username, i, |ps|))
    decreases |ps| - i
  {
    if i < |ps| && !RosterMatch(ps[i], username) {
      FindRosterMatchSpec(ps, username, i + 1);
      var r := FindRosterMatch(ps, username, i + 1);
      assert FindRosterMatch(ps, username, i) == r;
      var hi := if r.Some? then r.value else |ps|;
      assert NoRosterMatch(ps, username, i + 1, hi);
      assert NoRosterMatch(ps, username, i, hi);
    }
  }

  /** The loop that sets `steam_id` on the first matching player and breaks. */
  function AssignSteamId(ps: seq<PlayerState>, username: string, id: string): (r: seq<PlayerState>) {
    match FindRosterMatch(ps, username, 0)
    case None => ps
    case Some(k) => ps[k := ps[k].(steamId := id)]
  }

  /**
   * Only the first player matching the roster name gets the ID (overwriting
   * any earlier one); every other player, and every other field, is kept.
   */
  lemma AssignSteamIdEffect(ps: seq<PlayerState>, username: string, id: string)
    ensures var r := AssignSteamId(ps, username, id);
            |r| == |ps|
            && forall i :: 0 <= i < |ps| ==>
                 r[i] == if RosterMatch(ps[i], username) && forall j :: 0 <= j < i ==> !RosterMatch(ps[j], username)
                         then ps[i].(steamId := id) else ps[i]
  {
    var k := FindRosterMatch(ps, username, 0);
    FindRosterMatchSpec(ps, username, 0);
    if k.Some? {
      forall i | 0 <= i < |ps| && i != k.value
        ensures !(RosterMatch(ps[i], username) && forall j :: 0 <= j < i ==> !RosterMatch(ps[j], username))
      {
        if i > k.value && RosterMatch(ps[i], username) {
          assert RosterMatch(ps[k.value], username);
        }
      }
    }
  }

  // ------------------------------------------------------------- the scan

  /** What the scan has gathered so far; `username` is the local that may be stale or unbound. */
  datatype ScanState = ScanState(
    hostname: string,
    mapName: string,
    roster: seq<string>,
    username: Option<string>,
    players: seq<PlayerState>)

  predicate IsHostnameLine(line: string) {
    LowerStartsWith(Strip(line), "hostname")
  }

  predicate IsMapLine(line: string) {
    !IsHostnameLine(line) && LowerStartsWith(Strip(line), "map")
  }

  predicate IsRosterRow(line: string) {
    !IsHostnameLine(line) && !IsMapLine(line) && StartsWith(Strip(line), "#")
  }

  /**
   * One line of the status block; None where the source raises: a hostname
   * line without ':', a map line whose text after ':' is blank, or a roster
   * row with a Steam3 ID while `username` is still unbound and the registry
   * is non-empty.
   */
  function ScanLine(line: string, st: ScanState): (r: Option<ScanState>) {
    var text := Strip(line);
    if IsHostnameLine(line) then
      match IndexOf(line, ':')
      case None => None
      case Some(c) => Some(st.(hostname := Strip(line[c + 1..])))
    else if IsMapLine(line) then
      match IndexOf(line, ':')
      case None => Some(st)
      case Some(c) =>
        match FirstToken(line[c + 1..])
        case None => None
        case Some(t) => Some(st.(mapName := t))
    else if IsRosterRow(line) then
      var st1 :=
        match QuotedName(text)
        case None => st
        case Some(n) => st.(roster := st.roster + [Strip(n)], username := Some(Strip(n)));
      match Steam3Account(text)
      case None => Some(st1)
      case Some(account) =>
        // `username.lower()` is evaluated only inside the loop over the players
        if st1.username.None? then (if st1.players == [] then Some(st1) else None)
        else Some(st1.(players := AssignSteamId(st1.players, st1.username.value, SteamId64(account))))
    else Some(st)
  }

  /** The lines given to step in order, None as soon as one step fails. */
  function Feed<S>(step: (string, S) -> Option<S>, lines: seq<string>, st: S): (r: Option<S>)
    decreases |lines|
  {
    if lines == [] then Some(st)
    else
      match Feed(step, lines[..|lines| - 1], st)
      case None => None
      case Some(st') => step(lines[|lines| - 1], st')
  }

  /** Feeding the lines start..i and then line i is feeding the lines start..i + 1. */
  lemma FeedStep<S>(step: (string, S) -> Option<S>, log: seq<string>, start: nat, i: nat, init: S, cur: S)
    requires start <= i < |log| && Feed(step, log[start..i], init) == Some(cur)
    ensures Feed(step, log[start..i + 1], init) == step(log[i], cur)
  {
    assert log[start..i + 1][..i - start] == log[start..i];
  }

  /** Once a step fails, feeding more lines still fails. */
  lemma {:induction false} FeedNoneGrows<S>(step: (string, S) -> Option<S>, log: seq<string>, start: nat, i: nat, e: nat, init: S)
    requires start <= i <= e <= |log| && Feed(step, log[start..i], init).None?
    ensures Feed(step, log[start..e], init).None?
    decreases e - i
  {
    if e > i {
      FeedNoneGrows(step, log, start, i, e - 1, init);
      assert log[start..e][..e - 1 - start] == log[start..e - 1];
    }
  }

  /** The lines read in order, None as soon as one raises. */
  function ScanLines(lines: seq<string>, st: ScanState): (r: Option<ScanState>) {
    Feed(ScanLine, lines, st)
  }

  /** Where reading starts: after the first `lineNumber` lines, which include the trigger line. */
  function ScanStart(log: seq<string>, lineNumber: nat): (i: nat)
    ensures i <= |log|
  {
    if lineNumber <= |log| then lineNumber else |log|
  }

  /** Where reading stops: the first line from i on that strips to the sentinel, or the end of the log. */
  function ScanEnd(log: seq<string>, i: nat): (e: nat)
    requires i <= |log|
    ensures i <= e <= |log| && (e == |log| || Strip(log[e]) == Done)
    decreases |log| - i
  {
    if i == |log| || Strip(log[i]) == Done then i else ScanEnd(log, i + 1)
  }

  /** Up to the end, the only line that strips to the sentinel is the one at the end. */
  lemma {:induction false} ScanEndFirst(log: seq<string>, i: nat, k: nat)
    requires i <= k < |log| && k <= ScanEnd(log, i)
    ensures Strip(log[k]) == Done <==> k == ScanEnd(log, i)
    decreases k - i
  {
    if k > i && k < ScanEnd(log, i) {
      ScanEndFirst(log, i + 1, k);
    }
  }

  /** The end is the first sentinel from i on, or the end of the log when there is none. */
  lemma {:induction false} ScanEndAt(log: seq<string>, i: nat, e: nat)
    requires i <= e <= |log| && (e == |log| || Strip(log[e]) == Done)
    requires forall k :: i <= k < e ==> Strip(log[k]) != Done
    ensures ScanEnd(log, i) == e
    decreases e - i
  {
    if i < e {
      ScanEndAt(log, i + 1, e);
    }
  }

  /** The lines one status cycle reads. */
  function Window(log: seq<string>, lineNumber: nat): (r: seq<string>) {
    var i := ScanStart(log, lineNumber);
    log[i..ScanEnd(log, i)]
  }

  /** The scan of the status block that follows line `lineNumber` (1-based); None if it raises. */
  function Scan(log: seq<string>, lineNumber: nat, st: ScanState): (r: Option<ScanState>) {
    ScanLines(Window(log, lineNumber), st)
  }

  /**
   * The window is exactly the lines after the trigger line up to, not
   * including, the first sentinel; lines before the trigger and after the
   * sentinel are never read.
   */
  lemma {:induction false} WindowBounds(pre: seq<string>, body: seq<string>, post: seq<string>)
    requires forall k :: 0 <= k < |body| ==> Strip(body[k]) != Done
    requires post == [] || Strip(post[0]) == Done
    ensures Window(pre + body + post, |pre|) == body
  {
    var log := pre + body + post;
    forall k | |pre| <= k < |pre| + |body| ensures Strip(log[k]) != Done {
      assert log[k] == body[k - |pre|];
    }
    if post != [] {
      assert log[|pre| + |body|] == post[0];
    }
    ScanEndAt(log, |pre|, |pre| + |body|);
    assert log[|pre|..|pre| + |body|] == body;
  }

  /** The hostname a line sets, if it sets one. */
  function HostnameOf(line: string): (r: Option<string>) {
    if IsHostnameLine(line) && IndexOf(line, ':').Some?
    then Some(Strip(line[IndexOf(line, ':').value + 1..]))
    else None
  }

  /** The map a line sets, if it sets one. */
  function MapOf(line: string): (r: Option<string>) {
    var c := IndexOf(line, ':');
    if IsMapLine(line) && c.Some? then FirstToken(line[c.value + 1..]) else None
  }

  /** The stripped quoted name a roster row adds, if it adds one. */
  function RosterNameOf(line: string): (r: Option<string>) {
    if IsRosterRow(line) then
      match QuotedName(Strip(line))
      case None => None
      case Some(n) => Some(Strip(n))
    else None
  }

  /** The hostname of the last line that sets one, h when none does. */
  function LastHostname(lines: seq<string>, h: string): (r: string)
    decreases |lines|
  {
    if lines == [] then h
    else HostnameOf(lines[|lines| - 1]).GetOr(LastHostname(lines[..|lines| - 1], h))
  }

  /** The map of the last line that sets one, m when none does. */
  function LastMap(lines: seq<string>, m: string): (r: string)
    decreases |lines|
  {
    if lines == [] then m
    else MapOf(lines[|lines| - 1]).GetOr(LastMap(lines[..|lines| - 1], m))
  }

  /** The stripped quoted names of the roster rows, in order. */
  function RosterNames(lines: seq<string>): (r: seq<string>)
    decreases |lines|
  {
    if lines == [] then []
    else
      var n := RosterNameOf(lines[|lines| - 1]);
      RosterNames(lines[..|lines| - 1]) + (if n.Some? then [n.value] else [])
  }

  /** Only the Steam IDs of the players differ between ps and qs. */
  ghost predicate SameButSteamIds(ps: seq<PlayerState>, qs: seq<PlayerState>) {
    |qs| == |ps| && forall i :: 0 <= i < |ps| ==> qs[i] == ps[i].(steamId := qs[i].steamId)
  }

  /** One line that does not raise sets at most the field its kind names. */
  lemma ScanLineEffect(line: string, st: ScanState)
    requires ScanLine(line, st).Some?
    ensures var r := ScanLine(line, st).value;
            r.hostname == HostnameOf(line).GetOr(st.hostname)
            && r.mapName == MapOf(line).GetOr(st.mapName)
            && r.roster == st.roster + (if RosterNameOf(line).Some? then [RosterNameOf(line).value] else [])
            && SameButSteamIds(st.players, r.players)
  {
    if IsRosterRow(line) {
      RosterRowEffect(line, st);
    } else {
      assert ScanLine(line, st).value.players == st.players;
    }
  }

  /** A roster row adds its quoted name and changes at most one Steam ID. */
  lemma RosterRowEffect(line: string, st: ScanState)
    requires IsRosterRow(line) && ScanLine(line, st).Some?
    ensures var r := ScanLine(line, st).value;
            r.hostname == st.hostname && r.mapName == st.mapName
            && r.roster == st.roster + (if RosterNameOf(line).Some? then [RosterNameOf(line).value] else [])
            && SameButSteamIds(st.players, r.players)
  {
    var text := Strip(line);
    var st1 :=
      match QuotedName(text)
      case None => st
      case Some(n) => st.(roster := st.roster + [Strip(n)], username := Some(Strip(n)));
    if Steam3Account(text).Some? && st1.username.Some? {
      AssignSteamIdSame(st1.players, st1.username.value, SteamId64(Steam3Account(text).value));
    }
  }

  /**
   * A roster row raises exactly when it carries a Steam3 ID, neither it nor an
   * earlier row gave a quoted name, and there is a player to compare with.
   */
  lemma RosterRowRaises(line: string, st: ScanState)
    requires IsRosterRow(line)
    ensures ScanLine(line, st).None? <==>
              Steam3Account(Strip(line)).Some? && QuotedName(Strip(line)).None?
              && st.username.None? && st.players != []
  {
  }

  /**
   * The three places a status line raises: a hostname line without ':', a map
   * line with nothing but white space after its first ':', and a roster row as
   * in RosterRowRaises. Every other line is read without raising.
   */
  lemma ScanLineRaises(line: string, st: ScanState)
    ensures ScanLine(line, st).None? <==>
              (IsHostnameLine(line) && ':' !in line)
              || (IsMapLine(line) && ':' in line && AllSpace(line[IndexOf(line, ':').value + 1..]))
              || (IsRosterRow(line) && Steam3Account(Strip(line)).Some? && QuotedName(Strip(line)).None?
                  && st.username.None? && st.players != [])
  {
    if IsRosterRow(line) {
      RosterRowRaises(line, st);
    }
  }

  /** A nameless roster row with a Steam3 ID does not raise while no player is registered. */
  lemma SteamRowWithoutPlayers()
    ensures ScanLine("# 1 [U:1:5]", ScanState("", "", [], None, [])).Some?
  {
    var line := "# 1 [U:1:5]";
    assert Strip(line) == line by {
      assert !IsSpace(line[0]) && !IsSpace(line[|line| - 1]);
    }
    assert IsRosterRow(line);
    RosterRowRaises(line, ScanState("", "", [], None, []));
  }

  /** Assigning a Steam ID changes no player but its Steam ID. */
  lemma AssignSteamIdSame(ps: seq<PlayerState>, username: string, id: string)
    ensures SameButSteamIds(ps, AssignSteamId(ps, username, id))
  {
  }

  /**
   * A scan that does not raise leaves the hostname of the last hostname line,
   * the map of the last map line (each kept when there is none), adds the
   * quoted names of the roster rows in order, and changes no player but its
   * Steam ID.
   */
  lemma {:induction false} ScanResult(lines: seq<string>, st: ScanState)
    requires ScanLines(lines, st).Some?
    ensures var r := ScanLines(lines, st).value;
            r.hostname == LastHostname(lines, st.hostname)
            && r.mapName == LastMap(lines, st.mapName)
            && r.roster == st.roster + RosterNames(lines)
            && SameButSteamIds(st.players, r.players)
    decreases |lines|
  {
    if lines != [] {
      var front := lines[..|lines| - 1];
      ScanResult(front, st);
      ScanLineEffect(lines[|lines| - 1], ScanLines(front, st).value);
      assert ScanLines(lines, st) == ScanLine(lines[|lines| - 1], ScanLines(front, st).value);
    }
  }

  // ---------------------------------------------------------- reconciliation

  /** `p.lower().strip()`: the form in which names are compared with the roster. */
  function Canon(s: string): (r: string) {
    Strip(Lower(s))
  }

  /** `[p.lower().strip() for p in status_players]`. */
  function CanonRoster(roster: seq<string>): (r: seq<string>)
    ensures |r| == |roster| && forall i :: 0 <= i < |roster| ==> r[i] == Canon(roster[i])
  {
    if roster == [] then [] else [Canon(roster[0])] + CanonRoster(roster[1..])
  }

  predicate Present(p: PlayerState, croster: seq<string>) {
    Canon(p.name) in croster
  }

  /** The players for which keep holds, in registry order. */
  function Filter(ps: seq<PlayerState>, keep: PlayerState -> bool): (r: seq<PlayerState>)
    decreases |ps|
  {
    if ps == [] then []
    else
      var last := ps[|ps| - 1];
      Filter(ps[..|ps| - 1], keep) + (if keep(last) then [last] else [])
  }

  /** `player.active = False` on each player, in order. */
  function Deactivate(ps: seq<PlayerState>): (r: seq<PlayerState>)
    ensures |r| == |ps| && forall i :: 0 <= i < |ps| ==> r[i] == ps[i].(active := false)
  {
    if ps == [] then [] else [ps[0].(active := false)] + Deactivate(ps[1..])
  }

  /** The players the reconciliation keeps, in registry order. */
  function Survivors(ps: seq<PlayerState>, croster: seq<string>): (r: seq<PlayerState>) {
    Filter(ps, p => Present(p, croster))
  }

  /** The players the reconciliation removes, in registry order, as they are staged: inactive. */
  function Departed(ps: seq<PlayerState>, croster: seq<string>): (r: seq<PlayerState>) {
    Deactivate(Filter(ps, p => !Present(p, croster)))
  }

  /** One more player looked at, whose name is on the roster: it survives and does not depart. */
  lemma ReconcileKeep(ps: seq<PlayerState>, i: nat, croster: seq<string>)
    requires i < |ps| && Present(ps[i], croster)
    ensures Survivors(ps[..i + 1], croster) == Survivors(ps[..i], croster) + [ps[i]]
    ensures Departed(ps[..i + 1], croster) == Departed(ps[..i], croster)
  {
    assert ps[..i + 1][..i] == ps[..i];
    var g := Filter(ps[..i], p => !Present(p, croster));
    assert Filter(ps[..i + 1], p => !Present(p, croster)) == g + [];
    assert g + [] == g;
  }

  /** One more player looked at, whose name is missing from the roster: it departs, inactive. */
  lemma ReconcileLeave(ps: seq<PlayerState>, i: nat, croster: seq<string>)
    requires i < |ps| && !Present(ps[i], croster)
    ensures Survivors(ps[..i + 1], croster) == Survivors(ps[..i], croster)
    ensures Departed(ps[..i + 1], croster) == Departed(ps[..i], croster) + [ps[i].(active := false)]
  {
    assert ps[..i + 1][..i] == ps[..i];
    var s := Filter(ps[..i], p => Present(p, croster));
    assert Filter(ps[..i + 1], p => Present(p, croster)) == s + [];
    assert s + [] == s;
    var g := Filter(ps[..i], p => !Present(p, croster));
    var g' := Filter(ps[..i + 1], p => !Present(p, croster));
    assert g' == g + [ps[i]];
    assert Deactivate(g') == Deactivate(g) + [ps[i].(active := false)];
  }

  /** a can be obtained from b by deleting elements. */
  predicate SubSeq<T(==)>(a: seq<T>, b: seq<T>)
    decreases |b|
  {
    a == [] || (b != [] &&
      if a[|a| - 1] == b[|b| - 1] then SubSeq(a[..|a| - 1], b[..|b| - 1]) else SubSeq(a, b[..|b| - 1]))
  }

  lemma {:induction false} SubSeqSnoc<T>(a: seq<T>, b: seq<T>, x: T)
    requires SubSeq(a, b)
    ensures SubSeq(a + [x], b + [x]) && SubSeq(a, b + [x])
  {
    assert (a + [x])[..|a|] == a && (b + [x])[..|b|] == b;
    SubSeqWeaken(a, b, x);
  }

  lemma {:induction false} SubSeqDropLast<T>(a: seq<T>, b: seq<T>)
    requires a != [] && SubSeq(a, b)
    ensures SubSeq(a[..|a| - 1], b)
    decreases |b|, 0
  {
    var front := a[..|a| - 1];
    if a[|a| - 1] == b[|b| - 1] {
      SubSeqWeaken(front, b[..|b| - 1], b[|b| - 1]);
    } else {
      SubSeqDropLast(a, b[..|b| - 1]);
      SubSeqWeaken(front, b[..|b| - 1], b[|b| - 1]);
    }
    assert b[..|b| - 1] + [b[|b| - 1]] == b;
  }

  lemma {:induction false} SubSeqWeaken<T>(a: seq<T>, b: seq<T>, x: T)
    requires SubSeq(a, b)
    ensures SubSeq(a, b + [x])
    decreases |b|, 1
  {
    var bx := b + [x];
    assert bx[..|b|] == b;
    if a != [] && a[|a| - 1] == x {
      SubSeqDropLast(a, b);
    }
  }

  /** Filtering keeps exactly the players keep holds for, in order. */
  lemma {:induction false} FilterEffect(ps: seq<PlayerState>, keep: PlayerState -> bool)
    ensures forall p :: p in Filter(ps, keep) <==> p in ps && keep(p)
    ensures SubSeq(Filter(ps, keep), ps)
    decreases |ps|
  {
    if ps != [] {
      var front := ps[..|ps| - 1];
      var last := ps[|ps| - 1];
      assert ps == front + [last];
      FilterEffect(front, keep);
      if keep(last) {
        SubSeqSnoc(Filter(front, keep), front, last);
      } else {
        assert Filter(ps, keep) == Filter(front, keep);
        SubSeqWeaken(Filter(front, keep), front, last);
      }
    }
  }

  /** A filter and its opposite split the registry: every player goes to exactly one side. */
  lemma {:induction false} FilterSplit(ps: seq<PlayerState>, keep: PlayerState -> bool, drop: PlayerState -> bool)
    requires forall p :: drop(p) == !keep(p)
    ensures |Filter(ps, keep)| + |Filter(ps, drop)| == |ps|
    decreases |ps|
  {
    if ps != [] {
      FilterSplit(ps[..|ps| - 1], keep, drop);
    }
  }

  /** Filtering keeps the registry's names distinct. */
  lemma {:induction false} FilterUnique(ps: seq<PlayerState>, keep: PlayerState -> bool)
    requires UniqueNames(ps)
    ensures UniqueNames(Filter(ps, keep))
    decreases |ps|
  {
    if ps != [] {
      var front := ps[..|ps| - 1];
      var last := ps[|ps| - 1];
      assert ps == front + [last];
      assert UniqueNames(front);
      FilterUnique(front, keep);
      FilterEffect(front, keep);
      forall p | p in Filter(front, keep) ensures p.name != last.name {
        var i :| 0 <= i < |front| && front[i] == p;
        assert ps[i] == p;
      }
    }
  }

  /**
   * The survivors are exactly the players whose canonical name is on the
   * canonical roster, in registry order, and with the departed they account
   * for every player.
   */
  lemma ReconcileSurvivors(ps: seq<PlayerState>, croster: seq<string>)
    ensures var s := Survivors(ps, croster);
            (forall p :: p in s <==> p in ps && Present(p, croster))
            && SubSeq(s, ps)
            && |s| + |Departed(ps, croster)| == |ps|
  {
    FilterEffect(ps, p => Present(p, croster));
    FilterSplit(ps, p => Present(p, croster), p => !Present(p, croster));
  }

  /** The departed are exactly the players not on the roster, marked inactive, in registry order. */
  lemma ReconcileDeparted(ps: seq<PlayerState>, croster: seq<string>)
    ensures forall q :: q in Departed(ps, croster) <==>
              exists p :: p in ps && !Present(p, croster) && q == p.(active := false)
  {
    var g := Filter(ps, p => !Present(p, croster));
    var d := Deactivate(g);
    FilterEffect(ps, p => !Present(p, croster));
    forall q | q in d
      ensures exists p :: p in ps && !Present(p, croster) && q == p.(active := false)
    {
      var i :| 0 <= i < |d| && d[i] == q;
      assert g[i] in g;
    }
    forall p | p in ps && !Present(p, croster)
      ensures p.(active := false) in d
    {
      var i :| 0 <= i < |g| && g[i] == p;
      assert d[i] == p.(active := false);
    }
  }

  /** Reconciliation keeps names distinct on both sides. */
  lemma ReconcileUnique(ps: seq<PlayerState>, croster: seq<string>)
    requires UniqueNames(ps)
    ensures UniqueNames(Survivors(ps, croster)) && UniqueNames(Departed(ps, croster))
  {
    FilterUnique(ps, p => Present(p, croster));
    var g := Filter(ps, p => !Present(p, croster));
    FilterUnique(ps, p => !Present(p, croster));
    assert forall i :: 0 <= i < |g| ==> Deactivate(g)[i].name == g[i].name;
  }
}
