# TF2 stat tracker: a verified model of its tracking engine

The tracker tails the Team Fortress 2 console log. It builds a weapon → class
cache from `weapons.json`, keeps an ordered list of `Player` objects, and
reacts to three kinds of console lines:

- a kill-feed line `<killer> killed <victim> with <weapon>.` credits the killer,
  charges the victim and records crits, but only when the weapon is in the cache;
- a status-cycle trigger reads the status block that follows it (hostname, map,
  the roster with Steam3 IDs), drops the players missing from the roster and
  stages their records in temp.json;
- the exact command `export_stats` writes an export that merges the staged
  records with the live players.

The model has one Dafny module per concern:

| module | file | what it holds |
|---|---|---|
| `Wrappers` | wrappers.dfy | `Option` |
| `Text` | text.dfy | the Python string operations used: `strip`, `lower`, `startswith`, `split(":", 1)`, `split()[0]`, `str(int)` |
| `WeaponCache` | weapon_cache.dfy | `build_cache` as a function on the class → weapons table |
| `KillParser` | kill_parser.dfy | `checkPlayerWeapon`: the regex match written out as a search for the lazy groups, next to a declarative `IsMatch` |
| `Registry` | registry.dfy | `Player` as a value (`PlayerState`) and as a class with in-place methods, `get_player` and the kill handler `update_class` on values |
| `Staging` | staging.dfy | the JSON record, `add_temp_players` as a map upsert, the merge in `export_json` |
| `StatusCycle` | status_cycle.dfy | the scan of a status block, the Steam3 → Steam64 conversion and assignment, and the disconnect reconciliation |
| `Tracker` | tracker.dfy | the session state as a value, one step function per handler, the line dispatch and the main loop |
| `Globals` | session.dfy | the module globals as one object `Session` whose methods update its fields and the `Player` objects in place; each is proved against the step function in `Tracker` |

The imperative methods mirror the source's loops. `FindPlayer` is the loop of
`get_player`. `FindRosterPlayer` and `SetSteamId` are the Steam ID loop.
`ScanBlock` is the line loop of `handle_cycle`. `Reconcile` is the disconnect
loop over the copy `players[:]`. `BuildExport` is the merge loop, and `Run` is
the main loop. Each of them is tied to a function in `Tracker` or `StatusCycle`.
The lemmas state the tracker's promises about those functions.

The console log is a `seq<string>`. Line numbers are 1-based, as `follow_file`
numbers them. `Run(log, start)` processes the lines after the first `start`,
which were already in the file at start-up. The temp file is a value of type
`TempStore`. Exports are appended to a sequence instead of written to files.

A line on which the source raises ends the run. The main loop's
`except Exception` catches the exception and ends the program. The model
returns the state reached before that line, with `halted` set. The model
covers three raising inputs, which the program's own logic causes:

- a hostname line without `:` (main.py:159);
- a map line with nothing but white space after its `:` (main.py:165);
- a roster row with a Steam3 ID before any row had a quoted name, while the
  registry is non-empty: `username` is unbound, and it is first read inside
  the loop over the players (main.py:178-179).

These are error paths of the model, not preconditions. `ScanLineRaises`
states that a status line raises exactly on these three inputs. Exceptions
that come from the interpreter or the environment are not modelled. These are
Python's limit on the number of digits in `int()` and `str()` (main.py:176
and main.py:180) and I/O errors; see "## Left out".

## Model

| member | source | states |
|---|---|---|
| Text.LStripSpec | main.py:151 | `lstrip` removes exactly the leading white space: the result is a suffix that starts with a non-space or is empty, and everything dropped is white space |
| Text.RStripSpec | main.py:151 | `rstrip` removes exactly the trailing white space: the result is a prefix that ends with a non-space or is empty, and everything dropped is white space |
| Text.StripLowerCommute | main.py:183-187 | `lower().strip()` and `strip().lower()` give the same text, so the roster side and the player side of the disconnect test are compared in the same form |
| Text.LowerStartsWithSpec | main.py:158-162 | `line_text.lower().startswith(p)` holds exactly when the lower-cased text starts with `p` |
| Text.IndexOf | main.py:159-163 | the position `split(":", 1)` cuts at is the first `:`; None exactly when there is no `:` |
| Text.FirstToken | main.py:165 | `split()[0]` is the first maximal run of non-space characters; None (the source raises) exactly when the text is all white space |
| Text.NatToStringRoundTrip | main.py:180 | reading back the decimal text of `str(n)` gives `n` |
| WeaponCache.BuildCache | main.py:127-131 | the weapon → class dictionary built row by row; what it holds is stated by `CacheDomain`, `CacheLastRowWins` and `CacheSound` |
| WeaponCache.CacheDomain | main.py:127-131 | a weapon is in the cache exactly when some class row lists it |
| WeaponCache.CacheLastRowWins | main.py:127-131 | a weapon listed in several rows maps to the class of the last row listing it |
| WeaponCache.CacheSound | main.py:127-131 | every cached weapon maps to the class of a row that lists it |
| KillParser.FindWith | main.py:245 | lazy group 2 ends at the first position where ` with ` and a non-period weapon character follow; None when there is no such position |
| KillParser.FindKilled | main.py:245 | lazy group 1 ends at the first ` killed ` after which group 2 can close, with the shortest group 2 there; None exactly when no position matches |
| KillParser.KillSpan | main.py:245-247 | `re.match` succeeds exactly when some split of the line matches the pattern, and reports the leftmost-shortest one |
| KillParser.WeaponEnd | main.py:245 | greedy group 3 `[^\.]+` runs up to the first `.` or the end of the line |
| KillParser.FirstMatchUnique | main.py:245 | the leftmost-shortest match is unique, so the reported groups are well defined |
| KillParser.ParseKill | main.py:239-258 | `checkPlayerWeapon`; its result is stated by `ParseKillNoMatch` and `ParseKillMatch` |
| KillParser.ParseKillNoMatch | main.py:245-247 | a line yields no kill (the all-None tuple) exactly when the pattern does not match it |
| KillParser.ParseKillMatch | main.py:245-258 | on a match: killer and victim are groups 1 and 2 stripped, the class is the cache lookup of the stripped group 3, the crit flag is group 4 |
| KillParser.WeaponGroup | main.py:245-252 | group 3 is non-empty, contains no `.` and is followed by `.` or the end of the line |
| KillParser.CritNeedsPeriod | main.py:245-253 | the crit flag is set only when a `.` follows the weapon and ` (crit)` follows the period |
| KillParser.MatchFormatted | main.py:245 | for a killer with no line break and no ` killed ` starting inside it, and a victim with no line break and no ` with ` starting inside it (`WholeKiller`, `WholeVictim`), the groups of `killer killed victim with rest` are those names and the weapon and crit read from `rest` |
| KillParser.MatchPeriodLine | main.py:245 | for names as in `MatchFormatted` (`WholeKiller`, `WholeVictim`) and a weapon without `.`: on `killer killed victim with weapon.tail` the groups are killer, victim and weapon, with crit exactly when `tail` starts with ` (crit)` |
| KillParser.MatchKillLine | main.py:245-253 | round trip for names as in `MatchFormatted` (`WholeKiller`, `WholeVictim`) and a non-empty weapon without `.`: a kill line formatted from killer, victim, weapon and crit flag parses back to those four |
| KillParser.CritTagWithoutPeriod | main.py:245-253 | `scattergun (crit)` without the period is read as weapon text `scattergun (crit)` with crit false |
| Registry.FindName | main.py:268-270 | the search of `get_player` returns the first player whose name is exactly `name`, or None when no player has that name |
| Registry.GetOrCreate | main.py:262-278 | `get_player` on values: the new list and the position of the player handed back; stated by `GetPlayerIdempotent`, `GetOrCreateUnique` and `GetOrCreateWellFormed` |
| Registry.GetPlayerIdempotent | main.py:262-278 | `get_player` on a registered name returns the first such player and leaves the list alone; otherwise it appends exactly one new player with the given class, zero counters, no Steam ID and `active` set; asking again finds the same player |
| Registry.GetOrCreateUnique | main.py:262-278 | get-or-create keeps the names distinct |
| Registry.GetOrCreateWellFormed | main.py:262-278 | get-or-create keeps the names unique and the registry well formed |
| Registry.ApplyKill | main.py:282-302 | the kill handler `update_class` on values; its effect is stated by `KillWithoutKiller`, `KillEffect` and `KillKeepsRegistry` |
| Registry.KillWithoutKiller | main.py:286-288 | a kill with an empty killer name changes nothing |
| Registry.KillEffect | main.py:282-302 | the killer's kills go up by one, its crits by one exactly on a crit, its class becomes the given class; a non-empty victim gets one more death (the same player on a self-kill); every other player is unchanged |
| Registry.KillKeepsRegistry | main.py:282-302 | a kill keeps the registry well formed; registered players keep their positions and names; at most the killer and the victim are appended |
| Registry.Player.constructor | main.py:27-37 | a new player has the given name and class, zero counters, empty Steam ID and play time, and is active |
| Registry.Player.UpdateClass | main.py:39-45 | the class becomes the new class and nothing else changes |
| Registry.Player.AddCrit | main.py:47-52 | the crit count goes up by one and nothing else changes |
| Registry.Player.AddKill | main.py:54-58 | the kill count goes up by one and nothing else changes |
| Registry.Player.AddDeath | main.py:60-64 | the death count goes up by one and nothing else changes |
| Registry.Player.RecordKill | main.py:292-295 | the killer's calls `update_class`, `add_kill`, then `add_crit` on a crit, give the killer's state of the kill handler |
| Staging.KdRatio | main.py:90 | "KD Ratio" is the kill count when there are no deaths, otherwise a value whose exact part times deaths is kills |
| Staging.CritPercent | main.py:92 | "Crit Kill Percent" is 0 without kills, otherwise a value whose exact part times kills is 100 × crits, and between 0 and 100 when crits ≤ kills |
| Staging.RecordNumbers | main.py:222-231 | the derived numbers of a record agree with its counters |
| Staging.Stage | main.py:206-231 | staging writes exactly the key `player.name`, with the record at the current cycle, and keeps every other staged record; a store without "Players" counts as empty |
| Staging.StageAll | main.py:186-191 | the departed players staged one after the other; stated by `StageAllEffect` |
| Staging.StageAllEffect | main.py:186-191 | staging players with distinct names records each exactly once with the given cycle and keeps every other staged record |
| Staging.Merge | main.py:84-96 | the staged records with each live record written over them in registry order; stated by `MergeEffect` |
| Staging.MergeEffect | main.py:84-96 | the export's player names are the staged names plus the live names; a live record always wins over a staged one of the same name; other staged records are exported as staged |
| StatusCycle.CloseQuote | main.py:168 | the lazy `.*?` closes at the first `"` after the opening one, crossing no line break |
| StatusCycle.FindQuote | main.py:168 | `re.search(r'"(.*?)"')` finds the leftmost opening quote that has a closing one, or None when there is none |
| StatusCycle.QuotedName | main.py:168-170 | the captured name contains no `"` |
| StatusCycle.DigitRunEnd | main.py:174 | `\d+` takes the maximal run of ASCII digits |
| StatusCycle.FindSteam3 | main.py:174-175 | `re.search(r'\[U:1:(\d+)\]')` finds the leftmost position where the pattern matches, or None when there is none |
| StatusCycle.SteamIdValue | main.py:176-177 | the Steam64 ID is the decimal text of the account id plus 76561197960265728, with no leading zero |
| StatusCycle.SteamIdExample | main.py:177 | account id 12345 becomes `76561197960278073` |
| StatusCycle.FindRosterMatchSpec | main.py:178-181 | the search finds the first player whose stripped, lower-cased name equals the lower-cased roster name, or reports that none does |
| StatusCycle.AssignSteamId | main.py:178-181 | the Steam ID loop on values; stated by `AssignSteamIdEffect` |
| StatusCycle.AssignSteamIdEffect | main.py:178-181 | the Steam ID is set on the first matching player only, overwriting any earlier ID; every other player is unchanged; with no match nothing changes |
| StatusCycle.ScanStart | main.py:146-147 | reading starts after the first `line_number` lines, which include the trigger line |
| StatusCycle.ScanEnd | main.py:149-155 | reading stops at the first line that strips to `__DONE__`, or at the end of the log |
| StatusCycle.ScanEndAt | main.py:153-155 | the stop position is exactly the first sentinel line from the start on |
| StatusCycle.WindowBounds | main.py:146-155 | the lines a cycle reads are exactly those after the trigger and before the first `__DONE__` |
| StatusCycle.ScanLine | main.py:157-181 | one line of the status block; None exactly on the three raising inputs; its effect is stated by `ScanLineEffect`, `RosterRowEffect` and `RosterRowRaises` |
| StatusCycle.ScanLineEffect | main.py:157-181 | one line that does not raise sets the hostname (hostname line), the map (map line with a token) or appends its quoted name (roster row), and changes at most the players' Steam IDs |
| StatusCycle.RosterRowEffect | main.py:167-181 | a roster row appends its stripped quoted name when it has one, leaves hostname and map alone, and changes at most the players' Steam IDs |
| StatusCycle.ScanLineRaises | main.py:157-181 | a status line raises exactly when it is a hostname line without `:`, a map line with only white space after its `:`, or a roster row as in `RosterRowRaises` |
| StatusCycle.RosterRowRaises | main.py:167-181 | a roster row raises exactly when it has a Steam3 ID, neither it nor an earlier row of the block gave a quoted name, and the registry is non-empty |
| StatusCycle.SteamRowWithoutPlayers | main.py:174-179 | with no player registered, a nameless roster row with a Steam3 ID does not raise: the loop that reads `username` runs zero times |
| StatusCycle.ScanResult | main.py:149-181 | a scan that does not raise leaves the hostname and map of the last lines that set them (or the old ones), the roster of all quoted names in order, and changes no player field but Steam IDs |
| StatusCycle.CanonRoster | main.py:183 | the canonical roster holds each roster name lower-cased and stripped, in order |
| StatusCycle.Deactivate | main.py:188 | each departed player keeps every field but `active`, which is false |
| StatusCycle.ReconcileSurvivors | main.py:186-191 | the survivors are exactly the players whose canonical name is on the roster, in their old order; with the departed they account for every player |
| StatusCycle.ReconcileDeparted | main.py:186-191 | the departed are exactly the players missing from the roster, marked inactive |
| StatusCycle.ReconcileUnique | main.py:186-191 | reconciliation keeps names distinct among the survivors and among the departed |
| Tracker.ExportEffect | main.py:84-106 | an export carries the session's cycles, hostname and map, and the merged players with live records winning |
| Tracker.CycleStep | main.py:134-191 | `handle_cycle` on values: scan, then reconcile and stage; None where the scan raises; stated by `CycleEffect` |
| Tracker.CycleEffect | main.py:134-191 | a cycle that does not raise adds exactly one to the cycle count, takes hostname and map from its window, keeps only players on the roster in their order, stages every missing player inactive with the new cycle count, and leaves the exports alone |
| Tracker.Dispatch | main.py:340-349 | one line of the main loop on values; stated by `DispatchCounts`, `DispatchIgnores`, `DispatchKill` and `DispatchKeepsWellFormed` |
| Tracker.DispatchCounts | main.py:340-349 | only the exact `export_stats` line adds an export (of the state before the line); a trigger line that is not the export command counts one cycle; only such a trigger can raise |
| Tracker.DispatchIgnores | main.py:340-349 | a line that is neither the export command, nor a trigger, nor a kill with a known weapon changes nothing |
| Tracker.DispatchKill | main.py:347-349 | a kill with a known weapon on a plain line is applied exactly as the kill handler does |
| Tracker.DispatchKeepsWellFormed | main.py:340-349 | every dispatched line keeps the registry well formed: names unique, players active, crits among kills |
| Tracker.RunFrom | main.py:340-352 | the main loop on values, ending at the first raising line; stated by `RunExports` and `RunWellFormed` |
| Tracker.RunExports | main.py:340-342 | a run only ever appends exports; a run that reaches the end writes one export per `export_stats` line |
| Tracker.RunWellFormed | main.py:327-349 | from start-up the registry stays well formed, and a run that does not raise writes one export per `export_stats` line |
| Globals.Session.constructor | main.py:330-336 | start-up: the cache built from the table, no players, no cycles, empty hostname and map, temp store reset to empty "Players" |
| Globals.Session.FindPlayer | main.py:268-270 | the loop of `get_player` returns the first position whose name is exactly `name` |
| Globals.Session.GetPlayer | main.py:262-278 | `get_player` on objects: the same list and position as the get-or-create on values; the list is unchanged or grows by the one fresh player returned |
| Globals.Session.CreditKiller | main.py:291-295 | the killer fetched or created with the class, then credited in place; the rest of the session unchanged |
| Globals.Session.ChargeVictim | main.py:298-302 | the victim fetched or created with no class, then charged in place; the rest of the session unchanged |
| Globals.Session.UpdateClass | main.py:282-302 | the top-level `update_class` on objects has the effect of `ApplyKill` on the player states and keeps the session valid |
| Globals.Session.FindRosterPlayer | main.py:178-179 | the Steam ID loop's search returns the first player whose name matches the roster name |
| Globals.Session.SetSteamId | main.py:178-181 | the Steam ID loop has the effect of `AssignSteamId` on the player states |
| Globals.Session.ScanHostname | main.py:158-159 | the hostname branch in place is `ScanLine` on that line: ok is false exactly when the line has no `:` |
| Globals.Session.ScanMap | main.py:162-166 | the map branch in place is `ScanLine` on that line: ok is false exactly when nothing but white space follows the `:` |
| Globals.Session.ScanRosterRow | main.py:167-181 | the roster branch in place is `ScanLine` on that line, including the Steam ID loop over the player objects; ok is false exactly where `username` is read unbound |
| Globals.Session.ScanOne | main.py:150-181 | one line in place is one step of the scan function; ok is false exactly where the source raises |
| Globals.Session.ScanBlock | main.py:149-181 | the line loop in place is the scan of the window, with the same hostname, map, roster and players, and ok false exactly where it raises |
| Globals.Session.ScanStatus | main.py:144-181 | the whole read of the status block in place is `Scan` from the session's state |
| Globals.Session.AddTempPlayer | main.py:206-234 | the temp store becomes `Stage` of the old one and the player |
| Globals.Session.Depart | main.py:188-191 | the player is marked inactive, removed from its position in the list, and staged |
| Globals.Session.Reconcile | main.py:183-191 | the disconnect loop over the copy leaves exactly the survivors in order and stages the departed in order; no new player objects appear |
| Globals.Session.HandleCycle | main.py:134-191 | `handle_cycle` in place: ok exactly when the cycle step does not raise, and then the session is the cycle step of the old one |
| Globals.Session.BuildExport | main.py:84-106 | the merge loop builds exactly the export of the session |
| Globals.Session.ExportJson | main.py:67-116 | one more export, of the session as it stands; nothing else changes |
| Globals.Session.Dispatch | main.py:340-349 | one line of the main loop in place is `Tracker.Dispatch`; ok is false exactly where it raises |
| Globals.Session.HandleKill | main.py:347-349 | the kill handler runs exactly when the weapon resolves to a class, with `ApplyKill`'s effect |
| Globals.Session.Run | main.py:339-352 | the main loop in place ends as `RunFrom`: halted exactly when a line is one of the three modelled raising inputs, and otherwise in its final state |

## Left out

- `follow_file` (main.py:304-322): polling, `seek` and `sleep` are I/O. The log is a given sequence, and the lines already in the file at start-up are the `start` parameter of `Run`.
- File and JSON I/O: reading and writing temp.json and `weapons.json`, `clear_temp`, and writing export files. The temp store is the value `TempStore`: `Missing` stands for a file that is absent, invalid, or has no "Players". Exports are appended to a sequence.
- The clock: `START_TIME`, end time and elapsed time are missing from `ExportData`.
- Floating-point `round(..., 2)`: the KD ratio and crit percentage keep the operands and which branch was taken (`Stat`). Only their exact real value is stated.
- Console output: colorama and every `print`.
- Other temp.json members: the model keeps only "Players", because nothing else is read.
- Unicode: `lower()` is modelled on ASCII letters only, and `\d` matches ASCII digits only. `strip()` and `split()` use Python's full `isspace()` set.
- StatusCycle.Scan: the status block is read from the whole given log, up to the first `__DONE__` or the end. The source reads the file as it stands when the trigger line is handled, so a block still being written when the trigger is handled is cut short there. The model does not capture that timing.
- Globals.Session.HandleCycle: when a status line raises, the source has already incremented `cycles` and may have written `hostname`, `map_name` or Steam IDs before the exception ends the program. The model ends the run with the state before the line. Nothing reads the partial state after the program stops.
- Registry.Player.RecordKill: this groups the three calls the kill handler makes on the killer into one method. The source calls them directly from `update_class`.
- Tracker.RunFrom: the top-level `except Exception` is modelled only for the three raising inputs listed above. No other exception is modelled.
- Globals.Session.Run: halts only on the three modelled raising inputs, as `RunFrom` does. Some Python versions (3.10.7 on, unless reconfigured) limit `int()` and `str()` to 4300 digits. There, `int(steam3_match.group(1))` (main.py:176) raises on a longer Steam3 digit run, and `str(steam64)` (main.py:180) raises on a longer Steam64 value. The source then ends the program. The model does not: it converts numbers of any size, because the limit belongs to the interpreter's configuration and not to the program. I/O errors are not modelled either.
- StatusCycle.ScanLine: converts a Steam3 digit run of any length, without Python's `int()`/`str()` digit limit (see `Globals.Session.Run`).
