# streamSentinel in Dafny

A model of streamSentinel, a single-process poller that watches the active
sessions of a Plex media server and acts against account sharing. Each
polling cycle does four things:

1. It stops every session whose player reports the `paused` state. This is
   housekeeping.
2. It takes a second snapshot and groups the first-player addresses of
   every non-whitelisted session by user.
3. For each user seen from more than one distinct address, it increments a
   warning counter. The counter is kept in a SQLite table and mirrored in an
   in-memory cache.
4. It applies a three-step escalation: a first notice, a second notice, and
   at `MAX_WARNINGS` (3) a ban. The ban calls `removeFriend` on the account
   and deletes the counter.

Modules, one per component of `streamSentinel.py`:

- `Whitelist`: the comma split of the whitelist configuration, which
  behaves like Python's `str.split(',')`, its inverse `Join`, and membership.
- `Ledger`: the `warnings` table as a `map<string, int>`. It has a pure
  `Stored`/`Upsert` specification and a class `WarningLedger` with `Get`,
  `Update` and `Reset`.
- `Plex`: the data the server and account expose (sessions, players,
  friends) and the calls made on them (`Stop`, `RemoveFriend`).
- `Scanner`: the housekeeping pass (`CloseAllPaused`) and the aggregation
  pass (`Aggregate`), each proved against a recursive specification
  function.
- `Enforcer`: `stop_sessions` (`StopSessions`) and `revoke_access`
  (`RevokeAccess`).
- `Policy`: the escalation ladder and what a run of violations does to a
  counter.
- `Detector`: what evaluating one user, and a whole cycle, does to the table
  and which calls it makes, as functions.
- `Sentinel`: the class `StreamSentinel`. It holds the whitelist, the
  threshold, the ledger object, the `warnings` cache and the log of calls
  made. `CheckSessions` is one call of `check_sessions`. The class invariant
  `Valid()` has two parts. Every ledger row is at least 1. Every cached
  count equals the ledger's count.
- `Scenarios`: worked cycles. They cover a first violation, a third
  violation (the ban), a whitelisted account and a paused session.

The Plex server, the Plex account and the SQLite file are not called.
Their inputs are parameters: the two session snapshots and the friends
list. Their effects are either recorded (`log`) or held in memory (the
ledger's `table`).

Three points where the model follows the code rather than its comments:

- `revoke_access` calls `account.removeFriend` (streamSentinel.py:102),
  although its comment says friendship is kept. The model records a
  `RemoveFriend` call.
- `update_warning_count` chooses between INSERT and UPDATE by testing
  whether the stored count reads as 0 (streamSentinel.py:77). A row that
  holds 0 would make the INSERT hit the primary key. `Upsert` and
  `WarningLedger.Update` return that failure. `Valid()` (all rows ≥ 1)
  rules it out, and `RecordStrike` proves the failure never happens in a
  cycle.
- The counter is reset after a ban whether or not `revoke_access` found the
  user (`Detector.RevokeResets`).

## Model

| member | source | states |
|---|---|---|
| `Whitelist.Split` | streamSentinel.py:25-26 | the split of the configuration has at least one field, and no field contains a comma |
| `Whitelist.JoinSplit` | streamSentinel.py:26 | joining the split fields with commas gives back the configured string exactly, so empty fields are kept |
| `Whitelist.SplitJoin` | streamSentinel.py:26 | splitting the comma-join of one or more comma-free names gives back exactly those names |
| `Whitelist.IsInWhitelist` | streamSentinel.py:89-90 | a user is whitelisted iff some entry of the split list equals the name exactly (no prefix, trimming or case folding) |
| `Whitelist.WhitelistOfNames` | streamSentinel.py:89-90 | a configuration written as the comma-join of comma-free names whitelists a user iff the user is one of those names |
| `Whitelist.CommaNameNeverWhitelisted` | streamSentinel.py:89-90 | a username that contains a comma is never whitelisted, whatever the configuration |
| `Whitelist.EmptyConfiguration` | streamSentinel.py:25-26 | an empty configuration splits to `[""]`, which whitelists exactly the empty username |
| `Ledger.UpsertOnPositiveRows` | streamSentinel.py:76-81 | on a table whose rows are all ≥ 1, an upsert of a count ≥ 1 succeeds, sets that user's count, leaves every other user's count unchanged and keeps all rows ≥ 1 |
| `Ledger.ZeroRowBlocksUpsert` | streamSentinel.py:76-81 | if a row holding 0 exists, the next upsert for that user fails (the INSERT violates the primary key) |
| `Ledger.WarningLedger.Get` | streamSentinel.py:67-73 | returns the stored count when a row exists, and 0 otherwise; it has no failure case |
| `Ledger.WarningLedger.Update` | streamSentinel.py:76-81 | behaves as the insert-or-update `Upsert` on the old table. On a valid ledger with a count ≥ 1 it succeeds, `Count(user)` becomes the new count, other users are unchanged and the ledger stays valid |
| `Ledger.WarningLedger.Reset` | streamSentinel.py:84-86 | deletes the row: `Count(user)` is 0 afterwards, other users are unchanged, validity is kept |
| `Scanner.PlayerStopsCount` | streamSentinel.py:117-123 | a session gets exactly as many housekeeping stops as it has paused players, all for its own key with the housekeeping reason |
| `Scanner.PlayerStopsTargets` | streamSentinel.py:117-123 | a session is stopped iff one of its players reports `paused`; a player without a state causes no stop |
| `Scanner.PausedStopsTargets` | streamSentinel.py:115-125 | over a snapshot, a stop is issued exactly for the sessions that have a paused player, and for nothing else |
| `Scanner.CloseAllPaused` | streamSentinel.py:115-125 | the housekeeping loop issues exactly the stops `PausedStops` describes, in snapshot order |
| `Scanner.UsersOf` | streamSentinel.py:133-146 | the keys of `user_ips` have no repeats, and a user is among them iff some session of that user is not whitelisted |
| `Scanner.IpsOfSources` | streamSentinel.py:133-146 | an address is listed under a user iff it is the first player's address of one of that user's non-whitelisted sessions |
| `Scanner.WhitelistedNotAggregated` | streamSentinel.py:133-137 | a whitelisted user is never a key of `user_ips` and has no addresses collected |
| `Scanner.CollectedUsersAggregated` | streamSentinel.py:143-146 | a user who is not among the aggregated users has no addresses collected |
| `Scanner.Aggregate` | streamSentinel.py:133-146 | the aggregation loop fails (IndexError) iff a non-whitelisted session has no player. Otherwise its keys are `UsersOf` in dict order and each user's list is `IpsOf` for that user |
| `Scanner.Collect` | streamSentinel.py:139-146 | one pass on a non-whitelisted session with a player keeps the loop's invariant one session further: the keys are `UsersOf` and each list is `IpsOf` of the longer prefix |
| `Enforcer.StopsForTargets` | streamSentinel.py:214-227 | `stop_sessions` stops a session iff its first username is the user and it has a valid session id, always with the given reason |
| `Enforcer.StopsForOnlyStops` | streamSentinel.py:214-227 | every call `stop_sessions` makes is a stop with the given reason, so it never touches account access |
| `Enforcer.StopSessions` | streamSentinel.py:214-227 | the stop loop issues exactly the stops `StopsFor` describes; a session without an id is skipped, not treated as a failure |
| `Enforcer.RemovalForFirstMatch` | streamSentinel.py:93-105 | no `removeFriend` call is made iff no friend has the name; otherwise exactly one call is made, on the first friend with that name |
| `Enforcer.RevokeAccess` | streamSentinel.py:93-105 | the linear search that breaks at the first match makes exactly the call `RemovalFor` describes |
| `Policy.Escalate` | streamSentinel.py:166-199 | some action is always chosen: the ban iff the count is at least the threshold, the first notice iff the count is 1 and below the threshold, the second notice iff the count is below the threshold and not 1 |
| `Policy.EscalationTiers` | streamSentinel.py:166-211 | for a new count ≥ 1 exactly one action is chosen: the ban iff count ≥ threshold, the first notice iff count = 1 < threshold, the second notice iff 1 < count < threshold |
| `Policy.DefaultLadder` | streamSentinel.py:34 | with the threshold of 3: count 1 gives the first notice, count 2 the second notice, count 3 or more the ban |
| `Policy.StrikeResetsOnlyOnRevoke` | streamSentinel.py:155-188 | a violation resets a non-negative count to 0 iff it triggers the ban; otherwise it raises the count by exactly 1 |
| `Policy.StreakRounds` | streamSentinel.py:155-188 | from a clean record, `q` full rounds of `threshold` violations followed by `r` < threshold more violations leave the count at `r` |
| `Policy.StreakCycles` | streamSentinel.py:155-188 | from a clean record, `k` violating cycles in a row leave the count at `k mod threshold` |
| `Policy.DefaultStreakActions` | streamSentinel.py:166-199 | with the threshold of 3, consecutive violations from a clean record bring the first notice, the second notice and the ban in turn, then start again |
| `Detector.EvaluateCount` | streamSentinel.py:149-188 | evaluating one user changes only that user's count, and only when the user has more than one distinct address; the table keeps all rows ≥ 1 |
| `Detector.WarningsKeepAccess` | streamSentinel.py:189-211 | if no ban is triggered, the only calls are stops on the user's sessions that have an id, carrying the tier's reason; no friend is removed |
| `Detector.RevokeResets` | streamSentinel.py:166-188 | a ban deletes the user's row and removes only a friend with the user's name. If no friend matches, the only calls are the final-notice stops, and the row is still deleted |
| `Detector.RunCycleCount` | streamSentinel.py:149-160 | over distinct users, each user's final count comes from that user's single evaluation applied to the count before the cycle |
| `Detector.CycleCount` | streamSentinel.py:149-188 | in one cycle a user's count goes up by exactly 1 when the user has more than one distinct address and no ban fires. It drops to 0 when a ban fires, and otherwise stays the same |
| `Detector.WhitelistedCountUnchanged` | streamSentinel.py:133-160 | a whitelisted user's count never changes in a cycle, however many addresses the user has |
| `Sentinel.StreamSentinel.constructor` | streamSentinel.py:25-53 | the whitelist is the comma split of the configuration, the cache starts empty, and the ledger is the restored table |
| `Sentinel.StreamSentinel.RecordStrike` | streamSentinel.py:155-160 | the count is loaded into the cache on first touch, incremented by 1 and persisted. The INSERT never fails, and the cache still agrees with the ledger |
| `Sentinel.StreamSentinel.Escalation` | streamSentinel.py:166-211 | the ban adds the final-notice stops and the removal to the log, deletes the row and sets the cache to 0. Each warning tier adds only its stops and changes neither store |
| `Sentinel.StreamSentinel.EvaluateUser` | streamSentinel.py:149-211 | one pass of the detection loop changes the ledger as `Detector.Evaluate` and appends `Detector.Effects` to the log; afterwards the cache agrees with the ledger, and it gains the user exactly when the user has more than one distinct address |
| `Sentinel.StreamSentinel.DetectAll` | streamSentinel.py:149-211 | the detection loop over the aggregated users leaves the table and calls of `Detector.RunCycle`, keeps the cache in agreement with the ledger, and adds to the cache's users exactly the aggregated users seen from more than one distinct address (`Detector.SharedUsers`) |
| `Sentinel.StreamSentinel.DetectNext` | streamSentinel.py:149-211 | one pass on the `i`-th aggregated user carries the table, the log and the cache's users from the first `i` users of `Detector.RunCycle`/`Detector.SharedUsers` to the first `i + 1` |
| `Detector.SharedUsersMembers` | streamSentinel.py:149-156 | a user is in `SharedUsers` iff the user is one of the evaluated users and has more than one distinct address |
| `Sentinel.StreamSentinel.CheckSessions` | streamSentinel.py:110-211 | housekeeping stops come first in the log. If aggregation fails the ledger and the cache are unchanged; otherwise the ledger and the rest of the log are those of `Detector.Cycle` on the second snapshot, and the cache gains exactly the watched users seen from more than one distinct address |
| `Scenarios.FirstViolation` | streamSentinel.py:149-198 | an account with no warnings seen from two addresses gets count 1 and first-notice stops on both sessions, and no friend is removed |
| `Scenarios.ThirdViolation` | streamSentinel.py:149-188 | an account with 2 warnings seen from two addresses gets final-notice stops, its friend is removed and its row is deleted |
| `Scenarios.WhitelistedAccount` | streamSentinel.py:133-137 | a whitelisted account seen from two addresses gets no count change and no call |
| `Scenarios.PausedSessionClosed` | streamSentinel.py:115-125 | housekeeping stops the session with a paused player and leaves the playing session alone |

## Left out

- The Plex server and account (`PlexServer`, `MyPlexAccount`, `sessions()`, `session.stop`, `account.users()`, `removeFriend`) are foreign I/O. Snapshots and the friends list are inputs, and stops and removals are recorded as `Call` values.
- Failures raised by those calls are not modelled. This covers the `except` around `revoke_access` and any exception raised by `session.stop` or by `account.users()`.
- The SQLite connection, cursor and commits are not modelled; the table is an in-memory map. Durability across a crash cannot be expressed here. The ledger passed at start-up is assumed to hold only rows this program wrote, all ≥ 1.
- `time.sleep` is left out. The 10-second settle delay, the delay before a revoke and the wait between cycles have no logical effect.
- `logging`, `print` and `log_to_file` are left out. These cover the warnings file, its timestamp and its hard-coded `/3`.
- Environment loading and the start-up check of `PLEX_TOKEN`/`PLEX_URL` are left out. The whitelist string and the threshold are constructor parameters.
- `format_time_interval` is left out: it only formats a float for a log line.
- `run_streamSentinel` is left out because it never terminates. One cycle is `CheckSessions`, and `Policy.StreakCycles` covers repeated violating cycles.
- Stop messages are the tags `PausedNotice`, `FirstWarning`, `SecondWarning` and `FinalNotice`, not the French texts. The texts embed the username, which is not carried.
- A session is assumed to have at least one username: `Session.user` is `usernames[0]`. A session without usernames would make the source raise an IndexError, and that case is not modelled.
- `Sentinel.StreamSentinel.CheckSessions`: in the program, the IndexError at streamSentinel.py:138 and a primary-key IntegrityError from `update_warning_count` both end the process, because `run_streamSentinel` (streamSentinel.py:242-244) catches nothing. The model returns them as values instead: `completed` and `stored` (from `WarningLedger.Update`). A failed aggregation ends the cycle with the ledger and the cache unchanged, and the model does not capture that later cycles never run. On a valid ledger the IntegrityError cannot arise (`RecordStrike`).
- In `stop_sessions`, an `AttributeError` while reading `session.session` is handled like a missing id: the session is skipped.
