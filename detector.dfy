/**
 * The detection loop of `check_sessions` as functions: what evaluating one
 * aggregated user does to the warning table and which calls it makes, and
 * the same folded over all aggregated users of a cycle.
 */
module Detector {
  import opened Plex
  import opened Ledger
  import opened Policy
  import Scanner
  import Enforcer
  import Whitelist

  /** `set(ips)`: the distinct addresses. */
  function Distinct(ips: seq<string>): set<string>
  {
    set ip | ip in ips
  }

  /** The account is shared: it was seen from more than one distinct address. */
  predicate Shared(ips: seq<string>)
  {
    |Distinct(ips)| > 1
  }

  /** The action taken for a user with these addresses and this stored count. */
  function Decide(table: map<string, int>, user: string, ips: seq<string>, maxWarnings: int): Action
  {
    if Shared(ips) then Escalate(Stored(table, user) + 1, maxWarnings) else NoAction
  }

  /** The warning table after evaluating one user. */
  function Evaluate(table: map<string, int>, user: string, ips: seq<string>, maxWarnings: int): map<string, int>
  {
    match Decide(table, user, ips, maxWarnings)
    case NoAction => table
    case RevokeAndReset => table - {user}
    case _ => table[user := Stored(table, user) + 1]
  }

  /** The calls made while evaluating one user: the stops, then on a ban the friend removal. */
  function Effects(table: map<string, int>, user: string, ips: seq<string>, sessions: seq<Session>,
                   directory: seq<DirectoryUser>, maxWarnings: int): seq<Call>
  {
    match Decide(table, user, ips, maxWarnings)
    case NoAction => []
    case WarnTier1 => Enforcer.StopsFor(user, sessions, FirstWarning)
    case WarnTier2 => Enforcer.StopsFor(user, sessions, SecondWarning)
    case RevokeAndReset => Enforcer.StopsFor(user, sessions, FinalNotice) + Enforcer.RemovalFor(user, directory)
  }

  /** The users among `users` seen from more than one distinct address: the ones the detection loop caches. */
  function SharedUsers(users: seq<string>, sessions: seq<Session>, whitelist: seq<string>): set<string>
    requires Scanner.Addressable(sessions, whitelist)
  {
    if |users| == 0 then {}
    else
      var u := users[|users| - 1];
      SharedUsers(users[..|users| - 1], sessions, whitelist)
      + (if Shared(Scanner.IpsOf(sessions, whitelist, u)) then {u} else {})
  }

  /** A user is in `SharedUsers` iff the user is listed and seen from more than one distinct address. */
  lemma {:induction false} SharedUsersMembers(users: seq<string>, sessions: seq<Session>, whitelist: seq<string>, v: string)
    requires Scanner.Addressable(sessions, whitelist)
    ensures v in SharedUsers(users, sessions, whitelist) <==> v in users && Shared(Scanner.IpsOf(sessions, whitelist, v))
    decreases |users|
  {
    if |users| > 0 {
      var n := |users| - 1;
      SharedUsersMembers(users[..n], sessions, whitelist, v);
      assert users == users[..n] + [users[n]];
    }
  }

  /** One more user of the detection loop adds that user to `SharedUsers` iff the user is shared. */
  lemma SharedUsersStep(users: seq<string>, i: nat, sessions: seq<Session>, whitelist: seq<string>)
    requires Scanner.Addressable(sessions, whitelist)
    requires i < |users|
    ensures SharedUsers(users[..i + 1], sessions, whitelist) ==
      SharedUsers(users[..i], sessions, whitelist)
      + (if Shared(Scanner.IpsOf(sessions, whitelist, users[i])) then {users[i]} else {})
  {
    assert users[..i + 1][..i] == users[..i];
  }

  /** One more user of the detection loop applies that user's evaluation to what the earlier users left. */
  lemma RunCycleStep(table: map<string, int>, users: seq<string>, i: nat, sessions: seq<Session>,
                     whitelist: seq<string>, directory: seq<DirectoryUser>, maxWarnings: int)
    requires Scanner.Addressable(sessions, whitelist)
    requires i < |users|
    ensures var prior := RunCycle(table, users[..i], sessions, whitelist, directory, maxWarnings);
      var ips := Scanner.IpsOf(sessions, whitelist, users[i]);
      RunCycle(table, users[..i + 1], sessions, whitelist, directory, maxWarnings)
        == Outcome(Evaluate(prior.table, users[i], ips, maxWarnings),
                   prior.calls + Effects(prior.table, users[i], ips, sessions, directory, maxWarnings))
  {
    assert users[..i + 1][..i] == users[..i];
    assert users[..i + 1][i] == users[i];
  }

  /** The table and the calls a detection pass leaves. */
  datatype Outcome = Outcome(table: map<string, int>, calls: seq<Call>)

  /** The detection pass over `users` in order, each with the addresses collected for it. */
  function RunCycle(table: map<string, int>, users: seq<string>, sessions: seq<Session>,
                    whitelist: seq<string>, directory: seq<DirectoryUser>, maxWarnings: int): Outcome
    requires Scanner.Addressable(sessions, whitelist)
  {
    if |users| == 0 then Outcome(table, [])
    else
      var n := |users| - 1;
      var prior := RunCycle(table, users[..n], sessions, whitelist, directory, maxWarnings);
      var ips := Scanner.IpsOf(sessions, whitelist, users[n]);
      Outcome(Evaluate(prior.table, users[n], ips, maxWarnings),
              prior.calls + Effects(prior.table, users[n], ips, sessions, directory, maxWarnings))
  }

  /** The detection pass over the users the aggregation pass found. */
  function Cycle(table: map<string, int>, sessions: seq<Session>, whitelist: seq<string>,
                 directory: seq<DirectoryUser>, maxWarnings: int): Outcome
    requires Scanner.Addressable(sessions, whitelist)
  {
    RunCycle(table, Scanner.UsersOf(sessions, whitelist), sessions, whitelist, directory, maxWarnings)
  }

  /**
   * Evaluating one user moves only that user's count, and only when the
   * account is shared: one violation more, or 0 when that violation
   * triggered the ban. The table keeps its rows at least 1.
   */
  lemma EvaluateCount(table: map<string, int>, user: string, ips: seq<string>, maxWarnings: int, v: string)
    requires RowsPositive(table)
    ensures RowsPositive(Evaluate(table, user, ips, maxWarnings))
    ensures Stored(Evaluate(table, user, ips, maxWarnings), v) ==
      if v == user && Shared(ips) then AfterStrike(Stored(table, user), maxWarnings) else Stored(table, v)
  {
  }

  /**
   * Only a ban removes a friend: a warning tier, or no action, makes stop
   * calls only, each with the tier's reason and on one of the user's sessions.
   */
  lemma WarningsKeepAccess(table: map<string, int>, user: string, ips: seq<string>, sessions: seq<Session>,
                           directory: seq<DirectoryUser>, maxWarnings: int, c: Call)
    requires Decide(table, user, ips, maxWarnings) != RevokeAndReset
    requires c in Effects(table, user, ips, sessions, directory, maxWarnings)
    ensures c.Stop?
    ensures c.reason == if Decide(table, user, ips, maxWarnings) == WarnTier1 then FirstWarning else SecondWarning
    ensures exists i :: 0 <= i < |sessions| && Enforcer.Stoppable(sessions[i], user) && c.sessionKey == sessions[i].sessionKey
  {
    var reason := if Decide(table, user, ips, maxWarnings) == WarnTier1 then FirstWarning else SecondWarning;
    Enforcer.StopsForTargets(user, sessions, reason, c);
  }

  /**
   * A ban stops the user's sessions with the final notice, removes the first
   * friend of that name if there is one, and deletes the user's row whether
   * or not a friend was found.
   */
  lemma RevokeResets(table: map<string, int>, user: string, ips: seq<string>, sessions: seq<Session>,
                     directory: seq<DirectoryUser>, maxWarnings: int)
    requires Decide(table, user, ips, maxWarnings) == RevokeAndReset
    ensures Stored(Evaluate(table, user, ips, maxWarnings), user) == 0
    ensures user !in Evaluate(table, user, ips, maxWarnings)
    ensures forall c :: c in Effects(table, user, ips, sessions, directory, maxWarnings) && c.RemoveFriend? ==>
      c.friend.username == user
    ensures (forall i :: 0 <= i < |directory| ==> directory[i].username != user) ==>
      Effects(table, user, ips, sessions, directory, maxWarnings) == Enforcer.StopsFor(user, sessions, FinalNotice)
  {
    var effects := Effects(table, user, ips, sessions, directory, maxWarnings);
    Enforcer.RemovalForFirstMatch(user, directory);
    forall c | c in effects && c.RemoveFriend? ensures c.friend.username == user {
      if c in Enforcer.StopsFor(user, sessions, FinalNotice) {
        Enforcer.StopsForOnlyStops(user, sessions, FinalNotice, c);
      }
    }
  }

  /**
   * Over a detection pass whose users are distinct, each user's count moves
   * at most once: by the one evaluation of that user, from the count it had
   * before the pass.
   */
  lemma {:induction false} RunCycleCount(table: map<string, int>, users: seq<string>, sessions: seq<Session>,
                                         whitelist: seq<string>, directory: seq<DirectoryUser>, maxWarnings: int, v: string)
    requires Scanner.Addressable(sessions, whitelist)
    requires RowsPositive(table)
    requires forall i, j :: 0 <= i < j < |users| ==> users[i] != users[j]
    ensures RowsPositive(RunCycle(table, users, sessions, whitelist, directory, maxWarnings).table)
    ensures Stored(RunCycle(table, users, sessions, whitelist, directory, maxWarnings).table, v) ==
      if v in users && Shared(Scanner.IpsOf(sessions, whitelist, v))
      then AfterStrike(Stored(table, v), maxWarnings)
      else Stored(table, v)
    decreases |users|
  {
    if |users| > 0 {
      var n := |users| - 1;
      var init := users[..n];
      var u := users[n];
      RunCycleCount(table, init, sessions, whitelist, directory, maxWarnings, v);
      RunCycleCount(table, init, sessions, whitelist, directory, maxWarnings, u);
      var prior := RunCycle(table, init, sessions, whitelist, directory, maxWarnings);
      EvaluateCount(prior.table, u, Scanner.IpsOf(sessions, whitelist, u), maxWarnings, v);
      assert u !in init;
      assert v in users <==> v in init || v == u;
    }
  }

  /**
   * In one cycle a user's count goes up by exactly one when the user was
   * seen from more than one distinct address and the new count stays below
   * the ban; it drops to 0 when the new count reaches the ban; otherwise it
   * does not change.
   */
  lemma CycleCount(table: map<string, int>, sessions: seq<Session>, whitelist: seq<string>,
                   directory: seq<DirectoryUser>, maxWarnings: int, v: string)
    requires Scanner.Addressable(sessions, whitelist)
    requires RowsPositive(table)
    ensures RowsPositive(Cycle(table, sessions, whitelist, directory, maxWarnings).table)
    ensures var before := Stored(table, v);
      var after := Stored(Cycle(table, sessions, whitelist, directory, maxWarnings).table, v);
      var ips := Scanner.IpsOf(sessions, whitelist, v);
      && (!Shared(ips) ==> after == before)
      && (Shared(ips) && Escalate(before + 1, maxWarnings) != RevokeAndReset ==> after == before + 1)
      && (Shared(ips) && Escalate(before + 1, maxWarnings) == RevokeAndReset ==> after == 0)
  {
    var users := Scanner.UsersOf(sessions, whitelist);
    RunCycleCount(table, users, sessions, whitelist, directory, maxWarnings, v);
    if v !in users {
      Scanner.CollectedUsersAggregated(sessions, whitelist, v);
      assert Distinct([]) == {};
    }
  }

  /** A whitelisted user's count never changes, however many addresses the user has. */
  lemma WhitelistedCountUnchanged(table: map<string, int>, sessions: seq<Session>, whitelist: seq<string>,
                                  directory: seq<DirectoryUser>, maxWarnings: int, v: string)
    requires Scanner.Addressable(sessions, whitelist)
    requires RowsPositive(table)
    requires Whitelist.IsInWhitelist(whitelist, v)
    ensures Stored(Cycle(table, sessions, whitelist, directory, maxWarnings).table, v) == Stored(table, v)
  {
    Scanner.WhitelistedNotAggregated(sessions, whitelist, v);
    RunCycleCount(table, Scanner.UsersOf(sessions, whitelist), sessions, whitelist, directory, maxWarnings, v);
  }
}
