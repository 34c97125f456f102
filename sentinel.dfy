/**
 * One polling cycle of the sentinel (`check_sessions`), over the state it
 * keeps between cycles: the warning ledger, the in-memory `warnings` cache
 * that mirrors it, and the record of the calls made on the Plex server and
 * account.
 */
module Sentinel {
  import opened Plex
  import opened Ledger
  import opened Policy
  import Whitelist
  import Scanner
  import Enforcer
  import Detector

  class StreamSentinel {
    const whitelist: seq<string>
    const maxWarnings: int
    const ledger: WarningLedger
    /** The `warnings` cache: counts of the users evaluated since start-up. */
    var warnings: map<string, int>
    /** Every `stop` and `removeFriend` call made so far, in order. */
    var log: seq<Call>

    /** The ledger keeps its rows at least 1, and every cached count agrees with the ledger. */
    ghost predicate Valid()
      reads this, ledger
    {
      && ledger.Valid()
      && forall u :: u in warnings ==> warnings[u] == ledger.Count(u)
    }

    /** Start-up: the whitelist is the configured string split on commas; the cache is empty. */
    constructor (whitelistConfig: string, maxWarnings: int, ledger: WarningLedger)
      requires ledger.Valid()
      ensures Valid()
      ensures whitelist == Whitelist.Split(whitelistConfig, Whitelist.Separator)
      ensures this.maxWarnings == maxWarnings && this.ledger == ledger
      ensures warnings == map[] && log == []
    {
      whitelist := Whitelist.Split(whitelistConfig, Whitelist.Separator);
      this.maxWarnings := maxWarnings;
      this.ledger := ledger;
      warnings := map[];
      log := [];
    }

    /**
     * A violation: the user's count is loaded into the cache on first touch,
     * incremented, and persisted to the ledger.
     */
    method RecordStrike(user: string) returns (count: int)
      requires Valid()
      modifies this, ledger
      ensures Valid()
      ensures count == Stored(old(ledger.table), user) + 1 && count >= 1
      ensures ledger.table == old(ledger.table)[user := count]
      ensures warnings == old(warnings)[user := count]
      ensures log == old(log)
    {
      if user !in warnings {
        var loaded := ledger.Get(user);
        warnings := warnings[user := loaded];
      }
      count := warnings[user] + 1;
      warnings := warnings[user := count];
      var stored := ledger.Update(user, count);
      // every row is at least 1, so the INSERT branch never meets an existing row
      assert stored;
    }

    /**
     * The one action the new count calls for. The ban stops
     * the sessions, removes the friend, deletes the row and zeroes the cache;
     * the two warnings only stop the sessions.
     */
    method Escalation(user: string, count: int, sessions: seq<Session>, directory: seq<DirectoryUser>)
      requires Valid()
      requires ledger.Count(user) == count >= 1
      modifies this, ledger
      ensures Valid()
      ensures Escalate(count, maxWarnings) == RevokeAndReset ==>
        && ledger.table == old(ledger.table) - {user}
        && warnings == old(warnings)[user := 0]
        && log == old(log) + Enforcer.StopsFor(user, sessions, FinalNotice) + Enforcer.RemovalFor(user, directory)
      ensures Escalate(count, maxWarnings) == WarnTier1 ==>
        && ledger.table == old(ledger.table)
        && warnings == old(warnings)
        && log == old(log) + Enforcer.StopsFor(user, sessions, FirstWarning)
      ensures Escalate(count, maxWarnings) == WarnTier2 ==>
        && ledger.table == old(ledger.table)
        && warnings == old(warnings)
        && log == old(log) + Enforcer.StopsFor(user, sessions, SecondWarning)
    {
      if count >= maxWarnings {
        var stops := Enforcer.StopSessions(user, sessions, FinalNotice);
        var removal := Enforcer.RevokeAccess(user, directory);
        log := log + stops + removal;
        ledger.Reset(user);
        warnings := warnings[user := 0];
      } else if count == 1 {
        var stops := Enforcer.StopSessions(user, sessions, FirstWarning);
        log := log + stops;
      } else {
        var stops := Enforcer.StopSessions(user, sessions, SecondWarning);
        log := log + stops;
      }
    }

    /**
     * One pass of the detection loop: a shared account has its count loaded
     * (from the ledger on first touch), incremented and persisted, then gets
     * the one action the new count calls for.
     */
    method EvaluateUser(user: string, ips: seq<string>, sessions: seq<Session>, directory: seq<DirectoryUser>)
      requires Valid()
      modifies this, ledger
      ensures Valid()
      ensures ledger.table == Detector.Evaluate(old(ledger.table), user, ips, maxWarnings)
      ensures log == old(log) + Detector.Effects(old(ledger.table), user, ips, sessions, directory, maxWarnings)
      ensures Detector.Shared(ips) ==> warnings == old(warnings)[user := ledger.Count(user)]
      ensures !Detector.Shared(ips) ==> warnings == old(warnings)
      ensures warnings.Keys == old(warnings).Keys + (if Detector.Shared(ips) then {user} else {})
    {
      var unique := set ip | ip in ips;
      assert unique == Detector.Distinct(ips);
      if |unique| > 1 {
        var count := RecordStrike(user);
        Escalation(user, count, sessions, directory);
      }
    }

    /**
     * `check_sessions` on the two snapshots the server returned before and
     * after the settle delay. `completed` is false when the aggregation pass
     * met a watched session without a player. In the program that is an
     * IndexError nobody catches, so the process stops; here the cycle ends
     * after housekeeping with the ledger and the cache untouched. After a
     * completed cycle the cache holds, besides its old users, every user
     * seen from more than one distinct address.
     */
    method CheckSessions(first: seq<Session>, second: seq<Session>, directory: seq<DirectoryUser>)
      returns (completed: bool)
      requires Valid()
      modifies this, ledger
      ensures Valid()
      ensures completed == Scanner.Addressable(second, whitelist)
      ensures !completed ==> ledger.table == old(ledger.table) && log == old(log) + Scanner.PausedStops(first)
      ensures !completed ==> warnings == old(warnings)
      ensures completed ==>
        var outcome := Detector.Cycle(old(ledger.table), second, whitelist, directory, maxWarnings);
        ledger.table == outcome.table && log == old(log) + Scanner.PausedStops(first) + outcome.calls
      ensures completed ==>
        warnings.Keys == old(warnings).Keys + Detector.SharedUsers(Scanner.UsersOf(second, whitelist), second, whitelist)
    {
      var housekeeping := Scanner.CloseAllPaused(first);
      log := log + housekeeping;

      var order, userIps;
      completed, order, userIps := Scanner.Aggregate(second, whitelist);
      if !completed {
        return;
      }

      DetectAll(order, userIps, second, directory);
    }

    /** The detection loop over the aggregated users, in the order `user_ips` holds them. */
    method DetectAll(order: seq<string>, userIps: map<string, seq<string>>, sessions: seq<Session>,
                     directory: seq<DirectoryUser>)
      requires Valid()
      requires Scanner.Addressable(sessions, whitelist)
      requires forall u :: u in order ==> u in userIps && userIps[u] == Scanner.IpsOf(sessions, whitelist, u)
      modifies this, ledger
      ensures Valid()
      ensures var outcome := Detector.RunCycle(old(ledger.table), order, sessions, whitelist, directory, maxWarnings);
        ledger.table == outcome.table && log == old(log) + outcome.calls
      ensures warnings.Keys == old(warnings).Keys + Detector.SharedUsers(order, sessions, whitelist)
    {
      ghost var table0, log0, cached0 := ledger.table, log, warnings.Keys;
      var i := 0;
      while i < |order|
        invariant 0 <= i <= |order|
        invariant Valid()
        invariant ledger.table == Detector.RunCycle(table0, order[..i], sessions, whitelist, directory, maxWarnings).table
        invariant log == log0 + Detector.RunCycle(table0, order[..i], sessions, whitelist, directory, maxWarnings).calls
        invariant warnings.Keys == cached0 + Detector.SharedUsers(order[..i], sessions, whitelist)
      {
        DetectNext(order, i, userIps[order[i]], sessions, directory, table0, log0, cached0);
        i := i + 1;
      }
      assert order[..i] == order;
    }

    /** One pass of the detection loop, on the `i`-th aggregated user, stated against the passes before it. */
    method DetectNext(order: seq<string>, i: nat, ips: seq<string>, sessions: seq<Session>, directory: seq<DirectoryUser>,
                      ghost table0: map<string, int>, ghost log0: seq<Call>, ghost cached0: set<string>)
      requires Valid()
      requires Scanner.Addressable(sessions, whitelist)
      requires i < |order| && ips == Scanner.IpsOf(sessions, whitelist, order[i])
      requires ledger.table == Detector.RunCycle(table0, order[..i], sessions, whitelist, directory, maxWarnings).table
      requires log == log0 + Detector.RunCycle(table0, order[..i], sessions, whitelist, directory, maxWarnings).calls
      requires warnings.Keys == cached0 + Detector.SharedUsers(order[..i], sessions, whitelist)
      modifies this, ledger
      ensures Valid()
      ensures ledger.table == Detector.RunCycle(table0, order[..i + 1], sessions, whitelist, directory, maxWarnings).table
      ensures log == log0 + Detector.RunCycle(table0, order[..i + 1], sessions, whitelist, directory, maxWarnings).calls
      ensures warnings.Keys == cached0 + Detector.SharedUsers(order[..i + 1], sessions, whitelist)
    {
      Detector.RunCycleStep(table0, order, i, sessions, whitelist, directory, maxWarnings);
      Detector.SharedUsersStep(order, i, sessions, whitelist);
      EvaluateUser(order[i], ips, sessions, directory);
    }
  }
}
