/**
 * The two passes of `check_sessions` over the server's sessions: the
 * housekeeping pass that stops paused sessions, and the aggregation pass
 * that groups the addresses of non-whitelisted sessions by user.
 */
module Scanner {
  import opened Wrappers
  import opened Plex
  import Whitelist

  predicate IsPaused(p: Player)
  {
    p.state == Some(Paused)
  }

  /** The stops housekeeping issues for one session's players: one per paused player. */
  function PlayerStops(key: string, players: seq<Player>): seq<Call>
  {
    if |players| == 0 then []
    else
      PlayerStops(key, players[..|players| - 1])
      + (if IsPaused(players[|players| - 1]) then [Stop(key, PausedNotice)] else [])
  }

  /** The stops housekeeping issues over a whole snapshot, session by session. */
  function PausedStops(sessions: seq<Session>): seq<Call>
  {
    if |sessions| == 0 then []
    else
      var s := sessions[|sessions| - 1];
      PausedStops(sessions[..|sessions| - 1]) + PlayerStops(s.sessionKey, s.players)
  }

  /** The paused players of a session, by position. */
  function PausedPositions(players: seq<Player>): set<nat>
  {
    set j: nat | j < |players| && IsPaused(players[j])
  }

  /** One session gets exactly one stop per paused player, all with the housekeeping reason. */
  lemma {:induction false} PlayerStopsCount(key: string, players: seq<Player>)
    ensures |PlayerStops(key, players)| == |PausedPositions(players)|
    ensures forall c :: c in PlayerStops(key, players) ==> c == Stop(key, PausedNotice)
    decreases |players|
  {
    if |players| > 0 {
      var n := |players| - 1;
      var init := players[..n];
      PlayerStopsCount(key, init);
      if IsPaused(players[n]) {
        assert PausedPositions(players) == PausedPositions(init) + {n};
      } else {
        assert PausedPositions(players) == PausedPositions(init);
      }
    }
  }

  /**
   * Housekeeping stops a session exactly when one of its players reports
   * the paused state, and stops nothing else.
   */
  lemma {:induction false} PausedStopsTargets(sessions: seq<Session>, c: Call)
    ensures c in PausedStops(sessions) <==>
      exists i, j :: 0 <= i < |sessions| && 0 <= j < |sessions[i].players|
        && IsPaused(sessions[i].players[j]) && c == Stop(sessions[i].sessionKey, PausedNotice)
    decreases |sessions|
  {
    if |sessions| > 0 {
      var n := |sessions| - 1;
      var init := sessions[..n];
      PausedStopsTargets(init, c);
      PlayerStopsTargets(sessions[n].sessionKey, sessions[n].players, c);
      if c in PausedStops(sessions) {
        if c in PausedStops(init) {
          var i, j :| 0 <= i < |init| && 0 <= j < |init[i].players|
            && IsPaused(init[i].players[j]) && c == Stop(init[i].sessionKey, PausedNotice);
          assert sessions[i] == init[i];
        } else {
          var j :| 0 <= j < |sessions[n].players| && IsPaused(sessions[n].players[j])
            && c == Stop(sessions[n].sessionKey, PausedNotice);
        }
      } else {
        forall i, j | 0 <= i < |sessions| && 0 <= j < |sessions[i].players| && IsPaused(sessions[i].players[j])
          ensures c != Stop(sessions[i].sessionKey, PausedNotice)
        {
          if i < n {
            assert sessions[i] == init[i];
          }
        }
      }
    }
  }

  lemma {:induction false} PlayerStopsTargets(key: string, players: seq<Player>, c: Call)
    ensures c in PlayerStops(key, players) <==>
      exists j :: 0 <= j < |players| && IsPaused(players[j]) && c == Stop(key, PausedNotice)
    decreases |players|
  {
    if |players| > 0 {
      var n := |players| - 1;
      PlayerStopsTargets(key, players[..n], c);
      if c in PlayerStops(key, players[..n]) {
        var j :| 0 <= j < n && IsPaused(players[..n][j]) && c == Stop(key, PausedNotice);
        assert players[j] == players[..n][j];
      }
      if exists j :: 0 <= j < |players| && IsPaused(players[j]) && c == Stop(key, PausedNotice) {
        var j :| 0 <= j < |players| && IsPaused(players[j]) && c == Stop(key, PausedNotice);
        if j < n {
          assert players[..n][j] == players[j];
        }
      }
    }
  }

  /** The housekeeping pass: every paused player's session is stopped, once per such player. */
  method CloseAllPaused(sessions: seq<Session>) returns (calls: seq<Call>)
    ensures calls == PausedStops(sessions)
  {
    calls := [];
    var i := 0;
    while i < |sessions|
      invariant 0 <= i <= |sessions|
      invariant calls == PausedStops(sessions[..i])
    {
      var s := sessions[i];
      var j := 0;
      ghost var before := calls;
      while j < |s.players|
        invariant 0 <= j <= |s.players|
        invariant calls == before + PlayerStops(s.sessionKey, s.players[..j])
      {
        var p := s.players[j];
        if p.state.Some? && p.state.value == Paused {
          calls := calls + [Stop(s.sessionKey, PausedNotice)];
        }
        assert s.players[..j + 1][..j] == s.players[..j];
        j := j + 1;
      }
      assert s.players[..j] == s.players;
      assert sessions[..i + 1][..i] == sessions[..i];
      i := i + 1;
    }
    assert sessions[..i] == sessions;
  }

  /** A session the aggregation pass looks at: its user is not whitelisted. */
  predicate Watched(s: Session, whitelist: seq<string>)
  {
    !Whitelist.IsInWhitelist(whitelist, s.user)
  }

  /**
   * Every watched session has a player whose address can be read; the
   * aggregation pass raises an IndexError on the first one that does not.
   */
  predicate Addressable(sessions: seq<Session>, whitelist: seq<string>)
  {
    forall i :: 0 <= i < |sessions| && Watched(sessions[i], whitelist) ==> |sessions[i].players| > 0
  }

  /** The addresses of the user's watched sessions, in snapshot order (with repeats). */
  function IpsOf(sessions: seq<Session>, whitelist: seq<string>, user: string): seq<string>
    requires Addressable(sessions, whitelist)
  {
    if |sessions| == 0 then []
    else
      var n := |sessions| - 1;
      var s := sessions[n];
      assert Addressable(sessions[..n], whitelist) by {
        forall i | 0 <= i < n && Watched(sessions[..n][i], whitelist)
          ensures |sessions[..n][i].players| > 0
        {
          assert sessions[..n][i] == sessions[i];
        }
      }
      IpsOf(sessions[..n], whitelist, user)
      + (if s.user == user && Watched(s, whitelist) then [s.players[0].address] else [])
  }

  /**
   * The users of the watched sessions in order of first appearance, each
   * once: the keys of `user_ips` in the order the dict holds them.
   */
  function UsersOf(sessions: seq<Session>, whitelist: seq<string>): (users: seq<string>)
    ensures forall i, j :: 0 <= i < j < |users| ==> users[i] != users[j]
    ensures forall u :: u in users <==>
      exists k :: 0 <= k < |sessions| && sessions[k].user == u && Watched(sessions[k], whitelist)
  {
    if |sessions| == 0 then []
    else
      var n := |sessions| - 1;
      var s := sessions[n];
      var prior := UsersOf(sessions[..n], whitelist);
      assert forall k :: 0 <= k < n ==> sessions[..n][k] == sessions[k];
      if Watched(s, whitelist) && s.user !in prior then prior + [s.user] else prior
  }

  /**
   * An address is listed for a user exactly when one of the user's watched
   * sessions has it as its first player's address.
   */
  lemma {:induction false} IpsOfSources(sessions: seq<Session>, whitelist: seq<string>, user: string, ip: string)
    requires Addressable(sessions, whitelist)
    ensures ip in IpsOf(sessions, whitelist, user) <==>
      exists k :: 0 <= k < |sessions| && sessions[k].user == user && Watched(sessions[k], whitelist)
        && sessions[k].players[0].address == ip
    decreases |sessions|
  {
    if |sessions| > 0 {
      var n := |sessions| - 1;
      var init := sessions[..n];
      assert forall k :: 0 <= k < n ==> init[k] == sessions[k];
      assert Addressable(init, whitelist);
      IpsOfSources(init, whitelist, user, ip);
    }
  }

  /** A whitelisted user is never a key of `user_ips` and has no addresses collected. */
  lemma WhitelistedNotAggregated(sessions: seq<Session>, whitelist: seq<string>, user: string)
    requires Addressable(sessions, whitelist)
    requires Whitelist.IsInWhitelist(whitelist, user)
    ensures user !in UsersOf(sessions, whitelist)
    ensures IpsOf(sessions, whitelist, user) == []
  {
    if IpsOf(sessions, whitelist, user) != [] {
      var ip := IpsOf(sessions, whitelist, user)[0];
      IpsOfSources(sessions, whitelist, user, ip);
    }
  }

  /** A user has addresses collected only when the user is among the aggregated users. */
  lemma CollectedUsersAggregated(sessions: seq<Session>, whitelist: seq<string>, user: string)
    requires Addressable(sessions, whitelist)
    requires user !in UsersOf(sessions, whitelist)
    ensures IpsOf(sessions, whitelist, user) == []
  {
    if IpsOf(sessions, whitelist, user) != [] {
      var ip := IpsOf(sessions, whitelist, user)[0];
      IpsOfSources(sessions, whitelist, user, ip);
    }
  }

  /**
   * The aggregation pass. `ok` is false when a watched session has no
   * player (the source raises there); otherwise `order` lists the users of
   * `userIps` as the dict orders its keys, and each user's list holds the
   * addresses of that user's watched sessions.
   */
  method Aggregate(sessions: seq<Session>, whitelist: seq<string>)
    returns (ok: bool, order: seq<string>, userIps: map<string, seq<string>>)
    ensures ok == Addressable(sessions, whitelist)
    ensures ok ==> order == UsersOf(sessions, whitelist)
    ensures ok ==> userIps.Keys == set u | u in order
    ensures ok ==> forall u :: u in userIps ==> userIps[u] == IpsOf(sessions, whitelist, u)
  {
    order, userIps := [], map[];
    var i := 0;
    while i < |sessions|
      invariant 0 <= i <= |sessions|
      invariant Addressable(sessions[..i], whitelist)
      invariant order == UsersOf(sessions[..i], whitelist)
      invariant userIps.Keys == set u | u in order
      invariant forall u :: u in userIps ==> userIps[u] == IpsOf(sessions[..i], whitelist, u)
      invariant forall u :: u !in userIps ==> IpsOf(sessions[..i], whitelist, u) == []
    {
      var s := sessions[i];
      assert sessions[..i + 1][..i] == sessions[..i];
      assert sessions[..i + 1][i] == s;
      if Whitelist.IsInWhitelist(whitelist, s.user) {
        i := i + 1;
        continue;
      }
      if |s.players| == 0 {
        ok := false;
        return;
      }
      order, userIps := Collect(sessions, whitelist, i, order, userIps);
      i := i + 1;
    }
    assert sessions[..i] == sessions;
    ok := true;
  }

  /**
   * One pass of the aggregation loop on a watched session with a player:
   * its user is appended to the order on first sight, and its first
   * player's address to that user's list.
   */
  method Collect(sessions: seq<Session>, whitelist: seq<string>, i: nat, order: seq<string>, userIps: map<string, seq<string>>)
    returns (order': seq<string>, userIps': map<string, seq<string>>)
    requires i < |sessions| && Watched(sessions[i], whitelist) && |sessions[i].players| > 0
    requires Addressable(sessions[..i], whitelist)
    requires order == UsersOf(sessions[..i], whitelist)
    requires userIps.Keys == set u | u in order
    requires forall u :: u in userIps ==> userIps[u] == IpsOf(sessions[..i], whitelist, u)
    requires forall u :: u !in userIps ==> IpsOf(sessions[..i], whitelist, u) == []
    ensures Addressable(sessions[..i + 1], whitelist)
    ensures order' == UsersOf(sessions[..i + 1], whitelist)
    ensures userIps'.Keys == set u | u in order'
    ensures forall u :: u in userIps' ==> userIps'[u] == IpsOf(sessions[..i + 1], whitelist, u)
    ensures forall u :: u !in userIps' ==> IpsOf(sessions[..i + 1], whitelist, u) == []
  {
    var s := sessions[i];
    assert sessions[..i + 1][..i] == sessions[..i];
    assert sessions[..i + 1][i] == s;
    var ip := s.players[0].address;
    order', userIps' := order, userIps;
    if s.user !in userIps' {
      userIps' := userIps'[s.user := []];
      order' := order' + [s.user];
    }
    userIps' := userIps'[s.user := userIps'[s.user] + [ip]];
  }
}
