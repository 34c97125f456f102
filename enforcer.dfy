/**
 * The enforcer: `stop_sessions`, which stops one user's sessions with a
 * given message, and `revoke_access`, which looks the user up among the
 * account's friends and calls `removeFriend` on the first match.
 */
module Enforcer {
  import opened Wrappers
  import opened Plex

  /** A session `stop_sessions` stops for `user`: the user's own, with a valid session id. */
  predicate Stoppable(s: Session, user: string)
  {
    s.user == user && s.sessionId.Some?
  }

  /** The stops `stop_sessions(user, sessions, reason)` issues, in snapshot order. */
  function StopsFor(user: string, sessions: seq<Session>, reason: Reason): seq<Call>
  {
    if |sessions| == 0 then []
    else
      var s := sessions[|sessions| - 1];
      StopsFor(user, sessions[..|sessions| - 1], reason)
      + (if Stoppable(s, user) then [Stop(s.sessionKey, reason)] else [])
  }

  /**
   * A stop is issued exactly for the user's sessions that have a valid
   * session id, always with the given reason; sessions of other users and
   * sessions without an id get none.
   */
  lemma {:induction false} StopsForTargets(user: string, sessions: seq<Session>, reason: Reason, c: Call)
    ensures c in StopsFor(user, sessions, reason) <==>
      exists i :: 0 <= i < |sessions| && Stoppable(sessions[i], user) && c == Stop(sessions[i].sessionKey, reason)
    decreases |sessions|
  {
    if |sessions| > 0 {
      var n := |sessions| - 1;
      var init := sessions[..n];
      assert forall i :: 0 <= i < n ==> init[i] == sessions[i];
      StopsForTargets(user, init, reason, c);
    }
  }

  /** Every call `stop_sessions` makes is a stop; none touches account access. */
  lemma StopsForOnlyStops(user: string, sessions: seq<Session>, reason: Reason, c: Call)
    requires c in StopsFor(user, sessions, reason)
    ensures c.Stop? && c.reason == reason
  {
    StopsForTargets(user, sessions, reason, c);
  }

  /** `stop_sessions`: one stop per stoppable session of the user, others skipped. */
  method StopSessions(user: string, sessions: seq<Session>, reason: Reason) returns (calls: seq<Call>)
    ensures calls == StopsFor(user, sessions, reason)
  {
    calls := [];
    var i := 0;
    while i < |sessions|
      invariant 0 <= i <= |sessions|
      invariant calls == StopsFor(user, sessions[..i], reason)
    {
      var s := sessions[i];
      if s.user == user {
        if s.sessionId.Some? {
          calls := calls + [Stop(s.sessionKey, reason)];
        }
        // a session without a valid id is logged and skipped
      }
      assert sessions[..i + 1][..i] == sessions[..i];
      i := i + 1;
    }
    assert sessions[..i] == sessions;
  }

  /** The `removeFriend` call `revoke_access(name)` makes: on the first friend so named, if any. */
  function RemovalFor(name: string, directory: seq<DirectoryUser>): seq<Call>
  {
    if |directory| == 0 then []
    else if directory[0].username == name then [RemoveFriend(directory[0])]
    else RemovalFor(name, directory[1..])
  }

  /**
   * No call is made when no friend has the name; otherwise exactly one
   * call, on the first friend that has it.
   */
  lemma {:induction false} RemovalForFirstMatch(name: string, directory: seq<DirectoryUser>)
    ensures RemovalFor(name, directory) == [] <==>
      forall i :: 0 <= i < |directory| ==> directory[i].username != name
    ensures RemovalFor(name, directory) != [] ==>
      exists i :: 0 <= i < |directory| && directory[i].username == name
        && (forall j :: 0 <= j < i ==> directory[j].username != name)
        && RemovalFor(name, directory) == [RemoveFriend(directory[i])]
    decreases |directory|
  {
    if |directory| > 0 && directory[0].username != name {
      var rest := directory[1..];
      RemovalForFirstMatch(name, rest);
      assert forall i :: 0 <= i < |rest| ==> rest[i] == directory[i + 1];
      if RemovalFor(name, rest) != [] {
        var i :| 0 <= i < |rest| && rest[i].username == name
          && (forall j :: 0 <= j < i ==> rest[j].username != name)
          && RemovalFor(name, rest) == [RemoveFriend(rest[i])];
        assert directory[i + 1] == rest[i];
        assert forall j :: 0 <= j < i + 1 ==> directory[j].username != name by {
          forall j | 0 < j < i + 1 ensures directory[j].username != name {
            assert directory[j] == rest[j - 1];
          }
        }
      } else {
        forall i | 0 <= i < |directory| ensures directory[i].username != name {
          if i > 0 {
            assert directory[i] == rest[i - 1];
          }
        }
      }
    }
  }

  /** `revoke_access`: a linear search of the friends list that stops at the first match. */
  method RevokeAccess(name: string, directory: seq<DirectoryUser>) returns (calls: seq<Call>)
    ensures calls == RemovalFor(name, directory)
  {
    var found: Option<DirectoryUser> := None;
    var i := 0;
    while i < |directory|
      invariant 0 <= i <= |directory|
      invariant found.None? ==> RemovalFor(name, directory) == RemovalFor(name, directory[i..])
      invariant found.Some? ==> RemovalFor(name, directory) == [RemoveFriend(found.value)]
    {
      if directory[i].username == name {
        found := Some(directory[i]);
        break;
      }
      assert directory[i..][1..] == directory[i + 1..];
      i := i + 1;
    }
    if found.Some? {
      calls := [RemoveFriend(found.value)];
    } else {
      // the user is not a friend of the account: a warning is logged, nothing is called
      calls := [];
    }
  }
}
