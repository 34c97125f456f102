/**
 * Worked cycles: one account watched from two addresses, with and without
 * earlier warnings, and the same for a whitelisted account.
 */
module Scenarios {
  import opened Wrappers
  import opened Plex
  import opened Ledger
  import opened Policy
  import Whitelist
  import Scanner
  import Enforcer
  import Detector

  function Playing(user: string, key: string, ip: string): Session
  {
    Session(user, key, Some("id-" + key), [Player(Some("playing"), ip)])
  }

  function TwoHomes(user: string): seq<Session>
  {
    [Playing(user, "1", "1.1.1.1"), Playing(user, "2", "2.2.2.2")]
  }

  lemma TwoHomesShared(user: string, whitelist: seq<string>)
    requires !Whitelist.IsInWhitelist(whitelist, user)
    ensures Scanner.Addressable(TwoHomes(user), whitelist)
    ensures Scanner.UsersOf(TwoHomes(user), whitelist) == [user]
    ensures Scanner.IpsOf(TwoHomes(user), whitelist, user) == ["1.1.1.1", "2.2.2.2"]
    ensures Detector.Shared(["1.1.1.1", "2.2.2.2"])
  {
    var s := TwoHomes(user);
    var s1 := s[..1];
    assert s1 == [s[0]] && s1[..0] == [];
    assert Scanner.Addressable(s1, whitelist);
    assert Scanner.UsersOf(s1[..0], whitelist) == [];
    assert Scanner.UsersOf(s1, whitelist) == [user];
    assert Scanner.UsersOf(s, whitelist) == Scanner.UsersOf(s1, whitelist);
    assert Scanner.IpsOf(s1[..0], whitelist, user) == [];
    assert Scanner.IpsOf(s1, whitelist, user) == ["1.1.1.1"];
    assert Scanner.IpsOf(s, whitelist, user) == Scanner.IpsOf(s1, whitelist, user) + ["2.2.2.2"];
    assert "1.1.1.1"[0] != "2.2.2.2"[0];
    assert Detector.Distinct(["1.1.1.1", "2.2.2.2"]) == {"1.1.1.1", "2.2.2.2"};
  }

  /** `stop_sessions` on the two sessions stops both, in order. */
  lemma TwoHomesStops(user: string, reason: Reason)
    ensures Enforcer.StopsFor(user, TwoHomes(user), reason) == [Stop("1", reason), Stop("2", reason)]
  {
    var s := TwoHomes(user);
    var s1 := s[..1];
    assert s1 == [s[0]] && s1[..0] == [];
    assert Enforcer.StopsFor(user, s1, reason) == [Stop("1", reason)];
  }

  /** A cycle whose aggregation found one user is that user's evaluation. */
  lemma SingleUserCycle(table: map<string, int>, sessions: seq<Session>, whitelist: seq<string>,
                        directory: seq<DirectoryUser>, user: string)
    requires Scanner.Addressable(sessions, whitelist)
    requires Scanner.UsersOf(sessions, whitelist) == [user]
    ensures var ips := Scanner.IpsOf(sessions, whitelist, user);
      Detector.Cycle(table, sessions, whitelist, directory, DefaultMaxWarnings)
        == Detector.Outcome(Detector.Evaluate(table, user, ips, DefaultMaxWarnings),
                            Detector.Effects(table, user, ips, sessions, directory, DefaultMaxWarnings))
  {
    var users := Scanner.UsersOf(sessions, whitelist);
    assert users[..0] == [];
    assert Detector.RunCycle(table, users[..0], sessions, whitelist, directory, DefaultMaxWarnings)
      == Detector.Outcome(table, []);
  }

  /** A first violation: the count becomes 1 and both sessions get the first notice; nobody is removed. */
  lemma FirstViolation()
    ensures Scanner.Addressable(TwoHomes("alice"), [""])
    ensures Detector.Cycle(map[], TwoHomes("alice"), [""], [DirectoryUser("alice", "7")], DefaultMaxWarnings)
      == Detector.Outcome(map["alice" := 1], [Stop("1", FirstWarning), Stop("2", FirstWarning)])
  {
    TwoHomesShared("alice", [""]);
    TwoHomesStops("alice", FirstWarning);
    SingleUserCycle(map[], TwoHomes("alice"), [""], [DirectoryUser("alice", "7")], "alice");
  }

  /** A third violation: the count reaches 3, the sessions get the final notice, the friend is removed and the row deleted. */
  lemma ThirdViolation()
    ensures Scanner.Addressable(TwoHomes("alice"), [""])
    ensures Detector.Cycle(map["alice" := 2], TwoHomes("alice"), [""], [DirectoryUser("alice", "7")], DefaultMaxWarnings)
      == Detector.Outcome(map[], [Stop("1", FinalNotice), Stop("2", FinalNotice), RemoveFriend(DirectoryUser("alice", "7"))])
  {
    TwoHomesShared("alice", [""]);
    TwoHomesStops("alice", FinalNotice);
    SingleUserCycle(map["alice" := 2], TwoHomes("alice"), [""], [DirectoryUser("alice", "7")], "alice");
    assert map["alice" := 2] - {"alice"} == map[];
  }

  /** A whitelisted account: no count change and no call, whatever its addresses. */
  lemma WhitelistedAccount()
    ensures Scanner.Addressable(TwoHomes("bob"), ["bob"])
    ensures Detector.Cycle(map[], TwoHomes("bob"), ["bob"], [DirectoryUser("bob", "8")], DefaultMaxWarnings)
      == Detector.Outcome(map[], [])
  {
    Scanner.WhitelistedNotAggregated(TwoHomes("bob"), ["bob"], "bob");
    assert Scanner.UsersOf(TwoHomes("bob"), ["bob"]) == [];
  }

  /** Housekeeping stops a paused session and leaves a playing one alone. */
  lemma PausedSessionClosed()
    ensures Scanner.PausedStops([Session("carol", "3", None, [Player(Some(Paused), "3.3.3.3")]),
                                 Playing("dave", "4", "4.4.4.4")])
      == [Stop("3", PausedNotice)]
  {
    var s := [Session("carol", "3", None, [Player(Some(Paused), "3.3.3.3")]), Playing("dave", "4", "4.4.4.4")];
    var s1 := s[..1];
    assert s1 == [s[0]] && s1[..0] == [];
    var carol := s[0].players;
    assert carol[..0] == [];
    assert Scanner.PlayerStops("3", carol) == [Stop("3", PausedNotice)];
    var dave := s[1].players;
    assert dave[..0] == [];
    assert Scanner.PlayerStops("4", dave) == [];
    assert Scanner.PausedStops(s1) == [Stop("3", PausedNotice)];
  }
}
