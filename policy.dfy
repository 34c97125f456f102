/**
 * The escalation policy: the action a user's new warning count calls for,
 * and what repeated violations do to the count.
 */
module Policy {
  /** The threshold the program is configured with. */
  const DefaultMaxWarnings: int := 3

  datatype Action = NoAction | WarnTier1 | WarnTier2 | RevokeAndReset

  /** The action for a new warning count: ban at the threshold, first notice at 1, second notice otherwise. */
  function Escalate(count: int, maxWarnings: int): (a: Action)
    ensures a != NoAction
    ensures a == RevokeAndReset <==> count >= maxWarnings
    ensures a == WarnTier1 <==> count == 1 && count < maxWarnings
    ensures a == WarnTier2 <==> count < maxWarnings && count != 1
  {
    if count >= maxWarnings then RevokeAndReset
    else if count == 1 then WarnTier1
    else WarnTier2
  }

  /** The stored count after one more violation: the incremented count, or 0 when it triggered the ban. */
  function AfterStrike(count: int, maxWarnings: int): int
  {
    var next := count + 1;
    if Escalate(next, maxWarnings) == RevokeAndReset then 0 else next
  }

  /** The stored count after `k` violating cycles in a row. */
  function Strikes(count: int, maxWarnings: int, k: nat): int
  {
    if k == 0 then count else AfterStrike(Strikes(count, maxWarnings, k - 1), maxWarnings)
  }

  /**
   * For a positive count, exactly one of the three actions is chosen, and
   * which one depends only on how the count compares with 1 and the threshold.
   */
  lemma EscalationTiers(count: int, maxWarnings: int)
    requires count >= 1
    ensures Escalate(count, maxWarnings) != NoAction
    ensures Escalate(count, maxWarnings) == RevokeAndReset <==> count >= maxWarnings
    ensures Escalate(count, maxWarnings) == WarnTier1 <==> count == 1 < maxWarnings
    ensures Escalate(count, maxWarnings) == WarnTier2 <==> 1 < count < maxWarnings
  {
  }

  /** With the configured threshold of 3: first notice, second notice, then the ban. */
  lemma DefaultLadder(count: int)
    requires count >= 1
    ensures count == 1 ==> Escalate(count, DefaultMaxWarnings) == WarnTier1
    ensures count == 2 ==> Escalate(count, DefaultMaxWarnings) == WarnTier2
    ensures count >= 3 ==> Escalate(count, DefaultMaxWarnings) == RevokeAndReset
  {
  }

  /**
   * A violation raises a non-negative count by exactly one, except that the
   * count is reset to 0 exactly when the ban fires.
   */
  lemma StrikeResetsOnlyOnRevoke(count: int, maxWarnings: int)
    requires count >= 0
    ensures AfterStrike(count, maxWarnings) == 0 <==> Escalate(count + 1, maxWarnings) == RevokeAndReset
    ensures AfterStrike(count, maxWarnings) != 0 ==> AfterStrike(count, maxWarnings) == count + 1
  {
  }

  /**
   * Starting from a clean record, after `q` full rounds and `r` more
   * violating cycles in a row (`r` below the threshold) the stored count is
   * `r`: the counter climbs to the threshold, resets with the ban and climbs
   * again.
   */
  lemma {:induction false} StreakRounds(maxWarnings: int, q: nat, r: nat)
    requires r < maxWarnings
    ensures q * maxWarnings + r >= 0
    ensures Strikes(0, maxWarnings, q * maxWarnings + r) == r
    decreases q, r
  {
    assert q * maxWarnings >= 0;
    if r > 0 {
      StreakRounds(maxWarnings, q, r - 1);
    } else if q > 0 {
      StreakRounds(maxWarnings, q - 1, maxWarnings - 1);
      assert (q - 1) * maxWarnings + (maxWarnings - 1) + 1 == q * maxWarnings;
    }
  }

  /** The same, stated with the remainder: `k` violations in a row leave `k % maxWarnings`. */
  lemma StreakCycles(maxWarnings: int, k: nat)
    requires maxWarnings >= 1
    ensures Strikes(0, maxWarnings, k) == k % maxWarnings
  {
    var q, r := k / maxWarnings, k % maxWarnings;
    assert k == q * maxWarnings + r;
    StreakRounds(maxWarnings, q, r);
  }

  /**
   * With the configured threshold of 3, the `k`-th violation in a row from a
   * clean record brings the first notice, the second notice and the ban in
   * turn.
   */
  lemma DefaultStreakActions(k: nat)
    requires k >= 1
    ensures var a := Escalate(Strikes(0, DefaultMaxWarnings, k - 1) + 1, DefaultMaxWarnings);
      && ((k - 1) % 3 == 0 ==> a == WarnTier1)
      && ((k - 1) % 3 == 1 ==> a == WarnTier2)
      && ((k - 1) % 3 == 2 ==> a == RevokeAndReset)
  {
    StreakCycles(DefaultMaxWarnings, k - 1);
  }
}
