/**
 * The warning ledger: the `warnings(user TEXT PRIMARY KEY, count INTEGER)`
 * table, modelled as a map from username to count. A missing row means a
 * count of 0.
 */
module Ledger {
  import opened Wrappers

  /** `get_warning_count` on a table: the stored count, or 0 without a row. */
  function Stored(table: map<string, int>, user: string): int
  {
    if user in table then table[user] else 0
  }

  /** The table invariant the program keeps: every row holds a count of at least 1. */
  ghost predicate RowsPositive(table: map<string, int>)
  {
    forall u :: u in table ==> table[u] >= 1
  }

  /**
   * `update_warning_count` as written: an INSERT when the stored count reads
   * as 0, an UPDATE otherwise. The INSERT violates the primary key when a row
   * holding 0 is already there; that failure is `None`.
   */
  function Upsert(table: map<string, int>, user: string, count: int): Option<map<string, int>>
  {
    if Stored(table, user) == 0 && user in table then None
    else Some(table[user := count])
  }

  /**
   * On a table whose rows are all at least 1, the upsert of a count of at
   * least 1 never fails, sets the user's count, leaves every other user's
   * count alone and keeps the invariant.
   */
  lemma UpsertOnPositiveRows(table: map<string, int>, user: string, count: int)
    requires RowsPositive(table)
    requires count >= 1
    ensures Upsert(table, user, count).Some?
    ensures var t := Upsert(table, user, count).value;
      && RowsPositive(t)
      && Stored(t, user) == count
      && forall v :: v != user ==> Stored(t, v) == Stored(table, v)
  {
  }

  /** A row holding 0 makes the next upsert of its user fail, whatever the count. */
  lemma ZeroRowBlocksUpsert(table: map<string, int>, user: string, count: int)
    requires user in table && table[user] == 0
    ensures Upsert(table, user, count) == None
    ensures !RowsPositive(table)
  {
  }

  /** The table behind the three ledger functions. */
  class WarningLedger {
    var table: map<string, int>

    ghost predicate Valid()
      reads this
    {
      RowsPositive(table)
    }

    function Count(user: string): int
      reads this
    {
      Stored(table, user)
    }

    /** Opens the table with the rows a previous run left in it. */
    constructor (restored: map<string, int>)
      ensures table == restored
    {
      table := restored;
    }

    /** `get_warning_count`: the stored count, or 0 when there is no row; it never fails. */
    method Get(user: string) returns (count: int)
      ensures user in table ==> count == table[user]
      ensures user !in table ==> count == 0
    {
      if user in table {
        count := table[user];
      } else {
        count := 0;
      }
    }

    /** `update_warning_count`: insert-or-update decided by testing the stored count against 0. */
    method Update(user: string, count: int) returns (stored: bool)
      modifies this
      ensures Upsert(old(table), user, count) == if stored then Some(table) else None
      ensures !stored ==> table == old(table)
      ensures old(Valid()) && count >= 1 ==> stored && Valid()
      ensures stored ==> Count(user) == count
      ensures forall v :: v != user ==> Count(v) == old(Count(v))
    {
      var current := Get(user);
      if current == 0 {
        if user in table {
          // the INSERT hits the primary key of the existing row
          stored := false;
        } else {
          table := table[user := count];
          stored := true;
        }
      } else {
        table := table[user := count];
        stored := true;
      }
    }

    /** `reset_warning_count`: deletes the user's row. */
    method Reset(user: string)
      modifies this
      ensures table == old(table) - {user}
      ensures Count(user) == 0
      ensures forall v :: v != user ==> Count(v) == old(Count(v))
      ensures old(Valid()) ==> Valid()
    {
      table := table - {user};
    }
  }
}
