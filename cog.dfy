/**
 * The `Blacklist` cog as an object: the table it keeps in `blacklist.db`
 * becomes a field that the admin commands and the minute-by-minute
 * reconciliation loop update in place.
 */
module Cog {
  import opened Wrappers
  import opened Expiry
  import opened Store
  import opened Commands

  /** A tick part-way through: the rows still `pending` have not been looked at yet. */
  ghost function PrunedExcept(rows: Table, pending: set<int>, now: int): Table {
    map u | u in rows && (u in pending || !Expired(rows[u], now)) :: rows[u]
  }

  /** A non-empty set of user ids has a member to pick. */
  lemma HasMember(s: set<int>)
    requires s != {}
    ensures exists u :: u in s
  {
    if forall u :: u !in s {
      assert false;
    }
  }

  /** Looking at one more pending row deletes it exactly when it is expired. */
  lemma PrunedExceptStep(rows: Table, pending: set<int>, now: int, u: int)
    requires u in pending && pending <= rows.Keys
    ensures PrunedExcept(rows, pending - {u}, now) ==
              if Expired(rows[u], now) then PrunedExcept(rows, pending, now) - {u}
              else PrunedExcept(rows, pending, now)
  {
  }

  /** With nothing pending, the tick is complete. */
  lemma PrunedExceptDone(rows: Table, now: int)
    ensures PrunedExcept(rows, {}, now) == Pruned(rows, now)
  {
  }

  class Blacklist {
    /** The rows of the `blacklist` table */
    var table: Table
    /** `self.creators`, the allow-list for the admin commands */
    const creators: seq<int>

    ghost predicate Valid()
      reads this
    {
      Keyed(table)
    }

    /** The cog as `setup` registers it, over whatever table is already stored. */
    constructor (stored: Table)
      requires Keyed(stored)
      ensures Valid() && table == stored && creators == [Creator]
    {
      table := stored;
      creators := [Creator];
    }

    /** The `add-blacklist` slash command. */
    method AddBlacklist(author: int, target: int, duration: int, durationType: string,
                        reason: string, now: int) returns (reply: Reply)
      requires Valid() && IsInstant(now)
      modifies this
      ensures Valid()
      ensures Outcome(reply, table) == Add(old(table), creators, author, target, duration, durationType, reason, now)
      ensures reply in {NoPermission, CannotTargetSelf, Raised(OverflowError)} ==> table == old(table)
    {
      if author !in creators {
        return NoPermission;
      }
      if target == author {
        return CannotTargetSelf;
      }
      var expiresAt := CalculateExpiry(now, duration, durationType);
      if expiresAt.Overflow? {
        return Raised(OverflowError);
      }
      var stamp := StampOf(expiresAt);
      table := table[target := Row(target, reason, author, stamp)];
      match Strptime(stamp) {
        case None =>
          reply := Raised(ValueError);
        case Some(_) =>
          reply := Blacklisted(table[target]);
      }
    }

    /** The `remove-blacklist` slash command. */
    method RemoveBlacklist(author: int, target: int) returns (reply: Reply)
      requires Valid()
      modifies this
      ensures Valid()
      ensures Outcome(reply, table) == Remove(old(table), creators, author, target)
      ensures reply != Removed
    {
      if author !in creators {
        return NoPermission;
      }
      if target == author {
        return CannotTargetSelf;
      }
      table := table - {target};
      // the lookup that follows the delete
      if target !in table {
        reply := NotInBlacklist;
      } else {
        reply := Removed;
      }
    }

    /**
     * One run of `check_blacklist_loop`: walk a snapshot of all rows and
     * delete each timed row whose instant is strictly before `now`. Lifetime
     * rows are skipped before the parse, so the parse never fails here.
     */
    method CheckBlacklistLoop(now: int)
      requires Valid()
      modifies this
      ensures Valid()
      ensures table == Pruned(old(table), now)
    {
      var rows := table;
      var pending := rows.Keys;
      while pending != {}
        invariant pending <= rows.Keys && Keyed(rows)
        invariant rows == old(table)
        invariant table == PrunedExcept(rows, pending, now)
        decreases pending
      {
        HasMember(pending);
        var u :| u in pending;
        var row := rows[u];
        PrunedExceptStep(rows, pending, now, u);
        if row.expiresAt != Lifetime {
          var expiresAt := Strptime(row.expiresAt);
          if now > expiresAt.value {
            table := table - {row.userId};
          }
        }
        pending := pending - {u};
      }
      PrunedExceptDone(rows, now);
    }
  }
}
