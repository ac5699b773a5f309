/**
 * The blacklist cog's commands as transitions on the table: the two admin
 * commands `add-blacklist` and `remove-blacklist`, the gate `is_blacklist`
 * that other commands consult, and the `blacklist-info` lookup. Each gives
 * the reply the user sees (embeds reduced to the row they display) and the
 * table afterwards. `Raised` stands for an exception escaping the handler.
 */
module Commands {
  import opened Wrappers
  import opened Expiry
  import opened Store

  /** The id in `self.creators`, the only user allowed to add or remove */
  const Creator: int := 852888051432685608

  datatype Error = OverflowError | ValueError

  datatype Reply =
    | NoPermission            // "You don't have permission to use this command."
    | CannotTargetSelf        // "You can't blacklist yourself." / "You can't remove yourself ..."
    | NotInBlacklist          // "<user> is not in the blacklist."
    | Blacklisted(row: Row)   // the "User Blacklisted" embed
    | Removed                 // the "User Removed from Blacklist" embed
    | Info(row: Row)          // the "User Blacklist Info" embed
    | Raised(error: Error)    // the handler raised before replying

  /** What `is_blacklist` does: returns False, shows the ban embed and returns True, or raises */
  datatype GateResult = Allowed | Banned(row: Row) | GateRaised(error: Error)

  datatype Outcome = Outcome(reply: Reply, table: Table)

  /** The two guards shared by add and remove */
  predicate Authorized(creators: seq<int>, author: int, target: int) {
    author in creators && target != author
  }

  /** Every row other than `target`'s is the same in both tables. */
  ghost predicate OthersUnchanged(t: Table, t': Table, target: int) {
    forall u :: u != target ==> (u in t' <==> u in t) && (u in t ==> t'[u] == t[u])
  }

  /**
   * `add_blacklist`: the permission and self-target guards, the expiry
   * calculation, INSERT OR REPLACE, and then the confirmation, which parses
   * the stored text back and so raises for a Lifetime ban after the row is
   * committed.
   */
  function Add(t: Table, creators: seq<int>, author: int, target: int, duration: int,
               durationType: string, reason: string, now: int): (o: Outcome)
    requires IsInstant(now)
    ensures author !in creators ==> o == Outcome(NoPermission, t)
    ensures author in creators && target == author ==> o == Outcome(CannotTargetSelf, t)
    ensures OthersUnchanged(t, o.table, target)
    ensures o.reply == Raised(OverflowError) <==>
              Authorized(creators, author, target) && CalculateExpiry(now, duration, durationType).Overflow?
    ensures o.reply == Raised(OverflowError) ==> o.table == t
    ensures Authorized(creators, author, target) && !CalculateExpiry(now, duration, durationType).Overflow? ==>
              && target in o.table
              && o.table[target] == Row(target, reason, author, StampOf(CalculateExpiry(now, duration, durationType)))
              && (o.reply == Raised(ValueError) <==> o.table[target].expiresAt == Lifetime)
              && (o.reply != Raised(ValueError) ==> o.reply == Blacklisted(o.table[target]))
    ensures Keyed(t) ==> Keyed(o.table)
  {
    if author !in creators then Outcome(NoPermission, t)
    else if target == author then Outcome(CannotTargetSelf, t)
    else
      var expiresAt := CalculateExpiry(now, duration, durationType);
      if expiresAt.Overflow? then Outcome(Raised(OverflowError), t)
      else
        var row := Row(target, reason, author, StampOf(expiresAt));
        var t' := t[target := row];
        match Strptime(row.expiresAt)
        case None => Outcome(Raised(ValueError), t')
        case Some(_) => Outcome(Blacklisted(row), t')
  }

  /**
   * `remove_blacklist`: the same two guards, DELETE, and then a lookup of
   * the row it has just deleted, so the reply is "not in the blacklist"
   * whether or not a row existed.
   */
  function Remove(t: Table, creators: seq<int>, author: int, target: int): (o: Outcome)
    ensures author !in creators ==> o == Outcome(NoPermission, t)
    ensures author in creators && target == author ==> o == Outcome(CannotTargetSelf, t)
    ensures Authorized(creators, author, target) ==> o.reply == NotInBlacklist && target !in o.table
    ensures OthersUnchanged(t, o.table, target)
    ensures Keyed(t) ==> Keyed(o.table)
  {
    if author !in creators then Outcome(NoPermission, t)
    else if target == author then Outcome(CannotTargetSelf, t)
    else
      var t' := t - {target};
      if target !in t' then Outcome(NotInBlacklist, t')
      else Outcome(Removed, t')
  }

  /**
   * `is_blacklist`: looks the author up and, on a hit, parses the stored
   * expiry to show it. It never compares the expiry with the clock; a
   * Lifetime row makes the parse raise.
   */
  function IsBlacklist(t: Table, author: int): (r: GateResult)
    ensures r.Allowed? <==> author !in t
    ensures r.Banned? <==> author in t && t[author].expiresAt.At?
    ensures r.Banned? ==> r.row == t[author]
    ensures r.GateRaised? ==> r.error == ValueError
  {
    if author !in t then Allowed
    else
      var row := t[author];
      match Strptime(row.expiresAt)
      case None => GateRaised(ValueError)
      case Some(_) => Banned(row)
  }

  /**
   * `blacklist_info`: no permission check, the target defaults to the
   * author, and the stored expiry is parsed for display.
   */
  function BlacklistInfo(t: Table, author: int, user: Option<int>): (r: Reply)
    ensures var target := user.GetOr(author);
      && (r == NotInBlacklist <==> target !in t)
      && (r.Info? <==> target in t && t[target].expiresAt.At?)
      && (r.Info? ==> r.row == t[target])
      && (r.Raised? <==> target in t && t[target].expiresAt == Lifetime)
      && (r.Raised? ==> r.error == ValueError)
  {
    var target := user.GetOr(author);
    if target !in t then NotInBlacklist
    else
      var row := t[target];
      match Strptime(row.expiresAt)
      case None => Raised(ValueError)
      case Some(_) => Info(row)
  }

  /** The gate lets a command through exactly when the author has no row, expired or not. */
  lemma GateBlocksEveryRow(t: Table, author: int)
    ensures IsBlacklist(t, author) != Allowed <==> author in t
  {
  }

  /**
   * The gate does not re-check expiry: a row whose instant has passed but
   * that no tick has pruned yet still bans.
   */
  lemma GateIgnoresExpiry(t: Table, author: int, now: int)
    requires author in t && Expired(t[author], now)
    ensures IsBlacklist(t, author) == Banned(t[author])
  {
  }

  /** A successful add followed by the gate bans the target with the new reason and moderator. */
  lemma AddThenGate(t: Table, creators: seq<int>, author: int, target: int, duration: int,
                    durationType: string, reason: string, now: int)
    requires IsInstant(now) && Authorized(creators, author, target)
    requires CalculateExpiry(now, duration, durationType).Expires?
    ensures var t' := Add(t, creators, author, target, duration, durationType, reason, now).table;
      IsBlacklist(t', target) == Banned(Row(target, reason, author, At(CalculateExpiry(now, duration, durationType).at)))
  {
  }

  /** Two adds for the same user leave one row, holding the second add's values. */
  lemma SecondAddReplaces(t: Table, creators: seq<int>, author: int, target: int,
                          d1: int, u1: string, r1: string, d2: int, u2: string, r2: string, n1: int, n2: int)
    requires IsInstant(n1) && IsInstant(n2) && Authorized(creators, author, target)
    requires !CalculateExpiry(n1, d1, u1).Overflow? && !CalculateExpiry(n2, d2, u2).Overflow?
    ensures var t1 := Add(t, creators, author, target, d1, u1, r1, n1).table;
      var t2 := Add(t1, creators, author, target, d2, u2, r2, n2).table;
      && t2.Keys == t.Keys + {target}
      && t2[target] == Row(target, r2, author, StampOf(CalculateExpiry(n2, d2, u2)))
  {
  }

  // ---------------------------------------------------------------------
  // Replies as evidently intended. The table effects are the same; only
  // what the user is told differs.
  // ---------------------------------------------------------------------

  /** Removing a user who is on the list never reports the removal. */
  lemma RemoveNeverConfirms(t: Table, creators: seq<int>, author: int, target: int)
    requires Authorized(creators, author, target) && target in t
    ensures Remove(t, creators, author, target).reply == NotInBlacklist
  {
  }

  /** `remove_blacklist` with the lookup made before the delete. */
  function RemoveIntended(t: Table, creators: seq<int>, author: int, target: int): (o: Outcome)
    ensures o.table == Remove(t, creators, author, target).table
    ensures !Authorized(creators, author, target) ==> o.reply == Remove(t, creators, author, target).reply
    ensures o.reply == Removed <==> Authorized(creators, author, target) && target in t
    ensures o.reply == NotInBlacklist <==> Authorized(creators, author, target) && target !in t
  {
    var o := Remove(t, creators, author, target);
    if Authorized(creators, author, target) && target in t then Outcome(Removed, o.table) else o
  }

  /** A Lifetime ban makes the gate raise instead of showing the ban. */
  lemma LifetimeGateRaises(t: Table, u: int)
    requires u in t && t[u].expiresAt == Lifetime
    ensures IsBlacklist(t, u) == GateRaised(ValueError)
  {
  }

  /** `is_blacklist` showing every row, Lifetime ones included. */
  function IsBlacklistIntended(t: Table, author: int): (r: GateResult)
    ensures !r.GateRaised?
    ensures r.Banned? <==> author in t
    ensures r.Banned? ==> r.row == t[author]
  {
    if author in t then Banned(t[author]) else Allowed
  }

  /** A Lifetime add commits the row and then raises instead of confirming. */
  lemma LifetimeAddRaises(t: Table, author: int, target: int, duration: int, reason: string, now: int)
    requires IsInstant(now) && author != target
    ensures var o := Add(t, [author], author, target, duration, "Lifetime", reason, now);
      o.reply == Raised(ValueError) && o.table[target] == Row(target, reason, author, Lifetime)
  {
  }

  /** `add_blacklist` confirming every stored row, Lifetime ones included. */
  function AddIntended(t: Table, creators: seq<int>, author: int, target: int, duration: int,
                       durationType: string, reason: string, now: int): (o: Outcome)
    requires IsInstant(now)
    ensures o.table == Add(t, creators, author, target, duration, durationType, reason, now).table
    ensures !Authorized(creators, author, target) ==>
              o.reply == Add(t, creators, author, target, duration, durationType, reason, now).reply
    ensures o.reply != Raised(ValueError)
    ensures o.reply.Blacklisted? <==>
              Authorized(creators, author, target) && !CalculateExpiry(now, duration, durationType).Overflow?
    ensures o.reply.Blacklisted? ==> target in o.table && o.reply.row == o.table[target]
  {
    var o := Add(t, creators, author, target, duration, durationType, reason, now);
    if o.reply == Raised(ValueError) then Outcome(Blacklisted(o.table[target]), o.table) else o
  }

  /** Inspecting a Lifetime ban raises instead of showing it. */
  lemma LifetimeInfoRaises(t: Table, u: int, author: int)
    requires u in t && t[u].expiresAt == Lifetime
    ensures BlacklistInfo(t, author, Some(u)) == Raised(ValueError)
  {
  }

  /** `blacklist_info` showing every row, Lifetime ones included. */
  function BlacklistInfoIntended(t: Table, author: int, user: Option<int>): (r: Reply)
    ensures var target := user.GetOr(author);
      && (r == NotInBlacklist <==> target !in t)
      && (r != NotInBlacklist ==> r == Info(t[target]))
  {
    var target := user.GetOr(author);
    if target in t then Info(t[target]) else NotInBlacklist
  }
}
