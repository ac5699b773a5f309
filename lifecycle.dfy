/**
 * Histories of the table: any interleaving of add and remove commands and
 * reconciliation ticks, folded over a starting table. The gate and the info
 * command only read, so they do not appear in a history.
 */
module Lifecycle {
  import opened Expiry
  import opened Store
  import opened Commands

  datatype Event =
    | AddCmd(author: int, target: int, duration: int, durationType: string, reason: string, now: int)
    | RemoveCmd(author: int, target: int)
    | Tick(now: int)

  /** The clock reading an add uses is a valid datetime. */
  predicate WellTimed(es: seq<Event>) {
    forall i :: 0 <= i < |es| && es[i].AddCmd? ==> IsInstant(es[i].now)
  }

  function Apply(t: Table, creators: seq<int>, e: Event): Table
    requires e.AddCmd? ==> IsInstant(e.now)
  {
    match e
    case AddCmd(author, target, duration, durationType, reason, now) =>
      Add(t, creators, author, target, duration, durationType, reason, now).table
    case RemoveCmd(author, target) => Remove(t, creators, author, target).table
    case Tick(now) => Pruned(t, now)
  }

  function Run(t: Table, creators: seq<int>, es: seq<Event>): Table
    requires WellTimed(es)
    decreases |es|
  {
    if es == [] then t
    else Run(Apply(t, creators, es[0]), creators, es[1..])
  }

  /** An add or remove that passes both guards and names `u` as its target */
  predicate AdminActsOn(e: Event, creators: seq<int>, u: int) {
    (e.AddCmd? || e.RemoveCmd?) && e.target == u && Authorized(creators, e.author, e.target)
  }

  /** A history, then one more event, is the history's table with that event applied. */
  lemma {:induction false} RunSnoc(t: Table, creators: seq<int>, es: seq<Event>, e: Event)
    requires WellTimed(es) && (e.AddCmd? ==> IsInstant(e.now)) && WellTimed(es + [e])
    ensures Run(t, creators, es + [e]) == Apply(Run(t, creators, es), creators, e)
    decreases |es|
  {
    if es != [] {
      assert (es + [e])[0] == es[0];
      assert (es + [e])[1..] == es[1..] + [e];
      RunSnoc(Apply(t, creators, es[0]), creators, es[1..], e);
    }
  }

  /** Every history keeps each row filed under its own user id. */
  lemma {:induction false} RunKeepsKeyed(t: Table, creators: seq<int>, es: seq<Event>)
    requires WellTimed(es) && Keyed(t)
    ensures Keyed(Run(t, creators, es))
    decreases |es|
  {
    if es != [] {
      RunKeepsKeyed(Apply(t, creators, es[0]), creators, es[1..]);
    }
  }

  /**
   * A row survives a history unchanged when no authorized add or remove
   * targets it and no tick in the history finds it expired. A Lifetime row
   * is never expired, so only an operator can lift it.
   */
  lemma {:induction false} RowSurvives(t: Table, creators: seq<int>, es: seq<Event>, u: int)
    requires WellTimed(es) && u in t
    requires forall i :: 0 <= i < |es| ==> !AdminActsOn(es[i], creators, u)
    requires forall i :: 0 <= i < |es| && es[i].Tick? ==> !Expired(t[u], es[i].now)
    ensures u in Run(t, creators, es) && Run(t, creators, es)[u] == t[u]
    decreases |es|
  {
    if es != [] {
      var t' := Apply(t, creators, es[0]);
      assert !AdminActsOn(es[0], creators, u);
      assert u in t' && t'[u] == t[u];
      forall i | 0 <= i < |es[1..]|
        ensures !AdminActsOn(es[1..][i], creators, u)
        ensures es[1..][i].Tick? ==> !Expired(t'[u], es[1..][i].now)
      {
        assert es[1..][i] == es[i + 1];
      }
      RowSurvives(t', creators, es[1..], u);
    }
  }

  /** A Lifetime row outlives any number of ticks and any command that is not an authorized one on it. */
  lemma LifetimeRowSurvives(t: Table, creators: seq<int>, es: seq<Event>, u: int)
    requires WellTimed(es) && u in t && t[u].expiresAt == Lifetime
    requires forall i :: 0 <= i < |es| ==> !AdminActsOn(es[i], creators, u)
    ensures u in Run(t, creators, es) && Run(t, creators, es)[u] == t[u]
  {
    RowSurvives(t, creators, es, u);
  }

  /**
   * Commands from users outside the allow-list change nothing: a history of
   * them and of ticks only ever deletes rows, and leaves each remaining row
   * as it was.
   */
  lemma {:induction false} OutsidersOnlyPrune(t: Table, creators: seq<int>, es: seq<Event>)
    requires WellTimed(es)
    requires forall i :: 0 <= i < |es| && !es[i].Tick? ==> es[i].author !in creators
    ensures var t' := Run(t, creators, es);
      t'.Keys <= t.Keys && forall u :: u in t' ==> t'[u] == t[u]
    decreases |es|
  {
    if es != [] {
      var t1 := Apply(t, creators, es[0]);
      assert t1.Keys <= t.Keys && forall u :: u in t1 ==> t1[u] == t[u];
      forall i | 0 <= i < |es[1..]| && !es[1..][i].Tick?
        ensures es[1..][i].author !in creators
      {
        assert es[1..][i] == es[i + 1];
      }
      OutsidersOnlyPrune(t1, creators, es[1..]);
    }
  }

  /** After a history that ends with a tick at `now`, no row expired at `now` remains. */
  lemma TickLeavesNoExpiredRow(t: Table, creators: seq<int>, es: seq<Event>, now: int)
    requires WellTimed(es + [Tick(now)])
    ensures forall u :: u in Run(t, creators, es + [Tick(now)]) ==> !Expired(Run(t, creators, es + [Tick(now)])[u], now)
  {
    assert WellTimed(es) by {
      forall i | 0 <= i < |es| && es[i].AddCmd?
        ensures IsInstant(es[i].now)
      {
        assert (es + [Tick(now)])[i] == es[i];
      }
    }
    RunSnoc(t, creators, es, Tick(now));
  }

  /**
   * A one-week ban: the gate bans the target right after the add, still
   * bans it eight days later while no tick has run, and lets it through
   * once a tick eight days later has pruned the row.
   */
  lemma WeekBanLifecycle(t: Table, target: int, reason: string, now: int)
    requires IsInstant(now) && IsInstant(now + 8 * SecondsPerDay) && target != Creator
    ensures var t1 := Run(t, [Creator], [AddCmd(Creator, target, 1, "Weeks", reason, now)]);
      && IsBlacklist(t1, target) == Banned(Row(target, reason, Creator, At(now + 604800)))
      && var t2 := Run(t, [Creator], [AddCmd(Creator, target, 1, "Weeks", reason, now), Tick(now + 8 * SecondsPerDay)]);
      IsBlacklist(t2, target) == Allowed
  {
    var add := AddCmd(Creator, target, 1, "Weeks", reason, now);
    RunSnoc(t, [Creator], [add], Tick(now + 8 * SecondsPerDay));
    assert [add] + [Tick(now + 8 * SecondsPerDay)] == [add, Tick(now + 8 * SecondsPerDay)];
  }

  /**
   * A zero-second ban expires at the instant it is made, but the tick's test
   * is strict: a tick whose clock reads exactly the stamp's second keeps the
   * row, one a second later prunes it.
   */
  lemma ZeroSecondBan(t: Table, target: int, reason: string, now: int)
    requires IsInstant(now) && target != Creator
    ensures var t1 := Run(t, [Creator], [AddCmd(Creator, target, 0, "Seconds", reason, now), Tick(now)]);
      IsBlacklist(t1, target) == Banned(Row(target, reason, Creator, At(now)))
    ensures var t2 := Run(t, [Creator], [AddCmd(Creator, target, 0, "Seconds", reason, now), Tick(now + 1)]);
      IsBlacklist(t2, target) == Allowed
  {
    var add := AddCmd(Creator, target, 0, "Seconds", reason, now);
    var t0 := Apply(t, [Creator], add);
    assert t0[target] == Row(target, reason, Creator, At(now));
    RunSnoc(t, [Creator], [add], Tick(now));
    RunSnoc(t, [Creator], [add], Tick(now + 1));
    assert [add] + [Tick(now)] == [add, Tick(now)];
    assert [add] + [Tick(now + 1)] == [add, Tick(now + 1)];
  }

  /** Removing a user never added reports "not in the blacklist" and changes nothing. */
  lemma RemoveUnknownUser(t: Table, target: int)
    requires target !in t && target != Creator
    ensures Remove(t, [Creator], Creator, target) == Outcome(NotInBlacklist, t)
  {
  }
}
