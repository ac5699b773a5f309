/**
 * The `blacklist` table: one row per user id (the INTEGER PRIMARY KEY),
 * holding the reason, the moderator and the expiry text, which is either a
 * "%Y-%m-%d %H:%M:%S" timestamp or the sentinel "Lifetime".
 */
module Store {
  import opened Wrappers
  import opened Expiry

  /** The `expires_at` column: the sentinel text or a formatted instant */
  datatype Stamp = Lifetime | At(instant: int)

  datatype Row = Row(userId: int, reason: string, moderatorId: int, expiresAt: Stamp)

  type Table = map<int, Row>

  /** The primary key: each row is filed under its own user id. */
  predicate Keyed(t: Table) {
    forall u :: u in t ==> t[u].userId == u
  }

  /** The stamp `add_blacklist` writes: the formatted instant, or "Lifetime" for None. */
  function StampOf(c: Calculated): (s: Stamp)
    requires !c.Overflow?
    ensures s.Lifetime? <==> c.Never?
    ensures s.At? ==> s.instant == c.at
  {
    if c.Expires? then At(c.at) else Lifetime
  }

  /**
   * `datetime.strptime(expires_at, "%Y-%m-%d %H:%M:%S")`: the sentinel does
   * not match the format, so parsing it raises ValueError (None here).
   */
  function Strptime(s: Stamp): (r: Option<int>)
    ensures r.None? <==> s == Lifetime
    ensures s.At? ==> r == Some(s.instant)
  {
    match s
    case Lifetime => None
    case At(instant) => Some(instant)
  }

  /** The loop's deletion test: a timed row whose instant is strictly before now. */
  predicate Expired(row: Row, now: int) {
    row.expiresAt.At? && now > row.expiresAt.instant
  }

  /** The table after one reconciliation tick at `now`. */
  function Pruned(t: Table, now: int): (r: Table)
    ensures r.Keys <= t.Keys
    ensures forall u :: u in r ==> r[u] == t[u] && !Expired(r[u], now)
    ensures forall u :: u in t && !Expired(t[u], now) ==> u in r
    ensures Keyed(t) ==> Keyed(r)
  {
    map u | u in t && !Expired(t[u], now) :: t[u]
  }

  /** A Lifetime row, or one expiring at or after `now`, survives the tick unchanged. */
  lemma PruneKeepsLiveRows(t: Table, now: int, u: int)
    requires u in t
    requires t[u].expiresAt == Lifetime || now <= t[u].expiresAt.instant
    ensures u in Pruned(t, now) && Pruned(t, now)[u] == t[u]
  {
  }

  /**
   * A later tick subsumes an earlier one: pruning at n1 and then at n2 >= n1
   * leaves the same table as pruning at n2 alone. In particular a second
   * tick at the same instant changes nothing.
   */
  lemma PruneLaterSubsumes(t: Table, n1: int, n2: int)
    requires n1 <= n2
    ensures Pruned(Pruned(t, n1), n2) == Pruned(t, n2)
  {
  }

  /** Two ticks at the same instant are no different from one. */
  lemma PruneIdempotent(t: Table, now: int)
    ensures Pruned(Pruned(t, now), now) == Pruned(t, now)
  {
    PruneLaterSubsumes(t, now, now);
  }
}
