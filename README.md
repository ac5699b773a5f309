# Blacklist cog, modelled in Dafny

A Discord bot cog that lets the users on a fixed allow-list (`creators`) bar
other users from the bot's commands. Each ban is one row of the `blacklist`
table, `(user_id, reason, moderator_id, expires_at)`. `expires_at` is either a
`"%Y-%m-%d %H:%M:%S"` timestamp or the sentinel `"Lifetime"`. Five pieces of
logic act on that table, and this project models all five:

- `calculate_expiry` turns a duration and a unit name into an absolute expiry.
  It returns None for Lifetime. A month is 30 days and a year is 365 days.
- `add_blacklist` checks the allow-list, refuses a self-target and then does an
  `INSERT OR REPLACE`.
- `remove_blacklist` runs the same two checks and then deletes the row.
- `check_blacklist_loop` runs once a minute. It deletes every timed row whose
  instant is strictly before the current time.
- `is_blacklist` is the gate other commands call. It bans the author whenever
  a row exists.
- `blacklist_info` shows a user's row. It has no permission check.

Files:

- `expiry.dfy` (module `Expiry`): the expiry calculator. Instants are whole
  seconds since 0001-01-01 00:00:00 UTC. A result outside Python's datetime
  range is the `Overflow` outcome, which stands for the `OverflowError` that
  `timedelta` arithmetic raises.
- `store.dfy` (module `Store`): rows, the `Lifetime | At(instant)` stamp, the
  table as `map<int, Row>` keyed by user id, the parse of a stored stamp, and
  the pruning a tick performs.
- `commands.dfy` (module `Commands`): add, remove, gate and info as pure
  transitions from a table to a reply and a new table. It also holds the
  corrected replies listed under Findings.
- `lifecycle.dfy` (module `Lifecycle`): histories of adds, removes and ticks,
  and what holds across any such history.
- `cog.dfy` (module `Cog`): the class `Blacklist`. Its `table` field is updated
  in place by `AddBlacklist`, `RemoveBlacklist` and the loop in
  `CheckBlacklistLoop`. Each method is proved equal to the matching transition
  in `Commands` or `Store`.
- `wrappers.dfy`: `Option`.

The clock is a parameter (`now`). The gate and the info command only read the
table, so they are functions of it.

Where the code departs from a tidier design, the model follows the code:

- The gate never compares the expiry with the clock. An expired row that no
  tick has pruned yet still bans (`Commands.GateIgnoresExpiry`).
- The tick deletes only rows whose instant is strictly before `now`. A tick
  whose clock reads exactly a row's stored second keeps that row
  (`Lifecycle.ZeroSecondBan`).
- A unit name outside the seven timed ones falls through the if/elif chain to
  None, so it is stored as `"Lifetime"`.

## Model

| member | source | states |
|---|---|---|
| Expiry.CalculateExpiry | commands/blacklist.py:25-42 | None exactly for Lifetime and any unknown unit. Otherwise `now + duration × unit length` from the reference table (1, 60, 3600, 86400, 604800, 30·86400, 365·86400 s), or Overflow when that sum leaves the datetime range. A result is a valid instant, is ≥ now for duration ≥ 0, and is > now for duration > 0 |
| Expiry.LifetimeIgnoresDuration | commands/blacklist.py:41-42 | Lifetime gives None whatever the duration |
| Expiry.ExpiryMonotone | commands/blacklist.py:27-40 | For 0 ≤ d1 ≤ d2: if the d2 ban fits in the range, the d1 ban also fits, and now ≤ expiry(d1) ≤ expiry(d2) |
| Expiry.UnitLadder | commands/blacklist.py:27-40 | Minutes = 60 Seconds, Hours = 60 Minutes, Days = 24 Hours, Weeks = 7 Days, Months = 30 Days, Years = 365 Days, overflow included |
| Store.Strptime | commands/blacklist.py:52 | Parsing a stored stamp fails exactly on the "Lifetime" sentinel and returns the instant otherwise |
| Store.Pruned | commands/blacklist.py:50-55 | After a tick, every remaining row is the old row and is not expired (Lifetime, or instant ≥ now). Every row that was not expired remains. The primary-key invariant is kept |
| Store.PruneKeepsLiveRows | commands/blacklist.py:51-53 | A Lifetime row, or a row with instant ≥ now, survives the tick unchanged (the test is strict `>`) |
| Store.PruneLaterSubsumes | commands/blacklist.py:45-55 | A tick at n1 followed by one at n2 ≥ n1 gives the same table as the tick at n2 alone |
| Store.PruneIdempotent | commands/blacklist.py:45-55 | A second tick at the same instant changes nothing |
| Commands.Add | commands/blacklist.py:81-107 | Non-creator: "no permission" and the table unchanged. Self-target: refused and the table unchanged. Overflow: raises before storing. Otherwise the target's row is exactly (target, reason, author, stamp), with None stored as Lifetime. The reply raises ValueError exactly when that stamp is Lifetime, and otherwise confirms with the row. Every other user's row is unchanged. The key invariant is kept |
| Commands.Remove | commands/blacklist.py:110-126 | Same two guards, each leaving the table unchanged. Otherwise the target has no row afterwards and the reply is "not in the blacklist". Every other row is unchanged |
| Commands.IsBlacklist | commands/blacklist.py:57-79 | Allowed exactly when the author has no row. Banned with that row exactly when the row has a timestamp. Raises ValueError for a Lifetime row. Expiry is not consulted |
| Commands.BlacklistInfo | commands/blacklist.py:132-157 | The target defaults to the author. There is no permission check. "Not in the blacklist" exactly when there is no row, the row when it has a timestamp, and ValueError for a Lifetime row |
| Commands.GateBlocksEveryRow | commands/blacklist.py:59-62 | The gate lets a command through exactly when the author has no row |
| Commands.GateIgnoresExpiry | commands/blacklist.py:62 | A row whose instant has already passed still bans |
| Commands.AddThenGate | commands/blacklist.py:90-96 | After a successful timed add, the gate bans the target with the new reason, moderator = requester and the new expiry |
| Commands.SecondAddReplaces | commands/blacklist.py:94-95 | Two adds for one user leave one row for that user, holding the second add's values. No other key appears |
| Commands.RemoveNeverConfirms | commands/blacklist.py:119-129 | Removing a user who has a row still replies "not in the blacklist" |
| Commands.RemoveIntended | commands/blacklist.py:119-129 | Same table as `Remove`, and the same refusal reply when a guard fails. It replies "removed" exactly when an authorized remove finds a row, and "not in the blacklist" exactly when it finds none |
| Commands.LifetimeGateRaises | commands/blacklist.py:62-63 | In any table, the gate raises ValueError for a user whose row is Lifetime |
| Commands.IsBlacklistIntended | commands/blacklist.py:62-77 | Never raises. Bans with the row exactly when one exists |
| Commands.LifetimeAddRaises | commands/blacklist.py:90-98 | A Lifetime add stores the row and then raises ValueError instead of confirming |
| Commands.AddIntended | commands/blacklist.py:90-107 | Same table as `Add`, and the same refusal reply when a guard fails. Never raises ValueError. Confirms with the stored row exactly when the guards pass and no overflow occurs |
| Commands.LifetimeInfoRaises | commands/blacklist.py:140-144 | In any table and for any caller, inspecting a user whose row is Lifetime raises ValueError |
| Commands.BlacklistInfoIntended | commands/blacklist.py:137-157 | Shows the row exactly when one exists, Lifetime included |
| Lifecycle.RunKeepsKeyed | commands/blacklist.py:16-21 | Any history of adds, removes and ticks keeps one row per user, filed under its user id (the PRIMARY KEY) |
| Lifecycle.RowSurvives | commands/blacklist.py:45-55 | A row survives a history unchanged when no authorized add or remove targets it and no tick in the history finds it expired |
| Lifecycle.LifetimeRowSurvives | commands/blacklist.py:50-51 | A Lifetime row survives any number of ticks. Only an authorized add or remove on that user changes it |
| Lifecycle.OutsidersOnlyPrune | commands/blacklist.py:81-129 | A history whose commands all come from users outside the allow-list only deletes rows. It never changes or adds one |
| Lifecycle.TickLeavesNoExpiredRow | commands/blacklist.py:50-55 | After any history ending in a tick at now, no row expired at now remains |
| Lifecycle.WeekBanLifecycle | commands/blacklist.py:35-62 | A one-week ban by the creator bans the target at once with the given reason. It is lifted by a tick eight days later |
| Lifecycle.ZeroSecondBan | commands/blacklist.py:28-53 | A zero-second ban survives a tick whose clock reads exactly the stamp's second, and is pruned by a tick one second later |
| Lifecycle.RemoveUnknownUser | commands/blacklist.py:119-126 | Removing a user never added replies "not in the blacklist" and leaves the table as it was |
| Cog.Blacklist.constructor | commands/blacklist.py:8-11 | The cog starts with the stored table and the allow-list `[852888051432685608]` |
| Cog.Blacklist.AddBlacklist | commands/blacklist.py:81-107 | The reply and the new table are those of `Commands.Add` on the old table. The table is untouched when refused or on overflow. The key invariant is kept |
| Cog.Blacklist.RemoveBlacklist | commands/blacklist.py:110-129 | The reply and the new table are those of `Commands.Remove`. It never replies "removed" |
| Cog.Blacklist.CheckBlacklistLoop | commands/blacklist.py:45-55 | The row-by-row delete loop leaves exactly `Pruned(old table, now)`. Lifetime rows are skipped before any parse, so the parse never fails |

## Findings

| source | as written | input that shows it | evidently intended | confidence | as-written member | corrected member |
|---|---|---|---|---|---|---|
| commands/blacklist.py:119-129 | looks the row up after deleting it, so the lookup always misses | a creator removes a user who has a row | reply "removed" when a row existed | high, not executed | Commands.RemoveNeverConfirms | Commands.RemoveIntended |
| commands/blacklist.py:63 | parses the stored expiry, and "Lifetime" does not match the format | a user with a Lifetime ban runs a gated command | show the ban notice for Lifetime bans too | high, not executed | Commands.LifetimeGateRaises | Commands.IsBlacklistIntended |
| commands/blacklist.py:98 | parses "Lifetime" after committing the row | a creator adds a user with unit Lifetime | confirm the Lifetime ban | high, not executed | Commands.LifetimeAddRaises | Commands.AddIntended |
| commands/blacklist.py:144 | parses "Lifetime" to show it | inspecting a user with a Lifetime ban | show the Lifetime ban | high, not executed | Commands.LifetimeInfoRaises | Commands.BlacklistInfoIntended |

The corrected members change only the reply. Their tables are proved equal to
the as-written ones, so the table-level results (`Lifecycle`, `Cog`) hold for
both.

## Left out

- Presentation: embeds, mentions, `format_dt`, thumbnails, the Appeal button and `ctx.respond`. A reply is reduced to which message it is and the row it shows.
- `ctx.guild.get_member(...)` in the gate, which fails when the moderator is not in the guild. Guild membership belongs to the Discord API and is not modelled.
- aiosqlite connections, `commit`, the SQL text and `on_ready`'s `CREATE TABLE IF NOT EXISTS`. The table is an in-memory map, and the constructor takes whatever table is already stored.
- Storage errors and a crash part-way through a tick are not modelled.
- `tasks.loop` scheduling and async interleaving. One tick is one call, and commands do not interleave with it.
- Cog.Blacklist.CheckBlacklistLoop: uses one clock reading for the whole tick. The source calls `utcnow()` again for every row.
- The order of rows in the loop: the model visits them in an arbitrary order. The resulting table does not depend on it.
- Expiry.CalculateExpiry: the clock is whole seconds. The source's microseconds are dropped by `strftime` when the expiry is stored. In the loop's comparison they can make a row expiring in the current second count as expired up to one second earlier than in the model.
- Lifecycle.ZeroSecondBan: the first half relies on the whole-second clock. In the source the stored expiry is rounded down to the second, while the tick's `utcnow()` carries microseconds, so any real tick later in the add's own second already prunes the row; only a clock reading of exactly `.000000` keeps it.
- The `strftime`/`strptime` text round trip is taken as exact for every instant in the datetime range. On platforms whose `%Y` does not zero-pad years before 1000, a large negative duration (the `duration: int` option accepts one) stores a stamp that `strptime` cannot read back. The source then raises in the tick, aborting that tick for all later rows, and in the gate and the info lookup for that user. The model treats such a row like any other timed row, which the tick prunes at once.
- commands/greet.py is not part of this model. It only short-circuits when `is_blacklist` bans or raises.
