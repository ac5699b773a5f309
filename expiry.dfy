/**
 * The expiry calculator of the blacklist cog: a duration and a unit name
 * become an absolute expiry instant, or "never" for a Lifetime ban.
 *
 * Instants are whole seconds since 0001-01-01 00:00:00 UTC, the earliest
 * value of Python's `datetime`; the latest representable second is
 * 9999-12-31 23:59:59. Adding a `timedelta` that leaves that range raises
 * `OverflowError`, modelled as the `Overflow` result.
 */
module Expiry {

  const SecondsPerMinute: int := 60
  const SecondsPerHour: int := 3600
  const SecondsPerDay: int := 86400

  /** 9999-12-31 23:59:59 in seconds since 0001-01-01 00:00:00 */
  const MaxInstant: int := 315537897599

  predicate IsInstant(t: int) {
    0 <= t <= MaxInstant
  }

  /** The unit names the add command offers that denote a finite duration */
  const TimedUnits: set<string> :=
    {"Seconds", "Minutes", "Hours", "Days", "Weeks", "Months", "Years"}

  /**
   * Reference table of unit lengths in seconds: a month is 30 days and a
   * year 365 days, not calendar months or years.
   */
  function UnitLength(durationType: string): (len: int)
    requires durationType in TimedUnits
    ensures len > 0
  {
    match durationType
    case "Seconds" => 1
    case "Minutes" => 60
    case "Hours" => 3_600
    case "Days" => 86_400
    case "Weeks" => 604_800
    case "Months" => 2_592_000
    case _ => 31_536_000
  }

  /** What `calculate_expiry` produces: a datetime, None, or an OverflowError */
  datatype Calculated = Expires(at: int) | Never | Overflow

  /** `now + timedelta(seconds=offset)`, raising when the sum leaves the datetime range */
  function Shift(now: int, offset: int): Calculated {
    if IsInstant(now + offset) then Expires(now + offset) else Overflow
  }

  /**
   * `calculate_expiry(duration, duration_type)` with the clock reading `now`.
   * The if/elif chain has no final else, so any unit name other than the
   * seven timed ones (Lifetime included) yields None.
   */
  function CalculateExpiry(now: int, duration: int, durationType: string): (r: Calculated)
    requires IsInstant(now)
    ensures r == Never <==> durationType !in TimedUnits
    ensures durationType in TimedUnits ==>
      var target := now + duration * UnitLength(durationType);
      if IsInstant(target) then r == Expires(target) else r == Overflow
    ensures r.Expires? ==> IsInstant(r.at)
    ensures r.Expires? && duration >= 0 ==> r.at >= now
    ensures r.Expires? && duration > 0 ==> r.at > now
  {
    if durationType == "Seconds" then Shift(now, duration)
    else if durationType == "Minutes" then Shift(now, duration * SecondsPerMinute)
    else if durationType == "Hours" then Shift(now, duration * SecondsPerHour)
    else if durationType == "Days" then Shift(now, duration * SecondsPerDay)
    else if durationType == "Weeks" then Shift(now, (duration * 7) * SecondsPerDay)
    else if durationType == "Months" then Shift(now, (duration * 30) * SecondsPerDay)
    else if durationType == "Years" then Shift(now, (duration * 365) * SecondsPerDay)
    else if durationType == "Lifetime" then Never
    else Never
  }

  /** A Lifetime ban never expires, whatever the duration typed alongside it. */
  lemma LifetimeIgnoresDuration(now: int, d1: int, d2: int)
    requires IsInstant(now)
    ensures CalculateExpiry(now, d1, "Lifetime") == CalculateExpiry(now, d2, "Lifetime") == Never
  {
  }

  /**
   * For a non-negative duration the expiry is monotone in the duration:
   * if the longer ban fits in the datetime range, so does the shorter one,
   * and it ends no later.
   */
  lemma ExpiryMonotone(now: int, d1: int, d2: int, durationType: string)
    requires IsInstant(now)
    requires durationType in TimedUnits
    requires 0 <= d1 <= d2
    requires CalculateExpiry(now, d2, durationType).Expires?
    ensures CalculateExpiry(now, d1, durationType).Expires?
    ensures now <= CalculateExpiry(now, d1, durationType).at <= CalculateExpiry(now, d2, durationType).at
  {
  }

  /**
   * The unit ladder: each longer unit is an exact multiple of the one below,
   * and Months and Years are 30 and 365 Days.
   */
  lemma UnitLadder(now: int, d: int)
    requires IsInstant(now)
    ensures CalculateExpiry(now, d, "Minutes") == CalculateExpiry(now, 60 * d, "Seconds")
    ensures CalculateExpiry(now, d, "Hours") == CalculateExpiry(now, 60 * d, "Minutes")
    ensures CalculateExpiry(now, d, "Days") == CalculateExpiry(now, 24 * d, "Hours")
    ensures CalculateExpiry(now, d, "Weeks") == CalculateExpiry(now, 7 * d, "Days")
    ensures CalculateExpiry(now, d, "Months") == CalculateExpiry(now, 30 * d, "Days")
    ensures CalculateExpiry(now, d, "Years") == CalculateExpiry(now, 365 * d, "Days")
  {
  }
}
