/**
  Shared vocabulary of the market-session engine: zone-local clock readings,
  market schedules, the kinds of transition and the durations the resolver
  produces (including the `Infinity` sentinel of the source).
*/
module Calendar {

  type Weekday = d: int | 0 <= d < 7
  type HourOfDay = h: int | 0 <= h < 24
  /** Minutes of an hour, and seconds of a minute. */
  type Sexagesimal = n: int | 0 <= n < 60

  const Friday: Weekday := 5
  const Saturday: Weekday := 6
  const MinutesPerDay: int := 24 * 60
  const SecondsPerDay: int := 24 * 60 * 60

  /**
    A wall-clock reading in a market's own time zone, with the weekday
    numbered 0 = Sunday .. 6 = Saturday. The engine never reads a clock:
    every reading is handed to it.
  */
  datatype ClockReading = ClockReading(day: Weekday, hours: HourOfDay, minutes: Sexagesimal, seconds: Sexagesimal)

  /** Minutes since midnight, as the source's `currentMins`. */
  function CurrentMins(t: ClockReading): (r: int)
    ensures 0 <= r < MinutesPerDay
  {
    t.hours * 60 + t.minutes
  }

  /** Seconds since midnight: the reference instant "now" within the day. */
  function DaySecond(t: ClockReading): (r: int)
    ensures 0 <= r < SecondsPerDay
    ensures r / 60 == CurrentMins(t) && r % 60 == t.seconds
  {
    CurrentMins(t) * 60 + t.seconds
  }

  /** Seconds since the start of the week (Sunday 00:00:00). */
  function WeekSecond(t: ClockReading): (r: int)
    ensures t.day * SecondsPerDay <= r < (t.day + 1) * SecondsPerDay
  {
    t.day * SecondsPerDay + DaySecond(t)
  }

  /**
    A market's weekly schedule. Latitude and longitude, which only place
    the market on the globe, are not part of the model.
  */
  datatype Market = Market(
    id: string,
    name: string,
    city: string,
    timezone: string,
    openHour: int,
    openMinute: int,
    closeHour: int,
    closeMinute: int,
    tradingDays: seq<int>,
    isOvernight: bool)

  /** The opening time in minutes since midnight; with an in-range minute it falls inside its hour. */
  function OpenMins(m: Market): (r: int)
    ensures 0 <= m.openMinute < 60 ==> m.openHour * 60 <= r < m.openHour * 60 + 60
    ensures 0 <= m.openHour < 24 && 0 <= m.openMinute < 60 ==> 0 <= r < MinutesPerDay
  {
    m.openHour * 60 + m.openMinute
  }

  /** The closing time in minutes since midnight; with an in-range minute it falls inside its hour. */
  function CloseMins(m: Market): (r: int)
    ensures 0 <= m.closeMinute < 60 ==> m.closeHour * 60 <= r < m.closeHour * 60 + 60
    ensures 0 <= m.closeHour < 24 && 0 <= m.closeMinute < 60 ==> 0 <= r < MinutesPerDay
  {
    m.closeHour * 60 + m.closeMinute
  }

  /** The configuration invariant of a schedule: some trading day, and every field in range. */
  predicate WellFormed(m: Market)
  {
    |m.tradingDays| > 0 &&
    (forall k :: 0 <= k < |m.tradingDays| ==> 0 <= m.tradingDays[k] < 7) &&
    0 <= m.openHour < 24 && 0 <= m.openMinute < 60 &&
    0 <= m.closeHour < 24 && 0 <= m.closeMinute < 60
  }

  lemma WellFormedBounds(m: Market)
    requires WellFormed(m)
    ensures 0 <= OpenMins(m) < MinutesPerDay && 0 <= CloseMins(m) < MinutesPerDay
  {
  }

  datatype EventKind = Open | Close

  /**
    A signed millisecond count, or the source's `Infinity` sentinel for
    "no transition found".
  */
  datatype Duration = Finite(ms: int) | Infinite

  /** The source's `d > 0`; `Infinity > 0` holds. */
  predicate IsPositive(d: Duration)
    ensures IsPositive(d) <==> Less(Finite(0), d)
  {
    match d
    case Finite(x) => x > 0
    case Infinite => true
  }

  /** The source's `a < b` on durations, where every number is below `Infinity`. */
  predicate Less(a: Duration, b: Duration): (r: bool)
    ensures r ==> a.Finite?
    ensures a.Finite? && b.Infinite? ==> r
    ensures a.Finite? && b.Finite? ==> (r <==> a.ms < b.ms)
  {
    match (a, b)
    case (Finite(x), Finite(y)) => x < y
    case (Finite(_), Infinite) => true
    case (Infinite, _) => false
  }

  lemma LessIsStrictTotalOrder(a: Duration, b: Duration, c: Duration)
    ensures !Less(a, a)
    ensures Less(a, b) && Less(b, c) ==> Less(a, c)
    ensures a == b || Less(a, b) || Less(b, a)
  {
  }
}
