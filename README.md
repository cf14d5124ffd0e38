# Market-session calendar engine, modelled in Dafny

This project models the scheduling core of the market clock (`src/lib/marketData.ts`): for a fixed roster of
market sessions (New York, London, Tokyo, and the overnight CME and COMEX futures sessions) it decides whether a
market is open at a zone-local clock reading, how many milliseconds remain until that market's next open or close
transition, which market's transition comes first across the roster, and how a millisecond count is shown as a
days / hours / minutes / seconds countdown.

Modules, one per component of the source file:

- `Calendar` (calendar.dfy): clock readings (weekday 0 = Sunday .. 6 = Saturday, hours 0..23, minutes and seconds
  0..59, as subset types), the `Market` record, its configuration invariant `WellFormed`, transition kinds, and
  `Duration = Finite(ms) | Infinite` for the source's `Infinity` sentinel, with the source's `>` and `<` on it.
- `Roster` (roster.dfy): the five configured markets, `MARKETS`.
- `Session` (session.dfy): `IsMarketOpen`, the session evaluator.
- `Resolver` (resolver.dfy): the per-market next event. The open branch is a pure function; the closed branch is
  the source's bounded `for` loop over day offsets 0..7 with `continue` and `break` (`TimeUntilOpen`), proved equal
  to the recursive specification `FirstOpen`. Also the unused helper `getMsUntil` (`MsUntil`).
- `Scheduler` (scheduler.dfy): the roster-wide selection loop `GetNextMarketEvent`, specified as "the first minimum
  among strictly positive durations".
- `Countdown` (countdown.dfy): `FormatCountdown`, with decimal rendering and zero padding written out, and a
  parse-back round trip.
- `Wrappers` (wrappers.dfy): `Option`, for the source's `null` and its optional `days` field.

The clock is a parameter: the session evaluator and the resolver take a `ClockReading`, and the scheduler takes
`clock: string -> ClockReading`, which projects one instant into each market's time zone. Durations are related in
the lemmas to reference instants: seconds since the reading's midnight (`DaySecond`) or since the start of its week
(`WeekSecond`).

Where the code departs from the documented intent, the model follows the code: a per-market duration of `Infinity`
counts as positive (`Infinity > 0` holds), while every finite number is below `Infinity`. So the scheduler returns
an event whose `timeUntil` is the sentinel, rather than none, exactly when no market has a finite positive duration
and some market's scan finds nothing (`Scheduler.SentinelChosenOnlyWithoutFinitePositive`,
`Scheduler.SentinelSelectedWithoutWeekday`). For a market whose opening time is not negative, the scan gives the
sentinel only when its trading days contain no weekday 0..6 (`Resolver.SentinelIffNoWeekday`), so for the
configured roster the scheduler always returns a finite event (`Scheduler.RosterAlwaysHasNextEvent`).

Behaviour of the code as written that the lemmas record:

- The per-day overnight rule opens CME on Sunday before its closing time (Sunday 10:00) and closes it on Monday to
  Thursday between its closing and opening times (`Session.CmeWeekBoundaries`), while the open-market countdown of
  an overnight session always runs to Friday's close (`Resolver.OvernightCloseIsComingFriday`).
- On Friday after the weekly close and before the opening time, the closed-market scan announces an opening at the
  opening time the same day (`Resolver.CmeWeekendEvents`), at which time the session evaluator still reports the
  market closed.
- The `ms > 0` guard of the scan never rejects a day the trading-day test admits, and the first hit is the earliest
  future opening instant of any trading day (`Resolver.QualifiesIffOpensAt`, `Resolver.NextOpenIsEarliest`); the
  `ms < bestMs` test is always true when reached, because `bestMs` is still the sentinel (`Resolver.TimeUntilOpen`'s
  loop invariant).

## Model

| member | source | states |
|---|---|---|
| `Calendar.CurrentMins` | src/lib/marketData.ts:122 | minutes since midnight of a reading lie in 0..1439 |
| `Calendar.OpenMins` | src/lib/marketData.ts:123 | the opening time in minutes since midnight; with an in-range minute it falls within its hour, and with both fields in range it lies in 0..1439 (`WellFormedBounds` for a well-formed market) |
| `Calendar.CloseMins` | src/lib/marketData.ts:124 | the closing time in minutes since midnight; with an in-range minute it falls within its hour, and with both fields in range it lies in 0..1439 (`WellFormedBounds` for a well-formed market) |
| `Calendar.IsPositive` | src/lib/marketData.ts:226 | the source's `d > 0` on durations, where `Infinity > 0` holds: it agrees with `0 < d` under `Less` |
| `Calendar.Less` | src/lib/marketData.ts:250 | the source's `a < b` on durations: only a number can be below anything, every number is below `Infinity`, and between two numbers it is the numeric `<`; `LessIsStrictTotalOrder` gives its order laws |
| `Calendar.LessIsStrictTotalOrder` | src/lib/marketData.ts:250 | the source's `<` on durations with `Infinity` above every number is irreflexive, transitive and total |
| `Roster.RosterWellFormed` | src/lib/marketData.ts:18-86 | the five configured markets all have trading days, in-range hours and minutes, and distinct ids |
| `Session.IsMarketOpen` | src/lib/marketData.ts:120-144 | open implies not Saturday, a trading day, inside [open, close) for a regular session, and before the close on a Friday for an overnight one |
| `Session.SaturdayAlwaysClosed` | src/lib/marketData.ts:126-127 | every market is closed on Saturday, whatever its trading days or overnight flag |
| `Session.NonTradingDayClosed` | src/lib/marketData.ts:129-130 | a day outside the trading days is closed |
| `Session.RegularSessionHalfOpen` | src/lib/marketData.ts:142-143 | a regular session on a trading weekday other than Saturday is open iff open <= now < close; the closing minute is closed |
| `Session.OvernightClosedAfterFridayClose` | src/lib/marketData.ts:134-135 | an overnight session is closed on Friday from its closing time on, though the wrap test would say open |
| `Session.OvernightWrapsMidnight` | src/lib/marketData.ts:137-139 | otherwise, on a trading day, an overnight session is open iff now >= open or now < close |
| `Session.NyseMondayBoundaries` | src/lib/marketData.ts:120-144 | New York on Monday: 09:29:59 closed, 09:30:00 open, 15:59:59 open, 16:00:00 closed |
| `Session.CmeWeekBoundaries` | src/lib/marketData.ts:133-140 | CME: Sunday 18:00 open, Friday 15:59:59 open, Friday 16:00 and 17:30 closed, Sunday 10:00 open, Monday 16:30 closed |
| `Resolver.DaysUntilFriday` | src/lib/marketData.ts:195-196 | the day count lies in 1..7, lands on a Friday and is the first positive offset that does |
| `Resolver.DayAhead` | src/lib/marketData.ts:211 | the weekday `k` days ahead is congruent to day + k modulo 7 |
| `Resolver.CloseMs` | src/lib/marketData.ts:185-204 | the close countdown is 1000 times the seconds to today's closing instant (regular session, or Friday), else to the closing instant of the coming Friday; `RegularCloseIsLaterToday` and `OvernightCloseIsComingFriday` add positivity for an open market |
| `Resolver.OpenCandidate` | src/lib/marketData.ts:215-224 | the scan computes a value for offset 0 only before the opening time and for every later offset, and that value is 1000 times the seconds to that day's opening instant |
| `Resolver.FirstOpen` | src/lib/marketData.ts:208-233 | a finite scan result is positive and is the value of some qualifying offset; `FirstOpenIsFirstQualifying` shows it is the first one |
| `Resolver.MarketNextEvent` | src/lib/marketData.ts:177-235 | the event is a close exactly when the market is open, a close countdown is finite, and an open countdown is positive or the sentinel; `NextEventIsFinitePositive` gives finiteness and positivity for a well-formed market |
| `Resolver.Qualifies` | src/lib/marketData.ts:212-226 | an offset stops the scan only if it is non-negative and lands on a trading day, and today only before its opening time; `QualifiesIffOpensAt` characterises it exactly |
| `Resolver.QualifiesIffOpensAt` | src/lib/marketData.ts:212-229 | an offset stops the scan iff it is a trading day whose opening instant is strictly in the future |
| `Resolver.FirstOpenIsFirstQualifying` | src/lib/marketData.ts:208-233 | the scan gives the sentinel iff no offset qualifies, else the value of the smallest qualifying offset |
| `Resolver.NextOpenIsEarliest` | src/lib/marketData.ts:205-234 | for a well-formed market the scan is finite and positive, and is the distance to the earliest future opening instant of any trading day |
| `Resolver.SentinelIffNoWeekday` | src/lib/marketData.ts:208-233 | with the opening time inside the day, the sentinel arises iff no trading-day entry is a weekday 0..6 |
| `Resolver.TimeUntilOpen` | src/lib/marketData.ts:206-233 | the `for` loop with `continue` and `break` returns exactly the scan specification |
| `Resolver.GetMarketNextEvent` | src/lib/marketData.ts:177-235 | the method returns the close countdown when open and the scan's open countdown when closed |
| `Resolver.RegularCloseIsLaterToday` | src/lib/marketData.ts:200-204 | an open regular market closes later today: the countdown is 1000 times the seconds to today's close, and positive |
| `Resolver.OvernightCloseIsComingFriday` | src/lib/marketData.ts:187-199 | an open overnight market closes at the coming Friday's close: the countdown is 1000 times the seconds to it within the week, and positive |
| `Resolver.NextEventIsFinitePositive` | src/lib/marketData.ts:177-235 | for a well-formed market the next event is finite, strictly positive, and a close iff the market is open |
| `Resolver.CloseCountdownFallsWithTime` | src/lib/marketData.ts:185-204 | while a market stays open, its close countdown falls by exactly the time elapsed between two readings |
| `Resolver.CmeWeekendEvents` | src/lib/marketData.ts:177-235 | CME: Saturday noon opens in 29 hours; Friday 16:30 announces an opening in 30 minutes; Friday 15:59:30 closes in 30 seconds |
| `Resolver.NyseWeekendEvent` | src/lib/marketData.ts:205-234 | New York on Saturday noon opens Monday 09:30 |
| `Resolver.DaysToAdd` | src/lib/marketData.ts:151-159 | for an in-range target day the day count lies in 0..7, lands on the target day, and is 7 iff the target is today and already past |
| `Resolver.MsUntil` | src/lib/marketData.ts:147-174 | the helper's result is 1000 times the seconds from now to the target time `DaysToAdd` days ahead; `MsUntilIsNextOccurrence` adds positivity and the week bound |
| `Resolver.MsUntilIsNextOccurrence` | src/lib/marketData.ts:147-174 | the helper's result is 1000 times the seconds to the next strictly future occurrence of the target day and time, positive and at most a week |
| `Scheduler.EventOf` | src/lib/marketData.ts:248 | a market's event at its own zone's reading is a close exactly when the market is open there, and an open event is positive or the sentinel |
| `Scheduler.GetNextMarketEvent` | src/lib/marketData.ts:244-260 | none iff no market's duration is positive; otherwise the first market in roster order whose positive duration no other positive one undercuts |
| `Scheduler.FirstMinimumIsUnique` | src/lib/marketData.ts:250 | with strict `<`, at most one market is the first minimum, so ties go to the earliest |
| `Scheduler.SentinelChosenOnlyWithoutFinitePositive` | src/lib/marketData.ts:250 | if the selected market's duration is the sentinel, no market has a finite positive duration |
| `Scheduler.SentinelSelectedWithoutWeekday` | src/lib/marketData.ts:244-260 | a one-market roster whose trading days hold no weekday 0..6 has the sentinel as its duration, and that market is the selection |
| `Scheduler.RosterAlwaysHasNextEvent` | src/lib/marketData.ts:244-260 | over the configured roster every market's duration is finite and positive, so the selection never returns none |
| `Countdown.NatToString` | src/lib/marketData.ts:279 | decimal text of a count: digits only, no leading zero, one character below 10, at most two below 100 |
| `Countdown.PadStart` | src/lib/marketData.ts:280-282 | the text padded in front with the fill character up to the width, the original text kept as a suffix |
| `Countdown.TwoDigits` | src/lib/marketData.ts:287-289 | a field below 100 is shown with exactly two digits |
| `Countdown.FormatCountdown` | src/lib/marketData.ts:263-291 | the zero state for a non-positive count; otherwise two-digit hours, minutes and seconds, and days present iff the count reaches one day, without a leading zero |
| `Countdown.ParseNatToString` | src/lib/marketData.ts:279 | reading the decimal text of a count back gives the count |
| `Countdown.ParseTwoDigits` | src/lib/marketData.ts:280-282 | reading a padded two-digit field back gives its value |
| `Countdown.SplitSeconds` | src/lib/marketData.ts:271-275 | the day, hour, minute and second split keeps hours under 24 and minutes under 60, and loses nothing |
| `Countdown.CountdownRoundTrip` | src/lib/marketData.ts:263-291 | for a positive count, days*86400 + hours*3600 + minutes*60 + seconds read back equals floor(ms/1000), each part in range |
| `Countdown.FormatCountdownExamples` | src/lib/marketData.ts:263-291 | 0 and -5000 give 00:00:00 without days; 90061000 gives 1 day, 01:01:01 |

## Left out

- `getTimeInZone` (src/lib/marketData.ts:89-117): it reads the real clock and projects it through the host's time-zone formatter. Its output is a parameter (`ClockReading`, or `clock` for the scheduler), and the `HourOfDay` subset type limits readings to hours 0..23. The host formatter can show midnight as hour 24 with `hour12: false`; the source would then compute minutes of 1440 or more, so that CME reads as closed on Friday at 00:30 (the override at line 135) and the New York scan skips Friday's 09:30 opening and announces Monday's, 57 hours away. The model rules such readings out and says nothing about them.
- The repeated clock reads: `getMarketNextEvent` reads the clock once itself and once more inside `isMarketOpen`, and every market and `getMsUntil` read it afresh; the model uses one reading per market, all of one instant, so the drift between reads is not modelled.
- The `latitude` and `longitude` fields: display-only floating-point coordinates with no effect on the engine.
- Floating point: the source's numbers are doubles; every value the engine computes is an integer far below 2^53, so unbounded integers are used.
- `Countdown.FormatCountdown`: takes a finite count; formatting the `Infinity` sentinel, which only a schedule without a valid weekday can produce, is not modelled.
- The optional `isOvernight` flag is a plain boolean, `false` where the source leaves it out.
- The 3D globe (`src/components/ParticleEarthGlobe.tsx`) and the page with its one-second polling (`src/app/page.tsx`): rendering and timers that only consume the engine.
