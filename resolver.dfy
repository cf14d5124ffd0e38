/**
  The next-event resolver: for one market and one clock reading, the signed
  number of milliseconds until its next transition (the source's
  `getMarketNextEvent`), and the unused helper `getMsUntil`.

  Every duration is measured from the reading's instant. The reference
  instants used in the lemmas are seconds since the reading's own midnight
  (`DaySecond`) or since the start of its week (`WeekSecond`).
*/
module Resolver {
  import opened Calendar
  import opened Session
  import opened Roster
  import opened Wrappers

  /** The transition a market faces next and how far away it is. */
  datatype Event = Event(kind: EventKind, ms: Duration)

  /** The weekday `k` days after `day`. */
  function DayAhead(day: Weekday, k: int): (r: Weekday)
    ensures (r - day - k) % 7 == 0
  {
    (day + k) % 7
  }

  /** Days from `day` to the coming Friday, a full week when `day` is itself a Friday. */
  function DaysUntilFriday(day: Weekday): (r: int)
    ensures 1 <= r <= 7 && DayAhead(day, r) == Friday
    ensures forall k :: 1 <= k < r ==> DayAhead(day, k) != Friday
  {
    var d := 5 - day;
    if d <= 0 then d + 7 else d
  }

  /**
    Milliseconds until the close of a market that is open: the distance to
    today's closing instant for a regular session or on a Friday, else to
    the closing instant of the coming Friday.
  */
  function CloseMs(m: Market, t: ClockReading): (r: int)
    ensures !m.isOvernight || t.day == Friday ==> r == 1000 * (CloseMins(m) * 60 - DaySecond(t))
    ensures m.isOvernight && t.day != Friday ==>
      r == 1000 * ((t.day + DaysUntilFriday(t.day)) * SecondsPerDay + CloseMins(m) * 60 - WeekSecond(t))
  {
    var currentMins := CurrentMins(t);
    var closeMins := CloseMins(m);
    if m.isOvernight then
      if t.day == Friday then
        (closeMins - currentMins) * 60 * 1000 - t.seconds * 1000
      else
        var days := DaysUntilFriday(t.day);
        var totalMins := (24 * 60 - currentMins) + (days - 1) * 24 * 60 + closeMins;
        assert totalMins * 60 - t.seconds == days * SecondsPerDay + closeMins * 60 - DaySecond(t);
        assert (t.day + days) * SecondsPerDay == t.day * SecondsPerDay + days * SecondsPerDay;
        totalMins * 60 * 1000 - t.seconds * 1000
    else
      (closeMins - currentMins) * 60 * 1000 - t.seconds * 1000
  }

  /**
    The duration the closed-market scan computes for day offset `i`, or
    None where the scan skips the offset (today, once the opening time has
    passed).
  */
  function OpenCandidate(m: Market, t: ClockReading, i: int): (r: Option<int>)
    ensures r.Some? <==> i > 0 || (i == 0 && CurrentMins(t) < OpenMins(m))
    ensures r.Some? ==> r.value == 1000 * (OpeningSecond(m, i) - DaySecond(t))
  {
    var currentMins := CurrentMins(t);
    var openMins := OpenMins(m);
    if i == 0 && currentMins < openMins then
      Some((openMins - currentMins) * 60 * 1000 - t.seconds * 1000)
    else if i > 0 then
      var totalMins := (24 * 60 - currentMins) + (i - 1) * 24 * 60 + openMins;
      Some(totalMins * 60 * 1000 - t.seconds * 1000)
    else
      None
  }

  /** Offset `i` stops the scan: a trading day with a strictly positive candidate. */
  predicate Qualifies(m: Market, t: ClockReading, i: int): (r: bool)
    ensures r ==> 0 <= i && DayAhead(t.day, i) in m.tradingDays
    ensures r && i == 0 ==> CurrentMins(t) < OpenMins(m)
  {
    DayAhead(t.day, i) in m.tradingDays && OpenCandidate(m, t, i).Some? && OpenCandidate(m, t, i).value > 0
  }

  /** The scan over offsets i..7: the first qualifying offset's duration, else the sentinel. */
  function FirstOpen(m: Market, t: ClockReading, i: nat): (r: Duration)
    ensures r.Finite? ==> r.ms > 0 && exists j :: i <= j <= 7 && Qualifies(m, t, j) && r.ms == OpenCandidate(m, t, j).value
    decreases 8 - i
  {
    if i > 7 then Infinite
    else if Qualifies(m, t, i) then Finite(OpenCandidate(m, t, i).value)
    else FirstOpen(m, t, i + 1)
  }

  /** The specification of `getMarketNextEvent` for one shared clock reading. */
  function MarketNextEvent(m: Market, t: ClockReading): (r: Event)
    ensures r.kind == Close <==> IsMarketOpen(m, t)
    ensures r.kind == Close ==> r.ms.Finite?
    ensures r.kind == Open ==> IsPositive(r.ms)
  {
    if IsMarketOpen(m, t) then Event(Close, Finite(CloseMs(m, t)))
    else Event(Open, FirstOpen(m, t, 0))
  }

  /** The opening instant of the day `k` days ahead, in seconds since the reading's midnight. */
  function OpeningSecond(m: Market, k: int): int
  {
    k * SecondsPerDay + OpenMins(m) * 60
  }

  /** Day `k` ahead is a trading day whose opening instant is still to come. */
  predicate OpensAt(m: Market, t: ClockReading, k: int)
  {
    DayAhead(t.day, k) in m.tradingDays && OpeningSecond(m, k) > DaySecond(t)
  }

  // ----- the closed-market scan -----

  /** The ms > 0 guard rejects nothing the day test admits: an offset qualifies iff it opens in the future. */
  lemma QualifiesIffOpensAt(m: Market, t: ClockReading, i: int)
    requires i >= 0
    ensures Qualifies(m, t, i) <==> OpensAt(m, t, i)
  {
  }

  /** The scan from `i` stops at the first qualifying offset in i..7, and gives the sentinel iff there is none. */
  lemma {:induction false} FirstOpenIsFirstQualifying(m: Market, t: ClockReading, i: nat)
    ensures FirstOpen(m, t, i).Infinite? <==> forall j :: i <= j <= 7 ==> !Qualifies(m, t, j)
    ensures FirstOpen(m, t, i).Finite? ==>
      exists j :: i <= j <= 7 && Qualifies(m, t, j) && FirstOpen(m, t, i).ms == OpenCandidate(m, t, j).value &&
        forall k :: i <= k < j ==> !Qualifies(m, t, k)
    decreases 8 - i
  {
    if i > 7 {
    } else if Qualifies(m, t, i) {
      assert FirstOpen(m, t, i).ms == OpenCandidate(m, t, i).value;
    } else {
      assert FirstOpen(m, t, i) == FirstOpen(m, t, i + 1);
      FirstOpenIsFirstQualifying(m, t, i + 1);
      if FirstOpen(m, t, i).Finite? {
        var j :| i + 1 <= j <= 7 && Qualifies(m, t, j) && FirstOpen(m, t, i + 1).ms == OpenCandidate(m, t, j).value &&
          forall k :: i + 1 <= k < j ==> !Qualifies(m, t, k);
        assert forall k :: i <= k < j ==> !Qualifies(m, t, k);
      }
    }
  }

  /**
    For a well-formed schedule the scan always finds an opening, and it is
    the earliest opening instant of a trading day that lies strictly in
    the future: no later day offset, however large, opens sooner.
  */
  lemma NextOpenIsEarliest(m: Market, t: ClockReading)
    requires WellFormed(m)
    ensures FirstOpen(m, t, 0).Finite? && FirstOpen(m, t, 0).ms > 0
    ensures exists k :: (0 <= k <= 7 && OpensAt(m, t, k) &&
                         FirstOpen(m, t, 0).ms == 1000 * (OpeningSecond(m, k) - DaySecond(t)))
    ensures forall k :: k >= 0 && OpensAt(m, t, k) ==>
                        FirstOpen(m, t, 0).ms <= 1000 * (OpeningSecond(m, k) - DaySecond(t))
  {
    SomeOffsetQualifies(m, t);
    FirstOpenIsFirstQualifying(m, t, 0);
    var j :| 0 <= j <= 7 && Qualifies(m, t, j) && FirstOpen(m, t, 0).ms == OpenCandidate(m, t, j).value &&
      forall k :: 0 <= k < j ==> !Qualifies(m, t, k);
    QualifiesIffOpensAt(m, t, j);
    assert OpensAt(m, t, j);
    forall k | k >= 0 && OpensAt(m, t, k)
      ensures FirstOpen(m, t, 0).ms <= 1000 * (OpeningSecond(m, k) - DaySecond(t))
    {
      if k < j {
        QualifiesIffOpensAt(m, t, k);
      } else {
        OpeningSecondMonotone(m, j, k);
      }
    }
  }

  lemma OpeningSecondMonotone(m: Market, j: int, k: int)
    requires j <= k
    ensures OpeningSecond(m, j) <= OpeningSecond(m, k)
  {
  }

  /** With a well-formed schedule some offset in 1..7 lands on a trading day and qualifies. */
  lemma SomeOffsetQualifies(m: Market, t: ClockReading)
    requires WellFormed(m)
    ensures exists j :: 0 <= j <= 7 && Qualifies(m, t, j)
  {
    var d := m.tradingDays[0];
    var w := TradingDayOffset(t.day, d);
    WellFormedBounds(m);
    assert Qualifies(m, t, w);
  }

  /** The offset in 1..7 at which weekday `d` next comes round after `day`. */
  function TradingDayOffset(day: Weekday, d: Weekday): (w: int)
    ensures 1 <= w <= 7 && DayAhead(day, w) == d
  {
    if d > day then d - day else d - day + 7
  }

  /**
    With the opening time inside the day, the scan gives the sentinel
    exactly when no entry of the trading days is a weekday 0..6.
  */
  lemma SentinelIffNoWeekday(m: Market, t: ClockReading)
    requires 0 <= OpenMins(m)
    ensures FirstOpen(m, t, 0).Infinite? <==> forall d :: d in m.tradingDays ==> !(0 <= d < 7)
  {
    FirstOpenIsFirstQualifying(m, t, 0);
    if d :| d in m.tradingDays && 0 <= d < 7 {
      var w := TradingDayOffset(t.day, d);
        assert Qualifies(m, t, w);
    }
  }

  /** The closed branch of `getMarketNextEvent`: the forward scan over day offsets 0..7. */
  method TimeUntilOpen(m: Market, t: ClockReading) returns (bestMs: Duration)
    ensures bestMs == FirstOpen(m, t, 0)
  {
    var currentMins := CurrentMins(t);
    var openMins := OpenMins(m);
    bestMs := Infinite;
    for i := 0 to 8
      invariant bestMs == Infinite
      invariant FirstOpen(m, t, 0) == FirstOpen(m, t, i)
    {
      var checkDay := DayAhead(t.day, i);
      if checkDay in m.tradingDays {
        var ms: int;
        if i == 0 && currentMins < openMins {
          ms := (openMins - currentMins) * 60 * 1000 - t.seconds * 1000;
        } else if i > 0 {
          var totalMins := (24 * 60 - currentMins) + (i - 1) * 24 * 60 + openMins;
          ms := totalMins * 60 * 1000 - t.seconds * 1000;
        } else {
          continue;
        }
        if ms > 0 && Less(Finite(ms), bestMs) {
          bestMs := Finite(ms);
          break;
        }
      }
    }
  }

  /** `getMarketNextEvent` with one clock reading shared by the open test and the arithmetic. */
  method GetMarketNextEvent(m: Market, t: ClockReading) returns (e: Event)
    ensures e == MarketNextEvent(m, t)
  {
    var open := IsMarketOpen(m, t);
    if open {
      e := Event(Close, Finite(CloseMs(m, t)));
    } else {
      var bestMs := TimeUntilOpen(m, t);
      e := Event(Open, bestMs);
    }
  }

  // ----- the open-market countdown -----

  /** An open regular session closes later the same day: the countdown is the distance to that instant, and positive. */
  lemma RegularCloseIsLaterToday(m: Market, t: ClockReading)
    requires !m.isOvernight && IsMarketOpen(m, t)
    ensures MarketNextEvent(m, t) == Event(Close, Finite(1000 * (CloseMins(m) * 60 - DaySecond(t))))
    ensures CloseMins(m) * 60 - DaySecond(t) > 0
  {
  }

  /**
    An open overnight session closes at the closing time of the coming
    Friday (today, on a Friday): the countdown is the distance to that
    instant within the week, and positive.
  */
  lemma OvernightCloseIsComingFriday(m: Market, t: ClockReading)
    requires m.isOvernight && IsMarketOpen(m, t) && 0 <= CloseMins(m)
    ensures t.day <= Friday
    ensures MarketNextEvent(m, t) == Event(Close, Finite(1000 * (Friday * SecondsPerDay + CloseMins(m) * 60 - WeekSecond(t))))
    ensures Friday * SecondsPerDay + CloseMins(m) * 60 - WeekSecond(t) > 0
  {
    var gap := Friday * SecondsPerDay + CloseMins(m) * 60 - WeekSecond(t);
    if t.day == Friday {
      assert CurrentMins(t) < CloseMins(m);
      assert CloseMs(m, t) == 1000 * gap;
    } else {
      var days := DaysUntilFriday(t.day);
      assert days == Friday - t.day;
      var totalMins := (24 * 60 - CurrentMins(t)) + (days - 1) * 24 * 60 + CloseMins(m);
      assert totalMins * 60 - t.seconds == gap;
      assert CloseMs(m, t) == 1000 * gap;
    }
  }

  /** Every market of a well-formed schedule faces a finite, strictly positive next event, of the kind its state calls for. */
  lemma NextEventIsFinitePositive(m: Market, t: ClockReading)
    requires WellFormed(m)
    ensures MarketNextEvent(m, t).ms.Finite? && MarketNextEvent(m, t).ms.ms > 0
    ensures MarketNextEvent(m, t).kind == (if IsMarketOpen(m, t) then Close else Open)
  {
    if IsMarketOpen(m, t) {
      if m.isOvernight {
        OvernightCloseIsComingFriday(m, t);
      } else {
        RegularCloseIsLaterToday(m, t);
      }
    } else {
      NextOpenIsEarliest(m, t);
    }
  }

  /**
    While a market stays open, the countdown to its close falls by exactly
    the time elapsed between two readings (within one day for a regular
    session, within one week for an overnight one).
  */
  lemma CloseCountdownFallsWithTime(m: Market, t1: ClockReading, t2: ClockReading)
    requires IsMarketOpen(m, t1) && IsMarketOpen(m, t2) && 0 <= CloseMins(m)
    requires !m.isOvernight ==> t1.day == t2.day
    ensures MarketNextEvent(m, t1).ms.Finite? && MarketNextEvent(m, t2).ms.Finite?
    ensures MarketNextEvent(m, t1).ms.ms - MarketNextEvent(m, t2).ms.ms == 1000 * (WeekSecond(t2) - WeekSecond(t1))
  {
    if m.isOvernight {
      OvernightCloseIsComingFriday(m, t1);
      OvernightCloseIsComingFriday(m, t2);
    } else {
      RegularCloseIsLaterToday(m, t1);
      RegularCloseIsLaterToday(m, t2);
    }
  }

  /**
    Two readings at CME: on Saturday the next opening is Sunday 17:00; on
    Friday at 16:30, after the weekly close, the scan announces an opening
    at 17:00 the same day, at which time the session evaluator still
    reports the market closed.
  */
  lemma CmeWeekendEvents()
    ensures MarketNextEvent(CME, ClockReading(6, 12, 0, 0)) == Event(Open, Finite((12 * 60 + 17 * 60) * 60 * 1000))
    ensures MarketNextEvent(CME, ClockReading(5, 16, 30, 0)) == Event(Open, Finite(30 * 60 * 1000))
    ensures MarketNextEvent(CME, ClockReading(5, 15, 59, 30)) == Event(Close, Finite(30 * 1000))
  {
  }

  /** New York on a Saturday noon opens on Monday at 09:30. */
  lemma NyseWeekendEvent()
    ensures MarketNextEvent(NYSE, ClockReading(6, 12, 0, 0)) == Event(Open, Finite((12 * 60 + 24 * 60 + 9 * 60 + 30) * 60 * 1000))
  {
  }

  // ----- getMsUntil -----

  /** Whole days to the next occurrence of `targetDay` at `targetMins`: a full week when that is today and already past. */
  function DaysToAdd(t: ClockReading, targetDay: int, targetMins: int): (r: int)
    ensures 0 <= targetDay < 7 ==> 0 <= r <= 7 && DayAhead(t.day, r) == targetDay
    ensures 0 <= targetDay < 7 ==> (r == 7 <==> targetDay == t.day && CurrentMins(t) >= targetMins)
  {
    var daysToAdd := targetDay - t.day;
    var wrapped := if daysToAdd < 0 then daysToAdd + 7 else daysToAdd;
    if wrapped == 0 && CurrentMins(t) >= targetMins then 7 else wrapped
  }

  /** The source's `getMsUntil`, with the clock reading passed in. */
  function MsUntil(t: ClockReading, targetDay: int, targetHour: int, targetMinute: int): (r: int)
    ensures var targetMins := targetHour * 60 + targetMinute;
      r == 1000 * (DaysToAdd(t, targetDay, targetMins) * SecondsPerDay + targetMins * 60 - DaySecond(t))
  {
    var currentMins := CurrentMins(t);
    var targetMins := targetHour * 60 + targetMinute;
    var daysToAdd := DaysToAdd(t, targetDay, targetMins);
    var totalMins :=
      if daysToAdd == 0 then targetMins - currentMins
      else (24 * 60 - currentMins) + (daysToAdd - 1) * 24 * 60 + targetMins;
    totalMins * 60 * 1000 - t.seconds * 1000
  }

  /**
    For an in-range target, `getMsUntil` is the distance to the next
    occurrence of the target weekday and time that lies strictly in the
    future: positive, at most a week, and no earlier occurrence is still
    to come.
  */
  lemma MsUntilIsNextOccurrence(t: ClockReading, targetDay: int, targetHour: int, targetMinute: int)
    requires 0 <= targetDay < 7 && 0 <= targetHour < 24 && 0 <= targetMinute < 60
    ensures var k := DaysToAdd(t, targetDay, targetHour * 60 + targetMinute);
      var target := k * SecondsPerDay + (targetHour * 60 + targetMinute) * 60;
      MsUntil(t, targetDay, targetHour, targetMinute) == 1000 * (target - DaySecond(t)) &&
      target > DaySecond(t) &&
      0 < MsUntil(t, targetDay, targetHour, targetMinute) <= 7 * SecondsPerDay * 1000 &&
      forall j :: 0 <= j < k && DayAhead(t.day, j) == targetDay ==>
        j * SecondsPerDay + (targetHour * 60 + targetMinute) * 60 <= DaySecond(t)
  {
    var targetMins := targetHour * 60 + targetMinute;
    var k := DaysToAdd(t, targetDay, targetMins);
    var totalMins := if k == 0 then targetMins - CurrentMins(t) else (24 * 60 - CurrentMins(t)) + (k - 1) * 24 * 60 + targetMins;
    assert totalMins == k * MinutesPerDay + targetMins - CurrentMins(t);
    assert MsUntil(t, targetDay, targetHour, targetMinute) == 1000 * (totalMins * 60 - t.seconds);
    if k == 0 {
      assert targetMins > CurrentMins(t);
    }
  }
}
