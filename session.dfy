/**
  The session evaluator: whether a market is open at a zone-local clock
  reading (the source's `isMarketOpen`, with the clock passed in).
*/
module Session {
  import opened Calendar
  import opened Roster

  /**
    Saturday closes everything; otherwise the day must be a trading day;
    a regular session is the half-open interval [open, close) of the day;
    an overnight session is open after its opening time or before its
    closing time, except on Friday from the closing time on.
  */
  function IsMarketOpen(m: Market, t: ClockReading): (r: bool)
    ensures r ==> t.day != Saturday && t.day in m.tradingDays
    ensures r && !m.isOvernight ==> OpenMins(m) <= CurrentMins(t) < CloseMins(m)
    ensures r && m.isOvernight && t.day == Friday ==> CurrentMins(t) < CloseMins(m)
  {
    var currentMins := CurrentMins(t);
    var openMins := OpenMins(m);
    var closeMins := CloseMins(m);
    if t.day == Saturday then false
    else if t.day !in m.tradingDays then false
    else if m.isOvernight then
      if t.day == Friday && currentMins >= closeMins then false
      else currentMins >= openMins || currentMins < closeMins
    else
      currentMins >= openMins && currentMins < closeMins
  }

  lemma SaturdayAlwaysClosed(m: Market, t: ClockReading)
    requires t.day == Saturday
    ensures !IsMarketOpen(m, t)
  {
  }

  lemma NonTradingDayClosed(m: Market, t: ClockReading)
    requires t.day !in m.tradingDays
    ensures !IsMarketOpen(m, t)
  {
  }

  /** A regular session is the half-open interval: the closing minute itself is closed. */
  lemma RegularSessionHalfOpen(m: Market, t: ClockReading)
    requires !m.isOvernight && t.day != Saturday && t.day in m.tradingDays
    ensures IsMarketOpen(m, t) <==> OpenMins(m) <= CurrentMins(t) < CloseMins(m)
  {
  }

  /** Friday from the closing time on is closed, although the wrap-around test alone would say open. */
  lemma OvernightClosedAfterFridayClose(m: Market, t: ClockReading)
    requires m.isOvernight && t.day == Friday && CurrentMins(t) >= CloseMins(m)
    ensures !IsMarketOpen(m, t)
  {
  }

  /** Apart from the Friday override, an overnight session wraps past midnight. */
  lemma OvernightWrapsMidnight(m: Market, t: ClockReading)
    requires m.isOvernight && t.day != Saturday && t.day in m.tradingDays
    requires !(t.day == Friday && CurrentMins(t) >= CloseMins(m))
    ensures IsMarketOpen(m, t) <==> CurrentMins(t) >= OpenMins(m) || CurrentMins(t) < CloseMins(m)
  {
  }

  /** New York around its opening and closing minutes on a Monday. */
  lemma NyseMondayBoundaries()
    ensures !IsMarketOpen(NYSE, ClockReading(1, 9, 29, 59))
    ensures IsMarketOpen(NYSE, ClockReading(1, 9, 30, 0))
    ensures IsMarketOpen(NYSE, ClockReading(1, 15, 59, 59))
    ensures !IsMarketOpen(NYSE, ClockReading(1, 16, 0, 0))
  {
  }

  /**
    CME around the weekend. As written, the Sunday rule also opens the
    market on Sunday morning (before the closing time), and on Monday to
    Thursday the hour between closing and opening time is closed.
  */
  lemma CmeWeekBoundaries()
    ensures IsMarketOpen(CME, ClockReading(0, 18, 0, 0))
    ensures IsMarketOpen(CME, ClockReading(5, 15, 59, 59))
    ensures !IsMarketOpen(CME, ClockReading(5, 16, 0, 0))
    ensures !IsMarketOpen(CME, ClockReading(5, 17, 30, 0))
    ensures IsMarketOpen(CME, ClockReading(0, 10, 0, 0))
    ensures !IsMarketOpen(CME, ClockReading(1, 16, 30, 0))
  {
  }
}
