/**
  The global scheduler: over the roster, the soonest next event with a
  strictly positive duration (the source's `getNextMarketEvent`). Each
  market is read through `clock`, which projects one instant into the
  market's time zone.
*/
module Scheduler {
  import opened Calendar
  import opened Roster
  import opened Session
  import opened Resolver
  import opened Wrappers

  /** The source's `NextEvent` record. */
  datatype NextEvent = NextEvent(market: Market, kind: EventKind, timeUntil: Duration)

  /** The next event of `m` at the instant that `clock` projects into each zone. */
  function EventOf(m: Market, clock: string -> ClockReading): (r: Event)
    ensures r.kind == Close <==> IsMarketOpen(m, clock(m.timezone))
    ensures r.kind == Open ==> IsPositive(r.ms)
  {
    MarketNextEvent(m, clock(m.timezone))
  }

  /**
    Among the first `n` markets, market `k` has a positive duration that no
    other positive one undercuts, and every earlier positive one is strictly
    later: the first minimum in roster order.
  */
  ghost predicate FirstMinimum(markets: seq<Market>, clock: string -> ClockReading, n: int, k: int)
    requires 0 <= n <= |markets|
  {
    0 <= k < n &&
    IsPositive(EventOf(markets[k], clock).ms) &&
    forall j :: 0 <= j < n && IsPositive(EventOf(markets[j], clock).ms) ==>
      !Less(EventOf(markets[j], clock).ms, EventOf(markets[k], clock).ms) &&
      (j < k ==> Less(EventOf(markets[k], clock).ms, EventOf(markets[j], clock).ms))
  }

  /** The selection is unique: at most one market is the first minimum. */
  lemma FirstMinimumIsUnique(markets: seq<Market>, clock: string -> ClockReading, k1: int, k2: int)
    requires FirstMinimum(markets, clock, |markets|, k1) && FirstMinimum(markets, clock, |markets|, k2)
    ensures k1 == k2
  {
  }

  /**
    `getNextMarketEvent`: none exactly when no market has a positive
    duration; otherwise the first market, in roster order, whose positive
    duration is the smallest.
  */
  method GetNextMarketEvent(markets: seq<Market>, clock: string -> ClockReading) returns (best: Option<NextEvent>)
    ensures best.None? <==> forall j :: 0 <= j < |markets| ==> !IsPositive(EventOf(markets[j], clock).ms)
    ensures best.Some? ==>
      exists k :: (FirstMinimum(markets, clock, |markets|, k) &&
        best.value == NextEvent(markets[k], EventOf(markets[k], clock).kind, EventOf(markets[k], clock).ms))
  {
    best := None;
    ghost var chosen := 0;
    for i := 0 to |markets|
      invariant best.None? <==> forall j :: 0 <= j < i ==> !IsPositive(EventOf(markets[j], clock).ms)
      invariant best.Some? ==>
        FirstMinimum(markets, clock, i, chosen) &&
        best.value == NextEvent(markets[chosen], EventOf(markets[chosen], clock).kind, EventOf(markets[chosen], clock).ms)
    {
      var market := markets[i];
      var event := GetMarketNextEvent(market, clock(market.timezone));
      assert event == EventOf(markets[i], clock);
      if IsPositive(event.ms) && (best.None? || Less(event.ms, best.value.timeUntil)) {
        if best.Some? {
          NewMinimumBeatsEarlier(markets, clock, i, chosen);
        }
        NewFirstMinimum(markets, clock, i);
        best := Some(NextEvent(market, event.kind, event.ms));
        chosen := i;
      } else if best.Some? {
        KeepFirstMinimum(markets, clock, i, chosen);
      }
    }
  }

  /** A positive duration strictly below every earlier positive one is the first minimum of the longer prefix. */
  lemma NewFirstMinimum(markets: seq<Market>, clock: string -> ClockReading, i: int)
    requires 0 <= i < |markets| && IsPositive(EventOf(markets[i], clock).ms)
    requires forall j :: 0 <= j < i && IsPositive(EventOf(markets[j], clock).ms) ==>
      Less(EventOf(markets[i], clock).ms, EventOf(markets[j], clock).ms)
    ensures FirstMinimum(markets, clock, i + 1, i)
  {
    forall j | 0 <= j < i && IsPositive(EventOf(markets[j], clock).ms)
      ensures !Less(EventOf(markets[j], clock).ms, EventOf(markets[i], clock).ms)
    {
      LessIsStrictTotalOrder(EventOf(markets[i], clock).ms, EventOf(markets[j], clock).ms, EventOf(markets[i], clock).ms);
    }
    LessIsStrictTotalOrder(EventOf(markets[i], clock).ms, EventOf(markets[i], clock).ms, EventOf(markets[i], clock).ms);
  }

  /** A duration below the current first minimum is below every earlier positive duration. */
  lemma NewMinimumBeatsEarlier(markets: seq<Market>, clock: string -> ClockReading, i: int, k: int)
    requires 0 <= i < |markets| && FirstMinimum(markets, clock, i, k)
    requires Less(EventOf(markets[i], clock).ms, EventOf(markets[k], clock).ms)
    ensures forall j :: 0 <= j < i && IsPositive(EventOf(markets[j], clock).ms) ==>
      Less(EventOf(markets[i], clock).ms, EventOf(markets[j], clock).ms)
  {
    forall j | 0 <= j < i && IsPositive(EventOf(markets[j], clock).ms)
      ensures Less(EventOf(markets[i], clock).ms, EventOf(markets[j], clock).ms)
    {
      LessIsStrictTotalOrder(EventOf(markets[i], clock).ms, EventOf(markets[k], clock).ms, EventOf(markets[j], clock).ms);
    }
  }

  /** A duration that is not positive, or not below the current first minimum, leaves it in place. */
  lemma KeepFirstMinimum(markets: seq<Market>, clock: string -> ClockReading, i: int, k: int)
    requires 0 <= i < |markets| && FirstMinimum(markets, clock, i, k)
    requires IsPositive(EventOf(markets[i], clock).ms) ==> !Less(EventOf(markets[i], clock).ms, EventOf(markets[k], clock).ms)
    ensures FirstMinimum(markets, clock, i + 1, k)
  {
  }

  /**
    The sentinel wins the selection only when no market has a finite
    positive duration: every finite number is below `Infinity`.
  */
  lemma SentinelChosenOnlyWithoutFinitePositive(markets: seq<Market>, clock: string -> ClockReading, k: int)
    requires FirstMinimum(markets, clock, |markets|, k) && EventOf(markets[k], clock).ms.Infinite?
    ensures forall j :: 0 <= j < |markets| && EventOf(markets[j], clock).ms.Finite? ==>
      EventOf(markets[j], clock).ms.ms <= 0
  {
  }

  /**
    A one-market roster whose trading days hold no weekday 0..6: its scan
    finds nothing, and that market, with the sentinel as its duration, is
    the one the selection returns.
  */
  lemma SentinelSelectedWithoutWeekday(clock: string -> ClockReading)
    ensures var bad := Market("none", "None", "None", "UTC", 9, 0, 17, 0, [9], false);
      EventOf(bad, clock).ms.Infinite? && FirstMinimum([bad], clock, 1, 0)
  {
    var bad := Market("none", "None", "None", "UTC", 9, 0, 17, 0, [9], false);
    SentinelIffNoWeekday(bad, clock(bad.timezone));
  }

  /** Over the configured roster every market always has a finite, positive next event, so the scheduler never returns none. */
  lemma RosterAlwaysHasNextEvent(clock: string -> ClockReading)
    ensures forall j :: 0 <= j < |MARKETS| ==>
      EventOf(MARKETS[j], clock).ms.Finite? && IsPositive(EventOf(MARKETS[j], clock).ms)
  {
    RosterWellFormed();
    forall j | 0 <= j < |MARKETS|
      ensures EventOf(MARKETS[j], clock).ms.Finite? && IsPositive(EventOf(MARKETS[j], clock).ms)
    {
      NextEventIsFinitePositive(MARKETS[j], clock(MARKETS[j].timezone));
    }
  }
}
