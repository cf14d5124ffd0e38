/** The fixed roster of tracked markets, in the order the scheduler visits them. */
module Roster {
  import opened Calendar

  const NYSE: Market := Market("nyse", "New York", "New York", "America/New_York", 9, 30, 16, 0, [1, 2, 3, 4, 5], false)
  const LSE: Market := Market("lse", "London", "London", "Europe/London", 8, 0, 16, 30, [1, 2, 3, 4, 5], false)
  const TSE: Market := Market("tse", "Tokyo", "Tokyo", "Asia/Tokyo", 9, 0, 15, 0, [1, 2, 3, 4, 5], false)
  const CME: Market := Market("cme", "CME Futures", "Chicago", "America/Chicago", 17, 0, 16, 0, [0, 1, 2, 3, 4, 5], true)
  const COMEX: Market := Market("comex", "COMEX Gold", "New York", "America/New_York", 18, 0, 17, 0, [0, 1, 2, 3, 4, 5], true)

  const MARKETS: seq<Market> := [NYSE, LSE, TSE, CME, COMEX]

  /** Every configured schedule meets the configuration invariant, and the ids are distinct. */
  lemma RosterWellFormed()
    ensures |MARKETS| == 5
    ensures forall k :: 0 <= k < |MARKETS| ==> WellFormed(MARKETS[k])
    ensures forall j, k :: 0 <= j < k < |MARKETS| ==> MARKETS[j].id != MARKETS[k].id
  {
  }
}
