/** Worked single-tick examples of the signal and hedging rules. */
module Scenarios {
  import opened Wrappers
  import opened Market
  import opened Signal
  import opened Hedging

  /** A flat option trading at 1.30 against a fair value of 1.19 is sold short. */
  lemma OverpricedFlatGoesShort()
    ensures Transition(Flat, 1.30, 1.19) == Decision(Short, Some(Sell))
  {
  }

  /**
   * A long option with target 1.10 keeps that target when the fair value
   * drops to 1.05, and is closed when the market reaches 1.095.
   */
  lemma LongTargetHoldsAndCloses()
    ensures Ratchet(Long, 1.10, 1.05) == 1.10
    ensures Transition(Long, 1.095, Ratchet(Long, 1.10, 1.05)) == Decision(Flat, Some(Sell))
  {
  }

  /** A ledger long the 49 and 50 calls at delta 0.5, every other option flat. */
  const TwoLongCalls: map<Ticker, OptionRecord> :=
    map t | t in OptionTickers ::
      if t == Option(49, Call) || t == Option(50, Call) then OptionRecord(Long, 0.0, 0.0, 0.5)
      else OptionRecord(Flat, 0.0, 0.0, 0.0)

  /** The contribution of table entry `i` to the net delta of `TwoLongCalls`. */
  lemma TwoLongCallsAt(i: nat)
    requires 0 < i < |Table|
    ensures Table[i] in TwoLongCalls
    ensures Contribution(TwoLongCalls[Table[i]]) == if i == 2 || i == 3 then 4500.0 else 0.0
  {
    OptionTickerAt(i);
  }

  /** The running sum of option deltas over the first `k` table entries of `TwoLongCalls`. */
  lemma {:induction false} TwoLongCallsPrefix(k: nat)
    requires k <= |Table|
    ensures OptionsDelta(Table[..k], TwoLongCalls) == if k <= 2 then 0.0 else if k == 3 then 4500.0 else 9000.0
  {
    if k > 0 {
      TwoLongCallsPrefix(k - 1);
      assert Table[..k][..k - 1] == Table[..k - 1];
      assert Table[..k][k - 1] == Table[k - 1];
      if k > 1 {
        TwoLongCallsAt(k - 1);
      }
    }
  }

  /**
   * Two long calls at delta 0.5 and no underlying position make a net delta
   * of 9000, hedged by one SELL of 6300 shares.
   */
  lemma SingleHedgeOrder(market: real, vwap: real)
    ensures NetDelta(TwoLongCalls, 0) == 9000.0
    ensures RiskOrders(NetDelta(TwoLongCalls, 0), UnderlyingRecord(0, market, vwap)) == [Order(RTM, Sell, 6300.0)]
  {
    TwoLongCallsPrefix(|Table|);
    assert Table[..|Table|] == Table;
    assert Trunc(9000.0) == 9000;
    assert Ceil(6300.0 / SharesOrderLimit) == 1;
  }

  /**
   * A net delta of -40000.9 truncates to -40000 and is hedged by BUYs of
   * 10000, 10000 and 8000 shares (0.7 of 40000).
   */
  lemma ThreeHedgeOrders(market: real, vwap: real)
    ensures RiskOrders(-40000.9, UnderlyingRecord(0, market, vwap)) ==
              [Order(RTM, Buy, 10000.0), Order(RTM, Buy, 10000.0), Order(RTM, Buy, 8000.0)]
  {
    assert Trunc(-40000.9) == -40000;
    assert HedgeTotal(-40000.9) == 28000.0;
    assert Ceil(28000.0 / SharesOrderLimit) == 3;
    assert HedgeChunks(28000.0) == [10000.0, 10000.0, 8000.0];
  }
}
