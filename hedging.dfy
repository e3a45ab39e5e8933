/**
 * The portfolio delta-hedging rules: net delta exposure over the ledger,
 * the size and splitting of a hedge, and when an existing hedge in the
 * underlying is unwound for profit.
 */
module Hedging {
  import opened Market
  import opened Signal

  /** Python's `int(x)` on a float: truncation toward zero. */
  function Trunc(x: real): (n: int)
    ensures x >= 0.0 ==> 0 <= n && n as real <= x < n as real + 1.0
    ensures x < 0.0 ==> n <= 0 && n as real - 1.0 < x <= n as real
  {
    if x >= 0.0 then x.Floor else -((-x).Floor)
  }

  /** Smallest integer not below `x`. */
  function Ceil(x: real): (n: int)
    ensures n as real - 1.0 < x <= n as real
  {
    -((-x).Floor)
  }

  /** Share-equivalent delta of one option entry: + when long, - when short, 0 when flat. */
  function Contribution(r: OptionRecord): (c: real)
    ensures c == Exposure(r.position) as real * r.delta * 9000.0
  {
    match r.position
    case Long => r.delta * OptionsQtyPerTrade as real * SharesPerContract as real
    case Short => -(r.delta * OptionsQtyPerTrade as real * SharesPerContract as real)
    case Flat => 0.0
  }

  /** No option of the ledger holds a position. */
  predicate AllFlat(opts: map<Ticker, OptionRecord>)
  {
    forall t :: t in opts ==> opts[t].position == Flat
  }

  /**
   * Sum of the contributions of the option tickers among `ts`, in order;
   * nothing when every option is flat.
   */
  function OptionsDelta(ts: seq<Ticker>, opts: map<Ticker, OptionRecord>): (d: real)
    ensures AllFlat(opts) ==> d == 0.0
    decreases |ts|
  {
    if ts == [] then 0.0
    else
      var t := ts[|ts| - 1];
      OptionsDelta(ts[..|ts| - 1], opts) + (if t != RTM && t in opts then Contribution(opts[t]) else 0.0)
  }

  /** Extending a walk by one ticker adds that ticker's contribution. */
  lemma OptionsDeltaStep(ts: seq<Ticker>, i: nat, opts: map<Ticker, OptionRecord>)
    requires i < |ts|
    ensures OptionsDelta(ts[..i + 1], opts) ==
              OptionsDelta(ts[..i], opts) + (if ts[i] != RTM && ts[i] in opts then Contribution(opts[ts[i]]) else 0.0)
  {
    assert ts[..i + 1][..i] == ts[..i];
  }

  /**
   * Net delta of the book: the options' exposure plus the underlying's signed
   * share position; with no open option only the underlying's position remains.
   */
  function NetDelta(opts: map<Ticker, OptionRecord>, rtmPosition: int): (nd: real)
    ensures AllFlat(opts) ==> nd == rtmPosition as real
  {
    OptionsDelta(Table, opts) + rtmPosition as real
  }

  /** Shares to trade when over the limit: `abs(int(net_delta)) * 0.7`, not rounded to a whole number. */
  function HedgeTotal(netDelta: real): (q: real)
    ensures q == 0.7 * Abs(netDelta).Floor as real
    ensures 0.0 <= q <= 0.7 * Abs(netDelta)
  {
    var n := Trunc(netDelta);
    (if n < 0 then -n else n) as real * 0.7
  }

  /**
   * Filling the hedge moves net delta toward zero without crossing it: at
   * least 30% of the exposure remains, on the same side.
   */
  lemma HedgePartial(netDelta: real)
    requires Abs(netDelta) > NetDeltaRiskLimit
    ensures HedgeTotal(netDelta) >= 3500.0
    ensures netDelta > 0.0 ==> 0.3 * netDelta <= netDelta - HedgeTotal(netDelta) < netDelta
    ensures netDelta < 0.0 ==> netDelta < netDelta + HedgeTotal(netDelta) <= 0.3 * netDelta
  {
  }

  /** `n` copies of `x`. */
  function Repeat(x: real, n: nat): (s: seq<real>)
    ensures |s| == n
    ensures forall i :: 0 <= i < n ==> s[i] == x
  {
    if n == 0 then [] else Repeat(x, n - 1) + [x]
  }

  function Sum(qs: seq<real>): real
    decreases |qs|
  {
    if qs == [] then 0.0 else Sum(qs[..|qs| - 1]) + qs[|qs| - 1]
  }

  lemma {:induction false} SumRepeat(x: real, n: nat)
    ensures Sum(Repeat(x, n)) == n as real * x
  {
    if n > 0 {
      assert Repeat(x, n)[..n - 1] == Repeat(x, n - 1);
      SumRepeat(x, n - 1);
    }
  }

  /**
   * The quantities of the orders a hedge of `total` shares is split into:
   * none for a hedge of nothing, otherwise each positive and at most 10000.
   */
  function HedgeChunks(total: real): (qs: seq<real>)
    ensures qs == [] <==> total <= 0.0
    ensures forall i :: 0 <= i < |qs| ==> 0.0 < qs[i] <= SharesOrderLimit
  {
    if total <= 0.0 then []
    else
      var n := Ceil(total / SharesOrderLimit);
      Repeat(SharesOrderLimit, n - 1) + [total - SharesOrderLimit * (n - 1) as real]
  }

  /**
   * A positive hedge becomes ceil(total / 10000) orders, all but the last
   * exactly 10000, adding up to the total.
   */
  lemma HedgeChunksSpec(total: real)
    ensures total > 0.0 ==> |HedgeChunks(total)| == Ceil(total / SharesOrderLimit) >= 1
    ensures total > 0.0 ==> Sum(HedgeChunks(total)) == total
    ensures forall i :: 0 <= i < |HedgeChunks(total)| - 1 ==> HedgeChunks(total)[i] == SharesOrderLimit
  {
    if total > 0.0 {
      var n := Ceil(total / SharesOrderLimit);
      var qs := HedgeChunks(total);
      assert n >= 1;
      assert qs[..n - 1] == Repeat(SharesOrderLimit, n - 1);
      SumRepeat(SharesOrderLimit, n - 1);
    }
  }

  /**
   * A hedge whose remainder after `k` full orders lies in (0, 10000] is those
   * `k` full orders followed by the remainder.
   */
  lemma HedgeChunksAfter(total: real, k: nat)
    requires 0.0 < total - SharesOrderLimit * k as real <= SharesOrderLimit
    ensures HedgeChunks(total) == Repeat(SharesOrderLimit, k) + [total - SharesOrderLimit * k as real]
  {
    assert Ceil(total / SharesOrderLimit) == k + 1;
  }

  /** Market orders for `RTM` on one side with the given quantities, in order. */
  function RtmOrders(side: Side, qs: seq<real>): (os: seq<Order>)
    ensures |os| == |qs|
    ensures forall i :: 0 <= i < |qs| ==> os[i] == Order(RTM, side, qs[i])
    decreases |qs|
  {
    if qs == [] then [] else RtmOrders(side, qs[..|qs| - 1]) + [Order(RTM, side, qs[|qs| - 1])]
  }

  /**
   * Full orders of 10000 followed by a remainder in (0, 10000] are exactly
   * the orders of the hedge.
   */
  lemma HedgeOrdersAfter(side: Side, total: real, full: seq<Order>)
    requires forall j :: 0 <= j < |full| ==> full[j] == Order(RTM, side, SharesOrderLimit)
    requires 0.0 < total - SharesOrderLimit * |full| as real <= SharesOrderLimit
    ensures full + [Order(RTM, side, total - SharesOrderLimit * |full| as real)] == RtmOrders(side, HedgeChunks(total))
  {
    HedgeChunksAfter(total, |full|);
  }

  /** Total quantity of a sequence of orders. */
  function TotalQty(os: seq<Order>): real
    decreases |os|
  {
    if os == [] then 0.0 else TotalQty(os[..|os| - 1]) + os[|os| - 1].qty
  }

  lemma {:induction false} TotalQtyRtmOrders(side: Side, qs: seq<real>)
    ensures TotalQty(RtmOrders(side, qs)) == Sum(qs)
    decreases |qs|
  {
    if qs != [] {
      assert RtmOrders(side, qs)[..|qs| - 1] == RtmOrders(side, qs[..|qs| - 1]);
      TotalQtyRtmOrders(side, qs[..|qs| - 1]);
    }
  }

  /** What `manage_risk` does in one call. */
  datatype RiskAction =
    | Hedge(side: Side, total: real)   // over the limit: trade toward neutral
    | Unwind(side: Side, shares: int)  // flatten a profitable hedge in the underlying
    | Hold

  /** The decision of `manage_risk` from the net delta and the underlying's entry. */
  function RiskDecision(netDelta: real, u: UnderlyingRecord): (a: RiskAction)
    ensures a.Hedge? <==> Abs(netDelta) > NetDeltaRiskLimit
    ensures a.Hedge? ==> a.side == (if netDelta > 0.0 then Sell else Buy) && a.total == HedgeTotal(netDelta)
    ensures a == Unwind(Sell, u.position) <==>
              Abs(netDelta) <= NetDeltaRiskLimit && u.position > 0 &&
              u.vwap < u.market - MarketFee * u.position as real &&
              Abs(netDelta - u.position as real) < NetDeltaRiskLimit
    ensures a == Unwind(Buy, -u.position) <==>
              Abs(netDelta) <= NetDeltaRiskLimit && u.position < 0 &&
              u.vwap > u.market + MarketFee * (-u.position) as real &&
              Abs(netDelta - u.position as real) < NetDeltaRiskLimit
    ensures a.Unwind? ==> a.shares > 0 && (a.side == Sell <==> u.position > 0)
    ensures a.Unwind? ==> a.shares == (if u.position > 0 then u.position else -u.position)
  {
    var p := u.position;
    if Abs(netDelta) > NetDeltaRiskLimit then
      Hedge(if netDelta > 0.0 then Sell else Buy, HedgeTotal(netDelta))
    else if p > 0 && u.vwap < u.market - MarketFee * p as real then
      if Abs(netDelta - p as real) < NetDeltaRiskLimit then Unwind(Sell, p) else Hold
    else if p < 0 && u.vwap > u.market + MarketFee * (-p) as real then
      if Abs(netDelta - p as real) < NetDeltaRiskLimit then Unwind(Buy, -p) else Hold
    else Hold
  }

  /**
   * The orders `manage_risk` submits: positive market orders for the
   * underlying, and some exactly when the decision is not to hold.
   */
  function RiskOrders(netDelta: real, u: UnderlyingRecord): (os: seq<Order>)
    ensures os == [] <==> RiskDecision(netDelta, u).Hold?
    ensures forall o :: o in os ==> o.ticker == RTM && o.qty > 0.0
  {
    match RiskDecision(netDelta, u)
    case Hedge(side, total) =>
      HedgePartial(netDelta);
      RtmOrders(side, HedgeChunks(total))
    case Unwind(side, shares) => [Order(RTM, side, shares as real)]
    case Hold => []
  }

  /** The orders of `manage_risk`, branch by branch as the source tests them. */
  lemma RiskOrdersCases(netDelta: real, u: UnderlyingRecord)
    ensures Abs(netDelta) > NetDeltaRiskLimit ==>
              RiskOrders(netDelta, u) == RtmOrders(if netDelta > 0.0 then Sell else Buy, HedgeChunks(HedgeTotal(netDelta)))
    ensures Abs(netDelta) <= NetDeltaRiskLimit && u.position > 0 && u.vwap < u.market - MarketFee * u.position as real ==>
              RiskOrders(netDelta, u) ==
                if Abs(netDelta - u.position as real) < NetDeltaRiskLimit then [Order(RTM, Sell, u.position as real)] else []
    ensures Abs(netDelta) <= NetDeltaRiskLimit && !(u.position > 0 && u.vwap < u.market - MarketFee * u.position as real) &&
            u.position < 0 && u.vwap > u.market + MarketFee * (-u.position) as real ==>
              RiskOrders(netDelta, u) ==
                if Abs(netDelta - u.position as real) < NetDeltaRiskLimit then [Order(RTM, Buy, (-u.position) as real)] else []
    ensures Abs(netDelta) <= NetDeltaRiskLimit && !(u.position > 0 && u.vwap < u.market - MarketFee * u.position as real) &&
            !(u.position < 0 && u.vwap > u.market + MarketFee * (-u.position) as real) ==>
              RiskOrders(netDelta, u) == []
  {
  }

  /**
   * Over the limit the orders are all on the side that reduces exposure, each
   * in (0, 10000], all but the last exactly 10000, as many as
   * ceil(total / 10000) and adding up to `abs(int(net_delta)) * 0.7`. Within
   * the limit there is at most one order, the unwind of the whole underlying
   * position, and none when that position is 0.
   */
  lemma RiskOrdersSpec(netDelta: real, u: UnderlyingRecord)
    ensures Abs(netDelta) > NetDeltaRiskLimit ==>
              var os := RiskOrders(netDelta, u);
              |os| == Ceil(HedgeTotal(netDelta) / SharesOrderLimit) && |os| >= 1 &&
              TotalQty(os) == HedgeTotal(netDelta) &&
              (forall i :: 0 <= i < |os| ==> os[i].side == (if netDelta > 0.0 then Sell else Buy) && os[i].qty <= SharesOrderLimit) &&
              (forall i :: 0 <= i < |os| - 1 ==> os[i].qty == SharesOrderLimit)
    ensures Abs(netDelta) <= NetDeltaRiskLimit ==> |RiskOrders(netDelta, u)| <= 1
    ensures Abs(netDelta) <= NetDeltaRiskLimit && u.position == 0 ==> RiskOrders(netDelta, u) == []
    ensures Abs(netDelta) <= NetDeltaRiskLimit && u.position > 0 ==>
              (RiskOrders(netDelta, u) == [Order(RTM, Sell, u.position as real)] <==>
               u.vwap < u.market - MarketFee * u.position as real && Abs(netDelta - u.position as real) < NetDeltaRiskLimit)
    ensures Abs(netDelta) <= NetDeltaRiskLimit && u.position < 0 ==>
              (RiskOrders(netDelta, u) == [Order(RTM, Buy, (-u.position) as real)] <==>
               u.vwap > u.market + MarketFee * (-u.position) as real && Abs(netDelta - u.position as real) < NetDeltaRiskLimit)
  {
    var a := RiskDecision(netDelta, u);
    if a.Hedge? {
      HedgePartial(netDelta);
      HedgeChunksSpec(a.total);
      TotalQtyRtmOrders(a.side, HedgeChunks(a.total));
    }
  }
}
