/**
 * The `stats` ledger: one entry per instrument of the fixed table, updated in
 * place each tick by the target refresh and the options state machine, and
 * read by the delta hedger. Orders are returned as the sequence of
 * `buy`/`sell` calls made, in order.
 */
module Ledger {
  import opened Wrappers
  import opened Market
  import opened Signal
  import opened Hedging

  /** The order one option submits this tick, if any. */
  function OrderFor(t: Ticker, r: OptionRecord): seq<Order>
  {
    match Transition(r.position, r.market, r.target).order
    case Some(side) => [Order(t, side, OptionsQtyPerTrade as real)]
    case None => []
  }

  /** No ticker occurs twice in `ts`. */
  predicate Distinct(ts: seq<Ticker>)
  {
    forall i, j :: 0 <= i < j < |ts| ==> ts[i] != ts[j]
  }

  /**
   * The orders of one walk over the tickers `ts`, skipping the underlying:
   * at most |ts| of them, each of 90 contracts of an option of the walk,
   * and no ticker twice when the walk visits each ticker once.
   */
  function OptionOrders(ts: seq<Ticker>, opts: map<Ticker, OptionRecord>): (os: seq<Order>)
    ensures |os| <= |ts|
    ensures forall o :: o in os ==> o.ticker in ts && o.ticker != RTM && o.qty == OptionsQtyPerTrade as real
    ensures Distinct(ts) ==> forall i, j :: 0 <= i < j < |os| ==> os[i].ticker != os[j].ticker
    decreases |ts|
  {
    if ts == [] then []
    else
      var t := ts[|ts| - 1];
      OptionOrders(ts[..|ts| - 1], opts) + (if t != RTM && t in opts then OrderFor(t, opts[t]) else [])
  }

  /** Every option entry after one tick of the state machine. */
  function TradedOptions(opts: map<Ticker, OptionRecord>): map<Ticker, OptionRecord>
  {
    map t | t in opts :: Traded(opts[t])
  }

  /** An order belongs to a walk exactly when its option is on the walk and its transition issues it. */
  lemma {:induction false} OptionOrdersMembers(ts: seq<Ticker>, opts: map<Ticker, OptionRecord>)
    ensures forall o :: o in OptionOrders(ts, opts) <==>
              o.ticker in ts && o.ticker != RTM && o.ticker in opts && o.qty == 90.0 &&
              Transition(opts[o.ticker].position, opts[o.ticker].market, opts[o.ticker].target).order == Some(o.side)
    decreases |ts|
  {
    if ts != [] {
      var init := ts[..|ts| - 1];
      OptionOrdersMembers(init, opts);
      assert forall x :: x in ts <==> x in init || x == ts[|ts| - 1];
    }
  }

  /**
   * One walk orders only options of the walk, never the underlying: exactly
   * one order of 90 contracts for each option whose position moves, on the
   * side that realises the move, and none for any other; so no ticker is
   * ordered twice.
   */
  lemma OptionOrdersSpec(ts: seq<Ticker>, opts: map<Ticker, OptionRecord>)
    requires Distinct(ts)
    ensures forall o :: o in OptionOrders(ts, opts) <==>
              o.ticker in ts && o.ticker != RTM && o.ticker in opts && o.qty == 90.0 &&
              Transition(opts[o.ticker].position, opts[o.ticker].market, opts[o.ticker].target).order == Some(o.side)
    ensures forall o :: o in OptionOrders(ts, opts) ==>
              SignedQty(o) == 90.0 * (Exposure(Traded(opts[o.ticker]).position) - Exposure(opts[o.ticker].position)) as real
    ensures forall i, j :: 0 <= i < j < |OptionOrders(ts, opts)| ==>
              OptionOrders(ts, opts)[i].ticker != OptionOrders(ts, opts)[j].ticker
  {
    OptionOrdersMembers(ts, opts);
  }

  /** What the driver reads for one option each tick: its last price, its delta and its fair value. */
  datatype Valuation = Valuation(market: real, delta: real, fair: real)

  /** An option entry after a refresh: new market price and delta, ratcheted target, same position. */
  function Refreshed(r: OptionRecord, v: Valuation): (r': OptionRecord)
    ensures r'.position == r.position && r'.market == v.market && r'.delta == v.delta
    ensures r'.target == Ratchet(r.position, r.target, v.fair)
  {
    r.(market := v.market, delta := v.delta, target := Ratchet(r.position, r.target, v.fair))
  }

  /**
   * Issues a hedge of `total` shares of the underlying on one side: orders of
   * 10000 while more than 10000 remain, then the positive remainder.
   */
  method SplitHedge(side: Side, total: real) returns (orders: seq<Order>)
    ensures orders == RtmOrders(side, HedgeChunks(total))
  {
    var sharesToTrade := total;
    orders := [];
    while sharesToTrade > SharesOrderLimit
      invariant sharesToTrade == total - SharesOrderLimit * |orders| as real
      invariant orders != [] ==> sharesToTrade > 0.0
      invariant forall j :: 0 <= j < |orders| ==> orders[j] == Order(RTM, side, SharesOrderLimit)
      decreases sharesToTrade.Floor
    {
      orders := orders + [Order(RTM, side, SharesOrderLimit)];
      sharesToTrade := sharesToTrade - SharesOrderLimit;
    }
    if sharesToTrade > 0.0 {
      HedgeOrdersAfter(side, total, orders);
      orders := orders + [Order(RTM, side, sharesToTrade)];
    }
  }

  /** Extending a prefix of `ts` by one element. */
  lemma PrefixStep(ts: seq<Ticker>, i: int)
    requires 0 <= i < |ts|
    requires forall j, k :: 0 <= j < k < |ts| ==> ts[j] != ts[k]
    ensures ts[..i + 1] == ts[..i] + [ts[i]] && ts[..i + 1][..i] == ts[..i]
    ensures ts[i] !in ts[..i]
  {
  }

  /** One step of the trading walk over distinct tickers `ts`, at index `i`. */
  lemma TradeWalkStep(before: map<Ticker, OptionRecord>, cur: map<Ticker, OptionRecord>, ts: seq<Ticker>, i: nat)
    requires i < |ts| && forall j, k :: 0 <= j < k < |ts| ==> ts[j] != ts[k]
    requires cur.Keys == before.Keys
    requires forall t :: t in cur ==> cur[t] == if t in ts[..i] then Traded(before[t]) else before[t]
    ensures ts[i] in cur ==> cur[ts[i]] == before[ts[i]]
    ensures ts[..i + 1] == ts[..i] + [ts[i]]
    ensures ts[i] !in cur ==>
              forall t :: t in cur ==> cur[t] == if t in ts[..i + 1] then Traded(before[t]) else before[t]
    ensures ts[i] != RTM && ts[i] in cur ==>
              var next := cur[ts[i] := Traded(cur[ts[i]])];
              forall t :: t in next ==> next[t] == if t in ts[..i + 1] then Traded(before[t]) else before[t]
    ensures OptionOrders(ts[..i + 1], before) ==
              OptionOrders(ts[..i], before) + (if ts[i] != RTM && ts[i] in before then OrderFor(ts[i], before[ts[i]]) else [])
  {
    PrefixStep(ts, i);
  }

  /** When the trading walk has covered every key, every entry has been traded once. */
  lemma TradeWalkDone(before: map<Ticker, OptionRecord>, cur: map<Ticker, OptionRecord>, ts: seq<Ticker>)
    requires cur.Keys == before.Keys && forall t :: t in cur ==> t in ts
    requires forall t :: t in cur ==> cur[t] == if t in ts[..|ts|] then Traded(before[t]) else before[t]
    ensures cur == TradedOptions(before)
    ensures OptionOrders(ts[..|ts|], before) == OptionOrders(ts, before)
  {
    assert ts[..|ts|] == ts;
    var traded := TradedOptions(before);
    assert cur.Keys == traded.Keys;
    assert forall t :: t in cur ==> cur[t] == traded[t];
  }

  class Stats {
    var options: map<Ticker, OptionRecord>
    var rtm: UnderlyingRecord

    /** Every option ticker of the table has an entry, and nothing else. */
    ghost predicate Valid()
      reads this
    {
      options.Keys == OptionTickers
    }

    /** The ledger at session start: everything zero and flat. */
    constructor ()
      ensures Valid()
      ensures rtm == UnderlyingRecord(0, 0.0, 0.0)
      ensures forall t :: t in options ==> options[t] == OptionRecord(Flat, 0.0, 0.0, 0.0)
    {
      options := map t | t in OptionTickers :: OptionRecord(Flat, 0.0, 0.0, 0.0);
      rtm := UnderlyingRecord(0, 0.0, 0.0);
    }

    /** Copies the underlying's last price, share position and VWAP into its entry. */
    method RefreshUnderlying(last: real, position: int, vwap: real)
      requires Valid()
      modifies this
      ensures Valid() && options == old(options)
      ensures rtm == UnderlyingRecord(position, last, vwap)
    {
      rtm := UnderlyingRecord(position, last, vwap);
    }

    /**
     * Refreshes every option's market price and delta and ratchets its
     * target toward the new fair value. While σ is still negative (no
     * volatility known yet) nothing is refreshed.
     */
    method RefreshOptions(sigma: real, vals: map<Ticker, Valuation>)
      requires Valid()
      requires OptionTickers <= vals.Keys
      modifies this
      ensures Valid() && rtm == old(rtm)
      ensures sigma < 0.0 ==> options == old(options)
      ensures sigma >= 0.0 ==> options == map t | t in old(options) :: Refreshed(old(options)[t], vals[t])
    {
      // The source breaks out of its strike loop before the first strike when σ < 0.
      if sigma >= 0.0 {
        TableDistinct();
        ghost var before := options;
        for i := 0 to |Table|
          invariant Valid() && rtm == old(rtm)
          invariant forall t :: t in options ==>
                      options[t] == if t in Table[..i] then Refreshed(before[t], vals[t]) else before[t]
        {
          var t := Table[i];
          PrefixStep(Table, i);
          if t == RTM {
            continue;
          }
          OptionTickerAt(i);
          RefreshOption(t, vals[t]);
        }
        assert Table[..|Table|] == Table;
      }
    }

    /**
     * Stores one option's new market price and delta and ratchets its target:
     * replaced by the fair value while flat, max-ed with it while long,
     * min-ed with it while short.
     */
    method RefreshOption(t: Ticker, v: Valuation)
      requires Valid() && t in options
      modifies this
      ensures Valid() && rtm == old(rtm)
      ensures options == old(options)[t := Refreshed(old(options)[t], v)]
    {
      var data := options[t];
      var target := data.target;
      match data.position {
        case Flat => target := v.fair;
        case Long => target := if v.fair > target then v.fair else target;
        case Short => target := if v.fair < target then v.fair else target;
      }
      options := options[t := data.(market := v.market, delta := v.delta, target := target)];
    }

    /**
     * The state machine step of one option: compares its market price with
     * its target, submits at most one order of 90 contracts and rewrites its
     * position.
     */
    method TradeOption(t: Ticker) returns (orders: seq<Order>)
      requires t in options
      modifies this
      ensures rtm == old(rtm)
      ensures options == old(options)[t := Traded(old(options)[t])]
      ensures orders == OrderFor(t, old(options)[t])
    {
      var data := options[t];
      var market, target := data.market, data.target;
      orders := [];
      match data.position {
        case Flat =>
          if Abs(market - target) >= EntryThreshold {
            if market < target {
              orders := [Order(t, Buy, OptionsQtyPerTrade as real)];
              options := options[t := data.(position := Long)];
            } else {
              orders := [Order(t, Sell, OptionsQtyPerTrade as real)];
              options := options[t := data.(position := Short)];
            }
          }
        case Long =>
          if market >= target || Abs(market - target) <= ExitThreshold {
            orders := [Order(t, Sell, OptionsQtyPerTrade as real)];
            options := options[t := data.(position := Flat)];
          }
        case Short =>
          if market <= target || Abs(market - target) <= ExitThreshold {
            orders := [Order(t, Buy, OptionsQtyPerTrade as real)];
            options := options[t := data.(position := Flat)];
          }
      }
    }

    /**
     * One pass of the options state machine over the table, skipping the
     * underlying: each option's position is moved by its transition and the
     * matching orders are returned; the underlying and every other field are
     * left alone.
     */
    method PerformOptionsTrades() returns (orders: seq<Order>)
      requires Valid()
      modifies this
      ensures Valid() && rtm == old(rtm)
      ensures options == TradedOptions(old(options))
      ensures orders == OptionOrders(Table, old(options))
    {
      TableDistinct();
      ghost var before := options;
      orders := [];
      for i := 0 to |Table|
        invariant rtm == old(rtm) && options.Keys == before.Keys
        invariant forall t :: t in options ==>
                    options[t] == if t in Table[..i] then Traded(before[t]) else before[t]
        invariant orders == OptionOrders(Table[..i], before)
      {
        var t := Table[i];
        TradeWalkStep(before, options, Table, i);
        if t == RTM {
          assert RTM !in OptionTickers;
          continue;
        }
        OptionTickerAt(i);
        var placed := TradeOption(t);
        orders := orders + placed;
      }
      TradeWalkDone(before, options, Table);
    }

    /** Sums the share-equivalent delta of the option positions, walking the table. */
    method OptionsNetDelta() returns (netDelta: real)
      requires Valid()
      ensures netDelta == OptionsDelta(Table, options)
    {
      netDelta := 0.0;
      for i := 0 to |Table|
        invariant netDelta == OptionsDelta(Table[..i], options)
      {
        var t := Table[i];
        OptionsDeltaStep(Table, i, options);
        if t == RTM {
          continue;
        }
        OptionTickerAt(i);
        var delta := options[t].delta;
        match options[t].position {
          case Long => netDelta := netDelta + delta * OptionsQtyPerTrade as real * SharesPerContract as real;
          case Short => netDelta := netDelta - delta * OptionsQtyPerTrade as real * SharesPerContract as real;
          case Flat =>
        }
      }
      assert Table[..|Table|] == Table;
    }

    /**
     * Sums the book's net delta, then either hedges it in the underlying
     * (over the limit) or unwinds a profitable underlying position. Reads
     * the ledger and changes nothing; returns the orders submitted.
     */
    method ManageRisk() returns (orders: seq<Order>)
      requires Valid()
      ensures orders == RiskOrders(NetDelta(options, rtm.position), rtm)
    {
      var netDelta := OptionsNetDelta();
      var position := rtm.position;
      netDelta := netDelta + position as real;
      assert netDelta == NetDelta(options, rtm.position);
      RiskOrdersCases(netDelta, rtm);
      orders := [];
      if Abs(netDelta) > NetDeltaRiskLimit {
        var n := Trunc(netDelta);
        var sharesToTrade := (if n < 0 then -n else n) as real * 0.7;
        assert sharesToTrade == HedgeTotal(netDelta);
        orders := SplitHedge(if netDelta > 0.0 then Sell else Buy, sharesToTrade);
        assert orders == RiskOrders(netDelta, rtm);
      } else if position > 0 && rtm.vwap < rtm.market - MarketFee * position as real {
        var something := netDelta - position as real;
        if Abs(something) < NetDeltaRiskLimit {
          orders := orders + [Order(RTM, Sell, position as real)];
        }
        assert orders == RiskOrders(netDelta, rtm);
      } else if position < 0 && rtm.vwap > rtm.market + MarketFee * (-position) as real {
        var something := netDelta - position as real;
        if Abs(something) < NetDeltaRiskLimit {
          orders := orders + [Order(RTM, Buy, (-position) as real)];
        }
        assert orders == RiskOrders(netDelta, rtm);
      }
    }
  }
}
