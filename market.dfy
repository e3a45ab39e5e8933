/**
 * The fixed instrument universe of the strategy and the values that flow
 * between its components: tickers, position states, option and underlying
 * records, and the market orders the bot submits.
 */
module Market {

  /** Strategy constants (volatility.py, lines 23-29). */
  const MarketFee: real := 0.02
  const SharesPerContract: int := 100
  const OptionsQtyPerTrade: int := 90
  const MaxTicksInSession: int := 300
  const NetDeltaRiskLimit: real := 5000.0
  const SharesOrderLimit: real := 10000.0

  datatype Kind = Call | Put

  /** "RTM" is the underlying ETF; "RTM<K><C|P>" are its options. */
  datatype Ticker = RTM | Option(strike: int, kind: Kind)

  /** The `stats` table in its insertion order, which is its iteration order. */
  const Table: seq<Ticker> := [
    RTM,
    Option(48, Call), Option(49, Call), Option(50, Call), Option(51, Call), Option(52, Call),
    Option(48, Put), Option(49, Put), Option(50, Put), Option(51, Put), Option(52, Put)
  ]

  /** The ten option tickers of the table. */
  const OptionTickers: set<Ticker> := set t | t in Table && t != RTM

  /** Position code of an option: 0 = Flat, 1 = Long, 2 = Short. */
  datatype Position = Flat | Long | Short

  /** The source's integer encoding of a position. */
  function Code(p: Position): (c: int)
    ensures 0 <= c <= 2
    ensures p == Flat <==> c == 0
    ensures p == Long <==> c == 1
  {
    match p
    case Flat => 0
    case Long => 1
    case Short => 2
  }

  /** Signed number of trade lots a position holds: +1 long, -1 short, 0 flat. */
  function Exposure(p: Position): (e: int)
    ensures -1 <= e <= 1
    ensures e == 0 <==> p == Flat
    ensures e > 0 <==> p == Long
  {
    match p
    case Flat => 0
    case Long => 1
    case Short => -1
  }

  /** One option entry of `stats`. */
  datatype OptionRecord = OptionRecord(position: Position, target: real, market: real, delta: real)

  /** The "RTM" entry of `stats`: its position is a signed share count. */
  datatype UnderlyingRecord = UnderlyingRecord(position: int, market: real, vwap: real)

  datatype Side = Buy | Sell

  /** The lots held are the code read as 0, +1, -1. */
  lemma CodeExposure(p: Position)
    ensures Exposure(p) == [0, 1, -1][Code(p)]
  {
  }

  /** A market order as `buy`/`sell` submit it. */
  datatype Order = Order(ticker: Ticker, side: Side, qty: real)

  /** Shares (or contracts) an order adds to the position: positive for BUY. */
  function SignedQty(o: Order): (q: real)
    ensures o.qty > 0.0 ==> (o.side == Buy <==> q > 0.0)
    ensures q == o.qty || q == -o.qty
  {
    if o.side == Buy then o.qty else -o.qty
  }

  /** Every non-underlying entry of the table is an option ticker. */
  lemma OptionTickerAt(i: int)
    requires 0 <= i < |Table| && Table[i] != RTM
    ensures Table[i] in OptionTickers
  {
  }

  /** No ticker occurs twice in the table. */
  lemma TableDistinct()
    ensures forall i, j :: 0 <= i < j < |Table| ==> Table[i] != Table[j]
    ensures |Table| == 11 && Table[0] == RTM
  {
  }
}
