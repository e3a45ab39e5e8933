# Volatility trading bot: decision and risk logic

This project models the trading core of an options volatility-arbitrage bot. The bot trades the ETF `RTM` and ten options on it: calls and puts at strikes 48 to 52. The model covers:

- the per-option Flat/Long/Short state machine that opens and closes 90-contract positions when the market price strays from the target;
- the target ratchet applied when a new fair value arrives;
- the σ (realized volatility) gating at checkpoint ticks;
- the realized-volatility announcement parser;
- the delta-hedging controller. It sums the book's net delta and, above ±5000, trades 0.7 × |int(net delta)| shares of `RTM` in orders of at most 10000. Otherwise it may unwind a profitable `RTM` position.

Prices, targets and deltas are exact reals. Every `buy`/`sell` call becomes an `Order(ticker, side, qty)` value, and each operation returns the orders it submits, in order.

Modules:

- `Market` (`market.dfy`): tickers, the fixed 11-entry table in its iteration order, position states, ledger records, orders and the strategy constants.
- `Signal` (`signal.dfy`): the state machine `Transition`, the ratchet `Ratchet` and lemmas about runs of refreshes.
- `Hedging` (`hedging.dfy`): net delta as a specification function, truncation, the hedge size and its split into orders, and the risk decision.
- `Ledger` (`ledger.dfy`): the `stats` dictionary as the class `Stats`. It holds a map from option ticker to record plus the `RTM` record. Its methods update them in place (`PerformOptionsTrades`, `RefreshOptions`, `RefreshUnderlying`) or read them (`ManageRisk`). Each method is proved against the functions of `Signal` and `Hedging`.
- `Pricing` (`pricing.dfy`): time to expiry and the degenerate branch of the Black-Scholes price.
- `News` (`news.dfy`): whitespace splitting, decimal parsing, the announcement reader and σ gating.
- `Scenarios` (`scenarios.dfy`): worked one-tick examples.

Three details of the code that are easy to misread:

- The hedge size is `abs(int(net_delta)) * 0.7`. `int` truncates toward zero, and the product is not rounded to a whole number, so hedge orders may be fractional.
- The unwind profitability test charges the 0.02 fee once per share of the whole position (`0.02 × position`), compared against the per-share price difference.
- In the degenerate branch the put is priced with the call payoff; see Findings.

## Model

| member | source | states |
|---|---|---|
| Market.Code | volatility.py:189 | positions are encoded 0 = flat, 1 = long, 2 = short |
| Market.CodeExposure | volatility.py:139-142 | the lots a position holds are its code read as 0 → 0, 1 → +1, 2 → −1, as the two branches of the net-delta sum use it |
| Signal.Transition | volatility.py:107-126 | an order is placed exactly when the position moves, a BUY exactly when exposure rises by one lot and a SELL when it falls by one; no Long↔Short jump; from Flat a position opens iff abs(m−t) ≥ 0.04, Long iff m < t; Long closes iff m ≥ t or abs(m−t) ≤ 0.01; Short closes iff m ≤ t or abs(m−t) ≤ 0.01 |
| Signal.Traded | volatility.py:105-126 | one tick changes only the position field of an option entry, to the transition's next state |
| Signal.Ratchet | volatility.py:253-258 | new target is the fair value when flat, at least both the old target and the fair value (and equal to one) when long, at most both when short |
| Signal.RatchetMonotone | volatility.py:253-258 | over successive refreshes while long the target never falls and never sits below the starting target or any fair value seen; while short it never rises or sits above them |
| Signal.RatchetFlat | volatility.py:253-254 | while flat the target after each refresh is that refresh's fair value |
| Pricing.TimeToExpiry | volatility.py:77-78 | years to expiry are (300 − tick)/3600: positive exactly before tick 300, zero at 300 |
| Pricing.TimeToExpiryDecreasing | volatility.py:77-78 | a later tick leaves strictly less time |
| Pricing.BlackScholesPrice | volatility.py:82-84 | with T ≤ 0 or σ ≤ 0 the price is max(S−K, 0) for calls and puts alike; otherwise the closed form (taken as an input) |
| Pricing.IntrinsicValue | volatility.py:83-84 | corrected degenerate price: max(S−K, 0) for a call, max(K−S, 0) for a put |
| Pricing.FairValue | volatility.py:82-84 | the degenerate branch returns the corrected intrinsic value of the option's own kind |
| Pricing.FairValueParity | volatility.py:83-84 | degenerate call minus put price equals S − K for the corrected definition |
| Pricing.DegeneratePutMispriced | volatility.py:83-84 | for S = 48, K = 52 at expiry the source prices the put at 0 instead of 4, breaking parity |
| Hedging.Trunc | volatility.py:149 | `int()` truncates toward zero |
| Hedging.Contribution | volatility.py:139-142 | an option adds +delta·90·100 when long, −delta·90·100 when short, nothing when flat |
| Hedging.NetDelta | volatility.py:130-145 | `net_delta`: the options' contributions in table order plus the underlying's share position; with every option flat it is that position alone |
| Hedging.HedgeTotal | volatility.py:149 | the hedge size is 0.7 × floor(abs(net delta)), between 0 and 0.7 × abs(net delta) |
| Hedging.HedgePartial | volatility.py:148-149 | over the limit the hedge is at least 3500 shares and moves net delta toward zero without crossing it, leaving at least 30% |
| Hedging.HedgeChunks | volatility.py:153-164 | the quantities the hedge is sent in: none iff the total is not positive, each in (0, 10000] |
| Hedging.HedgeChunksSpec | volatility.py:153-164 | a positive hedge becomes ceil(total/10000) ≥ 1 orders, all but the last exactly 10000, summing to the total |
| Hedging.RiskDecision | volatility.py:144-175 | hedge iff abs(net delta) > 5000, SELL iff net delta > 0, of `HedgeTotal`; otherwise SELL the whole position p > 0 iff vwap < market − 0.02·p and abs(net delta − p) < 5000, BUY abs(p) for p < 0 iff vwap > market + 0.02·abs(p) and abs(net delta − p) < 5000; an unwind is always of the whole position abs(p), so with both iffs the decision is fixed on every input |
| Hedging.RiskOrders | volatility.py:144-175 | what `manage_risk` submits: positive market orders for RTM only, and none exactly when the decision is to hold |
| Hedging.RiskOrdersCases | volatility.py:144-175 | the submitted orders branch by branch as the source tests them: over the limit the `HedgeChunks` orders on the reducing side; a profitable long or short position is unwound whole only when abs(net delta − p) < 5000, otherwise nothing; when neither profit test passes, no order |
| Hedging.RiskOrdersSpec | volatility.py:144-175 | over the limit they are all on the reducing side, capped at 10000, all but the last exactly 10000, ceil(total/10000) in number and sum to the hedge size; within the limit at most one order, none when the position is 0, and the unwind happens exactly under its profit and residual-delta conditions |
| Ledger.OptionOrders | volatility.py:99-126 | what `perform_options_trades` submits over a walk of tickers: no more orders than the walk has tickers, each of 90 contracts of a non-RTM ticker of the walk, and no ticker twice when the walk visits each ticker once |
| Ledger.OptionOrdersSpec | volatility.py:99-126 | a walk orders only options, never RTM: an order of 90 for exactly those options whose transition moves them, on the matching side, with signed quantity 90 × the change in exposure; no ticker is ordered twice |
| Ledger.Refreshed | volatility.py:249-258 | a refresh stores the new market price and delta, ratchets the target and keeps the position |
| Ledger.SplitHedge | volatility.py:153-164 | the splitting loop emits exactly the orders of `HedgeChunks` on one side |
| Ledger.Stats.constructor | volatility.py:186-210 | the ledger starts with every option flat and zero, and the underlying at position 0 |
| Ledger.Stats.RefreshUnderlying | volatility.py:235-238 | stores the underlying's last price, position and VWAP, options untouched |
| Ledger.Stats.RefreshOptions | volatility.py:241-258 | with σ < 0 nothing changes; otherwise every option is `Refreshed` with its valuation and the underlying is untouched |
| Ledger.Stats.RefreshOption | volatility.py:249-258 | one option's entry becomes its `Refreshed` value, nothing else changes |
| Ledger.Stats.TradeOption | volatility.py:103-126 | one option's position becomes its transition's next state and its order (if any) is returned |
| Ledger.Stats.PerformOptionsTrades | volatility.py:98-126 | the new options map is every entry `Traded`, RTM is untouched, and the orders are those of one walk over the table |
| Ledger.Stats.OptionsNetDelta | volatility.py:130-142 | the summing loop returns the options' total delta contribution |
| Ledger.Stats.ManageRisk | volatility.py:129-175 | reads the ledger without changing it and returns exactly `RiskOrders` of the net delta (options plus RTM position) |
| News.Words | volatility.py:58 | splitting yields non-empty words free of whitespace |
| News.WordsLayout | volatility.py:58 | any text made of words separated by non-empty whitespace runs, with optional whitespace before and after, splits into exactly those words |
| News.WordsCover | volatility.py:58 | every text is its split words laid out between whitespace runs, the inner ones non-empty, so the split is exactly the maximal whitespace-free runs |
| News.ParseUnsigned | volatility.py:62-64 | a token is accepted iff it is digits with at most one point and at least one digit; its value is the digits read as an integer over 10^(digits after the point), never negative |
| News.ParseFloat | volatility.py:62-64 | a token is accepted iff it is such a decimal, optionally after a '+' or '-'; its value is the decimal's, negated after '-' |
| News.ParseFloatNatToString | volatility.py:62-64 | a rendered natural number parses back to itself |
| News.ParseFloatFraction | volatility.py:62-64 | "w.f" parses to w plus the value of the digits f over 10^len(f) |
| News.DropLast | volatility.py:62-64 | `s[:-k]` as Python slices it: the prefix of `s` that is k shorter for 0 < k ≤ len(s), otherwise empty (the source uses k = 1 and k = 2) |
| News.PickedToken | volatility.py:61-64 | a token is picked iff the body has 16 words or at least 30: the 16th word minus its last character, otherwise word 29 minus its last two |
| News.RealizedVolatility | volatility.py:58-66 | a body of 16 words gives the value of its last word minus one character over 100, a body of at least 30 other words that of word 29 minus two characters, and −1 when that token is not a number or the body has another length |
| News.FirstAnnouncement | volatility.py:61-62 | any body of 16 words whose last word is a number v followed by one character yields v/100 |
| News.WeeklyAnnouncement | volatility.py:63-64 | any body of at least 30 words (not 16) whose word 29 is a number v followed by two characters yields v/100 |
| News.NextSigma | volatility.py:227-230 | σ changes only at ticks 1, 2, 74, 75, 149, 150, 224, 225 and only to a positive estimate, which it then takes |
| News.SigmaAfterNoUsable | volatility.py:227-230 | without a usable reading σ keeps its value, so it stays −1 from the start |
| News.SigmaAfterLastUsable | volatility.py:227-230 | σ is the estimate of the latest usable reading |
| News.SigmaAfterRange | volatility.py:227-230 | starting from −1, σ is always −1 or positive |
| Scenarios.OverpricedFlatGoesShort | volatility.py:107-116 | flat at market 1.30 against target 1.19 opens a short with one SELL |
| Scenarios.LongTargetHoldsAndCloses | volatility.py:117-121 | a long target of 1.10 survives a fair value of 1.05 and the option closes at 1.095 |
| Scenarios.SingleHedgeOrder | volatility.py:130-157 | a ledger long two calls at delta 0.5, all else flat and no shares, has net delta 9000 and is hedged by one SELL of 6300 |
| Scenarios.ThreeHedgeOrders | volatility.py:148-164 | net delta −40000.9 gives BUYs of 10000, 10000 and 8000 |

## Left out

- HTTP access is not modelled: the tick query, the securities snapshot, the trader's net liquidation value, the news fetch and the order `POST` requests (volatility.py:32-57, 69-74). Orders are returned as values, and the announcement text and quotes are parameters.
- The closed-form Black-Scholes price (volatility.py:85-90) and the finite-difference delta (volatility.py:94-95) are not modelled. They need the floating-point logarithm, square root, exponential and the normal distribution function. Fair values and deltas are inputs (`Valuation`, the `closedForm` parameter).
- The driver loop is not modelled (volatility.py:177-268): session start polling, `sleep`, the tick-change test, the DataFrame lookups and progress output. Only its σ update (`NextSigma`), its underlying refresh and its option refresh are modelled.
- The `print` calls inside the trading and hedging functions (volatility.py:112, 116, 121, 126, 152, 159, 169, 174) only write progress text and are not modelled.
- Ledger.Stats.RefreshOptions: visits the options in table order rather than strike-then-kind. Each step touches only its own entry, so the resulting ledger is the same.
- Ledger.Stats.RefreshOptions: treats "σ < 0" as skipping the whole refresh. The source breaks out of the strike loop before its first strike, which has the same effect.
- News.ParseFloat: accepts only an optional sign, ASCII digits and one decimal point. Python's `float()` also accepts surrounding whitespace, exponents, underscores, `inf`, `nan` and non-ASCII Unicode decimal digits, and rounds to binary64.
- News.IsSpace: covers the separators of `str.split()` listed by Python for `str` (ASCII whitespace, U+001C–U+001F, U+0085, U+00A0 and the Unicode space separators). It does not follow a Unicode database version.
- Arithmetic is on exact reals: the comparisons against 0.04, 0.01 and the fee, the net-delta sum and the hedge size (`HedgeTotal`). Float64 rounding is not modelled, so, for example, the source computes 7143 × 0.7 as 5000.099999999999 where the model has 5000.1.
- The unused `target` field of the `RTM` entry is not modelled.
- Market.Code: the model's positions are an enumeration. Position codes other than 0, 1 and 2, which the source would ignore in both loops, cannot occur.

## Findings

| source | as written | input that shows it | evidently intended | confidence | as-written member | corrected member |
|---|---|---|---|---|---|---|
| volatility.py:83-84 | the degenerate branch returns max(S−K, 0) for puts as well as calls | put with S = 48, K = 52, T = 0: price 0 | max(K−S, 0) for a put (price 4), so call − put = S − K | high (not executed); the driver never reaches this branch, since it prices only while tick < 300 (T ≥ 1/3600) and σ is either −1, which skips pricing, or a positive reading | Pricing.DegeneratePutMispriced | Pricing.FairValueParity |
