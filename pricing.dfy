/**
 * The parts of the pricing model that do not depend on the normal
 * distribution: time to expiry and the degenerate (expired or
 * zero-volatility) branch of the Black-Scholes price.
 */
module Pricing {
  import opened Market

  /** Time to expiry in years at a tick: the session's 300 ticks are 300/3600 of a year. */
  function TimeToExpiry(tick: int): (years: real)
    ensures 300.0 - 3600.0 * years == tick as real
    ensures years > 0.0 <==> tick < MaxTicksInSession
    ensures years == 0.0 <==> tick == MaxTicksInSession
  {
    (300.0 - tick as real) / 3600.0
  }

  /** A later tick leaves strictly less time to expiry. */
  lemma TimeToExpiryDecreasing(a: int, b: int)
    requires a < b
    ensures TimeToExpiry(b) < TimeToExpiry(a)
  {
  }

  /**
   * The price as the source computes it. The closed form, which needs the
   * normal distribution, is not modelled: `closedForm` stands for its value.
   * In the degenerate branch the call payoff max(S - K, 0) is returned for
   * puts as well.
   */
  function BlackScholesPrice(s: real, k: real, sigma: real, years: real, isCall: bool, closedForm: real): (v: real)
    ensures years <= 0.0 || sigma <= 0.0 ==> v >= 0.0 && v >= s - k && (v == 0.0 || v == s - k)
    ensures years > 0.0 && sigma > 0.0 ==> v == closedForm
  {
    if years <= 0.0 || sigma <= 0.0 then
      if s - k > 0.0 then s - k else 0.0
    else closedForm
  }

  /** Intrinsic value of an option: max(S - K, 0) for a call, max(K - S, 0) for a put. */
  function IntrinsicValue(s: real, k: real, isCall: bool): (v: real)
    ensures v >= 0.0
    ensures isCall ==> v >= s - k && (v == 0.0 || v == s - k)
    ensures !isCall ==> v >= k - s && (v == 0.0 || v == k - s)
  {
    var payoff := if isCall then s - k else k - s;
    if payoff > 0.0 then payoff else 0.0
  }

  /** The degenerate branch with each option kind given its own payoff. */
  function FairValue(s: real, k: real, sigma: real, years: real, isCall: bool, closedForm: real): (v: real)
    ensures years <= 0.0 || sigma <= 0.0 ==> v == IntrinsicValue(s, k, isCall)
    ensures years > 0.0 && sigma > 0.0 ==> v == closedForm
  {
    if years <= 0.0 || sigma <= 0.0 then IntrinsicValue(s, k, isCall) else closedForm
  }

  /** Put-call parity holds for the degenerate prices of the corrected definition. */
  lemma FairValueParity(s: real, k: real, sigma: real, years: real, c: real, p: real)
    requires years <= 0.0 || sigma <= 0.0
    ensures FairValue(s, k, sigma, years, true, c) - FairValue(s, k, sigma, years, false, p) == s - k
  {
  }

  /**
   * At expiry an in-the-money put (S = 48, K = 52) is priced 0 by the source
   * instead of its intrinsic value 4, so parity fails for the source's prices.
   */
  lemma DegeneratePutMispriced(c: real, p: real)
    ensures BlackScholesPrice(48.0, 52.0, 0.3, 0.0, false, p) == 0.0
    ensures FairValue(48.0, 52.0, 0.3, 0.0, false, p) == 4.0
    ensures BlackScholesPrice(48.0, 52.0, 0.3, 0.0, true, c) - BlackScholesPrice(48.0, 52.0, 0.3, 0.0, false, p) != 48.0 - 52.0
  {
  }
}
