/**
 * Per-option decision logic: the Flat/Long/Short state machine that opens
 * and closes positions, and the target ratchet applied when a new fair value
 * arrives.
 */
module Signal {
  import opened Wrappers
  import opened Market

  /** Minimum mispricing that opens a position. */
  const EntryThreshold: real := 0.04
  /** Near-convergence band that closes a position. */
  const ExitThreshold: real := 0.01

  function Abs(x: real): (r: real)
    ensures r >= 0.0 && (r == x || r == -x)
  {
    if x < 0.0 then -x else x
  }

  /** What one option does in one tick: its next position and the order (if any) it submits. */
  datatype Decision = Decision(next: Position, order: Option<Side>)

  /**
   * The transition of one option, given its position `p`, market price `m`
   * and target `t`.
   */
  function Transition(p: Position, m: real, t: real): (d: Decision)
    // The order is exactly what moves the position: one lot bought or sold
    // per unit of exposure change, and no order without a change.
    ensures d.order.None? <==> d.next == p
    ensures d.order == Some(Buy) <==> Exposure(d.next) == Exposure(p) + 1
    ensures d.order == Some(Sell) <==> Exposure(d.next) == Exposure(p) - 1
    // Positions only ever move between Flat and Long or Flat and Short.
    ensures p != Flat ==> d.next in {p, Flat}
    // Entering from Flat needs a mispricing of at least 0.04; its sign picks the side.
    ensures p == Flat ==> (d.next != Flat <==> Abs(m - t) >= EntryThreshold)
    ensures p == Flat && d.next != Flat ==> (d.next == Long <==> m < t)
    // A long position is closed at or above the target, or within 0.01 of it.
    ensures p == Long ==> (d.next == Flat <==> m >= t || Abs(m - t) <= ExitThreshold)
    // A short position is closed at or below the target, or within 0.01 of it.
    ensures p == Short ==> (d.next == Flat <==> m <= t || Abs(m - t) <= ExitThreshold)
  {
    match p
    case Flat =>
      if Abs(m - t) >= EntryThreshold then
        if m < t then Decision(Long, Some(Buy)) else Decision(Short, Some(Sell))
      else Decision(Flat, None)
    case Long =>
      if m >= t || Abs(m - t) <= ExitThreshold then Decision(Flat, Some(Sell)) else Decision(Long, None)
    case Short =>
      if m <= t || Abs(m - t) <= ExitThreshold then Decision(Flat, Some(Buy)) else Decision(Short, None)
  }

  /** Applying one tick's transition to an option record: only its position changes. */
  function Traded(r: OptionRecord): (r': OptionRecord)
    ensures r'.target == r.target && r'.market == r.market && r'.delta == r.delta
    ensures r'.position == Transition(r.position, r.market, r.target).next
  {
    r.(position := Transition(r.position, r.market, r.target).next)
  }

  /**
   * The target after a fresh fair value `fair`: replaced while flat, raised
   * (never lowered) while long, lowered (never raised) while short.
   */
  function Ratchet(p: Position, target: real, fair: real): (t: real)
    ensures p == Flat ==> t == fair
    ensures p == Long ==> t >= target && t >= fair && (t == target || t == fair)
    ensures p == Short ==> t <= target && t <= fair && (t == target || t == fair)
  {
    match p
    case Flat => fair
    case Long => if fair > target then fair else target
    case Short => if fair < target then fair else target
  }

  /** The targets after each of the successive fair values `fairs`, starting from `target`, with position `p` held. */
  function RatchetRun(p: Position, target: real, fairs: seq<real>): (ts: seq<real>)
    ensures |ts| == |fairs|
    decreases |fairs|
  {
    if fairs == [] then []
    else
      var t := Ratchet(p, target, fairs[0]);
      [t] + RatchetRun(p, t, fairs[1..])
  }

  /**
   * While long the target never falls and never sits below a fair value seen;
   * while short it never rises and never sits above one.
   */
  lemma {:induction false} RatchetMonotone(p: Position, target: real, fairs: seq<real>, i: nat, j: nat)
    requires i <= j < |fairs|
    ensures p == Long ==> target <= RatchetRun(p, target, fairs)[i] <= RatchetRun(p, target, fairs)[j]
    ensures p == Long ==> fairs[j] <= RatchetRun(p, target, fairs)[j] && fairs[i] <= RatchetRun(p, target, fairs)[j]
    ensures p == Short ==> target >= RatchetRun(p, target, fairs)[i] >= RatchetRun(p, target, fairs)[j]
    ensures p == Short ==> fairs[j] >= RatchetRun(p, target, fairs)[j] && fairs[i] >= RatchetRun(p, target, fairs)[j]
    decreases j
  {
    var t := Ratchet(p, target, fairs[0]);
    if i == 0 {
      if j > 0 {
        RatchetMonotone(p, t, fairs[1..], 0, j - 1);
      }
    } else {
      RatchetMonotone(p, t, fairs[1..], i - 1, j - 1);
    }
  }

  /** While flat the target simply follows the latest fair value. */
  lemma {:induction false} RatchetFlat(target: real, fairs: seq<real>, i: nat)
    requires i < |fairs|
    ensures RatchetRun(Flat, target, fairs)[i] == fairs[i]
    decreases i
  {
    if i > 0 {
      RatchetFlat(fairs[0], fairs[1..], i - 1);
    }
  }
}
