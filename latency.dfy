/** The delay every handler waits before answering (`simulateLatency`). The generator's output and
    the interruption of the sleep are inputs; the wall-clock suspension itself is not modelled. */
module Latency {
  import opened JavaLang

  /** The half-open millisecond window [lo, hi) that a delay is drawn from. */
  datatype Window = Window(lo: int, hi: int) {
    predicate Contains(ms: int) { lo <= ms < hi }
    predicate IsEmpty() { hi <= lo }
  }

  /** The fixed window used when the configured bounds are rejected. */
  const DefaultWindow: Window := Window(50, 150)

  /** The "basic validation" of `simulateLatency`: the configured bounds are rejected. */
  predicate IsInvalidRange(minMs: int, maxMs: int) {
    minMs <= 0 || maxMs <= 0 || minMs > maxMs
  }

  /** The window `simulateLatency(minMs, maxMs)` asks the generator to draw from. Its lower
      bound is always positive, and it is empty exactly when the two bounds are equal and
      positive: the validation lets that case through. */
  function EffectiveRange(minMs: int, maxMs: int): (w: Window)
    ensures 0 < w.lo && w.lo <= w.hi
    ensures w.IsEmpty() <==> 0 < minMs == maxMs
    ensures IsInvalidRange(minMs, maxMs) ==> w == DefaultWindow
    ensures !IsInvalidRange(minMs, maxMs) ==> w == Window(minMs, maxMs)
  {
    if IsInvalidRange(minMs, maxMs) then DefaultWindow else Window(minMs, maxMs)
  }

  /** The contract of `ThreadLocalRandom.nextInt(origin, bound)`: when `origin < bound` the value it
      returns lies in [origin, bound). `draw` stands for that value; for an empty window the
      generator throws instead and `draw` is not used. */
  predicate IsDrawFrom(w: Window, draw: int) {
    !w.IsEmpty() ==> w.Contains(draw)
  }

  /** How the suspension ends: it runs to completion, or the thread is interrupted and
      `Thread.sleep` throws an `InterruptedException` carrying `message`. */
  datatype Wake = Completed | Interrupted(message: JString)

  /** What `simulateLatency` does: it returns normally after sleeping `ms` milliseconds, or throws. */
  datatype LatencyOutcome = Slept(ms: int) | Raised(exception: JavaException)

  /** `simulateLatency(minMs, maxMs)`: validate the bounds, draw the delay, sleep. An empty window
      makes the draw throw before any sleep starts, so no interruption can be observed then. */
  function SimulateLatency(minMs: int, maxMs: int, draw: int, wake: Wake): (o: LatencyOutcome)
    requires IsDrawFrom(EffectiveRange(minMs, maxMs), draw)
    ensures o == Raised(IllegalArgumentException) <==> 0 < minMs == maxMs
    ensures o.Slept? <==> wake == Completed && !(0 < minMs == maxMs)
    ensures o.Slept? ==> o.ms == draw && EffectiveRange(minMs, maxMs).Contains(o.ms) && o.ms > 0
    ensures o.Raised? && o.exception.InterruptedException? <==> wake.Interrupted? && !(0 < minMs == maxMs)
    ensures o.Raised? && o.exception.InterruptedException? ==> o.exception.message == wake.message
  {
    var w := EffectiveRange(minMs, maxMs);
    if w.IsEmpty() then Raised(IllegalArgumentException)
    else match wake
      case Completed => Slept(draw)
      case Interrupted(m) => Raised(InterruptedException(m))
  }

  /** `ms` is a delay `simulateLatency(minMs, maxMs)` sleeps for, for some output of the generator. */
  ghost predicate MayDelay(minMs: int, maxMs: int, ms: int) {
    exists draw :: IsDrawFrom(EffectiveRange(minMs, maxMs), draw)
      && SimulateLatency(minMs, maxMs, draw, Completed) == Slept(ms)
  }

  /** Rejected bounds are ignored: the delays are exactly those of the window [50, 150). */
  lemma InvalidRangeFallsBack(minMs: int, maxMs: int)
    requires IsInvalidRange(minMs, maxMs)
    ensures forall ms :: MayDelay(minMs, maxMs, ms) <==> 50 <= ms < 150
  {
    forall ms | 50 <= ms < 150 ensures MayDelay(minMs, maxMs, ms) {
      assert SimulateLatency(minMs, maxMs, ms, Completed) == Slept(ms);
    }
  }

  /** Accepted bounds with `minMs < maxMs` give exactly the delays of [minMs, maxMs); `maxMs` itself
      is never slept. */
  lemma ValidRangeIsHalfOpen(minMs: int, maxMs: int)
    requires 0 < minMs < maxMs
    ensures forall ms :: MayDelay(minMs, maxMs, ms) <==> minMs <= ms < maxMs
    ensures !MayDelay(minMs, maxMs, maxMs)
  {
    forall ms | minMs <= ms < maxMs ensures MayDelay(minMs, maxMs, ms) {
      assert SimulateLatency(minMs, maxMs, ms, Completed) == Slept(ms);
    }
  }

  /** The gap in the validation: `simulateLatency` produces no delay at all (it always throws
      `IllegalArgumentException`) exactly when the bounds are equal and positive. */
  lemma EqualBoundsGap(minMs: int, maxMs: int)
    ensures (forall ms :: !MayDelay(minMs, maxMs, ms)) <==> 0 < minMs == maxMs
  {
    var w := EffectiveRange(minMs, maxMs);
    if !(0 < minMs == maxMs) {
      assert SimulateLatency(minMs, maxMs, w.lo, Completed) == Slept(w.lo);
      assert MayDelay(minMs, maxMs, w.lo);
    }
  }
}
