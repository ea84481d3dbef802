/** Per-peer exponential backoff with jitter for blind redials. */
module Backoff {
  import opened Basics
  import RateLimit
  import Word64

  const MS: nat := RateLimit.MS

  const INITIAL_BASE_MS: nat := 500
  const CAP_MS: nat := 8_000
  const MAX_SHIFT: nat := 4
  const MIN_STABLE: nat := 15_000 * MS
  const FLOOR_MARGIN_MS: nat := 500

  /** One refill interval of the peer's limiter and a margin. */
  const STEADY_STATE_FLOOR_MS: nat := RateLimit.REFILL_INTERVAL / MS + FLOOR_MARGIN_MS

  const U32_MAX: nat := 0xFFFF_FFFF
  const U64_SIZE: nat := 0x1_0000_0000_0000_0000

  /** One draw of the generator. */
  type Draw = d: nat | d < U64_SIZE

  /** The delay before jitter doubles with every failure, up to the cap. */
  function BaseDelayMs(attempt: nat): nat { INITIAL_BASE_MS * Word64.Pow2(Min(attempt, MAX_SHIFT)) }

  function JitterFloorMs(base: nat): nat { if base >= CAP_MS then STEADY_STATE_FLOOR_MS else base / 2 }

  /** A widening multiply spreads the draw over the window. */
  function FullJitterMs(base: nat, draw: Draw): nat {
    var floor := JitterFloorMs(base);
    var span := SaturatingSub(base, floor);
    floor + if span == 0 then 0 else draw * (span + 1) / U64_SIZE
  }

  datatype State = State(attempt: nat, nextReadyAt: Option<nat>)

  const FRESH: State := State(0, None)

  predicate Ready(b: State, now: nat) { b.nextReadyAt.None? || now >= b.nextReadyAt.value }

  function Failed(b: State, now: nat, draw: Draw): State {
    State(Min(b.attempt + 1, U32_MAX), Some(now + FullJitterMs(BaseDelayMs(b.attempt), draw) * MS))
  }

  function SessionEnded(b: State, uptime: nat): State { if uptime >= MIN_STABLE then FRESH else b }

  class PeerBackoff {
    var attempt: nat
    var nextReadyAt: Option<nat>

    function View(): State reads this { State(attempt, nextReadyAt) }

    constructor ()
      ensures View() == FRESH
    {
      attempt := 0;
      nextReadyAt := None;
    }

    predicate IsReady(now: nat)
      reads this
    {
      match nextReadyAt
      case None => true
      case Some(t) => now >= t
    }

    method OnAttemptFailed(now: nat, draw: Draw)
      modifies this
      ensures View() == Failed(old(View()), now, draw)
      ensures !IsReady(now) && !IsReady(now + JitterFloorMs(BaseDelayMs(old(attempt))) * MS - 1)
      ensures IsReady(now + BaseDelayMs(old(attempt)) * MS)
    {
      JitterRange(attempt, draw);
      var delay := FullJitterMs(BaseDelayMs(attempt), draw) * MS;
      nextReadyAt := Some(now + delay);
      attempt := if attempt < U32_MAX then attempt + 1 else U32_MAX;
    }

    method OnHandshakeOk()
      modifies this
      ensures View() == FRESH
    {
      attempt := 0;
      nextReadyAt := None;
    }

    method OnSessionEnded(uptime: nat)
      modifies this
      ensures View() == SessionEnded(old(View()), uptime)
      ensures (attempt, nextReadyAt) == if uptime >= 15_000_000_000 then (0, None) else old((attempt, nextReadyAt))
    {
      if uptime >= MIN_STABLE {
        attempt := 0;
        nextReadyAt := None;
      }
    }
  }

  /** The five base delays there are. */
  lemma BaseDelays(attempt: nat)
    ensures BaseDelayMs(attempt) ==
            if attempt == 0 then 500 else if attempt == 1 then 1000 else if attempt == 2 then 2000
            else if attempt == 3 then 4000 else 8000
  {
    assert Word64.Pow2(1) == 2 && Word64.Pow2(2) == 4 && Word64.Pow2(3) == 8 && Word64.Pow2(4) == 16;
  }

  lemma ScaleBelow(draw: nat, n: nat)
    requires draw < U64_SIZE && n > 0
    ensures draw * n / U64_SIZE < n
  {
    var q := draw * n / U64_SIZE;
    assert draw * n < U64_SIZE * n by { TimesLess(draw, U64_SIZE, n); }
    assert q * U64_SIZE <= draw * n;
  }

  lemma TimesLess(a: nat, b: nat, k: nat)
    requires a < b && k > 0
    ensures a * k < b * k
  {
  }

  /** Every draw of every attempt lands in the window, and the window is never empty. */
  lemma JitterRange(attempt: nat, draw: Draw)
    ensures var base := BaseDelayMs(attempt);
            0 < JitterFloorMs(base) <= FullJitterMs(base, draw) <= base <= CAP_MS
  {
    BaseDelays(attempt);
    var base := BaseDelayMs(attempt);
    ScaleBelow(draw, SaturatingSub(base, JitterFloorMs(base)) + 1);
  }

  /** The shortest and the longest delay in milliseconds after this many failures: half the base delay and the base
      delay, but once the base has reached its cap no less than the six and a half seconds a token takes. */
  function WindowMs(attempt: nat): (nat, nat) {
    match attempt
    case 0 => (250, 500)
    case 1 => (500, 1_000)
    case 2 => (1_000, 2_000)
    case 3 => (2_000, 4_000)
    case _ => (6_500, 8_000)
  }

  /** A delay follows the `attempt`-th failure for some draw iff it is a millisecond of the window. */
  lemma WindowExact(attempt: nat, delay: nat)
    ensures (exists draw: Draw :: FullJitterMs(BaseDelayMs(attempt), draw) == delay)
            <==> WindowMs(attempt).0 <= delay <= WindowMs(attempt).1
  {
    hide FullJitterMs;
    BaseDelays(attempt);
    if draw: Draw :| FullJitterMs(BaseDelayMs(attempt), draw) == delay { JitterRange(attempt, draw); }
    if WindowMs(attempt).0 <= delay <= WindowMs(attempt).1 { var draw := JitterIsOnto(attempt, delay); }
  }

  /** A failure moves on to the next window, for good, and is ready again exactly when the delay is over. */
  lemma FailedExact(b: State, now: nat, draw: Draw)
    ensures var after := Failed(b, now, draw);
            && after.attempt == Min(b.attempt + 1, 4_294_967_295)
            && exists delay: nat ::
                 && WindowMs(b.attempt).0 <= delay <= WindowMs(b.attempt).1
                 && (forall t: nat :: Ready(after, t) <==> t >= now + delay * 1_000_000)
  {
    hide WindowMs, FullJitterMs;
    var delay := FullJitterMs(BaseDelayMs(b.attempt), draw);
    WindowExact(b.attempt, delay);
    assert forall t: nat :: Ready(Failed(b, now, draw), t) <==> t >= now + delay * 1_000_000;
  }

  /** Every millisecond of the window is drawn: the lowest by 0 and the highest by the largest draw. */
  lemma JitterIsOnto(attempt: nat, delay: nat) returns (draw: Draw)
    requires JitterFloorMs(BaseDelayMs(attempt)) <= delay <= BaseDelayMs(attempt)
    ensures FullJitterMs(BaseDelayMs(attempt), draw) == delay
  {
    BaseDelays(attempt);
    var base := BaseDelayMs(attempt);
    var floor := JitterFloorMs(base);
    draw := DrawFor(base - floor, delay - floor);
  }

  lemma DrawFor(span: nat, k: nat) returns (draw: Draw)
    requires k <= span < 10_000
    ensures draw * (span + 1) / U64_SIZE == k
  {
    var n := span + 1;
    draw := (k * U64_SIZE + span) / n;
    assert draw * n <= k * U64_SIZE + span < draw * n + n;
    assert k * U64_SIZE <= draw * n < (k + 1) * U64_SIZE;
  }
}
