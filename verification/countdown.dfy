/**
 * The timing constants of the controller and the pure arithmetic of one
 * countdown tick: Python's `int()` on a timestamp difference, `divmod` by
 * 60 for the MM:SS display, and the guard for the urgent notification.
 * Timestamps are exact reals rather than floats.
 */
module Countdown {

  /** Seconds without input before the countdown starts. */
  const InactivityThreshold: real := 60.0

  /** Seconds the countdown runs before the shutdown command is issued. */
  const ShutdownThreshold: real := 180.0

  /** The urgent notification is only considered below this many seconds. */
  const UrgentWindow: real := 30.0

  /** Within the urgent window, the notification repeats every this many whole seconds. */
  const UrgentPeriod: int := 5

  /** Python's `int(x)` on a number: truncation toward zero. */
  function Trunc(x: real): (n: int)
    ensures 0.0 <= x ==> 0 <= n && n as real <= x < n as real + 1.0
    ensures x < 0.0 ==> n <= 0 && n as real - 1.0 < x <= n as real
  {
    if x >= 0.0 then x.Floor else -((-x).Floor)
  }

  /** Python's `divmod(n, d)` for a positive divisor: floor quotient and remainder. */
  function DivMod(n: int, d: int): (qr: (int, int))
    requires 0 < d
    ensures 0 <= qr.1 < d
    ensures qr.0 * d + qr.1 == n
  {
    (n / d, n % d)
  }

  /**
   * The minutes and seconds shown for `remaining` seconds left, as the
   * display computes them with `divmod(int(remaining), 60)`.
   */
  function SplitRemaining(remaining: real): (ms: (nat, nat))
    requires 0.0 < remaining
    ensures ms.1 < 60
    ensures ms.0 * 60 + ms.1 == Trunc(remaining)
    ensures (ms.0 * 60 + ms.1) as real <= remaining < (ms.0 * 60 + ms.1 + 1) as real
    ensures remaining <= ShutdownThreshold ==> ms.0 <= 3
  {
    var qr := DivMod(Trunc(remaining), 60);
    (qr.0, qr.1)
  }

  /** The guard for the urgent notification on a counting tick that does not shut down. */
  function UrgentDue(remaining: real): (due: bool)
    ensures UrgentWindow <= remaining ==> !due
    ensures 0.0 < remaining ==>
              (due <==> remaining < UrgentWindow && Trunc(remaining) in {0, 5, 10, 15, 20, 25})
  {
    remaining < UrgentWindow && Trunc(remaining) % UrgentPeriod == 0
  }

  /** With ticks that land on whole seconds of the countdown, the urgent
      notification appears at 25, 20, 15, 10 and 5 seconds left, and at no other tick. */
  lemma UrgentOnWholeSeconds(k: int)
    requires 0 < k <= 180
    ensures UrgentDue(k as real) <==> k in {5, 10, 15, 20, 25}
  {
    assert Trunc(k as real) == k;
  }
}
