/** The wait before the next cycle: once a second the time left until the
    next day's start is split into hours, minutes and seconds and shown;
    the wait ends on the first tick at which no time is left. */
module Countdown {

  const MsPerHour: int := 3600000
  const MsPerMinute: int := 60000
  const MsPerSecond: int := 1000
  const TickMs: int := 1000

  /** `Math.floor(a / b)` for a positive divisor. */
  function FloorDiv(a: int, b: int): (q: int)
    requires b > 0
    ensures b * q <= a < b * q + b
  {
    a / b
  }

  /** JavaScript's `a % b` on integers: the remainder carries the sign of
      the dividend (Dafny's own `%` never returns a negative value). */
  function JsRem(a: int, b: int): (r: int)
    requires b > 0
    ensures -b < r < b
    ensures a >= 0 ==> r >= 0
    ensures a <= 0 ==> r <= 0
    ensures a >= 0 ==> r == a % b
    ensures a == b * (if a >= 0 then a / b else -((-a) / b)) + r
  {
    if a >= 0 then a % b else -((-a) % b)
  }

  /** What one countdown line displays. */
  datatype Shown = Shown(hours: int, minutes: int, seconds: int)

  /** The display for `remaining` milliseconds, computed as written. */
  function DisplayAsWritten(remaining: int): Shown {
    Shown(FloorDiv(remaining, MsPerHour),
          FloorDiv(JsRem(remaining, MsPerHour), MsPerMinute),
          FloorDiv(JsRem(remaining, MsPerMinute), MsPerSecond))
  }

  /** For a non-negative remaining time the display is a proper
      hours/minutes/seconds split that truncates to whole seconds. */
  lemma DisplayAsWrittenSplits(remaining: int)
    requires remaining >= 0
    ensures var d := DisplayAsWritten(remaining);
      && d.hours >= 0
      && 0 <= d.minutes < 60
      && 0 <= d.seconds < 60
      && d.hours * MsPerHour + d.minutes * MsPerMinute + d.seconds * MsPerSecond <= remaining
      && remaining < d.hours * MsPerHour + d.minutes * MsPerMinute + d.seconds * MsPerSecond + MsPerSecond
  {
    var d := DisplayAsWritten(remaining);
    var h, rh := remaining / MsPerHour, remaining % MsPerHour;
    assert remaining == h * MsPerHour + rh && 0 <= rh < MsPerHour;
    assert d.hours == h && JsRem(remaining, MsPerHour) == rh;
    var m, x := rh / MsPerMinute, rh % MsPerMinute;
    assert rh == m * MsPerMinute + x && 0 <= x < MsPerMinute;
    assert d.minutes == m;
    assert remaining == (h * 60 + m) * MsPerMinute + x by {
      assert h * MsPerHour == (h * 60) * MsPerMinute;
    }
    assert JsRem(remaining, MsPerMinute) == x;
    var s, y := x / MsPerSecond, x % MsPerSecond;
    assert x == s * MsPerSecond + y && 0 <= y < MsPerSecond;
    assert d.seconds == s;
  }

  /** The final tick almost never lands exactly on the day boundary: for a
      remaining time of -1 ms .. -999 ms the line as written reads
      "-1h -1m -1s". */
  lemma LastTickAsWrittenIsNegative(remaining: int)
    requires -MsPerSecond < remaining < 0
    ensures DisplayAsWritten(remaining) == Shown(-1, -1, -1)
  {
    assert FloorDiv(remaining, MsPerHour) == -1;
    assert JsRem(remaining, MsPerHour) == remaining;
    assert JsRem(remaining, MsPerMinute) == remaining;
    assert FloorDiv(remaining, MsPerMinute) == -1;
    assert FloorDiv(remaining, MsPerSecond) == -1;
  }

  /** The display with the remaining time clamped at zero. */
  function Display(remaining: int): Shown {
    DisplayAsWritten(if remaining < 0 then 0 else remaining)
  }

  /** The clamped display is always a proper split, agrees with the code as
      written whenever time is left, and reads 0h 0m 0s once none is. */
  lemma DisplaySplits(remaining: int)
    ensures var d := Display(remaining);
      && d.hours >= 0 && 0 <= d.minutes < 60 && 0 <= d.seconds < 60
    ensures remaining >= 0 ==> Display(remaining) == DisplayAsWritten(remaining)
    ensures remaining <= 0 ==> Display(remaining) == Shown(0, 0, 0)
  {
    DisplayAsWrittenSplits(if remaining < 0 then 0 else remaining);
  }

  /** The `setInterval` loop. Tick k (0-based) fires at `clock(k)`, at least
      (k+1) seconds after `start`; `target` is the next day's start. Returns
      every line shown, as written (the last one may be negative), and the
      number of ticks until the wait resolved. */
  method AwaitNextCycle(target: int, start: int, clock: nat -> int) returns (shown: seq<Shown>, ticks: nat)
    requires forall k: nat :: clock(k) >= start + TickMs * (k + 1)
    ensures ticks == |shown| && ticks >= 1
    ensures forall k :: 0 <= k < ticks - 1 ==> target - clock(k) > 0
    ensures target - clock(ticks - 1) <= 0
    ensures forall k :: 0 <= k < ticks ==> shown[k] == DisplayAsWritten(target - clock(k))
    ensures forall k :: 0 <= k < ticks - 1 ==> shown[k] == Display(target - clock(k))
    ensures ticks == 1 || TickMs * (ticks - 1) < target - start
  {
    var k: nat := 0;
    var remaining := target - clock(0);
    shown := [DisplayAsWritten(remaining)];
    while remaining > 0
      invariant |shown| == k + 1
      invariant remaining == target - clock(k)
      invariant forall j :: 0 <= j < k ==> target - clock(j) > 0
      invariant forall j :: 0 <= j <= k ==> shown[j] == DisplayAsWritten(target - clock(j))
      invariant k == 0 || TickMs * k < target - start
      decreases target - start - TickMs * k
    {
      k := k + 1;
      remaining := target - clock(k);
      shown := shown + [DisplayAsWritten(remaining)];
    }
    ticks := k + 1;
  }

  /** A clock whose ticks land half a second past each whole second. */
  function HalfSecondLate(k: nat): int {
    TickMs * (k + 1) + 500
  }

  /** With one second to go and ticks half a second late, the only tick
      writes "-1h -1m -1s" before the wait resolves. */
  method LateLastTick() returns (shown: seq<Shown>, ticks: nat)
    ensures ticks == 1 && shown == [Shown(-1, -1, -1)]
  {
    shown, ticks := AwaitNextCycle(1000, 0, HalfSecondLate);
    assert 1000 - HalfSecondLate(0) == -500;
    LastTickAsWrittenIsNegative(-500);
  }
}
