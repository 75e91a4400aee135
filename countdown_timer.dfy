/**
 * The auction countdown on the item page: the remaining time, clamped at
 * zero, split into days, hours, minutes and seconds, and the one-second
 * interval that stops and reports completion when it reaches zero.
 * Times are milliseconds.
 */
module CountdownTimer {
  import opened Wrappers
  import opened Text

  /** `Math.max(0, targetMs - Date.now())` */
  function Remaining(target: int, now: int): (r: nat)
    ensures r >= target - now
    ensures r == 0 || r == target - now
  {
    if target - now > 0 then target - now else 0
  }

  /** Later readings never show more time left; zero is reached at the target and kept. */
  lemma RemainingMonotone(target: int, now1: int, now2: int)
    requires now1 <= now2
    ensures Remaining(target, now2) <= Remaining(target, now1)
    ensures Remaining(target, now1) == 0 ==> Remaining(target, now2) == 0
    ensures Remaining(target, now2) == 0 <==> now2 >= target
  {
  }

  datatype Clock = Clock(days: nat, hours: nat, minutes: nat, seconds: nat)

  /** The four numbers the timer renders for `remaining` milliseconds (a day is 24 * 3600 s). */
  function Decompose(remaining: nat): (c: Clock)
    ensures c.days * 86400 + c.hours * 3600 + c.minutes * 60 + c.seconds == remaining / 1000
    ensures c.hours < 24 && c.minutes < 60 && c.seconds < 60
  {
    var totalSec := remaining / 1000;
    var c := Clock(totalSec / 86400, (totalSec % 86400) / 3600,
                   (totalSec % 3600) / 60, totalSec % 60);
    DecomposeSum(totalSec);
    c
  }

  /** The arithmetic behind Decompose, one division at a time. */
  lemma DecomposeSum(t: nat)
    ensures (t / 86400) * 86400 + ((t % 86400) / 3600) * 3600
            + ((t % 3600) / 60) * 60 + t % 60 == t
    ensures (t % 86400) / 3600 < 24
  {
    var d, r1 := t / 86400, t % 86400;
    assert t == 86400 * d + r1;
    var h, r2 := r1 / 3600, r1 % 3600;
    assert r1 == 3600 * h + r2;
    assert t == 3600 * (24 * d + h) + r2;
    assert t % 3600 == r2;
    var m, sec := r2 / 60, r2 % 60;
    assert r2 == 60 * m + sec;
    assert t == 60 * (1440 * d + 60 * h + m) + sec;
    assert t % 60 == sec;
  }

  /** `String(n).padStart(2, "0")` */
  function Pad(n: nat): (s: string)
    ensures |s| >= 2 && forall i :: 0 <= i < |s| ==> IsDigit(s[i])
    ensures n < 10 ==> s == ['0', DigitChar(n)]
    ensures n >= 10 ==> s == NatToString(n)
  {
    var digits := NatToString(n);
    if |digits| < 2 then ['0'] + digits else digits
  }

  /** The padded text still reads as the number. */
  lemma PadRoundTrip(n: nat)
    ensures DigitsValue(Pad(n)) == n
  {
    var s := Pad(n);
    if n < 10 {
      DigitRoundTrip(n);
      assert s[..1] == ['0'] && s[..1][..0] == [];
      assert DigitValue('0') == 0;
      assert DigitsValue(s[..1]) == 0;
    } else {
      NatToStringRoundTrip(n);
    }
  }

  /**
   * The rendered text: "Invalid date" when the end time does not parse,
   * otherwise an optional "<days>d " and then "hh:mm:ss".
   */
  function Display(target: Option<int>, remaining: nat): string {
    if target.None? then "Invalid date"
    else
      var c := Decompose(remaining);
      (if c.days > 0 then NatToString(c.days) + "d " else "")
        + Pad(c.hours) + ":" + Pad(c.minutes) + ":" + Pad(c.seconds)
  }

  /** The day count is shown, marked by its `d`, exactly when there is at least a day left. */
  lemma DaysShownOnlyWhenPositive(target: int, remaining: nat)
    ensures 'd' in Display(Some(target), remaining) <==> Decompose(remaining).days > 0
  {
    var c := Decompose(remaining);
    var clock := Pad(c.hours) + ":" + Pad(c.minutes) + ":" + Pad(c.seconds);
    NoDayMark(Pad(c.hours));
    NoDayMark(Pad(c.minutes));
    NoDayMark(Pad(c.seconds));
    assert 'd' !in clock;
    if c.days > 0 {
      var head := NatToString(c.days) + "d ";
      assert Display(Some(target), remaining) == head + clock;
      assert head[|head| - 2] == 'd';
    } else {
      assert Display(Some(target), remaining) == clock;
    }
  }

  lemma NoDayMark(s: string)
    requires forall i :: 0 <= i < |s| ==> IsDigit(s[i])
    ensures 'd' !in s
  {
  }

  /**
   * The mounted component with a parsable end time: `remaining` as last
   * set, whether the interval is still running, and how many times
   * `onComplete` was called.
   */
  class Countdown {
    const target: int
    var remaining: nat
    var running: bool
    var completions: nat

    /** The interval runs until the first tick that reads zero, which calls onComplete once. */
    ghost predicate Valid()
      reads this
    {
      && (running ==> completions == 0)
      && (!running ==> remaining == 0 && completions == 1)
    }

    /** The effect: set the remaining time at once and start the interval. */
    constructor (target: int, now: int)
      ensures Valid()
      ensures this.target == target && remaining == Remaining(target, now) && running && completions == 0
    {
      this.target := target;
      remaining := Remaining(target, now);
      running := true;
      completions := 0;
    }

    /** One interval callback at time `now`; nothing happens once the interval is cleared. */
    method Tick(now: int)
      requires Valid()
      modifies this
      ensures Valid()
      ensures !old(running) ==> remaining == old(remaining) && running == old(running)
                                && completions == old(completions)
      ensures old(running) ==> remaining == Remaining(target, now)
      ensures old(running) ==> (running <==> Remaining(target, now) > 0)
      ensures completions <= 1
    {
      if !running {
        return;
      }
      var next := Remaining(target, now);
      remaining := next;
      if next == 0 {
        running := false;
        completions := completions + 1;
      }
    }
  }
}
