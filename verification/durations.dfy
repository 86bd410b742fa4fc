/**
 * The "Xm Ys" text the builders log for the time a build took. The elapsed
 * time arrives as a count of clock ticks at a fixed number of ticks per
 * second; std::chrono's duration_cast truncates toward zero.
 */
module Durations {
  import opened Numerals
  import opened Bytes
  import opened Strings

  /** Integer division truncating toward zero, as duration_cast does. */
  function TruncDiv(a: int, b: nat): (q: int)
    requires b > 0
    ensures a >= 0 ==> 0 <= a - b * q < b
    ensures a < 0 ==> -(b as int) < a - b * q <= 0
  {
    if a >= 0 then a / b else -((-a) / b)
  }

  /** What is left of a after removing TruncDiv(a, b) whole b's; it has a's sign. */
  function TruncRem(a: int, b: nat): (r: int)
    requires b > 0
    ensures r == a - b * TruncDiv(a, b)
    ensures a >= 0 ==> 0 <= r < b
    ensures a < 0 ==> -(b as int) < r <= 0
  {
    if a >= 0 then a % b else -((-a) % b)
  }

  /** operator<< of a signed count. */
  function SignedDecimal(i: int): (s: string)
    ensures |s| >= 1 && Lacks(s, 'm') && Lacks(s, ' ') && Lacks(s, 's')
  {
    var d := if i < 0 then "-" + ToDecimal(-i) else ToDecimal(i);
    assert forall k :: 0 <= k < |d| ==> d[k] == '-' || IsDigit(d[k]);
    d
  }

  /** The whole minutes in a duration of ticks at ticksPerSecond. */
  function Minutes(ticks: int, ticksPerSecond: nat): int
    requires ticksPerSecond > 0
  {
    TruncDiv(ticks, 60 * ticksPerSecond)
  }

  /** The whole seconds of what is left after the minutes are taken off. */
  function Seconds(ticks: int, ticksPerSecond: nat): int
    requires ticksPerSecond > 0
  {
    TruncDiv(ticks - Minutes(ticks, ticksPerSecond) * 60 * ticksPerSecond, ticksPerSecond)
  }

  /**
   * getDurationString: the minutes followed by "m " when there are any, then
   * the seconds followed by "s".
   */
  function DurationString(ticks: int, ticksPerSecond: nat): (s: string)
    requires ticksPerSecond > 0
    ensures EndsWith(s, SignedDecimal(Seconds(ticks, ticksPerSecond)) + "s")
    ensures Minutes(ticks, ticksPerSecond) == 0 ==> s == SignedDecimal(Seconds(ticks, ticksPerSecond)) + "s"
    ensures Minutes(ticks, ticksPerSecond) != 0 ==>
      s == SignedDecimal(Minutes(ticks, ticksPerSecond)) + "m " + SignedDecimal(Seconds(ticks, ticksPerSecond)) + "s"
  {
    var m := Minutes(ticks, ticksPerSecond);
    var sec := SignedDecimal(Seconds(ticks, ticksPerSecond)) + "s";
    if m != 0 then SignedDecimal(m) + "m " + sec else sec
  }

  /**
   * The two casts agree with splitting the whole seconds elapsed into
   * minutes and seconds: the seconds part lies strictly between -60 and 60
   * and has the sign of the duration.
   */
  lemma DurationSplit(ticks: int, ticksPerSecond: nat)
    requires ticksPerSecond > 0
    ensures Minutes(ticks, ticksPerSecond) == TruncDiv(TruncDiv(ticks, ticksPerSecond), 60)
    ensures Seconds(ticks, ticksPerSecond) == TruncRem(TruncDiv(ticks, ticksPerSecond), 60)
    ensures 60 * Minutes(ticks, ticksPerSecond) + Seconds(ticks, ticksPerSecond) == TruncDiv(ticks, ticksPerSecond)
  {
    if ticks >= 0 {
      SplitNonNegative(ticks, ticksPerSecond);
    } else {
      SplitNegative(ticks, ticksPerSecond);
    }
  }

  lemma SplitNonNegative(t: nat, p: nat)
    requires p > 0
    ensures Minutes(t, p) == TruncDiv(TruncDiv(t, p), 60)
    ensures Seconds(t, p) == TruncRem(TruncDiv(t, p), 60)
    ensures 60 * Minutes(t, p) + Seconds(t, p) == TruncDiv(t, p)
  {
    NestedDiv(t, p);
    DivModFacts(t / p, 60);
  }

  lemma SplitNegative(ticks: int, p: nat)
    requires ticks < 0 && p > 0
    ensures Minutes(ticks, p) == TruncDiv(TruncDiv(ticks, p), 60)
    ensures Seconds(ticks, p) == TruncRem(TruncDiv(ticks, p), 60)
    ensures 60 * Minutes(ticks, p) + Seconds(ticks, p) == TruncDiv(ticks, p)
  {
    var t: nat := -ticks;
    var q := TruncDiv(t, p);
    assert q >= 0;
    hide *;
    SplitNonNegative(t, p);
    MirroredParts(ticks, p);
    TruncNegated(t, p);
    TruncNegated(q, 60);
  }

  /** Truncating division and remainder commute with negation. */
  lemma TruncNegated(x: nat, b: nat)
    requires b > 0
    ensures TruncDiv(-(x as int), b) == -TruncDiv(x, b)
    ensures TruncRem(-(x as int), b) == -TruncRem(x, b)
  {
    if x > 0 {
      assert TruncDiv(-(x as int), b) == -(x / b);
      assert TruncRem(-(x as int), b) == -(x % b);
    }
  }

  /** A negative duration shows the negated minutes and seconds of its magnitude. */
  lemma MirroredParts(ticks: int, p: nat)
    requires ticks < 0 && p > 0
    ensures Minutes(ticks, p) == -Minutes(-ticks, p)
    ensures Seconds(ticks, p) == -Seconds(-ticks, p)
  {
    var t: nat := -ticks;
    var bigQ := t / (60 * p);
    DivModFacts(t, 60 * p);
    MulOrder(bigQ, p);
    var left := t - bigQ * 60 * p;
    assert left >= 0;
    assert ticks - Minutes(ticks, p) * 60 * p == -left by {
      NegMul(bigQ, 60);
      NegMul(bigQ * 60, p);
    }
  }

  lemma NegMul(a: int, b: int)
    ensures (-a) * b == -(a * b)
  {
  }

  lemma DivModFacts(n: nat, d: nat)
    requires d > 0
    ensures n == d * (n / d) + n % d && 0 <= n % d < d
  {
  }

  lemma MulSplit(p: int, bigQ: int, bigR: int)
    ensures p * (60 * bigQ + bigR) == (60 * p) * bigQ + p * bigR
  {
  }

  lemma MulBelow(p: nat, bigR: nat)
    requires bigR < 60
    ensures p * bigR <= 59 * p
  {
  }

  lemma MulOrder(a: int, b: int)
    ensures a * 60 * b == (60 * b) * a
  {
  }

  /** Dividing by 60p is dividing by p and then by 60; the remainder is the seconds. */
  lemma NestedDiv(t: nat, p: nat)
    requires p > 0
    ensures t / (60 * p) == (t / p) / 60
    ensures (t - (t / (60 * p)) * 60 * p) / p == (t / p) % 60
  {
    var q, r := t / p, t % p;
    var bigQ, bigR := q / 60, q % 60;
    DivModFacts(t, p);
    DivModFacts(q, 60);
    MulSplit(p, bigQ, bigR);
    MulBelow(p, bigR);
    assert t == (60 * p) * bigQ + (p * bigR + r);
    DivModUnique(t, 60 * p, bigQ, p * bigR + r);
    MulOrder(bigQ, p);
    assert t - bigQ * 60 * p == p * bigR + r;
    DivModUnique(p * bigR + r, p, bigR, r);
  }

  /** A quotient is zero exactly when the dividend is below the divisor. */
  lemma DivZero(t: nat, d: nat)
    requires d > 0
    ensures t / d == 0 <==> t < d
  {
    if t < d {
      DivModUnique(t, d, 0, t);
    } else {
      DivModFacts(t, d);
    }
  }

  /** The minutes appear in the text exactly when at least a minute has elapsed either way. */
  lemma MinutesShown(ticks: int, ticksPerSecond: nat)
    requires ticksPerSecond > 0
    ensures Lacks(DurationString(ticks, ticksPerSecond), 'm') <==> -60 * ticksPerSecond < ticks < 60 * ticksPerSecond
  {
    var m := Minutes(ticks, ticksPerSecond);
    var s := DurationString(ticks, ticksPerSecond);
    DivZero(if ticks >= 0 then ticks else -ticks, 60 * ticksPerSecond);
    var sec := SignedDecimal(Seconds(ticks, ticksPerSecond)) + "s";
    if m != 0 {
      var sm := SignedDecimal(m);
      assert s[|sm|] == 'm';
    } else {
      assert Lacks(sec, 'm') by {
        var d := SignedDecimal(Seconds(ticks, ticksPerSecond));
        assert forall k :: 0 <= k < |d| ==> sec[k] == d[k];
      }
    }
  }
}
