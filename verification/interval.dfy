/**
 * The half-open address intervals [lower, upper) the rebuilder uses to tell
 * whether a hijack or a write region meets another one.
 */
module Intervals {
  import opened Wrappers

  datatype Interval = Interval(lower: int, upper: int)

  datatype IntervalError = InvalidInterval(lower: int, upper: int)

  /** What the constructor admits. */
  predicate Valid(i: Interval) { i.lower <= i.upper }

  /** The points an interval covers. */
  predicate Contains(i: Interval, k: int) { i.lower <= k < i.upper }

  /** The constructor: an interval whose lower end lies above its upper end is refused. */
  function MakeInterval(lower: int, upper: int): (r: Result<Interval, IntervalError>)
    ensures r.Success? <==> lower <= upper
    ensures r.Success? ==> Valid(r.value) && forall k :: Contains(r.value, k) <==> lower <= k < upper
    ensures r.Failure? ==> r.error == InvalidInterval(lower, upper)
  {
    if lower > upper then Failure(InvalidInterval(lower, upper)) else Success(Interval(lower, upper))
  }

  /** The number of points covered. */
  function Length(i: Interval): (n: int)
    requires Valid(i)
    ensures n >= 0
    ensures n == 0 <==> forall k :: !Contains(i, k)
  {
    var n := i.upper - i.lower;
    assert n > 0 ==> Contains(i, i.lower);
    n
  }

  /**
   * The source's test: other lies neither wholly to the left nor wholly to
   * the right of this interval.
   */
  predicate Overlaps(i: Interval, other: Interval)
  {
    !((other.lower < i.lower && other.upper <= i.lower) || (other.lower >= i.upper && other.upper > i.upper))
  }

  /** Two non-empty intervals overlap exactly when they have a point in common. */
  lemma OverlapsIffSharedPoint(i: Interval, other: Interval)
    requires Valid(i) && Valid(other) && Length(i) > 0 && Length(other) > 0
    ensures Overlaps(i, other) <==> exists k :: Contains(i, k) && Contains(other, k)
  {
    if Overlaps(i, other) {
      var k := if i.lower < other.lower then other.lower else i.lower;
      assert Contains(i, k) && Contains(other, k);
    }
  }

  /** Overlapping is symmetric for non-empty intervals. */
  lemma OverlapsSymmetric(i: Interval, other: Interval)
    requires Valid(i) && Valid(other) && Length(i) > 0 && Length(other) > 0
    ensures Overlaps(i, other) <==> Overlaps(other, i)
  {
    OverlapsIffSharedPoint(i, other);
    OverlapsIffSharedPoint(other, i);
  }

  function Max(a: int, b: int): int { if a < b then b else a }
  function Min(a: int, b: int): int { if a < b then a else b }

  /**
   * The common part of two intervals, or the empty interval [0, 0) when they
   * do not overlap. The constructor it calls never throws.
   */
  function Overlap(i: Interval, other: Interval): (r: Interval)
    requires Valid(i) && Valid(other)
    ensures Valid(r)
    ensures forall k :: Contains(r, k) <==> Contains(i, k) && Contains(other, k)
  {
    if !Overlaps(i, other) then Interval(0, 0)
    else Interval(Max(i.lower, other.lower), Min(i.upper, other.upper))
  }

  /** The overlap is never longer than either interval. */
  lemma OverlapLength(i: Interval, other: Interval)
    requires Valid(i) && Valid(other)
    ensures Length(Overlap(i, other)) <= Length(i)
    ensures Length(Overlap(i, other)) <= Length(other)
  {
  }

  /** An interval overlaps itself in full. */
  lemma OverlapWithItself(i: Interval)
    requires Valid(i)
    ensures Overlap(i, i) == i
  {
  }
}
