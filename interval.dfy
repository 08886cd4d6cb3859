/** A closed range of reals, used to clamp colour channels and (as an open range)
    to bound the accepted ray parameters of a hit. */
module Intervals {

  /** `Interval::new(min, max)`; `min()` and `max()` are the fields. Nothing forces
      `min <= max`. */
  datatype Interval = Interval(min: real, max: real)
  {
    predicate Contains(x: real)
    {
      min <= x <= max
    }

    /** Below the range gives `min`, otherwise above it gives `max`, otherwise `x`.
        The lower bound is tested first, so an empty interval (`min > max`) can
        return either end. */
    function Clamp(x: real): (r: real)
      ensures x < min ==> r == min
      ensures min <= x && x > max ==> r == max
      ensures Contains(x) ==> r == x
      ensures min <= max ==> Contains(r)
    {
      if x < min then min
      else if x > max then max
      else x
    }
  }

  lemma ClampIdempotent(i: Interval, x: real)
    requires i.min <= i.max
    ensures i.Clamp(i.Clamp(x)) == i.Clamp(x)
  {
  }

  /** Without `min <= max` clamping twice can move the value again. */
  lemma ClampNotIdempotentWhenEmpty()
    ensures Interval(1.0, 0.0).Clamp(Interval(1.0, 0.0).Clamp(-1.0)) != Interval(1.0, 0.0).Clamp(-1.0)
  {
  }

  lemma ClampMonotone(i: Interval, x: real, y: real)
    requires i.min <= i.max
    requires x <= y
    ensures i.Clamp(x) <= i.Clamp(y)
  {
  }
}
