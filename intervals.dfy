/**
 * Real intervals with possibly infinite bounds (src/interval.rs). The `f64`
 * bounds of the program may be `INFINITY` or `-INFINITY`; they are modelled
 * as extended reals. NaN is not modelled.
 */
module Intervals {

  /** An extended real: a finite `f64` value or one of the two infinities. */
  datatype Ext = NegInf | Fin(value: real) | PosInf

  /** The `<` of `f64` on non-NaN values. */
  predicate Lt(a: Ext, b: Ext)
  {
    match a
    case NegInf => b != NegInf
    case Fin(x) => (b.Fin? && x < b.value) || b == PosInf
    case PosInf => false
  }

  /** The `<=` of `f64` on non-NaN values. */
  predicate Le(a: Ext, b: Ext)
  {
    !Lt(b, a)
  }

  /** `a - b` on extended reals, where it is not NaN. */
  function Minus(a: Ext, b: Ext): Ext
    requires a.Fin? || a != b
  {
    match a
    case PosInf => PosInf
    case NegInf => NegInf
    case Fin(x) =>
      match b
      case Fin(y) => Fin(x - y)
      case PosInf => NegInf
      case NegInf => PosInf
  }

  /** `Interval::new(min, max)` is the constructor and stores exactly those bounds. */
  datatype Interval = Interval(min: Ext, max: Ext) {

    /** `size() = max - min`, for the bounds where that is not NaN. */
    function Size(): (s: Ext)
      requires max.Fin? || max != min
      ensures s.Fin? <==> min.Fin? && max.Fin?
      ensures s.Fin? ==> min.value + s.value == max.value
      ensures s == PosInf <==> max == PosInf || min == NegInf
    {
      Minus(max, min)
    }

    /** The closed test `min <= x <= max`. */
    predicate Contains(x: Ext)
    {
      Le(min, x) && Le(x, max)
    }

    /** The open test `min < x < max`. */
    predicate Surrounds(x: Ext)
    {
      Lt(min, x) && Lt(x, max)
    }

    /** `clamp(x)`: `min` below the interval, `max` above it, `x` otherwise. */
    function Clamp(x: Ext): (c: Ext)
      ensures Contains(x) ==> c == x
      ensures Lt(x, min) ==> c == min
      ensures !Lt(x, min) && Lt(max, x) ==> c == max
      ensures Le(min, max) ==> Contains(c)
    {
      if Lt(x, min) then min
      else if Lt(max, x) then max
      else x
    }
  }

  /** `Interval::empty()`: `min = +inf`, `max = -inf`; it contains nothing. */
  function Empty(): (i: Interval)
    ensures i.min == PosInf && i.max == NegInf
    ensures forall x :: !i.Contains(x) && !i.Surrounds(x)
  {
    Interval(PosInf, NegInf)
  }

  /** `Interval::intensity_interval()`: `[0.000, 0.999]`; its clamp always yields a finite value in that range. */
  function IntensityInterval(): (i: Interval)
    ensures i == Interval(Fin(0.0), Fin(0.999))
    ensures forall x :: i.Clamp(x).Fin? && 0.0 <= i.Clamp(x).value <= 0.999
  {
    Interval(Fin(0.0), Fin(0.999))
  }

  lemma LtIrreflexive(a: Ext)
    ensures !Lt(a, a)
  {
  }

  lemma LtTrichotomy(a: Ext, b: Ext)
    ensures Lt(a, b) || a == b || Lt(b, a)
  {
  }

  lemma LtTransitive(a: Ext, b: Ext, c: Ext)
    requires Lt(a, b) && Lt(b, c)
    ensures Lt(a, c)
  {
  }

  /** The open test implies the closed one. */
  lemma SurroundsImpliesContains(i: Interval, x: Ext)
    requires i.Surrounds(x)
    ensures i.Contains(x)
  {
  }

  /** The open and closed tests differ exactly at the bounds: a contained
      value is also surrounded unless it is one of them. */
  lemma ContainsNotSurrounds(i: Interval, x: Ext)
    ensures i.Contains(x) && !i.Surrounds(x) <==> i.Contains(x) && (x == i.min || x == i.max)
  {
  }

  /** On a well-formed interval `clamp` is idempotent. */
  lemma ClampIdempotent(i: Interval, x: Ext)
    requires Le(i.min, i.max)
    ensures i.Clamp(i.Clamp(x)) == i.Clamp(x)
  {
  }

  /** On an inverted interval `clamp` is not idempotent: with `[1, 0]`,
      `clamp(0.5) = 1` but `clamp(1) = 0`. */
  lemma ClampNotIdempotentWhenInverted()
    ensures var i := Interval(Fin(1.0), Fin(0.0));
            i.Clamp(Fin(0.5)) == Fin(1.0) && i.Clamp(i.Clamp(Fin(0.5))) == Fin(0.0)
  {
  }
}
