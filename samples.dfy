/** Double-precision sample values as the photometry code sees them, and the
    arithmetic (difference, mean, unit scaling, threshold comparison) it does
    on them. */
module Samples {

  /** An IEEE-754 double: a finite value, held as an exact real (rounding and
      overflow are not modelled), or one of the non-finite values. */
  datatype Float = Finite(value: real) | NaN | PosInf | NegInf

  /** Factor from kelvin to microkelvin. */
  const MicroPerUnit: real := 1000000.0

  /** `a - b` with IEEE-754's rules for non-finite operands. */
  function Sub(a: Float, b: Float): (d: Float)
    ensures d.Finite? <==> a.Finite? && b.Finite?
    ensures d == NaN <==> a == NaN || b == NaN || (a == b && !a.Finite?)
    ensures a.Finite? && b.Finite? && a.value == b.value ==> d == Finite(0.0)
  {
    match (a, b)
    case (NaN, _) => NaN
    case (_, NaN) => NaN
    case (PosInf, PosInf) => NaN
    case (NegInf, NegInf) => NaN
    case (PosInf, _) => PosInf
    case (NegInf, _) => NegInf
    case (Finite(_), PosInf) => NegInf
    case (Finite(_), NegInf) => PosInf
    case (Finite(x), Finite(y)) => Finite(x - y)
  }

  /** `a * 1e6`: a finite value is scaled, NaN and the infinities are kept. */
  function ToMicro(a: Float): (b: Float)
    ensures b.Finite? <==> a.Finite?
    ensures !a.Finite? ==> b == a
  {
    if a.Finite? then Finite(a.value * MicroPerUnit) else a
  }

  /** Converting both operands to microkelvin converts their difference. */
  lemma SubToMicro(a: Float, b: Float)
    ensures Sub(ToMicro(a), ToMicro(b)) == ToMicro(Sub(a, b))
  {
  }

  /** `a >= t` for a finite threshold `t`: NaN compares false, +inf true,
      -inf false. */
  predicate AtLeast(a: Float, t: real)
  {
    match a
    case Finite(v) => v >= t
    case PosInf => true
    case NegInf => false
    case NaN => false
  }

  /** Every value of `xs` lies in `[lo, hi]`. */
  predicate AllBetween(xs: seq<real>, lo: real, hi: real)
  {
    forall i :: 0 <= i < |xs| ==> lo <= xs[i] <= hi
  }

  function Sum(xs: seq<real>): real
  {
    if xs == [] then 0.0 else xs[0] + Sum(xs[1..])
  }

  /** `np.mean`: the arithmetic mean, and NaN for an empty array. */
  function Mean(xs: seq<real>): (m: Float)
    ensures m.Finite? <==> |xs| > 0
    ensures m == NaN <==> xs == []
    ensures m.Finite? ==> m.value * (|xs| as real) == Sum(xs)
  {
    if xs == [] then NaN else Finite(Sum(xs) / (|xs| as real))
  }

  /** The sum of values bounded by `lo` and `hi` is bounded by `n*lo` and `n*hi`. */
  lemma {:induction false} SumBetween(xs: seq<real>, lo: real, hi: real)
    requires AllBetween(xs, lo, hi)
    ensures (|xs| as real) * lo <= Sum(xs) <= (|xs| as real) * hi
  {
    if xs != [] {
      SumBetween(xs[1..], lo, hi);
      assert ((|xs| - 1) as real) * lo + lo == (|xs| as real) * lo;
      assert ((|xs| - 1) as real) * hi + hi == (|xs| as real) * hi;
    }
  }

  /** The mean of values in `[lo, hi]` is in `[lo, hi]`. */
  lemma MeanBetween(xs: seq<real>, lo: real, hi: real)
    requires xs != [] && AllBetween(xs, lo, hi)
    ensures Mean(xs).Finite? && lo <= Mean(xs).value <= hi
  {
    SumBetween(xs, lo, hi);
    assert Mean(xs).value * (|xs| as real) == Sum(xs);
  }

  lemma SumCons(x: real, rest: seq<real>)
    ensures Sum([x] + rest) == x + Sum(rest)
  {
    assert ([x] + rest)[1..] == rest;
  }

  /** The mean of a non-empty sequence of copies of `c` is `c`. */
  lemma MeanOfConstant(xs: seq<real>, c: real)
    requires xs != [] && AllBetween(xs, c, c)
    ensures Mean(xs) == Finite(c)
  {
    MeanBetween(xs, c, c);
  }

  /** Two equally long sequences whose sums differ by the factor 1e6 have
      means that differ by the factor 1e6 (both NaN when empty). */
  lemma MeanToMicro(xs: seq<real>, ys: seq<real>)
    requires |ys| == |xs| && Sum(ys) == Sum(xs) * MicroPerUnit
    ensures Mean(ys) == ToMicro(Mean(xs))
  {
    if xs != [] {
      var n := |xs| as real;
      var m := Sum(xs) / n;
      assert m * n == Sum(xs);
      assert (m * MicroPerUnit) * n == Sum(xs) * MicroPerUnit;
      assert Sum(ys) / n == m * MicroPerUnit;
    }
  }
}
