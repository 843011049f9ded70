/** A raster on one common pixel grid, flattened to a sequence of pixel
    values, with the pixelwise algebra and the `sum()` that the AOH
    derivation uses. Values are exact reals. */
module Grids {

  type Grid = seq<real>

  /** `layer.sum()`: the total over all pixels. */
  function Sum(g: Grid): real
  {
    if |g| == 0 then 0.0 else g[0] + Sum(g[1..])
  }

  /** Pixelwise product of two layers on the same grid. */
  function Mul(a: Grid, b: Grid): (r: Grid)
    requires |a| == |b|
    ensures |r| == |a| && forall i :: 0 <= i < |r| ==> r[i] == a[i] * b[i]
  {
    seq(|a|, i requires 0 <= i < |a| => a[i] * b[i])
  }

  /** Pixelwise sum of two layers on the same grid. */
  function Add(a: Grid, b: Grid): (r: Grid)
    requires |a| == |b|
    ensures |r| == |a| && forall i :: 0 <= i < |r| ==> r[i] == a[i] + b[i]
  {
    seq(|a|, i requires 0 <= i < |a| => a[i] + b[i])
  }

  /** `layer.clip(max=1.0)`. */
  function ClipMax(a: Grid, hi: real): (r: Grid)
    ensures |r| == |a| && forall i :: 0 <= i < |r| ==> r[i] == (if a[i] > hi then hi else a[i])
  {
    seq(|a|, i requires 0 <= i < |a| => if a[i] > hi then hi else a[i])
  }

  /** A constant layer of `n` pixels (`ConstantLayer(c)` on the grid). */
  function Const(n: nat, c: real): (r: Grid)
    ensures |r| == n && forall i :: 0 <= i < n ==> r[i] == c
  {
    seq(n, _ => c)
  }

  /** A boolean raster read as numbers: 1.0 for true, 0.0 for false. */
  function Indicator(b: bool): real
  {
    if b then 1.0 else 0.0
  }

  predicate NonNegative(g: Grid)
  {
    forall i :: 0 <= i < |g| ==> g[i] >= 0.0
  }

  predicate AtMost(g: Grid, hi: real)
  {
    forall i :: 0 <= i < |g| ==> g[i] <= hi
  }

  /** Every pixel of `a` is at most the same pixel of `b`. */
  predicate Below(a: Grid, b: Grid)
    requires |a| == |b|
  {
    forall i :: 0 <= i < |a| ==> a[i] <= b[i]
  }

  lemma {:induction false} SumAppend(a: Grid, b: Grid)
    ensures Sum(a + b) == Sum(a) + Sum(b)
  {
    if |a| > 0 {
      assert (a + b)[1..] == a[1..] + b;
      SumAppend(a[1..], b);
    } else {
      assert a + b == b;
    }
  }

  /** A sum of non-negative pixels is non-negative. */
  lemma {:induction false} SumNonNegative(g: Grid)
    requires NonNegative(g)
    ensures Sum(g) >= 0.0
  {
    if |g| > 0 {
      SumNonNegative(g[1..]);
    }
  }

  /** The total is monotone in every pixel. */
  lemma {:induction false} SumMonotone(a: Grid, b: Grid)
    requires |a| == |b| && Below(a, b)
    ensures Sum(a) <= Sum(b)
  {
    if |a| > 0 {
      SumMonotone(a[1..], b[1..]);
    }
  }

  /** A constant layer of `n` pixels sums to `n * c`. */
  lemma {:induction false} SumConst(n: nat, c: real)
    ensures Sum(Const(n, c)) == (n as real) * c
  {
    if n > 0 {
      assert Const(n, c)[1..] == Const(n - 1, c);
      SumConst(n - 1, c);
    }
  }

  /** A non-negative layer with one positive pixel has a positive total. */
  lemma {:induction false} SumPositive(g: Grid, k: nat)
    requires NonNegative(g) && k < |g| && g[k] > 0.0
    ensures Sum(g) > 0.0
  {
    if k == 0 {
      SumNonNegative(g[1..]);
    } else {
      SumPositive(g[1..], k - 1);
    }
  }

  /** A non-negative layer with a zero total is zero everywhere. */
  lemma SumZeroIsZero(g: Grid)
    requires NonNegative(g) && Sum(g) == 0.0
    ensures forall i :: 0 <= i < |g| ==> g[i] == 0.0
  {
    forall i | 0 <= i < |g|
      ensures g[i] == 0.0
    {
      if g[i] > 0.0 {
        SumPositive(g, i);
      }
    }
  }

  /** Pixelwise scaling by a factor in [0, 1] can only lower a non-negative total. */
  lemma MulBelow(a: Grid, m: Grid)
    requires |a| == |m| && NonNegative(a) && NonNegative(m) && AtMost(m, 1.0)
    ensures Below(Mul(a, m), a) && NonNegative(Mul(a, m))
  {
    forall i | 0 <= i < |a|
      ensures Mul(a, m)[i] <= a[i] && Mul(a, m)[i] >= 0.0
    {
      var x, f := a[i], m[i];
      MulFactor(x, f);
      assert Mul(a, m)[i] == x * f;
    }
  }

  lemma MulFactor(x: real, f: real)
    requires x >= 0.0 && 0.0 <= f <= 1.0
    ensures 0.0 <= x * f <= x
  {
  }
}
