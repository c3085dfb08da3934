/**
 * The sample-wise signal functions: the rectangular pulse, the unit step and
 * the numerical derivative. Samples are exact reals; the floating-point
 * rounding of the numeric library is not modelled.
 */
module Signals {

  import opened Wrappers

  function Abs(x: real): real {
    if x < 0.0 then -x else x
  }

  /** `rect(x)`: 1 where `|x| <= 0.5` (the boundary included), 0 elsewhere. */
  function Rect(x: seq<real>): (r: seq<real>)
    ensures |r| == |x|
    ensures forall i :: 0 <= i < |x| ==> (r[i] == 1.0 <==> Abs(x[i]) <= 0.5)
    ensures forall i :: 0 <= i < |x| ==> r[i] == 0.0 || r[i] == 1.0
  {
    seq(|x|, i requires 0 <= i < |x| => if Abs(x[i]) <= 0.5 then 1.0 else 0.0)
  }

  /** `u(x)`: 1 where `x >= 0` (so u(0) = 1), 0 elsewhere. */
  function Step(x: seq<real>): (r: seq<real>)
    ensures |r| == |x|
    ensures forall i :: 0 <= i < |x| ==> (r[i] == 1.0 <==> x[i] >= 0.0)
    ensures forall i :: 0 <= i < |x| ==> r[i] == 0.0 || r[i] == 1.0
  {
    seq(|x|, i requires 0 <= i < |x| => if x[i] >= 0.0 then 1.0 else 0.0)
  }

  /** `c*x + d`, sample by sample. */
  function Affine(c: real, x: seq<real>, d: real): (r: seq<real>)
    ensures |r| == |x| && forall i :: 0 <= i < |x| ==> r[i] == c * x[i] + d
  {
    seq(|x|, i requires 0 <= i < |x| => c * x[i] + d)
  }

  /** The pulse is even: rect(-x) = rect(x), since only |x| is tested. */
  lemma RectIsEven(x: seq<real>)
    ensures Rect(Affine(-1.0, x, 0.0)) == Rect(x)
  {
    var y := Affine(-1.0, x, 0.0);
    assert forall i :: 0 <= i < |x| ==> Abs(y[i]) == Abs(x[i]);
  }

  /**
   * An independent description of the pulse through the step: rect(x) is
   * u(x + 0.5) * u(0.5 - x), the window that is closed at both ends.
   */
  lemma RectIsProductOfSteps(x: seq<real>, i: nat)
    requires i < |x|
    ensures Rect(x)[i] == Step(Affine(1.0, x, 0.5))[i] * Step(Affine(-1.0, x, 0.5))[i]
  {
    var up, down := Step(Affine(1.0, x, 0.5)), Step(Affine(-1.0, x, 0.5));
    if Abs(x[i]) <= 0.5 {
      assert up[i] == 1.0 && down[i] == 1.0;
    } else if x[i] < 0.0 {
      assert up[i] == 0.0;
    } else {
      assert down[i] == 0.0;
    }
  }

  /**
   * One sample of `np.gradient(f, dt)` with scalar spacing and first-order
   * edges: a central difference inside, one-sided differences at both ends.
   */
  function GradientAt(f: seq<real>, dt: real, i: nat): real
    requires 2 <= |f| && dt != 0.0 && i < |f|
  {
    if i == 0 then (f[1] - f[0]) / dt
    else if i == |f| - 1 then (f[i] - f[i - 1]) / dt
    else (f[i + 1] - f[i - 1]) / (2.0 * dt)
  }

  /** `np.gradient(f, dt)`: one value per sample. */
  function Gradient(f: seq<real>, dt: real): (g: seq<real>)
    requires 2 <= |f| && dt != 0.0
    ensures |g| == |f|
  {
    seq(|f|, i requires 0 <= i < |f| => GradientAt(f, dt, i))
  }

  /**
   * `compute_derivative(f, t)`: the step is taken from the first interval
   * only, `dt = t[1] - t[0]`. It fails (None) when `t` has fewer than two
   * samples (the index `t[1]` raises), when `f` has fewer than two samples
   * (the gradient raises) and when the step is zero.
   */
  function ComputeDerivative(f: seq<real>, t: seq<real>): (r: Option<seq<real>>)
    ensures r.Some? <==> 2 <= |t| && 2 <= |f| && t[1] != t[0]
    ensures r.Some? ==> |r.value| == |f|
    ensures r.Some? ==> r.value[0] == (f[1] - f[0]) / (t[1] - t[0])
    ensures r.Some? ==> r.value[|f| - 1] == (f[|f| - 1] - f[|f| - 2]) / (t[1] - t[0])
    ensures r.Some? ==> forall i :: 0 < i < |f| - 1 ==> r.value[i] == (f[i + 1] - f[i - 1]) / (2.0 * (t[1] - t[0]))
  {
    if |t| < 2 then None
    else
      var dt := t[1] - t[0];
      if |f| < 2 || dt == 0.0 then None else Some(Gradient(f, dt))
  }

  /** Constant samples have a zero gradient everywhere. */
  lemma GradientOfConstant(f: seq<real>, dt: real)
    requires 2 <= |f| && dt != 0.0
    requires forall i :: 0 <= i < |f| ==> f[i] == f[0]
    ensures forall i :: 0 <= i < |f| ==> Gradient(f, dt)[i] == 0.0
  {
  }

  /**
   * Samples that grow by the same amount `m` from each index to the next
   * have the gradient `m / dt` at every index, the two ends included.
   */
  lemma GradientOfArithmetic(f: seq<real>, dt: real, m: real)
    requires 2 <= |f| && dt != 0.0
    requires forall i :: 0 < i < |f| ==> f[i] - f[i - 1] == m
    ensures forall i :: 0 <= i < |f| ==> Gradient(f, dt)[i] == m / dt
  {
    forall i | 0 <= i < |f| ensures Gradient(f, dt)[i] == m / dt {
      if 0 < i < |f| - 1 {
        assert f[i + 1] - f[i - 1] == 2.0 * m by {
          assert f[i + 1] - f[i] == m && f[i] - f[i - 1] == m;
        }
        assert (2.0 * m) / (2.0 * dt) == m / dt;
      }
    }
  }

  /**
   * On a uniform axis `t[i] = t[0] + i * h`, the derivative of the straight
   * line `k * t + d` is `k` at every sample.
   */
  lemma DerivativeOfLine(t: seq<real>, h: real, k: real, d: real)
    requires 2 <= |t| && h != 0.0
    requires forall i :: 0 < i < |t| ==> t[i] - t[i - 1] == h
    ensures ComputeDerivative(Affine(k, t, d), t).Some?
    ensures forall i :: 0 <= i < |t| ==> ComputeDerivative(Affine(k, t, d), t).value[i] == k
  {
    var f := Affine(k, t, d);
    forall i | 0 < i < |f| ensures f[i] - f[i - 1] == k * h {
      assert f[i] - f[i - 1] == k * (t[i] - t[i - 1]);
    }
    assert t[1] - t[0] == h;
    GradientOfArithmetic(f, h, k * h);
    DivideProduct(k, h);
  }

  lemma DivideProduct(k: real, h: real)
    requires h != 0.0
    ensures (k * h) / h == k
  {
  }
}
