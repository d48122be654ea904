/**
 * Facts of real arithmetic behind the conversion between the
 * impulse-response and two-layer parameterisations.
 *
 * Products inside contracts are written with `Mul`, a named multiplication:
 * the solver then matches a product handed to a lemma with the product in
 * the lemma's contract term by term, instead of comparing polynomials.
 */
module Algebra {

  function Mul(x: real, y: real): real {
    x * y
  }

  function Square(a: real): real {
    Mul(a, a)
  }

  /** `q1 + q2`. */
  function Sum(q1: real, q2: real): real {
    q1 + q2
  }

  /** `d1*q1 + d2*q2`: each timescale weighted by its own amplitude. */
  function Weighted(q1: real, q2: real, d1: real, d2: real): real {
    d1 * q1 + d2 * q2
  }

  /** `q1*d2 + q2*d1`: each timescale weighted by the other amplitude. */
  function Crossed(q1: real, q2: real, d1: real, d2: real): real {
    q1 * d2 + q2 * d1
  }

  /** `q1*q2*(d1-d2)^2`. */
  function Gap(q1: real, q2: real, d1: real, d2: real): real {
    Mul(Mul(q1, q2), Square(d1 - d2))
  }

  lemma DivideThenMultiply(x: real, y: real)
    requires y != 0.0
    ensures (x / y) * y == x
  {
  }

  lemma NonZeroProduct(x: real, y: real)
    requires x != 0.0 && y != 0.0
    ensures x * y != 0.0
  {
  }

  lemma Distribute(k: real, x: real, y: real)
    ensures k * x + k * y == k * (x + y)
  {
  }

  /** `d1*a2 + d2*a1` with `a_i = k*q_i` is `k` times `q1*d2 + q2*d1`. */
  lemma MixedWeights(k: real, q1: real, q2: real, d1: real, d2: real)
    ensures d1 * (k * q2) + d2 * (k * q1) == k * (q1 * d2 + q2 * d1)
  {
  }

  /** `lambda0*(d1*a1 + d2*a2)` with `a_i = k*q_i` is `k^2` times `d1*q1 + d2*q2`. */
  lemma WeightedMean(k: real, q1: real, q2: real, d1: real, d2: real)
    ensures k * (d1 * (k * q1) + d2 * (k * q2)) == (k * k) * (d1 * q1 + d2 * q2)
  {
  }

  /**
   * The amplitude-weighted arithmetic mean of `d1`, `d2` exceeds the harmonic
   * one by `q1*q2*(d1-d2)^2`, once both are brought over a common denominator.
   */
  lemma MeanGap(q1: real, q2: real, d1: real, d2: real)
    ensures Mul(Weighted(q1, q2, d1, d2), Crossed(q1, q2, d1, d2)) - Mul(Mul(d1, d2), Square(Sum(q1, q2)))
         == Gap(q1, q2, d1, d2)
  {
  }

  /** `k*s = 1` gives `k^2*s^2 = 1`. */
  lemma InverseSquares(k: real, s: real)
    requires Mul(k, s) == 1.0
    ensures Mul(Square(k), Square(s)) == 1.0
  {
    assert Square(k) * Square(s) == (k * s) * (k * s);
  }

  /** Multiplying `C_D*e = K*x - c` through by `Q*den`, where `K*Q = 1`. */
  lemma ScaledDeep(deep: real, e: real, kk: real, x: real, c: real, ss: real, den: real)
    requires Mul(deep, e) == Mul(kk, x) - c && Mul(kk, ss) == 1.0
    ensures Mul(deep, Mul(Mul(e, ss), den)) == Mul(x, den) - Mul(Mul(c, den), ss)
  {
    calc {
      deep * ((e * ss) * den);
      (deep * e) * (ss * den);
      (kk * x - c) * (ss * den);
      (kk * ss) * (x * den) - (c * den) * ss;
    }
  }

  /** From `C_D*e = k^2*x - C`, `k*s = 1` and `C*den = d1*d2`, the closed form of `C_D`. */
  lemma DeepGap(deep: real, e: real, k: real, c: real, q1: real, q2: real, d1: real, d2: real)
    requires Mul(deep, e) == Mul(Square(k), Weighted(q1, q2, d1, d2)) - c
    requires Mul(k, Sum(q1, q2)) == 1.0 && Mul(c, Crossed(q1, q2, d1, d2)) == Mul(d1, d2)
    ensures Mul(deep, Mul(Mul(e, Square(Sum(q1, q2))), Crossed(q1, q2, d1, d2))) == Gap(q1, q2, d1, d2)
  {
    InverseSquares(k, Sum(q1, q2));
    ScaledDeep(deep, e, Square(k), Weighted(q1, q2, d1, d2), c, Square(Sum(q1, q2)), Crossed(q1, q2, d1, d2));
    MeanGap(q1, q2, d1, d2);
  }

  /** From `eta*(k*den) = C_D` and `k*s = 1`, the closed form of `eta` follows from that of `C_D`. */
  lemma ExchangeGap(eta: real, deep: real, e: real, k: real, s: real, den: real, g: real)
    requires Mul(eta, Mul(k, den)) == deep && Mul(k, s) == 1.0
    requires Mul(deep, Mul(Mul(e, Square(s)), den)) == g
    ensures Mul(eta, Mul(Mul(e, s), Square(den))) == g
  {
    calc {
      eta * ((e * s) * (den * den));
      (eta * ((e * s) * (den * den))) * (k * s);
      (eta * (k * den)) * ((e * (s * s)) * den);
      deep * ((e * (s * s)) * den);
    }
  }

  lemma PositiveGap(q1: real, q2: real, d1: real, d2: real)
    requires 0.0 < q1 && 0.0 < q2 && d1 != d2
    ensures 0.0 < Gap(q1, q2, d1, d2)
  {
    PositiveSquare(d1 - d2);
    PositiveMul(q1, q2);
    PositiveMul(Mul(q1, q2), Square(d1 - d2));
  }

  lemma PositiveFactor(x: real, y: real, z: real)
    requires 0.0 < y && 0.0 < z && Mul(x, y) == z
    ensures 0.0 < x
  {
  }

  lemma PositiveMul(x: real, y: real)
    requires 0.0 < x && 0.0 < y
    ensures 0.0 < Mul(x, y)
  {
  }

  lemma PositiveSquare(a: real)
    requires a != 0.0
    ensures 0.0 < Square(a)
  {
    if a < 0.0 {
      PositiveMul(-a, -a);
      assert Mul(-a, -a) == Mul(a, a);
    } else {
      PositiveMul(a, a);
    }
  }

  lemma NonZeroFactor(x: real, y: real, z: real)
    requires Mul(x, y) == z && z != 0.0
    ensures x != 0.0 && y != 0.0
  {
  }

  /** Two reals that agree after multiplication by the same non-zero factor are equal. */
  lemma Cancel(a: real, b: real, f: real)
    requires f != 0.0 && a * f == b * f
    ensures a == b
  {
    assert (a - b) * f == 0.0;
  }

  /**
   * From the exchange equation `eta*(k*den) = C_D`, the deep-layer equation
   * `C_D*e = k^2*x - c` and `k*s = 1`: `e*eta*den = k*x - c*s`.
   */
  lemma ExchangeTimesDenominator(k: real, s: real, c: real, den: real, x: real, deep: real, e: real, eta: real)
    requires Mul(k, s) == 1.0 && Mul(deep, e) == Mul(Square(k), x) - c && Mul(eta, Mul(k, den)) == deep
    ensures Mul(Mul(e, eta), den) == Mul(k, x) - Mul(c, s)
  {
    assert (e * eta * den) * (k * s) == (k * x - c * s) * (k * s) by {
      calc {
        (e * eta * den) * (k * s);
        e * (eta * (k * den)) * s;
        (deep * e) * s;
        ((k * k) * x - c) * s;
        k * x * (k * s) - c * s;
        (k * x - c * s) * (k * s);
      }
    }
    Cancel(e * eta * den, k * x - c * s, k * s);
  }

  /** `(k + e*eta)*den + c*s = d1 + d2`: the trace of the two-layer matrix, cleared of denominators. */
  lemma TraceNumerator(k: real, c: real, e: real, eta: real, q1: real, q2: real, d1: real, d2: real)
    requires Mul(k, Sum(q1, q2)) == 1.0
    requires Mul(Mul(e, eta), Crossed(q1, q2, d1, d2)) == Mul(k, Weighted(q1, q2, d1, d2)) - Mul(c, Sum(q1, q2))
    ensures Mul(k + Mul(e, eta), Crossed(q1, q2, d1, d2)) + Mul(c, Sum(q1, q2)) == d1 + d2
  {
    var s, den, x := Sum(q1, q2), Crossed(q1, q2, d1, d2), Weighted(q1, q2, d1, d2);
    assert den + x == s * (d1 + d2);
    assert (k + e * eta) * den + c * s == k * (den + x);
    assert k * (s * (d1 + d2)) == (k * s) * (d1 + d2);
  }

  /** `(eta/C_D)*den = s`, from `eta*(k*den) = C_D` and `k*s = 1`. */
  lemma DeepRate(k: real, s: real, den: real, deep: real, eta: real)
    requires Mul(k, s) == 1.0 && Mul(eta, Mul(k, den)) == deep && deep != 0.0
    ensures Mul(eta / deep, den) == s
  {
    NonZeroFactor(eta, Mul(k, den), deep);
    var v := eta / deep;
    DivideThenMultiply(eta, deep);
    assert (v * k * den) * eta == 1.0 * eta by {
      calc {
        (v * k * den) * eta;
        v * (eta * (k * den));
        v * deep;
        eta;
      }
    }
    Cancel(v * k * den, 1.0, eta);
    assert (v * den) * (k * s) == (v * k * den) * s;
  }

  /** The sum of the two decay rates: `(k + e*eta)/C + eta/C_D = 1/d1 + 1/d2`. */
  lemma RateSum(k: real, s: real, c: real, den: real, deep: real, e: real, eta: real, d1: real, d2: real)
    requires c != 0.0 && deep != 0.0 && Mul(d1, d2) != 0.0
    requires Mul(c, den) == Mul(d1, d2) && Mul(k + Mul(e, eta), den) + Mul(c, s) == d1 + d2
    requires Mul(eta / deep, den) == s
    ensures (k + Mul(e, eta)) / c + eta / deep == 1.0 / d1 + 1.0 / d2
  {
    var u := (k + e * eta) / c;
    var v := eta / deep;
    DivideThenMultiply(k + e * eta, c);
    assert u * (d1 * d2) == d1 + d2 - c * s by {
      assert u * (d1 * d2) == (u * c) * den;
    }
    assert v * (d1 * d2) == c * s by {
      assert v * (d1 * d2) == (v * den) * c;
    }
    assert (u + v) * (d1 * d2) == (1.0 / d1 + 1.0 / d2) * (d1 * d2) by {
      assert (1.0 / d1 + 1.0 / d2) * (d1 * d2) == d2 + d1;
    }
    Cancel(u + v, 1.0 / d1 + 1.0 / d2, d1 * d2);
  }

  /** A non-zero factor common to numerator and denominator cancels. */
  lemma CommonFactor(a: real, b: real)
    requires a != 0.0 && b != 0.0
    ensures a / (b * a) == 1.0 / b
  {
    NonZeroProduct(b, a);
    var w := a / (b * a);
    var v := 1.0 / b;
    DivideThenMultiply(a, b * a);
    DivideThenMultiply(1.0, b);
    assert v * (b * a) == a by {
      assert v * b == 1.0;
      assert v * (b * a) == (v * b) * a;
    }
    Cancel(w, v, b * a);
  }

  /** The product of the two decay rates: `k*eta/(C*C_D) = 1/(d1*d2)`. */
  lemma RateProduct(k: real, c: real, den: real, deep: real, eta: real, d1: real, d2: real)
    requires Mul(c, den) == Mul(d1, d2) && Mul(eta, Mul(k, den)) == deep
    requires c != 0.0 && deep != 0.0 && Mul(d1, d2) != 0.0
    ensures Mul(k, eta) / Mul(c, deep) == 1.0 / Mul(d1, d2)
  {
    NonZeroFactor(eta, Mul(k, den), deep);
    NonZeroFactor(k, den, Mul(k, den));
    NonZeroProduct(k, eta);
    assert c * deep == (d1 * d2) * (k * eta) by {
      calc {
        c * deep;
        c * (eta * (k * den));
        (c * den) * (k * eta);
      }
    }
    CommonFactor(k * eta, d1 * d2);
  }

  /** A weighted average `t*e + g*(1-e)` with weight `0 < e <= 1` lies between `t` and `g`. */
  lemma BetweenEndpoints(t: real, g: real, e: real)
    requires 0.0 < e <= 1.0
    ensures t <= g ==> t <= t * e + g * (1.0 - e) <= g
    ensures g <= t ==> g <= t * e + g * (1.0 - e) <= t
  {
    var r := t * e + g * (1.0 - e);
    if t <= g {
      NonNegativeProduct(g - t, 1.0 - e);
      NonNegativeProduct(g - t, e);
      assert r - t == (g - t) * (1.0 - e);
      assert g - r == (g - t) * e;
    } else {
      NonNegativeProduct(t - g, 1.0 - e);
      NonNegativeProduct(t - g, e);
      assert t - r == (t - g) * (1.0 - e);
      assert r - g == (t - g) * e;
    }
  }

  lemma NonNegativeQuotient(x: real, y: real)
    requires 0.0 <= x && 0.0 < y
    ensures 0.0 <= x / y
  {
  }

  lemma NonNegativeProduct(x: real, y: real)
    requires 0.0 <= x && 0.0 <= y
    ensures 0.0 <= x * y
  {
  }

  /**
   * Scaling by `f` moves the weighting `(1-u)*q1 + (1-v)*q2` to the gap
   * between `f*q1 + f*q2` and its weighted form; for non-zero `f` one
   * vanishes exactly when the other does.
   */
  lemma ScaledBalance(f: real, q1: real, q2: real, u: real, v: real)
    ensures (1.0 - u) * q1 + (1.0 - v) * q2 == 0.0 ==> u * (f * q1) + v * (f * q2) == f * q1 + f * q2
    ensures f != 0.0 && u * (f * q1) + v * (f * q2) == f * q1 + f * q2 ==> (1.0 - u) * q1 + (1.0 - v) * q2 == 0.0
  {
    var b := (1.0 - u) * q1 + (1.0 - v) * q2;
    assert f * q1 + f * q2 - (u * (f * q1) + v * (f * q2)) == f * b;
    if f != 0.0 && b != 0.0 {
      NonZeroProduct(f, b);
    }
  }

  /** With `x*a == b*s` and non-zero `a`, `s`, the factors `x` and `b` vanish together. */
  lemma ZeroTogether(x: real, a: real, b: real, s: real)
    requires a != 0.0 && s != 0.0 && x * a == b * s
    ensures x == 0.0 <==> b == 0.0
  {
    if x != 0.0 {
      NonZeroProduct(x, a);
    }
    if b != 0.0 {
      NonZeroProduct(b, s);
    }
  }

  /** The same for a three-factor scale `e*u*c` with every factor non-zero. */
  lemma ScaledTogether(x: real, e: real, u: real, c: real, b: real, s: real)
    requires e != 0.0 && u != 0.0 && c != 0.0 && s != 0.0 && x * (e * u * c) == b * s
    ensures x == 0.0 <==> b == 0.0
  {
    NonZeroProduct(e, u);
    NonZeroProduct(e * u, c);
    ZeroTogether(x, e * u * c, b, s);
  }
}
