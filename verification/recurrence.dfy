/**
 * The two primitives of the stepping recurrence: the exponential relaxation
 * of one response mode (`next_temp`) and the top-of-atmosphere imbalance
 * (`next_rndt`), and the combined advance of one sample.
 */
module Recurrence {
  import opened Outcomes
  import opened ImpulseResponse
  import opened Conversion
  import ConversionProperties
  import Algebra

  /**
   * What the recurrence takes from outside the model: `expNeg(x)` stands for
   * `exp(-x)`, and `phi1`, `phi2` are the modal weights of the two-layer
   * eigen-decomposition (derived elsewhere with a square root).
   */
  datatype Env = Env(expNeg: real -> real, phi1: real, phi2: real)

  /** The one property of `exp(-x)` the model relies on: it lies in `(0, 1]` for `x >= 0`. */
  ghost predicate DecaysExponentially(expNeg: real -> real) {
    forall x: real :: 0.0 <= x ==> 0.0 < expNeg(x) <= 1.0
  }

  function Min(x: real, y: real): real { if x <= y then x else y }

  function Max(x: real, y: real): real { if x <= y then y else x }

  /**
   * `next_temp(dt, T, q, d, F) = T*exp(-dt/d) + F*q*(1 - exp(-dt/d))`: one
   * mode relaxes from `T` towards its equilibrium `F*q` over a step of `dt`.
   * The result lies between `T` and `F*q`, and the equilibrium is a fixed point.
   */
  function NextTemp(expNeg: real -> real, dt: real, t: real, q: real, d: real, f: real): (r: real)
    requires d != 0.0
    ensures DecaysExponentially(expNeg) && 0.0 <= dt / d ==> Min(t, f * q) <= r <= Max(t, f * q)
    ensures t == f * q ==> r == t
  {
    var e := expNeg(dt / d);
    Relaxation(expNeg, dt / d, t, f * q);
    t * e + f * q * (1.0 - e)
  }

  lemma Relaxation(expNeg: real -> real, x: real, t: real, g: real)
    ensures var e := expNeg(x);
      DecaysExponentially(expNeg) && 0.0 <= x ==> Min(t, g) <= t * e + g * (1.0 - e) <= Max(t, g)
  {
    if DecaysExponentially(expNeg) && 0.0 <= x {
      var e := expNeg(x);
      assert 0.0 < e <= 1.0;
      Algebra.BetweenEndpoints(t, g, e);
      if t <= g {
        assert Min(t, g) <= t * e + g * (1.0 - e) <= Max(t, g);
      } else {
        assert Min(t, g) <= t * e + g * (1.0 - e) <= Max(t, g);
      }
    }
  }

  /**
   * Stepping needs convertible parameters (for `lambda0` and `eta`), non-zero
   * timescales, and non-zero amplitudes: the modal weights come from the
   * eigen-decomposition of the two-layer system, which divides by `C_D` and
   * `eta`, and those vanish with either amplitude (`DeepLayerNeedsAmplitudes`).
   */
  predicate Steppable(p: Params) {
    Convertible(p) && p.d1 != 0.0 && p.d2 != 0.0 && p.q1 != 0.0 && p.q2 != 0.0
  }

  /**
   * For distinct timescales the converted system has a deep layer and a
   * heat exchange exactly when both amplitudes are non-zero.
   */
  lemma DeepLayerNeedsAmplitudes(p: Params)
    requires Capacities(p).Ok? && p.d1 != p.d2
    ensures Capacities(p).value.deep != 0.0 <==> p.q1 != 0.0 && p.q2 != 0.0
    ensures Capacities(p).value.eta != 0.0 <==> p.q1 != 0.0 && p.q2 != 0.0
  {
    var h := Capacities(p).value;
    DeepVanishes(p, h);
    ExchangeVanishes(p, h);
    if p.q1 != 0.0 && p.q2 != 0.0 {
      Algebra.NonZeroProduct(p.q1, p.q2);
    }
  }

  lemma DeepVanishes(p: Params, h: HeatCapacities)
    requires Capacities(p) == Ok(h) && p.d1 != p.d2
    ensures h.deep == 0.0 <==> p.q1 * p.q2 == 0.0
  {
    Algebra.PositiveSquare(p.d1 - p.d2);
    Algebra.PositiveSquare(AmplitudeSum(p));
    ConversionProperties.DeepCapacityClosedForm(p, h);
    Algebra.ScaledTogether(h.deep, p.efficacy, Algebra.Square(AmplitudeSum(p)), CapacityDenominator(p),
                           p.q1 * p.q2, Algebra.Square(p.d1 - p.d2));
  }

  lemma ExchangeVanishes(p: Params, h: HeatCapacities)
    requires Capacities(p) == Ok(h) && p.d1 != p.d2
    ensures h.eta == 0.0 <==> p.q1 * p.q2 == 0.0
  {
    Algebra.PositiveSquare(p.d1 - p.d2);
    Algebra.PositiveSquare(CapacityDenominator(p));
    ConversionProperties.ExchangeClosedForm(p, h);
    Algebra.ScaledTogether(h.eta, p.efficacy, AmplitudeSum(p), Algebra.Square(CapacityDenominator(p)),
                           p.q1 * p.q2, Algebra.Square(p.d1 - p.d2));
  }

  /**
   * The deep-layer temperature `T_D = phi1*T1 + phi2*T2` implied by the modal
   * temperatures; the surface temperature is `T1 + T2`.
   */
  function DeepTemp(env: Env, t1: real, t2: real): real {
    env.phi1 * t1 + env.phi2 * t2
  }

  /**
   * The deep-ocean efficacy correction `eta*(efficacy-1)*((1-phi1)*T1 + (1-phi2)*T2)`
   * of the imbalance, that is `eta*(efficacy-1)*(T - T_D)`. It vanishes at unit
   * efficacy and when the deep layer is as warm as the surface; for a
   * non-negative exchange coefficient and efficacy above one it has the sign
   * of the surface-to-deep temperature difference.
   */
  function EfficacyCorrection(eta: real, efficacy: real, phi1: real, phi2: real, t1: real, t2: real): (r: real)
    ensures efficacy == 1.0 ==> r == 0.0
    ensures phi1 * t1 + phi2 * t2 == t1 + t2 ==> r == 0.0
    ensures 0.0 <= eta && 1.0 <= efficacy && phi1 * t1 + phi2 * t2 <= t1 + t2 ==> 0.0 <= r
    ensures 0.0 <= eta && 1.0 <= efficacy && t1 + t2 <= phi1 * t1 + phi2 * t2 ==> r <= 0.0
  {
    var w := (1.0 - phi1) * t1 + (1.0 - phi2) * t2;
    assert w == (t1 + t2) - (phi1 * t1 + phi2 * t2);
    CorrectionSign(eta, efficacy - 1.0, w);
    eta * (efficacy - 1.0) * w
  }

  lemma CorrectionSign(eta: real, excess: real, w: real)
    ensures excess == 0.0 || w == 0.0 ==> eta * excess * w == 0.0
    ensures 0.0 <= eta && 0.0 <= excess && 0.0 <= w ==> 0.0 <= eta * excess * w
    ensures 0.0 <= eta && 0.0 <= excess && w <= 0.0 ==> eta * excess * w <= 0.0
  {
    if 0.0 <= eta && 0.0 <= excess {
      Algebra.NonNegativeProduct(eta, excess);
      if 0.0 <= w {
        Algebra.NonNegativeProduct(eta * excess, w);
      } else {
        Algebra.NonNegativeProduct(eta * excess, -w);
      }
    }
  }

  /**
   * `next_rndt(T1, T2, F, efficacy) = F - (T1+T2)*lambda0 - eta*(efficacy-1)*((1-phi1)*T1 + (1-phi2)*T2)`.
   * With unit efficacy the correction vanishes and the imbalance is the
   * forcing less the feedback `(T1+T2)/(q1+q2)`; with no warming it is the forcing.
   */
  function NextRndt(p: Params, env: Env, t1: real, t2: real, f: real, efficacy: real): (r: real)
    requires Capacities(p).Ok?
    ensures efficacy == 1.0 ==> r * AmplitudeSum(p) == f * AmplitudeSum(p) - (t1 + t2)
    ensures t1 == 0.0 && t2 == 0.0 ==> r == f
  {
    var h := Capacities(p).value;
    ConversionProperties.CapacityEquations(p);
    f - (t1 + t2) * h.lambda0 - EfficacyCorrection(h.eta, efficacy, env.phi1, env.phi2, t1, t2)
  }

  /**
   * With unit efficacy the imbalance vanishes exactly when the summed
   * temperatures equal the equilibrium warming `F*(q1+q2)` of the forcing.
   */
  lemma ZeroImbalance(p: Params, env: Env, t1: real, t2: real, f: real)
    requires Capacities(p).Ok?
    ensures NextRndt(p, env, t1, t2, f, 1.0) == 0.0 <==> t1 + t2 == f * AmplitudeSum(p)
  {
    var r := NextRndt(p, env, t1, t2, f, 1.0);
    var s := AmplitudeSum(p);
    assert r * s == f * s - (t1 + t2);
    if r != 0.0 {
      Algebra.NonZeroProduct(r, s);
    }
  }

  /**
   * For physical parameters a deep-ocean efficacy above one lowers the
   * imbalance while the deep layer is no warmer than the surface (heat flows
   * downwards), and raises it once the deep layer is the warmer one.
   */
  lemma EfficacyEffect(p: Params, env: Env, t1: real, t2: real, f: real, efficacy: real)
    requires ConversionProperties.Physical(p) && 1.0 <= efficacy
    ensures Capacities(p).Ok?
    ensures DeepTemp(env, t1, t2) <= t1 + t2 ==>
      NextRndt(p, env, t1, t2, f, efficacy) <= NextRndt(p, env, t1, t2, f, 1.0)
    ensures t1 + t2 <= DeepTemp(env, t1, t2) ==>
      NextRndt(p, env, t1, t2, f, 1.0) <= NextRndt(p, env, t1, t2, f, efficacy)
  {
    ConversionProperties.PhysicalIsConvertible(p);
    ConversionProperties.PhysicalCapacities(p, Capacities(p).value);
    EfficacySign(p, env, t1, t2, f, efficacy);
  }

  /** The efficacy's effect on the imbalance needs only a non-negative exchange coefficient. */
  lemma EfficacySign(p: Params, env: Env, t1: real, t2: real, f: real, efficacy: real)
    requires Capacities(p).Ok? && 0.0 <= Capacities(p).value.eta && 1.0 <= efficacy
    ensures DeepTemp(env, t1, t2) <= t1 + t2 ==>
      NextRndt(p, env, t1, t2, f, efficacy) <= NextRndt(p, env, t1, t2, f, 1.0)
    ensures t1 + t2 <= DeepTemp(env, t1, t2) ==>
      NextRndt(p, env, t1, t2, f, 1.0) <= NextRndt(p, env, t1, t2, f, efficacy)
  {
    var eta := Capacities(p).value.eta;
    CorrectionShift(p, env, t1, t2, f, efficacy);
    CorrectionFollowsLayers(eta, efficacy, env, t1, t2);
    ShiftOrder(NextRndt(p, env, t1, t2, f, efficacy), NextRndt(p, env, t1, t2, f, 1.0),
               EfficacyCorrection(eta, efficacy, env.phi1, env.phi2, t1, t2));
  }

  /** The sign of the correction, read against the deep-layer temperature. */
  lemma CorrectionFollowsLayers(eta: real, efficacy: real, env: Env, t1: real, t2: real)
    requires 0.0 <= eta && 1.0 <= efficacy
    ensures DeepTemp(env, t1, t2) <= t1 + t2 ==> 0.0 <= EfficacyCorrection(eta, efficacy, env.phi1, env.phi2, t1, t2)
    ensures t1 + t2 <= DeepTemp(env, t1, t2) ==> EfficacyCorrection(eta, efficacy, env.phi1, env.phi2, t1, t2) <= 0.0
  {
  }

  lemma ShiftOrder(a: real, b: real, c: real)
    requires a == b - c
    ensures 0.0 <= c ==> a <= b
    ensures c <= 0.0 ==> b <= a
  {
  }

  /** The imbalance at any efficacy is the unit-efficacy imbalance less the efficacy correction. */
  lemma CorrectionShift(p: Params, env: Env, t1: real, t2: real, f: real, efficacy: real)
    requires Capacities(p).Ok?
    ensures NextRndt(p, env, t1, t2, f, efficacy)
         == NextRndt(p, env, t1, t2, f, 1.0) - EfficacyCorrection(Capacities(p).value.eta, efficacy, env.phi1, env.phi2, t1, t2)
  {
  }

  /**
   * The modal weights are balanced when, at the equilibrium `(F*q1, F*q2)` of
   * any constant forcing, the deep layer is as warm as the surface:
   * `(1-phi1)*q1 + (1-phi2)*q2 == 0`.
   */
  predicate BalancedWeights(p: Params, env: Env) {
    (1.0 - env.phi1) * p.q1 + (1.0 - env.phi2) * p.q2 == 0.0
  }

  /**
   * With balanced weights the deep layer is as warm as the surface at every
   * equilibrium; conversely, equal temperatures at the equilibrium of one
   * non-zero forcing make the weights balanced.
   */
  lemma BalancedEquilibrium(p: Params, env: Env, f: real)
    ensures BalancedWeights(p, env) ==> DeepTemp(env, f * p.q1, f * p.q2) == f * p.q1 + f * p.q2
    ensures f != 0.0 && DeepTemp(env, f * p.q1, f * p.q2) == f * p.q1 + f * p.q2 ==> BalancedWeights(p, env)
  {
    Algebra.ScaledBalance(f, p.q1, p.q2, env.phi1, env.phi2);
  }

  /** The three outputs at one timestep. */
  datatype Sample = Sample(temp1: real, temp2: real, rndt: real)

  /** Pre-industrial equilibrium: the outputs at the first timestep. */
  const Origin := Sample(0.0, 0.0, 0.0)

  /** The outputs at the next timestep, from the previous outputs and the previous forcing. */
  function Advance(p: Params, env: Env, s: Sample, f: real): Sample
    requires Steppable(p)
  {
    Sample(NextTemp(env.expNeg, p.deltaT, s.temp1, p.q1, p.d1, f),
           NextTemp(env.expNeg, p.deltaT, s.temp2, p.q2, p.d2, f),
           NextRndt(p, env, s.temp1, s.temp2, f, p.efficacy))
  }
}
