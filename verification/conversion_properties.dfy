/**
 * What the impulse-response to two-layer conversion guarantees: its defining
 * equations, unit total modal weight, closed forms of the deep-layer capacity
 * and the exchange coefficient, physical (positive) results for physical
 * inputs, and a two-layer system that relaxes on exactly the timescales `d1`
 * and `d2`.
 *
 * Only `CapacityEquations` looks inside `Capacities`; every other proof works
 * from the equations it establishes.
 */
module ConversionProperties {
  import opened Outcomes
  import opened ImpulseResponse
  import opened Conversion
  import opened Algebra

  /** Strictly positive amplitudes, timescales and efficacy, with the short timescale first. */
  predicate Physical(p: Params) {
    0.0 < p.q1 && 0.0 < p.q2 && 0.0 < p.d1 < p.d2 && 0.0 < p.efficacy
  }

  /**
   * The defining equations of the conversion: `lambda0 = 1/(q1+q2)`,
   * `a_i = lambda0*q_i`, `C = d1*d2/(q1*d2 + q2*d1)`,
   * `C_D = (lambda0*(d1*a1 + d2*a2) - C)/efficacy`, `eta = C_D/(d1*a2 + d2*a1)`,
   * with every division multiplied out.
   */
  predicate Solves(p: Params, h: HeatCapacities) {
    && h.lambda0 * AmplitudeSum(p) == 1.0
    && h.a1 == h.lambda0 * p.q1 && h.a2 == h.lambda0 * p.q2
    && h.upper * CapacityDenominator(p) == p.d1 * p.d2
    && h.deep * p.efficacy == h.lambda0 * (p.d1 * h.a1 + p.d2 * h.a2) - h.upper
    && h.eta * (p.d1 * h.a2 + p.d2 * h.a1) == h.deep
  }

  /** The conversion's result satisfies the defining equations, and the exchange denominator is non-zero. */
  lemma CapacityEquations(p: Params)
    requires Convertible(p)
    ensures Capacities(p).Ok? && Solves(p, Capacities(p).value)
    ensures var h := Capacities(p).value; p.d1 * h.a2 + p.d2 * h.a1 != 0.0
  {
    var h := Capacities(p).value;
    assert h == HeatCapacities(Feedback(p), Feedback(p) * p.q1, Feedback(p) * p.q2,
                               UpperCapacity(p), DeepCapacity(p), Exchange(p));
    Algebra.NonZeroProduct(Feedback(p), CapacityDenominator(p));
  }

  /** The exchange denominator `d1*a2 + d2*a1` of a solution is non-zero. */
  lemma MixedNonZero(p: Params, h: HeatCapacities)
    requires Convertible(p) && Solves(p, h)
    ensures p.d1 * h.a2 + p.d2 * h.a1 != 0.0
  {
    Algebra.MixedWeights(h.lambda0, p.q1, p.q2, p.d1, p.d2);
    Algebra.NonZeroFactor(h.lambda0, AmplitudeSum(p), 1.0);
    Algebra.NonZeroProduct(h.lambda0, CapacityDenominator(p));
  }

  lemma SameFeedback(p: Params, h: HeatCapacities, h': HeatCapacities)
    requires AmplitudeSum(p) != 0.0
    requires h.lambda0 * AmplitudeSum(p) == 1.0 && h'.lambda0 * AmplitudeSum(p) == 1.0
    ensures h.lambda0 == h'.lambda0
  {
    Algebra.Cancel(h.lambda0, h'.lambda0, AmplitudeSum(p));
  }

  lemma SameUpper(p: Params, h: HeatCapacities, h': HeatCapacities)
    requires CapacityDenominator(p) != 0.0
    requires h.upper * CapacityDenominator(p) == p.d1 * p.d2 && h'.upper * CapacityDenominator(p) == p.d1 * p.d2
    ensures h.upper == h'.upper
  {
    Algebra.Cancel(h.upper, h'.upper, CapacityDenominator(p));
  }

  lemma SameDeep(p: Params, h: HeatCapacities, h': HeatCapacities)
    requires p.efficacy != 0.0
    requires h.deep * p.efficacy == h.lambda0 * (p.d1 * h.a1 + p.d2 * h.a2) - h.upper
    requires h'.deep * p.efficacy == h'.lambda0 * (p.d1 * h'.a1 + p.d2 * h'.a2) - h'.upper
    requires h.lambda0 == h'.lambda0 && h.a1 == h'.a1 && h.a2 == h'.a2 && h.upper == h'.upper
    ensures h.deep == h'.deep
  {
    Algebra.Cancel(h.deep, h'.deep, p.efficacy);
  }

  lemma SameExchange(p: Params, h: HeatCapacities, h': HeatCapacities)
    requires Convertible(p) && Solves(p, h) && Solves(p, h')
    requires h.a1 == h'.a1 && h.a2 == h'.a2 && h.deep == h'.deep
    ensures h.eta == h'.eta
  {
    MixedNonZero(p, h);
    Algebra.Cancel(h.eta, h'.eta, p.d1 * h.a2 + p.d2 * h.a1);
  }

  /** The defining equations have at most one solution. */
  lemma SolutionUnique(p: Params, h: HeatCapacities, h': HeatCapacities)
    requires Convertible(p) && Solves(p, h) && Solves(p, h')
    ensures h == h'
  {
    SameFeedback(p, h, h');
    SameUpper(p, h, h');
    assert h.a1 == h'.a1 && h.a2 == h'.a2;
    SameDeep(p, h, h');
    SameExchange(p, h, h');
  }

  /** The conversion succeeds with `h` exactly when the parameters are convertible and `h` solves the equations. */
  lemma CapacitiesCharacterised(p: Params, h: HeatCapacities)
    ensures Capacities(p) == Ok(h) <==> Convertible(p) && Solves(p, h)
  {
    if Convertible(p) {
      CapacityEquations(p);
      if Solves(p, h) {
        SolutionUnique(p, h, Capacities(p).value);
      }
    }
  }

  /**
   * The defining equations with the modal weights eliminated, products
   * written with `Algebra.Mul`.
   */
  predicate Reduced(p: Params, h: HeatCapacities) {
    && Mul(h.lambda0, AmplitudeSum(p)) == 1.0
    && Mul(h.upper, CapacityDenominator(p)) == Mul(p.d1, p.d2)
    && Mul(h.deep, p.efficacy) == Mul(Square(h.lambda0), WeightedTimescales(p)) - h.upper
    && Mul(h.eta, Mul(h.lambda0, CapacityDenominator(p))) == h.deep
  }

  lemma ReduceDeep(p: Params, h: HeatCapacities)
    requires h.a1 == h.lambda0 * p.q1 && h.a2 == h.lambda0 * p.q2
    requires h.deep * p.efficacy == h.lambda0 * (p.d1 * h.a1 + p.d2 * h.a2) - h.upper
    ensures Mul(h.deep, p.efficacy) == Mul(Square(h.lambda0), WeightedTimescales(p)) - h.upper
  {
    var k := h.lambda0;
    Algebra.WeightedMean(k, p.q1, p.q2, p.d1, p.d2);
  }

  lemma ReduceExchange(p: Params, h: HeatCapacities)
    requires h.a1 == h.lambda0 * p.q1 && h.a2 == h.lambda0 * p.q2
    requires h.eta * (p.d1 * h.a2 + p.d2 * h.a1) == h.deep
    ensures Mul(h.eta, Mul(h.lambda0, CapacityDenominator(p))) == h.deep
  {
    Algebra.MixedWeights(h.lambda0, p.q1, p.q2, p.d1, p.d2);
  }

  lemma ReduceScalars(p: Params, h: HeatCapacities)
    requires h.lambda0 * AmplitudeSum(p) == 1.0 && h.upper * CapacityDenominator(p) == p.d1 * p.d2
    ensures Mul(h.lambda0, AmplitudeSum(p)) == 1.0 && Mul(h.upper, CapacityDenominator(p)) == Mul(p.d1, p.d2)
  {
  }

  lemma Reduce(p: Params, h: HeatCapacities)
    requires Solves(p, h)
    ensures Reduced(p, h)
  {
    ReduceScalars(p, h);
    ReduceDeep(p, h);
    ReduceExchange(p, h);
  }

  /** The conversion's result satisfies the defining and the reduced equations. */
  lemma ReducedEquations(p: Params, h: HeatCapacities)
    requires Capacities(p) == Ok(h)
    ensures Solves(p, h) && Reduced(p, h)
  {
    CapacityEquations(p);
    Reduce(p, h);
  }

  lemma DeepGapFor(p: Params, h: HeatCapacities)
    requires Reduced(p, h)
    ensures Mul(h.deep, Mul(Mul(p.efficacy, Square(AmplitudeSum(p))), CapacityDenominator(p)))
         == Gap(p.q1, p.q2, p.d1, p.d2)
  {
    Algebra.DeepGap(h.deep, p.efficacy, h.lambda0, h.upper, p.q1, p.q2, p.d1, p.d2);
  }

  lemma ExchangeGapFor(p: Params, h: HeatCapacities)
    requires Reduced(p, h)
    ensures Mul(h.eta, Mul(Mul(p.efficacy, AmplitudeSum(p)), Square(CapacityDenominator(p))))
         == Gap(p.q1, p.q2, p.d1, p.d2)
  {
    DeepGapFor(p, h);
    Algebra.ExchangeGap(h.eta, h.deep, p.efficacy, h.lambda0, AmplitudeSum(p), CapacityDenominator(p),
                        Gap(p.q1, p.q2, p.d1, p.d2));
  }

  /**
   * The deep-layer capacity times `efficacy`, `(q1+q2)^2` and `q1*d2 + q2*d1`
   * is `q1*q2*(d1-d2)^2`: the gap between the amplitude-weighted arithmetic
   * and harmonic means of the two timescales.
   */
  lemma DeepCapacityClosedForm(p: Params, h: HeatCapacities)
    requires Capacities(p) == Ok(h)
    ensures h.deep * (p.efficacy * Square(AmplitudeSum(p)) * CapacityDenominator(p))
         == p.q1 * p.q2 * Square(p.d1 - p.d2)
  {
    ReducedEquations(p, h);
    DeepGapFor(p, h);
  }

  /** The exchange coefficient times `efficacy`, `q1+q2` and `(q1*d2 + q2*d1)^2` is `q1*q2*(d1-d2)^2`. */
  lemma ExchangeClosedForm(p: Params, h: HeatCapacities)
    requires Capacities(p) == Ok(h)
    ensures h.eta * (p.efficacy * AmplitudeSum(p) * Square(CapacityDenominator(p)))
         == p.q1 * p.q2 * Square(p.d1 - p.d2)
  {
    ReducedEquations(p, h);
    ExchangeGapFor(p, h);
  }

  lemma PhysicalIsConvertible(p: Params)
    requires Physical(p)
    ensures 0.0 < CapacityDenominator(p) && Convertible(p)
  {
    Algebra.PositiveMul(p.q1, p.d2);
    Algebra.PositiveMul(p.q2, p.d1);
  }

  lemma PositiveWeights(p: Params, h: HeatCapacities)
    requires Physical(p) && Solves(p, h)
    ensures 0.0 < h.lambda0 && 0.0 < h.a1 < 1.0 && 0.0 < h.a2 < 1.0 && h.a1 + h.a2 == 1.0
  {
    Algebra.PositiveFactor(h.lambda0, AmplitudeSum(p), 1.0);
    Algebra.PositiveMul(h.lambda0, p.q1);
    Algebra.PositiveMul(h.lambda0, p.q2);
    Algebra.Distribute(h.lambda0, p.q1, p.q2);
  }

  lemma PositiveCapacities(p: Params, h: HeatCapacities)
    requires Physical(p) && Reduced(p, h)
    ensures 0.0 < h.upper && 0.0 < h.deep && 0.0 < h.eta
  {
    PhysicalIsConvertible(p);
    var s := AmplitudeSum(p);
    var den := CapacityDenominator(p);
    Algebra.PositiveMul(p.d1, p.d2);
    Algebra.PositiveFactor(h.upper, den, Mul(p.d1, p.d2));
    Algebra.PositiveGap(p.q1, p.q2, p.d1, p.d2);
    Algebra.PositiveSquare(s);
    Algebra.PositiveMul(p.efficacy, Square(s));
    Algebra.PositiveMul(Mul(p.efficacy, Square(s)), den);
    DeepGapFor(p, h);
    Algebra.PositiveFactor(h.deep, Mul(Mul(p.efficacy, Square(s)), den), Gap(p.q1, p.q2, p.d1, p.d2));
    Algebra.PositiveSquare(den);
    Algebra.PositiveMul(p.efficacy, s);
    Algebra.PositiveMul(Mul(p.efficacy, s), Square(den));
    ExchangeGapFor(p, h);
    Algebra.PositiveFactor(h.eta, Mul(Mul(p.efficacy, s), Square(den)), Gap(p.q1, p.q2, p.d1, p.d2));
  }

  /** For physical parameters, every quantity of the conversion is positive and the weights are fractions. */
  lemma PhysicalCapacities(p: Params, h: HeatCapacities)
    requires Physical(p) && Capacities(p) == Ok(h)
    ensures 0.0 < h.lambda0 && 0.0 < h.a1 < 1.0 && 0.0 < h.a2 < 1.0
    ensures 0.0 < h.upper && 0.0 < h.deep && 0.0 < h.eta
  {
    ReducedEquations(p, h);
    PositiveWeights(p, h);
    PositiveCapacities(p, h);
  }

  /** Positive heat capacities give positive layer depths. */
  lemma PositiveDepths(p: Params, w: Water, h: HeatCapacities, t: TwoLayerParams)
    requires PositiveWater(w) && Capacities(p) == Ok(h) && TwoLayerParameters(p, w) == Ok(t)
    requires 0.0 < h.upper && 0.0 < h.deep
    ensures 0.0 < t.du && 0.0 < t.dl
  {
    Algebra.PositiveMul(w.density, w.heatCapacity);
    Algebra.PositiveFactor(t.du, w.density * w.heatCapacity, h.upper);
    Algebra.PositiveFactor(t.dl, w.density * w.heatCapacity, h.deep);
  }

  /**
   * Physical impulse-response parameters convert, for positive water
   * constants, to a physical two-layer model: positive feedback, layer
   * depths and exchange coefficient, modal weights strictly between 0 and 1.
   */
  lemma PhysicalConversion(p: Params, w: Water)
    requires Physical(p) && PositiveWater(w)
    ensures Capacities(p).Ok? && TwoLayerParameters(p, w).Ok?
    ensures var h := Capacities(p).value; 0.0 < h.a1 < 1.0 && 0.0 < h.a2 < 1.0
    ensures var t := TwoLayerParameters(p, w).value;
      0.0 < t.lambda0 && 0.0 < t.du && 0.0 < t.dl && 0.0 < t.eta && t.efficacy == p.efficacy
  {
    PhysicalIsConvertible(p);
    var h := Capacities(p).value;
    PhysicalCapacities(p, h);
    PositiveDepths(p, w, h, TwoLayerParameters(p, w).value);
  }

  /** Distinct timescales and non-vanishing amplitudes give non-vanishing heat capacities. */
  lemma NonZeroCapacities(p: Params, h: HeatCapacities)
    requires Reduced(p, h) && p.d1 != p.d2 && Mul(p.d1, p.d2) != 0.0 && Mul(p.q1, p.q2) != 0.0
    ensures h.upper != 0.0 && h.deep != 0.0
  {
    Algebra.NonZeroFactor(h.upper, CapacityDenominator(p), Mul(p.d1, p.d2));
    Algebra.PositiveSquare(p.d1 - p.d2);
    Algebra.NonZeroProduct(Mul(p.q1, p.q2), Square(p.d1 - p.d2));
    DeepGapFor(p, h);
    Algebra.NonZeroFactor(h.deep, Mul(Mul(p.efficacy, Square(AmplitudeSum(p))), CapacityDenominator(p)),
                          Gap(p.q1, p.q2, p.d1, p.d2));
  }

  /** `(lambda0 + efficacy*eta)*(q1*d2 + q2*d1) + C*(q1+q2) = d1 + d2`: the trace, cleared of denominators. */
  lemma TraceFor(p: Params, h: HeatCapacities)
    requires Reduced(p, h)
    ensures Mul(h.lambda0 + Mul(p.efficacy, h.eta), CapacityDenominator(p)) + Mul(h.upper, AmplitudeSum(p))
         == p.d1 + p.d2
  {
    Algebra.ExchangeTimesDenominator(h.lambda0, AmplitudeSum(p), h.upper, CapacityDenominator(p),
                                     WeightedTimescales(p), h.deep, p.efficacy, h.eta);
    Algebra.TraceNumerator(h.lambda0, h.upper, p.efficacy, h.eta, p.q1, p.q2, p.d1, p.d2);
  }

  lemma RateSumFor(p: Params, h: HeatCapacities)
    requires Reduced(p, h) && h.upper != 0.0 && h.deep != 0.0 && Mul(p.d1, p.d2) != 0.0
    ensures (h.lambda0 + Mul(p.efficacy, h.eta)) / h.upper + h.eta / h.deep == 1.0 / p.d1 + 1.0 / p.d2
  {
    TraceFor(p, h);
    Algebra.DeepRate(h.lambda0, AmplitudeSum(p), CapacityDenominator(p), h.deep, h.eta);
    Algebra.RateSum(h.lambda0, AmplitudeSum(p), h.upper, CapacityDenominator(p), h.deep, p.efficacy, h.eta,
                    p.d1, p.d2);
  }

  /**
   * The converted two-layer system, `C dT/dt = F - lambda0 T - efficacy eta (T - T_D)`
   * and `C_D dT_D/dt = eta (T - T_D)`, has decay rates `1/d1` and `1/d2`:
   * their sum is minus the trace and their product the determinant of its matrix.
   */
  lemma ConversionKeepsTimescales(p: Params, h: HeatCapacities)
    requires Capacities(p) == Ok(h) && p.d1 < p.d2 && Mul(p.d1, p.d2) != 0.0 && Mul(p.q1, p.q2) != 0.0
    ensures h.upper != 0.0 && h.deep != 0.0
    ensures (h.lambda0 + Mul(p.efficacy, h.eta)) / h.upper + h.eta / h.deep == 1.0 / p.d1 + 1.0 / p.d2
    ensures Mul(h.lambda0, h.eta) / Mul(h.upper, h.deep) == 1.0 / Mul(p.d1, p.d2)
  {
    ReducedEquations(p, h);
    NonZeroCapacities(p, h);
    RateSumFor(p, h);
    Algebra.RateProduct(h.lambda0, h.upper, CapacityDenominator(p), h.deep, h.eta, p.d1, p.d2);
  }
}
