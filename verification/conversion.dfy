/**
 * Conversion from the impulse-response parameterisation to the physical
 * two-layer parameterisation (upper layer of heat capacity `C`, deep layer of
 * heat capacity `C_D`, feedback `lambda0`, exchange coefficient `eta`).
 */
module Conversion {
  import opened Outcomes
  import opened ImpulseResponse
  import Algebra

  /** Density and specific heat capacity of water, fixed positive constants of the program. */
  datatype Water = Water(density: real, heatCapacity: real)

  predicate PositiveWater(w: Water) {
    w.density > 0.0 && w.heatCapacity > 0.0
  }

  /** Intermediate quantities of the conversion: modal weights `a1`, `a2` and the heat capacities. */
  datatype HeatCapacities = HeatCapacities(lambda0: real, a1: real, a2: real, upper: real, deep: real, eta: real)

  /** The physical parameters handed to a two-layer model. */
  datatype TwoLayerParams = TwoLayerParams(lambda0: real, du: real, dl: real, eta: real, efficacy: real)

  /** The equilibrium warming per unit forcing, `q1 + q2`. */
  function AmplitudeSum(p: Params): real {
    Algebra.Sum(p.q1, p.q2)
  }

  /** The amplitude-weighted sum of the timescales, `d1*q1 + d2*q2`. */
  function WeightedTimescales(p: Params): real {
    Algebra.Weighted(p.q1, p.q2, p.d1, p.d2)
  }

  /** The denominator `q1*d2 + q2*d1` of the upper-layer heat capacity. */
  function CapacityDenominator(p: Params): real {
    Algebra.Crossed(p.q1, p.q2, p.d1, p.d2)
  }

  /** The conversion divides by `q1 + q2`, `q1*d2 + q2*d1` and `efficacy`. */
  predicate Convertible(p: Params) {
    AmplitudeSum(p) != 0.0 && CapacityDenominator(p) != 0.0 && p.efficacy != 0.0
  }

  /** Net feedback `lambda0 = 1/(q1+q2)`. */
  function Feedback(p: Params): (r: real)
    requires AmplitudeSum(p) != 0.0
    ensures r * AmplitudeSum(p) == 1.0
  {
    Algebra.DivideThenMultiply(1.0, AmplitudeSum(p));
    1.0 / AmplitudeSum(p)
  }

  /** Upper-layer heat capacity `C = d1*d2/(q1*d2 + q2*d1)`. */
  function UpperCapacity(p: Params): (r: real)
    requires CapacityDenominator(p) != 0.0
    ensures r * CapacityDenominator(p) == p.d1 * p.d2
  {
    Algebra.DivideThenMultiply(p.d1 * p.d2, CapacityDenominator(p));
    (p.d1 * p.d2) / CapacityDenominator(p)
  }

  /** Deep-layer heat capacity `C_D = (lambda0*(d1*a1 + d2*a2) - C)/efficacy`. */
  function DeepCapacity(p: Params): (r: real)
    requires Convertible(p)
    ensures var k := Feedback(p);
      r * p.efficacy == k * (p.d1 * (k * p.q1) + p.d2 * (k * p.q2)) - UpperCapacity(p)
  {
    var k := Feedback(p);
    var x := k * (p.d1 * (k * p.q1) + p.d2 * (k * p.q2)) - UpperCapacity(p);
    Algebra.DivideThenMultiply(x, p.efficacy);
    x / p.efficacy
  }

  /** Heat-exchange coefficient `eta = C_D/(d1*a2 + d2*a1)`; the denominator is `lambda0` times `q1*d2 + q2*d1`. */
  function Exchange(p: Params): (r: real)
    requires Convertible(p)
    ensures var k := Feedback(p);
      && p.d1 * (k * p.q2) + p.d2 * (k * p.q1) == k * CapacityDenominator(p)
      && r * (k * CapacityDenominator(p)) == DeepCapacity(p)
  {
    var k := Feedback(p);
    Algebra.MixedWeights(k, p.q1, p.q2, p.d1, p.d2);
    Algebra.NonZeroProduct(k, CapacityDenominator(p));
    var mix := p.d1 * (k * p.q2) + p.d2 * (k * p.q1);
    Algebra.DivideThenMultiply(DeepCapacity(p), mix);
    DeepCapacity(p) / mix
  }

  /** The heat capacities equivalent to `p`; a vanishing denominator is a division-by-zero failure. */
  function Capacities(p: Params): (r: Result<HeatCapacities>)
    ensures r.Ok? <==> Convertible(p)
    ensures r.Err? ==> r.error == DivisionByZero
    ensures r.Ok? ==> r.value.a1 + r.value.a2 == 1.0
  {
    if !Convertible(p) then Err(DivisionByZero)
    else
      var k := Feedback(p);
      Algebra.Distribute(k, p.q1, p.q2);
      Ok(HeatCapacities(k, k * p.q1, k * p.q2, UpperCapacity(p), DeepCapacity(p), Exchange(p)))
  }

  /** The two-layer parameters equivalent to `p`: heat capacities become layer depths of water. */
  function TwoLayerParameters(p: Params, w: Water): (r: Result<TwoLayerParams>)
    requires PositiveWater(w)
    ensures r.Ok? <==> Capacities(p).Ok?
    ensures r.Err? ==> r.error == DivisionByZero
    ensures r.Ok? ==> r.value.efficacy == p.efficacy
    ensures r.Ok? ==> var h := Capacities(p).value;
      && r.value.lambda0 == h.lambda0
      && r.value.eta == h.eta
      && r.value.du * (w.density * w.heatCapacity) == h.upper
      && r.value.dl * (w.density * w.heatCapacity) == h.deep
  {
    match Capacities(p)
    case Err(e) => Err(e)
    case Ok(h) =>
      var rho := w.density * w.heatCapacity;
      Ok(TwoLayerParams(h.lambda0, h.upper / rho, h.deep / rho, h.eta, p.efficacy))
  }
}
