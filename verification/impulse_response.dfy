/** The parameters of the impulse-response (two exponential modes) form of the model. */
module ImpulseResponse {
  import opened Outcomes

  /**
   * Response amplitudes `q1`, `q2` (temperature per unit forcing), response
   * timescales `d1`, `d2` (time), deep-ocean `efficacy` (dimensionless) and
   * the timestep `deltaT` (time). All are plain magnitudes in the model's
   * canonical units.
   */
  datatype Params = Params(q1: real, q2: real, d1: real, d2: real, efficacy: real, deltaT: real)

  /** Construction-time validation: the short timescale must be `d1`. */
  function MakeParams(q1: real, q2: real, d1: real, d2: real, efficacy: real, deltaT: real): (r: Result<Params>)
    ensures r.Ok? <==> d1 < d2
    ensures r.Err? ==> r.error == BackwardsTimescales
    ensures r.Ok? ==> r.value.q1 == q1 && r.value.q2 == q2 && r.value.d1 == d1 && r.value.d2 == d2
    ensures r.Ok? ==> r.value.efficacy == efficacy && r.value.deltaT == deltaT
  {
    if d1 < d2 then Ok(Params(q1, q2, d1, d2, efficacy, deltaT)) else Err(BackwardsTimescales)
  }
}
