/**
 * What a sequence of `set_drivers`, `reset`, `step` and `run` calls
 * guarantees: the first step is the zero state, later steps follow the
 * recurrence, `run` is repeated `step`, outputs stay non-negative under
 * non-negative forcing, and `reset` is repeatable from any state.
 */
module ModelProperties {
  import opened Outcomes
  import opened ImpulseResponse
  import opened Conversion
  import opened Recurrence
  import opened ModelBase
  import Algebra

  /** After `reset`, the first `step` sets index 0 to the zero state and leaves every other slot unset. */
  lemma FirstStep(m: Model, env: Env)
    requires Valid(m) && m.drivers.Some?
    ensures Step(Reset(m), env).Ok?
    ensures var m' := Step(Reset(m), env).value; var o := m'.out.value;
      && m'.index == Some(0) && SetAt(o, 0) && Read(o, 0) == Origin
      && (forall j | 1 <= j < |m.drivers.value| :: o.temp1[j].None? && o.temp2[j].None? && o.rndt[j].None?)
  {
    var r := Reset(m);
    var m' := Step(r, env).value;
    forall j | 1 <= j < |m.drivers.value|
      ensures m'.out.value.temp1[j].None? && m'.out.value.temp2[j].None? && m'.out.value.rndt[j].None?
    {
      assert SameSlot(r.out.value, m'.out.value, j);
    }
  }

  /** `k` steps succeed while slots remain, provided every step after the first can divide by the timescales. */
  lemma {:induction false} StepsSucceed(m: Model, env: Env, k: nat)
    requires Valid(m) && m.out.Some? && Filled(m) + k <= |m.drivers.value|
    requires Filled(m) + k <= 1 || Steppable(m.params)
    ensures StepN(m, env, k).Ok?
    decreases k
  {
    if k > 0 {
      var m' := Step(m, env).value;
      StepsSucceed(m', env, k - 1);
    }
  }

  /**
   * `k` steps from `reset` (at least one, at most the forcing length) bring
   * the index to `k - 1`, and every filled slot holds the reference
   * trajectory: slot 0 is the zero state and slot `i` is the recurrence
   * applied to slot `i - 1` and forcing `i - 1`.
   */
  lemma StepsFromReset(m: Model, env: Env, k: nat)
    requires Valid(m) && m.drivers.Some? && 1 <= k <= |m.drivers.value|
    requires k == 1 || Steppable(m.params)
    ensures StepN(Reset(m), env, k).Ok?
    ensures var m' := StepN(Reset(m), env, k).value;
      m'.index == Some(k - 1) && Tracks(m', env)
  {
    StepsSucceed(Reset(m), env, k);
  }

  /**
   * The recurrence at the last filled slot, read off the stored outputs:
   * after four steps on a forcing of at least four entries the index is 3
   * and slot 3 is the recurrence applied to slot 2 and forcing 2.
   */
  lemma FourSteps(m: Model, env: Env)
    requires Valid(m) && m.drivers.Some? && 4 <= |m.drivers.value| && Steppable(m.params)
    ensures StepN(Reset(m), env, 4).Ok?
    ensures var m' := StepN(Reset(m), env, 4).value; var o := m'.out.value;
      && m'.index == Some(3) && SetAt(o, 2) && SetAt(o, 3)
      && Read(o, 3) == Advance(m.params, env, Read(o, 2), m.drivers.value[2])
  {
    StepsFromReset(m, env, 4);
    var m' := StepN(Reset(m), env, 4).value;
    assert Read(m'.out.value, 2) == Trajectory(m.params, env, m.drivers.value, 2);
    assert Read(m'.out.value, 3) == Trajectory(m.params, env, m.drivers.value, 3);
  }

  /** `run` from any state with allocated outputs is exactly as many `step` calls as there are unfilled slots. */
  lemma {:induction false} RunIsRepeatedStep(m: Model, env: Env)
    requires Valid(m) && m.out.Some?
    ensures Run(m, env) == StepN(m, env, |m.drivers.value| - Filled(m))
    decreases Remaining(m)
  {
    if Filled(m) < |m.drivers.value| {
      match Step(m, env)
      case Err(_) =>
      case Ok(m') => RunIsRepeatedStep(m', env);
    }
  }

  /**
   * `run` after `reset` equals `step` called once per forcing entry, succeeds
   * unless the parameters divide by zero, and leaves in every slot the
   * reference trajectory.
   */
  lemma RunFromReset(m: Model, env: Env)
    requires Valid(m) && m.drivers.Some?
    ensures Run(Reset(m), env) == StepN(Reset(m), env, |m.drivers.value|)
    ensures Run(Reset(m), env).Ok? <==> |m.drivers.value| == 1 || Steppable(m.params)
    ensures Run(Reset(m), env).Ok? ==> var o := Run(Reset(m), env).value.out.value;
      forall j | 0 <= j < |m.drivers.value| ::
        SetAt(o, j) && Read(o, j) == Trajectory(m.params, env, m.drivers.value, j)
  {
    RunIsRepeatedStep(Reset(m), env);
  }

  /** Conditions under which every mode relaxes towards a non-negative equilibrium. */
  ghost predicate NonNegativeSetting(p: Params, env: Env, erf: seq<real>) {
    && DecaysExponentially(env.expNeg)
    && 0.0 <= p.deltaT && 0.0 < p.d1 < p.d2 && 0.0 <= p.q1 && 0.0 <= p.q2
    && (forall k | 0 <= k < |erf| :: 0.0 <= erf[k])
  }

  /** Non-negative forcing keeps both temperatures of the reference trajectory non-negative. */
  lemma {:induction false} TrajectoryNonNegative(p: Params, env: Env, erf: seq<real>, i: nat)
    requires i < |erf| && (i == 0 || Steppable(p)) && NonNegativeSetting(p, env, erf)
    ensures 0.0 <= Trajectory(p, env, erf, i).temp1 && 0.0 <= Trajectory(p, env, erf, i).temp2
  {
    if i > 0 {
      TrajectoryNonNegative(p, env, erf, i - 1);
      var s := Trajectory(p, env, erf, i - 1);
      var f := erf[i - 1];
      NextTempNonNegative(env.expNeg, p.deltaT, s.temp1, p.q1, p.d1, f);
      NextTempNonNegative(env.expNeg, p.deltaT, s.temp2, p.q2, p.d2, f);
    }
  }

  /** A non-negative temperature relaxing towards a non-negative equilibrium stays non-negative. */
  lemma NextTempNonNegative(expNeg: real -> real, dt: real, t: real, q: real, d: real, f: real)
    requires DecaysExponentially(expNeg) && 0.0 <= dt && 0.0 < d && 0.0 <= t && 0.0 <= q && 0.0 <= f
    ensures 0.0 <= NextTemp(expNeg, dt, t, q, d, f)
  {
    Algebra.NonNegativeQuotient(dt, d);
    Algebra.NonNegativeProduct(f, q);
  }

  /** A run from `reset` on non-negative forcing leaves both temperature series set and non-negative. */
  lemma RunStaysNonNegative(m: Model, env: Env)
    requires Valid(m) && m.drivers.Some? && (|m.drivers.value| == 1 || Steppable(m.params))
    requires NonNegativeSetting(m.params, env, m.drivers.value)
    ensures Run(Reset(m), env).Ok?
    ensures var o := Run(Reset(m), env).value.out.value;
      forall j | 0 <= j < |m.drivers.value| ::
        && o.temp1[j].Some? && 0.0 <= o.temp1[j].value
        && o.temp2[j].Some? && 0.0 <= o.temp2[j].value
  {
    RunFromReset(m, env);
    var o := Run(Reset(m), env).value.out.value;
    forall j | 0 <= j < |m.drivers.value|
      ensures o.temp1[j].Some? && 0.0 <= o.temp1[j].value && o.temp2[j].Some? && 0.0 <= o.temp2[j].value
    {
      TrajectoryNonNegative(m.params, env, m.drivers.value, j);
    }
  }

  /** `reset` after a completed `run` gives the same state as `reset` before it. */
  lemma ResetAfterRun(m: Model, env: Env)
    requires Valid(m)
    ensures Run(m, env).Ok? ==> Reset(Run(m, env).value) == Reset(m)
  {
  }

  /** `reset` is idempotent. */
  lemma ResetTwice(m: Model)
    ensures Reset(Reset(m)) == Reset(m)
  {
  }

  /**
   * The equilibrium of a constant forcing `f` (temperatures `f*q1`, `f*q2`)
   * is a fixed point of the recurrence with zero heat uptake, at unit
   * efficacy or, for any efficacy, when the modal weights are balanced.
   */
  lemma Equilibrium(p: Params, env: Env, f: real, rndt: real)
    requires Steppable(p) && (p.efficacy == 1.0 || BalancedWeights(p, env))
    ensures Advance(p, env, Sample(f * p.q1, f * p.q2, rndt), f) == Sample(f * p.q1, f * p.q2, 0.0)
  {
    EquilibriumImbalance(p, env, f);
  }

  /** At the equilibrium of a constant forcing the heat uptake vanishes, under the same conditions. */
  lemma EquilibriumImbalance(p: Params, env: Env, f: real)
    requires Capacities(p).Ok? && (p.efficacy == 1.0 || BalancedWeights(p, env))
    ensures NextRndt(p, env, f * p.q1, f * p.q2, f, p.efficacy) == 0.0
  {
    ZeroImbalance(p, env, f * p.q1, f * p.q2, f);
    Algebra.Distribute(f, p.q1, p.q2);
    if p.efficacy != 1.0 {
      BalancedEquilibrium(p, env, f);
      CorrectionShift(p, env, f * p.q1, f * p.q2, f, p.efficacy);
    }
  }

  /** Warmer previous temperatures give warmer next temperatures. */
  lemma NextTempMonotone(expNeg: real -> real, dt: real, t: real, t': real, q: real, d: real, f: real)
    requires d != 0.0 && DecaysExponentially(expNeg) && 0.0 <= dt / d && t <= t'
    ensures NextTemp(expNeg, dt, t, q, d, f) <= NextTemp(expNeg, dt, t', q, d, f)
  {
    var e := expNeg(dt / d);
    assert 0.0 < e;
    assert NextTemp(expNeg, dt, t', q, d, f) - NextTemp(expNeg, dt, t, q, d, f) == (t' - t) * e;
    Algebra.NonNegativeProduct(t' - t, e);
  }
}
