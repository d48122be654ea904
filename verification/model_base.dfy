/**
 * The run-state machine of the impulse-response model: parameters fixed at
 * construction, a forcing series bound by `set_drivers`, three output series
 * allocated by `reset`, and a timestep index advanced by `step` and `run`.
 * Each operation returns the new state; a failure returns the error and the
 * caller keeps the state it had.
 */
module ModelBase {
  import opened Outcomes
  import opened ImpulseResponse
  import opened Recurrence

  /** One output entry: `None` is the not-a-number "not computed yet" marker. */
  type Slot = Option<real>

  /** Upper-mode temperature, lower-mode temperature and heat uptake, one slot per forcing index. */
  datatype Outputs = Outputs(temp1: seq<Slot>, temp2: seq<Slot>, rndt: seq<Slot>)

  /**
   * The whole model state. `drivers` is unset until bound, `out` unset until
   * the first `reset`, and `index` unset when no run is in progress.
   */
  datatype Model = Model(params: Params, drivers: Option<seq<real>>, out: Option<Outputs>, index: Option<nat>)

  /** The number of leading output slots already computed. */
  function Filled(m: Model): nat {
    if m.index.None? then 0 else m.index.value + 1
  }

  predicate Shaped(o: Outputs, n: nat) {
    |o.temp1| == n && |o.temp2| == n && |o.rndt| == n
  }

  /** Exactly the first `k` slots of every output series are set. */
  predicate FilledPrefix(o: Outputs, k: nat) {
    && (forall j | 0 <= j < |o.temp1| :: o.temp1[j].Some? <==> j < k)
    && (forall j | 0 <= j < |o.temp2| :: o.temp2[j].Some? <==> j < k)
    && (forall j | 0 <= j < |o.rndt| :: o.rndt[j].Some? <==> j < k)
  }

  /**
   * The state invariant: ordered timescales, a non-empty forcing series,
   * outputs as long as the forcing and filled up to the index, and an index
   * inside the forcing series.
   */
  predicate Valid(m: Model) {
    && m.params.d1 < m.params.d2
    && (m.drivers.Some? ==> |m.drivers.value| > 0)
    && (m.out.Some? ==> m.drivers.Some? && Shaped(m.out.value, |m.drivers.value|)
                        && FilledPrefix(m.out.value, Filled(m)))
    && (m.index.Some? ==> m.out.Some? && m.index.value < |m.drivers.value|)
  }

  /** Output series of length `n` with every slot unset. */
  function Unset(n: nat): (o: Outputs)
    ensures Shaped(o, n) && FilledPrefix(o, 0)
  {
    var blank := seq(n, _ => None);
    Outputs(blank, blank, blank)
  }

  /**
   * Construction: the parameters are stored as given, forcing, outputs and
   * index start unset; the long timescale in `d1` is rejected.
   */
  function Create(q1: real, q2: real, d1: real, d2: real, efficacy: real, deltaT: real): (r: Result<Model>)
    ensures r.Ok? <==> d1 < d2
    ensures r.Err? ==> r.error == BackwardsTimescales
    ensures r.Ok? ==> var m := r.value;
      && Valid(m)
      && m.params.q1 == q1 && m.params.q2 == q2 && m.params.d1 == d1 && m.params.d2 == d2
      && m.params.efficacy == efficacy && m.params.deltaT == deltaT
      && m.drivers.None? && m.out.None? && m.index.None?
  {
    match MakeParams(q1, q2, d1, d2, efficacy, deltaT)
    case Err(e) => Err(e)
    case Ok(p) => Ok(Model(p, None, None, None))
  }

  /**
   * `set_drivers`: binds a non-empty forcing series. Outputs and index from a
   * previous series are discarded, so stepping needs a fresh `reset`.
   */
  function SetDrivers(m: Model, erf: seq<real>): (r: Result<Model>)
    ensures r.Ok? <==> |erf| > 0
    ensures r.Err? ==> r.error == EmptyDrivers
    ensures r.Ok? ==> var m' := r.value;
      && m'.params == m.params && m'.drivers == Some(erf) && m'.out.None? && m'.index.None?
      && (Valid(m) ==> Valid(m'))
  {
    if |erf| == 0 then Err(EmptyDrivers) else Ok(m.(drivers := Some(erf), out := None, index := None))
  }

  /**
   * `reset`: from any state, outputs of the forcing's length with every slot
   * unset, and no timestep in progress. Without forcing there is nothing to
   * allocate.
   */
  function Reset(m: Model): (r: Model)
    ensures r.params == m.params && r.drivers == m.drivers && r.index.None?
    ensures r.out.Some? <==> m.drivers.Some?
    ensures r.out.Some? ==> var o := r.out.value;
      && Shaped(o, |m.drivers.value|)
      && (forall j | 0 <= j < |m.drivers.value| :: o.temp1[j].None? && o.temp2[j].None? && o.rndt[j].None?)
    ensures Valid(m) ==> Valid(r)
  {
    match m.drivers
    case None => m.(out := None, index := None)
    case Some(erf) => m.(out := Some(Unset(|erf|)), index := None)
  }

  /** Slot `j` holds the same entries in both output sets. */
  predicate SameSlot(o: Outputs, o': Outputs, j: nat)
    requires j < |o.temp1| && j < |o.temp2| && j < |o.rndt|
    requires j < |o'.temp1| && j < |o'.temp2| && j < |o'.rndt|
  {
    o'.temp1[j] == o.temp1[j] && o'.temp2[j] == o.temp2[j] && o'.rndt[j] == o.rndt[j]
  }

  predicate SetAt(o: Outputs, j: nat) {
    && j < |o.temp1| && j < |o.temp2| && j < |o.rndt|
    && o.temp1[j].Some? && o.temp2[j].Some? && o.rndt[j].Some?
  }

  /** The sample stored at a set slot. */
  function Read(o: Outputs, j: nat): Sample
    requires SetAt(o, j)
  {
    Sample(o.temp1[j].value, o.temp2[j].value, o.rndt[j].value)
  }

  /** The outputs with slot `i` of every series set from `s`; every other slot is kept. */
  function Put(o: Outputs, i: nat, s: Sample): (r: Outputs)
    requires i < |o.temp1| && i < |o.temp2| && i < |o.rndt|
    ensures |r.temp1| == |o.temp1| && |r.temp2| == |o.temp2| && |r.rndt| == |o.rndt|
    ensures SetAt(r, i) && Read(r, i) == s
    ensures forall j | 0 <= j < |o.temp1| && j < |o.temp2| && j < |o.rndt| && j != i :: SameSlot(o, r, j)
    ensures FilledPrefix(o, i) ==> FilledPrefix(r, i + 1)
  {
    Outputs(o.temp1[i := Some(s.temp1)], o.temp2[i := Some(s.temp2)], o.rndt[i := Some(s.rndt)])
  }

  /** The state with the next slot of every output series set from `s` and the index moved onto it. */
  function Fill(m: Model, s: Sample): (r: Model)
    requires Valid(m) && m.out.Some? && Filled(m) < |m.drivers.value|
    ensures r.out.Some? && Valid(r) && r.params == m.params && r.drivers == m.drivers
    ensures r.index == Some(Filled(m)) && Filled(r) == Filled(m) + 1
    ensures SetAt(r.out.value, Filled(m)) && Read(r.out.value, Filled(m)) == s
    ensures forall j | 0 <= j < |m.drivers.value| && j != Filled(m) :: SameSlot(m.out.value, r.out.value, j)
  {
    m.(out := Some(Put(m.out.value, Filled(m), s)), index := Some(Filled(m)))
  }

  /**
   * `step`: fills the next slot. The first step writes the zero state at
   * index 0; every later one applies the recurrence to the previous slot
   * and the previous forcing. Stepping needs bound forcing and allocated
   * outputs, and fails once every slot is filled.
   */
  function Step(m: Model, env: Env): (r: Result<Model>)
    requires Valid(m)
    ensures m.drivers.None? ==> r == Err(DriversNotSet)
    ensures m.drivers.Some? && m.out.None? ==> r == Err(NotReset)
    ensures m.out.Some? && Filled(m) == |m.drivers.value| ==> r == Err(AlreadyComplete)
    ensures r.Ok? <==> m.drivers.Some? && m.out.Some? && Filled(m) < |m.drivers.value|
                       && (Filled(m) == 0 || Steppable(m.params))
    ensures r.Err? ==> r.error in {DriversNotSet, NotReset, AlreadyComplete, DivisionByZero}
    ensures r.Ok? ==> r.value.out.Some?
    ensures r.Ok? ==> var m' := r.value; var i := Filled(m); var o := m.out.value; var o' := m'.out.value;
      && Valid(m') && m'.params == m.params && m'.drivers == m.drivers
      && m'.index == Some(i) && Filled(m') == i + 1
      && SetAt(o', i)
      && (i == 0 ==> Read(o', i) == Origin)
      && (i > 0 ==> SetAt(o, i - 1)
                    && Read(o', i) == Advance(m.params, env, Read(o, i - 1), m.drivers.value[i - 1]))
      && (forall j | 0 <= j < |m.drivers.value| && j != i :: SameSlot(o, o', j))
  {
    if m.drivers.None? then Err(DriversNotSet)
    else if m.out.None? then Err(NotReset)
    else
      var erf := m.drivers.value;
      var o := m.out.value;
      var i := Filled(m);
      if i == |erf| then Err(AlreadyComplete)
      else if i == 0 then Ok(Fill(m, Origin))
      else if !Steppable(m.params) then Err(DivisionByZero)
      else
        assert SetAt(o, i - 1);
        Ok(Fill(m, Advance(m.params, env, Read(o, i - 1), erf[i - 1])))
  }

  /**
   * The reference trajectory: the samples a run produces, defined directly
   * from the forcing rather than from the stored outputs.
   */
  function Trajectory(p: Params, env: Env, erf: seq<real>, i: nat): Sample
    requires i < |erf| && (i == 0 || Steppable(p))
  {
    if i == 0 then Origin else Advance(p, env, Trajectory(p, env, erf, i - 1), erf[i - 1])
  }

  /** Every filled slot of the outputs holds the reference trajectory. */
  predicate Tracks(m: Model, env: Env) {
    && Valid(m) && m.out.Some?
    && (Filled(m) <= 1 || Steppable(m.params))
    && (forall j | 0 <= j < Filled(m) :: Read(m.out.value, j) == Trajectory(m.params, env, m.drivers.value, j))
  }

  /** Slots not yet filled. */
  function Remaining(m: Model): nat
    requires Valid(m)
  {
    if m.drivers.None? then 0 else |m.drivers.value| - Filled(m)
  }

  /** `k` consecutive calls of `step`, stopping at the first failure. */
  function StepN(m: Model, env: Env, k: nat): (r: Result<Model>)
    requires Valid(m)
    ensures r.Ok? ==> var m' := r.value;
      && Valid(m') && m'.params == m.params && m'.drivers == m.drivers && Filled(m') == Filled(m) + k
      && (k > 0 ==> m'.index == Some(Filled(m) + k - 1))
      && (Tracks(m, env) ==> Tracks(m', env))
    decreases k
  {
    if k == 0 then Ok(m)
    else
      match Step(m, env)
      case Err(e) => Err(e)
      case Ok(m') =>
        StepTracks(m, env);
        StepN(m', env, k - 1)
  }

  /** `step` extends an output that follows the reference trajectory by the trajectory's next sample. */
  lemma StepTracks(m: Model, env: Env)
    requires Valid(m)
    ensures Step(m, env).Ok? && Tracks(m, env) ==> Tracks(Step(m, env).value, env)
  {
    var r := Step(m, env);
    if r.Ok? && Tracks(m, env) {
      var m' := r.value;
      var i := Filled(m);
      var erf := m.drivers.value;
      forall j | 0 <= j < Filled(m')
        ensures Read(m'.out.value, j) == Trajectory(m'.params, env, erf, j)
      {
        if j < i {
          assert SameSlot(m.out.value, m'.out.value, j);
        }
      }
    }
  }

  /**
   * `run`: steps until every slot is filled. Forcing must be bound and the
   * outputs allocated; the only failure part-way is a parameter set that
   * divides by zero.
   */
  function Run(m: Model, env: Env): (r: Result<Model>)
    requires Valid(m)
    ensures m.drivers.None? ==> r == Err(DriversNotSet)
    ensures m.drivers.Some? && m.out.None? ==> r == Err(NotReset)
    ensures r.Ok? <==> m.drivers.Some? && m.out.Some?
                       && (Filled(m) == |m.drivers.value| || |m.drivers.value| == 1 || Steppable(m.params))
    ensures r.Err? ==> r.error in {DriversNotSet, NotReset, DivisionByZero}
    ensures r.Ok? ==> var m' := r.value;
      && Valid(m') && m'.params == m.params && m'.drivers == m.drivers
      && Filled(m') == |m.drivers.value| && m'.index == Some(|m.drivers.value| - 1)
      && (Tracks(m, env) ==> Tracks(m', env))
    decreases Remaining(m)
  {
    if m.drivers.None? then Err(DriversNotSet)
    else if m.out.None? then Err(NotReset)
    else if Filled(m) == |m.drivers.value| then Ok(m)
    else
      match Step(m, env)
      case Err(e) => Err(e)
      case Ok(m') =>
        StepTracks(m, env);
        Run(m', env)
  }
}
