# Impulse-response climate model, in Dafny

This project models the core of `ImpulseResponseModel` from
openscm-twolayermodel. That is the two-timescale impulse-response form of a
simple energy-balance climate model.

Global-mean temperature is split into two response modes. Each mode relaxes
exponentially, over its own timescale (`d1` short, `d2` long), towards an
equilibrium proportional to the radiative forcing. The mode's amplitude
(`q1`, `q2`) sets that proportion. Heat uptake at the top of the atmosphere
(`rndt`) is the forcing, less the feedback on the summed temperatures, less a
deep-ocean efficacy correction.

The model has a run-state lifecycle:
- construct it with fixed parameters;
- bind a forcing series (`set_drivers`);
- allocate "not yet computed" outputs (`reset`);
- fill them one forcing index at a time (`step`), or all at once (`run`).

The parameters also convert to the equivalent two-layer model. That model has
an upper layer of heat capacity `C` and a deep layer of heat capacity `C_D`. It
also has a feedback `lambda0` and an exchange coefficient `eta`.

Modules:
- `Outcomes` (`outcomes.dfy`): `Option` and `Result` wrappers, and the error conditions.
- `ImpulseResponse` (`impulse_response.dfy`): the parameter record and its construction-time check.
- `Algebra` (`algebra.dfy`): facts of real arithmetic used by the conversion proofs.
  - Products in its contracts are written with the named multiplication `Mul`.
- `Conversion` (`conversion.dfy`): the conversion to heat capacities and two-layer parameters.
- `ConversionProperties` (`conversion_properties.dfy`): covers four things.
  - The defining equations of the conversion, and the uniqueness of their solution.
  - Closed forms of `C_D` and `eta`.
  - Positivity of the results for physical inputs.
  - The converted two-layer system keeps both timescales.
- `Recurrence` (`recurrence.dfy`): the two primitives `next_temp` and `next_rndt`, and one step of the recurrence.
- `ModelBase` (`model_base.dfy`): the state machine — `Create`, `SetDrivers`, `Reset`, `Step`, `Run`.
- `ModelProperties` (`model_properties.dfy`): how sequences of those operations behave.

How the model treats the source's runtime details:
- A not-a-number output entry or index becomes `None`.
- Every operation returns a new state. A failure returns an error and leaves the caller's state as it was.
- `exp(-x)` is a parameter, `Env.expNeg`. The one property assumed of it is that it lies in `(0, 1]` for `x >= 0` (`DecaysExponentially`).
- The modal weights `phi1` and `phi2` are inputs (`Env.phi1`, `Env.phi2`).
- Python's `ZeroDivisionError` becomes `Err(DivisionByZero)`. The conversion raises it when `q1 + q2`, `q1*d2 + q2*d1` or `efficacy` vanish. Stepping past the first slot also fails with it for a zero timescale or a zero amplitude. A zero amplitude leaves the two-layer system with no deep layer (`C_D == 0`, `eta == 0`), and the eigen-decomposition that gives `phi1`, `phi2` divides by both (`Steppable`, `DeepLayerNeedsAmplitudes`).

## Model

| member | source | states |
|---|---|---|
| `ImpulseResponse.MakeParams` | tests/unit/test_impulse_response_unit.py:44-49 | Construction succeeds exactly when `d1 < d2`. Otherwise it fails with the backwards-timescales error. On success every parameter is stored unchanged. |
| `ModelBase.Create` | tests/unit/test_impulse_response_unit.py:24-42 | A new model stores every parameter as given, leaves forcing, outputs and index unset, and satisfies the state invariant. It fails, with the backwards-timescales error, exactly when `d1 >= d2`. |
| `ModelBase.SetDrivers` | tests/unit/test_impulse_response_unit.py:141-144 | Binding a forcing series succeeds exactly when the series is non-empty, and fails with `EmptyDrivers` otherwise. It keeps the parameters, stores the series, and clears outputs and index. It preserves the state invariant. |
| `ModelBase.Reset` | tests/unit/test_impulse_response_unit.py:190-205 | After `reset` the index is unset. Outputs exist exactly when forcing is bound. Each of the three series has the forcing's length, with every entry unset. Parameters and forcing are unchanged, and the invariant is preserved. |
| `ModelBase.Step` | tests/unit/test_impulse_response_unit.py:139-188 | Stepping fails with a distinct error when there is no forcing, no reset, or no slot left. It succeeds exactly when a slot remains and either this is the first step or the parameters are steppable: convertible, with non-zero timescales and amplitudes. The first step only writes zeros, so it never divides. It fills slot `Filled(m)` and moves the index onto it. The first slot is the zero state; a later slot is `Recurrence.Advance` of the previous slot and the previous forcing: `next_temp` for each mode and `next_rndt` for the heat uptake. Every other slot is unchanged. |
| `ModelBase.StepTracks` | tests/unit/test_impulse_response_unit.py:158-188 | A step on outputs that follow the reference trajectory (`Trajectory`, defined from the forcing alone) extends them by the trajectory's next sample. |
| `ModelBase.Run` | tests/unit/test_impulse_response_unit.py:207-230 | `run` fails only without forcing, without reset, or, with more than one forcing entry, on parameters that are not steppable. On success every slot is filled, the index is on the last slot, and outputs that followed the reference trajectory still do. |
| `ModelProperties.FirstStep` | tests/unit/test_impulse_response_unit.py:143-151 | The first `step` after `reset` succeeds and sets index 0 to temperatures and heat uptake of exactly zero. Every later slot stays unset. |
| `ModelProperties.StepsSucceed` | tests/unit/test_impulse_response_unit.py:147-156 | `k` steps succeed as long as `k` slots remain and the parameters can divide. |
| `ModelProperties.StepsFromReset` | tests/unit/test_impulse_response_unit.py:145-156 | `k` steps from `reset` leave the index at `k - 1`. Every filled slot holds the reference trajectory. |
| `ModelProperties.FourSteps` | tests/unit/test_impulse_response_unit.py:153-188 | After four steps the index is 3. The stored slot 3 is the recurrence applied to the stored slot 2 and forcing entry 2. |
| `ModelProperties.RunIsRepeatedStep` | tests/unit/test_impulse_response_unit.py:218-230 | `run` from any state with outputs equals one `step` per unfilled slot. |
| `ModelProperties.RunFromReset` | tests/unit/test_impulse_response_unit.py:218-230 | `run` after `reset` equals one `step` per forcing entry. It succeeds exactly when the forcing has one entry or the parameters can divide. Then every slot holds the reference trajectory. |
| `ModelProperties.TrajectoryNonNegative` | tests/unit/test_impulse_response_unit.py:223-229 | Non-negative forcing, amplitudes and timestep give non-negative temperatures of both modes at every index of the reference trajectory. |
| `ModelProperties.NextTempNonNegative` | tests/unit/test_impulse_response_unit.py:58-62 | Relaxing a non-negative temperature towards a non-negative equilibrium gives a non-negative temperature. |
| `ModelProperties.RunStaysNonNegative` | tests/unit/test_impulse_response_unit.py:218-229 | A `run` from `reset` on non-negative forcing succeeds when the parameters can divide, or when the forcing has a single entry. It leaves every slot of both temperature series set and non-negative. |
| `ModelProperties.ResetAfterRun` | tests/unit/test_impulse_response_unit.py:227-235 | `reset` after a completed `run` gives the same state as `reset` before it. |
| `ModelProperties.ResetTwice` | tests/unit/test_impulse_response_unit.py:190-205 | `reset` is idempotent. |
| `ModelProperties.Equilibrium` | tests/unit/test_impulse_response_unit.py:58-115 | The equilibrium temperatures `F*q1`, `F*q2` of a constant forcing `F` are a fixed point of one step, and the heat uptake there is zero. This holds at unit efficacy, and at any efficacy when the modal weights are balanced. |
| `ModelProperties.NextTempMonotone` | tests/unit/test_impulse_response_unit.py:58-62 | A warmer previous temperature gives a warmer next temperature. |
| `Recurrence.NextTemp` | tests/unit/test_impulse_response_unit.py:58-62 | For a non-negative step, the next temperature lies between the previous temperature and the equilibrium `F*q`. The equilibrium itself is a fixed point. |
| `Recurrence.EfficacyCorrection` | tests/unit/test_impulse_response_unit.py:102-109 | The deep-ocean efficacy correction `eta*(efficacy-1)*(T - T_D)` vanishes at unit efficacy and when the deep temperature `T_D = phi1*T1 + phi2*T2` equals the surface temperature `T = T1 + T2`. For non-negative `eta` and efficacy at least one it is non-negative while `T_D <= T` and non-positive while `T <= T_D`. |
| `Recurrence.NextRndt` | tests/unit/test_impulse_response_unit.py:111-120 | At unit efficacy, the heat uptake times `q1 + q2` is the forcing times `q1 + q2`, less the summed temperatures. With both temperatures zero it is the forcing. |
| `Recurrence.ZeroImbalance` | tests/unit/test_impulse_response_unit.py:111-115 | At unit efficacy, the heat uptake is zero exactly when the summed temperatures equal `F*(q1+q2)`. |
| `Recurrence.EfficacyEffect` | tests/unit/test_impulse_response_unit.py:102-115 | For physical parameters and efficacy at least one, the heat uptake is at most its unit-efficacy value while the deep layer is no warmer than the surface. Once the deep layer is the warmer one it is at least that value. |
| `Recurrence.DeepLayerNeedsAmplitudes` | tests/unit/test_impulse_response_unit.py:94-109 | For convertible parameters with distinct timescales, the deep-layer heat capacity `C_D` is non-zero exactly when both amplitudes are non-zero. The same holds for the exchange coefficient `eta`. The modal weights' eigen-decomposition divides by both, so stepping requires both amplitudes to be non-zero. |
| `Recurrence.BalancedEquilibrium` | tests/unit/test_impulse_response_unit.py:102-109 | When the modal weights are balanced (`(1-phi1)*q1 + (1-phi2)*q2 == 0`), the deep layer is as warm as the surface at the equilibrium of every constant forcing. Conversely, equal temperatures at the equilibrium of one non-zero forcing make the weights balanced. |
| `Conversion.Capacities` | tests/unit/test_impulse_response_unit.py:250-260 | The conversion succeeds exactly when `q1 + q2`, `q1*d2 + q2*d1` and `efficacy` are non-zero, and fails with `DivisionByZero` otherwise. The modal weights `a1`, `a2` sum to one. |
| `Conversion.TwoLayerParameters` | tests/unit/test_impulse_response_unit.py:262-272 | The two-layer parameters exist exactly when the heat capacities do. `lambda0`, `eta` and `efficacy` are carried over. The depths `du`, `dl` times `density*heatCapacity` of water are `C` and `C_D`. |
| `ConversionProperties.CapacityEquations` | tests/unit/test_impulse_response_unit.py:250-260 | The result satisfies the conversion's defining equations, with divisions multiplied out: `lambda0 = 1/(q1+q2)`, `a_i = lambda0*q_i`, `C = d1*d2/(q1*d2+q2*d1)`, `C_D = (lambda0*(d1*a1+d2*a2) - C)/efficacy` and `eta = C_D/(d1*a2+d2*a1)`. |
| `ConversionProperties.SolutionUnique` | tests/unit/test_impulse_response_unit.py:250-260 | Two solutions of the defining equations for convertible parameters are equal. |
| `ConversionProperties.CapacitiesCharacterised` | tests/unit/test_impulse_response_unit.py:250-260 | The conversion yields `h` exactly when the parameters are convertible and `h` solves the defining equations. |
| `ConversionProperties.DeepCapacityClosedForm` | tests/unit/test_impulse_response_unit.py:259 | `C_D * efficacy * (q1+q2)^2 * (q1*d2+q2*d1) = q1*q2*(d1-d2)^2`. |
| `ConversionProperties.ExchangeClosedForm` | tests/unit/test_impulse_response_unit.py:260 | `eta * efficacy * (q1+q2) * (q1*d2+q2*d1)^2 = q1*q2*(d1-d2)^2`. |
| `ConversionProperties.PhysicalCapacities` | tests/unit/test_impulse_response_unit.py:250-260 | For positive amplitudes, positive ordered timescales and positive efficacy, `lambda0`, `C`, `C_D` and `eta` are positive. The modal weights lie strictly between 0 and 1. |
| `ConversionProperties.PhysicalConversion` | tests/unit/test_impulse_response_unit.py:237-272 | Physical parameters and positive water constants convert to two-layer parameters with positive `lambda0`, `du`, `dl` and `eta`, and the same efficacy. |
| `ConversionProperties.ConversionKeepsTimescales` | tests/unit/test_impulse_response_unit.py:274-277 | The converted system `C dT/dt = F - lambda0 T - efficacy eta (T - T_D)`, `C_D dT_D/dt = eta (T - T_D)` decays at rates `1/d1` and `1/d2`. Their sum equals minus the trace of its matrix, and their product equals the determinant. This is why the inverse conversion recovers `d1` and `d2`. |

## Left out

- Units (pint quantities) and unit checks are left out. Every quantity is a plain real magnitude in the model's canonical units.
- Floating point is left out; arithmetic is exact over the reals. The source compares with `assert_equal` and `assert_allclose`; the model proves equalities.
- `exp` is a parameter, `Env.expNeg`. Only its range on non-negative arguments is assumed.
- The modal weights `phi1` and `phi2` come from the two-layer eigen-decomposition, which needs a square root. They are inputs.
- Balanced modal weights are a hypothesis, not derived (`Recurrence.BalancedWeights`). The modal weights come from the eigen-decomposition, which needs a square root, so the model cannot show that the program's weights are balanced. `Equilibrium` at efficacy other than one assumes them.
- The inverse conversion `get_impulse_response_parameters` is not modelled, and neither is the helper that computes `phi1`, `phi2`. Both need square roots. `ConversionKeepsTimescales` states the relation they rely on.
- `ConversionProperties.ConversionKeepsTimescales`: proves that the sum and the product of the two decay rates match `1/d1` and `1/d2`. It does not prove the full round trip back to `q1`, `q2`, `d1`, `d2`, for the reason above.
- `Recurrence.NextRndt`: the contract states the unit-efficacy and zero-temperature cases. The general formula is the body, named through `EfficacyCorrection`. `EfficacyEffect` states how the efficacy enters.
- The values of the density and specific heat capacity of water are not part of this model. They are only required to be positive.
- The constructor's default parameter values and default timestep are not part of this model.
- Construction rejects `d1 == d2` as well as `d1 > d2`. The source (tests/unit/test_impulse_response_unit.py:44-49) shows only the `d1 > d2` case, with the message 'The short-timescale must be d1'.
- Re-binding forcing with `set_drivers` is allowed. It discards any outputs and index, so a fresh `reset` is needed before stepping.
- Stepping with forcing bound but before any `reset` fails with `NotReset`. In the source, the unset outputs would make indexing fail.
- Heat uptake is not shown to be non-negative after a run. It is not in general: it turns negative once temperatures overshoot a falling forcing.
- The test class's shared parameter set has `d1 = 239` and `d2 = 4.1`, with the long timescale first. The tester base class that uses it is not part of this model.
