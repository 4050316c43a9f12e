# Hodgkin-Huxley simulator: stimulus current model

This project models the discrete part of a Hodgkin-Huxley neuron simulator:
how the injected stimulus current is produced. It does not model the ODE system itself.

- **Pulse sum.** The configured rectangular pulses `(start, end, height)` are paired with
  Python's `zip`. Each pulse adds its height at every sample time inside its closed interval
  `[start, end]`. Overlapping pulses add up.
- **Sample grid.** The stimulus is materialised on the grid `linspace(0, D, N)`. This happens in
  two steps: a pulse matrix with one row per configured start time, then the sum of each column.
- **Index lookup.** The derivative callback turns the solver time `t` into the index
  `int(t * N / D)`. It reads the stimulus vector at that index while the index is below `N`, and
  uses 0 otherwise. This pads the solver's overshoot past the horizon with zero.
- **Initial state.** The integer slider positions become the initial state `(V, m, h, n)`:
  `V` keeps the slider value, and `m`, `h`, `n` are the slider value divided by 10.
- **Example script.** The stand-alone example script's closed-form `input_current` is proved
  equal to the pulse-sum rule for its two pulses.

Everything is pure functions over `real` and `seq<real>`. The two loops of the stimulus
construction are methods with loop invariants. Python's `int()` truncates toward zero and Python
indexing accepts negative indices; both are written out. A zero duration makes the lookup raise
`ZeroDivisionError`, and the model returns a `Failure` value for it rather than using a
precondition.

Modules: `Results` (success/failure wrapper), `Pulses`, `Grid`, `StimulusBuilder`,
`StimulusLookup`, `InitialConditions`, `Simulation` (the start-of-run composition and the
solver-facing current), `ExampleScript`.

The code does not reject a pulse with `end < start`, and it does not reject a zero duration. The
model follows the code: such a pulse simply never covers any time (`InvertedPulsesAreInert`), and
a zero duration fails at every lookup (`ZeroDurationRaises`).

The lookup scales t by N / D, while the grid step is D / (N - 1). So the current the solver is
handed equals the pulse-sum only at grid times other than the last (`SolverSeesPulseSumOnGrid`).
At the last grid time t = D the lookup's index is N and it returns 0 (`FinalGridTimeGetsNoCurrent`).
Between grid times
it is the pulse-sum at a grid time less than one step away (`SolverSeesNearbyPulseSum`). The laws
"zero before every start and after every end" and "disjoint pulses do not mix" hold for the
pulse-sum at every time, but for the injected current only at grid times other than the last
(t = D, where the lookup returns 0). With the example's
pulses the lookup returns 0 at the inclusive ends t = 10 and t = 25 (`LookupMissesInclusiveEnds`).
A pulse starting at 20.01 already drives the solver at t = 20.005 (`InjectedCurrentBeforePulseStart`).

## Model

| member | source | states |
|---|---|---|
| Pulses.Zip | startgui.py:108 | the zipped pulse list has the length of the shortest of the three lists, and pulse k is made of the k-th start, end and height |
| Pulses.ZipIgnoresExtraEntries | startgui.py:108 | entries of the longer lists past the shortest one's length never become pulses |
| Pulses.Contribution | startgui.py:109-112 | a pulse adds its full height at a time its closed interval covers and nothing at any other time; its laws over lists are PulseSumUncovered, InvertedPulsesAreInert and DisjointPair |
| Pulses.PulseSum | startgui.py:108-114 | the current at t, summed over the zipped pulses; its laws are stated by PulseSumAppend, PulseSumPermutation, PulseSumUncovered, OutsideAllPulses, PulseSumBounds and DisjointPair, and BuildStimulus proves the column sum computes it |
| Pulses.PulseSumAppend | startgui.py:108-114 | superposition: the current of two pulse lists together is the sum of their separate currents |
| Pulses.PulseSumPermutation | startgui.py:108-114 | any reordering of the pulses (same multiset) gives the same current at every time |
| Pulses.PulseSumUncovered | startgui.py:109-112 | a time that no pulse's closed interval covers gets current 0 |
| Pulses.OutsideAllPulses | startgui.py:109-114 | the pulse-sum is 0 strictly before every start and strictly after every end |
| Pulses.InvertedPulsesAreInert | startgui.py:109-112 | pulses with end < start contribute nothing: dropping them all leaves the current unchanged at every time |
| Pulses.PulseSumBounds | startgui.py:108-114 | with non-negative heights the current lies between 0 and the total of all heights |
| Pulses.DisjointPair | startgui.py:108-114 | for two disjoint pulses the pulse-sum is the height of whichever covers t (inclusive bounds), else 0 |
| Grid.Linspace | startgui.py:99 | the grid has N points, starts at 0, ends exactly at D when N >= 2, and stays within [0, D] for D >= 0 |
| Grid.LinspacePoint | startgui.py:99 | grid point i satisfies t_i * (N - 1) = i * D |
| Grid.LinspaceStep | startgui.py:99 | consecutive grid points are exactly D / (N - 1) apart |
| Grid.LinspaceIncreasing | startgui.py:99 | for D > 0 the grid is strictly increasing |
| StimulusBuilder.BuildPulseMatrix | startgui.py:106-112 | the matrix has one row of N entries per configured start; row k holds pulse k's height where its closed interval covers the grid time and 0 elsewhere; rows past the zipped length stay zero |
| StimulusBuilder.BuildStimulus | startgui.py:106-114 | the stimulus vector has exactly one entry per grid time, and entry j equals the pulse-sum of the zipped pulses at grid time j |
| StimulusLookup.Trunc | startgui.py:148 | int() truncates toward zero: for x >= 0 the result is the k >= 0 with k <= x < k + 1, and for x < 0 it is the k <= 0 with k - 1 < x <= k |
| StimulusLookup.PyIndex | startgui.py:150 | Python indexing succeeds exactly for -N <= k < N, then returns an element of the vector, and raises IndexError otherwise; LookupBeforeTimeZero shows both branches reached from the lookup |
| StimulusLookup.SampleIndex | startgui.py:148 | the index int(t * N / D); SampleIndexFromBounds states it is the k with k * D <= t * N < (k + 1) * D for D > 0 and t >= 0, and LookupInRange bounds it to [0, N) for 0 <= t < D |
| StimulusLookup.StimulusAt | startgui.py:147-152 | a zero duration raises ZeroDivisionError; any current returned is 0 or an entry of the stimulus vector; the lemmas below state which entry |
| StimulusLookup.LookupFailsOnlyOnZeroDuration | startgui.py:148-152 | for D >= 0 and t >= 0 the lookup raises if and only if D = 0, and the error is ZeroDivisionError |
| StimulusLookup.LookupInRange | startgui.py:148-150 | for D > 0 and 0 <= t < D the index int(t * N / D) lies in [0, N) and the lookup returns that entry of the stimulus vector |
| StimulusLookup.LookupPastHorizon | startgui.py:147-152 | for D > 0 and t >= D the lookup returns 0, padding solver overshoot |
| StimulusLookup.LookupAtGridPoint | startgui.py:148-150 | at grid time i * D / (N - 1) with i < N - 1 the lookup returns exactly entry i |
| StimulusLookup.LookupAtFinalGridPoint | startgui.py:148-152 | at the last grid time t = D the lookup returns 0, not entry N - 1 |
| StimulusLookup.LookupReadsNearbySample | startgui.py:148-150 | for 0 <= t < D the entry read belongs to a grid time strictly less than one grid step D / (N - 1) away from t |
| StimulusLookup.SampleIndexFromBounds | startgui.py:148 | for D > 0 and k * D <= t * N < (k + 1) * D the index read is exactly k |
| StimulusLookup.LookupBeforeTimeZero | startgui.py:148-150 | for t < 0 with -(j + 1) * D < t * N <= -j * D the truncated index is -j, and the lookup, counting from the end, wraps to entry N - j when 0 < j <= N, reads entry 0 when j = 0, and raises IndexError when j > N |
| InitialConditions.InitialState | startgui.py:94-96 | V equals the V slider's integer value; m, h and n are the slider values divided by 10; within the slider ranges V lies in [-100, 100] and each gating value in [0, 1] |
| InitialConditions.InitialStateInjective | startgui.py:94-96 | different state slider positions always give different initial states |
| InitialConditions.DefaultSliderState | startgui.py:35-39 | the sliders' initial positions (-67, 1, 5, 3) give V = -67, m = 0.1, h = 0.5, n = 0.3 |
| Simulation.StartSimulation | startgui.py:91-114 | the duration is the duration slider's value, the initial state is the decoded sliders, grid and stimulus both have N entries, and the stimulus is the pulse-sum of the zipped pulses on linspace(0, D, N) |
| Simulation.SolverSeesPulseSumOnGrid | startgui.py:147-150 | at every grid time but the last, the solver is driven by exactly the pulse-sum current |
| Simulation.InjectedCurrent | startgui.py:147-152 | the current the derivative callback injects is the index lookup into the stored stimulus; SolverSeesPulseSumOnGrid, SolverSeesNearbyPulseSum and InjectedCurrentBeforePulseStart state how it relates to the pulse-sum |
| Simulation.SolverSeesNearbyPulseSum | startgui.py:147-150 | for 0 <= t < D the solver is driven by the pulse-sum at a grid time strictly less than one grid step from t |
| Simulation.InjectedCurrentBeforePulseStart | startgui.py:147-150 | with the pulse (20.01, 30, 1), D = 40 and N = 1000, the pulse-sum at t = 20.005 is 0 but the solver is handed 1 |
| Simulation.FinalGridTimeGetsNoCurrent | startgui.py:147-152 | a pulse [0, D] of height h != 0 has stimulus entry h at t = D, yet the solver gets 0 there |
| Simulation.ZeroDurationRaises | startgui.py:148 | a duration slider at 0 within the slider ranges (reachable: its range starts at 0) makes every lookup raise ZeroDivisionError |
| ExampleScript.InputCurrent | scripts/example_script.py:16-22 | the result is 3 exactly on [5, 10], 19 exactly on [15, 25], 0 exactly for t < 5, 10 < t < 15 or t > 25, and never anything else |
| ExampleScript.InputCurrentIsPulseSum | scripts/example_script.py:16-22 | the closed form equals the pulse-sum rule for the pulses (5, 10, 3) and (15, 25, 19) at every time |
| ExampleScript.LookupMatchesInputCurrentOnGrid | startgui.py:147-152 | configured like the example script, a stimulus vector built from the example pulses on linspace(0, 40, 1000), read through the index lookup, matches the closed form at all 1000 grid times, the last one included |
| ExampleScript.LookupMissesInclusiveEnds | startgui.py:147-152 | configured like the example script, the index lookup returns 0 at t = 10 and t = 25, where the closed form gives 3 and 19 |

## Left out

- The Hodgkin-Huxley rate functions and the derivative vector (startgui.py:155-169, scripts/example_script.py:38-51) are left out. They are floating-point arithmetic built on `exp`, with 0/0 forms at V = -55 and V = -40.
- The call to `odeint` (startgui.py:117, scripts/example_script.py:57) is left out. It is a foreign numerical solver; the model stops at what the solver is handed and at the current its callback injects.
- Floating-point rounding is left out. Examples are linspace's step multiplication, the `(v / 10) * 10` round trip for V, and rounding of `t * N / D` next to an integer. Exact reals are used throughout.
- The Qt window, sliders, text boxes and button wiring (`initUI`, `updateSliderFromTextBox`, `__main__`) are left out because they are UI. The slider ranges are stated as the predicate `InSliderRanges`.
- YAML loading (`loadConfig`) is left out because it is file I/O. `num_points` and the three pulse lists are plain inputs. `num_points` is a `nat`, so the error linspace raises for a negative count is not modelled.
- Plotting and the `print` are left out because they are output only.
- The model parameters read in `ydiff` are left out. They only feed the derivative, which is not modelled.
- The lookup takes N to be the stimulus vector's length. In the code N is `num_points`, and the vector is always built with exactly that many entries.
- The state the application keeps on its window object (`self.ic`, `self.sim_duration`) is modelled as the immutable `Setup` record.
- The solver only asks for times t >= 0, so the negative-index and IndexError branches of the lookup are never reached in a run. The model still states them (`LookupBeforeTimeZero`), but proves nothing about solver behaviour there.
