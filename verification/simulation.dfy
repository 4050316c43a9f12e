/**
 One simulation run up to the point where the ODE solver takes over: the
 sample grid, the initial state and the stimulus vector, and the current the
 derivative callback injects at each solver time.
 */
module Simulation {
  import opened Results
  import opened Pulses
  import opened Grid
  import opened StimulusBuilder
  import opened StimulusLookup
  import opened InitialConditions

  /** What a run hands to the solver: the horizon, the sample grid, the initial state, the stimulus vector. */
  datatype Setup = Setup(duration: real, timePoints: seq<real>, init: NeuronState, ic: seq<real>)

  /** `ic` is the pulse-sum of `ps` on a grid of |ic| points over the run's duration. */
  predicate StimulusFor(setup: Setup, ps: seq<Pulse>) {
    && setup.timePoints == Linspace(setup.duration, |setup.ic|)
    && forall j :: 0 <= j < |setup.ic| ==> setup.ic[j] == PulseSum(ps, setup.timePoints[j])
  }

  /**
   Pressing Start: the duration and initial state come from the sliders, the
   grid has `numPoints` points, and the stimulus is built from the configured
   pulse lists.
   */
  method StartSimulation(s: Sliders, numPoints: nat, starts: seq<real>, ends: seq<real>, heights: seq<real>)
    returns (setup: Setup)
    ensures setup.duration == s.duration as real
    ensures setup.init == InitialState(s)
    ensures |setup.timePoints| == |setup.ic| == numPoints
    ensures StimulusFor(setup, Zip(starts, ends, heights))
  {
    var duration := s.duration as real;
    var timePoints := Linspace(duration, numPoints);
    var ic := BuildStimulus(starts, ends, heights, timePoints);
    setup := Setup(duration, timePoints, InitialState(s), ic);
  }

  /** The current the derivative callback injects at solver time t. */
  function InjectedCurrent(setup: Setup, t: real): Result<real, PyError> {
    StimulusAt(setup.ic, setup.duration, t)
  }

  /**
   On every grid time but the last, the solver is driven by exactly the
   pulse-sum current of the configured pulses.
   */
  lemma SolverSeesPulseSumOnGrid(setup: Setup, ps: seq<Pulse>, i: nat)
    requires StimulusFor(setup, ps)
    requires setup.duration > 0.0 && |setup.ic| >= 2 && i < |setup.ic| - 1
    ensures InjectedCurrent(setup, setup.timePoints[i]) == Success(PulseSum(ps, setup.timePoints[i]))
  {
    LookupAtGridPoint(setup.ic, setup.duration, i);
  }

  /**
   At the final grid time t = D the solver gets no current, even when a pulse
   covers D: a pulse [0, D] of height h != 0 has pulse-sum h there.
   */
  lemma FinalGridTimeGetsNoCurrent(setup: Setup, h: real)
    requires StimulusFor(setup, [Pulse(0.0, setup.duration, h)])
    requires setup.duration > 0.0 && |setup.ic| >= 2 && h != 0.0
    ensures setup.timePoints[|setup.ic| - 1] == setup.duration
    ensures PulseSum([Pulse(0.0, setup.duration, h)], setup.duration) == h
    ensures setup.ic[|setup.ic| - 1] == h
    ensures InjectedCurrent(setup, setup.duration) == Success(0.0)
  {
    assert [Pulse(0.0, setup.duration, h)][..0] == [];
    LookupPastHorizon(setup.ic, setup.duration, setup.duration);
  }

  /**
   Between grid times the solver is driven by the pulse-sum at a grid time less
   than one step away, which need not be the pulse-sum at t itself.
   */
  lemma SolverSeesNearbyPulseSum(setup: Setup, ps: seq<Pulse>, t: real)
    requires StimulusFor(setup, ps)
    requires setup.duration > 0.0 && |setup.ic| >= 2 && 0.0 <= t < setup.duration
    ensures var k := SampleIndex(|setup.ic|, setup.duration, t);
      && 0 <= k < |setup.ic|
      && InjectedCurrent(setup, t) == Success(PulseSum(ps, setup.timePoints[k]))
      && setup.timePoints[k] - setup.duration / (|setup.ic| - 1) as real < t
      && t < setup.timePoints[k] + setup.duration / (|setup.ic| - 1) as real
  {
    LookupReadsNearbySample(setup.ic, setup.duration, t);
  }

  /**
   The injected current is not 0 before every pulse start: with the pulse
   (20.01, 30, 1), D = 40 and N = 1000, time 20.005 reads grid index 500, whose
   grid time 20000 / 999 lies inside the pulse, while the pulse-sum at 20.005 is 0.
   */
  lemma InjectedCurrentBeforePulseStart(setup: Setup)
    requires StimulusFor(setup, [Pulse(20.01, 30.0, 1.0)])
    requires setup.duration == 40.0 && |setup.ic| == 1000
    ensures PulseSum([Pulse(20.01, 30.0, 1.0)], 20.005) == 0.0
    ensures InjectedCurrent(setup, 20.005) == Success(1.0)
  {
    assert [Pulse(20.01, 30.0, 1.0)][..0] == [];
    SampleIndexFromBounds(1000, 40.0, 20.005, 500);
    LinspacePoint(40.0, 1000, 500);
    var g := setup.timePoints[500];
    assert g * 999.0 == 20000.0;
    assert 20.01 < g < 30.0;
  }

  /** A duration slider left at 0, which its range allows, makes every stimulus lookup raise. */
  lemma ZeroDurationRaises(s: Sliders, setup: Setup, t: real)
    requires InSliderRanges(s) && s.duration == 0 && setup.duration == s.duration as real
    ensures InjectedCurrent(setup, t) == Failure(ZeroDivisionError)
  {
  }
}
