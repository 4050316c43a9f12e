/**
 The stand-alone example run: a closed-form stimulus of 3 over [5, 10] ms and
 19 over [15, 25] ms, evaluated directly at the solver's continuous time, on a
 40 ms horizon sampled at 1000 points.
 */
module ExampleScript {
  import opened Results
  import opened Pulses
  import opened Grid
  import opened StimulusLookup

  /** The example's input current at time t; both ends of each interval are inclusive. */
  function InputCurrent(t: real): (r: real)
    ensures r == 3.0 <==> 5.0 <= t <= 10.0
    ensures r == 19.0 <==> 15.0 <= t <= 25.0
    ensures r == 0.0 <==> t < 5.0 || 10.0 < t < 15.0 || 25.0 < t
    ensures r == 0.0 || r == 3.0 || r == 19.0
  {
    if 5.0 <= t <= 10.0 then 3.0
    else if 15.0 <= t <= 25.0 then 19.0
    else 0.0
  }

  /** The same waveform as a pulse list. */
  const ExamplePulses: seq<Pulse> := [Pulse(5.0, 10.0, 3.0), Pulse(15.0, 25.0, 19.0)]

  const ExampleDuration: real := 40.0
  const ExampleNumPoints: nat := 1000

  /** The closed form agrees with the pulse-sum rule everywhere, because the two pulses are disjoint. */
  lemma InputCurrentIsPulseSum(t: real)
    ensures InputCurrent(t) == PulseSum(ExamplePulses, t)
  {
    DisjointPair(ExamplePulses[0], ExamplePulses[1], t);
  }

  /**
   The example script evaluates its closed form at continuous time; the
   interactive application instead materialises pulses on a grid and reads them
   back through its index lookup. Configured with the example's pulses, horizon
   and grid, that lookup reproduces the closed form at every grid time, the
   last one included: at t = 40 both are 0.
   */
  lemma LookupMatchesInputCurrentOnGrid(ic: seq<real>, i: nat)
    requires |ic| == ExampleNumPoints
    requires forall j :: 0 <= j < |ic| ==>
      ic[j] == PulseSum(ExamplePulses, Linspace(ExampleDuration, ExampleNumPoints)[j])
    requires i < ExampleNumPoints
    ensures StimulusAt(ic, ExampleDuration, Linspace(ExampleDuration, ExampleNumPoints)[i])
      == Success(InputCurrent(Linspace(ExampleDuration, ExampleNumPoints)[i]))
  {
    var t := Linspace(ExampleDuration, ExampleNumPoints)[i];
    InputCurrentIsPulseSum(t);
    if i < ExampleNumPoints - 1 {
      LookupAtGridPoint(ic, ExampleDuration, i);
    } else {
      LookupAtFinalGridPoint(ic, ExampleDuration);
      assert t == ExampleDuration;
    }
  }

  /**
   Off the grid the two disagree: at the inclusive ends t = 10 and t = 25 the
   lookup reads grid indices 250 and 625, whose grid times 10000 / 999 and
   25000 / 999 lie just past the pulse ends, so it returns 0 where the closed
   form gives 3 and 19.
   */
  lemma LookupMissesInclusiveEnds(ic: seq<real>)
    requires |ic| == ExampleNumPoints
    requires forall j :: 0 <= j < |ic| ==>
      ic[j] == PulseSum(ExamplePulses, Linspace(ExampleDuration, ExampleNumPoints)[j])
    ensures InputCurrent(10.0) == 3.0 && StimulusAt(ic, ExampleDuration, 10.0) == Success(0.0)
    ensures InputCurrent(25.0) == 19.0 && StimulusAt(ic, ExampleDuration, 25.0) == Success(0.0)
  {
    SampleIndexFromBounds(1000, 40.0, 10.0, 250);
    LinspacePoint(40.0, 1000, 250);
    var g := Linspace(40.0, 1000)[250];
    assert g * 999.0 == 10000.0;
    assert 10.0 < g < 15.0;
    InputCurrentIsPulseSum(g);
    SampleIndexFromBounds(1000, 40.0, 25.0, 625);
    LinspacePoint(40.0, 1000, 625);
    var h := Linspace(40.0, 1000)[625];
    assert h * 999.0 == 25000.0;
    assert 25.0 < h;
    InputCurrentIsPulseSum(h);
  }
}
