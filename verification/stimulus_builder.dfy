/**
 Materialising the stimulus on the sample grid, as the start of a simulation
 run does: one row per configured pulse (the pulse's height where its closed
 interval covers the grid time, 0 elsewhere), then the column sums of that
 matrix.
 */
module StimulusBuilder {
  import opened Pulses

  function Zeros(n: nat): seq<real> {
    seq(n, _ => 0.0)
  }

  /** The row of one pulse over the grid: `((grid >= start) & (grid <= end)) * height`. */
  function Row(p: Pulse, grid: seq<real>): seq<real> {
    seq(|grid|, j requires 0 <= j < |grid| => Contribution(p, grid[j]))
  }

  /**
   The pulse matrix: |starts| rows of |grid| entries, all zero at first; the
   loop over the zipped triples overwrites row k with the k-th pulse's row, so
   rows past the shortest of the three lists stay zero.
   */
  method BuildPulseMatrix(starts: seq<real>, ends: seq<real>, heights: seq<real>, grid: seq<real>)
    returns (rows: seq<seq<real>>)
    ensures |rows| == |starts|
    ensures forall k :: 0 <= k < |rows| ==> |rows[k]| == |grid|
    ensures forall k, j :: 0 <= k < |Zip(starts, ends, heights)| && 0 <= j < |grid| ==>
      rows[k][j] == Contribution(Zip(starts, ends, heights)[k], grid[j])
    ensures forall k, j :: |Zip(starts, ends, heights)| <= k < |rows| && 0 <= j < |grid| ==>
      rows[k][j] == 0.0
  {
    var pulses := Zip(starts, ends, heights);
    rows := seq(|starts|, _ => Zeros(|grid|));
    var idx := 0;
    while idx < |pulses|
      invariant 0 <= idx <= |pulses| <= |starts|
      invariant |rows| == |starts|
      invariant forall k :: 0 <= k < |rows| ==> |rows[k]| == |grid|
      invariant forall k, j :: 0 <= k < idx && 0 <= j < |grid| ==> rows[k][j] == Contribution(pulses[k], grid[j])
      invariant forall k, j :: idx <= k < |rows| && 0 <= j < |grid| ==> rows[k][j] == 0.0
    {
      rows := rows[idx := Row(pulses[idx], grid)];
      idx := idx + 1;
    }
  }

  /** The smaller of two counts: the number of pulses the first k matrix rows hold. */
  function Min(k: nat, n: nat): nat {
    if k < n then k else n
  }

  /**
   The stimulus vector `ic`: one entry per grid time, each the pulse-sum of the
   zipped pulses at that time.
   */
  method BuildStimulus(starts: seq<real>, ends: seq<real>, heights: seq<real>, grid: seq<real>)
    returns (ic: seq<real>)
    ensures |ic| == |grid|
    ensures forall j :: 0 <= j < |grid| ==> ic[j] == PulseSum(Zip(starts, ends, heights), grid[j])
  {
    var rows := BuildPulseMatrix(starts, ends, heights, grid);
    ghost var pulses := Zip(starts, ends, heights);
    ic := Zeros(|grid|);
    var k := 0;
    while k < |rows|
      invariant 0 <= k <= |rows|
      invariant |ic| == |grid|
      invariant forall j :: 0 <= j < |grid| ==> ic[j] == PulseSum(pulses[..Min(k, |pulses|)], grid[j])
    {
      ghost var before := pulses[..Min(k, |pulses|)];
      ghost var after := pulses[..Min(k + 1, |pulses|)];
      if k < |pulses| {
        assert after[..|after| - 1] == before;
      } else {
        assert after == before;
      }
      ic := seq(|grid|, j requires 0 <= j < |grid| => ic[j] + rows[k][j]);
      k := k + 1;
    }
    assert pulses[..Min(|rows|, |pulses|)] == pulses;
  }
}
