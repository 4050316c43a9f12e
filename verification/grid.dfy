/** The uniform sample grid `linspace(0, D, N)` the stimulus is built on and the solver reports at. */
module Grid {

  /** The i-th point of a grid with step d / m. */
  function Point(i: nat, d: real, m: real): real
    requires m > 0.0
  {
    i as real * d / m
  }

  /**
   The N points of linspace(0, D, N): 0 and D are both included and the step is
   D / (N - 1); a one-point grid is just [0] and a zero-point grid is empty.
   */
  function Linspace(d: real, n: nat): (g: seq<real>)
    ensures |g| == n
    ensures n >= 1 ==> g[0] == 0.0
    ensures n >= 2 ==> g[n - 1] == d
    ensures d >= 0.0 ==> forall i :: 0 <= i < n ==> 0.0 <= g[i] <= d
  {
    if n <= 1 then seq(n, _ => 0.0)
    else
      var m := (n - 1) as real;
      var g := seq(n, i requires 0 <= i => Point(i, d, m));
      GridFacts(g, d, n, m);
      g
  }

  lemma GridFacts(g: seq<real>, d: real, n: nat, m: real)
    requires n >= 2 && m == (n - 1) as real && |g| == n
    requires forall i :: 0 <= i < n ==> g[i] == Point(i, d, m)
    ensures g[0] == 0.0
    ensures g[n - 1] == d
    ensures d >= 0.0 ==> forall i :: 0 <= i < n ==> 0.0 <= g[i] <= d
  {
    assert g[n - 1] == m * d / m;
    if d >= 0.0 {
      forall i | 0 <= i < n ensures 0.0 <= g[i] <= d {
        PointWithinSpan(i, d, m);
      }
    }
  }

  lemma StepIsUniform(i: nat, d: real, m: real)
    requires m > 0.0
    ensures Point(i + 1, d, m) - Point(i, d, m) == d / m
  {
    assert (i + 1) as real * d == i as real * d + d;
  }

  lemma PointWithinSpan(i: nat, d: real, m: real)
    requires m > 0.0 && d >= 0.0 && i as real <= m
    ensures 0.0 <= Point(i, d, m) <= d
  {
    assert i as real * d <= m * d;
    assert i as real * d / m <= m * d / m;
  }

  /** The i-th grid point t is i * D / (N - 1), stated as t * (N - 1) == i * D. */
  lemma LinspacePoint(d: real, n: nat, i: nat)
    requires n >= 2 && i < n
    ensures Linspace(d, n)[i] * (n - 1) as real == i as real * d
  {
    var m := (n - 1) as real;
    assert Linspace(d, n)[i] == i as real * d / m;
  }

  /** Consecutive grid points are D / (N - 1) apart. */
  lemma LinspaceStep(d: real, n: nat, i: nat)
    requires n >= 2 && i < n - 1
    ensures Linspace(d, n)[i + 1] - Linspace(d, n)[i] == d / (n - 1) as real
  {
    var m := (n - 1) as real;
    assert Linspace(d, n)[i] == Point(i, d, m);
    assert Linspace(d, n)[i + 1] == Point(i + 1, d, m);
    StepIsUniform(i, d, m);
  }

  /** For D > 0 the grid is strictly increasing. */
  lemma {:induction false} LinspaceIncreasing(d: real, n: nat, i: nat, j: nat)
    requires d > 0.0 && i < j < n
    ensures Linspace(d, n)[i] < Linspace(d, n)[j]
    decreases j - i
  {
    LinspaceStep(d, n, j - 1);
    assert d / (n - 1) as real > 0.0;
    if i < j - 1 {
      LinspaceIncreasing(d, n, i, j - 1);
    }
  }
}
