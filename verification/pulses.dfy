/**
 The pulse-sum rule behind the stimulus current: a list of rectangular pulses,
 each injecting its height over a closed time interval, superposes into one
 current value per time.
 */
module Pulses {

  /** A rectangular pulse injecting `height` over the closed interval [start, end]. */
  datatype Pulse = Pulse(start: real, end: real, height: real)

  /** Both bounds are inclusive, as in `time_points >= start` and `time_points <= end`. */
  predicate Covers(p: Pulse, t: real) {
    p.start <= t <= p.end
  }

  /** What one pulse adds to the current at time `t`. */
  function Contribution(p: Pulse, t: real): (c: real)
    ensures c != 0.0 ==> Covers(p, t) && c == p.height
    ensures Covers(p, t) ==> c == p.height
  {
    if Covers(p, t) then p.height else 0.0
  }

  /** The current at `t`: the sum, over the pulses in order, of their contributions. */
  function PulseSum(ps: seq<Pulse>, t: real): real
    decreases |ps|
  {
    if |ps| == 0 then 0.0 else PulseSum(ps[..|ps| - 1], t) + Contribution(ps[|ps| - 1], t)
  }

  /** The sum of all heights, covering `t` or not. */
  function TotalHeight(ps: seq<Pulse>): real
    decreases |ps|
  {
    if |ps| == 0 then 0.0 else TotalHeight(ps[..|ps| - 1]) + ps[|ps| - 1].height
  }

  function Min3(a: nat, b: nat, c: nat): nat {
    if a <= b && a <= c then a else if b <= c then b else c
  }

  /**
   Python's `zip(starts, ends, heights)`: one pulse per position, stopping at
   the end of the shortest list.
   */
  function Zip(starts: seq<real>, ends: seq<real>, heights: seq<real>): (ps: seq<Pulse>)
    ensures |ps| == Min3(|starts|, |ends|, |heights|)
    ensures forall k :: 0 <= k < |ps| ==> ps[k] == Pulse(starts[k], ends[k], heights[k])
    decreases |starts|
  {
    if |starts| == 0 || |ends| == 0 || |heights| == 0 then []
    else [Pulse(starts[0], ends[0], heights[0])] + Zip(starts[1..], ends[1..], heights[1..])
  }

  /** Only the first m = Min3(...) triples are ever paired: the tails of the longer lists are ignored. */
  lemma {:induction false} ZipIgnoresExtraEntries(starts: seq<real>, ends: seq<real>, heights: seq<real>, m: nat)
    requires m == Min3(|starts|, |ends|, |heights|)
    ensures Zip(starts, ends, heights) == Zip(starts[..m], ends[..m], heights[..m])
    decreases m
  {
    if m > 0 {
      assert starts[..m][1..] == starts[1..][..m - 1];
      assert ends[..m][1..] == ends[1..][..m - 1];
      assert heights[..m][1..] == heights[1..][..m - 1];
      ZipIgnoresExtraEntries(starts[1..], ends[1..], heights[1..], m - 1);
    }
  }

  /** Superposition: the current of two pulse lists together is the sum of their currents. */
  lemma {:induction false} PulseSumAppend(a: seq<Pulse>, b: seq<Pulse>, t: real)
    ensures PulseSum(a + b, t) == PulseSum(a, t) + PulseSum(b, t)
    decreases |b|
  {
    if |b| == 0 {
      assert a + b == a;
    } else {
      var b' := b[..|b| - 1];
      assert (a + b)[..|a + b| - 1] == a + b';
      assert (a + b)[|a + b| - 1] == b[|b| - 1];
      PulseSumAppend(a, b', t);
    }
  }

  /** Taking the pulse at position k out of the list removes exactly its contribution. */
  lemma PulseSumRemove(ps: seq<Pulse>, k: nat, t: real)
    requires k < |ps|
    ensures PulseSum(ps, t) == PulseSum(ps[..k] + ps[k + 1..], t) + Contribution(ps[k], t)
  {
    assert ps == ps[..k] + [ps[k]] + ps[k + 1..];
    PulseSumAppend(ps[..k] + [ps[k]], ps[k + 1..], t);
    PulseSumAppend(ps[..k], [ps[k]], t);
    PulseSumAppend(ps[..k], ps[k + 1..], t);
    assert PulseSum([ps[k]], t) == Contribution(ps[k], t) by {
      assert [ps[k]][..0] == [];
    }
  }

  /** Removing one occurrence of x from both sides keeps two equal multisets equal. */
  lemma MultisetRemoveLast(a: seq<Pulse>, b: seq<Pulse>, k: nat)
    requires |a| > 0 && k < |b| && b[k] == a[|a| - 1]
    requires multiset(a) == multiset(b)
    ensures multiset(a[..|a| - 1]) == multiset(b[..k] + b[k + 1..])
  {
    var x := a[|a| - 1];
    var a', b' := a[..|a| - 1], b[..k] + b[k + 1..];
    assert a == a' + [x];
    assert b == b[..k] + [x] + b[k + 1..];
    assert multiset(b) == multiset(b') + multiset{x};
    assert multiset(a) == multiset(a') + multiset{x};
    assert multiset(a') == multiset(a) - multiset{x};
    assert multiset(b') == multiset(b) - multiset{x};
  }

  /** The order in which the pulses are listed does not change the current. */
  lemma {:induction false} PulseSumPermutation(a: seq<Pulse>, b: seq<Pulse>, t: real)
    requires multiset(a) == multiset(b)
    ensures PulseSum(a, t) == PulseSum(b, t)
    decreases |a|
  {
    if |a| == 0 {
      assert |b| == |multiset(b)| == 0;
    } else {
      var x := a[|a| - 1];
      assert x in multiset(b) by {
        assert a == a[..|a| - 1] + [x];
      }
      var k :| 0 <= k < |b| && b[k] == x;
      MultisetRemoveLast(a, b, k);
      PulseSumPermutation(a[..|a| - 1], b[..k] + b[k + 1..], t);
      PulseSumRemove(b, k, t);
    }
  }

  /** A time no pulse covers gets no current. */
  lemma {:induction false} PulseSumUncovered(ps: seq<Pulse>, t: real)
    requires forall k :: 0 <= k < |ps| ==> !Covers(ps[k], t)
    ensures PulseSum(ps, t) == 0.0
    decreases |ps|
  {
    if |ps| > 0 {
      PulseSumUncovered(ps[..|ps| - 1], t);
    }
  }

  /** Zero padding before the earliest start and after the latest end. */
  lemma OutsideAllPulses(ps: seq<Pulse>, t: real)
    requires (forall k :: 0 <= k < |ps| ==> t < ps[k].start)
          || (forall k :: 0 <= k < |ps| ==> ps[k].end < t)
    ensures PulseSum(ps, t) == 0.0
  {
    PulseSumUncovered(ps, t);
  }

  /** The pulses whose interval is non-empty (start <= end), in their original order. */
  function NonEmptyPulses(ps: seq<Pulse>): (qs: seq<Pulse>)
    ensures |qs| <= |ps|
    ensures forall q :: q in qs ==> q in ps && q.start <= q.end
    ensures forall p :: p in ps && p.start <= p.end ==> p in qs
    decreases |ps|
  {
    if |ps| == 0 then []
    else
      var rest := NonEmptyPulses(ps[..|ps| - 1]);
      var p := ps[|ps| - 1];
      if p.start <= p.end then rest + [p] else rest
  }

  /** A pulse with end < start contributes nothing at any time, so dropping all of them changes nothing. */
  lemma {:induction false} InvertedPulsesAreInert(ps: seq<Pulse>, t: real)
    ensures PulseSum(ps, t) == PulseSum(NonEmptyPulses(ps), t)
    decreases |ps|
  {
    if |ps| > 0 {
      var rest := ps[..|ps| - 1];
      var p := ps[|ps| - 1];
      InvertedPulsesAreInert(rest, t);
      if p.start <= p.end {
        var qs := NonEmptyPulses(rest) + [p];
        assert qs[..|qs| - 1] == NonEmptyPulses(rest);
      } else {
        assert !Covers(p, t);
      }
    }
  }

  /** With non-negative heights the current lies between 0 and the sum of all heights. */
  lemma {:induction false} PulseSumBounds(ps: seq<Pulse>, t: real)
    requires forall k :: 0 <= k < |ps| ==> ps[k].height >= 0.0
    ensures 0.0 <= PulseSum(ps, t) <= TotalHeight(ps)
    decreases |ps|
  {
    if |ps| > 0 {
      PulseSumBounds(ps[..|ps| - 1], t);
    }
  }

  /** Two disjoint pulses: the current is the height of whichever covers `t`, or 0 if neither does. */
  lemma DisjointPair(p: Pulse, q: Pulse, t: real)
    requires p.end < q.start
    ensures PulseSum([p, q], t) ==
      (if Covers(p, t) then p.height else if Covers(q, t) then q.height else 0.0)
  {
    assert [p, q][..1] == [p];
    assert [p][..0] == [];
    assert PulseSum([p], t) == Contribution(p, t);
    assert PulseSum([p, q], t) == Contribution(p, t) + Contribution(q, t);
  }
}
