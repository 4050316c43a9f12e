/**
 The stimulus as the derivative callback sees it: the solver's time t is mapped
 to the index int(t * N / D) into the stimulus vector of N entries, and any index
 at or past N reads as 0, padding the solver's overshoot past the horizon.
 */
module StimulusLookup {
  import opened Results
  import opened Grid

  /** The Python exceptions the lookup can raise. */
  datatype PyError = ZeroDivisionError | IndexError

  /** Python's int() on a float: truncation toward zero. */
  function Trunc(x: real): (k: int)
    ensures x >= 0.0 ==> 0 <= k && k as real <= x < k as real + 1.0
    ensures x < 0.0 ==> k <= 0 && k as real - 1.0 < x <= k as real
  {
    if x >= 0.0 then x.Floor else -((-x).Floor)
  }

  /** Python's `s[k]`: negative indices count from the end, anything else outside raises. */
  function PyIndex(s: seq<real>, k: int): (r: Result<real, PyError>)
    ensures r.Success? <==> -|s| <= k < |s|
    ensures r.Success? ==> r.value in s
    ensures r.Failure? ==> r.error == IndexError
  {
    if 0 <= k < |s| then Success(s[k])
    else if -|s| <= k < 0 then Success(s[|s| + k])
    else Failure(IndexError)
  }

  /** int(t * N / D): the stimulus index the callback reads at solver time t. */
  function SampleIndex(n: nat, d: real, t: real): int
    requires d != 0.0
  {
    Trunc(t * n as real / d)
  }

  /** The injected current at solver time t, for a stimulus vector `ic` built over a horizon of D. */
  function StimulusAt(ic: seq<real>, d: real, t: real): (r: Result<real, PyError>)
    ensures d == 0.0 ==> r == Failure(ZeroDivisionError)
    ensures r.Success? ==> r.value == 0.0 || r.value in ic
  {
    if d == 0.0 then Failure(ZeroDivisionError)
    else
      var k := SampleIndex(|ic|, d, t);
      if k < |ic| then PyIndex(ic, k) else Success(0.0)
  }

  /** For a non-negative horizon and solver time, the lookup raises exactly when the horizon is 0. */
  lemma LookupFailsOnlyOnZeroDuration(ic: seq<real>, d: real, t: real)
    requires d >= 0.0 && t >= 0.0
    ensures StimulusAt(ic, d, t).Failure? <==> d == 0.0
    ensures StimulusAt(ic, d, t).Failure? ==> StimulusAt(ic, d, t).error == ZeroDivisionError
  {
    if d > 0.0 {
      assert t * |ic| as real >= 0.0;
      assert t * |ic| as real / d >= 0.0;
    }
  }

  lemma ScaledTimeInRange(n: nat, d: real, t: real)
    requires d > 0.0 && 0.0 <= t
    ensures 0.0 <= t * n as real / d
    ensures t < d ==> t * n as real / d < n as real || n == 0
    ensures t >= d ==> t * n as real / d >= n as real
  {
    var x := t * n as real / d;
    assert x * d == t * n as real;
    if t < d && n > 0 {
      assert t * n as real < d * n as real;
    }
    if t >= d {
      assert t * n as real >= d * n as real;
    }
  }

  /** Inside the horizon the index lies in [0, N) and the lookup returns that entry of `ic`. */
  lemma LookupInRange(ic: seq<real>, d: real, t: real)
    requires d > 0.0 && |ic| >= 1 && 0.0 <= t < d
    ensures 0 <= SampleIndex(|ic|, d, t) < |ic|
    ensures StimulusAt(ic, d, t) == Success(ic[SampleIndex(|ic|, d, t)])
  {
    ScaledTimeInRange(|ic|, d, t);
    var x := t * |ic| as real / d;
    assert SampleIndex(|ic|, d, t) == Trunc(x);
    assert Trunc(x) as real <= x < |ic| as real;
  }

  /** At or past the horizon the lookup pads with zero. */
  lemma LookupPastHorizon(ic: seq<real>, d: real, t: real)
    requires d > 0.0 && t >= d
    ensures StimulusAt(ic, d, t) == Success(0.0)
  {
    ScaledTimeInRange(|ic|, d, t);
    var x := t * |ic| as real / d;
    assert x >= |ic| as real;
    assert Trunc(x) as real > x - 1.0;
    assert SampleIndex(|ic|, d, t) == Trunc(x) >= |ic|;
  }

  // Real-arithmetic steps, each stated without division so the verifier can combine them.

  lemma MulStrict(a: real, b: real, c: real)
    requires a < b && c > 0.0
    ensures a * c < b * c
  {
    assert (b - a) * c > 0.0;
  }

  lemma MulLe(a: real, b: real, c: real)
    requires a <= b && c >= 0.0
    ensures a * c <= b * c
  {
    assert (b - a) * c >= 0.0;
  }

  /** For y = x * c with c > 0, comparing a with x strictly is comparing a * c with y. */
  lemma ScaleStrictIff(a: real, x: real, c: real, y: real)
    requires c > 0.0 && x * c == y
    ensures a < x <==> a * c < y
    ensures x < a <==> y < a * c
  {
    if a < x { MulStrict(a, x, c); } else { MulLe(x, a, c); }
    if x < a { MulStrict(x, a, c); } else { MulLe(a, x, c); }
  }

  /** For y = x * c with c > 0, comparing x with b loosely is comparing y with b * c. */
  lemma ScaleLeIff(x: real, b: real, c: real, y: real)
    requires c > 0.0 && x * c == y
    ensures x <= b <==> y <= b * c
    ensures b <= x <==> b * c <= y
  {
    ScaleStrictIff(b, x, c, y);
  }

  /** Dividing by a positive m: a * m < b exactly when a < b / m. */
  lemma BelowQuotient(a: real, b: real, m: real)
    requires m > 0.0
    ensures a * m < b <==> a < b / m
    ensures b < a * m <==> b / m < a
  {
    var q := b / m;
    assert q * m == b;
    ScaleStrictIff(a, q, m, b);
  }

  /** For x = y / D with D > 0: k <= x < k + 1 exactly when k * D <= y < (k + 1) * D. */
  lemma QuotientBetween(x: real, y: real, d: real, k: real)
    requires d > 0.0 && x * d == y
    ensures k <= x <==> k * d <= y
    ensures x < k + 1.0 <==> y < (k + 1.0) * d
  {
    ScaleLeIff(x, k, d, y);
    ScaleStrictIff(k + 1.0, x, d, y);
  }

  /** For x = y / D with D > 0: k < x <= k + 1 exactly when k * D < y <= (k + 1) * D. */
  lemma QuotientBetweenUpper(x: real, y: real, d: real, k: real)
    requires d > 0.0 && x * d == y
    ensures k < x <==> k * d < y
    ensures x <= k + 1.0 <==> y <= (k + 1.0) * d
  {
    ScaleStrictIff(k, x, d, y);
    ScaleLeIff(x, k + 1.0, d, y);
  }

  lemma TruncOfBetween(x: real, k: nat)
    requires k as real <= x < k as real + 1.0
    ensures Trunc(x) == k
  {
  }

  /** A non-negative k with k * D <= t * N < (k + 1) * D is the index the lookup reads. */
  lemma SampleIndexFromBounds(n: nat, d: real, t: real, k: nat)
    requires d > 0.0
    requires k as real * d <= t * n as real < (k as real + 1.0) * d
    ensures SampleIndex(n, d, t) == k
  {
    var x := t * n as real / d;
    QuotientBetween(x, t * n as real, d, k as real);
    TruncOfBetween(x, k);
  }

  /** Truncation toward zero of a value in (-(j + 1), -j] is -j. */
  lemma TruncOfNegative(x: real, j: nat)
    requires -(j as real) - 1.0 < x <= -(j as real)
    ensures Trunc(x) == -(j as int)
  {
    if x < 0.0 {
      assert j as real <= -x < j as real + 1.0;
      assert (-x).Floor == j;
    }
  }

  /**
   Before time 0, with -(j + 1) * D < t * N <= -j * D, truncation toward zero
   gives the index -j: j = 0 reads the first entry, 1 <= j <= N wraps round to
   entry N - j as Python's negative indexing does, and j > N raises IndexError.
   */
  lemma LookupBeforeTimeZero(ic: seq<real>, d: real, t: real, j: nat)
    requires d > 0.0
    requires -(j as real + 1.0) * d < t * |ic| as real <= -(j as real) * d
    ensures SampleIndex(|ic|, d, t) == -(j as int)
    ensures j == 0 && |ic| > 0 ==> StimulusAt(ic, d, t) == Success(ic[0])
    ensures 0 < j <= |ic| ==> StimulusAt(ic, d, t) == Success(ic[|ic| - j])
    ensures j > |ic| ==> StimulusAt(ic, d, t) == Failure(IndexError)
  {
    var x := t * |ic| as real / d;
    var k := -(j as real) - 1.0;
    assert k * d == -(j as real + 1.0) * d;
    assert (k + 1.0) * d == -(j as real) * d;
    QuotientBetweenUpper(x, t * |ic| as real, d, k);
    TruncOfNegative(x, j);
    assert SampleIndex(|ic|, d, t) == -(j as int);
  }

  /** The grid time t = i * D / m, i < m, satisfies i * D <= t * (m + 1) < (i + 1) * D. */
  lemma GridTimeBounds(t: real, i: real, d: real, m: real)
    requires d > 0.0 && 0.0 <= i < m && t * m == i * d
    ensures i * d <= t * (m + 1.0) < (i + 1.0) * d
  {
    assert t * (m + 1.0) == i * d + t;
    if t < 0.0 {
      MulStrict(t, 0.0, m);
      MulLe(0.0, i, d);
    }
    if t >= d {
      MulLe(d, t, m);
      MulStrict(i, m, d);
    }
  }

  /** At every grid time but the last, the lookup returns exactly that grid time's entry. */
  lemma LookupAtGridPoint(ic: seq<real>, d: real, i: nat)
    requires d > 0.0 && |ic| >= 2 && i < |ic| - 1
    ensures StimulusAt(ic, d, Linspace(d, |ic|)[i]) == Success(ic[i])
  {
    var t := Linspace(d, |ic|)[i];
    LinspacePoint(d, |ic|, i);
    GridTimeBounds(t, i as real, d, (|ic| - 1) as real);
    assert (|ic| - 1) as real + 1.0 == |ic| as real;
    SampleIndexFromBounds(|ic|, d, t, i);
  }

  /** At the last grid time t = D the index is N itself, so the lookup gives 0, not ic[N - 1]. */
  lemma LookupAtFinalGridPoint(ic: seq<real>, d: real)
    requires d > 0.0 && |ic| >= 2
    ensures StimulusAt(ic, d, Linspace(d, |ic|)[|ic| - 1]) == Success(0.0)
  {
    LookupPastHorizon(ic, d, d);
  }

  /** t * N < (k + 1) * D puts t below the grid time after g = k * D / (N - 1). */
  lemma BelowNextGridTime(k: real, t: real, d: real, n: real, g: real)
    requires d > 0.0 && n >= 2.0 && 0.0 <= k
    requires t * n < (k + 1.0) * d
    requires g * (n - 1.0) == k * d
    ensures t < g + d / (n - 1.0)
  {
    var m := n - 1.0;
    var b := (k + 1.0) * d;
    assert b > 0.0;
    MulStrict(t * n, b, m);
    MulLe(m, n, b);
    assert (t * m) * n < b * n;
    if t * m >= b { MulLe(b, t * m, n); }
    BelowQuotient(t, b, m);
    assert b / m == g + d / m by { assert (g + d / m) * m == b; }
  }

  /** k * D <= t * N with k < N puts t above the grid time before g = k * D / (N - 1). */
  lemma AbovePreviousGridTime(k: real, t: real, d: real, n: real, g: real)
    requires d > 0.0 && n >= 2.0 && k < n
    requires k * d <= t * n
    requires g * (n - 1.0) == k * d
    ensures g - d / (n - 1.0) < t
  {
    var m := n - 1.0;
    var a := (k - 1.0) * d;
    assert k * m - (k - 1.0) * n == n - k;
    MulStrict(0.0, n - k, d);
    assert a * n < (k * d) * m;
    MulLe(k * d, t * n, m);
    assert a * n < (t * m) * n;
    if a >= t * m { MulLe(t * m, a, n); }
    BelowQuotient(t, a, m);
    assert a / m == g - d / m by { assert (g - d / m) * m == a; }
  }

  /**
   Between grid points the entry read belongs to a grid time less than one grid
   step away from t (it may lie after t as well as before it).
   */
  lemma LookupReadsNearbySample(ic: seq<real>, d: real, t: real)
    requires d > 0.0 && |ic| >= 2 && 0.0 <= t < d
    ensures var k := SampleIndex(|ic|, d, t);
      && 0 <= k < |ic|
      && StimulusAt(ic, d, t) == Success(ic[k])
      && Linspace(d, |ic|)[k] - d / (|ic| - 1) as real < t < Linspace(d, |ic|)[k] + d / (|ic| - 1) as real
  {
    LookupInRange(ic, d, t);
    var k := SampleIndex(|ic|, d, t);
    var x := t * |ic| as real / d;
    QuotientBetween(x, t * |ic| as real, d, k as real);
    LinspacePoint(d, |ic|, k);
    assert (|ic| - 1) as real == |ic| as real - 1.0;
    BelowNextGridTime(k as real, t, d, |ic| as real, Linspace(d, |ic|)[k]);
    AbovePreviousGridTime(k as real, t, d, |ic| as real, Linspace(d, |ic|)[k]);
  }
}
