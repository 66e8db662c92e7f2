// The mean and variance loops of src/math_stats32.c over exact reals.
module Stats {

  function Sum(s: seq<real>): real {
    if s == [] then 0.0 else Sum(s[..|s| - 1]) + s[|s| - 1]
  }

  function Mean(s: seq<real>): real
    requires s != []
  {
    Sum(s) / |s| as real
  }

  // The sum of squared distances from c.
  function Spread(s: seq<real>, c: real): real {
    if s == [] then 0.0 else Spread(s[..|s| - 1], c) + (s[|s| - 1] - c) * (s[|s| - 1] - c)
  }

  // The two-pass definition.
  function Variance(s: seq<real>): real
    requires s != []
  {
    Spread(s, Mean(s)) / |s| as real
  }

  // ----- the mean -----

  function Lerp(a: real, b: real, t: real): real {
    (1.0 - t) * a + t * b
  }

  lemma LerpStep(mean: real, x: real, n: real)
    requires n >= 0.0
    ensures Lerp(mean, x, 1.0 / (n + 1.0)) * (n + 1.0) == mean * n + x
  {
    var t := 1.0 / (n + 1.0);
    assert t * (n + 1.0) == 1.0;
    var u := n + 1.0;
    assert ((1.0 - t) * mean + t * x) * u == mean * u - (t * u) * mean + (t * u) * x;
  }

  ghost predicate Averages(mean: real, s: seq<real>) {
    mean * |s| as real == Sum(s)
  }

  lemma MeanNext(mean: real, s: seq<real>, x: real)
    requires Averages(mean, s)
    ensures Averages(Lerp(mean, x, 1.0 / (|s| + 1) as real), s + [x])
  {
    hide Lerp;
    LerpStep(mean, x, |s| as real);
    assert (s + [x])[..|s|] == s;
  }

  lemma MeanReached(mean: real, s: seq<real>)
    requires Averages(mean, s) && s != []
    ensures mean == Mean(s)
  {
    hide Sum;
    var n := |s| as real;
    assert mean * n / n == mean;
  }

  method StatsMean(a: array<real>) returns (mean: real)
    ensures a.Length == 0 ==> mean == 0.0
    ensures a.Length > 0 ==> mean == Mean(a[..])
  {
    hide Lerp, Averages, Mean;
    mean := 0.0;
    NoValues();
    var i := 0;
    while i < a.Length
      invariant i <= a.Length && Averages(mean, a[..i]) && (i == 0 ==> mean == 0.0)
    {
      MeanNext(mean, a[..i], a[i]);
      assert a[..i + 1] == a[..i] + [a[i]];
      mean := Lerp(mean, a[i], 1.0 / (i + 1) as real);
      i := i + 1;
    }
    assert a[..i] == a[..];
    if i > 0 { MeanReached(mean, a[..]); }
  }

  lemma NoValues()
    ensures Averages(0.0, [])
  {
  }

  // ----- the variance -----

  // The spread about c, from the spread about 0 and the sum.
  lemma {:induction false} SpreadShift(s: seq<real>, c: real)
    ensures Spread(s, c) == Spread(s, 0.0) - 2.0 * c * Sum(s) + |s| as real * (c * c)
    decreases |s|
  {
    hide Spread, Sum;
    if s == [] {
      SpreadNone(c);
      SpreadNone(0.0);
    } else {
      var n := |s| - 1;
      SpreadShift(s[..n], c);
      SpreadNext(s, c);
      SpreadNext(s, 0.0);
      assert |s| as real == n as real + 1.0;
      ShiftStep(n as real, c, Spread(s[..n], 0.0), Sum(s[..n]), s[n]);
    }
  }

  lemma SpreadNone(c: real)
    ensures Sum([]) == 0.0 && Spread([], c) == 0.0
  {
  }

  lemma SpreadNext(s: seq<real>, c: real)
    requires s != []
    ensures Sum(s) == Sum(s[..|s| - 1]) + s[|s| - 1]
    ensures Spread(s, c) == Spread(s[..|s| - 1], c) + (s[|s| - 1] - c) * (s[|s| - 1] - c)
  {
  }

  lemma ShiftStep(n: real, c: real, q: real, t: real, x: real)
    ensures (q - 2.0 * c * t + n * (c * c)) + (x - c) * (x - c) ==
            (q + (x - 0.0) * (x - 0.0)) - 2.0 * c * (t + x) + (n + 1.0) * (c * c)
  {
    assert (x - c) * (x - c) == x * x - 2.0 * c * x + c * c;
  }

  // About the mean, n times the spread is n times the sum of squares minus the square of the sum.
  lemma SpreadAboutMean(s: seq<real>)
    requires s != []
    ensures |s| as real * Spread(s, Mean(s)) == |s| as real * Spread(s, 0.0) - Sum(s) * Sum(s)
  {
    hide Spread, Sum;
    var n, c := |s| as real, Mean(s);
    SpreadShift(s, c);
    assert n * c == Sum(s);
    MeanIdentity(n, c, Sum(s), Spread(s, 0.0));
  }

  lemma MeanIdentity(n: real, c: real, t: real, q: real)
    requires n * c == t
    ensures n * (q - 2.0 * c * t + n * (c * c)) == n * q - t * t
  {
    assert n * (2.0 * c * t) == 2.0 * (n * c) * t;
    assert n * (n * (c * c)) == (n * c) * (n * c);
  }

  // One step of the running form: after k values with sum m and sum of squares q, x arrives.
  lemma VarianceStep(k: real, x: real, m: real, q: real, sum: real)
    requires k > 0.0 && k * sum == k * q - m * m
    ensures (k + 1.0) * (sum + Term(k + 1.0, x, m + x)) == (k + 1.0) * (q + x * x) - (m + x) * (m + x)
  {
    TermValue(k, x, m);
    StepIdentity(k, x, m, q, sum, Term(k + 1.0, x, m + x));
    hide Term;
    Cancel(k, (k + 1.0) * (sum + Term(k + 1.0, x, m + x)), (k + 1.0) * (q + x * x) - (m + x) * (m + x));
  }

  // What the loop adds for the n-th value x, with m the sum of n values.
  function Term(n: real, x: real, m: real): real
    requires n > 1.0
  {
    (1.0 / (n * (n - 1.0))) * ((n * x - m) * (n * x - m))
  }

  lemma TermValue(k: real, x: real, m: real)
    requires k > 0.0
    ensures Term(k + 1.0, x, m + x) * ((k + 1.0) * k) == (k * x - m) * (k * x - m)
  {
    var n := k + 1.0;
    var d := n * x - (m + x);
    assert d == k * x - m;
    assert n * k != 0.0;
    Inverse(n * k, d * d);
  }

  lemma Inverse(p: real, y: real)
    requires p != 0.0
    ensures (1.0 / p * y) * p == y
  {
    assert 1.0 / p * p == 1.0;
    assert (1.0 / p * y) * p == (1.0 / p * p) * y;
  }

  lemma Cancel(k: real, x: real, y: real)
    requires k != 0.0 && k * x == k * y
    ensures x == y
  {
    assert k * (x - y) == 0.0;
  }

  lemma StepIdentity(k: real, x: real, m: real, q: real, sum: real, term: real)
    requires k * sum == k * q - m * m && term * ((k + 1.0) * k) == (k * x - m) * (k * x - m)
    ensures k * ((k + 1.0) * (sum + term)) == k * ((k + 1.0) * (q + x * x) - (m + x) * (m + x))
  {
    var n := k + 1.0;
    assert k * (n * (sum + term)) == n * (k * sum) + term * (n * k);
    assert n * (k * q - m * m) == k * (n * q) - n * (m * m);
    assert (k * x - m) * (k * x - m) == k * (k * (x * x)) - 2.0 * (k * (x * m)) + m * m;
    assert k * (n * (q + x * x) - (m + x) * (m + x)) == k * (n * q) + k * (n * (x * x)) - k * ((m + x) * (m + x));
    assert k * ((m + x) * (m + x)) == k * (m * m) + 2.0 * (k * (x * m)) + k * (x * x);
  }

  ghost predicate Running(s: seq<real>, m: real, sum: real) {
    m == Sum(s) && |s| as real * sum == |s| as real * Spread(s, 0.0) - m * m
  }

  lemma RunningNext(s: seq<real>, x: real, m: real, sum: real)
    requires s != [] && Running(s, m, sum)
    ensures Running(s + [x], m + x, sum + Term(|s| as real + 1.0, x, m + x))
  {
    hide Term, Spread, Sum;
    VarianceStep(|s| as real, x, m, Spread(s, 0.0), sum);
    SpreadNext(s + [x], 0.0);
    assert (s + [x])[..|s|] == s;
  }

  lemma RunningReached(s: seq<real>, m: real, sum: real)
    requires s != [] && Running(s, m, sum)
    ensures sum / |s| as real == Variance(s)
  {
    hide Spread, Sum;
    SpreadAboutMean(s);
    Cancel(|s| as real, sum, Spread(s, Mean(s)));
  }

  method StatsVariance(a: array<real>) returns (variance: real)
    requires a.Length > 0
    ensures variance == Variance(a[..])
  {
    hide Running, Term, Variance;
    var n, m, sum := 1.0, a[0], 0.0;
    FirstValue(a[..1]);
    var i := 1;
    while i < a.Length
      invariant 1 <= i <= a.Length && n == i as real && Running(a[..i], m, sum)
    {
      RunningNext(a[..i], a[i], m, sum);
      assert a[..i + 1] == a[..i] + [a[i]];
      n := n + 1.0;
      m := m + a[i];
      sum := sum + Term(n, a[i], m);
      i := i + 1;
    }
    assert a[..i] == a[..];
    RunningReached(a[..], m, sum);
    variance := sum / a.Length as real;
  }

  lemma FirstValue(s: seq<real>)
    requires |s| == 1
    ensures Running(s, s[0], 0.0)
  {
    assert s[..0] == [];
  }
}
