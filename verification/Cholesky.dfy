// Cholesky factorisation and forward substitution of src/math_linalg32.c over exact reals.
module Cholesky {
  import opened Matrix

  // ----- what a factor is -----

  // f is lower triangular with a positive diagonal and f * f^T agrees with a on and below the diagonal.
  ghost predicate Factor(a: seq<real>, f: seq<real>, n: nat) {
    && |f| == n * n
    && (forall i: nat, j: nat | i < j < n :: At(f, n, i, j) == 0.0)
    && (forall i: nat | i < n :: At(f, n, i, i) > 0.0)
    && forall i: nat, j: nat | j <= i < n :: Dot(f, f, n, i, j, n) == At(a, n, i, j)
  }

  ghost predicate Symmetric(a: seq<real>, n: nat) {
    forall i: nat, j: nat | i < n && j < n :: At(a, n, i, j) == At(a, n, j, i)
  }

  // A square root on the positive reals.
  ghost predicate IsRoot(root: real -> real) {
    forall x: real | x > 0.0 :: root(x) > 0.0 && root(x) * root(x) == x
  }

  lemma {:induction false} DotSwap(s: seq<real>, n: nat, i: nat, j: nat, k: nat)
    ensures Dot(s, s, n, i, j, k) == Dot(s, s, n, j, i, k)
    decreases k
  {
    hide At;
    if k > 0 { DotSwap(s, n, i, j, k - 1); }
  }

  // For a symmetric matrix the factor gives back every cell.
  lemma {:induction false} FactorOfSymmetric(a: seq<real>, f: seq<real>, n: nat, i: nat, j: nat)
    requires Factor(a, f, n) && Symmetric(a, n) && i < n && j < n
    ensures Dot(f, f, n, i, j, n) == At(a, n, i, j)
  {
    hide At, Dot;
    if i < j { DotSwap(f, n, i, j, n); }
  }

  // ----- the equation each cell satisfies when it is computed -----

  ghost predicate Cell(a: seq<real>, l: seq<real>, n: nat, r: nat, c: nat) {
    && Dot(l, l, n, r, c, c) + At(l, n, r, c) * At(l, n, c, c) == At(a, n, r, c)
    && (r == c ==> At(l, n, r, r) > 0.0)
  }

  // Cells are computed row by row, up to the diagonal.
  ghost predicate Before(r: nat, c: nat, i: nat, j: nat) {
    c <= r && (r < i || (r == i && c < j))
  }

  ghost predicate Done(a: seq<real>, l: seq<real>, n: nat, i: nat, j: nat) {
    && |l| == n * n
    && (forall r: nat, c: nat | r < n && Before(r, c, i, j) :: Cell(a, l, n, r, c))
    && forall r: nat, c: nat | r < n && c < n && !Before(r, c, i, j) :: At(l, n, r, c) == 0.0
  }

  lemma {:induction false} DotSame(s: seq<real>, t: seq<real>, n: nat, i: nat, j: nat, k: nat)
    requires forall c: nat | c < k :: At(s, n, i, c) == At(t, n, i, c) && At(s, n, j, c) == At(t, n, j, c)
    ensures Dot(s, s, n, i, j, k) == Dot(t, t, n, i, j, k)
    decreases k
  {
    hide At;
    if k > 0 { DotSame(s, t, n, i, j, k - 1); }
  }

  // A new cell does not touch the sums of the cells before it, nor its own.
  lemma SumKept(l: seq<real>, l': seq<real>, n: nat, i: nat, j: nat, r: nat, c: nat)
    requires r < n && c <= r && (Before(r, c, i, j) || (r == i && c == j))
    requires forall p: nat, q: nat | q < n && (p != i || q != j) :: At(l', n, p, q) == At(l, n, p, q)
    ensures Dot(l', l', n, r, c, c) == Dot(l, l, n, r, c, c)
  {
    hide At, Dot;
    DotSame(l', l, n, r, c, c);
  }

  lemma Fill(a: seq<real>, l: seq<real>, n: nat, i: nat, j: nat, v: real, l': seq<real>)
    requires Done(a, l, n, i, j) && j <= i < n && Ix(n, i, j) < |l| && l' == l[Ix(n, i, j) := v]
    requires if i == j then v > 0.0 && Dot(l, l, n, i, i, i) + v * v == At(a, n, i, i)
             else Dot(l, l, n, i, j, j) + v * At(l, n, j, j) == At(a, n, i, j)
    ensures Done(a, l', n, i, j + 1)
  {
    hide At, Dot, Ix;
    SetAt(l, n, i, j, v, l');
    forall r: nat, c: nat | r < n && Before(r, c, i, j + 1) ensures Cell(a, l', n, r, c) {
      SumKept(l, l', n, i, j, r, c);
      if Before(r, c, i, j) { assert Cell(a, l, n, r, c); }
    }
  }

  lemma NextRow(a: seq<real>, l: seq<real>, n: nat, i: nat)
    requires Done(a, l, n, i, i + 1)
    ensures Done(a, l, n, i + 1, 0)
  {
    hide At, Cell;
  }

  // Terms beyond the diagonal of row j vanish.
  lemma {:induction false} DotTail(l: seq<real>, n: nat, i: nat, j: nat, k: nat)
    requires j < k <= n && forall c: nat | j < c < n :: At(l, n, j, c) == 0.0
    ensures Dot(l, l, n, i, j, k) == Dot(l, l, n, i, j, j) + At(l, n, i, j) * At(l, n, j, j)
    decreases k
  {
    hide At;
    if k > j + 1 {
      DotTail(l, n, i, j, k - 1);
      assert At(l, n, j, k - 1) == 0.0;
    }
  }

  // The finished computation is a factor, and a factor satisfies every cell's equation.
  lemma CellsMakeFactor(a: seq<real>, l: seq<real>, n: nat)
    requires Done(a, l, n, n, 0)
    ensures Factor(a, l, n)
  {
    hide At, Dot;
    forall i: nat, j: nat | j <= i < n ensures Dot(l, l, n, i, j, n) == At(a, n, i, j) {
      assert Cell(a, l, n, i, j);
      DotTail(l, n, i, j, n);
    }
    forall i: nat | i < n ensures At(l, n, i, i) > 0.0 {
      assert Cell(a, l, n, i, i);
    }
  }

  lemma FactorMakesCells(a: seq<real>, f: seq<real>, n: nat, i: nat, j: nat)
    requires Factor(a, f, n) && j <= i < n
    ensures Cell(a, f, n, i, j)
  {
    hide At, Dot;
    DotTail(f, n, i, j, n);
  }

  // ----- the computation finds the factor whenever there is one -----

  lemma SameDivision(x: real, y: real, d: real)
    requires x * d == y * d && d > 0.0
    ensures x == y
  {
    assert (x - y) * d == 0.0;
  }

  lemma SameSquare(x: real, y: real)
    requires x > 0.0 && y > 0.0 && x * x == y * y
    ensures x == y
  {
    assert (x - y) * (x + y) == 0.0;
  }

  // Every factor agrees with the cells computed so far.
  lemma {:induction false} Agrees(a: seq<real>, l: seq<real>, f: seq<real>, n: nat, i: nat, j: nat, r: nat, c: nat)
    requires Done(a, l, n, i, j) && Factor(a, f, n) && r < n && Before(r, c, i, j)
    ensures At(l, n, r, c) == At(f, n, r, c)
    decreases r, c
  {
    hide At, Dot, Factor;
    forall q: nat | q < c ensures At(l, n, r, q) == At(f, n, r, q) && At(l, n, c, q) == At(f, n, c, q) {
      Agrees(a, l, f, n, i, j, r, q);
      Agrees(a, l, f, n, i, j, c, q);
    }
    DotSame(l, f, n, r, c, c);
    assert Cell(a, l, n, r, c);
    FactorMakesCells(a, f, n, r, c);
    if c < r {
      Agrees(a, l, f, n, i, j, c, c);
      FactorMakesCells(a, f, n, c, c);
      SameDivision(At(l, n, r, c), At(f, n, r, c), At(f, n, c, c));
    } else {
      SameSquare(At(l, n, r, r), At(f, n, r, r));
    }
  }

  // A pivot that is not positive shows that there is no factor.
  lemma {:induction false} NoFactor(a: seq<real>, l: seq<real>, n: nat, i: nat)
    requires Done(a, l, n, i, i) && i < n && At(a, n, i, i) - Dot(l, l, n, i, i, i) <= 0.0
    ensures forall f: seq<real> :: !Factor(a, f, n)
  {
    hide At, Dot, Factor, Done;
    forall f: seq<real> ensures !Factor(a, f, n) {
      if Factor(a, f, n) {
        forall q: nat | q < i ensures At(l, n, i, q) == At(f, n, i, q) {
          Agrees(a, l, f, n, i, i, i, q);
        }
        DotSame(l, f, n, i, i, i);
        PivotPositive(a, f, n, i);
      }
    }
  }

  lemma PivotPositive(a: seq<real>, f: seq<real>, n: nat, i: nat)
    requires Factor(a, f, n) && i < n
    ensures At(a, n, i, i) - Dot(f, f, n, i, i, i) > 0.0
  {
    hide At, Factor;
    FactorMakesCells(a, f, n, i, i);
    Gap(Dot(f, f, n, i, i, i), At(f, n, i, i), At(f, n, i, i), At(a, n, i, i));
  }

  lemma Gap(x: real, d: real, e: real, y: real)
    requires x + d * e == y && d > 0.0 && e > 0.0
    ensures y - x > 0.0
  {
    MulPositive(d, e);
  }

  lemma MulPositive(d: real, e: real)
    requires d > 0.0 && e > 0.0
    ensures d * e > 0.0
  {
  }

  // A matrix has at most one factor.
  lemma FactorUnique(a: seq<real>, f: seq<real>, g: seq<real>, n: nat)
    requires Factor(a, f, n) && Factor(a, g, n)
    ensures f == g
  {
    hide At, Dot, Factor;
    FactorDone(a, f, n);
    FactorLength(a, f, n);
    FactorLength(a, g, n);
    forall x: nat | x < n * n ensures f[x] == g[x] {
      var i, j := IxOnto(n, n, x);
      if j <= i { Agrees(a, f, g, n, n, 0, i, j); }
      SameCell(a, f, g, n, i, j);
    }
  }

  lemma FactorDone(a: seq<real>, f: seq<real>, n: nat)
    requires Factor(a, f, n)
    ensures Done(a, f, n, n, 0)
  {
    hide At, Dot;
    forall r: nat, c: nat | r < n && Before(r, c, n, 0) ensures Cell(a, f, n, r, c) { FactorMakesCells(a, f, n, r, c); }
  }

  lemma FactorLength(a: seq<real>, f: seq<real>, n: nat)
    requires Factor(a, f, n)
    ensures |f| == n * n
  {
  }

  lemma SameCell(a: seq<real>, f: seq<real>, g: seq<real>, n: nat, i: nat, j: nat)
    requires Factor(a, f, n) && Factor(a, g, n) && i < n && j < n && (j <= i ==> At(f, n, i, j) == At(g, n, i, j))
    requires Ix(n, i, j) < n * n
    ensures f[Ix(n, i, j)] == g[Ix(n, i, j)]
  {
    hide Dot, Ix;
    assert At(f, n, i, j) == At(g, n, i, j);
  }

  // ----- the method -----

  // The sum over the columns before j.
  method Sum(l: array<real>, n: nat, i: nat, j: nat) returns (sum: real)
    requires j <= i < n && l.Length == n * n
    ensures sum == Dot(l[..], l[..], n, i, j, j)
  {
    sum := 0.0;
    var k := 0;
    while k < j
      invariant k <= j && sum == Dot(l[..], l[..], n, i, j, k)
    {
      IxBound(n, n, i, k);
      IxBound(n, n, j, k);
      sum := sum + l[Ix(n, i, k)] * l[Ix(n, j, k)];
      k := k + 1;
    }
  }

  // True exactly when the matrix is square and has a factor, which is then the result.
  method Decompose(a: array<real>, m: nat, n: nat, root: real -> real) returns (ok: bool, l: array<real>)
    requires a.Length == m * n && IsRoot(root)
    ensures ok <==> m == n && exists f: seq<real> :: Factor(a[..], f, n)
    ensures ok ==> Factor(a[..], l[..], n)
  {
    hide At, Dot, Factor, Done, Cell;
    l := new real[0];
    if m != n { return false, l; }
    l := new real[n * n](_ => 0.0);
    Start(a[..], l[..], n);
    var i := 0;
    while i < n
      invariant i <= n && l.Length == n * n && fresh(l) && Done(a[..], l[..], n, i, 0)
    {
      var j := 0;
      while j <= i
        invariant j <= i + 1 && l.Length == n * n && fresh(l) && Done(a[..], l[..], n, i, j)
      {
        ok := Step(a, l, n, i, j, root);
        if !ok { return; }
        j := j + 1;
      }
      NextRow(a[..], l[..], n, i);
      i := i + 1;
    }
    CellsMakeFactor(a[..], l[..], n);
    ok := true;
  }

  lemma Start(a: seq<real>, l: seq<real>, n: nat)
    requires |l| == n * n && forall x | 0 <= x < |l| :: l[x] == 0.0
    ensures Done(a, l, n, 0, 0)
  {
    hide Ix, Cell;
  }

  // The body of the two loops: one cell.
  method Step(a: array<real>, l: array<real>, n: nat, i: nat, j: nat, root: real -> real) returns (ok: bool)
    requires a.Length == l.Length == n * n && a != l && j <= i < n && Done(a[..], l[..], n, i, j) && IsRoot(root)
    modifies l
    ensures ok ==> Done(a[..], l[..], n, i, j + 1)
    ensures !ok ==> forall f: seq<real> :: !Factor(a[..], f, n)
  {
    hide Dot, Factor, Done, Ix, Cell;
    IxBound(n, n, i, j);
    IxBound(n, n, j, j);
    var sum := Sum(l, n, i, j);
    var value;
    ghost var was := l[..];
    if i == j {
      var pivot := a[Ix(n, i, i)] - sum;
      if pivot <= 0.0 {
        NoFactor(a[..], l[..], n, i);
        return false;
      }
      value := root(pivot);
    } else {
      DiagonalPositive(a[..], l[..], n, i, j);
      value := 1.0 / l[Ix(n, j, j)] * (a[Ix(n, i, j)] - sum);
      Quotient(a[Ix(n, i, j)] - sum, l[Ix(n, j, j)]);
    }
    l[Ix(n, i, j)] := value;
    assert l[..] == was[Ix(n, i, j) := value];
    Fill(a[..], was, n, i, j, value, l[..]);
    ok := true;
  }

  lemma DiagonalPositive(a: seq<real>, l: seq<real>, n: nat, i: nat, j: nat)
    requires Done(a, l, n, i, j) && j < i < n
    ensures At(l, n, j, j) > 0.0
  {
    hide At, Dot;
    assert Cell(a, l, n, j, j);
  }

  lemma Quotient(x: real, d: real)
    requires d > 0.0
    ensures (1.0 / d * x) * d == x
  {
    assert 1.0 / d * d == 1.0;
    assert (1.0 / d * x) * d == (1.0 / d * d) * x;
  }

  // ----- forward substitution -----

  // The first k terms of row j of l times column i of y.
  function Mix(l: seq<real>, y: seq<real>, n: nat, bn: nat, j: nat, i: nat, k: nat): real {
    if k == 0 then 0.0 else Mix(l, y, n, bn, j, i, k - 1) + At(l, n, j, k - 1) * At(y, bn, k - 1, i)
  }

  ghost predicate Triangular(l: seq<real>, n: nat) {
    && (forall i: nat, j: nat | i < j < n :: At(l, n, i, j) == 0.0)
    && forall i: nat | i < n :: At(l, n, i, i) > 0.0
  }

  // The rows before j of column i solve their equation.
  ghost predicate Solved(l: seq<real>, y: seq<real>, b: seq<real>, n: nat, bn: nat, j: nat, i: nat)
    requires j <= n
  {
    forall r: nat | r < j :: Mix(l, y, n, bn, r, i, r) + At(l, n, r, r) * At(y, bn, r, i) == At(b, bn, r, i)
  }

  lemma {:induction false} MixSame(l: seq<real>, y: seq<real>, z: seq<real>, n: nat, bn: nat, j: nat, i: nat, k: nat)
    requires forall r: nat | r < k :: At(y, bn, r, i) == At(z, bn, r, i)
    ensures Mix(l, y, n, bn, j, i, k) == Mix(l, z, n, bn, j, i, k)
    decreases k
  {
    hide At;
    if k > 0 { MixSame(l, y, z, n, bn, j, i, k - 1); }
  }

  // Writing another cell of the matrix keeps what has been solved.
  lemma SolvedKept(l: seq<real>, y: seq<real>, z: seq<real>, b: seq<real>, n: nat, bn: nat, j: nat, i: nat)
    requires j <= n && Solved(l, y, b, n, bn, j, i) && forall r: nat | r < j :: At(z, bn, r, i) == At(y, bn, r, i)
    ensures Solved(l, z, b, n, bn, j, i)
  {
    hide At, Mix;
    forall r: nat | r < j
      ensures Mix(l, z, n, bn, r, i, r) + At(l, n, r, r) * At(z, bn, r, i) == At(b, bn, r, i)
    {
      MixSame(l, y, z, n, bn, r, i, r);
      assert Mix(l, y, n, bn, r, i, r) + At(l, n, r, r) * At(y, bn, r, i) == At(b, bn, r, i);
    }
  }

  lemma {:induction false} MixTail(l: seq<real>, y: seq<real>, n: nat, bn: nat, j: nat, i: nat, k: nat)
    requires Triangular(l, n) && j < k <= n
    ensures Mix(l, y, n, bn, j, i, k) == Mix(l, y, n, bn, j, i, j) + At(l, n, j, j) * At(y, bn, j, i)
    decreases k
  {
    hide At;
    if k > j + 1 {
      MixTail(l, y, n, bn, j, i, k - 1);
      assert At(l, n, j, k - 1) == 0.0;
    }
  }

  // L * y = b, column by column.
  method ForwardSubstitute(l: array<real>, b: array<real>, n: nat, bm: nat, bn: nat) returns (y: array<real>)
    requires l.Length == n * n && b.Length == bm * bn && n <= bm && Triangular(l[..], n)
    ensures y.Length == bm * bn
    ensures forall i: nat, j: nat | i < bn && j < n :: Mix(l[..], y[..], n, bn, j, i, n) == At(b[..], bn, j, i)
  {
    hide At, Mix, Ix, Solved;
    y := new real[bm * bn];
    var i := 0;
    while i < bn
      invariant i <= bn && y.Length == bm * bn && fresh(y)
      invariant forall q: nat | q < i :: Solved(l[..], y[..], b[..], n, bn, n, q)
    {
      SolveColumn(l, b, y, n, bm, bn, i);
      i := i + 1;
    }
    forall i: nat, j: nat | i < bn && j < n ensures Mix(l[..], y[..], n, bn, j, i, n) == At(b[..], bn, j, i) {
      RowSolved(l[..], y[..], b[..], n, bn, j, i);
    }
  }

  lemma RowSolved(l: seq<real>, y: seq<real>, b: seq<real>, n: nat, bn: nat, j: nat, i: nat)
    requires Triangular(l, n) && j < n && Solved(l, y, b, n, bn, n, i)
    ensures Mix(l, y, n, bn, j, i, n) == At(b, bn, j, i)
  {
    hide At, Mix;
    MixTail(l, y, n, bn, j, i, n);
  }

  method SolveColumn(l: array<real>, b: array<real>, y: array<real>, n: nat, bm: nat, bn: nat, i: nat)
    requires l.Length == n * n && b.Length == y.Length == bm * bn && n <= bm && i < bn && y != l && y != b
    requires Triangular(l[..], n) && forall q: nat | q < i :: Solved(l[..], y[..], b[..], n, bn, n, q)
    modifies y
    ensures forall q: nat | q <= i :: Solved(l[..], y[..], b[..], n, bn, n, q)
  {
    hide At, Mix, Ix, Solved;
    Nothing(l[..], y[..], b[..], n, bn, i);
    var j := 0;
    while j < n
      invariant j <= n && Solved(l[..], y[..], b[..], n, bn, j, i)
      invariant forall q: nat | q < i :: Solved(l[..], y[..], b[..], n, bn, n, q)
    {
      SolveCell(l, b, y, n, bm, bn, j, i);
      j := j + 1;
    }
  }

  lemma Nothing(l: seq<real>, y: seq<real>, b: seq<real>, n: nat, bn: nat, i: nat)
    ensures Solved(l, y, b, n, bn, 0, i)
  {
  }

  // One cell: the terms before the diagonal are subtracted in place, then the diagonal divides.
  method SolveCell(l: array<real>, b: array<real>, y: array<real>, n: nat, bm: nat, bn: nat, j: nat, i: nat)
    requires l.Length == n * n && b.Length == y.Length == bm * bn && n <= bm && i < bn && j < n && y != l && y != b
    requires Triangular(l[..], n) && Solved(l[..], y[..], b[..], n, bn, j, i)
    requires forall q: nat | q < i :: Solved(l[..], y[..], b[..], n, bn, n, q)
    modifies y
    ensures Solved(l[..], y[..], b[..], n, bn, j + 1, i)
    ensures forall q: nat | q < i :: Solved(l[..], y[..], b[..], n, bn, n, q)
  {
    hide Mix, Ix, Solved, Triangular;
    ghost var was := y[..];
    IxBound(bm, bn, j, i);
    IxBound(n, n, j, j);
    var at := Ix(bn, j, i);
    y[at] := b[at];
    var k := 0;
    MixStart(l[..], was, n, bn, j, i);
    while k < j
      invariant k <= j && y[..] == was[at := y[at]] && y[at] == b[at] - Mix(l[..], was, n, bn, j, i, k)
    {
      IxBound(n, n, j, k);
      IxBound(bm, bn, k, i);
      NotSelf(bn, k, j, i);
      assert y[Ix(bn, k, i)] == y[..][Ix(bn, k, i)] == was[Ix(bn, k, i)];
      MixStep(l[..], was, n, bn, j, i, k);
      y[at] := y[at] - l[Ix(n, j, k)] * y[Ix(bn, k, i)];
      k := k + 1;
    }
    DiagonalNotZero(l[..], n, j);
    y[at] := y[at] / l[Ix(n, j, j)];
    CellSolved(l[..], was, b[..], n, bm, bn, j, i, y[at], y[..]);
  }

  lemma MixStart(l: seq<real>, y: seq<real>, n: nat, bn: nat, j: nat, i: nat)
    ensures Mix(l, y, n, bn, j, i, 0) == 0.0
  {
  }

  lemma MixStep(l: seq<real>, y: seq<real>, n: nat, bn: nat, j: nat, i: nat, k: nat)
    ensures Mix(l, y, n, bn, j, i, k + 1) == Mix(l, y, n, bn, j, i, k) + At(l, n, j, k) * At(y, bn, k, i)
  {
  }

  lemma NotSelf(bn: nat, k: nat, j: nat, i: nat)
    requires i < bn && k < j
    ensures Ix(bn, k, i) != Ix(bn, j, i)
  {
    hide Ix;
    if Ix(bn, k, i) == Ix(bn, j, i) { IxInjective(bn, k, i, j, i); }
  }

  lemma DiagonalNotZero(l: seq<real>, n: nat, j: nat)
    requires Triangular(l, n) && j < n
    ensures At(l, n, j, j) > 0.0
  {
    hide At;
  }

  lemma CellSolved(l: seq<real>, was: seq<real>, b: seq<real>, n: nat, bm: nat, bn: nat, j: nat, i: nat, v: real,
                   y: seq<real>)
    requires |was| == |b| == bm * bn && n <= bm && i < bn && j < n && Ix(bn, j, i) < |was| &&
            y == was[Ix(bn, j, i) := v]
    requires At(l, n, j, j) > 0.0 && v == (At(b, bn, j, i) - Mix(l, was, n, bn, j, i, j)) / At(l, n, j, j)
    requires Solved(l, was, b, n, bn, j, i) && forall q: nat | q < i :: Solved(l, was, b, n, bn, n, q)
    ensures Solved(l, y, b, n, bn, j + 1, i) && forall q: nat | q < i :: Solved(l, y, b, n, bn, n, q)
  {
    hide At, Mix, Ix;
    SetAt(was, bn, j, i, v, y);
    SolvedKept(l, was, y, b, n, bn, j, i);
    MixSame(l, was, y, n, bn, j, i, j);
    Divided(At(b, bn, j, i) - Mix(l, was, n, bn, j, i, j), At(l, n, j, j));
    forall q: nat | q < i ensures Solved(l, y, b, n, bn, n, q) {
      SolvedKept(l, was, y, b, n, bn, n, q);
    }
  }

  lemma Divided(x: real, d: real)
    requires d > 0.0
    ensures d * (x / d) == x
  {
  }

  // The first half of matrixf_cholesky_solve: factor, then solve L * y = b.
  method SolveLower(a: array<real>, m: nat, n: nat, b: array<real>, bm: nat, bn: nat, root: real -> real)
    returns (ok: bool, l: array<real>, y: array<real>)
    requires a.Length == m * n && b.Length == bm * bn && n <= bm && IsRoot(root)
    ensures ok <==> m == n && exists f: seq<real> :: Factor(a[..], f, n)
    ensures ok ==> Factor(a[..], l[..], n)
    ensures ok ==> forall i: nat, j: nat | i < bn && j < n :: Mix(l[..], y[..], n, bn, j, i, n) == At(b[..], bn, j, i)
  {
    hide At, Dot, Mix, Factor, Triangular;
    ok, l := Decompose(a, m, n, root);
    y := l;
    if ok {
      ghost var wasA, wasL := a[..], l[..];
      FactorTriangular(wasA, wasL, n);
      y := ForwardSubstitute(l, b, n, bm, bn);
      assert a[..] == wasA && l[..] == wasL;
    }
  }

  lemma FactorTriangular(a: seq<real>, f: seq<real>, n: nat)
    requires Factor(a, f, n)
    ensures |f| == n * n && Triangular(f, n)
  {
    hide At, Dot;
  }
}
