// A symmetric matrix has a Cholesky factor exactly when it is positive definite.
module PositiveDefinite {
  import opened Matrix
  import opened Cholesky

  // ----- quadratic forms -----

  // The first r terms of row p of a times x.
  function RowTimes(a: seq<real>, n: nat, x: seq<real>, p: nat, r: nat): real
    requires r <= |x|
  {
    if r == 0 then 0.0 else RowTimes(a, n, x, p, r - 1) + x[r - 1] * At(a, n, p, r - 1)
  }

  // x^T a x over the first s rows and r columns.
  function Form(a: seq<real>, n: nat, x: seq<real>, s: nat, r: nat): real
    requires s <= |x| && r <= |x|
  {
    if s == 0 then 0.0 else Form(a, n, x, s - 1, r) + x[s - 1] * RowTimes(a, n, x, s - 1, r)
  }

  ghost predicate Nonzero(x: seq<real>) {
    exists i :: 0 <= i < |x| && x[i] != 0.0
  }

  ghost predicate Positive(a: seq<real>, n: nat) {
    forall x: seq<real> | |x| == n && Nonzero(x) :: Form(a, n, x, n, n) > 0.0
  }

  // ----- the form of a product l * l^T -----

  // Column k of l times x, over the first r rows.
  function Column(l: seq<real>, n: nat, x: seq<real>, k: nat, r: nat): real
    requires r <= |x|
  {
    if r == 0 then 0.0 else Column(l, n, x, k, r - 1) + x[r - 1] * At(l, n, r - 1, k)
  }

  function GramRow(l: seq<real>, n: nat, x: seq<real>, p: nat, r: nat, m: nat): real
    requires r <= |x|
  {
    if r == 0 then 0.0 else GramRow(l, n, x, p, r - 1, m) + x[r - 1] * Dot(l, l, n, p, r - 1, m)
  }

  // The form of the product of the first m columns of l with their transpose.
  function Gram(l: seq<real>, n: nat, x: seq<real>, s: nat, r: nat, m: nat): real
    requires s <= |x| && r <= |x|
  {
    if s == 0 then 0.0 else Gram(l, n, x, s - 1, r, m) + x[s - 1] * GramRow(l, n, x, s - 1, r, m)
  }

  function Squares(l: seq<real>, n: nat, x: seq<real>, r: nat, m: nat): real
    requires r <= |x|
  {
    if m == 0 then 0.0 else Squares(l, n, x, r, m - 1) + Column(l, n, x, m - 1, r) * Column(l, n, x, m - 1, r)
  }

  lemma Distribute(x: real, d: real, u: real, v: real, g: real, c: real)
    ensures (g + u * c) + x * (d + u * v) == (g + x * d) + u * (c + x * v)
  {
  }

  lemma {:induction false} GramRowStep(l: seq<real>, n: nat, x: seq<real>, p: nat, r: nat, m: nat)
    requires r <= |x| && m > 0
    ensures GramRow(l, n, x, p, r, m) == GramRow(l, n, x, p, r, m - 1) + At(l, n, p, m - 1) * Column(l, n, x, m - 1, r)
    decreases r
  {
    hide At;
    if r > 0 {
      GramRowStep(l, n, x, p, r - 1, m);
      Distribute(x[r - 1], Dot(l, l, n, p, r - 1, m - 1), At(l, n, p, m - 1), At(l, n, r - 1, m - 1),
                 GramRow(l, n, x, p, r - 1, m - 1), Column(l, n, x, m - 1, r - 1));
    }
  }

  lemma Combine(x: real, row: real, u: real, c: real, g: real, d: real)
    ensures (g + d * c) + x * (row + u * c) == (g + x * row) + (d + x * u) * c
  {
  }

  lemma {:induction false} GramStep(l: seq<real>, n: nat, x: seq<real>, s: nat, r: nat, m: nat)
    requires s <= |x| && r <= |x| && m > 0
    ensures Gram(l, n, x, s, r, m) == Gram(l, n, x, s, r, m - 1) + Column(l, n, x, m - 1, s) * Column(l, n, x, m - 1, r)
    decreases s
  {
    hide At, GramRow, Dot;
    if s > 0 {
      GramStep(l, n, x, s - 1, r, m);
      GramRowStep(l, n, x, s - 1, r, m);
      Combine(x[s - 1], GramRow(l, n, x, s - 1, r, m - 1), At(l, n, s - 1, m - 1), Column(l, n, x, m - 1, r),
              Gram(l, n, x, s - 1, r, m - 1), Column(l, n, x, m - 1, s - 1));
    }
  }

  lemma {:induction false} GramNone(l: seq<real>, n: nat, x: seq<real>, s: nat, r: nat)
    requires s <= |x| && r <= |x|
    ensures Gram(l, n, x, s, r, 0) == 0.0
    decreases s
  {
    if s > 0 {
      GramNone(l, n, x, s - 1, r);
      GramRowNone(l, n, x, s - 1, r);
    }
  }

  lemma {:induction false} GramRowNone(l: seq<real>, n: nat, x: seq<real>, p: nat, r: nat)
    requires r <= |x|
    ensures GramRow(l, n, x, p, r, 0) == 0.0
    decreases r
  {
    if r > 0 { GramRowNone(l, n, x, p, r - 1); }
  }

  // It is a sum of squares.
  lemma {:induction false} GramSquares(l: seq<real>, n: nat, x: seq<real>, r: nat, m: nat)
    requires r <= |x|
    ensures Gram(l, n, x, r, r, m) == Squares(l, n, x, r, m)
    decreases m
  {
    hide At, GramRow, Dot, Column, Gram;
    if m == 0 {
      GramNone(l, n, x, r, r);
    } else {
      GramSquares(l, n, x, r, m - 1);
      GramStep(l, n, x, r, r, m);
    }
  }

  // ----- a factor makes the form positive -----

  lemma {:induction false} RowIsGram(a: seq<real>, l: seq<real>, n: nat, x: seq<real>, p: nat, r: nat, m: nat)
    requires r <= |x| && forall q: nat | q < r :: At(a, n, p, q) == Dot(l, l, n, p, q, m)
    ensures RowTimes(a, n, x, p, r) == GramRow(l, n, x, p, r, m)
    decreases r
  {
    hide At, Dot;
    if r > 0 { RowIsGram(a, l, n, x, p, r - 1, m); }
  }

  lemma {:induction false} FormIsGram(a: seq<real>, l: seq<real>, n: nat, x: seq<real>, s: nat, r: nat, m: nat)
    requires s <= |x| && r <= |x| && forall p: nat, q: nat | p < s && q < r :: At(a, n, p, q) == Dot(l, l, n, p, q, m)
    ensures Form(a, n, x, s, r) == Gram(l, n, x, s, r, m)
    decreases s
  {
    hide At, Dot, RowTimes, GramRow;
    if s > 0 {
      FormIsGram(a, l, n, x, s - 1, r, m);
      RowIsGram(a, l, n, x, s - 1, r, m);
    }
  }

  lemma Square(x: real, y: real)
    requires x == y
    ensures x * y >= 0.0
    ensures x != 0.0 ==> x * y > 0.0
  {
    if x > 0.0 { MulPositive(x, y); } else if x < 0.0 { MulPositive(0.0 - x, 0.0 - y); }
  }

  lemma AddSquare(s: real, c: real, d: real)
    requires c == d && s >= 0.0
    ensures s + c * d >= s
    ensures c != 0.0 ==> s + c * d > 0.0
  {
    Square(c, d);
  }

  lemma {:induction false} SquaresAtLeast(l: seq<real>, n: nat, x: seq<real>, r: nat, m: nat, k: nat)
    requires r <= |x|
    ensures Squares(l, n, x, r, m) >= 0.0
    ensures k < m && Column(l, n, x, k, r) != 0.0 ==> Squares(l, n, x, r, m) > 0.0
    decreases m
  {
    hide Column;
    if m > 0 {
      SquaresAtLeast(l, n, x, r, m - 1, k);
      AddSquare(Squares(l, n, x, r, m - 1), Column(l, n, x, m - 1, r), Column(l, n, x, m - 1, r));
    }
  }

  lemma {:induction false} LastNonzero(x: seq<real>, r: nat) returns (k: nat)
    requires r <= |x| && exists i :: 0 <= i < r && x[i] != 0.0
    ensures k < r && x[k] != 0.0 && forall i | k < i < r :: x[i] == 0.0
    decreases r
  {
    if x[r - 1] != 0.0 { k := r - 1; } else { k := LastNonzero(x, r - 1); }
  }

  // Column k of a lower triangular matrix, with nothing in x below row k, is its diagonal term.
  lemma {:induction false} ColumnDiagonal(l: seq<real>, n: nat, x: seq<real>, k: nat, r: nat)
    requires r <= |x| <= n && k < |x| && (forall i: nat | i < k :: At(l, n, i, k) == 0.0) &&
            forall i | k < i < |x| :: x[i] == 0.0
    ensures Column(l, n, x, k, r) == if k < r then x[k] * At(l, n, k, k) else 0.0
    decreases r
  {
    hide At;
    if r > 0 {
      ColumnDiagonal(l, n, x, k, r - 1);
      if r - 1 < k { assert At(l, n, r - 1, k) == 0.0; }
    }
  }

  lemma Product(x: real, d: real)
    requires x != 0.0 && d > 0.0
    ensures x * d != 0.0
  {
  }

  lemma FactorPositive(a: seq<real>, f: seq<real>, n: nat, x: seq<real>)
    requires Factor(a, f, n) && Symmetric(a, n) && |x| == n && Nonzero(x)
    ensures Form(a, n, x, n, n) > 0.0
  {
    hide At, Dot, Form, Gram, Column, Squares;
    forall p: nat, q: nat | p < n && q < n ensures At(a, n, p, q) == Dot(f, f, n, p, q, n) {
      FactorOfSymmetric(a, f, n, p, q);
    }
    FormIsGram(a, f, n, x, n, n, n);
    GramSquares(f, n, x, n, n);
    var k := LastNonzero(x, n);
    ColumnDiagonal(f, n, x, k, n);
    Product(x[k], At(f, n, k, k));
    SquaresAtLeast(f, n, x, n, n, k);
  }

  // ----- a pivot that is not positive makes it not positive -----

  // Changing one entry of x changes a column sum by the difference.
  lemma {:induction false} ColumnSet(l: seq<real>, n: nat, x: seq<real>, k: nat, r: nat, p: nat, v: real)
    requires r <= |x| && p < |x|
    ensures Column(l, n, x[p := v], k, r) == Column(l, n, x, k, r) + if p < r then (v - x[p]) * At(l, n, p, k) else 0.0
    decreases r
  {
    hide At;
    if r > 0 {
      ColumnSet(l, n, x, k, r - 1, p, v);
      if p == r - 1 { SplitProduct(v, x[p], At(l, n, p, k)); }
    }
  }

  lemma SplitProduct(v: real, x: real, d: real)
    ensures v * d == x * d + (v - x) * d
  {
  }

  lemma Clears(c: real, d: real)
    requires d != 0.0
    ensures c + ((0.0 - c / d) - 0.0) * d == 0.0
  {
    assert c / d * d == c;
  }

  // A vector with entry 1 at i, nothing after it, and column sums 0 for the columns from k to i.
  ghost predicate Clearing(l: seq<real>, n: nat, i: nat, k: nat, x: seq<real>, r: nat) {
    && |x| == n && i < n && k <= i && x[i] == 1.0 && r == i + 1
    && (forall p | i < p < n :: x[p] == 0.0)
    && (forall p | 0 <= p < k :: x[p] == 0.0)
    && forall c: nat | k <= c < i :: Column(l, n, x, c, r) == 0.0
  }

  lemma {:induction false} Clear(l: seq<real>, n: nat, i: nat, k: nat) returns (x: seq<real>)
    requires k <= i < n
    requires forall p: nat, q: nat | p < q < i :: At(l, n, p, q) == 0.0
    requires forall p: nat | p < i :: At(l, n, p, p) > 0.0
    ensures Clearing(l, n, i, k, x, i + 1)
    decreases i - k
  {
    hide At, Column;
    if k == i {
      x := seq(n, p => if p == i then 1.0 else 0.0);
    } else {
      var r := i + 1;
      var y := Clear(l, n, i, k + 1);
      var c, d := Column(l, n, y, k, r), At(l, n, k, k);
      x := y[k := 0.0 - c / d];
      ColumnSet(l, n, y, k, r, k, 0.0 - c / d);
      Clears(c, d);
      forall q: nat | k <= q < i ensures Column(l, n, x, q, r) == 0.0 {
        ColumnSet(l, n, y, q, r, k, 0.0 - c / d);
        if q > k { assert At(l, n, k, q) == 0.0; }
      }
    }
  }

  lemma {:induction false} SquaresZero(l: seq<real>, n: nat, x: seq<real>, r: nat, m: nat)
    requires r <= |x| && forall c: nat | c < m :: Column(l, n, x, c, r) == 0.0
    ensures Squares(l, n, x, r, m) == 0.0
    decreases m
  {
    hide Column;
    if m > 0 { SquaresZero(l, n, x, r, m - 1); }
  }

  // Entries past r that are 0 do not count.
  lemma {:induction false} RowShort(a: seq<real>, n: nat, x: seq<real>, p: nat, r: nat, s: nat)
    requires r <= s <= |x| && forall q | r <= q < s :: x[q] == 0.0
    ensures RowTimes(a, n, x, p, s) == RowTimes(a, n, x, p, r)
    decreases s
  {
    hide At;
    if r < s { RowShort(a, n, x, p, r, s - 1); }
  }

  lemma {:induction false} FormShort(a: seq<real>, n: nat, x: seq<real>, s: nat, t: nat, r: nat, u: nat)
    requires r <= u <= |x| && s <= t <= |x| && (forall q | r <= q < u :: x[q] == 0.0) &&
            forall q | s <= q < t :: x[q] == 0.0
    ensures Form(a, n, x, t, u) == Form(a, n, x, s, r)
    decreases t
  {
    hide At, RowTimes;
    if s < t {
      FormShort(a, n, x, s, t - 1, r, u);
    } else if t > 0 {
      FormColumns(a, n, x, t, r, u);
    }
  }

  lemma {:induction false} FormColumns(a: seq<real>, n: nat, x: seq<real>, s: nat, r: nat, u: nat)
    requires r <= u <= |x| && s <= |x| && forall q | r <= q < u :: x[q] == 0.0
    ensures Form(a, n, x, s, u) == Form(a, n, x, s, r)
    decreases s
  {
    hide At, RowTimes;
    if s > 0 {
      FormColumns(a, n, x, s - 1, r, u);
      RowShort(a, n, x, s - 1, r, u);
    }
  }

  // What the cells computed before the pivot of row i say about the block up to row i.
  lemma BlockIsGram(a: seq<real>, l: seq<real>, n: nat, i: nat, p: nat, q: nat)
    requires Done(a, l, n, i, i) && Symmetric(a, n) && i < n && p <= i && q <= i && (p < i || q < i)
    ensures At(a, n, p, q) == Dot(l, l, n, p, q, i)
  {
    hide At, Dot;
    if p >= q {
      assert Cell(a, l, n, p, q);
      DotTail(l, n, p, q, i);
    } else {
      assert Cell(a, l, n, q, p);
      DotTail(l, n, q, p, i);
      DotSwap(l, n, q, p, i);
    }
  }

  lemma PivotForm(x: real, row: real, pivot: real, g: real)
    requires x == 1.0
    ensures g + x * (row + x * pivot) == g + x * row + pivot
  {
  }

  lemma BlockForm(a: seq<real>, l: seq<real>, n: nat, i: nat, x: seq<real>)
    requires Done(a, l, n, i, i) && Symmetric(a, n) && i < n && |x| == n && x[i] == 1.0
    ensures Form(a, n, x, i + 1, i + 1) == Gram(l, n, x, i + 1, i + 1, i) + (At(a, n, i, i) - Dot(l, l, n, i, i, i))
  {
    hide At, Dot, Done, Symmetric;
    forall p: nat, q: nat | p < i && q < i + 1 ensures At(a, n, p, q) == Dot(l, l, n, p, q, i) {
      BlockIsGram(a, l, n, i, p, q);
    }
    FormIsGram(a, l, n, x, i, i + 1, i);
    forall q: nat | q < i ensures At(a, n, i, q) == Dot(l, l, n, i, q, i) { BlockIsGram(a, l, n, i, i, q); }
    RowIsGram(a, l, n, x, i, i, i);
    PivotForm(x[i], GramRow(l, n, x, i, i + 1, i), At(a, n, i, i) - Dot(l, l, n, i, i, i), Gram(l, n, x, i, i + 1, i));
  }

  lemma NotPositive(a: seq<real>, l: seq<real>, n: nat, i: nat)
    requires Done(a, l, n, i, i) && Symmetric(a, n) && i < n && At(a, n, i, i) - Dot(l, l, n, i, i, i) <= 0.0
    ensures !Positive(a, n)
  {
    hide At, Dot, Form, Gram, Squares, Column, Symmetric;
    forall p: nat | p < i ensures At(l, n, p, p) > 0.0 { assert Cell(a, l, n, p, p); }
    var x := Clear(l, n, i, 0);
    BlockForm(a, l, n, i, x);
    GramSquares(l, n, x, i + 1, i);
    SquaresZero(l, n, x, i + 1, i);
    FormShort(a, n, x, i + 1, n, i + 1, n);
    assert Nonzero(x);
  }

  // ----- the computation as a search -----

  // From the cells before (i, j): a factor, or a pivot that is not positive.
  lemma {:induction false} FactorOrPivot(a: seq<real>, l: seq<real>, n: nat, i: nat, j: nat, root: real -> real)
    returns (f: seq<real>, p: nat)
    requires Done(a, l, n, i, j) && i <= n && j <= i && IsRoot(root) && (i == n ==> j == 0)
    ensures Factor(a, f, n) || (p < n && Done(a, f, n, p, p) && At(a, n, p, p) - Dot(f, f, n, p, p, p) <= 0.0)
    decreases n - i, i - j
  {
    hide At, Dot, Factor, Done, Ix, Cell;
    f, p := l, 0;
    if i == n {
      CellsMakeFactor(a, l, n);
    } else {
      DoneLength(a, l, n, i, j);
      IxBound(n, n, i, j);
      if j < i {
        DiagonalPositive(a, l, n, i, j);
        var x, d := At(a, n, i, j) - Dot(l, l, n, i, j, j), At(l, n, j, j);
        Quotient(x, d);
        var l' := l[Ix(n, i, j) := 1.0 / d * x];
        Fill(a, l, n, i, j, 1.0 / d * x, l');
        f, p := FactorOrPivot(a, l', n, i, j + 1, root);
      } else {
        var pivot := At(a, n, i, i) - Dot(l, l, n, i, i, i);
        if pivot <= 0.0 {
          f, p := l, i;
        } else {
          var l' := l[Ix(n, i, i) := root(pivot)];
          Fill(a, l, n, i, i, root(pivot), l');
          NextRow(a, l', n, i);
          f, p := FactorOrPivot(a, l', n, i + 1, 0, root);
        }
      }
    }
  }

  lemma DoneLength(a: seq<real>, l: seq<real>, n: nat, i: nat, j: nat)
    requires Done(a, l, n, i, j)
    ensures |l| == n * n
  {
  }

  // A symmetric matrix has a factor, and the factorisation succeeds on it, exactly when x^T a x is
  // positive for every x that is not zero.
  lemma {:induction false} FactorIffPositive(a: seq<real>, n: nat, root: real -> real)
    requires Symmetric(a, n) && IsRoot(root)
    ensures (exists f: seq<real> :: Factor(a, f, n)) <==> Positive(a, n)
  {
    hide At, Dot, Factor, Done, Form, Symmetric, IsRoot;
    if f: seq<real> :| Factor(a, f, n) {
      forall x: seq<real> | |x| == n && Nonzero(x) ensures Form(a, n, x, n, n) > 0.0 { FactorPositive(a, f, n, x); }
    }
    if Positive(a, n) {
      var zero := seq(n * n, _ => 0.0);
      Start(a, zero, n);
      var f, p := FactorOrPivot(a, zero, n, 0, 0, root);
      if !Factor(a, f, n) { NotPositive(a, f, n, p); }
    }
  }
}
