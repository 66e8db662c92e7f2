// The scalar multiply kernel of src/math_linalg32.c and the blocked ones, four rows at a time and four
// (SSE) or eight (AVX) columns at a time, with what is left over.
module MatrixMul {
  import opened Matrix

  // ----- how far a kernel has come -----

  // Rows before i are complete; of the h rows from i on, the columns before j, and e cells of column j.
  ghost predicate Done(r: nat, q: nat, i: nat, j: nat, h: nat, e: nat) {
    r < i || (r < i + h && q < j) || (r < i + e && q == j)
  }

  // The cells done hold the product and have been written once; the others have not been written.
  ghost predicate Filled(a: seq<real>, b: seq<real>, c: seq<real>, log: multiset<nat>, m: nat, n: nat, p: nat,
                         i: nat, j: nat, h: nat, e: nat)
  {
    && |c| == m * p
    && forall r: nat, q: nat | r < m && q < p ::
         if Done(r, q, i, j, h, e) then At(c, p, r, q) == Dot(a, b, n, r, q, n) && log[Ix(p, r, q)] == 1
         else log[Ix(p, r, q)] == 0
  }

  // Writing the next cell of a column.
  lemma Store(a: seq<real>, b: seq<real>, c: seq<real>, log: multiset<nat>, m: nat, n: nat, p: nat,
              i: nat, j: nat, h: nat, e: nat, v: real)
    requires Filled(a, b, c, log, m, n, p, i, j, h, e) && e < h && i + e < m && j < p
    requires v == Dot(a, b, n, i + e, j, n)
    ensures Ix(p, i + e, j) < |c|
    ensures Filled(a, b, c[Ix(p, i + e, j) := v], log + multiset{Ix(p, i + e, j)}, m, n, p, i, j, h, e + 1)
  {
    hide Dot, Ix, At;
    IxBound(m, p, i + e, j);
    var x := Ix(p, i + e, j);
    var c', log' := c[x := v], log + multiset{x};
    SetAt(c, p, i + e, j, v, c');
    forall r: nat, q: nat | r < m && q < p
      ensures if Done(r, q, i, j, h, e + 1) then At(c', p, r, q) == Dot(a, b, n, r, q, n) && log'[Ix(p, r, q)] == 1
              else log'[Ix(p, r, q)] == 0
    {
      if Ix(p, r, q) == x { IxInjective(p, r, q, i + e, j); }
    }
  }

  // A finished column of cells, and a finished band of rows.
  lemma NextColumn(a: seq<real>, b: seq<real>, c: seq<real>, log: multiset<nat>, m: nat, n: nat, p: nat, i: nat,
                   j: nat, h: nat)
    requires Filled(a, b, c, log, m, n, p, i, j, h, h)
    ensures Filled(a, b, c, log, m, n, p, i, j + 1, h, 0)
  {
    hide Dot, Ix, At;
  }

  lemma NextRows(a: seq<real>, b: seq<real>, c: seq<real>, log: multiset<nat>, m: nat, n: nat, p: nat, i: nat,
                 h: nat, g: nat)
    requires Filled(a, b, c, log, m, n, p, i, p, h, 0)
    ensures Filled(a, b, c, log, m, n, p, i + h, 0, g, 0)
  {
    hide Dot, Ix, At;
  }

  // Every cell of the result written exactly once.
  ghost predicate OnceEach(log: multiset<nat>, m: nat, p: nat) {
    forall x: nat | x < m * p :: log[x] == 1
  }

  lemma Complete(a: seq<real>, b: seq<real>, c: seq<real>, log: multiset<nat>, m: nat, n: nat, p: nat, h: nat)
    requires Filled(a, b, c, log, m, n, p, m, 0, h, 0)
    ensures Product(a, b, c, m, n, p) && OnceEach(log, m, p)
  {
    hide Dot, At;
    forall x: nat | x < m * p ensures log[x] == 1 {
      var i, j := IxOnto(m, p, x);
      assert Done(i, j, m, 0, h, 0);
    }
  }

  lemma Begin(a: seq<real>, b: seq<real>, c: seq<real>, m: nat, n: nat, p: nat, h: nat)
    requires |c| == m * p
    ensures Filled(a, b, c, multiset{}, m, n, p, 0, 0, h, 0)
  {
  }

  lemma RowFits(m: nat, n: nat, i: nat)
    requires i < m
    ensures Ix(n, i, n) <= m * n
  {
    RowsApart(n, i, m);
  }

  // ----- the sums -----

  // The loop over single columns, continuing a sum from a given column.
  method Columns(a: array<real>, b: array<real>, n: nat, i: nat, j: nat, from: nat, start: real) returns (sum: real)
    requires from <= n && Ix(n, i, n) <= a.Length && Ix(n, j, n) <= b.Length
    requires start == Dot(a[..], b[..], n, i, j, from)
    ensures sum == Dot(a[..], b[..], n, i, j, n)
  {
    sum := start;
    var k := from;
    while k < n
      invariant from <= k <= n && sum == Dot(a[..], b[..], n, i, j, k)
    {
      sum := sum + a[Ix(n, i, k)] * b[Ix(n, j, k)];
      k := k + 1;
    }
  }

  lemma DotStart(s: seq<real>, t: seq<real>, n: nat, i: nat, j: nat)
    ensures Dot(s, t, n, i, j, 0) == 0.0
  {
  }

  lemma ColumnFits(n: nat, i: nat, k: nat, w: nat, len: nat)
    requires k + w <= n && Ix(n, i, n) <= len
    ensures Ix(n, i, k) + w <= len
  {
  }

  lemma NextBlock(n: nat, k: nat, w: nat)
    requires (w == 4 || w == 8) && k % w == 0 && k < n - n % w
    ensures k + w <= n - n % w && (k + w) % w == 0
  {
    if w == 4 {
      assert (n - n % 4) % 4 == 0;
    } else {
      assert (n - n % 8) % 8 == 0;
    }
  }

  // One row: w columns at a time in lanes, then the columns left over.
  method OneSum(a: array<real>, b: array<real>, n: nat, i: nat, j: nat, w: nat) returns (sum: real)
    requires (w == 4 || w == 8) && Ix(n, i, n) <= a.Length && Ix(n, j, n) <= b.Length
    ensures sum == Dot(a[..], b[..], n, i, j, n)
  {
    hide Dot, At, Ix, HSum, Load, Fmadd;
    var lanes := Zeros(w);
    DotStart(a[..], b[..], n, i, j);
    var k := 0;
    while k < n - n % w
      invariant k <= n - n % w && k % w == 0 && |lanes| == w
      invariant HSum(lanes) == Dot(a[..], b[..], n, i, j, k)
      decreases n - k
    {
      NextBlock(n, k, w);
      ColumnFits(n, i, k, w, a.Length);
      ColumnFits(n, j, k, w, b.Length);
      LanesStep(a[..], b[..], n, i, j, k, w, lanes);
      lanes := Fmadd(Load(a[..], Ix(n, i, k), w), Load(b[..], Ix(n, j, k), w), lanes);
      k := k + w;
    }
    sum := Columns(a, b, n, i, j, k, HSum(lanes));
  }

  // Four rows at once, sharing the loads of b.
  method FourSums(a: array<real>, b: array<real>, n: nat, i: nat, j: nat, w: nat)
      returns (s0: real, s1: real, s2: real, s3: real)
    requires (w == 4 || w == 8) && Ix(n, j, n) <= b.Length
    requires Ix(n, i, n) <= a.Length && Ix(n, i + 1, n) <= a.Length && Ix(n, i + 2, n) <= a.Length &&
            Ix(n, i + 3, n) <= a.Length
    ensures s0 == Dot(a[..], b[..], n, i, j, n) && s1 == Dot(a[..], b[..], n, i + 1, j, n)
    ensures s2 == Dot(a[..], b[..], n, i + 2, j, n) && s3 == Dot(a[..], b[..], n, i + 3, j, n)
  {
    hide Dot, At, Ix, HSum, Load, Fmadd;
    var l0, l1, l2, l3 := Zeros(w), Zeros(w), Zeros(w), Zeros(w);
    DotStart(a[..], b[..], n, i, j);
    DotStart(a[..], b[..], n, i + 1, j);
    DotStart(a[..], b[..], n, i + 2, j);
    DotStart(a[..], b[..], n, i + 3, j);
    var k := 0;
    while k < n - n % w
      invariant k <= n - n % w && k % w == 0 && |l0| == |l1| == |l2| == |l3| == w
      invariant HSum(l0) == Dot(a[..], b[..], n, i, j, k) && HSum(l1) == Dot(a[..], b[..], n, i + 1, j, k)
      invariant HSum(l2) == Dot(a[..], b[..], n, i + 2, j, k) && HSum(l3) == Dot(a[..], b[..], n, i + 3, j, k)
      decreases n - k
    {
      NextBlock(n, k, w);
      ColumnFits(n, j, k, w, b.Length);
      var y := Load(b[..], Ix(n, j, k), w);
      l0 := LaneStep(a, b, n, i, j, k, w, l0, y);
      l1 := LaneStep(a, b, n, i + 1, j, k, w, l1, y);
      l2 := LaneStep(a, b, n, i + 2, j, k, w, l2, y);
      l3 := LaneStep(a, b, n, i + 3, j, k, w, l3, y);
      k := k + w;
    }
    s0 := Columns(a, b, n, i, j, k, HSum(l0));
    s1 := Columns(a, b, n, i + 1, j, k, HSum(l1));
    s2 := Columns(a, b, n, i + 2, j, k, HSum(l2));
    s3 := Columns(a, b, n, i + 3, j, k, HSum(l3));
  }

  method LaneStep(a: array<real>, b: array<real>, n: nat, i: nat, j: nat, k: nat, w: nat, l: Lanes, y: Lanes)
      returns (r: Lanes)
    requires (w == 4 || w == 8) && |l| == w && k + w <= n && Ix(n, i, n) <= a.Length && Ix(n, j, k) + w <= b.Length
    requires y == Load(b[..], Ix(n, j, k), w) && HSum(l) == Dot(a[..], b[..], n, i, j, k)
    ensures |r| == w && HSum(r) == Dot(a[..], b[..], n, i, j, k + w)
  {
    hide Dot, At, Ix, HSum, Load, Fmadd;
    ColumnFits(n, i, k, w, a.Length);
    LanesStep(a[..], b[..], n, i, j, k, w, l);
    r := Fmadd(Load(a[..], Ix(n, i, k), w), y, l);
  }

  // ----- the kernels -----

  // One row of the result; w == 1 is the scalar kernel, which uses no lanes.
  method OneRow(a: array<real>, b: array<real>, c: array<real>, m: nat, n: nat, p: nat, i: nat, w: nat,
                ghost before: multiset<nat>)
    returns (ghost log: multiset<nat>)
    requires a.Length == m * n && b.Length == p * n && c.Length == m * p && c != a && c != b
    requires i < m && (w == 1 || w == 4 || w == 8)
    requires Filled(a[..], b[..], c[..], before, m, n, p, i, 0, 1, 0)
    modifies c
    ensures Filled(a[..], b[..], c[..], log, m, n, p, i + 1, 0, 1, 0)
  {
    hide Dot, At, Ix, Filled;
    log := before;
    RowFits(m, n, i);
    var j := 0;
    while j < p
      invariant j <= p && Filled(a[..], b[..], c[..], log, m, n, p, i, j, 1, 0)
    {
      RowFits(p, n, j);
      var sum;
      if w == 1 {
        DotStart(a[..], b[..], n, i, j);
        sum := Columns(a, b, n, i, j, 0, 0.0);
      } else {
        sum := OneSum(a, b, n, i, j, w);
      }
      log := Put(a, b, c, m, n, p, i, j, 1, 0, sum, log);
      NextColumn(a[..], b[..], c[..], log, m, n, p, i, j, 1);
      j := j + 1;
    }
    NextRows(a[..], b[..], c[..], log, m, n, p, i, 1, 1);
  }

  // Write one cell, and count the write.
  method Put(a: array<real>, b: array<real>, c: array<real>, m: nat, n: nat, p: nat, i: nat, j: nat, h: nat, e: nat,
             v: real, ghost before: multiset<nat>) returns (ghost log: multiset<nat>)
    requires c != a && c != b && e < h && i + e < m && j < p && v == Dot(a[..], b[..], n, i + e, j, n)
    requires Filled(a[..], b[..], c[..], before, m, n, p, i, j, h, e)
    modifies c
    ensures Filled(a[..], b[..], c[..], log, m, n, p, i, j, h, e + 1)
  {
    hide Dot, At, Ix, Filled;
    Store(a[..], b[..], c[..], before, m, n, p, i, j, h, e, v);
    ghost var was := c[..];
    c[Ix(p, i + e, j)] := v;
    assert c[..] == was[Ix(p, i + e, j) := v];
    log := before + multiset{Ix(p, i + e, j)};
  }

  method FourRows(a: array<real>, b: array<real>, c: array<real>, m: nat, n: nat, p: nat, i: nat, w: nat,
                  ghost before: multiset<nat>)
    returns (ghost log: multiset<nat>)
    requires a.Length == m * n && b.Length == p * n && c.Length == m * p && c != a && c != b
    requires i + 4 <= m && (w == 4 || w == 8)
    requires Filled(a[..], b[..], c[..], before, m, n, p, i, 0, 4, 0)
    modifies c
    ensures Filled(a[..], b[..], c[..], log, m, n, p, i + 4, 0, 4, 0)
  {
    hide Dot, At, Ix, Filled;
    log := before;
    RowFits(m, n, i);
    RowFits(m, n, i + 1);
    RowFits(m, n, i + 2);
    RowFits(m, n, i + 3);
    var j := 0;
    while j < p
      invariant j <= p && Filled(a[..], b[..], c[..], log, m, n, p, i, j, 4, 0)
    {
      RowFits(p, n, j);
      var s0, s1, s2, s3 := FourSums(a, b, n, i, j, w);
      log := Put(a, b, c, m, n, p, i, j, 4, 0, s0, log);
      log := Put(a, b, c, m, n, p, i, j, 4, 1, s1, log);
      log := Put(a, b, c, m, n, p, i, j, 4, 2, s2, log);
      log := Put(a, b, c, m, n, p, i, j, 4, 3, s3, log);
      NextColumn(a[..], b[..], c[..], log, m, n, p, i, j, 4);
      j := j + 1;
    }
    NextRows(a[..], b[..], c[..], log, m, n, p, i, 4, 4);
  }

  method MulScalar(a: array<real>, b: array<real>, c: array<real>, m: nat, n: nat, p: nat)
      returns (ghost log: multiset<nat>)
    requires a.Length == m * n && b.Length == p * n && c.Length == m * p && c != a && c != b
    modifies c
    ensures Product(a[..], b[..], c[..], m, n, p) && OnceEach(log, m, p)
  {
    hide Dot, At, Ix, Filled;
    log := multiset{};
    Begin(a[..], b[..], c[..], m, n, p, 1);
    var i := 0;
    while i < m
      invariant i <= m && Filled(a[..], b[..], c[..], log, m, n, p, i, 0, 1, 0)
    {
      log := OneRow(a, b, c, m, n, p, i, 1, log);
      i := i + 1;
    }
    Complete(a[..], b[..], c[..], log, m, n, p, 1);
  }

  // Four lanes for SSE, eight for AVX. Both compute what the scalar kernel computes.
  method MulBlocked(a: array<real>, b: array<real>, c: array<real>, m: nat, n: nat, p: nat, w: nat)
      returns (ghost log: multiset<nat>)
    requires a.Length == m * n && b.Length == p * n && c.Length == m * p && c != a && c != b && (w == 4 || w == 8)
    modifies c
    ensures Product(a[..], b[..], c[..], m, n, p) && OnceEach(log, m, p)
  {
    hide Dot, At, Ix, Filled;
    log := multiset{};
    Begin(a[..], b[..], c[..], m, n, p, 4);
    var blocks := m - m % 4;
    var i := 0;
    while i < blocks
      invariant i <= blocks && i % 4 == 0 && Filled(a[..], b[..], c[..], log, m, n, p, i, 0, 4, 0)
    {
      log := FourRows(a, b, c, m, n, p, i, w, log);
      i := i + 4;
    }
    BandHeight(a[..], b[..], c[..], log, m, n, p, i, 4, 1);
    while i < m
      invariant i <= m && Filled(a[..], b[..], c[..], log, m, n, p, i, 0, 1, 0)
    {
      log := OneRow(a, b, c, m, n, p, i, w, log);
      i := i + 1;
    }
    Complete(a[..], b[..], c[..], log, m, n, p, 1);
  }

  // Between bands their height does not matter.
  lemma BandHeight(a: seq<real>, b: seq<real>, c: seq<real>, log: multiset<nat>, m: nat, n: nat, p: nat, i: nat,
                   h: nat, g: nat)
    requires Filled(a, b, c, log, m, n, p, i, 0, h, 0)
    ensures Filled(a, b, c, log, m, n, p, i, 0, g, 0)
  {
    hide Dot, Ix, At;
  }

  // The kernels run one after the other on the same operands leave the same buffer.
  method KernelsAgree(a: array<real>, b: array<real>, c: array<real>, d: array<real>, m: nat, n: nat, p: nat, w: nat)
    requires a.Length == m * n && b.Length == p * n && c.Length == d.Length == m * p && (w == 4 || w == 8)
    requires c != a && c != b && d != a && d != b && c != d
    modifies c, d
    ensures c[..] == d[..]
  {
    hide Product;
    ghost var l1 := MulScalar(a, b, c, m, n, p);
    ghost var l2 := MulBlocked(a, b, d, m, n, p, w);
    ProductUnique(a[..], b[..], c[..], d[..], m, n, p);
  }
}
