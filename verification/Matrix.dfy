// Matrices of src/math_linalg32.c over exact reals: row-major buffers, row products, and the multiply
// kernels.
module Matrix {

  // ----- cells -----

  function Ix(n: nat, i: nat, j: nat): nat {
    i * n + j
  }

  lemma IxBound(m: nat, n: nat, i: nat, j: nat)
    requires i < m && j < n
    ensures Ix(n, i, j) < m * n
  {
    assert (i + 1) * n <= m * n;
  }

  lemma RowsApart(n: nat, i: nat, r: nat)
    requires i < r
    ensures i * n + n <= r * n
  {
    assert (r - i - 1) * n >= 0;
    assert (r - i - 1) * n == r * n - i * n - n;
  }

  lemma IxInjective(n: nat, i: nat, j: nat, r: nat, c: nat)
    requires j < n && c < n && Ix(n, i, j) == Ix(n, r, c)
    ensures i == r && j == c
  {
    if i < r {
      RowsApart(n, i, r);
    } else if r < i {
      RowsApart(n, r, i);
    }
  }

  // Every position of the buffer is a cell.
  lemma IxOnto(m: nat, n: nat, x: nat) returns (i: nat, j: nat)
    requires x < m * n
    ensures i < m && j < n && x == Ix(n, i, j)
  {
    i, j := x / n, x % n;
  }

  // Cell (i, j) of a buffer whose rows are n long; 0 past its end.
  function At(s: seq<real>, n: nat, i: nat, j: nat): real {
    if Ix(n, i, j) < |s| then s[Ix(n, i, j)] else 0.0
  }

  lemma SetAt(s: seq<real>, n: nat, i: nat, j: nat, v: real, s': seq<real>)
    requires j < n && Ix(n, i, j) < |s| && s' == s[Ix(n, i, j) := v]
    ensures At(s', n, i, j) == v
    ensures forall r: nat, c: nat | c < n && (r != i || c != j) :: At(s', n, r, c) == At(s, n, r, c)
  {
    forall r: nat, c: nat | c < n && (r != i || c != j) ensures At(s', n, r, c) == At(s, n, r, c) {
      hide Ix;
      if Ix(n, r, c) == Ix(n, i, j) { IxInjective(n, i, j, r, c); }
    }
  }

  // ----- row products -----

  // The first k terms of row i of s times row j of t.
  function Dot(s: seq<real>, t: seq<real>, n: nat, i: nat, j: nat, k: nat): real {
    if k == 0 then 0.0 else Dot(s, t, n, i, j, k - 1) + At(s, n, i, k - 1) * At(t, n, j, k - 1)
  }

  // C = A * B, where B is given by its columns.
  ghost predicate Product(a: seq<real>, b: seq<real>, c: seq<real>, m: nat, n: nat, p: nat) {
    |c| == m * p && forall i: nat, j: nat | i < m && j < p :: At(c, p, i, j) == Dot(a, b, n, i, j, n)
  }

  // The product determines every cell of the buffer.
  lemma ProductUnique(a: seq<real>, b: seq<real>, c: seq<real>, d: seq<real>, m: nat, n: nat, p: nat)
    requires Product(a, b, c, m, n, p) && Product(a, b, d, m, n, p)
    ensures c == d
  {
    forall x: nat | x < m * p ensures c[x] == d[x] {
      var i, j := IxOnto(m, p, x);
      assert At(c, p, i, j) == At(d, p, i, j);
    }
  }

  // ----- lanes -----

  type Lanes = x: seq<real> | |x| == 4 || |x| == 8 witness [0.0, 0.0, 0.0, 0.0]

  function Zeros(w: nat): (x: Lanes)
    requires w == 4 || w == 8
    ensures |x| == w && HSum(x) == 0.0
  {
    if w == 4 then [0.0, 0.0, 0.0, 0.0] else [0.0, 0.0, 0.0, 0.0, 0.0, 0.0, 0.0, 0.0]
  }

  // Multiply and add, lane by lane.
  function Fmadd(x: Lanes, y: Lanes, z: Lanes): (r: Lanes)
    requires |x| == |y| == |z|
    ensures |r| == |x| && forall k | 0 <= k < |r| :: r[k] == x[k] * y[k] + z[k]
  {
    seq(|x|, k requires 0 <= k < |x| => x[k] * y[k] + z[k])
  }

  // The horizontal sums of include/libromano/simd.h, in the order of their shuffles.
  function HSum(x: Lanes): real {
    if |x| == 4 then
      var shuf := [x[1], x[0], x[3], x[2]];
      var sums := [x[0] + shuf[0], x[1] + shuf[1], x[2] + shuf[2], x[3] + shuf[3]];
      sums[0] + sums[2]
    else
      var sum := [x[4] + x[0], x[5] + x[1], x[6] + x[2], x[7] + x[3]];
      var pairs := [sum[0] + sum[1], sum[2] + sum[3]];
      pairs[0] + pairs[1]
  }

  function Load(s: seq<real>, p: nat, w: nat): (x: Lanes)
    requires (w == 4 || w == 8) && p + w <= |s|
    ensures |x| == w
  {
    s[p..p + w]
  }

  // Four products, from lane o on.
  function Quad(x: Lanes, y: Lanes, o: nat): real
    requires |x| == |y| && o + 4 <= |x|
  {
    x[o] * y[o] + x[o + 1] * y[o + 1] + x[o + 2] * y[o + 2] + x[o + 3] * y[o + 3]
  }

  // A step of w lanes adds w terms to the row product.
  lemma {:induction false} LanesStep(s: seq<real>, t: seq<real>, n: nat, i: nat, j: nat, k: nat, w: nat, z: Lanes)
    requires (w == 4 || w == 8) && |z| == w && Ix(n, i, k) + w <= |s| && Ix(n, j, k) + w <= |t|
    ensures HSum(Fmadd(Load(s, Ix(n, i, k), w), Load(t, Ix(n, j, k), w), z)) ==
            HSum(z) + Dot(s, t, n, i, j, k + w) - Dot(s, t, n, i, j, k)
  {
    hide Dot, HSum, At, Load, Ix, Fmadd, Quad;
    var x, y := Load(s, Ix(n, i, k), w), Load(t, Ix(n, j, k), w);
    LanesAt(s, n, i, k, w);
    LanesAt(t, n, j, k, w);
    DotFour(s, t, n, i, j, k, x, y, 0);
    if w == 4 {
      SumFour(x, y, z);
    } else {
      DotFour(s, t, n, i, j, k, x, y, 4);
      SumEight(x, y, z);
    }
  }

  lemma SumFour(x: Lanes, y: Lanes, z: Lanes)
    requires |x| == |y| == |z| == 4
    ensures HSum(Fmadd(x, y, z)) == HSum(z) + Quad(x, y, 0)
  {
  }

  lemma SumEight(x: Lanes, y: Lanes, z: Lanes)
    requires |x| == |y| == |z| == 8
    ensures HSum(Fmadd(x, y, z)) == HSum(z) + Quad(x, y, 0) + Quad(x, y, 4)
  {
  }

  lemma LanesAt(s: seq<real>, n: nat, i: nat, k: nat, w: nat)
    requires (w == 4 || w == 8) && Ix(n, i, k) + w <= |s|
    ensures forall d: nat | d < w :: Load(s, Ix(n, i, k), w)[d] == At(s, n, i, k + d)
  {
  }

  lemma DotFour(s: seq<real>, t: seq<real>, n: nat, i: nat, j: nat, k: nat, x: Lanes, y: Lanes, o: nat)
    requires |x| == |y| && o + 4 <= |x|
    requires forall d: nat | d < |x| :: x[d] == At(s, n, i, k + d) && y[d] == At(t, n, j, k + d)
    ensures Dot(s, t, n, i, j, k + o + 4) == Dot(s, t, n, i, j, k + o) + Quad(x, y, o)
  {
    hide At;
    var d := k + o;
    assert Dot(s, t, n, i, j, d + 4) == Dot(s, t, n, i, j, d + 3) + x[o + 3] * y[o + 3];
    assert Dot(s, t, n, i, j, d + 3) == Dot(s, t, n, i, j, d + 2) + x[o + 2] * y[o + 2];
    assert Dot(s, t, n, i, j, d + 2) == Dot(s, t, n, i, j, d + 1) + x[o + 1] * y[o + 1];
    assert Dot(s, t, n, i, j, d + 1) == Dot(s, t, n, i, j, d) + x[o] * y[o];
  }
}
