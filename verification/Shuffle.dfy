// vector_shuffle of src/vector.c, on a buffer of elements of any size, with mem_swap of src/memory.c.
module Shuffle {
  import Bits

  const MAX64: nat := 0xFFFF_FFFF_FFFF_FFFF

  // ----- the index -----

  // How many random values share an index when d places remain.
  function Stride(d: nat): (s: nat)
    requires d >= 1
    ensures s > 0
  {
    MAX64 / d + 1
  }

  function Index(i: nat, size: nat, rnd: nat): nat
    requires i < size
  {
    i + rnd / Stride(size - i)
  }

  lemma DivBound(x: nat, s: nat, d: nat)
    requires s > 0 && x < d * s
    ensures x / s < d
  {
  }

  lemma StrideCovers(d: nat)
    requires d >= 1
    ensures MAX64 < d * Stride(d)
  {
    var q := MAX64 / d;
    assert MAX64 == d * q + MAX64 % d;
    assert d * (q + 1) == d * q + d;
  }

  // The index stays in the rest of the vector, and the stride is a 64-bit number.
  lemma IndexInRange(i: nat, size: nat, rnd: nat)
    requires i + 1 < size && rnd <= MAX64
    ensures i <= Index(i, size, rnd) < size && Stride(size - i) <= MAX64
  {
    StrideCovers(size - i);
    DivBound(rnd, Stride(size - i), size - i);
  }

  // Some random value leads to index j exactly when the stride fits j - i times below 2^64.
  lemma IndexReachable(i: nat, size: nat, j: nat)
    requires i <= j < size
    ensures (exists rnd: nat :: rnd <= MAX64 && Index(i, size, rnd) == j) <==> (j - i) * Stride(size - i) <= MAX64
  {
    var d, s: nat := j - i, Stride(size - i);
    if d * s <= MAX64 {
      MulDiv(d, s);
      assert Index(i, size, d * s) == j;
    }
    if rnd: nat :| rnd <= MAX64 && Index(i, size, rnd) == j {
      assert rnd / s == d;
      assert (rnd / s) * s <= rnd;
    }
  }

  lemma MulDiv(d: nat, s: nat)
    requires s > 0
    ensures d * s / s == d
  {
    Bits.ModUnique(d * s, s, d, 0);
    var q := d * s / s;
    assert s * (q - d) == 0;
    if q != d { Bits.MulApart(s, q - d); }
  }

  // For vectors of at most 2^32 elements every index can come up.
  lemma SmallReachable(i: nat, size: nat, j: nat)
    requires i <= j < size && size - i <= 0x1_0000_0000
    ensures (j - i) * Stride(size - i) <= MAX64
  {
    var d := size - i;
    var q := MAX64 / d;
    LeastQuotient(d);
    Monotone(j - i, q + 1, d - 1, q + 1);
    assert (d - 1) * (q + 1) == d * q - q + d - 1;
  }

  lemma LeastQuotient(d: nat)
    requires 1 <= d <= 0x1_0000_0000
    ensures MAX64 / d >= 0xFFFF_FFFF
  {
    var q := MAX64 / d;
    StrideCovers(d);
    if q < 0xFFFF_FFFF { Monotone(d, q + 1, 0x1_0000_0000, 0xFFFF_FFFF); }
  }

  lemma Monotone(a: nat, b: nat, c: nat, d: nat)
    requires a <= c && b <= d
    ensures a * b <= c * d
  {
    assert a * b <= a * d;
    assert a * d <= c * d;
  }

  // The least number that, taken d times, exceeds every 64-bit value.
  ghost predicate LeastStride(d: nat, s: nat) {
    d * s > 0xFFFF_FFFF_FFFF_FFFF && forall u: nat | u < s :: d * u <= 0xFFFF_FFFF_FFFF_FFFF
  }

  lemma StrideIsLeast(d: nat)
    requires d >= 1
    ensures LeastStride(d, Stride(d))
  {
    StrideCovers(d);
    var q := MAX64 / d;
    assert d * q <= MAX64;
    forall u: nat | u < Stride(d) ensures d * u <= MAX64 { Monotone(d, u, d, q); }
  }

  lemma LeastStrideUnique(d: nat, s: nat, r: nat)
    requires LeastStride(d, s) && LeastStride(d, r)
    ensures s == r
  {
  }

  lemma QuotientIs(x: nat, s: nat, d: nat)
    requires s > 0
    ensures x / s == d <==> d * s <= x < (d + 1) * s
  {
    var q := x / s;
    assert q * s <= x < q * s + s;
    assert (q + 1) * s == q * s + s && (d + 1) * s == d * s + s;
    if d < q { Monotone(d + 1, s, q, s); }
    if q < d { Monotone(q + 1, s, d, s); }
  }

  // The values from k strides on, below k + 1 of them, where s is the stride for d places.
  ghost predicate Share(d: nat, k: nat, rnd: nat, s: nat) {
    LeastStride(d, s) && k * s <= rnd < (k + 1) * s
  }

  // Which index a random value gives: the one whose share of the 64-bit values it lies in.
  ghost predicate Lands(i: nat, size: nat, rnd: nat, j: nat)
    requires i <= j < size
  {
    var d, k := size - i, j - i;
    exists s: nat :: Share(d, k, rnd, s)
  }

  lemma IndexIs(i: nat, size: nat, rnd: nat, j: nat, s: nat)
    requires i <= j < size && LeastStride(size - i, s)
    ensures Index(i, size, rnd) == j <==> (j - i) * s <= rnd < (j - i + 1) * s
    ensures Index(i, size, rnd) == j <==> Lands(i, size, rnd, j)
  {
    hide LeastStride;
    StrideIsLeast(size - i);
    LeastStrideUnique(size - i, s, Stride(size - i));
    QuotientIs(rnd, s, j - i);
    if Lands(i, size, rnd, j) {
      var r: nat :| Share(size - i, j - i, rnd, r);
      LeastStrideUnique(size - i, s, r);
    }
    if Index(i, size, rnd) == j { assert Share(size - i, j - i, rnd, s); }
  }

  // The bound is exact: with one element more, the last index never comes up.
  lemma LastIndexNeverComes(rnd: nat)
    requires rnd <= MAX64
    ensures Index(0, 0x1_0000_0001, rnd) != 0x1_0000_0000
  {
    assert Stride(0x1_0000_0001) == 0x1_0000_0000;
    IndexReachable(0, 0x1_0000_0001, 0x1_0000_0000);
  }

  // ----- the shuffle on a sequence -----

  function Swapped<T>(s: seq<T>, i: nat, j: nat): (r: seq<T>)
    requires i < |s| && j < |s|
    ensures |r| == |s| && r[i] == s[j] && r[j] == s[i] && forall k | 0 <= k < |s| && k != i && k != j :: r[k] == s[k]
  {
    s[i := s[j]][j := s[i]]
  }

  // Steps i, i + 1, ... with the given random values.
  function Shuffled<T>(s: seq<T>, i: nat, draw: nat -> nat): (r: seq<T>)
    requires forall k :: draw(k) <= MAX64
    ensures |r| == |s|
    decreases |s| - i
  {
    if i + 1 >= |s| then s
    else
      IndexInRange(i, |s|, draw(i));
      Shuffled(Swapped(s, i, Index(i, |s|, draw(i))), i + 1, draw)
  }

  lemma ShuffledStep<T>(s: seq<T>, i: nat, draw: nat -> nat)
    requires (forall k :: draw(k) <= MAX64) && i + 1 < |s|
    ensures var j := Index(i, |s|, draw(i));
            i <= j < |s| && Shuffled(s, i, draw) == Shuffled(Swapped(s, i, j), i + 1, draw)
  {
    hide Index, Stride, Swapped;
    IndexInRange(i, |s|, draw(i));
  }

  lemma ShuffledEnd<T>(s: seq<T>, i: nat, draw: nat -> nat)
    requires (forall k :: draw(k) <= MAX64) && i + 1 >= |s|
    ensures Shuffled(s, i, draw) == s
  {
  }

  lemma SwappedPermutes<T>(s: seq<T>, i: nat, j: nat)
    requires i < |s| && j < |s|
    ensures multiset(Swapped(s, i, j)) == multiset(s)
  {
  }

  lemma {:induction false} ShuffledPermutes<T>(s: seq<T>, i: nat, draw: nat -> nat)
    requires forall k :: draw(k) <= MAX64
    ensures multiset(Shuffled(s, i, draw)) == multiset(s)
    decreases |s| - i
  {
    if i + 1 < |s| {
      IndexInRange(i, |s|, draw(i));
      var j := Index(i, |s|, draw(i));
      SwappedPermutes(s, i, j);
      ShuffledPermutes(Swapped(s, i, j), i + 1, draw);
    }
  }

  // t comes of s by the steps from i on: at each, the element at i changes places with the one at the
  // index where the step's random value lands.
  ghost predicate Shuffles<T(!new)>(s: seq<T>, t: seq<T>, i: nat, draw: nat -> nat)
    decreases |s| - i
  {
    if i + 1 >= |s| then t == s
    else exists j: nat ::
      i <= j < |s| && Lands(i, |s|, draw(i), j) && Shuffles(s[i := s[j]][j := s[i]], t, i + 1, draw)
  }

  lemma {:induction false} ShuffledShuffles<T(!new)>(s: seq<T>, i: nat, draw: nat -> nat)
    requires forall k :: draw(k) <= MAX64
    ensures Shuffles(s, Shuffled(s, i, draw), i, draw)
    decreases |s| - i
  {
    hide Index, Stride, Lands;
    if i + 1 < |s| {
      ShuffledStep(s, i, draw);
      var j := Index(i, |s|, draw(i));
      StrideIsLeast(|s| - i);
      IndexIs(i, |s|, draw(i), j, Stride(|s| - i));
      ShuffledShuffles(Swapped(s, i, j), i + 1, draw);
    }
  }

  // The steps from i on leave what is before i alone.
  lemma {:induction false} ShuffledPrefix<T>(s: seq<T>, i: nat, draw: nat -> nat, k: nat)
    requires (forall n :: draw(n) <= MAX64) && k < i && k < |s|
    ensures Shuffled(s, i, draw)[k] == s[k]
    decreases |s| - i
  {
    hide Index, Stride;
    if i + 1 < |s| {
      ShuffledStep(s, i, draw);
      ShuffledPrefix(Swapped(s, i, Index(i, |s|, draw(i))), i + 1, draw, k);
    }
  }

  // The first element of the result.
  lemma FirstElement<T>(s: seq<T>, draw: nat -> nat, j: nat, r: nat)
    requires (forall n :: draw(n) <= MAX64) && |s| >= 2 && j < |s|
    requires LeastStride(|s|, r) && j * r <= draw(0) < (j + 1) * r
    ensures Shuffled(s, 0, draw)[0] == s[j]
  {
    hide Index, Stride, LeastStride, Shuffled;
    IndexIs(0, |s|, draw(0), j, r);
    ShuffledStep(s, 0, draw);
    ShuffledPrefix(Swapped(s, 0, j), 1, draw, 0);
  }

  // ----- with free draws every permutation can come out -----

  // A permutation agreeing with t before i is taken to t by some random values.
  lemma {:induction false} DrawsForPermutation<T>(s: seq<T>, t: seq<T>, i: nat) returns (draws: map<nat, nat>)
    requires multiset(s) == multiset(t) && i <= |s| == |t| && s[..i] == t[..i] && |s| <= 0x1_0000_0000
    ensures forall k | k in draws :: i <= k && draws[k] <= MAX64
    ensures Shuffled(s, i, Draw(draws)) == t
    decreases |s| - i
  {
    hide Index, Stride, Shuffled, Swapped;
    if i + 1 >= |s| {
      draws := map[];
      ShuffledEnd(s, i, Draw(draws));
      if i < |s| { LastElement(s, t); }
    } else {
      var j := Find(s, t, i);
      SmallReachable(i, |s|, j);
      IndexReachable(i, |s|, j);
      var rnd: nat :| rnd <= MAX64 && Index(i, |s|, rnd) == j;
      var s' := Swapped(s, i, j);
      SwappedPermutes(s, i, j);
      PrefixGrows(s, t, i, j);
      var rest := DrawsForPermutation(s', t, i + 1);
      draws := rest[i := rnd];
      LaterDraws(s', i + 1, rest, draws);
      ShuffledStep(s, i, Draw(draws));
    }
  }

  // Random values given by a finite map, 0 elsewhere.
  function Draw(draws: map<nat, nat>): (f: nat -> nat)
    ensures (forall k | k in draws :: draws[k] <= MAX64) ==> forall k :: f(k) <= MAX64
    ensures forall k: nat :: f(k) == if k in draws then draws[k] else 0
  {
    k => if k in draws then draws[k] else 0
  }

  // Step i and later look only at their own random values.
  lemma {:induction false} LaterDraws<T>(s: seq<T>, i: nat, a: map<nat, nat>, b: map<nat, nat>)
    requires (forall k | k in a :: a[k] <= MAX64) && (forall k | k in b :: b[k] <= MAX64)
    requires forall k: nat | k >= i :: (k in a <==> k in b) && (k in a ==> a[k] == b[k])
    ensures Shuffled(s, i, Draw(a)) == Shuffled(s, i, Draw(b))
    decreases |s| - i
  {
    if i + 1 < |s| {
      assert Draw(a)(i) == Draw(b)(i);
      IndexInRange(i, |s|, Draw(a)(i));
      LaterDraws(Swapped(s, i, Index(i, |s|, Draw(a)(i))), i + 1, a, b);
    }
  }

  lemma SameLength<T>(s: seq<T>, t: seq<T>)
    requires multiset(s) == multiset(t)
    ensures |s| == |t|
  {
    assert |s| == |multiset(s)| && |t| == |multiset(t)|;
  }

  lemma RestPermutes<T>(s: seq<T>, t: seq<T>, i: nat)
    requires multiset(s) == multiset(t) && i <= |s| == |t| && s[..i] == t[..i]
    ensures multiset(s[i..]) == multiset(t[i..])
  {
    assert s == s[..i] + s[i..] && t == t[..i] + t[i..];
    assert multiset(s[..i]) + multiset(s[i..]) == multiset(t[..i]) + multiset(t[i..]);
    assert forall x :: multiset(s[i..])[x] == multiset(s)[x] - multiset(s[..i])[x];
    assert forall x :: multiset(t[i..])[x] == multiset(t)[x] - multiset(t[..i])[x];
  }

  lemma LastElement<T>(s: seq<T>, t: seq<T>)
    requires multiset(s) == multiset(t) && |s| == |t| > 0 && s[..|s| - 1] == t[..|s| - 1]
    ensures s == t
  {
    var i := |s| - 1;
    RestPermutes(s, t, i);
    assert s[i..] == [s[i]] && t[i..] == [t[i]];
    assert s[i] in multiset(t[i..]);
    assert s == s[..i] + [s[i]] && t == t[..i] + [t[i]];
  }

  // The element wanted at i is somewhere in the rest.
  lemma Find<T>(s: seq<T>, t: seq<T>, i: nat) returns (j: nat)
    requires multiset(s) == multiset(t) && i < |s| == |t| && s[..i] == t[..i]
    ensures i <= j < |s| && s[j] == t[i]
  {
    RestPermutes(s, t, i);
    assert t[i] == t[i..][0];
    assert t[i] in multiset(s[i..]);
    var k: nat :| k < |s[i..]| && s[i..][k] == t[i];
    j := i + k;
  }

  lemma PrefixGrows<T>(s: seq<T>, t: seq<T>, i: nat, j: nat)
    requires i <= j < |s| == |t| && s[..i] == t[..i] && s[j] == t[i]
    ensures Swapped(s, i, j)[..i + 1] == t[..i + 1]
  {
    var r := Swapped(s, i, j);
    forall k: nat | k <= i ensures r[k] == t[k] {
      if k < i { assert s[..i][k] == t[..i][k]; }
    }
  }

  // If every step drew its own random value, the shuffle of at most 2^32 elements could produce
  // every permutation of them. The values come from one seed, however: see ShuffleSeeds.
  lemma FreeDrawsReachAll<T>(s: seq<T>, t: seq<T>)
    requires multiset(s) == multiset(t) && |s| <= 0x1_0000_0000
    ensures exists draws: map<nat, nat> ::
              (forall k | k in draws :: draws[k] <= MAX64) && Shuffled(s, 0, Draw(draws)) == t
  {
    SameLength(s, t);
    var draws := DrawsForPermutation(s, t, 0);
  }

  // ----- the shuffle on the bytes of a vector -----

  // Where byte x comes from when the blocks of n bytes at p and q change places.
  ghost function Source(p: nat, q: nat, n: nat, x: nat): nat {
    if p <= x < p + n then q + (x - p) else if q <= x < q + n then p + (x - q) else x
  }

  ghost predicate Exchanged<T>(was: seq<T>, now: seq<T>, p: nat, q: nat, n: nat)
    requires p + n <= |was| && q + n <= |was|
  {
    |now| == |was| && forall x: nat | x < |was| :: now[x] == was[Source(p, q, n, x)]
  }

  ghost predicate Apart(p: nat, q: nat, n: nat) {
    p == q || p + n <= q || q + n <= p
  }

  // mem_swap, byte by byte.
  method MemSwap<T>(a: array<T>, p: nat, q: nat, n: nat)
    requires p + n <= a.Length && q + n <= a.Length && Apart(p, q, n)
    modifies a
    ensures Exchanged(old(a[..]), a[..], p, q, n)
  {
    var k := 0;
    while k < n
      invariant k <= n && Exchanged(old(a[..]), a[..], p, q, k)
    {
      ghost var now := a[..];
      var tmp := a[p + k];
      a[p + k] := a[q + k];
      a[q + k] := tmp;
      assert a[..] == now[p + k := now[q + k]][q + k := now[p + k]];
      ExchangeStep(old(a[..]), now, p, q, k, n);
      k := k + 1;
    }
  }

  lemma ExchangeStep<T>(was: seq<T>, now: seq<T>, p: nat, q: nat, k: nat, n: nat)
    requires k < n && p + n <= |was| && q + n <= |was| && Apart(p, q, n) && Exchanged(was, now, p, q, k)
    ensures Exchanged(was, now[p + k := now[q + k]][q + k := now[p + k]], p, q, k + 1)
  {
    var next := now[p + k := now[q + k]][q + k := now[p + k]];
    assert now[p + k] == was[p + k] && now[q + k] == was[q + k];
    forall x: nat | x < |was| ensures next[x] == was[Source(p, q, k + 1, x)] {
      assert now[x] == was[Source(p, q, k, x)];
    }
  }

  // Where element k begins.
  function Pos(e: nat, k: nat): nat {
    k * e
  }

  lemma BlockFits(e: nat, k: nat, size: nat)
    requires k < size
    ensures Pos(e, k) + e <= Pos(e, size)
  {
    assert (size - k - 1) * e >= 0;
    assert (size - k - 1) * e == size * e - k * e - e;
  }

  lemma BlocksApart(e: nat, i: nat, j: nat)
    ensures Apart(Pos(e, i), Pos(e, j), e)
  {
    if i < j { BlockFits(e, i, j); } else if j < i { BlockFits(e, j, i); }
  }

  // The bytes of element k.
  function Block<T>(s: seq<T>, e: nat, size: nat, k: nat): (b: seq<T>)
    requires k < size && |s| == Pos(e, size)
    ensures |b| == e
  {
    BlockFits(e, k, size);
    s[Pos(e, k)..Pos(e, k) + e]
  }

  function Elements<T>(s: seq<T>, e: nat, size: nat): (r: seq<seq<T>>)
    requires |s| == Pos(e, size)
    ensures |r| == size && forall k | 0 <= k < size :: r[k] == Block(s, e, size, k)
  {
    seq(size, k requires 0 <= k < size => Block(s, e, size, k))
  }

  // Exchanging two blocks swaps two elements.
  lemma ExchangeSwaps<T>(was: seq<T>, now: seq<T>, e: nat, size: nat, i: nat, j: nat)
    requires |was| == Pos(e, size) && i < size && j < size
    requires Pos(e, i) + e <= |was| && Pos(e, j) + e <= |was| && Exchanged(was, now, Pos(e, i), Pos(e, j), e)
    ensures Elements(now, e, size) == Swapped(Elements(was, e, size), i, j)
  {
    forall k: nat | k < size
      ensures Block(now, e, size, k) == Block(was, e, size, if k == i then j else if k == j then i else k)
    {
      ExchangedBlock(was, now, e, size, i, j, k);
    }
  }

  lemma ExchangedBlock<T>(was: seq<T>, now: seq<T>, e: nat, size: nat, i: nat, j: nat, k: nat)
    requires |was| == Pos(e, size) && i < size && j < size && k < size
    requires Pos(e, i) + e <= |was| && Pos(e, j) + e <= |was| && Exchanged(was, now, Pos(e, i), Pos(e, j), e)
    ensures Block(now, e, size, k) == Block(was, e, size, if k == i then j else if k == j then i else k)
  {
    hide Exchanged, Apart, Pos;
    var o := if k == i then j else if k == j then i else k;
    BlockFits(e, k, size);
    BlockFits(e, o, size);
    BlocksApart(e, i, k);
    BlocksApart(e, j, k);
    BlocksApart(e, i, j);
    SameLengthExchanged(was, now, Pos(e, i), Pos(e, j), e);
    SliceExchanged(was, now, Pos(e, i), Pos(e, j), e, Pos(e, k));
    if e > 0 {
      if k != i { DifferentBlocks(e, i, k); }
      if k != j { DifferentBlocks(e, j, k); }
      assert now[Pos(e, k)..Pos(e, k) + e] == was[Pos(e, o)..Pos(e, o) + e];
    }
  }

  lemma SameLengthExchanged<T>(was: seq<T>, now: seq<T>, p: nat, q: nat, n: nat)
    requires p + n <= |was| && q + n <= |was| && Exchanged(was, now, p, q, n)
    ensures |now| == |was|
  {
  }

  lemma DifferentBlocks(e: nat, i: nat, k: nat)
    requires e > 0 && i != k
    ensures Pos(e, i) != Pos(e, k)
  {
    if i < k { BlockFits(e, i, k); } else { BlockFits(e, k, i); }
  }

  lemma SliceExchanged<T>(was: seq<T>, now: seq<T>, p: nat, q: nat, n: nat, r: nat)
    requires p + n <= |was| && q + n <= |was| && r + n <= |was| == |now|
    requires Exchanged(was, now, p, q, n) && Apart(p, q, n) && Apart(p, r, n) && Apart(q, r, n)
    ensures now[r..r + n] == if r == p then was[q..q + n] else if r == q then was[p..p + n] else was[r..r + n]
  {
    var o := if r == p then q else if r == q then p else r;
    var x, y := now[r..r + n], was[o..o + n];
    forall d: nat | d < n ensures x[d] == y[d] {
      assert now[r + d] == was[Source(p, q, n, r + d)];
    }
  }

  method SwapElements<T>(a: array<T>, e: nat, size: nat, i: nat, j: nat)
    requires a.Length == Pos(e, size) && i < size && j < size
    modifies a
    ensures Elements(a[..], e, size) == Swapped(old(Elements(a[..], e, size)), i, j)
  {
    hide Elements, Exchanged, Swapped, Apart, Pos;
    BlockFits(e, i, size);
    BlockFits(e, j, size);
    BlocksApart(e, i, j);
    ghost var before := a[..];
    MemSwap(a, Pos(e, i), Pos(e, j), e);
    ExchangeSwaps(before, a[..], e, size, i, j);
  }

  // The random values of the shuffle: murmur_64 of the seed plus the step, in 64 bits.
  function Draws(seed: nat, hash: nat -> nat): (draw: nat -> nat)
    ensures forall k: nat :: draw(k) == hash((seed + k) % (MAX64 + 1))
  {
    k => hash((seed + k) % (MAX64 + 1))
  }

  ghost predicate Is64(f: nat -> nat) {
    forall k :: f(k) <= MAX64
  }

  lemma {:induction false} ShufflesSame<T(!new)>(s: seq<T>, t: seq<T>, i: nat, f: nat -> nat, g: nat -> nat)
    requires Shuffles(s, t, i, f) && forall k :: f(k) == g(k)
    ensures Shuffles(s, t, i, g)
    decreases |s| - i
  {
    hide Lands;
    if i + 1 < |s| {
      var j: nat :| i <= j < |s| && Lands(i, |s|, f(i), j) && Shuffles(s[i := s[j]][j := s[i]], t, i + 1, f);
      ShufflesSame(s[i := s[j]][j := s[i]], t, i + 1, f, g);
    }
  }

  // vector_shuffle: the elements end up as the steps say, hence permuted; the first of them is the one
  // in whose share of the 64-bit values the hash of the seed lies.
  method VectorShuffle<T(!new)>(a: array<T>, e: nat, size: nat, seed: nat, hash: nat -> nat)
    requires a.Length == Pos(e, size) && size >= 1 && Is64(hash)
    modifies a
    ensures Elements(a[..], e, size) == Shuffled(old(Elements(a[..], e, size)), 0, Draws(seed, hash))
    ensures Shuffles(old(Elements(a[..], e, size)), Elements(a[..], e, size), 0,
                     k => hash((seed + k) % 0x1_0000_0000_0000_0000))
    ensures forall j: nat, r: nat |
              size >= 2 && j < size && LeastStride(size, r) &&
              j * r <= hash(seed % 0x1_0000_0000_0000_0000) < (j + 1) * r ::
              Elements(a[..], e, size)[0] == old(Elements(a[..], e, size))[j]
    ensures multiset(Elements(a[..], e, size)) == multiset(old(Elements(a[..], e, size)))
  {
    hide Stride, Index, Elements, Shuffled, Swapped, Pos, Shuffles, LeastStride;
    ghost var draw := Draws(seed, hash);
    ghost var was := Elements(a[..], e, size);
    var i := 0;
    while i < size - 1
      invariant i <= size - 1 && Shuffled(Elements(a[..], e, size), i, draw) == Shuffled(was, 0, draw)
    {
      ShuffledStep(Elements(a[..], e, size), i, draw);
      var rnd := hash((seed + i) % (MAX64 + 1));
      IndexInRange(i, size, rnd);
      SwapElements(a, e, size, i, Index(i, size, rnd));
      i := i + 1;
    }
    ShuffledEnd(Elements(a[..], e, size), i, draw);
    ShuffledPermutes(was, 0, draw);
    ShuffledShuffles(was, 0, draw);
    ShufflesSame(was, Elements(a[..], e, size), 0, draw, k => hash((seed + k) % 0x1_0000_0000_0000_0000));
    forall j: nat, r: nat | size >= 2 && j < size && LeastStride(size, r) && j * r <= draw(0) < (j + 1) * r
      ensures Elements(a[..], e, size)[0] == was[j]
    {
      FirstElement(was, draw, j, r);
    }
  }
}
