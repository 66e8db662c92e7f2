// Unsigned machine words as naturals, with the bit operations of include/libromano/bit.h.
module Bits {
  function Pow2(k: nat): (r: nat)
    ensures r > 0
  {
    if k == 0 then 1 else 2 * Pow2(k - 1)
  }

  // Number of significant bits.
  function BitLen(a: nat): nat {
    if a == 0 then 0 else 1 + BitLen(a / 2)
  }

  function Log2(a: nat): nat
    requires a > 0
  {
    BitLen(a) - 1
  }

  function Shr(a: nat, k: nat): nat
    decreases k
  {
    if k == 0 then a else Shr(a / 2, k - 1)
  }

  predicate Bit(a: nat, i: nat) {
    Shr(a, i) % 2 == 1
  }

  function Or(a: nat, b: nat): nat {
    if a == 0 && b == 0 then 0
    else 2 * Or(a / 2, b / 2) + (if a % 2 == 1 || b % 2 == 1 then 1 else 0)
  }

  function And(a: nat, b: nat): nat {
    if a == 0 || b == 0 then 0
    else 2 * And(a / 2, b / 2) + (if a % 2 == 1 && b % 2 == 1 then 1 else 0)
  }

  function Xor(a: nat, b: nat): nat {
    if a == 0 && b == 0 then 0
    else 2 * Xor(a / 2, b / 2) + (if a % 2 != b % 2 then 1 else 0)
  }

  // ----- powers of two -----

  lemma {:induction false} BitLenBounds(a: nat)
    requires a > 0
    ensures Pow2(BitLen(a) - 1) <= a < Pow2(BitLen(a))
  {
    if a > 1 { BitLenBounds(a / 2); }
  }

  lemma {:induction false} Log2OfPow2(k: nat)
    ensures Log2(Pow2(k)) == k
  {
    if k == 0 {
      assert BitLen(1) == 1;
    } else {
      Log2OfPow2(k - 1);
      assert Pow2(k) / 2 == Pow2(k - 1);
      assert BitLen(Pow2(k)) == 1 + BitLen(Pow2(k - 1));
    }
  }

  lemma {:induction false} Pow2Monotone(j: nat, k: nat)
    requires j <= k
    ensures Pow2(j) <= Pow2(k)
    decreases k
  {
    if j < k { Pow2Monotone(j, k - 1); }
  }

  lemma {:induction false} BitLenWithin(a: nat, k: nat)
    requires a < Pow2(k)
    ensures BitLen(a) <= k
    decreases k
  {
    if a > 0 { BitLenWithin(a / 2, k - 1); }
  }

  lemma {:induction false} BitLenMonotone(a: nat, b: nat)
    requires a <= b
    ensures BitLen(a) <= BitLen(b)
  {
    if a > 0 { BitLenMonotone(a / 2, b / 2); }
  }

  // ----- single bits -----

  lemma {:induction false} ShrShr(a: nat, j: nat, k: nat)
    ensures Shr(Shr(a, j), k) == Shr(a, j + k)
    decreases j
  {
    if j > 0 { ShrShr(a / 2, j - 1, k); }
  }

  lemma MulDouble(q: int, p: int)
    ensures q * (2 * p) == 2 * (q * p)
  {
  }

  lemma {:induction false} ShrIsDivision(a: nat, k: nat)
    ensures Shr(a, k) * Pow2(k) <= a < (Shr(a, k) + 1) * Pow2(k)
    decreases k
  {
    if k > 0 {
      ShrIsDivision(a / 2, k - 1);
      MulDouble(Shr(a, k), Pow2(k - 1));
      MulDouble(Shr(a, k) + 1, Pow2(k - 1));
    }
  }

  lemma OrParts(a: nat, b: nat)
    ensures Or(a, b) / 2 == Or(a / 2, b / 2)
    ensures Or(a, b) % 2 == if a % 2 == 1 || b % 2 == 1 then 1 else 0
  {
    if a == 0 && b == 0 { assert Or(0, 0) == 0; }
  }

  lemma {:induction false} BitOr(a: nat, b: nat, i: nat)
    ensures Bit(Or(a, b), i) <==> Bit(a, i) || Bit(b, i)
    decreases i
  {
    hide Or;
    OrParts(a, b);
    if i > 0 { BitOr(a / 2, b / 2, i - 1); }
  }

  lemma {:induction false} TopBit(a: nat)
    requires a > 0
    ensures Bit(a, BitLen(a) - 1)
  {
    if a > 1 { TopBit(a / 2); }
  }

  // A word whose bits below l are all set and whose other bits are clear.
  lemma {:induction false} AllOnes(a: nat, l: nat)
    requires BitLen(a) <= l && forall i: nat | i < l :: Bit(a, i)
    ensures a == Pow2(l) - 1
    decreases l
  {
    if l > 0 {
      assert Bit(a, 0);
      forall i: nat | i < l - 1 ensures Bit(a / 2, i) {
        assert Bit(a, i + 1);
      }
      AllOnes(a / 2, l - 1);
    }
  }

  // ----- round_u64_to_next_pow2 -----

  // The m highest of the l significant bits are set.
  ghost predicate TopOnes(a: nat, l: nat, m: nat) {
    BitLen(a) == l && forall i: nat | l <= i + m && i < l :: Bit(a, i)
  }

  lemma {:induction false} OrLength(a: nat, b: nat)
    requires BitLen(b) <= BitLen(a)
    ensures BitLen(Or(a, b)) == BitLen(a)
  {
    if a > 0 { OrLength(a / 2, b / 2); }
  }

  lemma {:induction false} ShrLength(a: nat, k: nat)
    ensures BitLen(Shr(a, k)) <= BitLen(a)
    decreases k
  {
    if k > 0 { ShrLength(a / 2, k - 1); }
  }

  function OrShr(a: nat, m: nat): nat {
    Or(a, Shr(a, m))
  }

  lemma SmearStep(a: nat, l: nat, m: nat)
    requires TopOnes(a, l, m)
    ensures TopOnes(OrShr(a, m), l, 2 * m)
  {
    ShrLength(a, m);
    OrLength(a, Shr(a, m));
    forall i: nat | l <= i + 2 * m && i < l ensures Bit(OrShr(a, m), i) {
      BitOr(a, Shr(a, m), i);
      ShrShr(a, m, i);
      if l > i + m { assert Bit(a, m + i); }
    }
  }

  // Each step doubles the run of ones at the top.
  ghost function Smeared(a: nat, m: nat, steps: nat): nat
    decreases steps
  {
    if steps == 0 then a else Smeared(OrShr(a, m), 2 * m, steps - 1)
  }

  ghost function Doubled(m: nat, steps: nat): nat
    decreases steps
  {
    if steps == 0 then m else Doubled(2 * m, steps - 1)
  }

  lemma {:induction false} SmearedTop(a: nat, l: nat, m: nat, steps: nat)
    requires TopOnes(a, l, m)
    ensures TopOnes(Smeared(a, m, steps), l, Doubled(m, steps))
    decreases steps
  {
    if steps > 0 {
      SmearStep(a, l, m);
      SmearedTop(OrShr(a, m), l, 2 * m, steps - 1);
    }
  }

  // Six steps fill every word of up to 64 bits.
  lemma {:induction false} SmearedIsOnes(a: nat)
    requires BitLen(a) <= 64
    ensures Smeared(a, 1, 6) == Pow2(BitLen(a)) - 1
  {
    if a > 0 { TopBit(a); }
    SmearedTop(a, BitLen(a), 1, 6);
    assert Doubled(1, 6) == 64;
    AllOnes(Smeared(a, 1, 6), BitLen(a));
  }

  // The post-increment in the return statement has no effect: the caller adds the one.
  method RoundU64ToNextPow2(x: nat) returns (r: nat)
    requires 0 < x && BitLen(x) <= 64
    ensures r + 1 == Pow2(BitLen(x - 1))
    ensures x > 1 ==> x - 1 <= r < 2 * (x - 1)
  {
    var a := x - 1;
    a := OrShr(a, 1);
    a := OrShr(a, 2);
    a := OrShr(a, 4);
    a := OrShr(a, 8);
    a := OrShr(a, 16);
    a := OrShr(a, 32);
    assert a == Smeared(x - 1, 1, 6);
    BitLenMonotone(x - 1, x);
    SmearedIsOnes(x - 1);
    if x > 1 { BitLenBounds(x - 1); }
    return a;
  }

  // ----- division -----

  lemma ModUnique(h: nat, n: nat, q: nat, r: nat)
    requires 0 < n && h == n * q + r && r < n
    ensures h % n == r
  {
    var d := h / n - q;
    assert n * (h / n) == n * q + n * d;
    assert -1 * n < n * d < n;
    if d != 0 { MulApart(n, d); }
  }

  lemma MulApart(n: int, d: int)
    requires 0 < n && d != 0
    ensures n * d >= n || n * d <= -n
  {
  }

  // ----- the growth of a capacity -----

  // The least power of two above x: what rounding x + 1 up gives.
  function NextPow2(x: nat): nat {
    Pow2(BitLen(x))
  }

  // For a power of two it is the double.
  lemma NextPow2Doubles(k: nat)
    ensures NextPow2(Pow2(k)) == 2 * Pow2(k)
  {
    Log2OfPow2(k);
  }

  // hashmap_get_new_capacity on 64-bit words.
  method NewCapacity(capacity: nat) returns (c: nat)
    requires BitLen(capacity + 1) <= 64
    ensures c == NextPow2(capacity)
  {
    var r := RoundU64ToNextPow2(capacity + 1);
    return r + 1;
  }
}
