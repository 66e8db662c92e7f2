// Integer formatting of src/fmt.c: a table-driven digit count and a right-to-left printer.
module Fmt {
  import opened Bits

  const TWO52: nat := 0x10_0000_0000_0000
  const TWO63: nat := 0x8000_0000_0000_0000
  const TWO64: nat := 0x1_0000_0000_0000_0000

  function Pow10(k: nat): (r: nat)
    ensures r > 0
  {
    if k == 0 then 1 else 10 * Pow10(k - 1)
  }

  // ----- the decimal form of a number -----

  function Digit(d: nat): char
    requires d < 10
  {
    (d + '0' as int) as char
  }

  function Decimal(n: nat): (r: string)
    ensures |r| > 0
  {
    if n < 10 then [Digit(n)] else Decimal(n / 10) + [Digit(n % 10)]
  }

  lemma {:induction false} DecimalLength(n: nat, k: nat)
    requires n < Pow10(k) && k > 0 && (k > 1 ==> Pow10(k - 1) <= n)
    ensures |Decimal(n)| == k
    decreases k
  {
    if k == 1 {
      assert Pow10(1) == 10;
    } else {
      assert Pow10(k) == 10 * Pow10(k - 1);
      assert k > 2 ==> Pow10(k - 1) == 10 * Pow10(k - 2);
      assert k == 2 ==> Pow10(1) == 10;
      DecimalLength(n / 10, k - 1);
    }
  }

  // ----- the digit count table -----

  function FloorLog10Pow2(e: nat): nat {
    e * 1262611 / 4194304
  }

  function CeilLog10Pow2(e: nat): nat {
    if e == 0 then 0 else FloorLog10Pow2(e) + 1
  }

  // g_digit_count_table
  function Table(k: nat): nat {
    match k
    case 0 => 4503599627370495 case 1 => 9007199254740982 case 2 => 9007199254740982
    case 3 => 9007199254740982 case 4 => 13510798882111438 case 5 => 13510798882111438
    case 6 => 13510798882111438 case 7 => 18014398509481484 case 8 => 18014398509481734
    case 9 => 18014398509481734 case 10 => 22517998136849980 case 11 => 22517998136849980
    case 12 => 22517998136851230 case 13 => 22517998136851230 case 14 => 27021597764210476
    case 15 => 27021597764210476 case 16 => 27021597764216726 case 17 => 31525197391530972
    case 18 => 31525197391530972 case 19 => 31525197391530972 case 20 => 36028797018651468
    case 21 => 36028797018651468 case 22 => 36028797018651468 case 23 => 36028797018651468
    case 24 => 40532396644771964 case 25 => 40532396644771964 case 26 => 40532396644771964
    case 27 => 45035996258079960 case 28 => 45035996265892460 case 29 => 45035996265892460
    case 30 => 49539595822950456 case 31 => 49539595822950456 case 32 => 49539595862012956
    case 33 => 49539595862012956 case 34 => 54043195137820952 case 35 => 54043195137820952
    case 36 => 54043195333133452 case 37 => 58546793202691448 case 38 => 58546793202691448
    case 39 => 58546793202691448 case 40 => 63050385017561944 case 41 => 63050385017561944
    case 42 => 63050385017561944 case 43 => 63050385017561944 case 44 => 67553945582432440
    case 45 => 67553945582432440 case 46 => 67553945582432440 case 47 => 72057105756677936
    case 48 => 72057349897302936 case 49 => 72057349897302936 case 50 => 76558752259048432
    case 51 => 76558752259048432 case 52 => 76559972962173432 case 53 => 76559972962173432
    case 54 => 81052586261418928 case 55 => 81052586261418928 case 56 => 81058689777043928
    case 57 => 85507357763789424 case 58 => 85507357763789424 case 59 => 85507357763789424
    case 60 => 89766816766159920 case 61 => 89766816766159920 case 62 => 89766816766159920
    case 63 => 89766816766159920
    case _ => 0
  }

  // Entry k, with ub = CeilLog10Pow2(k): the entry is (ub + 1) * 2^52 less a limit that is exactly
  // 10^ub shifted right by k / 4, with nothing shifted out; and 2^k has ub digits.
  ghost predicate EntryOk(k: nat) {
    var ub := CeilLog10Pow2(k);
    && Table(k) <= (ub + 1) * TWO52 <= Table(k) + TWO52
    && ((ub + 1) * TWO52 - Table(k)) * Pow2(k / 4) == Pow10(ub)
    && ub <= 19
    && (ub > 0 ==> Pow10(ub - 1) <= Pow2(k) < Pow10(ub))
  }

  // Walks the entries from k up to end, carrying 2^k, the digit bound r of 2^k, 10^r and 2^(k / 4).
  predicate Walk(k: nat, p2: nat, r: nat, p10: nat, step: nat, end: nat)
    decreases end - k
  {
    if k >= end then true
    else
      && k * 1262611 / 4194304 == r
      && r < 19
      && p10 <= p2 < 10 * p10
      && Table(k) <= (r + 2) * TWO52 <= Table(k) + TWO52
      && ((r + 2) * TWO52 - Table(k)) * step == 10 * p10
      && if 2 * p2 >= 10 * p10 then
           if (k + 1) % 4 == 0 then Walk(k + 1, 2 * p2, r + 1, 10 * p10, 2 * step, end)
           else Walk(k + 1, 2 * p2, r + 1, 10 * p10, step, end)
         else
           if (k + 1) % 4 == 0 then Walk(k + 1, 2 * p2, r, p10, 2 * step, end)
           else Walk(k + 1, 2 * p2, r, p10, step, end)
  }

  lemma {:induction false} WalkEntry(k: nat, p2: nat, r: nat, p10: nat, step: nat, end: nat, j: nat)
    requires 0 < k <= j < end && Walk(k, p2, r, p10, step, end)
    requires p2 == Pow2(k) && p10 == Pow10(r) && step == Pow2(k / 4)
    ensures EntryOk(j)
    decreases end - k
  {
    hide Table;
    assert Pow10(r + 1) == 10 * Pow10(r) && Pow2(k + 1) == 2 * Pow2(k);
    if k < j {
      assert (k + 1) / 4 == if (k + 1) % 4 == 0 then k / 4 + 1 else k / 4;
      assert Pow2(k / 4 + 1) == 2 * Pow2(k / 4);
      var r', p10' := if 2 * p2 >= 10 * p10 then r + 1 else r, if 2 * p2 >= 10 * p10 then 10 * p10 else p10;
      WalkEntry(k + 1, 2 * p2, r', p10', if (k + 1) % 4 == 0 then 2 * step else step, end, j);
    }
  }

  lemma WalkFrom1()
    ensures Walk(1, 2, 0, 1, 1, 8)
  {
  }

  lemma WalkFrom8()
    ensures Walk(8, 256, 2, 100, 4, 16)
  {
  }

  lemma WalkFrom16()
    ensures Walk(16, 65536, 4, 10000, 16, 24)
  {
  }

  lemma WalkFrom24()
    ensures Walk(24, 16777216, 7, 10000000, 64, 32)
  {
  }

  lemma WalkFrom32()
    ensures Walk(32, 4294967296, 9, 1000000000, 256, 40)
  {
  }

  lemma WalkFrom40()
    ensures Walk(40, 1099511627776, 12, 1000000000000, 1024, 48)
  {
  }

  lemma WalkFrom48()
    ensures Walk(48, 281474976710656, 14, 100000000000000, 4096, 56)
  {
  }

  lemma WalkFrom56()
    ensures Walk(56, 72057594037927936, 16, 10000000000000000, 16384, 64)
  {
  }

  lemma Powers()
    ensures Pow2(2) == 4
    ensures Pow2(4) == 16
    ensures Pow2(6) == 64
    ensures Pow2(8) == 256
    ensures Pow2(10) == 1024
    ensures Pow2(12) == 4096
    ensures Pow2(13) == 8192
    ensures Pow2(14) == 16384
    ensures Pow2(16) == 65536
    ensures Pow2(24) == 16777216
    ensures Pow2(32) == 4294967296
    ensures Pow2(40) == 1099511627776
    ensures Pow2(48) == 281474976710656
    ensures Pow2(52) == 4503599627370496
    ensures Pow2(56) == 72057594037927936
    ensures Pow10(0) == 1
    ensures Pow10(2) == 100
    ensures Pow10(4) == 10000
    ensures Pow10(7) == 10000000
    ensures Pow10(9) == 1000000000
    ensures Pow10(12) == 1000000000000
    ensures Pow10(14) == 100000000000000
    ensures Pow10(16) == 10000000000000000
  {
    assert Pow2(6) == 64;
    assert Pow2(8) == 256;
    assert Pow2(10) == 1024;
    assert Pow2(12) == 4096;
    assert Pow2(13) == 8192;
    assert Pow2(14) == 16384;
    assert Pow2(16) == 65536;
    assert Pow2(24) == 16777216;
    assert Pow2(32) == 4294967296;
    assert Pow2(40) == 1099511627776;
    assert Pow2(48) == 281474976710656;
    assert Pow2(52) == 4503599627370496;
    assert Pow2(56) == 72057594037927936;
    assert Pow10(4) == 10000;
    assert Pow10(7) == 10000000;
    assert Pow10(9) == 1000000000;
    assert Pow10(12) == 1000000000000;
    assert Pow10(14) == 100000000000000;
    assert Pow10(16) == 10000000000000000;
  }

  lemma SmallPowers()
    ensures Pow2(1) == 2 && Pow2(0) == 1 && Pow10(0) == 1
  {
  }

  // Every entry of the table is what generate_digit_count_table computes for it.
  lemma {:induction false} TableOk(k: nat)
    requires k < 64
    ensures EntryOk(k)
  {
    if k == 0 {
      assert Table(0) == TWO52 - 1 && CeilLog10Pow2(0) == 0 && Pow2(0) == 1 && Pow10(0) == 1;
    } else {
      hide EntryOk, Walk, Pow2, Pow10;
      Powers();
      assert Pow2(1) == 2 && Pow2(0) == 1 && Pow10(0) == 1 by { SmallPowers(); }
      if k < 8 {
        WalkFrom1();
        WalkEntry(1, 2, 0, 1, 1, 8, k);
      } else if k < 16 {
        WalkFrom8();
        WalkEntry(8, 256, 2, 100, 4, 16, k);
      } else if k < 24 {
        WalkFrom16();
        WalkEntry(16, 65536, 4, 10000, 16, 24, k);
      } else if k < 32 {
        WalkFrom24();
        WalkEntry(24, 16777216, 7, 10000000, 64, 32, k);
      } else if k < 40 {
        WalkFrom32();
        WalkEntry(32, 4294967296, 9, 1000000000, 256, 40, k);
      } else if k < 48 {
        WalkFrom40();
        WalkEntry(40, 1099511627776, 12, 1000000000000, 1024, 48, k);
      } else if k < 56 {
        WalkFrom48();
        WalkEntry(48, 281474976710656, 14, 100000000000000, 4096, 56, k);
      } else {
        WalkFrom56();
        WalkEntry(56, 72057594037927936, 16, 10000000000000000, 16384, 64, k);
      }
    }
  }

  // ----- counting digits -----

  // __builtin_clzll
  function Clz64(n: nat): nat
    requires 0 < n && BitLen(n) <= 64
  {
    64 - BitLen(n)
  }

  function FloorLog2(n: nat): nat
    requires 0 < n && BitLen(n) <= 64
  {
    Xor(63, Clz64(n))
  }

  lemma {:induction false} XorOnes(k: nat, c: nat)
    requires c < Pow2(k)
    ensures Xor(Pow2(k) - 1, c) == Pow2(k) - 1 - c
    decreases k
  {
    if k > 0 {
      XorOnes(k - 1, c / 2);
    }
  }

  lemma FloorLog2IsLog2(n: nat)
    requires 0 < n && BitLen(n) <= 64
    ensures FloorLog2(n) == Log2(n) < 64
  {
    assert Pow2(6) == 64;
    XorOnes(6, Clz64(n));
  }

  function CountDigits(n: nat): nat
    requires BitLen(n) <= 64
  {
    if n == 0 then 1
    else (Table(FloorLog2(n)) + Shr(n, FloorLog2(n) / 4)) % TWO64 / TWO52
  }

  lemma {:induction false} BitLenShr(a: nat, k: nat)
    requires k <= BitLen(a)
    ensures BitLen(Shr(a, k)) == BitLen(a) - k
    decreases k
  {
    if k > 0 { BitLenShr(a / 2, k - 1); }
  }

  // The shifted comparison is exact: n reaches 10^ub just when its shifted form reaches the limit.
  lemma ShiftedCompare(n: nat, q: nat, limit: nat, step: nat, ten: nat)
    requires q * step <= n < (q + 1) * step && limit * step == ten && step > 0
    ensures ten <= n <==> limit <= q
  {
    if limit <= q {
      MulMonotone(limit, q, step);
    } else {
      MulMonotone(q + 1, limit, step);
    }
  }

  lemma MulMonotone(a: nat, b: nat, c: nat)
    requires a <= b
    ensures a * c <= b * c
  {
  }

  lemma TopBits(x: nat, ub: nat)
    requires ub * TWO52 <= x < (ub + 2) * TWO52 && ub <= 19
    ensures x % TWO64 / TWO52 == if x >= (ub + 1) * TWO52 then ub + 1 else ub
  {
    assert x < TWO64;
  }

  lemma ShrSmall(n: nat, k: nat)
    requires 0 < n && BitLen(n) == k + 1 && k < 64
    ensures Shr(n, k / 4) < TWO52
  {
    BitLenShr(n, k / 4);
    var q := Shr(n, k / 4);
    if q > 0 { BitLenBounds(q); }
    Pow2Monotone(BitLen(q), 52);
    Powers();
  }

  lemma EntryCompare(n: nat, k: nat)
    requires EntryOk(k)
    ensures var ub := CeilLog10Pow2(k); Pow10(ub) <= n <==> (ub + 1) * TWO52 <= Table(k) + Shr(n, k / 4)
  {
    hide Table, CeilLog10Pow2;
    var ub := CeilLog10Pow2(k);
    ShrIsDivision(n, k / 4);
    ShiftedCompare(n, Shr(n, k / 4), (ub + 1) * TWO52 - Table(k), Pow2(k / 4), Pow10(ub));
  }

  lemma EntryBounds(k: nat)
    requires EntryOk(k)
    ensures var ub := CeilLog10Pow2(k);
            && Table(k) <= (ub + 1) * TWO52 <= Table(k) + TWO52 && ub <= 19
            && (ub > 0 ==> Pow10(ub - 1) <= Pow2(k) < Pow10(ub)) && (ub == 0 <==> k == 0)
  {
    hide Table;
  }

  lemma CountZero()
    ensures CountDigits(0) == 1 == |Decimal(0)|
  {
  }

  // The number of decimal digits, for every 64-bit number.
  lemma {:induction false} CountDigitsIsLength(n: nat)
    requires BitLen(n) <= 64
    ensures CountDigits(n) == |Decimal(n)|
  {
    hide EntryOk, Table, Shr, CeilLog10Pow2, FloorLog2, Log2, BitLen, CountDigits, Decimal, Pow10, Pow2;
    if n == 0 {
      CountZero();
    } else {
      var k := FloorLog2(n);
      var ub := CeilLog10Pow2(k);
      CountNonZero(n, k);
      TableOk(k);
      EntryCompare(n, k);
      EntryBounds(k);
      TopBits(Table(k) + Shr(n, k / 4), ub);
      DigitsBetween(n, k, ub);
    }
  }

  lemma CountNonZero(n: nat, k: nat)
    requires 0 < n && BitLen(n) <= 64 && k == FloorLog2(n)
    ensures CountDigits(n) == (Table(k) + Shr(n, k / 4)) % TWO64 / TWO52
    ensures k == Log2(n) < 64 && Shr(n, k / 4) < TWO52
  {
    hide Table;
    FloorLog2IsLog2(n);
    ShrSmall(n, k);
  }

  lemma DigitsBetween(n: nat, k: nat, ub: nat)
    requires 0 < n && k == Log2(n) && (k == 0 ==> ub == 0)
    requires k > 0 ==> ub > 0 && Pow10(ub - 1) <= Pow2(k) < Pow10(ub)
    ensures |Decimal(n)| == if Pow10(ub) <= n then ub + 1 else ub
  {
    BitLenBounds(n);
    assert Pow2(k + 1) == 2 * Pow2(k) && Pow10(ub + 1) == 10 * Pow10(ub);
    if k == 0 {
      assert Pow2(0) == 1 && Pow10(0) == 1;
    }
    DecimalLength(n, if Pow10(ub) <= n then ub + 1 else ub);
  }

  // ----- printing -----

  // digit_pairs, by its rule: the pairs 00, 01, ..., 99.
  function DigitPairs(i: nat): char
    requires i < 200
  {
    if i % 2 == 0 then Digit(i / 2 / 10) else Digit(i / 2 % 10)
  }

  lemma DecimalPair(v: nat)
    requires v >= 10
    ensures v >= 100 ==>
              Decimal(v) == Decimal(v / 100) + [DigitPairs(v % 100 * 2), DigitPairs(v % 100 * 2 + 1)]
    ensures v < 100 ==> Decimal(v) == [DigitPairs(v * 2), DigitPairs(v * 2 + 1)]
  {
    if v >= 100 {
      assert v / 10 / 10 == v / 100;
      assert v % 100 / 10 == v / 10 % 10 && v % 100 % 10 == v % 10;
      assert Decimal(v / 10) == Decimal(v / 100) + [Digit(v / 10 % 10)];
      assert Decimal(v) == Decimal(v / 100) + [Digit(v / 10 % 10)] + [Digit(v % 10)];
    } else {
      assert Decimal(v) == [Digit(v / 10)] + [Digit(v % 10)];
    }
  }

  // Of the digits of val between off and end, those of v are still to be written, up to p.
  ghost predicate Filling(t: string, start: string, off: nat, p: nat, end: nat, v: nat, val: nat) {
    && p == off + |Decimal(v)| <= end <= |t| && |t| == |start|
    && Decimal(v) + t[p..end] == Decimal(val)
    && t[..off] == start[..off] && t[end..] == start[end..]
  }

  ghost predicate Filled(t: string, start: string, off: nat, end: nat, val: nat) {
    && off <= end <= |t| && |t| == |start| && t[off..end] == Decimal(val)
    && t[..off] == start[..off] && t[end..] == start[end..]
  }

  lemma FillPair(t: string, start: string, off: nat, p: nat, end: nat, v: nat, val: nat, a: char, b: char)
    requires Filling(t, start, off, p, end, v, val) && v >= 100
    requires a == DigitPairs(v % 100 * 2) && b == DigitPairs(v % 100 * 2 + 1)
    ensures off + 3 <= p && Filling(t[p - 1 := b][p - 2 := a], start, off, p - 2, end, v / 100, val)
  {
    DecimalPair(v);
    hide DigitPairs, Decimal;
    var u := t[p - 1 := b][p - 2 := a];
    assert u[p - 2..end] == [a, b] + t[p..end];
    assert Decimal(v / 100) + ([a, b] + t[p..end]) == Decimal(v / 100) + [a, b] + t[p..end];
    assert u[..off] == t[..off] && u[end..] == t[end..];
  }

  lemma FillLastPair(t: string, start: string, off: nat, p: nat, end: nat, v: nat, val: nat, a: char, b: char)
    requires Filling(t, start, off, p, end, v, val) && 10 <= v < 100
    requires a == DigitPairs(v * 2) && b == DigitPairs(v * 2 + 1)
    ensures p == off + 2 && Filled(t[p - 1 := b][p - 2 := a], start, off, end, val)
  {
    DecimalPair(v);
    hide DigitPairs, Decimal;
    var u := t[p - 1 := b][p - 2 := a];
    assert u[off..end] == [a, b] + t[p..end];
    assert u[..off] == t[..off] && u[end..] == t[end..];
  }

  lemma FillLastDigit(t: string, start: string, off: nat, p: nat, end: nat, v: nat, val: nat, a: char)
    requires Filling(t, start, off, p, end, v, val) && v < 10 && a == Digit(v)
    ensures p == off + 1 && Filled(t[p - 1 := a], start, off, end, val)
  {
    assert Decimal(v) == [a];
    hide Digit, Decimal;
    var u := t[p - 1 := a];
    assert u[off..end] == [a] + t[p..end];
    assert u[..off] == t[..off] && u[end..] == t[end..];
  }

  // utoa_fast: fills exactly the decimal form, two digits at a time from the right.
  method UtoaFast(val: nat, buf: array<char>, off: nat) returns (end: nat)
    requires BitLen(val) <= 64 && off + |Decimal(val)| <= buf.Length
    modifies buf
    ensures end == off + |Decimal(val)|
    ensures buf[off..end] == Decimal(val)
    ensures buf[..off] == old(buf[..off]) && buf[end..] == old(buf[end..])
  {
    hide CountDigits, BitLen, Decimal, DigitPairs, Digit, Filling;
    ghost var start := buf[..];
    CountDigitsIsLength(val);
    end := off + CountDigits(val);
    var v, p := val, end - 1;
    FillStart(start, off, end, val);
    while v >= 100
      invariant 0 <= p < end <= buf.Length && Filling(buf[..], start, off, p + 1, end, v, val)
    {
      ghost var was := buf[..];
      var r := v % 100;
      FillPair(was, start, off, p + 1, end, v, val, DigitPairs(r * 2), DigitPairs(r * 2 + 1));
      v := v / 100;
      buf[p] := DigitPairs(r * 2 + 1);
      p := p - 1;
      buf[p] := DigitPairs(r * 2);
      p := p - 1;
      assert buf[..] == was[p + 2 := DigitPairs(r * 2 + 1)][p + 1 := DigitPairs(r * 2)];
    }
    ghost var was := buf[..];
    if v >= 10 {
      FillLastPair(was, start, off, p + 1, end, v, val, DigitPairs(v * 2), DigitPairs(v * 2 + 1));
      buf[p] := DigitPairs(v * 2 + 1);
      p := p - 1;
      buf[p] := DigitPairs(v * 2);
      assert buf[..] == was[p + 1 := DigitPairs(v * 2 + 1)][p := DigitPairs(v * 2)];
    } else {
      FillLastDigit(was, start, off, p + 1, end, v, val, Digit(v));
      buf[p] := Digit(v);
      assert buf[..] == was[p := Digit(v)];
    }
    assert Filled(buf[..], start, off, end, val);
    assert buf[..][off..end] == buf[off..end] && buf[..][..off] == buf[..off] && buf[..][end..] == buf[end..];
    assert start[..off] == old(buf[..off]) && start[end..] == old(buf[end..]);
  }

  lemma FillStart(t: string, off: nat, end: nat, val: nat)
    requires end == off + |Decimal(val)| <= |t|
    ensures Filling(t, t, off, end, end, val, val)
  {
    hide Decimal;
    assert t[end..end] == "" && Decimal(val) + "" == Decimal(val);
  }

  // ----- signed numbers -----

  function ToU64(x: int): nat
    requires -1 * TWO63 <= x < TWO63
  {
    if x < 0 then x + TWO64 else x
  }

  // abs_i64: the sign mask is all ones or zero, and the subtraction wraps.
  function AbsI64(x: int): nat
    requires -1 * TWO63 <= x < TWO63
  {
    var mask := if x < 0 then TWO64 - 1 else 0;
    (Xor(mask, ToU64(x)) + TWO64 - mask) % TWO64
  }

  lemma Pow2Of64()
    ensures Pow2(63) == TWO63 && Pow2(64) == TWO64
  {
    assert Pow2(56) == 72057594037927936 by { Powers(); }
    assert Pow2(63) == 9223372036854775808;
  }

  lemma {:induction false} XorZero(a: nat)
    ensures Xor(0, a) == a
  {
    if a > 0 { XorZero(a / 2); }
  }

  // Right for every signed 64-bit number, the least one included.
  lemma AbsI64IsAbs(x: int)
    requires -1 * TWO63 <= x < TWO63
    ensures AbsI64(x) == (if x < 0 then -x else x) && BitLen(AbsI64(x)) <= 64
  {
    Pow2Of64();
    hide Pow2, Xor, BitLen;
    if x < 0 { XorOnes(64, ToU64(x)); } else { XorZero(x); }
    BitLenWithin(AbsI64(x), 64);
  }

  function DecimalI64(x: int): string {
    if x < 0 then "-" + Decimal(-x) else Decimal(x)
  }

  method FmtSizeI64(x: int) returns (n: nat)
    requires -1 * TWO63 <= x < TWO63
    ensures n == |DecimalI64(x)|
  {
    AbsI64IsAbs(x);
    CountDigitsIsLength(AbsI64(x));
    return CountDigits(AbsI64(x)) + if x < 0 then 1 else 0;
  }

  method FmtI64(buf: array<char>, off: nat, x: int) returns (n: nat)
    requires -1 * TWO63 <= x < TWO63 && off + |DecimalI64(x)| <= buf.Length
    modifies buf
    ensures n == |DecimalI64(x)| && buf[off..off + n] == DecimalI64(x)
    ensures buf[..off] == old(buf[..off]) && buf[off + n..] == old(buf[off + n..])
  {
    hide Decimal, AbsI64, BitLen;
    AbsI64IsAbs(x);
    if x < 0 {
      buf[off] := '-';
      ghost var b0 := buf[..];
      var end := UtoaFast(AbsI64(x), buf, off + 1);
      n := end - (off + 1) + 1;
      Keep(b0, buf[..], off + 1, end);
      assert buf[off..end] == [buf[off]] + buf[off + 1..end];
    } else {
      var end := UtoaFast(AbsI64(x), buf, off);
      n := end - off;
    }
  }

  lemma Keep(a: string, b: string, lo: nat, hi: nat)
    requires 0 < lo <= hi <= |a| == |b| && a[..lo] == b[..lo] && a[hi..] == b[hi..]
    ensures a[lo - 1] == b[lo - 1] && a[..lo - 1] == b[..lo - 1]
  {
    assert a[lo - 1] == a[..lo][lo - 1] && b[lo - 1] == b[..lo][lo - 1];
    assert a[..lo - 1] == a[..lo][..lo - 1] && b[..lo - 1] == b[..lo][..lo - 1];
  }

  method FmtSizeU64(x: nat) returns (n: nat)
    requires BitLen(x) <= 64
    ensures n == |Decimal(x)|
  {
    CountDigitsIsLength(x);
    return CountDigits(x);
  }

  method FmtU64(buf: array<char>, off: nat, x: nat) returns (n: nat)
    requires BitLen(x) <= 64 && off + |Decimal(x)| <= buf.Length
    modifies buf
    ensures n == |Decimal(x)| && buf[off..off + n] == Decimal(x)
    ensures buf[..off] == old(buf[..off]) && buf[off + n..] == old(buf[off + n..])
  {
    var end := UtoaFast(x, buf, off);
    return end - off;
  }
}
