// What src/base64.c computes, bit by bit: the alphabet by its rule (table 1 of RFC 4648), the text by
// the bits of the bytes and the bytes by the bits of the text.
module Base64Bits {
  import opened Bits
  import opened Base64

  // ----- the alphabet -----

  // The character for six bits.
  function Letter(v: nat): char
    requires v < 64
  {
    if v < 26 then 'A' + v as char
    else if v < 52 then 'a' + (v - 26) as char
    else if v < 62 then '0' + (v - 52) as char
    else if v == 62 then '+'
    else '/'
  }

  // The byte a character is read as: the six bits of a letter, -2 for the pad and -1 for the rest.
  function LetterValue(c: char): nat {
    if 'A' <= c <= 'Z' then c as nat - 'A' as nat
    else if 'a' <= c <= 'z' then 26 + (c as nat - 'a' as nat)
    else if '0' <= c <= '9' then 52 + (c as nat - '0' as nat)
    else if c == '+' then 62
    else if c == '/' then 63
    else if c == '=' then 254
    else 255
  }

  lemma LowLetters(v: nat)
    requires v < 32
    ensures Sign(v) == Letter(v)
  {
  }

  lemma HighLetters(v: nat)
    requires 32 <= v < 64
    ensures Sign(v) == Letter(v)
  {
  }

  // The encoder's table is the alphabet.
  lemma SignIsLetter(v: nat)
    requires v < 64
    ensures Sign(v) == Letter(v)
  {
    hide Sign, Letter;
    if v < 32 { LowLetters(v); } else { HighLetters(v); }
  }

  lemma LowValues(c: char)
    requires 43 <= c as nat < 83
    ensures Entry(c as nat - 43) == LetterValue(c)
  {
  }

  lemma HighValues(c: char)
    requires 83 <= c as nat < 123
    ensures Entry(c as nat - 43) == LetterValue(c)
  {
  }

  // The decoder's table is the alphabet read backwards.
  lemma ValueIsLetterValue(c: char)
    requires Covered(c)
    ensures Value(c) == LetterValue(c) < 256
  {
    hide Entry;
    if c as nat < 83 { LowValues(c); } else { HighValues(c); }
  }

  // ----- bits of numbers -----

  function One(b: bool): nat {
    if b then 1 else 0
  }

  lemma BitDown(x: nat, k: nat)
    ensures Bit(x, k + 1) <==> Bit(x / 2, k)
    ensures Bit(x, 0) <==> x % 2 == 1
  {
  }

  lemma BitsAbove(x: nat, m: nat)
    requires m > 0
    ensures x % (2 * m) == 2 * (x / 2 % m) + One(Bit(x, 0))
  {
    hide Bit;
    BitDown(x, 0);
    var q := x / 2 / m;
    assert x / 2 == m * q + x / 2 % m;
    assert 2 * m * q == 2 * (m * q);
    ModUnique(x, 2 * m, q, 2 * (x / 2 % m) + x % 2);
  }

  // The lowest n bits.
  function Low(x: nat, n: nat): nat {
    x % Pow2(n)
  }

  lemma LowHalf(x: nat, n: nat)
    ensures Low(x, n + 1) == 2 * Low(x / 2, n) + One(Bit(x, 0))
  {
    hide Bit;
    BitsAbove(x, Pow2(n));
  }

  lemma {:induction false} BitAtop(x: nat, n: nat)
    ensures Low(x, n + 1) == Low(x, n) + if Bit(x, n) then Pow2(n) else 0
    decreases n
  {
    hide Bit, Low;
    LowHalf(x, n);
    if n > 0 {
      BitDown(x, n - 1);
      BitAtop(x / 2, n - 1);
      LowHalf(x, n - 1);
    } else {
      LowNone(x);
      LowNone(x / 2);
    }
  }

  lemma LowNone(x: nat)
    ensures Low(x, 0) == 0
  {
  }

  lemma LowPowers()
    ensures Pow2(0) == 1 && Pow2(1) == 2 && Pow2(2) == 4 && Pow2(3) == 8 && Pow2(4) == 16
    ensures Pow2(5) == 32 && Pow2(6) == 64 && Pow2(7) == 128 && Pow2(8) == 256
  {
    assert Pow2(4) == 16;
  }

  lemma SixBitsOf(x: nat)
    ensures x % 64 == 32 * One(Bit(x, 5)) + 16 * One(Bit(x, 4)) + 8 * One(Bit(x, 3)) + 4 * One(Bit(x, 2)) +
                      2 * One(Bit(x, 1)) + One(Bit(x, 0))
  {
    hide Bit, Pow2;
    LowPowers();
    LowNone(x);
    BitAtop(x, 0);
    BitAtop(x, 1);
    BitAtop(x, 2);
    BitAtop(x, 3);
    BitAtop(x, 4);
    BitAtop(x, 5);
  }

  lemma EightBitsOf(x: nat)
    ensures x % 256 == 128 * One(Bit(x, 7)) + 64 * One(Bit(x, 6)) + 32 * One(Bit(x, 5)) + 16 * One(Bit(x, 4)) +
                       8 * One(Bit(x, 3)) + 4 * One(Bit(x, 2)) + 2 * One(Bit(x, 1)) + One(Bit(x, 0))
  {
    hide Bit, Pow2;
    LowPowers();
    SixBitsOf(x);
    BitAtop(x, 6);
    BitAtop(x, 7);
  }

  lemma {:induction false} BitOfShifted(v: nat, n: nat, k: nat)
    ensures Bit(v * Pow2(n), k) <==> k >= n && Bit(v, k - n)
    decreases n
  {
    if n > 0 {
      assert v * Pow2(n) == 2 * (v * Pow2(n - 1));
      if k > 0 { BitOfShifted(v, n - 1, k - 1); }
    }
  }

  lemma {:induction false} NoBitAbove(v: nat, n: nat, k: nat)
    requires v < Pow2(n) && k >= n
    ensures !Bit(v, k)
    decreases k
  {
    if k > 0 { NoBitAbove(v / 2, if n > 0 then n - 1 else 0, k - 1); }
  }

  lemma QuotientUnique(x: nat, d: nat, q: nat)
    requires d > 0 && q * d <= x < (q + 1) * d
    ensures x / d == q
  {
    assert (q + 1) * d == q * d + d;
    ModUnique(x, d, q, x - q * d);
    assert x == d * (x / d) + x % d;
    var e := x / d - q;
    assert d * e == 0;
    if e != 0 { MulApart(d, e); }
  }

  lemma QuotientIsShr(x: nat, n: nat)
    ensures x / Pow2(n) == Shr(x, n)
  {
    ShrIsDivision(x, n);
    QuotientUnique(x, Pow2(n), Shr(x, n));
  }

  lemma BitOfShr(x: nat, n: nat, k: nat)
    ensures Bit(Shr(x, n), k) <==> Bit(x, n + k)
  {
    ShrShr(x, n, k);
  }

  // ----- the text of the bytes -----

  // Bit j of the bytes, the highest of each byte first, and zeros after the last.
  predicate DataBit(data: seq<Byte>, j: nat) {
    j / 8 < |data| && Bit(data[j / 8], 7 - j % 8)
  }

  // Bits 6 * k to 6 * k + 5 as a number.
  function SixBits(data: seq<Byte>, k: nat): (v: nat)
    ensures v < 64
  {
    32 * One(DataBit(data, 6 * k)) + 16 * One(DataBit(data, 6 * k + 1)) + 8 * One(DataBit(data, 6 * k + 2)) +
    4 * One(DataBit(data, 6 * k + 3)) + 2 * One(DataBit(data, 6 * k + 4)) + One(DataBit(data, 6 * k + 5))
  }

  lemma SixOfChunk(c: nat, k: nat)
    requires k < 4
    ensures Six(c, k) == 32 * One(Bit(c, 23 - 6 * k)) + 16 * One(Bit(c, 22 - 6 * k)) + 8 * One(Bit(c, 21 - 6 * k)) +
                         4 * One(Bit(c, 20 - 6 * k)) + 2 * One(Bit(c, 19 - 6 * k)) + One(Bit(c, 18 - 6 * k))
  {
    hide Bit, Pow2, Shr;
    Powers();
    var n := 18 - 6 * k;
    assert Six(c, k) == c / Pow2(n) % 64 by { LowPowers(); }
    QuotientIsShr(c, n);
    SixBitsOf(Shr(c, n));
    BitOfShr(c, n, 5);
    BitOfShr(c, n, 4);
    BitOfShr(c, n, 3);
    BitOfShr(c, n, 2);
    BitOfShr(c, n, 1);
    BitOfShr(c, n, 0);
  }

  lemma PackBit(b0: nat, b1: nat, b2: nat, q: nat)
    requires b0 < 256 && b1 < 256 && b2 < 256 && q < 24
    ensures Bit(Pack(b0, b1, b2), q) <==>
            if q >= 16 then Bit(b0, q - 16) else if q >= 8 then Bit(b1, q - 8) else Bit(b2, q)
  {
    hide Bit, Or, Pow2;
    Powers();
    BitOr(Or(b0 * 0x1_0000, b1 * 0x100), b2, q);
    BitOr(b0 * 0x1_0000, b1 * 0x100, q);
    BitOfShifted(b0, 16, q);
    BitOfShifted(b1, 8, q);
    if q >= 16 { NoBitAbove(b1, 8, q - 8); }
    if q >= 8 { NoBitAbove(b2, 8, q); }
  }

  // The chunk of the first group of bytes.
  function FirstChunk(data: seq<Byte>): nat
    requires data != []
  {
    Pack(data[0], if |data| > 1 then data[1] else 0, if |data| > 2 then data[2] else 0)
  }

  lemma {:induction false} NoBitOfZero(k: nat)
    ensures !Bit(0, k)
  {
    if k > 0 { NoBitOfZero(k - 1); }
  }

  lemma FirstChunkBit(data: seq<Byte>, t: nat)
    requires data != [] && t < 24
    ensures Bit(FirstChunk(data), 23 - t) <==> DataBit(data, t)
  {
    hide Bit, Pack;
    PackBit(data[0], if |data| > 1 then data[1] else 0, if |data| > 2 then data[2] else 0, 23 - t);
    NoBitOfZero(7 - t % 8);
    assert t / 8 == if t < 8 then 0 else if t < 16 then 1 else 2;
  }

  lemma SixIsSixBits(data: seq<Byte>, k: nat)
    requires data != [] && k < 4
    ensures Six(FirstChunk(data), k) == SixBits(data, k)
  {
    hide Bit, Six, FirstChunk, DataBit;
    SixOfChunk(FirstChunk(data), k);
    FirstChunkBit(data, 6 * k);
    FirstChunkBit(data, 6 * k + 1);
    FirstChunkBit(data, 6 * k + 2);
    FirstChunkBit(data, 6 * k + 3);
    FirstChunkBit(data, 6 * k + 4);
    FirstChunkBit(data, 6 * k + 5);
  }

  lemma DataBitLater(data: seq<Byte>, j: nat)
    requires |data| >= 3
    ensures DataBit(data, j + 24) <==> DataBit(data[3..], j)
  {
    hide Bit;
    assert (j + 24) / 8 == j / 8 + 3 && (j + 24) % 8 == j % 8;
  }

  lemma SixBitsLater(data: seq<Byte>, k: nat)
    requires |data| >= 3
    ensures SixBits(data, k + 4) == SixBits(data[3..], k)
  {
    hide DataBit;
    assert 6 * (k + 4) == 6 * k + 24;
    DataBitLater(data, 6 * k);
    DataBitLater(data, 6 * k + 1);
    DataBitLater(data, 6 * k + 2);
    DataBitLater(data, 6 * k + 3);
    DataBitLater(data, 6 * k + 4);
    DataBitLater(data, 6 * k + 5);
  }

  lemma FirstSigns(data: seq<Byte>, k: nat)
    requires data != [] && k < 4
    ensures |Encode(data)| >= 4
    ensures Encode(data)[k] == if 6 * k < 8 * |data| then Sign(Six(FirstChunk(data), k)) else '='
  {
    hide Six, Sign, Pack;
  }

  // Character k of the text is the letter of bits 6 * k to 6 * k + 5 of the bytes, or the pad past their end.
  lemma {:induction false} EncodeBits(data: seq<Byte>, k: nat)
    requires k < |Encode(data)|
    ensures Encode(data)[k] == if 6 * k < 8 * |data| then Letter(SixBits(data, k)) else '='
    decreases |data|
  {
    hide Encode, SixBits, Letter, Sign, Six, FirstChunk;
    if k < 4 {
      FirstSigns(data, k);
      SixIsSixBits(data, k);
      SignIsLetter(SixBits(data, k));
    } else {
      EncodeStarts(data);
      EncodeBits(data[3..], k - 4);
      SixBitsLater(data, k - 4);
    }
  }

  // ----- the bytes of the text -----

  // Bit j of the first n characters, six for each. A byte from outside the alphabet has its two upper
  // bits in the two lower ones of the character before it, in the same group of four.
  predicate TextBit(s: string, n: nat, j: nat)
    requires n <= |s|
  {
    || (j / 6 < n && Bit(LetterValue(s[j / 6]), 5 - j % 6))
    || (j % 6 >= 4 && j / 6 % 4 != 3 && j / 6 + 1 < n && Bit(LetterValue(s[j / 6 + 1]), 11 - j % 6))
  }

  // Bits 8 * k to 8 * k + 7 as a number.
  function EightBits(s: string, n: nat, k: nat): nat
    requires n <= |s|
  {
    128 * One(TextBit(s, n, 8 * k)) + 64 * One(TextBit(s, n, 8 * k + 1)) + 32 * One(TextBit(s, n, 8 * k + 2)) +
    16 * One(TextBit(s, n, 8 * k + 3)) + 8 * One(TextBit(s, n, 8 * k + 4)) + 4 * One(TextBit(s, n, 8 * k + 5)) +
    2 * One(TextBit(s, n, 8 * k + 6)) + One(TextBit(s, n, 8 * k + 7))
  }

  lemma EightOfChunk(c: nat, k: nat)
    requires k < 3
    ensures Eight(c, k) ==
            128 * One(Bit(c, 23 - 8 * k)) + 64 * One(Bit(c, 22 - 8 * k)) + 32 * One(Bit(c, 21 - 8 * k)) +
            16 * One(Bit(c, 20 - 8 * k)) + 8 * One(Bit(c, 19 - 8 * k)) + 4 * One(Bit(c, 18 - 8 * k)) +
            2 * One(Bit(c, 17 - 8 * k)) + One(Bit(c, 16 - 8 * k))
  {
    hide Bit, Pow2, Shr;
    Powers();
    var n := 16 - 8 * k;
    assert Eight(c, k) == c / Pow2(n) % 256 by { LowPowers(); }
    QuotientIsShr(c, n);
    EightBitsOf(Shr(c, n));
    BitOfShr(c, n, 7);
    BitOfShr(c, n, 6);
    BitOfShr(c, n, 5);
    BitOfShr(c, n, 4);
    BitOfShr(c, n, 3);
    BitOfShr(c, n, 2);
    BitOfShr(c, n, 1);
    BitOfShr(c, n, 0);
  }

  lemma JoinBit(v0: nat, v1: nat, v2: nat, v3: nat, q: nat)
    ensures Bit(Join(v0, v1, v2, v3), q) <==>
            || (q >= 18 && Bit(v0, q - 18)) || (q >= 12 && Bit(v1, q - 12))
            || (q >= 6 && Bit(v2, q - 6)) || Bit(v3, q)
  {
    hide Bit, Or, Pow2;
    Powers();
    BitOr(Or(Or(v0 * 0x4_0000, v1 * 0x1000), v2 * 0x40), v3, q);
    BitOr(Or(v0 * 0x4_0000, v1 * 0x1000), v2 * 0x40, q);
    BitOr(v0 * 0x4_0000, v1 * 0x1000, q);
    BitOfShifted(v0, 18, q);
    BitOfShifted(v1, 12, q);
    BitOfShifted(v2, 6, q);
  }

  // Character m of a group, when the group has n of them.
  function CharByte(s: string, n: nat, m: nat): nat
    requires n <= |s|
  {
    if m < n then LetterValue(s[m]) else 0
  }

  lemma CharByteBound(s: string, n: nat, m: nat, k: nat)
    requires n <= |s| && k >= 8
    ensures !Bit(CharByte(s, n, m), k)
  {
    hide Bit;
    assert Pow2(8) == 256;
    NoBitAbove(CharByte(s, n, m), 8, k);
  }

  lemma TextBitOf(s: string, n: nat, t: nat)
    requires n <= |s| && t < 24
    ensures TextBit(s, n, t) <==>
            || Bit(CharByte(s, n, t / 6), 5 - t % 6)
            || (t % 6 >= 4 && t / 6 != 3 && Bit(CharByte(s, n, t / 6 + 1), 11 - t % 6))
  {
    hide Bit, LetterValue;
    NoBitOfZero(5 - t % 6);
    NoBitOfZero(11 - t % 6);
    assert t / 6 < 4 && t / 6 % 4 == t / 6;
  }

  lemma GroupBit(s: string, padding: nat, t: nat)
    requires Readable(s) && |s| >= 4 && padding <= 2 && t < 24
    requires forall k | 0 <= k < 4 :: Covered(s[k])
    ensures Bit(GroupChunk(s, padding), 23 - t) <==> TextBit(s[..4], 4 - padding, t)
  {
    hide Bit, Join, Readable, Value, LetterValue, TextBit, Covered;
    ValueIsLetterValue(s[0]);
    ValueIsLetterValue(s[1]);
    ValueIsLetterValue(s[2]);
    ValueIsLetterValue(s[3]);
    var g, n := s[..4], 4 - padding;
    JoinBit(CharByte(g, n, 0), CharByte(g, n, 1), CharByte(g, n, 2), CharByte(g, n, 3), 23 - t);
    TextBitOf(g, n, t);
    hide GroupChunk;
    hide CharByte;
    var m := t / 6;
    assert t == 6 * m + t % 6 && m < 4;
    if m < 1 { CharByteBound(g, n, 2, 17 - t); CharByteBound(g, n, 3, 23 - t); }
    if m == 1 { CharByteBound(g, n, 3, 23 - t); }
    if m < 3 && t % 6 < 4 { CharByteBound(g, n, m + 1, 11 - t % 6); }
  }

  lemma EightIsEightBits(s: string, padding: nat, k: nat)
    requires Readable(s) && |s| >= 4 && padding <= 2 && k < 3
    requires forall m | 0 <= m < 4 :: Covered(s[m])
    ensures Eight(GroupChunk(s, padding), k) == EightBits(s[..4], 4 - padding, k)
  {
    hide Bit, Eight, GroupChunk, TextBit, Readable, Covered;
    EightOfChunk(GroupChunk(s, padding), k);
    GroupBit(s, padding, 8 * k);
    GroupBit(s, padding, 8 * k + 1);
    GroupBit(s, padding, 8 * k + 2);
    GroupBit(s, padding, 8 * k + 3);
    GroupBit(s, padding, 8 * k + 4);
    GroupBit(s, padding, 8 * k + 5);
    GroupBit(s, padding, 8 * k + 6);
    GroupBit(s, padding, 8 * k + 7);
  }

  // The first group looks at its own characters, and the others do not look at it.
  lemma TextBitFirst(s: string, n: nat, j: nat)
    requires 4 <= n <= |s| && j < 24
    ensures TextBit(s, n, j) <==> TextBit(s[..4], 4, j)
  {
    hide Bit, LetterValue;
    assert j / 6 < 4 && (j / 6 % 4 != 3 ==> j / 6 + 1 < 4);
  }

  lemma TextBitLater(s: string, n: nat, j: nat)
    requires 4 <= n <= |s|
    ensures TextBit(s, n, j + 24) <==> TextBit(s[4..], n - 4, j)
  {
    hide Bit, LetterValue;
    assert (j + 24) / 6 == j / 6 + 4 && (j + 24) % 6 == j % 6;
  }

  lemma EightBitsFirst(s: string, n: nat, k: nat)
    requires 4 <= n <= |s| && k < 3
    ensures EightBits(s, n, k) == EightBits(s[..4], 4, k)
  {
    hide TextBit;
    TextBitFirst(s, n, 8 * k);
    TextBitFirst(s, n, 8 * k + 1);
    TextBitFirst(s, n, 8 * k + 2);
    TextBitFirst(s, n, 8 * k + 3);
    TextBitFirst(s, n, 8 * k + 4);
    TextBitFirst(s, n, 8 * k + 5);
    TextBitFirst(s, n, 8 * k + 6);
    TextBitFirst(s, n, 8 * k + 7);
  }

  lemma EightBitsLater(s: string, n: nat, k: nat)
    requires 4 <= n <= |s|
    ensures EightBits(s, n, k + 3) == EightBits(s[4..], n - 4, k)
  {
    hide TextBit;
    assert 8 * (k + 3) == 8 * k + 24;
    TextBitLater(s, n, 8 * k);
    TextBitLater(s, n, 8 * k + 1);
    TextBitLater(s, n, 8 * k + 2);
    TextBitLater(s, n, 8 * k + 3);
    TextBitLater(s, n, 8 * k + 4);
    TextBitLater(s, n, 8 * k + 5);
    TextBitLater(s, n, 8 * k + 6);
    TextBitLater(s, n, 8 * k + 7);
  }

  // How many characters carry bits: all but the pads among the last two.
  function Carrying(s: string): (n: nat)
    requires |s| >= 4
    ensures |s| - 2 <= n <= |s|
  {
    |s| - One(s[|s| - 1] == '=') - One(s[|s| - 2] == '=')
  }

  // Byte k is made of bits 8 * k to 8 * k + 7 of the carrying characters, for every text the decoder reads.
  lemma {:induction false} DecodeBits(s: string, k: nat)
    requires Readable(s) && k < |Decode(s)|
    ensures |s| >= 4 && |Decode(s)| == 6 * Carrying(s) / 8
    ensures Decode(s)[k] == EightBits(s, Carrying(s), k)
    decreases |s|
  {
    hide Decode, EightBits, Eight, GroupChunk, Covered, Readable;
    ReadableGroup(s);
    SizeByCarrying(s);
    if |s| == 4 {
      DecodeEnds(s);
      assert s[..4] == s;
      EightIsEightBits(s, Padding(s), k);
    } else {
      DecodeStarts(s);
      if k < 3 {
        assert Decode(s)[k] == Decode(s)[..3][k];
        EightIsEightBits(s, 0, k);
        EightBitsFirst(s, Carrying(s), k);
      } else {
        assert Decode(s)[k] == Decode(s)[3..][k - 3];
        DecodeBits(s[4..], k - 3);
        EightBitsLater(s, Carrying(s), k - 3);
      }
    }
  }

  lemma SizeByCarrying(s: string)
    requires Readable(s)
    ensures |s| >= 4 && |Decode(s)| == 6 * Carrying(s) / 8
  {
    hide Covered;
    ReadableGroup(s);
    DecodeLength(s);
  }

  // In a text whose carrying characters are letters each bit is one bit of one letter.
  lemma LettersOnly(s: string, j: nat)
    requires |s| >= 4 && forall m | 0 <= m < Carrying(s) :: LetterValue(s[m]) < 64
    requires j < 6 * Carrying(s)
    ensures TextBit(s, Carrying(s), j) <==> Bit(LetterValue(s[j / 6]), 5 - j % 6)
  {
    hide Bit, LetterValue;
    assert Pow2(6) == 64;
    if j % 6 >= 4 && j / 6 + 1 < Carrying(s) {
      NoBitAbove(LetterValue(s[j / 6 + 1]), 6, 11 - j % 6);
    }
  }
}
