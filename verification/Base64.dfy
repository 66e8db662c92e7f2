// Base64 of src/base64.c, section 4 of RFC 4648.
module Base64 {
  import opened Bits

  type Byte = x: nat | x < 256

  // ----- the tables -----

  // encode_table
  function Sign(v: nat): char {
    match v
    case 0 => 'A' case 1 => 'B' case 2 => 'C' case 3 => 'D' case 4 => 'E' case 5 => 'F'
    case 6 => 'G' case 7 => 'H' case 8 => 'I' case 9 => 'J' case 10 => 'K' case 11 => 'L'
    case 12 => 'M' case 13 => 'N' case 14 => 'O' case 15 => 'P' case 16 => 'Q' case 17 => 'R'
    case 18 => 'S' case 19 => 'T' case 20 => 'U' case 21 => 'V' case 22 => 'W' case 23 => 'X'
    case 24 => 'Y' case 25 => 'Z' case 26 => 'a' case 27 => 'b' case 28 => 'c' case 29 => 'd'
    case 30 => 'e' case 31 => 'f' case 32 => 'g' case 33 => 'h' case 34 => 'i' case 35 => 'j'
    case 36 => 'k' case 37 => 'l' case 38 => 'm' case 39 => 'n' case 40 => 'o' case 41 => 'p'
    case 42 => 'q' case 43 => 'r' case 44 => 's' case 45 => 't' case 46 => 'u' case 47 => 'v'
    case 48 => 'w' case 49 => 'x' case 50 => 'y' case 51 => 'z' case 52 => '0' case 53 => '1'
    case 54 => '2' case 55 => '3' case 56 => '4' case 57 => '5' case 58 => '6' case 59 => '7'
    case 60 => '8' case 61 => '9' case 62 => '+' case 63 => '/'
    case _ => '='
  }

  // decode_table, with -1 and -2 as the bytes they are stored as.
  function Entry(k: nat): nat {
    match k
    case 0 => 62 case 1 => 255 case 2 => 255 case 3 => 255 case 4 => 63 case 5 => 52 case 6 => 53 case 7 => 54
    case 8 => 55 case 9 => 56 case 10 => 57 case 11 => 58 case 12 => 59 case 13 => 60 case 14 => 61 case 15 => 255
    case 16 => 255 case 17 => 255 case 18 => 254 case 19 => 255 case 20 => 255 case 21 => 255 case 22 => 0 case 23 => 1
    case 24 => 2 case 25 => 3 case 26 => 4 case 27 => 5 case 28 => 6 case 29 => 7 case 30 => 8 case 31 => 9
    case 32 => 10 case 33 => 11 case 34 => 12 case 35 => 13 case 36 => 14 case 37 => 15 case 38 => 16 case 39 => 17
    case 40 => 18 case 41 => 19 case 42 => 20 case 43 => 21 case 44 => 22 case 45 => 23 case 46 => 24 case 47 => 25
    case 48 => 255 case 49 => 255 case 50 => 255 case 51 => 255 case 52 => 255 case 53 => 255 case 54 => 26
        case 55 => 27
    case 56 => 28 case 57 => 29 case 58 => 30 case 59 => 31 case 60 => 32 case 61 => 33 case 62 => 34 case 63 => 35
    case 64 => 36 case 65 => 37 case 66 => 38 case 67 => 39 case 68 => 40 case 69 => 41 case 70 => 42 case 71 => 43
    case 72 => 44 case 73 => 45 case 74 => 46 case 75 => 47 case 76 => 48 case 77 => 49 case 78 => 50 case 79 => 51
    case _ => 255
  }

  // The decoder looks characters up without a range test; these are the ones its table covers.
  predicate Covered(c: char) {
    '+' <= c <= 'z'
  }

  function Value(c: char): nat
    requires Covered(c)
  {
    Entry(c as int - '+' as int)
  }

  lemma LowSigns(v: nat)
    requires v < 32
    ensures 43 <= Sign(v) as int < 123 && Entry(Sign(v) as int - 43) == v
  {
  }

  lemma HighSigns(v: nat)
    requires 32 <= v < 64
    ensures 43 <= Sign(v) as int < 123 && Entry(Sign(v) as int - 43) == v
  {
  }

  lemma LowEntries(k: nat)
    requires k < 40
    ensures Entry(k) < 64 ==> Sign(Entry(k)) as int == 43 + k
  {
  }

  lemma HighEntries(k: nat)
    requires 40 <= k < 80
    ensures Entry(k) < 64 ==> Sign(Entry(k)) as int == 43 + k
  {
  }

  lemma PadValue()
    ensures Value('=') == 254
  {
  }

  // The tables are inverse to each other.
  lemma {:induction false} ValueOfSign(v: nat)
    requires v < 64
    ensures Covered(Sign(v)) && Value(Sign(v)) == v && Sign(v) != '='
  {
    hide Sign, Entry;
    if v < 32 { LowSigns(v); } else { HighSigns(v); }
    PadValue();
  }

  lemma SignOfValue(c: char)
    requires Covered(c) && Value(c) < 64
    ensures Sign(Value(c)) == c
  {
    hide Sign, Entry;
    var k := c as int - 43;
    if k < 40 { LowEntries(k); } else { HighEntries(k); }
  }

  // ----- chunks -----

  lemma {:induction false} OrAdds(a: nat, k: nat, b: nat)
    requires b < Pow2(k)
    ensures Or(a * Pow2(k), b) == a * Pow2(k) + b
    decreases k
  {
    if k == 0 {
      OrZero(a);
    } else {
      var x := a * Pow2(k);
      assert x == 2 * (a * Pow2(k - 1));
      OrAdds(a, k - 1, b / 2);
    }
  }

  lemma {:induction false} OrZero(a: nat)
    ensures Or(a, 0) == a
  {
    if a > 0 { OrZero(a / 2); }
  }

  lemma Powers()
    ensures Pow2(6) == 0x40 && Pow2(8) == 0x100 && Pow2(12) == 0x1000 && Pow2(16) == 0x1_0000 && Pow2(18) == 0x4_0000
  {
    assert Pow2(6) == 0x40;
    assert Pow2(12) == 0x40 * Pow2(6);
  }

  // Three bytes, highest first.
  function Pack(b0: nat, b1: nat, b2: nat): nat {
    Or(Or(b0 * 0x1_0000, b1 * 0x100), b2)
  }

  lemma PackAdds(b0: nat, b1: nat, b2: nat)
    requires b0 < 256 && b1 < 256 && b2 < 256
    ensures Pack(b0, b1, b2) == b0 * 0x1_0000 + b1 * 0x100 + b2
  {
    hide Or, Pow2;
    Powers();
    OrAdds(b0, 16, b1 * 0x100);
    OrAdds(b0 * 0x100 + b1, 8, b2);
  }

  // Four values of six bits, highest first.
  function Join(v0: nat, v1: nat, v2: nat, v3: nat): nat {
    Or(Or(Or(v0 * 0x4_0000, v1 * 0x1000), v2 * 0x40), v3)
  }

  lemma JoinAdds(v0: nat, v1: nat, v2: nat, v3: nat)
    requires v0 < 64 && v1 < 64 && v2 < 64 && v3 < 64
    ensures Join(v0, v1, v2, v3) == v0 * 0x4_0000 + v1 * 0x1000 + v2 * 0x40 + v3
  {
    hide Or, Pow2;
    Powers();
    OrAdds(v0, 18, v1 * 0x1000);
    OrAdds(v0 * 0x40 + v1, 12, v2 * 0x40);
    OrAdds((v0 * 0x40 + v1) * 0x40 + v2, 6, v3);
  }

  // The four sextets and the three bytes of a chunk.
  function Six(chunk: nat, k: nat): nat {
    match k
    case 0 => chunk / 0x4_0000 % 0x40
    case 1 => chunk / 0x1000 % 0x40
    case 2 => chunk / 0x40 % 0x40
    case _ => chunk % 0x40
  }

  function Eight(chunk: nat, k: nat): Byte {
    match k
    case 0 => chunk / 0x1_0000 % 0x100
    case 1 => chunk / 0x100 % 0x100
    case _ => chunk % 0x100
  }

  lemma SixBound(chunk: nat, k: nat)
    ensures Six(chunk, k) < 64
  {
  }

  lemma SixesOfSum(v0: nat, v1: nat, v2: nat, v3: nat)
    requires v0 < 64 && v1 < 64 && v2 < 64 && v3 < 64
    ensures var c := v0 * 0x4_0000 + v1 * 0x1000 + v2 * 0x40 + v3;
            Six(c, 0) == v0 && Six(c, 1) == v1 && Six(c, 2) == v2 && Six(c, 3) == v3
  {
    var c := v0 * 0x4_0000 + v1 * 0x1000 + v2 * 0x40 + v3;
    assert c / 0x40 == v0 * 0x1000 + v1 * 0x40 + v2;
    assert c / 0x1000 == v0 * 0x40 + v1;
    assert c / 0x4_0000 == v0;
  }

  lemma SumOfSixes(c: nat)
    requires c < 0x100_0000
    ensures Six(c, 0) * 0x4_0000 + Six(c, 1) * 0x1000 + Six(c, 2) * 0x40 + Six(c, 3) == c
  {
    var q := c / 0x40;
    assert c / 0x1000 == q / 0x40;
    assert c / 0x4_0000 == q / 0x40 / 0x40;
  }

  lemma EightsOfSum(b0: nat, b1: nat, b2: nat)
    requires b0 < 256 && b1 < 256 && b2 < 256
    ensures var c := b0 * 0x1_0000 + b1 * 0x100 + b2; Eight(c, 0) == b0 && Eight(c, 1) == b1 && Eight(c, 2) == b2
  {
    var c := b0 * 0x1_0000 + b1 * 0x100 + b2;
    assert c / 0x100 == b0 * 0x100 + b1;
    assert c / 0x1_0000 == b0;
  }

  lemma SumOfEights(c: nat)
    requires c < 0x100_0000
    ensures Eight(c, 0) * 0x1_0000 + Eight(c, 1) * 0x100 + Eight(c, 2) == c
  {
    var q := c / 0x100;
    assert c / 0x1_0000 == q / 0x100;
  }

  // ----- encoding -----

  function EncodeSize(n: nat): nat {
    (n + 2) / 3 * 4
  }

  function Signs(chunk: nat, n: nat): (r: string)
    requires n <= 4
    ensures |r| == n && forall k | 0 <= k < n :: r[k] == Sign(Six(chunk, k))
  {
    seq(n, k requires 0 <= k < n => Sign(Six(chunk, k)))
  }

  function Encode(data: seq<Byte>): (r: string)
    ensures |r| == EncodeSize(|data|)
  {
    if |data| == 0 then ""
    else if |data| == 1 then Signs(Pack(data[0], 0, 0), 2) + "=="
    else if |data| == 2 then Signs(Pack(data[0], data[1], 0), 3) + "="
    else Signs(Pack(data[0], data[1], data[2]), 4) + Encode(data[3..])
  }

  // ----- decoding -----

  // What the decoder accepts: whole groups, with every character covered by the table.
  predicate Readable(s: string) {
    |s| > 0 && |s| % 4 == 0 && forall k | 0 <= k < |s| :: Covered(s[k])
  }

  function Padding(s: string): (p: nat)
    requires |s| >= 2
    ensures p <= 2
  {
    (if s[|s| - 1] == '=' then 1 else 0) + (if s[|s| - 2] == '=' then 1 else 0)
  }

  function DecodeSize(s: string): nat {
    if |s| == 0 || |s| % 4 != 0 then 0 else |s| / 4 * 3 - Padding(s)
  }

  // The chunk of the characters of a group that are not padding.
  function GroupChunk(s: string, padding: nat): nat
    requires |s| >= 4 && padding <= 2 && forall k | 0 <= k < 4 :: Covered(s[k])
  {
    Join(Value(s[0]), Value(s[1]), if padding < 2 then Value(s[2]) else 0, if padding < 1 then Value(s[3]) else 0)
  }

  function Bytes(chunk: nat, n: nat): (r: seq<Byte>)
    requires n <= 3
    ensures |r| == n && forall k | 0 <= k < n :: r[k] == Eight(chunk, k)
  {
    seq(n, k requires 0 <= k < n => Eight(chunk, k))
  }

  lemma ReadableGroup(s: string)
    requires Readable(s)
    ensures |s| >= 4 && (|s| != 4 ==> |s| >= 8) && forall k | 0 <= k < 4 :: Covered(s[k])
  {
    hide Covered;
  }

  lemma ReadableRest(s: string)
    requires Readable(s) && |s| >= 8
    ensures Readable(s[4..])
  {
    hide Covered;
    var t := s[4..];
    assert |t| % 4 == 0;
    forall k | 0 <= k < |t| ensures Covered(t[k]) { assert t[k] == s[k + 4]; }
  }

  function Decode(s: string): seq<Byte>
    requires Readable(s)
  {
    ReadableGroup(s);
    if |s| == 4 then Bytes(GroupChunk(s, Padding(s)), 3 - Padding(s))
    else
      ReadableRest(s);
      Bytes(GroupChunk(s, 0), 3) + Decode(s[4..])
  }

  lemma DecodeStarts(s: string)
    requires Readable(s) && |s| > 4
    ensures |s| >= 8 && (forall k | 0 <= k < 4 :: Covered(s[k])) && Readable(s[4..])
    ensures |Decode(s)| >= 3 && Decode(s)[..3] == Bytes(GroupChunk(s, 0), 3) && Decode(s)[3..] == Decode(s[4..])
  {
    hide Readable, GroupChunk, Covered;
    ReadableGroup(s);
    ReadableRest(s);
  }

  lemma DecodeEnds(s: string)
    requires Readable(s) && |s| == 4
    ensures forall k | 0 <= k < 4 :: Covered(s[k])
    ensures Decode(s) == Bytes(GroupChunk(s, Padding(s)), 3 - Padding(s))
  {
    hide Readable, GroupChunk, Covered;
    ReadableGroup(s);
  }

  lemma {:induction false} DecodeLength(s: string)
    requires Readable(s)
    ensures |Decode(s)| == DecodeSize(s)
    decreases |s|
  {
    hide GroupChunk, Covered, Bytes;
    if |s| > 4 { DecodeLength(s[4..]); }
  }

  // ----- decode after encode -----

  lemma SignCovered(c: nat, k: nat)
    ensures Covered(Sign(Six(c, k))) && Value(Sign(Six(c, k))) == Six(c, k) && Sign(Six(c, k)) != '='
  {
    hide Sign, Six, Entry;
    SixBound(c, k);
    ValueOfSign(Six(c, k));
  }

  lemma {:induction false} EncodeReadable(data: seq<Byte>)
    requires data != []
    ensures Readable(Encode(data))
    decreases |data|
  {
    hide Sign, Pack, Six, Covered, Encode, EncodeSize;
    PadCovered();
    if |data| > 3 {
      EncodeReadable(data[3..]);
      EncodeStarts(data);
      SignsCovered(Pack(data[0], data[1], data[2]), 4);
      var s := Encode(data);
      assert s == s[..4] + s[4..];
    } else {
      var c := Pack(data[0], if |data| > 1 then data[1] else 0, if |data| > 2 then data[2] else 0);
      SignsCovered(c, |data| + 1);
      EncodeShort(data, c);
    }
  }

  lemma EncodeShort(data: seq<Byte>, c: nat)
    requires 1 <= |data| <= 3
    requires c == Pack(data[0], if |data| > 1 then data[1] else 0, if |data| > 2 then data[2] else 0)
    ensures Encode(data) == Signs(c, |data| + 1) + (if |data| == 1 then "==" else if |data| == 2 then "=" else "")
  {
    hide Pack, Signs;
    if |data| == 3 { assert data[3..] == []; }
  }

  lemma SignsCovered(c: nat, n: nat)
    requires n <= 4
    ensures forall k | 0 <= k < n :: Covered(Signs(c, n)[k])
  {
    hide Sign, Six, Covered;
    forall k | 0 <= k < n ensures Covered(Signs(c, n)[k]) { SignCovered(c, k); }
  }

  lemma PadCovered()
    ensures Covered('=')
  {
  }

  // A group decodes to the chunk it was encoded from, as far as the signs reach.
  lemma ChunkOfSigns(c: nat, s: string, padding: nat)
    requires c < 0x100_0000 && padding <= 2 && |s| >= 4 && s[..4 - padding] == Signs(c, 4 - padding)
    requires forall k | 0 <= k < 4 :: Covered(s[k])
    requires (padding >= 1 ==> c % 0x40 == 0) && (padding == 2 ==> c % 0x1000 == 0)
    ensures GroupChunk(s, padding) == c
  {
    hide Sign, Pack, Join, Entry, Covered, Value;
    SignCovered(c, 0);
    SignCovered(c, 1);
    SignCovered(c, 2);
    SignCovered(c, 3);
    SixBound(c, 0);
    SixBound(c, 1);
    SixBound(c, 2);
    SixBound(c, 3);
    SumOfSixes(c);
    JoinAdds(Six(c, 0), Six(c, 1), Six(c, 2), Six(c, 3));
    assert s[0] == s[..4 - padding][0] && s[1] == s[..4 - padding][1];
    if padding < 2 { assert s[2] == s[..4 - padding][2]; } else { assert Six(c, 2) == 0; }
    if padding < 1 { assert s[3] == s[..4 - padding][3]; } else { assert Six(c, 3) == 0; }
  }

  lemma {:induction false} DecodeOfEncode(data: seq<Byte>)
    requires data != []
    ensures Readable(Encode(data)) && Decode(Encode(data)) == data
    decreases |data|
  {
    hide Sign, Pack, Six, Covered, GroupChunk, Readable, Eight;
    EncodeReadable(data);
    if |data| == 1 {
      DecodeOne(data);
    } else if |data| == 2 {
      DecodeTwo(data);
    } else if |data| == 3 {
      DecodeThree(data);
    } else {
      DecodeOfEncode(data[3..]);
      DecodeMore(data);
    }
  }

  lemma DecodeOne(data: seq<Byte>)
    requires |data| == 1 && Readable(Encode(data))
    ensures Decode(Encode(data)) == data
  {
    hide Sign, Pack, Six, Covered, GroupChunk, Eight, Value;
    var s, c := Encode(data), Pack(data[0], 0, 0);
    PackAdds(data[0], 0, 0);
    assert s[..2] == Signs(c, 2);
    ChunkOfSigns(c, s, 2);
    EightsOfSum(data[0], 0, 0);
  }

  lemma DecodeTwo(data: seq<Byte>)
    requires |data| == 2 && Readable(Encode(data))
    ensures Decode(Encode(data)) == data
  {
    hide Sign, Pack, Six, Covered, GroupChunk, Eight, Value;
    var s, c := Encode(data), Pack(data[0], data[1], 0);
    PackAdds(data[0], data[1], 0);
    assert s[..3] == Signs(c, 3);
    SignCovered(c, 2);
    ChunkOfSigns(c, s, 1);
    EightsOfSum(data[0], data[1], 0);
  }

  lemma EncodeStarts(data: seq<Byte>)
    requires |data| >= 3
    ensures |Encode(data)| >= 4
    ensures Encode(data)[..4] == Signs(Pack(data[0], data[1], data[2]), 4) && Encode(data)[4..] == Encode(data[3..])
  {
    hide Pack, Signs;
  }

  lemma FullGroup(data: seq<Byte>)
    requires |data| >= 3 && Readable(Encode(data))
    ensures |Encode(data)| >= 4 && (forall k | 0 <= k < 4 :: Covered(Encode(data)[k]))
    ensures Bytes(GroupChunk(Encode(data), 0), 3) == data[..3]
  {
    hide Sign, Pack, Six, Covered, GroupChunk, Eight, Value, Encode;
    var s, c := Encode(data), Pack(data[0], data[1], data[2]);
    ReadableGroup(s);
    PackAdds(data[0], data[1], data[2]);
    EncodeStarts(data);
    ChunkOfSigns(c, s, 0);
    EightsOfSum(data[0], data[1], data[2]);
  }

  lemma DecodeThree(data: seq<Byte>)
    requires |data| == 3 && Readable(Encode(data))
    ensures Decode(Encode(data)) == data
  {
    hide Sign, Pack, Six, Covered, GroupChunk, Eight, Value, Bytes;
    FullGroup(data);
    var c := Pack(data[0], data[1], data[2]);
    SignCovered(c, 2);
    SignCovered(c, 3);
    assert data[3..] == [];
    assert Encode(data) == Signs(c, 4);
    assert data[..3] == data;
  }

  lemma DecodeMore(data: seq<Byte>)
    requires |data| > 3 && Readable(Encode(data)) && Readable(Encode(data[3..]))
    requires Decode(Encode(data[3..])) == data[3..]
    ensures Decode(Encode(data)) == data
  {
    hide Sign, Pack, Six, Covered, GroupChunk, Eight, Value, Bytes, Encode, Padding, Readable, Decode;
    FullGroup(data);
    EncodeStarts(data);
    var s := Encode(data);
    assert |s| == 4 + |Encode(data[3..])|;
    DecodeStarts(s);
    assert Decode(s) == Decode(s)[..3] + Decode(s)[3..];
    assert data == data[..3] + data[3..];
  }

  // ----- encode after decode -----

  predicate IsSign(c: char) {
    Covered(c) && Value(c) < 64
  }

  // The last group: four signs, or padding with no bits of the last sign left over.
  predicate CanonicalLast(s: string)
    requires |s| == 4
  {
    && IsSign(s[0])
    && IsSign(s[1])
    && if s[3] != '=' then IsSign(s[2]) && IsSign(s[3])
       else if s[2] != '=' then IsSign(s[2]) && Value(s[2]) % 4 == 0
       else Value(s[1]) % 16 == 0
  }

  predicate Canonical(s: string)
    decreases |s|
  {
    if |s| < 4 then false
    else if |s| == 4 then CanonicalLast(s)
    else IsSign(s[0]) && IsSign(s[1]) && IsSign(s[2]) && IsSign(s[3]) && Canonical(s[4..])
  }

  lemma PadNoSign()
    ensures !IsSign('=')
  {
    hide Entry;
    PadValue();
  }

  // The signs of a group come back from the chunk they make.
  lemma SignsOfChunk(s: string, padding: nat)
    requires |s| >= 4 && padding <= 2 && forall k | 0 <= k < 4 :: Covered(s[k])
    requires forall k | 0 <= k < 4 - padding :: IsSign(s[k])
    ensures Signs(GroupChunk(s, padding), 4 - padding) == s[..4 - padding]
  {
    hide Sign, Join, Entry, Covered, Value, Six;
    var v2 := if padding < 2 then Value(s[2]) else 0;
    var v3 := if padding < 1 then Value(s[3]) else 0;
    JoinAdds(Value(s[0]), Value(s[1]), v2, v3);
    SixesOfSum(Value(s[0]), Value(s[1]), v2, v3);
    forall k | 0 <= k < 4 - padding ensures Sign(Value(s[k])) == s[k] { SignOfValue(s[k]); }
  }

  // The bytes of a chunk make the chunk again, if the bytes left out are zero.
  lemma PackOfEights(c: nat)
    requires c < 0x100_0000
    ensures Pack(Eight(c, 0), Eight(c, 1), Eight(c, 2)) == c
  {
    hide Pack, Eight;
    PackAdds(Eight(c, 0), Eight(c, 1), Eight(c, 2));
    SumOfEights(c);
  }

  lemma ChunkBound(s: string, padding: nat)
    requires |s| >= 4 && padding <= 2 && forall k | 0 <= k < 4 :: Covered(s[k])
    requires forall k | 0 <= k < 4 - padding :: IsSign(s[k])
    ensures var c := GroupChunk(s, padding);
            c < 0x100_0000 &&
            (padding == 1 && Value(s[2]) % 4 == 0 ==> Eight(c, 2) == 0) &&
            (padding == 2 && Value(s[1]) % 16 == 0 ==> Eight(c, 1) == 0 && Eight(c, 2) == 0)
  {
    hide Join, Entry, Covered, Value;
    var v0, v1 := Value(s[0]), Value(s[1]);
    var v2 := if padding < 2 then Value(s[2]) else 0;
    var v3 := if padding < 1 then Value(s[3]) else 0;
    JoinAdds(v0, v1, v2, v3);
    if padding == 1 && v2 % 4 == 0 { LowByteZero(v0, v1, v2); }
    if padding == 2 && v1 % 16 == 0 { LowBytesZero(v0, v1); }
  }

  lemma LowByteZero(v0: nat, v1: nat, v2: nat)
    requires v2 % 4 == 0
    ensures Eight(v0 * 0x4_0000 + v1 * 0x1000 + v2 * 0x40, 2) == 0
  {
    var c := v0 * 0x4_0000 + v1 * 0x1000 + v2 * 0x40;
    assert v2 == 4 * (v2 / 4);
    assert c == (v0 * 0x400 + v1 * 0x10 + v2 / 4) * 0x100;
  }

  lemma LowBytesZero(v0: nat, v1: nat)
    requires v1 % 16 == 0
    ensures Eight(v0 * 0x4_0000 + v1 * 0x1000, 1) == 0 && Eight(v0 * 0x4_0000 + v1 * 0x1000, 2) == 0
  {
    var q := v1 / 16;
    var c := v0 * 0x4_0000 + v1 * 0x1000;
    assert c == (v0 * 4 + q) * 0x1_0000;
    assert c / 0x100 == (v0 * 4 + q) * 0x100;
  }

  // The text of one, two or three bytes of a chunk whose other bytes are zero.
  lemma EncodeBytes(c: nat, p: nat)
    requires c < 0x100_0000 && p <= 2 && (p >= 1 ==> Eight(c, 2) == 0) && (p == 2 ==> Eight(c, 1) == 0)
    ensures Encode(Bytes(c, 3 - p)) == Signs(c, 4 - p) + (if p == 0 then "" else if p == 1 then "=" else "==")
  {
    hide Eight, Pack, Signs;
    PackOfEights(c);
    var d := Bytes(c, 3 - p);
    if p == 0 {
      assert d[3..] == [];
    }
  }

  lemma LastGroup(s: string)
    requires Readable(s) && |s| == 4 && CanonicalLast(s)
    ensures Encode(Decode(s)) == s
  {
    hide Covered, Value, GroupChunk, Eight, Pack, Signs, IsSign, Encode, Bytes;
    PadNoSign();
    ReadableGroup(s);
    var p := Padding(s);
    assert p == if s[3] != '=' then 0 else if s[2] != '=' then 1 else 2;
    var c := GroupChunk(s, p);
    SignsOfChunk(s, p);
    ChunkBound(s, p);
    EncodeBytes(c, p);
    assert s == s[..4 - p] + (if p == 0 then "" else if p == 1 then "=" else "==");
  }

  lemma {:induction false} EncodeOfDecode(s: string)
    requires Readable(s) && Canonical(s)
    ensures Encode(Decode(s)) == s
    decreases |s|
  {
    hide Covered, Value, GroupChunk, Eight, Pack, Signs, IsSign, Encode, CanonicalLast;
    ReadableGroup(s);
    if |s| == 4 {
      LastGroup(s);
    } else {
      ReadableRest(s);
      EncodeOfDecode(s[4..]);
      MoreGroups(s);
    }
  }

  lemma MoreGroups(s: string)
    requires Readable(s) && |s| >= 8 && Readable(s[4..]) && Encode(Decode(s[4..])) == s[4..]
    requires IsSign(s[0]) && IsSign(s[1]) && IsSign(s[2]) && IsSign(s[3])
    ensures Encode(Decode(s)) == s
  {
    hide Covered, Value, GroupChunk, Eight, Pack, Signs, IsSign, Encode, Padding, Six, Readable;
    ReadableGroup(s);
    var c := GroupChunk(s, 0);
    SignsOfChunk(s, 0);
    ChunkBound(s, 0);
    PackOfEights(c);
    var d := Decode(s);
    assert d == Bytes(c, 3) + Decode(s[4..]);
    assert d[3..] == Decode(s[4..]);
    EncodeStarts(d);
    var e := Encode(d);
    assert e == e[..4] + e[4..];
    assert s == s[..4] + s[4..];
  }

  // What the encoder writes is canonical.
  lemma {:induction false} EncodeCanonical(data: seq<Byte>)
    requires data != []
    ensures Canonical(Encode(data))
    decreases |data|
  {
    hide Covered, Value, Pack, Six, Signs, IsSign, Encode, CanonicalLast;
    if |data| <= 3 {
      LastCanonical(data);
    } else {
      EncodeCanonical(data[3..]);
      EncodeStarts(data);
      var c := Pack(data[0], data[1], data[2]);
      assert Encode(data)[..4] == Signs(c, 4);
      SignIsSign(c, 0);
      SignIsSign(c, 1);
      SignIsSign(c, 2);
      SignIsSign(c, 3);
      var e := Encode(data);
      assert e[0] == e[..4][0] && e[1] == e[..4][1] && e[2] == e[..4][2] && e[3] == e[..4][3];
      assert |Encode(data[3..])| > 0;
    }
  }

  lemma SignIsSign(c: nat, k: nat)
    ensures IsSign(Sign(Six(c, k)))
  {
    hide Covered, Value, Sign, Six;
    SignCovered(c, k);
    SixBound(c, k);
  }

  lemma LastCanonical(data: seq<Byte>)
    requires 1 <= |data| <= 3
    ensures Canonical(Encode(data))
  {
    hide Covered, Value, Pack, Six, Sign;
    var c := Pack(data[0], if |data| > 1 then data[1] else 0, if |data| > 2 then data[2] else 0);
    PackAdds(data[0], if |data| > 1 then data[1] else 0, if |data| > 2 then data[2] else 0);
    SignCovered(c, 0);
    SignCovered(c, 1);
    SignCovered(c, 2);
    SignCovered(c, 3);
    SignIsSign(c, 0);
    SignIsSign(c, 1);
    SignIsSign(c, 2);
    SignIsSign(c, 3);
    SpareBits(data[0], if |data| > 1 then data[1] else 0);
    if |data| == 3 { assert data[3..] == []; }
  }

  lemma SpareBits(b0: nat, b1: nat)
    requires b0 < 256 && b1 < 256
    ensures Six(b0 * 0x1_0000 + b1 * 0x100, 2) % 4 == 0 && Six(b0 * 0x1_0000, 1) % 16 == 0
  {
    var c := b0 * 0x1_0000 + b1 * 0x100;
    assert c == 0x40 * (4 * (b0 * 0x100 + b1));
    assert c / 0x40 == 4 * (b0 * 0x100 + b1);
    SpareFour(b0 * 0x100 + b1);
    assert b0 * 0x1_0000 / 0x1000 == 16 * b0;
    SpareSixteen(b0);
  }

  lemma SpareFour(x: nat)
    ensures (4 * x) % 0x40 == 4 * (x % 16)
  {
    ModUnique(4 * x, 0x40, x / 16, 4 * (x % 16));
  }

  lemma SpareSixteen(x: nat)
    ensures (16 * x) % 0x40 == 16 * (x % 4)
  {
    ModUnique(16 * x, 0x40, x / 4, 16 * (x % 4));
  }

  // Encoding undoes decoding exactly on the canonical texts.
  lemma {:induction false} EncodeUndoesDecode(s: string)
    requires Readable(s)
    ensures Encode(Decode(s)) == s <==> Canonical(s)
  {
    hide Covered, Value, GroupChunk, Encode, Canonical;
    if Canonical(s) { EncodeOfDecode(s); }
    if Encode(Decode(s)) == s {
      DecodeLength(s);
      DecodeSome(s);
      EncodeCanonical(Decode(s));
    }
  }

  lemma DecodeSome(s: string)
    requires Readable(s)
    ensures DecodeSize(s) > 0
  {
    hide Covered;
    ReadableGroup(s);
  }
}
