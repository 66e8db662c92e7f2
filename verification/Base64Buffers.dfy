// The loops of src/base64.c, which fill a buffer of the size computed beforehand.
module Base64Buffers {
  import opened Bits
  import opened Base64
  import opened Base64Bits

  // ----- encoding -----

  // Write n signs of a chunk at the end of what has been written.
  method PutSigns(out: array<char>, at: nat, chunk: nat, n: nat) returns (size: nat)
    requires n <= 4 && at + n <= out.Length
    modifies out
    ensures size == at + n && out[..size] == old(out[..at]) + Signs(chunk, n)
  {
    hide Sign, Six;
    size := at;
    var k := 0;
    while k < n
      invariant k <= n && size == at + k && out[..size] == old(out[..at]) + Signs(chunk, n)[..k]
    {
      out[size] := Sign(Six(chunk, k));
      size := size + 1;
      k := k + 1;
    }
    assert Signs(chunk, n)[..n] == Signs(chunk, n);
  }

  method PutPad(out: array<char>, at: nat, n: nat) returns (size: nat)
    requires n <= 2 && at + n <= out.Length
    modifies out
    ensures size == at + n && out[..size] == old(out[..at]) + seq(n, _ => '=')
  {
    size := at;
    var k := 0;
    while k < n
      invariant k <= n && size == at + k && out[..size] == old(out[..at]) + seq(k, _ => '=')
    {
      out[size] := '=';
      size := size + 1;
      k := k + 1;
    }
  }

  // base64_encode_scalar
  method EncodeScalar(data: array<Byte>, out: array<char>) returns (size: nat)
    requires out.Length == EncodeSize(data.Length)
    modifies out
    ensures size == out.Length && out[..] == Encode(data[..])
    ensures forall k: nat | k < size ::
              out[k] == if 6 * k < 8 * data.Length then Letter(SixBits(data[..], k)) else '='
  {
    hide Encode, Signs, Pack, Letter, SixBits;
    size := 0;
    var full := data.Length / 3;
    var g := 0;
    while g < full
      invariant g <= full && size <= out.Length && out[..size] + Encode(data[3 * g..]) == Encode(data[..])
    {
      var i := g * 3;
      ghost var rest, was := data[i..], out[..size];
      EncodeStarts(rest);
      var chunk := Pack(data[i], data[i + 1], data[i + 2]);
      size := PutSigns(out, size, chunk, 4);
      assert rest[3..] == data[3 * (g + 1)..];
      Onward(was, Signs(chunk, 4), Encode(rest), Encode(rest[3..]));
      g := g + 1;
    }
    size := EncodeTail(data, out, full * 3, size);
    forall k: nat | k < size ensures out[k] == if 6 * k < 8 * data.Length then Letter(SixBits(data[..], k)) else '=' {
      EncodeBits(data[..], k);
      assert out[k] == out[..][k];
    }
  }

  lemma Onward<T>(was: seq<T>, x: seq<T>, all: seq<T>, rest: seq<T>)
    requires |all| >= |x| && all[..|x|] == x && all[|x|..] == rest
    ensures was + x + rest == was + all
  {
  }

  method EncodeTail(data: array<Byte>, out: array<char>, i: nat, at: nat) returns (size: nat)
    requires i <= data.Length < i + 3 && at <= out.Length && out.Length == EncodeSize(data.Length)
    requires out[..at] + Encode(data[i..]) == Encode(data[..])
    modifies out
    ensures size == out.Length && out[..] == Encode(data[..])
  {
    hide Signs, Pack, EncodeSize;
    size := at;
    ghost var rest, was, all := data[i..], out[..at], Encode(data[..]);
    assert |all| == out.Length;
    if data.Length == i + 1 {
      size := PutSigns(out, size, Pack(data[i], 0, 0), 2);
      size := PutPad(out, size, 2);
      assert out[..size] == was + Signs(Pack(data[i], 0, 0), 2) + "==";
    } else if data.Length == i + 2 {
      size := PutSigns(out, size, Pack(data[i], data[i + 1], 0), 3);
      size := PutPad(out, size, 1);
      assert out[..size] == was + Signs(Pack(data[i], data[i + 1], 0), 3) + "=";
    } else {
      assert rest == [];
    }
    assert out[..size] == was + Encode(rest);
    assert out[..size] == out[..];
  }

  // base64_encode
  method Base64Encode(data: array<Byte>) returns (out: array<char>, size: nat)
    ensures size == out.Length == EncodeSize(data.Length) && out[..] == Encode(data[..])
    ensures forall k: nat | k < size ::
              out[k] == if 6 * k < 8 * data.Length then Letter(SixBits(data[..], k)) else '='
  {
    out := new char[EncodeSize(data.Length)];
    size := EncodeScalar(data, out);
  }

  // ----- decoding -----

  // The value of character k of a group, shifted to its place.
  function Place(v: nat, k: nat): nat {
    match k
    case 0 => v * 0x4_0000
    case 1 => v * 0x1000
    case 2 => v * 0x40
    case _ => v
  }

  // The chunk gathered from the first n characters of a group.
  function Gather(s: string, n: nat): nat
    requires n <= 4 <= |s| && forall k | 0 <= k < 4 :: Covered(s[k])
  {
    if n == 0 then 0 else Or(Gather(s, n - 1), Place(Value(s[n - 1]), n - 1))
  }

  lemma {:induction false} OrZeroLeft(a: nat)
    ensures Or(0, a) == a
  {
    if a > 0 { OrZeroLeft(a / 2); }
  }

  lemma GatherIsChunk(s: string, padding: nat)
    requires |s| >= 4 && padding <= 2 && forall k | 0 <= k < 4 :: Covered(s[k])
    ensures Gather(s, 4 - padding) == GroupChunk(s, padding)
  {
    hide Or, Value;
    OrZeroLeft(Value(s[0]) * 0x4_0000);
    assert Gather(s, 1) == Or(Gather(s, 0), Value(s[0]) * 0x4_0000);
    assert Gather(s, 2) == Or(Gather(s, 1), Value(s[1]) * 0x1000);
    OrZero(Gather(s, 2));
    if padding < 2 {
      assert Gather(s, 3) == Or(Gather(s, 2), Value(s[2]) * 0x40);
      OrZero(Gather(s, 3));
    }
  }

  // The loop over the characters of a group.
  method GatherChunk(data: array<char>, i: nat, n: nat) returns (chunk: nat)
    requires n <= 4 && i + 4 <= data.Length && forall k | 0 <= k < 4 :: Covered(data[i..][k])
    ensures chunk == Gather(data[i..], n)
  {
    hide Value, Or, Place;
    chunk := 0;
    var j := 0;
    while j < n
      invariant j <= n && chunk == Gather(data[i..], j)
    {
      assert data[i..][j] == data[i + j];
      chunk := Or(chunk, Place(Value(data[i + j]), j));
      j := j + 1;
    }
  }

  method PutBytes(out: array<Byte>, at: nat, chunk: nat, n: nat) returns (size: nat)
    requires n <= 3 && at + n <= out.Length
    modifies out
    ensures size == at + n && out[..size] == old(out[..at]) + Bytes(chunk, n)
  {
    hide Eight;
    size := at;
    var k := 0;
    while k < n
      invariant k <= n && size == at + k && out[..size] == old(out[..at]) + Bytes(chunk, n)[..k]
    {
      out[size] := Eight(chunk, k);
      size := size + 1;
      k := k + 1;
    }
    assert Bytes(chunk, n)[..n] == Bytes(chunk, n);
  }

  // base64_decode_scalar
  method DecodeScalar(data: array<char>, out: array<Byte>) returns (size: nat)
    requires Readable(data[..]) && out.Length == DecodeSize(data[..])
    modifies out
    ensures size == out.Length && out[..] == Decode(data[..])
    ensures data.Length >= 4 && size == 6 * Carrying(data[..]) / 8
    ensures forall k: nat | k < size :: out[k] == EightBits(data[..], Carrying(data[..]), k)
  {
    hide Decode, Gather, GroupChunk, Bytes, Readable, DecodeSize, Padding, EightBits, Carrying;
    size := 0;
    ReadableGroup(data[..]);
    DecodeLength(data[..]);
    var i := 0;
    assert data[0..] == data[..];
    while i < data.Length - 4
      invariant i <= data.Length - 4 && size <= out.Length && Readable(data[i..])
      invariant out[..size] + Decode(data[i..]) == Decode(data[..])
    {
      ghost var rest, was := data[i..], out[..size];
      ReadableGroup(rest);
      ReadableRest(rest);
      assert rest[4..] == data[i + 4..];
      DecodeStarts(rest);
      var chunk := GatherChunk(data, i, 4);
      GatherIsChunk(rest, 0);
      size := PutBytes(out, size, chunk, 3);
      Onward(was, Bytes(chunk, 3), Decode(rest), Decode(rest[4..]));
      i := i + 4;
    }
    size := DecodeTail(data, out, i, size);
    BytesByBits(data[..]);
    forall k: nat | k < size ensures out[k] == EightBits(data[..], Carrying(data[..]), k) {
      assert out[k] == out[..][k];
    }
  }

  lemma BytesByBits(s: string)
    requires Readable(s)
    ensures |s| >= 4 && |Decode(s)| == 6 * Carrying(s) / 8
    ensures forall k: nat | k < |Decode(s)| :: Decode(s)[k] == EightBits(s, Carrying(s), k)
  {
    hide Decode, EightBits, Carrying, Readable;
    SizeByCarrying(s);
    forall k: nat | k < |Decode(s)| ensures Decode(s)[k] == EightBits(s, Carrying(s), k) { DecodeBits(s, k); }
  }

  method DecodeTail(data: array<char>, out: array<Byte>, i: nat, at: nat) returns (size: nat)
    requires data.Length == i + 4 && at <= out.Length && Readable(data[i..])
    requires out.Length == |out[..at] + Decode(data[i..])|
    modifies out
    ensures size == out.Length && out[..] == old(out[..at]) + Decode(data[i..])
  {
    hide Decode, Gather, GroupChunk, Readable;
    ghost var rest := data[i..];
    DecodeEnds(rest);
    var padding := Padding(data[..]);
    assert padding == Padding(rest);
    GatherIsChunk(rest, padding);
    var chunk := GatherChunk(data, i, 4 - padding);
    size := PutBytes(out, at, chunk, 1);
    ghost var n := 1;
    if padding < 2 { size := PutNext(out, at, chunk, 1); n := 2; }
    if padding < 1 { size := PutNext(out, at, chunk, 2); n := 3; }
    assert n == 3 - padding;
    assert out[..size] == out[..];
  }

  // One more byte of the chunk, after n of them.
  method PutNext(out: array<Byte>, at: nat, chunk: nat, n: nat) returns (size: nat)
    requires n < 3 && at + n + 1 <= out.Length && out[at..at + n] == Bytes(chunk, n)
    modifies out
    ensures size == at + n + 1 && out[..size] == old(out[..at]) + Bytes(chunk, n + 1)
  {
    hide Eight;
    out[at + n] := Eight(chunk, n);
    size := at + n + 1;
  }

  // base64_decode
  method Base64Decode(data: array<char>) returns (ok: bool, out: array<Byte>)
    requires data.Length > 0 && forall k | 0 <= k < data.Length :: Covered(data[k])
    ensures ok <==> data.Length % 4 == 0
    ensures ok ==> Readable(data[..]) && out[..] == Decode(data[..]) && out.Length == DecodeSize(data[..])
    ensures ok ==> data.Length >= 4 && out.Length == 6 * Carrying(data[..]) / 8
    ensures ok ==> forall k: nat | k < out.Length :: out[k] == EightBits(data[..], Carrying(data[..]), k)
  {
    hide Decode, EightBits, Carrying;
    ok := data.Length % 4 == 0;
    out := new Byte[0];
    if ok {
      assert Readable(data[..]);
      out := new Byte[DecodeSize(data[..])];
      var size := DecodeScalar(data, out);
    }
  }
}
