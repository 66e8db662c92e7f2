// The recursive-descent parser of src/json.c, which advances a position through the text.
module JsonParsers {
  import opened JsonText
  import opened JsonRoundTrip
  import JsonGrammar
  import Fmt

  ghost function Prepend<T>(ts: seq<T>, r: Parsed<seq<T>>): Parsed<seq<T>> {
    if r.Ok? then Ok(ts + r.value, r.pos) else r
  }

  ghost function Longer(n: nat, r: Parsed<nat>): Parsed<nat> {
    if r.Ok? then Ok(n + r.value, r.pos) else r
  }

  lemma {:induction false} DecodePlain(s: string, p: nat, e: nat)
    requires p <= e <= |s| && forall k | p <= k < e :: s[k] != '\\'
    ensures Decode(s, p, e) == s[p..e]
    decreases e - p
  {
    if p < e {
      DecodePlain(s, p + 1, e);
      assert s[p..e] == [s[p]] + s[p + 1..e];
    }
  }

  lemma PrependNone<T>(r: Parsed<seq<T>>)
    ensures Prepend([], r) == r
  {
    if r.Ok? { assert [] + r.value == r.value; }
  }

  lemma MeasureCases(s: string, p: nat)
    requires p < |s|
    ensures s[p] == '\"' ==> Measure(s, p) == Ok(0, p)
    ensures s[p] != '\"' && p + UnitSize(s, p) > |s| ==> Measure(s, p).Reject?
    ensures s[p] != '\"' && s[p] != '\\' && s[p] < ' ' ==> Measure(s, p).Reject?
    ensures s[p] != '\"' && p + UnitSize(s, p) <= |s| && !(s[p] != '\\' && s[p] < ' ') ==>
              Measure(s, p) == Longer(1, Measure(s, p + UnitSize(s, p)))
  {
  }

  lemma MeasureEnd(s: string, p: nat)
    requires p >= |s|
    ensures Measure(s, p).Reject?
  {
  }

  lemma UnitWithin(s: string, p: nat)
    requires Measure(s, p).Ok? && p < Measure(s, p).pos
    ensures s[p] != '\"' && p + UnitSize(s, p) <= Measure(s, p).pos
    ensures Measure(s, p + UnitSize(s, p)).Ok? && Measure(s, p + UnitSize(s, p)).pos == Measure(s, p).pos
  {
  }

  lemma DecodeNothing(s: string, p: nat)
    requires p <= |s|
    ensures Decode(s, p, p) == ""
  {
  }

  class JsonParser {
    const str: string
    var pos: nat

    constructor (str: string)
      ensures this.str == str && pos == 0
    {
      this.str := str;
      pos := 0;
    }

    method SkipWhitespace()
      requires pos <= |str|
      modifies this
      ensures pos == SkipSpace(str, old(pos))
    {
      while pos < |str| && IsSpace(str[pos])
        invariant pos <= |str| && SkipSpace(str, pos) == SkipSpace(str, old(pos))
        decreases |str| - pos
      {
        pos := pos + 1;
      }
    }

    // The measuring loop of json_parse_string.
    method MeasureString() returns (ok: bool, len: nat, hasEscape: bool)
      requires pos <= |str|
      modifies this
      ensures ok ==> Measure(str, old(pos)) == Ok(len, pos)
      ensures !ok ==> Measure(str, old(pos)).Reject?
      ensures ok && !hasEscape ==> len == pos - old(pos) && forall k | old(pos) <= k < pos :: str[k] != '\\'
    {
      hide Measure;
      len, hasEscape := 0, false;
      ghost var start := pos;
      while pos < |str|
        invariant start <= pos <= |str| && Measure(str, start) == Longer(len, Measure(str, pos))
        invariant !hasEscape ==> len == pos - start && forall k | start <= k < pos :: str[k] != '\\'
        decreases |str| - pos
      {
        ghost var p := pos;
        MeasureCases(str, p);
        var c := str[pos];
        if c == '\"' {
          return true, len, hasEscape;
        } else if c == '\\' {
          hasEscape := true;
          pos := pos + 1;
          if pos >= |str| {
            return false, len, hasEscape;
          }
          if str[pos] == 'u' {
            pos := pos + 4;
            if pos >= |str| {
              return false, len, hasEscape;
            }
          }
        } else if c < ' ' {
          return false, len, hasEscape;
        }
        pos := pos + 1;
        len := len + 1;
        assert pos == p + UnitSize(str, p);
      }
      MeasureEnd(str, pos);
      ok := false;
    }

    // The switch of the decoding loop: the character an escape stands for, if it is known.
    static method Unescape(e: char) returns (known: bool, c: char)
      ensures forall s: string, p: nat | p + 1 < |s| && s[p] == '\\' && s[p + 1] == e ::
                DecodeUnit(s, p) == if known then [c] else ""
    {
      match e {
        case '\"' => return true, '\"';
        case '\\' => return true, '\\';
        case '/' => return true, '/';
        case 'b' => return true, BACKSPACE;
        case 'f' => return true, FORM_FEED;
        case 'n' => return true, '\n';
        case 'r' => return true, '\r';
        case 't' => return true, '\t';
        case 'u' => return true, '?';
        case _ => return false, e;
      }
    }

    // One round of the decoding loop: what the unit at i writes, if anything, and where it ends.
    method NextUnit(i: nat) returns (known: bool, c: char, next: nat)
      requires Measure(str, i).Ok? && i < Measure(str, i).pos
      ensures DecodeUnit(str, i) == (if known then [c] else "") && next == i + UnitSize(str, i)
    {
      UnitWithin(str, i);
      next := i;
      if str[i] == '\\' {
        next := next + 1;
        known, c := Unescape(str[next]);
        if str[next] == 'u' {
          next := next + 4;
        }
      } else {
        known, c := true, str[i];
      }
      next := next + 1;
    }

    // The decoding loop of json_parse_string, into a buffer of the measured length and one more.
    method DecodeString(start: nat, len: nat) returns (t: string)
      requires pos < |str| && Measure(str, start) == Ok(len, pos)
      ensures t == Decode(str, start, pos)
    {
      hide DecodeUnit, Decode, Measure, UnitSize;
      var buf := new char[len + 1];
      var i, j := start, 0;
      DecodeFits(str, start);
      ghost var whole := Decode(str, start, pos);
      while i < pos
        invariant start <= i <= pos && j <= len
        invariant Measure(str, i).Ok? && Measure(str, i).pos == pos
        invariant buf[..j] + Decode(str, i, pos) == whole
        decreases pos - i
      {
        ghost var done, unit := buf[..j], DecodeUnit(str, i);
        var known, c, next := NextUnit(i);
        UnitWithin(str, i);
        MeasureStep(str, i, next - i, pos);
        assert done + (unit + Decode(str, next, pos)) == (done + unit) + Decode(str, next, pos);
        assert |done + unit| <= len;
        if known {
          buf[j] := c;
          j := j + 1;
        }
        assert buf[..j] == done + unit;
        i := next;
      }
      DecodeNothing(str, pos);
      buf[j] := '\0';
      t := buf[..j];
    }

    method ParseStringText() returns (r: Parsed<string>)
      requires pos <= |str|
      modifies this
      ensures r == ParseString(str, old(pos)) && (r.Ok? ==> pos == r.pos)
    {
      if pos >= |str| || str[pos] != '\"' {
        return Reject;
      }
      pos := pos + 1;
      var start := pos;
      var ok, len, hasEscape := MeasureString();
      if !ok {
        return Reject;
      }
      var t;
      if !hasEscape {
        t := str[start..start + len];
        DecodePlain(str, start, pos);
      } else {
        t := DecodeString(start, len);
      }
      pos := pos + 1;
      return Ok(t, pos);
    }

    method SkipDigits()
      requires pos <= |str|
      modifies this
      ensures pos == DigitsEnd(str, old(pos))
    {
      while pos < |str| && IsDigit(str[pos])
        invariant pos <= |str| && DigitsEnd(str, pos) == DigitsEnd(str, old(pos))
        decreases |str| - pos
      {
        pos := pos + 1;
      }
    }

    // The integer digits of json_parse_number, with the accumulator that may overflow.
    method ParseDigits() returns (a: Acc)
      requires pos <= |str|
      modifies this
      ensures a == Accumulate(str, old(pos), DigitsEnd(str, old(pos)), 0)
      ensures a.Num? ==> pos == DigitsEnd(str, old(pos))
    {
      ghost var d, q := pos, DigitsEnd(str, pos);
      var n: nat := 0;
      while pos < |str| && IsDigit(str[pos])
        invariant d <= pos <= q && DigitsEnd(str, pos) == q && n < Fmt.TWO63
        invariant Accumulate(str, d, q, 0) == Accumulate(str, pos, q, n)
        decreases |str| - pos
      {
        n := n * 10 + (str[pos] as int - '0' as int);
        if n >= Fmt.TWO63 {
          return TooBig;
        }
        pos := pos + 1;
      }
      return Num(n);
    }

    method ParseFraction() returns (ok: bool)
      requires pos <= |str|
      modifies this
      ensures ok ==> pos == FractionEnd(str, old(pos))
      ensures !ok ==> FractionEnd(str, old(pos)) == -1
    {
      if pos < |str| && str[pos] == '.' {
        pos := pos + 1;
        if pos >= |str| || !IsDigit(str[pos]) {
          return false;
        }
        SkipDigits();
      }
      return true;
    }

    method ParseExponent() returns (ok: bool)
      requires pos <= |str|
      modifies this
      ensures ok ==> pos == ExponentEnd(str, old(pos))
      ensures !ok ==> ExponentEnd(str, old(pos)) == -1
    {
      if pos < |str| && (str[pos] == 'e' || str[pos] == 'E') {
        pos := pos + 1;
        if pos < |str| && str[pos] == '-' {
          pos := pos + 1;
        } else if pos < |str| && str[pos] == '+' {
          pos := pos + 1;
        }
        if pos >= |str| || !IsDigit(str[pos]) {
          return false;
        }
        SkipDigits();
      }
      return true;
    }

    method ParseNumberText() returns (r: Parsed<Value>)
      requires pos <= |str|
      modifies this
      ensures r == ParseNumber(str, old(pos)) && (r.Ok? ==> pos == r.pos)
    {
      hide Accumulate, DigitsEnd, FractionEnd, ExponentEnd;
      var start := pos;
      var neg := pos < |str| && str[pos] == '-';
      if neg {
        pos := pos + 1;
      }
      if pos >= |str| || !IsDigit(str[pos]) {
        return Reject;
      }
      var a := ParseDigits();
      if a.TooBig? {
        return Overflow;
      }
      var q := pos;
      var ok := ParseFraction();
      if !ok {
        return Reject;
      }
      ok := ParseExponent();
      if !ok {
        return Reject;
      }
      var isFloat := pos != q;
      return Ok(if isFloat then F64(str[start..pos]) else if neg then I64(-(a.n as int)) else U64(a.n), pos);
    }

    method ParseLiteralText() returns (r: Parsed<Value>)
      requires pos <= |str|
      modifies this
      ensures r == ParseLiteral(str, old(pos)) && (r.Ok? ==> pos == r.pos)
    {
      if pos + 4 <= |str| && str[pos..pos + 4] == "null" {
        pos := pos + 4;
        return Ok(Null, pos);
      }
      if pos + 4 <= |str| && str[pos..pos + 4] == "true" {
        pos := pos + 4;
        return Ok(Bool(true), pos);
      }
      if pos + 5 <= |str| && str[pos..pos + 5] == "false" {
        pos := pos + 5;
        return Ok(Bool(false), pos);
      }
      return Reject;
    }

    method ParseArrayText() returns (r: Parsed<Value>)
      requires pos < |str|
      modifies this
      ensures r == ParseArray(str, old(pos)) && (r.Ok? ==> pos == r.pos)
      decreases |str| - pos, 1
    {
      hide ParseValue, SkipSpace;
      if str[pos] != '[' {
        return Reject;
      }
      pos := pos + 1;
      var elems: seq<Value> := [];
      SkipWhitespace();
      if pos < |str| && str[pos] == ']' {
        pos := pos + 1;
        return Ok(Array(elems), pos);
      }
      ghost var q := pos;
      PrependNone(ParseElems(str, q));
      while pos < |str|
        invariant old(pos) < pos <= |str| && ParseElems(str, q) == Prepend(elems, ParseElems(str, pos))
        decreases |str| - pos
      {
        var v := ParseValueText();
        if !v.Ok? {
          return v;
        }
        ghost var before := elems;
        elems := elems + [v.value];
        SkipWhitespace();
        if pos >= |str| {
          return Reject;
        }
        if str[pos] == ',' {
          pos := pos + 1;
          SkipWhitespace();
          assert forall ws: seq<Value> :: before + ([v.value] + ws) == elems + ws;
        } else if str[pos] == ']' {
          pos := pos + 1;
          return Ok(Array(elems), pos);
        } else {
          return Reject;
        }
      }
      return Reject;
    }

    method ParseDictText() returns (r: Parsed<Value>)
      requires pos < |str|
      modifies this
      ensures r == ParseDict(str, old(pos)) && (r.Ok? ==> pos == r.pos)
      decreases |str| - pos, 1
    {
      hide ParseField, SkipSpace;
      if str[pos] != '{' {
        return Reject;
      }
      pos := pos + 1;
      var fields: seq<Field> := [];
      SkipWhitespace();
      if pos < |str| && str[pos] == '}' {
        pos := pos + 1;
        return Ok(Dict(fields), pos);
      }
      ghost var q := pos;
      PrependNone(ParseFields(str, q));
      while pos < |str|
        invariant old(pos) < pos <= |str| && ParseFields(str, q) == Prepend(fields, ParseFields(str, pos))
        decreases |str| - pos
      {
        var f := ParseFieldText();
        if f.Reject? {
          return Reject;
        }
        if f.Overflow? {
          return Overflow;
        }
        ghost var before := fields;
        fields := fields + [f.value];
        SkipWhitespace();
        if pos >= |str| {
          return Reject;
        }
        if str[pos] == ',' {
          pos := pos + 1;
          SkipWhitespace();
          assert forall gs: seq<Field> :: before + ([f.value] + gs) == fields + gs;
        } else if str[pos] == '}' {
          pos := pos + 1;
          return Ok(Dict(fields), pos);
        } else {
          return Reject;
        }
      }
      return Reject;
    }

    // The key, the colon and the value in the loop of parse_dict.
    method ParseFieldText() returns (r: Parsed<Field>)
      requires pos <= |str|
      modifies this
      ensures r == ParseField(str, old(pos)) && (r.Ok? ==> pos == r.pos)
      decreases |str| - pos, 3
    {
      hide ParseValue, SkipSpace, ParseString;
      SkipWhitespace();
      var key := ParseStringText();
      if !key.Ok? {
        return Reject;
      }
      SkipWhitespace();
      if pos >= |str| || str[pos] != ':' {
        return Reject;
      }
      pos := pos + 1;
      SkipWhitespace();
      var v := ParseValueText();
      match v {
        case Ok(w, _) => return Ok(Field(key.value, w), pos);
        case Reject => return Reject;
        case Overflow => return Overflow;
      }
    }

    method ParseValueText() returns (r: Parsed<Value>)
      requires pos <= |str|
      modifies this
      ensures r == ParseValue(str, old(pos)) && (r.Ok? ==> pos == r.pos)
      decreases |str| - pos, 2
    {
      hide SkipSpace, ParseNumber, ParseLiteral, ParseString, ParseElems, ParseFields, ParseArray, ParseDict;
      SkipWhitespace();
      if pos >= |str| {
        return Reject;
      }
      var c := str[pos];
      if c == '\"' {
        var t := ParseStringText();
        return if t.Ok? then Ok(Str(t.value), pos) else Reject;
      } else if c == '{' {
        r := ParseDictText();
      } else if c == '[' {
        r := ParseArrayText();
      } else if c == '-' || IsDigit(c) {
        r := ParseNumberText();
      } else if c == 't' || c == 'f' || c == 'n' {
        r := ParseLiteralText();
      } else {
        r := Reject;
      }
    }
  }

  // json_parse accepts exactly the documents of the grammar.
  method JsonParse(str: string) returns (r: Parsed<Value>)
    ensures r == Parse(str)
    ensures forall v :: r.Ok? && r.value == v <==> JsonGrammar.Derives(str, v)
  {
    forall v ensures Parse(str).Ok? && Parse(str).value == v <==> JsonGrammar.Derives(str, v) {
      JsonGrammar.ParseIffDerives(str, v);
    }
    if |str| == 0 {
      return Reject;
    }
    var parser := new JsonParser(str);
    r := parser.ParseValueText();
    if r.Ok? {
      parser.SkipWhitespace();
      if parser.pos != |str| {
        return Reject;
      }
    }
  }
}
