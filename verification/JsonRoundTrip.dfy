// What parsing gives back for the text printed for any value, and for which values it is the value.
module JsonRoundTrip {
  import opened Fmt
  import opened JsonText

  datatype Outcome<T> = Gives(value: T) | Rejected | Overflows

  function Result<T>(o: Outcome<T>, end: nat): Parsed<T> {
    match o
    case Gives(v) => Ok(v, end)
    case Rejected => Reject
    case Overflows => Overflow
  }

  // ----- what comes back -----

  const BACKSPACE := '\U{0008}'
  const FORM_FEED := '\U{000C}'
  const VERTICAL_TAB := '\U{000B}'

  // Control characters the writer does not escape; the parser refuses them.
  predicate Raw(c: char) {
    c < ' ' && c != '\n' && c != '\r' && c != '\t' && c != BACKSPACE && c != FORM_FEED && c != VERTICAL_TAB
  }

  // A vertical tab is written as an escape the parser does not know and drops.
  function BackString(s: string): (o: Outcome<string>)
    ensures !o.Overflows?
  {
    if s == "" then Gives("")
    else if Raw(s[0]) then Rejected
    else
      var r := BackString(s[1..]);
      if r.Gives? then Gives((if s[0] == VERTICAL_TAB then "" else [s[0]]) + r.value) else r
  }

  // A number at or above 2^63 overflows; a non-negative signed number comes back unsigned.
  function BackNumber(n: nat, neg: bool): Outcome<Value> {
    if n >= TWO63 then Overflows else Gives(if neg then I64(-(n as int)) else U64(n))
  }

  function Back(v: Value): Outcome<Value>
    decreases v
  {
    match v
    case U64(n) => BackNumber(n, false)
    case I64(i) => if i < 0 then BackNumber(-i, true) else BackNumber(i, false)
    case Str(s) => (match BackString(s) case Gives(t) => Gives(Str(t)) case Rejected => Rejected
                    case Overflows => Overflows)
    case Array(vs) =>
      (match BackElems(vs) case Gives(ws) => Gives(Array(ws)) case Rejected => Rejected case Overflows => Overflows)
    case Dict(fs) =>
      (match BackFields(fs) case Gives(gs) => Gives(Dict(gs)) case Rejected => Rejected case Overflows => Overflows)
    case _ => Gives(v)
  }

  function BackElems(vs: seq<Value>): Outcome<seq<Value>>
    decreases vs
  {
    if vs == [] then Gives([])
    else
      match Back(vs[0])
      case Rejected => Rejected
      case Overflows => Overflows
      case Gives(w) =>
        match BackElems(vs[1..])
        case Rejected => Rejected
        case Overflows => Overflows
        case Gives(ws) => Gives([w] + ws)
  }

  function BackFields(fs: seq<Field>): Outcome<seq<Field>>
    decreases fs
  {
    if fs == [] then Gives([])
    else
      match BackString(fs[0].key)
      case Rejected => Rejected
      case Overflows => Overflows
      case Gives(k) =>
        match Back(fs[0].value)
        case Rejected => Rejected
        case Overflows => Overflows
        case Gives(w) =>
          match BackFields(fs[1..])
          case Rejected => Rejected
          case Overflows => Overflows
          case Gives(gs) => Gives([Field(k, w)] + gs)
  }

  // ----- matching pieces of text -----

  lemma Split(s: string, p: nat, a: string, b: string)
    requires Matches(s, p, a + b)
    ensures Matches(s, p, a) && Matches(s, p + |a|, b)
  {
    var t := s[p..p + |a + b|];
    assert t == a + b;
    assert s[p..p + |a|] == t[..|a|];
    assert s[p + |a|..p + |a| + |b|] == t[|a|..];
  }

  lemma MatchAt(s: string, p: nat, t: string, k: nat)
    requires Matches(s, p, t) && k < |t|
    ensures s[p + k] == t[k]
  {
    assert s[p..p + |t|][k] == s[p + k];
  }

  lemma {:induction false} SkipSpaces(s: string, p: nat, n: nat)
    requires Matches(s, p, Spaces(n)) && (p + n < |s| ==> !IsSpace(s[p + n]))
    ensures SkipSpace(s, p) == p + n
    decreases n
  {
    if n > 0 {
      MatchAt(s, p, Spaces(n), 0);
      Split(s, p, " ", Spaces(n - 1));
      SkipSpaces(s, p + 1, n - 1);
    }
  }

  lemma SkipSep(s: string, p: nat, size: nat, indent: nat)
    requires Matches(s, p, Sep(size, indent))
    requires p + |Sep(size, indent)| < |s| ==> !IsSpace(s[p + |Sep(size, indent)|])
    ensures SkipSpace(s, p) == p + |Sep(size, indent)|
  {
    if size > 0 {
      MatchAt(s, p, Sep(size, indent), 0);
      Split(s, p, "\n", Spaces(indent));
      SkipSpaces(s, p + 1, indent);
    }
  }

  // ----- strings -----

  // One character of a printed string is one unit of the parser.
  lemma UnitBack(s: string, p: nat, c: char)
    requires Matches(s, p, EscapeChar(c))
    ensures p < |s| && s[p] != '\"' && UnitSize(s, p) == |EscapeChar(c)|
    ensures Raw(c) <==> s[p] != '\\' && s[p] < ' '
    ensures DecodeUnit(s, p) == if c == VERTICAL_TAB then "" else [c]
  {
    var u := EscapeChar(c);
    MatchAt(s, p, u, 0);
    if |u| == 2 { MatchAt(s, p, u, 1); }
  }

  lemma MeasureStep(s: string, p: nat, u: nat, e: nat)
    requires p < |s| && s[p] != '\"' && u == UnitSize(s, p) && p + u <= e <= |s|
    ensures s[p] != '\\' && s[p] < ' ' ==> Measure(s, p).Reject?
    ensures !(s[p] != '\\' && s[p] < ' ') ==>
              Measure(s, p) == match Measure(s, p + u) case Ok(l, q) => Ok(l + 1, q) case r => r
    ensures Decode(s, p, e) == DecodeUnit(s, p) + Decode(s, p + u, e)
  {
    hide DecodeUnit;
  }

  lemma QuoteEnds(s: string, p: nat)
    requires Matches(s, p, "\"")
    ensures Measure(s, p) == Ok(0, p) && Decode(s, p, p) == ""
  {
    MatchAt(s, p, "\"", 0);
  }

  lemma {:induction false} StringBack(s: string, p: nat, t: string)
    requires Matches(s, p, Escape(t) + "\"")
    ensures BackString(t).Rejected? ==> Measure(s, p).Reject?
    ensures BackString(t).Gives? ==>
              var e := p + |Escape(t)|;
              e <= |s| && Measure(s, p) == Ok(|t|, e) && Decode(s, p, e) == BackString(t).value
    decreases |t|
  {
    hide EscapeChar, DecodeUnit, UnitSize, Raw, Measure, Decode, Matches;
    if t == "" {
      assert Escape(t) + "\"" == "\"";
      QuoteEnds(s, p);
    } else {
      var u, rest := EscapeChar(t[0]), Escape(t[1..]) + "\"";
      assert Escape(t) + "\"" == u + rest;
      Split(s, p, u, rest);
      MatchesFit(s, p + |u|, rest);
      UnitBack(s, p, t[0]);
      StringBack(s, p + |u|, t[1..]);
      MeasureStep(s, p, |u|, p + |Escape(t)|);
    }
  }

  lemma MatchesFit(s: string, p: nat, t: string)
    requires Matches(s, p, t)
    ensures p + |t| <= |s|
  {
  }

  lemma QuoteBack(s: string, p: nat, t: string)
    requires Matches(s, p, Quote(t))
    ensures ParseString(s, p) == Result(BackString(t), p + |Quote(t)|)
  {
    hide Escape, Measure, Decode, BackString;
    assert Quote(t) == "\"" + (Escape(t) + "\"");
    Split(s, p, "\"", Escape(t) + "\"");
    MatchAt(s, p, "\"", 0);
    StringBack(s, p + 1, t);
  }

  // ----- numbers -----

  // The text after a number does not continue it.
  predicate Stops(s: string, p: nat) {
    p < |s| ==> !IsDigit(s[p]) && s[p] != '.' && s[p] != 'e' && s[p] != 'E'
  }

  lemma {:induction false} DecimalDigits(n: nat, k: nat)
    requires k < |Decimal(n)|
    ensures IsDigit(Decimal(n)[k])
  {
    if n >= 10 && k < |Decimal(n)| - 1 {
      DecimalDigits(n / 10, k);
    }
  }

  lemma {:induction false} DigitsRun(s: string, p: nat, q: nat)
    requires p <= q <= |s| && (forall k | p <= k < q :: IsDigit(s[k])) && (q < |s| ==> !IsDigit(s[q]))
    ensures DigitsEnd(s, p) == q
    decreases q - p
  {
    if p < q { DigitsRun(s, p + 1, q); }
  }

  lemma {:induction false} AccumulateSplit(s: string, p: nat, q: nat, r: nat, n: nat)
    requires p <= q <= r <= |s| && forall k | p <= k < r :: IsDigit(s[k])
    ensures Accumulate(s, p, r, n) ==
            match Accumulate(s, p, q, n) case Num(m) => Accumulate(s, q, r, m) case TooBig => TooBig
    decreases q - p
  {
    if p < q {
      assert IsDigit(s[p]);
      var n': nat := n * 10 + (s[p] as int - '0' as int);
      if n' < TWO63 { AccumulateSplit(s, p + 1, q, r, n'); }
    }
  }

  // The accumulator undoes the decimal form, or overflows exactly from 2^63 on.
  lemma {:induction false} AccumulateDecimal(s: string, p: nat, n: nat)
    requires Matches(s, p, Decimal(n)) && forall k | p <= k < p + |Decimal(n)| :: IsDigit(s[k])
    ensures Accumulate(s, p, p + |Decimal(n)|, 0) == if n < TWO63 then Num(n) else TooBig
  {
    var r := p + |Decimal(n)|;
    MatchAt(s, p, Decimal(n), |Decimal(n)| - 1);
    if n >= 10 {
      Split(s, p, Decimal(n / 10), [Digit(n % 10)]);
      AccumulateDecimal(s, p, n / 10);
      AccumulateSplit(s, p, r - 1, r, 0);
      AccumulateOne(s, r - 1, n / 10, n % 10);
    } else {
      AccumulateOne(s, p, 0, n);
    }
  }

  lemma AccumulateOne(s: string, p: nat, m: nat, d: nat)
    requires p < |s| && d < 10 && s[p] == Digit(d) && IsDigit(s[p])
    ensures Accumulate(s, p, p + 1, m) == if 10 * m + d < TWO63 then Num(10 * m + d) else TooBig
  {
    assert s[p] as int - '0' as int == d;
  }

  lemma DigitsBack(s: string, p: nat, n: nat)
    requires Matches(s, p, Decimal(n)) && Stops(s, p + |Decimal(n)|)
    ensures IsDigit(s[p]) && DigitsEnd(s, p) == p + |Decimal(n)|
    ensures Accumulate(s, p, p + |Decimal(n)|, 0) == if n < TWO63 then Num(n) else TooBig
  {
    forall k | p <= k < p + |Decimal(n)| ensures IsDigit(s[k]) {
      MatchAt(s, p, Decimal(n), k - p);
      DecimalDigits(n, k - p);
    }
    DigitsRun(s, p, p + |Decimal(n)|);
    AccumulateDecimal(s, p, n);
  }

  lemma NumberBack(s: string, p: nat, n: nat, neg: bool)
    requires Matches(s, p, (if neg then "-" else "") + Decimal(n))
    requires Stops(s, p + (if neg then 1 else 0) + |Decimal(n)|)
    ensures ParseNumber(s, p) == Result(BackNumber(n, neg), p + (if neg then 1 else 0) + |Decimal(n)|)
    ensures s[p] == '-' || IsDigit(s[p])
  {
    hide Decimal, Accumulate, DigitsEnd;
    if neg {
      Split(s, p, "-", Decimal(n));
      MatchAt(s, p, "-", 0);
      DigitsBack(s, p + 1, n);
    } else {
      assert "" + Decimal(n) == Decimal(n);
      DigitsBack(s, p, n);
    }
  }

  // ----- trees -----

  predicate NoFloats(v: Value)
    decreases v
  {
    match v
    case F64(_) => false
    case Array(vs) => forall i | 0 <= i < |vs| :: NoFloats(vs[i])
    case Dict(fs) => forall i | 0 <= i < |fs| :: NoFloats(fs[i].value)
    case _ => true
  }

  lemma PrintHead(v: Value, size: nat, indent: nat)
    requires !v.F64?
    ensures |Print(v, size, indent)| > 0
    ensures var c := Print(v, size, indent)[0]; !IsSpace(c) && c != ']' && c != '}'
  {
    if v.U64? { DecimalDigits(v.n, 0); }
    if v.I64? && v.i >= 0 { DecimalDigits(v.i, 0); }
  }

  // The text from an element on: the other elements and the end of the array.
  function ElemsText(vs: seq<Value>, size: nat, indent: nat, close: string): string
    requires vs != []
  {
    Print(vs[0], size, indent) + (PrintRest(vs[1..], size, indent) + close)
  }

  function FieldsText(fs: seq<Field>, size: nat, indent: nat, close: string): string
    requires fs != []
  {
    PrintField(fs[0], size, indent) + (PrintFields(fs[1..], size, indent) + close)
  }

  lemma RestText(vs: seq<Value>, size: nat, indent: nat, close: string)
    requires vs != []
    ensures PrintRest(vs, size, indent) + close == "," + (Sep(size, indent) + ElemsText(vs, size, indent, close))
  {
    hide Print, Sep;
    var a, b, c := Sep(size, indent), Print(vs[0], size, indent), PrintRest(vs[1..], size, indent);
    assert PrintRest(vs, size, indent) == "," + a + b + c;
    assert "," + a + b + c + close == "," + (a + (b + (c + close)));
  }

  lemma FieldsRestText(fs: seq<Field>, size: nat, indent: nat, close: string)
    requires fs != []
    ensures PrintFields(fs, size, indent) + close == "," + (Sep(size, indent) + FieldsText(fs, size, indent, close))
  {
    hide PrintField, Sep;
    var a, b, c := Sep(size, indent), PrintField(fs[0], size, indent), PrintFields(fs[1..], size, indent);
    assert PrintFields(fs, size, indent) == "," + a + b + c;
    assert "," + a + b + c + close == "," + (a + (b + (c + close)));
  }

  lemma ArrayText(vs: seq<Value>, size: nat, indent: nat)
    ensures var close := Sep(size, indent) + "]";
            Print(Array(vs), size, indent) ==
            if vs == [] then "[" + close
            else "[" + (Sep(size, indent + size) + ElemsText(vs, size, indent + size, close))
  {
    hide Sep;
    var z := Sep(size, indent);
    if vs != [] {
      var a, b, c := Sep(size, indent + size), Print(vs[0], size, indent + size),
          PrintRest(vs[1..], size, indent + size);
      assert "[" + (a + b + c) + z + "]" == "[" + (a + (b + (c + (z + "]"))));
    } else {
      assert "[" + "" + z + "]" == "[" + (z + "]");
    }
  }

  lemma DictText(fs: seq<Field>, size: nat, indent: nat)
    ensures var close := Sep(size, indent) + "}";
            Print(Dict(fs), size, indent) ==
            if fs == [] then "{" + close
            else "{" + (Sep(size, indent + size) + FieldsText(fs, size, indent + size, close))
  {
    hide Sep, PrintField;
    var z := Sep(size, indent);
    if fs != [] {
      var a, b, c := Sep(size, indent + size), PrintField(fs[0], size, indent + size),
          PrintFields(fs[1..], size, indent + size);
      assert "{" + (a + b + c) + z + "}" == "{" + (a + (b + (c + (z + "}"))));
    } else {
      assert "{" + "" + z + "}" == "{" + (z + "}");
    }
  }

  // The character after a separator is what follows it.
  lemma SkipTo(s: string, p: nat, size: nat, indent: nat, t: string)
    requires Matches(s, p, Sep(size, indent) + t) && |t| > 0 && !IsSpace(t[0])
    ensures SkipSpace(s, p) == p + |Sep(size, indent)| && Matches(s, p + |Sep(size, indent)|, t)
    ensures p + |Sep(size, indent)| < |s| && s[p + |Sep(size, indent)|] == t[0]
  {
    Split(s, p, Sep(size, indent), t);
    MatchAt(s, p + |Sep(size, indent)|, t, 0);
    SkipSep(s, p, size, indent);
  }

  predicate ClosesElement(c: char) {
    c == ',' || c == '\n' || c == ']' || c == '}'
  }

  // After an element comes a comma, a line break or the closing bracket.
  lemma AfterElement(s: string, p: nat, t: string)
    requires Matches(s, p, t) && |t| > 0 && ClosesElement(t[0])
    ensures Stops(s, p) && p < |s| && s[p] == t[0]
  {
    MatchAt(s, p, t, 0);
  }

  // The parser on one value, on the rest of an array and on the rest of a dict.
  lemma {:induction false} ValueBack(s: string, p: nat, v: Value, size: nat, indent: nat)
    requires NoFloats(v) && Matches(s, p, Print(v, size, indent)) && Stops(s, p + |Print(v, size, indent)|)
    ensures ParseValue(s, p) == Result(Back(v), p + |Print(v, size, indent)|)
    decreases v, 2
  {
    hide Print, Back, NoFloats, Matches, Stops, ParseValue, Result, Quote;
    NotFloat(v);
    ScalarText(v, size, indent);
    if v.Array? {
      ArrayValueBack(s, p, v.elems, size, indent);
    } else if v.Dict? {
      DictValueBack(s, p, v.fields, size, indent);
    } else if v.Str? {
      StrValueBack(s, p, v.s);
    } else if v.U64? || v.I64? {
      NumberValueBack(s, p, v);
    } else {
      LiteralValueBack(s, p, v);
    }
  }

  lemma NotFloat(v: Value)
    requires NoFloats(v)
    ensures !v.F64?
  {
  }

  lemma ScalarText(v: Value, size: nat, indent: nat)
    ensures !v.Array? && !v.Dict? ==> Print(v, size, indent) == Print(v, 0, 0)
    ensures v.Str? ==> Print(v, size, indent) == Quote(v.s)
  {
    hide Quote, Sep, Decimal, DecimalI64, PrintRest, PrintFields, PrintField;
  }

  lemma {:induction false} ArrayValueBack(s: string, p: nat, vs: seq<Value>, size: nat, indent: nat)
    requires NoFloats(Array(vs)) && Matches(s, p, Print(Array(vs), size, indent))
    ensures ParseValue(s, p) == Result(Back(Array(vs)), p + |Print(Array(vs), size, indent)|)
    decreases vs, 2
  {
    hide Print, Back, ParseArray, NoFloats, Matches;
    PrintHead(Array(vs), size, indent);
    MatchesFit(s, p, Print(Array(vs), size, indent));
    ArrayBack(s, p, vs, size, indent);
    SkipNone(s, p);
  }

  lemma {:induction false} DictValueBack(s: string, p: nat, fs: seq<Field>, size: nat, indent: nat)
    requires NoFloats(Dict(fs)) && Matches(s, p, Print(Dict(fs), size, indent))
    ensures ParseValue(s, p) == Result(Back(Dict(fs)), p + |Print(Dict(fs), size, indent)|)
    decreases fs, 2
  {
    hide Print, Back, ParseDict, NoFloats, Matches;
    PrintHead(Dict(fs), size, indent);
    MatchesFit(s, p, Print(Dict(fs), size, indent));
    DictBack(s, p, fs, size, indent);
    SkipNone(s, p);
  }

  lemma StrValueBack(s: string, p: nat, t: string)
    requires Matches(s, p, Quote(t))
    ensures ParseValue(s, p) == Result(Back(Str(t)), p + |Quote(t)|)
  {
    MatchAt(s, p, Quote(t), 0);
    hide ParseString, BackString;
    QuoteBack(s, p, t);
    SkipNone(s, p);
  }

  lemma NumberValueBack(s: string, p: nat, v: Value)
    requires (v.U64? || v.I64?) && Matches(s, p, Print(v, 0, 0)) && Stops(s, p + |Print(v, 0, 0)|)
    ensures ParseValue(s, p) == Result(Back(v), p + |Print(v, 0, 0)|)
  {
    hide ParseNumber, BackNumber, Decimal, DecimalI64;
    MatchesFit(s, p, Print(v, 0, 0));
    if v.U64? { UnsignedBack(s, p, v.n); } else { SignedBack(s, p, v.i); }
    SkipNone(s, p);
  }

  lemma LiteralValueBack(s: string, p: nat, v: Value)
    requires (v.Null? || v.Bool?) && Matches(s, p, Print(v, 0, 0))
    ensures ParseValue(s, p) == Result(Back(v), p + |Print(v, 0, 0)|)
  {
    LiteralBack(s, p, v, 0, 0);
    hide ParseLiteral;
    SkipNone(s, p);
  }

  lemma LiteralBack(s: string, p: nat, v: Value, size: nat, indent: nat)
    requires (v.Null? || v.Bool?) && Matches(s, p, Print(v, size, indent))
    ensures p < |s| && (s[p] == 't' || s[p] == 'f' || s[p] == 'n')
    ensures ParseLiteral(s, p) == Ok(v, p + |Print(v, size, indent)|)
  {
    var t := Print(v, size, indent);
    MatchAt(s, p, t, 0);
    if Matches(s, p, "null") { MatchAt(s, p, "null", 0); }
    if Matches(s, p, "true") { MatchAt(s, p, "true", 0); }
  }

  lemma UnsignedBack(s: string, p: nat, n: nat)
    requires p <= |s| && Matches(s, p, Decimal(n)) && Stops(s, p + |Decimal(n)|)
    ensures p < |s| && IsDigit(s[p]) && ParseNumber(s, p) == Result(BackNumber(n, false), p + |Decimal(n)|)
  {
    hide Decimal;
    assert "" + Decimal(n) == Decimal(n);
    NumberBack(s, p, n, false);
    DigitsBack(s, p, n);
  }

  lemma SignedBack(s: string, p: nat, i: int)
    requires p <= |s| && Matches(s, p, DecimalI64(i)) && Stops(s, p + |DecimalI64(i)|)
    ensures p < |s| && (s[p] == '-' || IsDigit(s[p]))
    ensures ParseNumber(s, p) ==
            Result(if i < 0 then BackNumber(-i, true) else BackNumber(i, false), p + |DecimalI64(i)|)
  {
    hide Decimal;
    if i < 0 { NumberBack(s, p, -i, true); } else { UnsignedBack(s, p, i); }
  }

  // The opening of an array, up to its first element or its closing bracket.
  lemma ArrayOpen(s: string, p: nat, vs: seq<Value>, size: nat, indent: nat) returns (q: nat)
    requires NoFloats(Array(vs)) && p < |s| && Matches(s, p, Print(Array(vs), size, indent))
    ensures s[p] == '[' && q == SkipSpace(s, p + 1) < |s|
    ensures vs == [] ==> s[q] == ']' && q + 1 == p + |Print(Array(vs), size, indent)|
    ensures vs != [] ==> var t := ElemsText(vs, size, indent + size, Sep(size, indent) + "]");
                         s[q] != ']' && Matches(s, q, t) && q + |t| == p + |Print(Array(vs), size, indent)|
  {
    hide Print, Sep, Matches, SkipSpace, ElemsText, NoFloats;
    var close := Sep(size, indent) + "]";
    ArrayText(vs, size, indent);
    if vs == [] {
      Split(s, p, "[", close);
      SkipTo(s, p + 1, size, indent, "]");
      q := p + 1 + |Sep(size, indent)|;
    } else {
      var t := ElemsText(vs, size, indent + size, close);
      Split(s, p, "[", Sep(size, indent + size) + t);
      ElemsHead(vs, size, indent + size, close);
      SkipTo(s, p + 1, size, indent + size, t);
      q := p + 1 + |Sep(size, indent + size)|;
    }
    MatchAt(s, p, "[", 0);
  }

  lemma {:induction false} ArrayBack(s: string, p: nat, vs: seq<Value>, size: nat, indent: nat)
    requires NoFloats(Array(vs)) && p < |s| && Matches(s, p, Print(Array(vs), size, indent))
    ensures s[p] == '['
    ensures ParseArray(s, p) == Result(Back(Array(vs)), p + |Print(Array(vs), size, indent)|)
    decreases vs, 1
  {
    hide Print, Sep, Matches, SkipSpace, ElemsText, NoFloats, BackElems, ParseElems;
    var q := ArrayOpen(s, p, vs, size, indent);
    if vs == [] {
      assert Back(Array([])) == Gives(Array([])) by { BackEmpty(); }
    } else {
      ElemsBack(s, q, vs, size, indent + size, indent);
    }
  }

  lemma BackEmpty()
    ensures Back(Array([])) == Gives(Array([])) && Back(Dict([])) == Gives(Dict([]))
  {
  }

  lemma ElemsHead(vs: seq<Value>, size: nat, indent: nat, close: string)
    requires vs != [] && NoFloats(Array(vs))
    ensures var t := ElemsText(vs, size, indent, close); |t| > 0 && !IsSpace(t[0]) && t[0] != ']'
  {
    assert NoFloats(vs[0]);
    PrintHead(vs[0], size, indent);
  }

  // Around the last element, and around one that others follow.
  lemma ElemsLast(s: string, p: nat, vs: seq<Value>, size: nat, indent: nat, outer: nat)
    requires |vs| == 1 && NoFloats(Array(vs)) && p <= |s|
    requires Matches(s, p, ElemsText(vs, size, indent, Sep(size, outer) + "]"))
    ensures var a := Print(vs[0], size, indent);
            var e := p + |a|; var q := SkipSpace(s, e);
            && e <= |s| && Matches(s, p, a) && Stops(s, e) && q < |s| && s[q] == ']'
            && q + 1 == p + |ElemsText(vs, size, indent, Sep(size, outer) + "]")|
  {
    hide Print, Sep, Matches, SkipSpace, Stops;
    var close := Sep(size, outer) + "]";
    var a := Print(vs[0], size, indent);
    assert PrintRest(vs[1..], size, indent) + close == close;
    Split(s, p, a, close);
    CloseHead(size, outer, "]");
    AfterElement(s, p + |a|, close);
    SkipTo(s, p + |a|, size, outer, "]");
  }

  lemma ElemsMore(s: string, p: nat, vs: seq<Value>, size: nat, indent: nat, close: string)
    requires |vs| > 1 && NoFloats(Array(vs)) && p <= |s| && Matches(s, p, ElemsText(vs, size, indent, close))
    ensures var a := Print(vs[0], size, indent);
            var e := p + |a|;
            && e < |s| && Matches(s, p, a) && Stops(s, e) && SkipSpace(s, e) == e && s[e] == ','
            && var q := SkipSpace(s, e + 1);
               Matches(s, q, ElemsText(vs[1..], size, indent, close)) &&
               q + |ElemsText(vs[1..], size, indent, close)| == p + |ElemsText(vs, size, indent, close)|
  {
    hide Print, Sep, Matches, SkipSpace, Stops, NoFloats, PrintRest;
    var a, rest := Print(vs[0], size, indent), PrintRest(vs[1..], size, indent) + close;
    var t := ElemsText(vs[1..], size, indent, close);
    Split(s, p, a, rest);
    RestText(vs[1..], size, indent, close);
    AfterElement(s, p + |a|, rest);
    SkipNone(s, p + |a|);
    Split(s, p + |a|, ",", Sep(size, indent) + t);
    TailNoFloats(vs);
    ElemsHead(vs[1..], size, indent, close);
    SkipTo(s, p + |a| + 1, size, indent, t);
  }

  lemma TailNoFloats(vs: seq<Value>)
    requires vs != [] && NoFloats(Array(vs))
    ensures NoFloats(vs[0]) && NoFloats(Array(vs[1..]))
  {
  }

  lemma {:induction false} ElemsBack(s: string, p: nat, vs: seq<Value>, size: nat, indent: nat, outer: nat)
    requires vs != [] && NoFloats(Array(vs)) && p <= |s|
    requires Matches(s, p, ElemsText(vs, size, indent, Sep(size, outer) + "]"))
    ensures ParseElems(s, p) == Result(BackElems(vs), p + |ElemsText(vs, size, indent, Sep(size, outer) + "]")|)
    decreases vs, 0
  {
    hide Print, PrintRest, Sep, Matches, SkipSpace, Back, ParseValue, Stops, NoFloats, ElemsText;
    TailNoFloats(vs);
    ElemsHead(vs, size, indent, Sep(size, outer) + "]");
    MatchAt(s, p, ElemsText(vs, size, indent, Sep(size, outer) + "]"), 0);
    if |vs| == 1 {
      ElemsLast(s, p, vs, size, indent, outer);
      ValueBack(s, p, vs[0], size, indent);
      assert BackElems(vs[1..]) == Gives([]);
      assert forall w: Value :: [w] + [] == [w];
    } else {
      ElemsMore(s, p, vs, size, indent, Sep(size, outer) + "]");
      ValueBack(s, p, vs[0], size, indent);
      ElemsBack(s, SkipSpace(s, p + |Print(vs[0], size, indent)| + 1), vs[1..], size, indent, outer);
    }
  }

  lemma CloseHead(size: nat, indent: nat, bracket: string)
    requires bracket == "]" || bracket == "}"
    ensures var t := Sep(size, indent) + bracket; |t| > 0 && ClosesElement(t[0])
  {
  }

  lemma SkipNone(s: string, p: nat)
    requires p < |s| && !IsSpace(s[p])
    ensures SkipSpace(s, p) == p
  {
  }

  lemma DictOpen(s: string, p: nat, fs: seq<Field>, size: nat, indent: nat) returns (q: nat)
    requires p < |s| && Matches(s, p, Print(Dict(fs), size, indent))
    ensures s[p] == '{' && q == SkipSpace(s, p + 1) < |s|
    ensures fs == [] ==> s[q] == '}' && q + 1 == p + |Print(Dict(fs), size, indent)|
    ensures fs != [] ==> var t := FieldsText(fs, size, indent + size, Sep(size, indent) + "}");
                         s[q] != '}' && Matches(s, q, t) && q + |t| == p + |Print(Dict(fs), size, indent)|
  {
    hide Print, Sep, Matches, SkipSpace, FieldsText;
    var close := Sep(size, indent) + "}";
    DictText(fs, size, indent);
    if fs == [] {
      Split(s, p, "{", close);
      SkipTo(s, p + 1, size, indent, "}");
      q := p + 1 + |Sep(size, indent)|;
    } else {
      var t := FieldsText(fs, size, indent + size, close);
      Split(s, p, "{", Sep(size, indent + size) + t);
      FieldsHead(fs, size, indent + size, close);
      SkipTo(s, p + 1, size, indent + size, t);
      q := p + 1 + |Sep(size, indent + size)|;
    }
    MatchAt(s, p, "{", 0);
  }

  lemma {:induction false} DictBack(s: string, p: nat, fs: seq<Field>, size: nat, indent: nat)
    requires NoFloats(Dict(fs)) && p < |s| && Matches(s, p, Print(Dict(fs), size, indent))
    ensures s[p] == '{'
    ensures ParseDict(s, p) == Result(Back(Dict(fs)), p + |Print(Dict(fs), size, indent)|)
    decreases fs, 1
  {
    hide Print, Sep, Matches, SkipSpace, FieldsText, NoFloats, BackFields, ParseFields;
    var q := DictOpen(s, p, fs, size, indent);
    if fs == [] {
      assert Back(Dict([])) == Gives(Dict([])) by { BackEmpty(); }
    } else {
      FieldsBack(s, q, fs, size, indent + size, indent);
    }
  }

  lemma FieldsHead(fs: seq<Field>, size: nat, indent: nat, close: string)
    requires fs != []
    ensures var t := FieldsText(fs, size, indent, close); |t| > 0 && t[0] == '\"'
  {
  }

  // One field; the text after it does not continue a number.
  lemma {:induction false} FieldBack(s: string, p: nat, f: Field, size: nat, indent: nat)
    requires NoFloats(f.value) && p <= |s| && Matches(s, p, PrintField(f, size, indent))
    requires Stops(s, p + |PrintField(f, size, indent)|)
    ensures ParseField(s, p) ==
            match BackString(f.key)
            case Rejected => Reject
            case Overflows => Overflow
            case Gives(k) =>
              match Back(f.value)
              case Rejected => Reject
              case Overflows => Overflow
              case Gives(w) => Ok(Field(k, w), p + |PrintField(f, size, indent)|)
    decreases f, 0
  {
    hide Print, Matches, Back, ParseValue, BackString, ParseString, Stops;
    var v := Print(f.value, size, indent);
    Split(s, p, Quote(f.key), ": " + v);
    MatchAt(s, p, Quote(f.key), 0);
    SkipNone(s, p);
    QuoteBack(s, p, f.key);
    var c := p + |Quote(f.key)|;
    assert ": " + v == ":" + (" " + v);
    Split(s, c, ":", " " + v);
    MatchAt(s, c, ":", 0);
    SkipNone(s, c);
    PrintHead(f.value, size, indent);
    Split(s, c + 1, " ", v);
    MatchAt(s, c + 1, " ", 0);
    MatchAt(s, c + 2, v, 0);
    SkipNone(s, c + 2);
    assert SkipSpace(s, c + 1) == c + 2;
    ValueBack(s, c + 2, f.value, size, indent);
  }

  lemma FieldsLast(s: string, p: nat, fs: seq<Field>, size: nat, indent: nat, outer: nat)
    requires |fs| == 1 && p <= |s|
    requires Matches(s, p, FieldsText(fs, size, indent, Sep(size, outer) + "}"))
    ensures var a := PrintField(fs[0], size, indent);
            var e := p + |a|; var q := SkipSpace(s, e);
            && e <= |s| && Matches(s, p, a) && Stops(s, e) && q < |s| && s[q] == '}'
            && q + 1 == p + |FieldsText(fs, size, indent, Sep(size, outer) + "}")|
  {
    hide PrintField, Sep, Matches, SkipSpace, Stops, Print, Quote;
    var close := Sep(size, outer) + "}";
    var a := PrintField(fs[0], size, indent);
    assert PrintFields(fs[1..], size, indent) + close == close;
    Split(s, p, a, close);
    CloseHead(size, outer, "}");
    AfterElement(s, p + |a|, close);
    SkipTo(s, p + |a|, size, outer, "}");
  }

  lemma FieldsMore(s: string, p: nat, fs: seq<Field>, size: nat, indent: nat, close: string)
    requires |fs| > 1 && p <= |s| && Matches(s, p, FieldsText(fs, size, indent, close))
    ensures var a := PrintField(fs[0], size, indent);
            var e := p + |a|;
            && e < |s| && Matches(s, p, a) && Stops(s, e) && SkipSpace(s, e) == e && s[e] == ','
            && var q := SkipSpace(s, e + 1);
               Matches(s, q, FieldsText(fs[1..], size, indent, close)) &&
               q + |FieldsText(fs[1..], size, indent, close)| == p + |FieldsText(fs, size, indent, close)|
  {
    hide PrintField, Sep, Matches, SkipSpace, Stops, Print, Quote, PrintFields;
    var a, rest := PrintField(fs[0], size, indent), PrintFields(fs[1..], size, indent) + close;
    var t := FieldsText(fs[1..], size, indent, close);
    Split(s, p, a, rest);
    FieldsRestText(fs[1..], size, indent, close);
    AfterElement(s, p + |a|, rest);
    SkipNone(s, p + |a|);
    Split(s, p + |a|, ",", Sep(size, indent) + t);
    FieldsHead(fs[1..], size, indent, close);
    SkipTo(s, p + |a| + 1, size, indent, t);
  }

  lemma TailNoFloatFields(fs: seq<Field>)
    requires fs != [] && NoFloats(Dict(fs))
    ensures NoFloats(fs[0].value) && NoFloats(Dict(fs[1..]))
  {
  }

  lemma {:induction false} FieldsBack(s: string, p: nat, fs: seq<Field>, size: nat, indent: nat, outer: nat)
    requires fs != [] && NoFloats(Dict(fs)) && p <= |s|
    requires Matches(s, p, FieldsText(fs, size, indent, Sep(size, outer) + "}"))
    ensures ParseFields(s, p) == Result(BackFields(fs), p + |FieldsText(fs, size, indent, Sep(size, outer) + "}")|)
    decreases fs, 0
  {
    hide PrintField, PrintFields, Sep, Matches, SkipSpace, Back, BackString, ParseField, Stops, NoFloats, FieldsText;
    TailNoFloatFields(fs);
    FieldsHead(fs, size, indent, Sep(size, outer) + "}");
    MatchAt(s, p, FieldsText(fs, size, indent, Sep(size, outer) + "}"), 0);
    if |fs| == 1 {
      FieldsLast(s, p, fs, size, indent, outer);
      FieldBack(s, p, fs[0], size, indent);
      assert BackFields(fs[1..]) == Gives([]);
      assert forall f: Field :: [f] + [] == [f];
    } else {
      FieldsMore(s, p, fs, size, indent, Sep(size, outer) + "}");
      FieldBack(s, p, fs[0], size, indent);
      FieldsBack(s, SkipSpace(s, p + |PrintField(fs[0], size, indent)| + 1), fs[1..], size, indent, outer);
    }
  }

  // For every tree of values other than floats, and every indentation: parsing the printed text
  // gives exactly what Back says.
  lemma ParseOfPrint(v: Value, size: nat)
    requires NoFloats(v)
    ensures Parse(Print(v, size, 0)) == Result(Back(v), |Print(v, size, 0)|)
  {
    hide Print, NoFloats, Back, ParseValue;
    var s := Print(v, size, 0);
    NotFloat(v);
    PrintHead(v, size, 0);
    ValueBack(s, 0, v, size, 0);
  }

  // ----- which values come back unchanged -----

  predicate Clean(s: string) {
    forall i | 0 <= i < |s| :: !Raw(s[i]) && s[i] != VERTICAL_TAB
  }

  predicate InDomain(v: Value)
    decreases v
  {
    match v
    case Null => true
    case Bool(_) => true
    case U64(n) => n < TWO63
    case I64(i) => -1 * TWO63 < i < 0
    case F64(_) => false
    case Str(s) => Clean(s)
    case Array(vs) => forall i | 0 <= i < |vs| :: InDomain(vs[i])
    case Dict(fs) => forall i | 0 <= i < |fs| :: Clean(fs[i].key) && InDomain(fs[i].value)
  }

  lemma {:induction false} BackStringSame(s: string)
    ensures BackString(s).Gives? ==> |BackString(s).value| <= |s|
    ensures BackString(s) == Gives(s) <==> Clean(s)
    ensures BackString(s).Gives? ==> Clean(BackString(s).value)
  {
    if s != "" {
      BackStringSame(s[1..]);
      assert s == [s[0]] + s[1..];
      assert Clean(s) <==> !Raw(s[0]) && s[0] != VERTICAL_TAB && Clean(s[1..]);
    }
  }

  lemma {:induction false} BackSame(v: Value)
    requires NoFloats(v)
    ensures Back(v) == Gives(v) <==> InDomain(v)
    decreases v
  {
    match v
    case Str(s) => BackStringSame(s);
    case Array(vs) => BackElemsSame(vs);
    case Dict(fs) => BackFieldsSame(fs);
    case _ =>
  }

  lemma {:induction false} BackElemsSame(vs: seq<Value>)
    requires NoFloats(Array(vs))
    ensures BackElems(vs) == Gives(vs) <==> InDomain(Array(vs))
    decreases vs
  {
    if vs != [] {
      BackSame(vs[0]);
      TailNoFloats(vs);
      BackElemsSame(vs[1..]);
      assert vs == [vs[0]] + vs[1..];
      hide Back;
      assert InDomain(Array(vs)) <==> InDomain(vs[0]) && InDomain(Array(vs[1..]));
    }
  }

  lemma {:induction false} BackFieldsSame(fs: seq<Field>)
    requires NoFloats(Dict(fs))
    ensures BackFields(fs) == Gives(fs) <==> InDomain(Dict(fs))
    decreases fs
  {
    if fs != [] {
      BackSame(fs[0].value);
      BackStringSame(fs[0].key);
      TailNoFloatFields(fs);
      BackFieldsSame(fs[1..]);
      assert fs == [fs[0]] + fs[1..];
      hide Back, BackString;
      assert InDomain(Dict(fs)) <==> Clean(fs[0].key) && InDomain(fs[0].value) && InDomain(Dict(fs[1..]));
    }
  }

  // The round trip, exactly: at every indentation, for trees without floats, the printed text
  // parses back to the same tree if and only if the tree is in the domain.
  lemma RoundTrip(v: Value, size: nat)
    requires NoFloats(v)
    ensures Parse(Print(v, size, 0)) == Ok(v, |Print(v, size, 0)|) <==> InDomain(v)
  {
    ParseOfPrint(v, size);
    BackSame(v);
  }

  // What comes back of some values outside the domain: nothing of a number from 2^63 on, the unsigned
  // form of a signed number that is not negative, and a string without its vertical tabs.
  lemma {:induction false} OutsideDomain(n: nat, i: nat, size: nat)
    requires n >= TWO63 && i < TWO63
    ensures Parse(Print(U64(n), size, 0)).Overflow?
    ensures Parse(Print(I64(i), size, 0)) == Ok(U64(i), |Print(I64(i), size, 0)|)
    ensures Parse(Print(Str([VERTICAL_TAB]), size, 0)) == Ok(Str(""), |Print(Str([VERTICAL_TAB]), size, 0)|)
  {
    hide Print, Parse;
    ParseOfPrint(U64(n), size);
    ParseOfPrint(I64(i), size);
    ParseOfPrint(Str([VERTICAL_TAB]), size);
    TabLost();
  }

  lemma TabLost()
    ensures BackString([VERTICAL_TAB]) == Gives("")
  {
    var s := [VERTICAL_TAB];
    assert s[1..] == "" && BackString(s[1..]) == Gives("") && "" + "" == "";
  }

  // ----- what the parser can produce -----

  // The decoding pass walks the units of the measuring pass: it never writes more characters than
  // were measured, and every character it writes is one the writer can give back.
  lemma {:induction false} DecodeFits(s: string, p: nat)
    requires Measure(s, p).Ok?
    ensures |Decode(s, p, Measure(s, p).pos)| <= Measure(s, p).value
    ensures Clean(Decode(s, p, Measure(s, p).pos))
    decreases |s| - p
  {
    hide DecodeUnit, Decode, Raw, Clean;
    if s[p] == '\"' {
      DecodeStops(s, p);
    } else {
      var u, e := UnitSize(s, p), Measure(s, p).pos;
      DecodeFits(s, p + u);
      MeasureStep(s, p, u, e);
      DecodedUnitClean(s, p);
      CleanJoin(DecodeUnit(s, p), Decode(s, p + u, e));
    }
  }

  lemma DecodeStops(s: string, p: nat)
    requires p <= |s|
    ensures Decode(s, p, p) == "" && Clean("")
  {
  }

  lemma CleanJoin(a: string, b: string)
    requires Clean(a) && Clean(b)
    ensures Clean(a + b)
  {
  }

  lemma DecodedUnitClean(s: string, p: nat)
    requires p < |s| && (s[p] == '\\' || s[p] >= ' ')
    ensures |DecodeUnit(s, p)| <= 1 && Clean(DecodeUnit(s, p))
  {
  }

  lemma {:induction false} AccumulateBound(s: string, p: nat, q: nat, n: nat)
    requires p <= q <= |s| && n < TWO63 && forall k | p <= k < q :: IsDigit(s[k])
    ensures Accumulate(s, p, q, n).Num? ==> Accumulate(s, p, q, n).n < TWO63
    decreases q - p
  {
    if p < q {
      assert IsDigit(s[p]);
      var n': nat := n * 10 + (s[p] as int - '0' as int);
      if n' < TWO63 { AccumulateBound(s, p + 1, q, n'); }
    }
  }

  // InDomain, but for the integer zero written with a minus sign and for floats.
  predicate Landed(v: Value)
    decreases v
  {
    match v
    case U64(n) => n < TWO63
    case I64(i) => -1 * TWO63 < i <= 0
    case Str(s) => Clean(s)
    case Array(vs) => forall i | 0 <= i < |vs| :: Landed(vs[i])
    case Dict(fs) => forall i | 0 <= i < |fs| :: Clean(fs[i].key) && Landed(fs[i].value)
    case _ => true
  }

  lemma StringLands(s: string, p: nat)
    requires ParseString(s, p).Ok?
    ensures Clean(ParseString(s, p).value)
  {
    DecodeFits(s, p + 1);
  }

  lemma NumberLands(s: string, p: nat)
    requires p <= |s| && ParseNumber(s, p).Ok?
    ensures Landed(ParseNumber(s, p).value)
  {
    var d := if p < |s| && s[p] == '-' then p + 1 else p;
    AccumulateBound(s, d, DigitsEnd(s, d), 0);
    hide Accumulate, DigitsEnd;
  }

  lemma {:induction false} ValueLands(s: string, p: nat)
    requires p <= |s| && ParseValue(s, p).Ok?
    ensures Landed(ParseValue(s, p).value)
    decreases |s| - p, 2
  {
    var q := SkipSpace(s, p);
    hide SkipSpace, ParseString, ParseNumber, ParseElems, ParseFields;
    if s[q] == '\"' {
      StringLands(s, q);
    } else if s[q] == '{' {
      if ParseFields(s, SkipSpace(s, q + 1)).Ok? { FieldsLand(s, SkipSpace(s, q + 1)); }
    } else if s[q] == '[' {
      if ParseElems(s, SkipSpace(s, q + 1)).Ok? { ElemsLand(s, SkipSpace(s, q + 1)); }
    } else if s[q] == '-' || IsDigit(s[q]) {
      NumberLands(s, q);
    }
  }

  lemma {:induction false} ElemsLand(s: string, p: nat)
    requires p <= |s| && ParseElems(s, p).Ok?
    ensures Landed(Array(ParseElems(s, p).value))
    decreases |s| - p, 3
  {
    ValueLands(s, p);
    hide ParseValue, SkipSpace;
    var q := SkipSpace(s, ParseValue(s, p).pos);
    if s[q] == ',' { ElemsLand(s, SkipSpace(s, q + 1)); }
  }

  lemma {:induction false} FieldsLand(s: string, p: nat)
    requires p <= |s| && ParseFields(s, p).Ok?
    ensures Landed(Dict(ParseFields(s, p).value))
    decreases |s| - p, 4
  {
    FieldLands(s, p);
    hide ParseField, SkipSpace;
    var q := SkipSpace(s, ParseField(s, p).pos);
    if s[q] == ',' { FieldsLand(s, SkipSpace(s, q + 1)); }
  }

  lemma {:induction false} FieldLands(s: string, p: nat)
    requires p <= |s| && ParseField(s, p).Ok?
    ensures Clean(ParseField(s, p).value.key) && Landed(ParseField(s, p).value.value)
    decreases |s| - p, 3
  {
    hide ParseString, ParseValue, SkipSpace;
    var k := SkipSpace(s, p);
    StringLands(s, k);
    var c := SkipSpace(s, ParseString(s, k).pos);
    ValueLands(s, SkipSpace(s, c + 1));
  }

  // A signed zero becomes the unsigned one.
  function Plain(v: Value): Value
    decreases v
  {
    match v
    case I64(i) => if i == 0 then U64(0) else v
    case Array(vs) => Array(PlainElems(vs))
    case Dict(fs) => Dict(PlainFields(fs))
    case _ => v
  }

  function PlainElems(vs: seq<Value>): seq<Value>
    decreases vs
  {
    if vs == [] then [] else [Plain(vs[0])] + PlainElems(vs[1..])
  }

  function PlainFields(fs: seq<Field>): seq<Field>
    decreases fs
  {
    if fs == [] then [] else [Field(fs[0].key, Plain(fs[0].value))] + PlainFields(fs[1..])
  }

  lemma {:induction false} LandedBack(v: Value)
    requires NoFloats(v) && Landed(v)
    ensures Back(v) == Gives(Plain(v))
    decreases v
  {
    match v
    case Str(s) => BackStringSame(s);
    case Array(vs) => LandedElems(vs);
    case Dict(fs) => LandedFields(fs);
    case _ =>
  }

  lemma {:induction false} LandedElems(vs: seq<Value>)
    requires NoFloats(Array(vs)) && Landed(Array(vs))
    ensures BackElems(vs) == Gives(PlainElems(vs))
    decreases vs
  {
    if vs != [] {
      LandedBack(vs[0]);
      TailNoFloats(vs);
      assert Landed(Array(vs[1..]));
      LandedElems(vs[1..]);
    }
  }

  lemma {:induction false} LandedFields(fs: seq<Field>)
    requires NoFloats(Dict(fs)) && Landed(Dict(fs))
    ensures BackFields(fs) == Gives(PlainFields(fs))
    decreases fs
  {
    if fs != [] {
      LandedBack(fs[0].value);
      BackStringSame(fs[0].key);
      TailNoFloatFields(fs);
      assert Landed(Dict(fs[1..]));
      LandedFields(fs[1..]);
    }
  }

  // Every document the parser accepts, floats apart, can be written at any indentation and read
  // again without loss, but for the sign of an integer zero.
  lemma ReadWriteRead(s: string, size: nat)
    requires Parse(s).Ok? && NoFloats(Parse(s).value)
    ensures Parse(Print(Parse(s).value, size, 0)).Ok?
    ensures Parse(Print(Parse(s).value, size, 0)).value == Plain(Parse(s).value)
  {
    ValueLands(s, 0);
    LandedBack(Parse(s).value);
    ParseOfPrint(Parse(s).value, size);
  }
}
