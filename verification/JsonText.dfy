// The values of src/json.c, the text its writer produces and what its parser makes of a text.
module JsonText {
  import opened Fmt

  // Strings are C strings without their terminator. A float is known only by its text.
  datatype Value =
    | Null
    | Bool(b: bool)
    | U64(n: nat)
    | I64(i: int)
    | F64(lexeme: string)
    | Str(s: string)
    | Array(elems: seq<Value>)
    | Dict(fields: seq<Field>)

  datatype Field = Field(key: string, value: Value)

  // ----- printing -----

  function Spaces(n: nat): (r: string)
    ensures |r| == n && forall k | 0 <= k < n :: r[k] == ' '
  {
    if n == 0 then "" else " " + Spaces(n - 1)
  }

  // json_char_is_escaped and json_escaped_to_char: the single quote is listed but not escaped.
  function EscapeChar(c: char): string {
    if c == '\"' then "\\\""
    else if c == '\\' then "\\\\"
    else if c == '\n' then "\\n"
    else if c == '\r' then "\\r"
    else if c == '\t' then "\\t"
    else if c == '\U{0008}' then "\\b"
    else if c == '\U{000C}' then "\\f"
    else if c == '\U{000B}' then "\\v"
    else [c]
  }

  function Escape(s: string): string {
    if s == "" then "" else EscapeChar(s[0]) + Escape(s[1..])
  }

  function Quote(s: string): string {
    "\"" + Escape(s) + "\""
  }

  // What the writer puts before an element, and at the end of a container.
  function Sep(size: nat, indent: nat): string {
    if size > 0 then "\n" + Spaces(indent) else ""
  }

  function Print(v: Value, size: nat, indent: nat): string
    decreases v
  {
    match v
    case Null => "null"
    case Bool(b) => if b then "true" else "false"
    case U64(n) => Decimal(n)
    case I64(i) => DecimalI64(i)
    case F64(lexeme) => lexeme
    case Str(s) => Quote(s)
    case Array(elems) =>
      "[" + (if elems == [] then "" else
             Sep(size, indent + size) + Print(elems[0], size, indent + size) +
                 PrintRest(elems[1..], size, indent + size))
      + Sep(size, indent) + "]"
    case Dict(fields) =>
      "{" + (if fields == [] then "" else
             Sep(size, indent + size) + PrintField(fields[0], size, indent + size)
             + PrintFields(fields[1..], size, indent + size))
      + Sep(size, indent) + "}"
  }

  function PrintRest(elems: seq<Value>, size: nat, indent: nat): string
    decreases elems
  {
    if elems == [] then ""
    else "," + Sep(size, indent) + Print(elems[0], size, indent) + PrintRest(elems[1..], size, indent)
  }

  function PrintFields(fields: seq<Field>, size: nat, indent: nat): string
    decreases fields
  {
    if fields == [] then ""
    else "," + Sep(size, indent) + PrintField(fields[0], size, indent) + PrintFields(fields[1..], size, indent)
  }

  function PrintField(f: Field, size: nat, indent: nat): string
    decreases f
  {
    Quote(f.key) + (": " + Print(f.value, size, indent))
  }

  // ----- parsing -----

  // Overflow: the parser's signed accumulator has overflowed, which C leaves undefined.
  datatype Parsed<T> = Ok(value: T, pos: nat) | Reject | Overflow

  predicate IsSpace(c: char) {
    c == ' ' || c == '\t' || c == '\n' || c == '\r'
  }

  predicate IsDigit(c: char) {
    '0' <= c <= '9'
  }

  function SkipSpace(s: string, p: nat): (r: nat)
    requires p <= |s|
    ensures p <= r <= |s|
    ensures r < |s| ==> !IsSpace(s[r])
    decreases |s| - p
  {
    if p < |s| && IsSpace(s[p]) then SkipSpace(s, p + 1) else p
  }

  // The next escape unit of a string body: 1 for a plain character, 2 for an escape, 6 for \u.
  function UnitSize(s: string, p: nat): nat
    requires p < |s|
  {
    if s[p] != '\\' then 1 else if p + 1 < |s| && s[p + 1] == 'u' then 6 else 2
  }

  // The measuring pass: the number of units up to the closing quote and where that quote is.
  function Measure(s: string, p: nat): (r: Parsed<nat>)
    ensures r.Ok? ==> p <= r.pos < |s| && s[r.pos] == '\"' && r.value <= r.pos - p
    decreases |s| - p
  {
    if p >= |s| then Reject
    else if s[p] == '\"' then Ok(0, p)
    else if s[p] == '\\' && p + UnitSize(s, p) > |s| then Reject
    else if s[p] != '\\' && s[p] < ' ' then Reject
    else
      var r := Measure(s, p + UnitSize(s, p));
      if r.Ok? then Ok(r.value + 1, r.pos) else r
  }

  // What one unit decodes to; an escape that is not listed decodes to nothing.
  function DecodeUnit(s: string, p: nat): string
    requires p < |s|
  {
    if s[p] != '\\' then [s[p]]
    else if p + 1 >= |s| then ""
    else match s[p + 1]
      case '\"' => "\""
      case '\\' => "\\"
      case '/' => "/"
      case 'b' => "\U{0008}"
      case 'f' => "\U{000C}"
      case 'n' => "\n"
      case 'r' => "\r"
      case 't' => "\t"
      case 'u' => "?"
      case _ => ""
  }

  function Decode(s: string, p: nat, end: nat): string
    requires end <= |s|
    decreases end - p
  {
    if p >= end then "" else DecodeUnit(s, p) + Decode(s, p + UnitSize(s, p), end)
  }

  function ParseString(s: string, p: nat): (r: Parsed<string>)
    ensures r.Ok? ==> p < r.pos <= |s|
    ensures !r.Overflow?
  {
    if p >= |s| || s[p] != '\"' then Reject
    else
      var m := Measure(s, p + 1);
      if m.Ok? then Ok(Decode(s, p + 1, m.pos), m.pos + 1) else Reject
  }

  function DigitsEnd(s: string, p: nat): (r: nat)
    requires p <= |s|
    ensures p <= r <= |s|
    ensures forall k | p <= k < r :: IsDigit(s[k])
    ensures r < |s| ==> !IsDigit(s[r])
    decreases |s| - p
  {
    if p < |s| && IsDigit(s[p]) then DigitsEnd(s, p + 1) else p
  }

  // The digits of s[p..q] accumulated onto n; None once the accumulator exceeds INT64_MAX.
  datatype Acc = Num(n: nat) | TooBig

  function Accumulate(s: string, p: nat, q: nat, n: nat): Acc
    requires p <= q <= |s| && forall k | p <= k < q :: IsDigit(s[k])
    decreases q - p
  {
    if p == q then Num(n)
    else
      assert IsDigit(s[p]);
      var n': nat := n * 10 + (s[p] as int - '0' as int);
      if n' >= TWO63 then TooBig else Accumulate(s, p + 1, q, n')
  }

  // The end of an optional fraction, or None if a digit is missing.
  function FractionEnd(s: string, p: nat): (r: int)
    requires p <= |s|
    ensures r == -1 || p <= r <= |s|
  {
    if p < |s| && s[p] == '.' then
      if p + 1 < |s| && IsDigit(s[p + 1]) then DigitsEnd(s, p + 1) else -1
    else p
  }

  function ExponentEnd(s: string, p: nat): (r: int)
    requires p <= |s|
    ensures r == -1 || p <= r <= |s|
  {
    if p < |s| && (s[p] == 'e' || s[p] == 'E') then
      var q := if p + 1 < |s| && (s[p + 1] == '-' || s[p + 1] == '+') then p + 2 else p + 1;
      if q < |s| && IsDigit(s[q]) then DigitsEnd(s, q) else -1
    else p
  }

  function ParseNumber(s: string, p: nat): (r: Parsed<Value>)
    requires p <= |s|
    ensures r.Ok? ==> p < r.pos <= |s|
  {
    var neg := p < |s| && s[p] == '-';
    var d := if neg then p + 1 else p;
    if d >= |s| || !IsDigit(s[d]) then Reject
    else
      var q := DigitsEnd(s, d);
      var a := Accumulate(s, d, q, 0);
      if a.TooBig? then Overflow
      else
        var f := FractionEnd(s, q);
        if f < 0 then Reject
        else
          var e := ExponentEnd(s, f);
          if e < 0 then Reject
          else if e != q then Ok(F64(s[p..e]), e)
          else Ok(if neg then I64(-(a.n as int)) else U64(a.n), e)
  }

  predicate Matches(s: string, p: nat, t: string) {
    p + |t| <= |s| && s[p..p + |t|] == t
  }

  function ParseLiteral(s: string, p: nat): (r: Parsed<Value>)
    ensures r.Ok? ==> p < r.pos <= |s|
  {
    if Matches(s, p, "null") then Ok(Null, p + 4)
    else if Matches(s, p, "true") then Ok(Bool(true), p + 4)
    else if Matches(s, p, "false") then Ok(Bool(false), p + 5)
    else Reject
  }

  function ParseValue(s: string, p: nat): (r: Parsed<Value>)
    requires p <= |s|
    ensures r.Ok? ==> p < r.pos <= |s|
    decreases |s| - p, 2
  {
    var q := SkipSpace(s, p);
    if q >= |s| then Reject
    else if s[q] == '\"' then
      match ParseString(s, q)
      case Ok(t, e) => Ok(Str(t), e)
      case Reject => Reject
      case Overflow => Overflow
    else if s[q] == '{' then ParseDict(s, q)
    else if s[q] == '[' then ParseArray(s, q)
    else if s[q] == '-' || IsDigit(s[q]) then ParseNumber(s, q)
    else if s[q] == 't' || s[q] == 'f' || s[q] == 'n' then ParseLiteral(s, q)
    else Reject
  }

  function ParseArray(s: string, p: nat): (r: Parsed<Value>)
    requires p < |s|
    ensures r.Ok? ==> p < r.pos <= |s|
    decreases |s| - p, 1
  {
    if s[p] != '[' then Reject
    else
      var q := SkipSpace(s, p + 1);
      if q < |s| && s[q] == ']' then Ok(Array([]), q + 1)
      else
        match ParseElems(s, q)
        case Ok(vs, e) => Ok(Array(vs), e)
        case Reject => Reject
        case Overflow => Overflow
  }

  function ParseElems(s: string, p: nat): (r: Parsed<seq<Value>>)
    requires p <= |s|
    ensures r.Ok? ==> p < r.pos <= |s|
    decreases |s| - p, 3
  {
    if p >= |s| then Reject
    else
      match ParseValue(s, p)
      case Reject => Reject
      case Overflow => Overflow
      case Ok(v, e) =>
        var q := SkipSpace(s, e);
        if q >= |s| then Reject
        else if s[q] == ',' then
          match ParseElems(s, SkipSpace(s, q + 1))
          case Ok(vs, e') => Ok([v] + vs, e')
          case Reject => Reject
          case Overflow => Overflow
        else if s[q] == ']' then Ok([v], q + 1)
        else Reject
  }

  function ParseDict(s: string, p: nat): (r: Parsed<Value>)
    requires p < |s|
    ensures r.Ok? ==> p < r.pos <= |s|
    decreases |s| - p, 1
  {
    if s[p] != '{' then Reject
    else
      var q := SkipSpace(s, p + 1);
      if q < |s| && s[q] == '}' then Ok(Dict([]), q + 1)
      else
        match ParseFields(s, q)
        case Ok(fs, e) => Ok(Dict(fs), e)
        case Reject => Reject
        case Overflow => Overflow
  }

  function ParseField(s: string, p: nat): (r: Parsed<Field>)
    requires p <= |s|
    ensures r.Ok? ==> p < r.pos <= |s|
    decreases |s| - p, 3
  {
    var k := SkipSpace(s, p);
    match ParseString(s, k)
    case Reject => Reject
    case Overflow => Overflow
    case Ok(key, e) =>
      var c := SkipSpace(s, e);
      if c >= |s| || s[c] != ':' then Reject
      else
        match ParseValue(s, SkipSpace(s, c + 1))
        case Reject => Reject
        case Overflow => Overflow
        case Ok(v, e') => Ok(Field(key, v), e')
  }

  function ParseFields(s: string, p: nat): (r: Parsed<seq<Field>>)
    requires p <= |s|
    ensures r.Ok? ==> p < r.pos <= |s|
    decreases |s| - p, 4
  {
    if p >= |s| then Reject
    else
      match ParseField(s, p)
      case Reject => Reject
      case Overflow => Overflow
      case Ok(f, e) =>
        var q := SkipSpace(s, e);
        if q >= |s| then Reject
        else if s[q] == ',' then
          match ParseFields(s, SkipSpace(s, q + 1))
          case Ok(fs, e') => Ok([f] + fs, e')
          case Reject => Reject
          case Overflow => Overflow
        else if s[q] == '}' then Ok([f], q + 1)
        else Reject
  }

  function Parse(s: string): Parsed<Value> {
    if s == "" then Reject
    else
      var r := ParseValue(s, 0);
      if r.Ok? && SkipSpace(s, r.pos) != |s| then Reject else r
  }
}
