// The documents the parser of src/json.c accepts, as a grammar: RFC 8259, sections 2 to 7, with the
// places where the parser is more generous named.
module JsonGrammar {
  import opened Fmt
  import opened JsonText
  import opened JsonRoundTrip

  // ----- the grammar -----

  // Section 2: any mix of the four blanks.
  ghost predicate White(t: string) {
    forall k | 0 <= k < |t| :: t[k] == ' ' || t[k] == '\t' || t[k] == '\n' || t[k] == '\r'
  }

  ghost predicate Digits(t: string) {
    t != "" && forall k | 0 <= k < |t| :: '0' <= t[k] <= '9'
  }

  ghost function NumberOf(t: string): int {
    if t == "" then 0 else 10 * NumberOf(t[..|t| - 1]) + (t[|t| - 1] as int - '0' as int)
  }

  // Section 6, but leading zeros are accepted. From 2^63 on the parser's accumulator overflows.
  ghost predicate Whole(t: string, n: int) {
    Digits(t) && NumberOf(t) == n && n < TWO63
  }

  ghost predicate Fraction(t: string) {
    t == "" || (t[0] == '.' && Digits(t[1..]))
  }

  ghost predicate Exponent(t: string) {
    t == "" || ((t[0] == 'e' || t[0] == 'E') &&
                (Digits(t[1..]) || (|t| >= 2 && (t[1] == '-' || t[1] == '+') && Digits(t[2..]))))
  }

  ghost predicate FloatParts(m: string, f: string, e: string) {
    Whole(m, NumberOf(m)) && Fraction(f) && Exponent(e) && f + e != ""
  }

  // A number with a fraction or an exponent is kept as its text.
  ghost predicate FloatText(t: string) {
    exists m, f, e :: FloatParts(m, f, e) && (t == m + f + e || t == "-" + (m + f + e))
  }

  // Section 7, the escapes.
  function Escaped(c: char): string {
    if c == '\"' || c == '\\' || c == '/' then [c]
    else if c == 'b' then "\U{0008}"
    else if c == 'f' then "\U{000C}"
    else if c == 'n' then "\U{000A}"
    else if c == 'r' then "\U{000D}"
    else if c == 't' then "\U{0009}"
    else ""
  }

  // Section 7, the characters of a string. The parser drops an escape it does not know, and takes any
  // four characters after \u, which it turns into a question mark.
  ghost predicate Body(t: string, s: string)
    decreases |t|
  {
    if t == "" then s == ""
    else if t[0] != '\\' then t[0] != '\"' && t[0] >= ' ' && s != "" && s[0] == t[0] && Body(t[1..], s[1..])
    else if |t| < 2 then false
    else if t[1] == 'u' then |t| >= 6 && s != "" && s[0] == '?' && Body(t[6..], s[1..])
    else if Escaped(t[1]) == "" then Body(t[2..], s)
    else s != "" && s[0] == Escaped(t[1])[0] && Body(t[2..], s[1..])
  }

  ghost predicate StringText(t: string, s: string) {
    |t| >= 2 && t[0] == '\"' && t[|t| - 1] == '\"' && Body(t[1..|t| - 1], s)
  }

  // Section 3.
  ghost predicate ValueText(t: string, v: Value)
    decreases v, 0
  {
    match v
    case Null => t == "null"
    case Bool(b) => t == if b then "true" else "false"
    case U64(n) => Whole(t, n)
    case I64(i) => t != "" && t[0] == '-' && Whole(t[1..], -1 * i)
    case F64(lexeme) => t == lexeme && FloatText(t)
    case Str(s) => StringText(t, s)
    case Array(vs) => exists e :: t == "[" + e + "]" && if vs == [] then White(e) else Elements(e, vs)
    case Dict(fs) => exists e :: t == "{" + e + "}" && if fs == [] then White(e) else Members(e, fs)
  }

  // Blanks are allowed before and after every token.
  ghost predicate Padded(t: string, v: Value)
    decreases v, 1
  {
    exists a, x, b :: White(a) && ValueText(x, v) && White(b) && t == a + x + b
  }

  // Section 5.
  ghost predicate Elements(t: string, vs: seq<Value>)
    requires vs != []
    decreases vs, 0
  {
    if |vs| == 1 then Padded(t, vs[0])
    else exists a, b :: Padded(a, vs[0]) && Elements(b, vs[1..]) && t == a + "," + b
  }

  // Section 4; the order of the members and duplicate keys are kept.
  ghost predicate Members(t: string, fs: seq<Field>)
    requires fs != []
    decreases fs, 0
  {
    if |fs| == 1 then Member(t, fs[0])
    else exists a, b :: Member(a, fs[0]) && Members(b, fs[1..]) && t == a + "," + b
  }

  ghost predicate Member(t: string, f: Field)
    decreases f, 0
  {
    exists a, k, b, x ::
      White(a) && StringText(k, f.key) && White(b) && Padded(x, f.value) && t == a + k + b + ":" + x
  }

  // Section 2: a document is a value.
  ghost predicate Derives(t: string, v: Value) {
    Padded(t, v)
  }

  // ----- blanks -----

  lemma {:induction false} SkipIsWhite(s: string, p: nat)
    requires p <= |s|
    ensures White(s[p..SkipSpace(s, p)])
    decreases |s| - p
  {
    if p < |s| && IsSpace(s[p]) {
      SkipIsWhite(s, p + 1);
      assert s[p..SkipSpace(s, p)] == [s[p]] + s[p + 1..SkipSpace(s, p + 1)];
    }
  }

  lemma {:induction false} WhiteSkips(s: string, p: nat, w: string)
    requires Matches(s, p, w) && White(w)
    ensures SkipSpace(s, p) == SkipSpace(s, p + |w|)
    decreases |w|
  {
    if w != "" {
      MatchAt(s, p, w, 0);
      assert w == [w[0]] + w[1..];
      Split(s, p, [w[0]], w[1..]);
      WhiteSkips(s, p + 1, w[1..]);
    }
  }

  lemma WhiteJoin(a: string, b: string)
    requires White(a) && White(b)
    ensures White(a + b)
  {
  }

  // ----- strings -----

  lemma UnitText(s: string, p: nat, e: nat)
    requires p < e <= |s| && p + UnitSize(s, p) <= e
    requires s[p] != '\"' && !(s[p] != '\\' && s[p] < ' ') && (s[p] == '\\' ==> p + 1 < e)
    ensures forall u: string ::
              Body(s[p + UnitSize(s, p)..e], u) ==> Body(s[p..e], DecodeUnit(s, p) + u)
  {
    var t := s[p..e];
    assert t[0] == s[p] && (s[p] == '\\' ==> t[1] == s[p + 1]);
    assert t[UnitSize(s, p)..] == s[p + UnitSize(s, p)..e];
    forall u: string | Body(s[p + UnitSize(s, p)..e], u) ensures Body(t, DecodeUnit(s, p) + u) {
      var d := DecodeUnit(s, p);
      if d == "" {
        assert d + u == u;
      } else {
        assert |d| == 1 && (d + u)[0] == d[0] && (d + u)[1..] == u;
      }
    }
  }

  lemma {:induction false} BodySound(s: string, p: nat)
    requires Measure(s, p).Ok?
    ensures Body(s[p..Measure(s, p).pos], Decode(s, p, Measure(s, p).pos))
    decreases |s| - p
  {
    hide Body, DecodeUnit;
    var e := Measure(s, p).pos;
    if s[p] == '\"' {
      EmptyBody();
      assert s[p..e] == "";
    } else {
      BodySound(s, p + UnitSize(s, p));
      UnitText(s, p, e);
    }
  }

  lemma EmptyBody()
    ensures Body("", "")
  {
  }

  // The unit at the beginning of a body, and the rest.
  lemma UnitParsed(s: string, p: nat, t: string, u: string)
    requires Matches(s, p, t) && Body(t, u) && t != ""
    ensures p + UnitSize(s, p) <= p + |t| && s[p] != '\"' && !(s[p] != '\\' && s[p] < ' ')
    ensures |DecodeUnit(s, p)| <= |u| && u[..|DecodeUnit(s, p)|] == DecodeUnit(s, p)
    ensures Body(t[UnitSize(s, p)..], u[|DecodeUnit(s, p)|..])
  {
    MatchAt(s, p, t, 0);
    if t[0] == '\\' {
      MatchAt(s, p, t, 1);
      if Escaped(t[1]) == "" && t[1] != 'u' { assert u[0..] == u; }
    }
  }

  lemma {:induction false} BodyComplete(s: string, p: nat, t: string, u: string)
    requires Matches(s, p, t + "\"") && Body(t, u)
    ensures Measure(s, p).Ok? && Measure(s, p).pos == p + |t| && Decode(s, p, p + |t|) == u
    decreases |t|
  {
    hide Body, DecodeUnit, UnitSize, Escaped, Matches, Measure, Decode;
    if t == "" {
      assert t + "\"" == "\"";
      NoBody(u);
      QuoteEnds(s, p);
    } else {
      Split(s, p, t, "\"");
      MatchesFit(s, p, t);
      UnitParsed(s, p, t, u);
      var n, d := UnitSize(s, p), DecodeUnit(s, p);
      UnitPositive(s, p);
      SplitLater(s, p, t, n);
      BodyComplete(s, p + n, t[n..], u[|d|..]);
      MeasureStep(s, p, n, p + |t|);
      assert u == d + u[|d|..];
    }
  }

  lemma SplitLater(s: string, p: nat, t: string, n: nat)
    requires Matches(s, p, t + "\"") && n <= |t|
    ensures Matches(s, p + n, t[n..] + "\"")
  {
    assert t + "\"" == t[..n] + (t[n..] + "\"");
    Split(s, p, t[..n], t[n..] + "\"");
  }

  lemma NoBody(u: string)
    requires Body("", u)
    ensures u == ""
  {
  }

  lemma UnitPositive(s: string, p: nat)
    requires p < |s|
    ensures UnitSize(s, p) > 0
  {
  }

  lemma StringSound(s: string, p: nat)
    requires ParseString(s, p).Ok?
    ensures StringText(s[p..ParseString(s, p).pos], ParseString(s, p).value)
  {
    hide Body, Decode;
    var e := Measure(s, p + 1).pos;
    BodySound(s, p + 1);
    var t := s[p..e + 1];
    assert t[1..|t| - 1] == s[p + 1..e];
  }

  lemma StringComplete(s: string, p: nat, t: string, u: string)
    requires Matches(s, p, t) && StringText(t, u)
    ensures s[p] == '\"' && ParseString(s, p) == Ok(u, p + |t|)
  {
    hide Body, Decode, Measure;
    var b := t[1..|t| - 1];
    MatchAt(s, p, t, 0);
    assert t == "\"" + (b + "\"");
    Split(s, p, "\"", b + "\"");
    BodyComplete(s, p + 1, b, u);
  }

  // ----- numbers -----

  lemma {:induction false} AccumulateIs(s: string, p: nat, q: nat)
    requires p <= q <= |s| && forall k | p <= k < q :: IsDigit(s[k])
    ensures NumberOf(s[p..q]) >= 0
    ensures Accumulate(s, p, q, 0) == if NumberOf(s[p..q]) < TWO63 then Num(NumberOf(s[p..q])) else TooBig
    decreases q - p
  {
    var t := s[p..q];
    if p < q {
      AccumulateIs(s, p, q - 1);
      AccumulateSplit(s, p, q - 1, q, 0);
      assert t[..|t| - 1] == s[p..q - 1] && t[|t| - 1] == s[q - 1];
      assert IsDigit(s[q - 1]);
    }
  }

  // A run of digits in the text.
  lemma DigitsAt(s: string, p: nat, t: string)
    requires Matches(s, p, t) && Digits(t)
    ensures forall k | p <= k < p + |t| :: IsDigit(s[k])
    ensures s[p..p + |t|] == t
  {
    forall k | p <= k < p + |t| ensures IsDigit(s[k]) { MatchAt(s, p, t, k - p); }
  }

  lemma DigitsComplete(s: string, p: nat, t: string)
    requires Matches(s, p, t) && Digits(t) && (p + |t| < |s| ==> !IsDigit(s[p + |t|]))
    ensures IsDigit(s[p]) && DigitsEnd(s, p) == p + |t|
  {
    DigitsAt(s, p, t);
    DigitsRun(s, p, p + |t|);
  }

  lemma WholeComplete(s: string, p: nat, t: string)
    requires Matches(s, p, t) && Whole(t, NumberOf(t)) && (p + |t| < |s| ==> !IsDigit(s[p + |t|]))
    ensures p < |s| && IsDigit(s[p]) && DigitsEnd(s, p) == p + |t| && NumberOf(t) >= 0
    ensures Accumulate(s, p, p + |t|, 0) == Num(NumberOf(t))
  {
    DigitsComplete(s, p, t);
    DigitsAt(s, p, t);
    AccumulateIs(s, p, p + |t|);
  }

  lemma DigitsSound(s: string, p: nat)
    requires p < |s| && IsDigit(s[p])
    ensures Digits(s[p..DigitsEnd(s, p)])
  {
    var t := s[p..DigitsEnd(s, p)];
    forall k | 0 <= k < |t| ensures '0' <= t[k] <= '9' { assert IsDigit(s[p + k]); }
  }

  lemma FractionSound(s: string, p: nat)
    requires p <= |s| && FractionEnd(s, p) >= 0
    ensures Fraction(s[p..FractionEnd(s, p)])
  {
    var e := FractionEnd(s, p);
    if p < |s| && s[p] == '.' {
      DigitsSound(s, p + 1);
      assert s[p..e][1..] == s[p + 1..e];
    }
  }

  lemma FractionComplete(s: string, p: nat, f: string)
    requires Matches(s, p, f) && Fraction(f) && (p + |f| < |s| ==> !IsDigit(s[p + |f|]) && s[p + |f|] != '.')
    ensures FractionEnd(s, p) == p + |f|
  {
    if f != "" {
      MatchAt(s, p, f, 0);
      assert f == [f[0]] + f[1..];
      Split(s, p, [f[0]], f[1..]);
      DigitsComplete(s, p + 1, f[1..]);
    }
  }

  lemma ExponentSound(s: string, p: nat)
    requires p <= |s| && ExponentEnd(s, p) >= 0
    ensures Exponent(s[p..ExponentEnd(s, p)])
  {
    var e := ExponentEnd(s, p);
    var t := s[p..e];
    if p < |s| && (s[p] == 'e' || s[p] == 'E') {
      var q := if p + 1 < |s| && (s[p + 1] == '-' || s[p + 1] == '+') then p + 2 else p + 1;
      DigitsSound(s, q);
      assert t[q - p..] == s[q..e];
      assert t[0] == s[p] && t[1] == s[p + 1];
    }
  }

  lemma ExponentComplete(s: string, p: nat, e: string)
    requires Matches(s, p, e) && Exponent(e) && Stops(s, p + |e|)
    ensures ExponentEnd(s, p) == p + |e|
  {
    hide Matches, Digits;
    if e != "" {
      MatchesFit(s, p, e);
      MatchAt(s, p, e, 0);
      if Digits(e[1..]) {
        ExponentDigits(s, p, e, 1);
      } else {
        MatchAt(s, p, e, 1);
        ExponentDigits(s, p, e, 2);
      }
    }
  }

  // The digits of an exponent, from its character k on.
  lemma ExponentDigits(s: string, p: nat, e: string, k: nat)
    requires Matches(s, p, e) && k <= |e| && Digits(e[k..]) && Stops(s, p + |e|)
    ensures k < |e| && p + k < |s| && IsDigit(s[p + k]) && DigitsEnd(s, p + k) == p + |e|
  {
    hide DigitsEnd;
    assert e == e[..k] + e[k..];
    Split(s, p, e[..k], e[k..]);
    DigitsComplete(s, p + k, e[k..]);
  }

  // The pieces the parser finds in a number.
  lemma NumberParts(s: string, p: nat) returns (neg: bool, d: nat, q: nat, f: nat, e: nat)
    requires p <= |s| && ParseNumber(s, p).Ok?
    ensures neg == (s[p] == '-') && d == (if neg then p + 1 else p) && p <= d < q <= f <= e <= |s|
    ensures Digits(s[d..q]) && (forall k | d <= k < q :: IsDigit(s[k])) && Accumulate(s, d, q, 0).Num?
    ensures Fraction(s[q..f]) && Exponent(s[f..e])
    ensures ParseNumber(s, p) ==
            var n := Accumulate(s, d, q, 0).n;
            Ok(if e != q then F64(s[p..e]) else if neg then I64(-1 * n) else U64(n), e)
  {
    hide Accumulate, Fraction, Exponent, Digits;
    neg := s[p] == '-';
    d := if neg then p + 1 else p;
    q := DigitsEnd(s, d);
    DigitsSound(s, d);
    f := FractionEnd(s, q);
    FractionSound(s, q);
    e := ExponentEnd(s, f);
    ExponentSound(s, f);
  }

  lemma NumberSound(s: string, p: nat)
    requires p <= |s| && ParseNumber(s, p).Ok?
    ensures ValueText(s[p..ParseNumber(s, p).pos], ParseNumber(s, p).value)
  {
    hide Accumulate, Fraction, Exponent, Digits, NumberOf, ParseNumber;
    var neg, d, q, f, e := NumberParts(s, p);
    AccumulateIs(s, d, q);
    var t := s[p..e];
    if e == q {
      if neg { assert t[1..] == s[d..q]; }
    } else {
      JoinFloat(s, p, d, q, f, e);
    }
  }

  lemma JoinFloat(s: string, p: nat, d: nat, q: nat, f: nat, e: nat)
    requires p <= d <= q <= f <= e <= |s| && q != e && Whole(s[d..q], NumberOf(s[d..q]))
    requires Fraction(s[q..f]) && Exponent(s[f..e]) && (d == p || (d == p + 1 && s[p] == '-'))
    ensures FloatText(s[p..e])
  {
    hide Fraction, Exponent, Digits, NumberOf, Whole;
    var a, b, c := s[d..q], s[q..f], s[f..e];
    assert |b + c| == e - q;
    assert FloatParts(a, b, c);
    assert s[d..e] == a + b + c;
    assert s[p..e] == if d == p then s[d..e] else "-" + s[d..e];
  }

  lemma IntegerEnds(s: string, p: nat, d: nat, q: nat, n: nat)
    requires p <= d < |s| && IsDigit(s[d]) && DigitsEnd(s, d) == q && Accumulate(s, d, q, 0) == Num(n) && Stops(s, q)
    requires if d == p then true else d == p + 1 && s[p] == '-'
    ensures ParseNumber(s, p) == Ok(if d == p then U64(n) else I64(-1 * n), q)
  {
    hide Accumulate, DigitsEnd;
    assert FractionEnd(s, q) == q && ExponentEnd(s, q) == q;
  }

  lemma UnsignedComplete(s: string, p: nat, t: string)
    requires Matches(s, p, t) && Whole(t, NumberOf(t)) && Stops(s, p + |t|)
    ensures IsDigit(s[p]) && NumberOf(t) >= 0
    ensures ParseNumber(s, p) == Ok(U64(NumberOf(t)), p + |t|)
  {
    hide Accumulate, DigitsEnd, NumberOf, Whole, ParseNumber, Matches;
    WholeComplete(s, p, t);
    MatchesFit(s, p, t);
    var n := NumberOf(t);
    IntegerEnds(s, p, p, p + |t|, n);
  }

  lemma SignedComplete(s: string, p: nat, t: string)
    requires Matches(s, p, "-" + t) && Whole(t, NumberOf(t)) && Stops(s, p + 1 + |t|)
    ensures s[p] == '-' && ParseNumber(s, p) == Ok(I64(-1 * NumberOf(t)), p + 1 + |t|)
  {
    hide Accumulate, DigitsEnd, NumberOf, Whole, ParseNumber, Matches;
    Split(s, p, "-", t);
    MatchesFit(s, p, "-" + t);
    MatchAt(s, p, "-", 0);
    WholeComplete(s, p + 1, t);
    var n := NumberOf(t);
    IntegerEnds(s, p, p + 1, p + 1 + |t|, n);
  }

  lemma FirstMarks(f: string, e: string)
    requires Fraction(f) && Exponent(e)
    ensures f != "" ==> f[0] == '.'
    ensures e != "" ==> e[0] == 'e' || e[0] == 'E'
  {
    hide Digits;
  }

  // The pieces of a float, each at its place.
  lemma FloatPieces(s: string, p: nat, m: string, f: string, e: string, q: nat, r: nat)
    requires Matches(s, p, m) && Matches(s, q, f) && Matches(s, r, e) && q == p + |m| && r == q + |f|
    requires FloatParts(m, f, e) && Stops(s, r + |e|)
    ensures IsDigit(s[p]) && DigitsEnd(s, p) == q && NumberOf(m) >= 0 && Accumulate(s, p, q, 0) == Num(NumberOf(m))
    ensures FractionEnd(s, q) == r && ExponentEnd(s, r) == r + |e| && r + |e| > q
  {
    hide Accumulate, DigitsEnd, FractionEnd, ExponentEnd, NumberOf, Digits, Fraction, Exponent, Whole, Matches;
    FirstMarks(f, e);
    MatchesFit(s, q, f);
    MatchesFit(s, r, e);
    if f != "" { MatchAt(s, q, f, 0); }
    if e != "" { MatchAt(s, r, e, 0); }
    assert |f + e| == |f| + |e|;
    WholeComplete(s, p, m);
    FractionComplete(s, q, f);
    ExponentComplete(s, r, e);
  }

  lemma FloatAt(s: string, p: nat, d: nat, m: string, f: string, e: string)
    requires Matches(s, d, m + f + e) && FloatParts(m, f, e) && Stops(s, d + |m + f + e|)
    requires if p == d then true else d == p + 1 && s[p] == '-'
    ensures (s[p] == '-' || IsDigit(s[p])) && ParseNumber(s, p) == Ok(F64(s[p..d + |m + f + e|]), d + |m + f + e|)
  {
    hide Accumulate, DigitsEnd, FractionEnd, ExponentEnd, NumberOf, FloatParts, Matches;
    Split(s, d, m + f, e);
    Split(s, d, m, f);
    FloatPieces(s, d, m, f, e, d + |m|, d + |m| + |f|);
  }

  lemma FloatComplete(s: string, p: nat, t: string)
    requires Matches(s, p, t) && FloatText(t) && Stops(s, p + |t|)
    ensures (s[p] == '-' || IsDigit(s[p])) && ParseNumber(s, p) == Ok(F64(t), p + |t|)
  {
    hide FloatParts, ParseNumber;
    var m, f, e :| FloatParts(m, f, e) && (t == m + f + e || t == "-" + (m + f + e));
    assert s[p..p + |t|] == t;
    if t == m + f + e {
      FloatAt(s, p, p, m, f, e);
    } else {
      Split(s, p, "-", m + f + e);
      MatchAt(s, p, "-", 0);
      FloatAt(s, p, p + 1, m, f, e);
    }
  }

  // ----- slices -----

  lemma Slices(s: string, p: nat, q: nat, r: nat)
    requires p <= q <= r <= |s|
    ensures s[p..q] + s[q..r] == s[p..r]
  {
  }

  lemma SliceAround(s: string, p: nat, q: nat, r: nat, c: char)
    requires p <= q < r <= |s| && s[q] == c
    ensures s[p..r] == s[p..q] + [c] + s[q + 1..r]
  {
  }

  lemma SliceBetween(s: string, p: nat, r: nat, open: char, close: char)
    requires p + 2 <= r <= |s| && s[p] == open && s[r - 1] == close
    ensures s[p..r] == [open] + s[p + 1..r - 1] + [close]
  {
  }

  // ----- soundness: what the parser accepts is derived -----

  // The piece of s from p to e is a value, after blanks, and so is the padded piece up to q.
  lemma PadSound(s: string, p: nat, w: nat, e: nat, q: nat, v: Value)
    requires p <= w <= e <= q <= |s| && White(s[p..w]) && ValueText(s[w..e], v) && White(s[e..q])
    ensures Padded(s[p..q], v)
  {
    hide White, ValueText;
    assert s[p..q] == s[p..w] + s[w..e] + s[e..q];
  }

  lemma {:induction false} ElementsPad(w: string, t: string, vs: seq<Value>)
    requires vs != [] && White(w) && Elements(t, vs)
    ensures Elements(w + t, vs)
    decreases vs
  {
    hide White, ValueText;
    if |vs| == 1 {
      PaddedPad(w, t, vs[0]);
    } else {
      var a, b :| Padded(a, vs[0]) && Elements(b, vs[1..]) && t == a + "," + b;
      PaddedPad(w, a, vs[0]);
      assert w + t == w + a + "," + b;
    }
  }

  lemma PaddedPad(w: string, t: string, v: Value)
    requires White(w) && Padded(t, v)
    ensures Padded(w + t, v)
  {
    hide ValueText;
    var a, x, b :| White(a) && ValueText(x, v) && White(b) && t == a + x + b;
    WhiteJoin(w, a);
    assert w + t == (w + a) + x + b;
  }

  lemma MemberPad(w: string, t: string, f: Field)
    requires White(w) && Member(t, f)
    ensures Member(w + t, f)
  {
    hide StringText, Padded;
    var a, k, b, x :|
      White(a) && StringText(k, f.key) && White(b) && Padded(x, f.value) && t == a + k + b + ":" + x;
    WhiteJoin(w, a);
    assert w + t == (w + a) + k + b + ":" + x;
  }

  lemma {:induction false} MembersPad(w: string, t: string, fs: seq<Field>)
    requires fs != [] && White(w) && Members(t, fs)
    ensures Members(w + t, fs)
    decreases fs
  {
    hide White, Member;
    if |fs| == 1 {
      MemberPad(w, t, fs[0]);
    } else {
      var a, b :| Member(a, fs[0]) && Members(b, fs[1..]) && t == a + "," + b;
      MemberPad(w, a, fs[0]);
      assert w + t == w + a + "," + b;
    }
  }

  lemma {:induction false} ValueSound(s: string, p: nat)
    requires p <= |s| && ParseValue(s, p).Ok?
    ensures var e, w := ParseValue(s, p).pos, SkipSpace(s, p); w <= e && ValueText(s[w..e], ParseValue(s, p).value)
    decreases |s| - p, 2
  {
    hide ParseString, ParseNumber, ParseArray, ParseDict, SkipSpace, Body, FloatText, Whole;
    var w := SkipSpace(s, p);
    if s[w] == '\"' {
      StringSound(s, w);
    } else if s[w] == '{' {
      DictSound(s, w);
    } else if s[w] == '[' {
      ArraySound(s, w);
    } else if s[w] == '-' || IsDigit(s[w]) {
      NumberSound(s, w);
    }
  }

  lemma ArrayTextIs(t: string, e: string, vs: seq<Value>)
    requires t == "[" + e + "]" && if vs == [] then White(e) else Elements(e, vs)
    ensures ValueText(t, Array(vs))
  {
    hide White, Elements;
  }

  lemma DictTextIs(t: string, e: string, fs: seq<Field>)
    requires t == "{" + e + "}" && if fs == [] then White(e) else Members(e, fs)
    ensures ValueText(t, Dict(fs))
  {
    hide White, Members;
  }

  lemma {:induction false} ArraySound(s: string, p: nat)
    requires p < |s| && ParseArray(s, p).Ok?
    ensures ValueText(s[p..ParseArray(s, p).pos], ParseArray(s, p).value)
    decreases |s| - p, 1
  {
    hide ParseElems, SkipSpace, White, ValueText, Elements;
    var q := SkipSpace(s, p + 1);
    SkipIsWhite(s, p + 1);
    var e := ParseArray(s, p).pos;
    if !(q < |s| && s[q] == ']') {
      ElemsSound(s, q);
      var vs := ParseElems(s, q).value;
      ElementsPad(s[p + 1..q], s[q..e - 1], vs);
      Slices(s, p + 1, q, e - 1);
    }
    SliceBetween(s, p, e, '[', ']');
    ArrayTextIs(s[p..e], s[p + 1..e - 1], ParseArray(s, p).value.elems);
  }

  // Where the parser of the elements has been.
  lemma ElemsParts(s: string, p: nat) returns (v: Value, e: nat, q: nat)
    requires p <= |s| && ParseElems(s, p).Ok?
    ensures p < |s| && ParseValue(s, p) == Ok(v, e) && p < e <= |s| && q == SkipSpace(s, e) && q < |s|
    ensures s[q] == ']' ==> ParseElems(s, p) == Ok([v], q + 1)
    ensures s[q] != ']' ==>
              var r := ParseElems(s, SkipSpace(s, q + 1));
              s[q] == ',' && r.Ok? && ParseElems(s, p) == Ok([v] + r.value, r.pos)
  {
    hide ParseValue, SkipSpace;
    v, e := ParseValue(s, p).value, ParseValue(s, p).pos;
    q := SkipSpace(s, e);
  }

  lemma {:induction false} ElemsSound(s: string, p: nat)
    requires p <= |s| && ParseElems(s, p).Ok?
    ensures var e, vs := ParseElems(s, p).pos, ParseElems(s, p).value;
            vs != [] && p < e && s[e - 1] == ']' && Elements(s[p..e - 1], vs)
    decreases |s| - p, 3
  {
    hide ParseValue, ParseElems, SkipSpace, White, ValueText, Padded, Elements;
    var v, e, q := ElemsParts(s, p);
    ValueSound(s, p);
    SkipIsWhite(s, p);
    SkipIsWhite(s, e);
    PadSound(s, p, SkipSpace(s, p), e, q, v);
    if s[q] == ']' {
      ElementsOne(s[p..q], v);
    } else {
      var n := SkipSpace(s, q + 1);
      SkipIsWhite(s, q + 1);
      ElemsSound(s, n);
      var vs, end := ParseElems(s, n).value, ParseElems(s, n).pos;
      ElementsPad(s[q + 1..n], s[n..end - 1], vs);
      Slices(s, q + 1, n, end - 1);
      SliceAround(s, p, q, end - 1, ',');
      ElementsJoin(s[p..q], s[q + 1..end - 1], v, vs);
    }
  }

  lemma ElementsOne(t: string, v: Value)
    requires Padded(t, v)
    ensures Elements(t, [v])
  {
  }

  lemma ElementsJoin(a: string, b: string, v: Value, vs: seq<Value>)
    requires vs != [] && Padded(a, v) && Elements(b, vs)
    ensures Elements(a + "," + b, [v] + vs)
  {
    hide Padded;
    assert ([v] + vs)[1..] == vs;
  }

  lemma MembersOne(t: string, f: Field)
    requires Member(t, f)
    ensures Members(t, [f])
  {
  }

  lemma MembersJoin(a: string, b: string, f: Field, fs: seq<Field>)
    requires fs != [] && Member(a, f) && Members(b, fs)
    ensures Members(a + "," + b, [f] + fs)
  {
    hide Member;
    assert ([f] + fs)[1..] == fs;
  }

  lemma {:induction false} DictSound(s: string, p: nat)
    requires p < |s| && ParseDict(s, p).Ok?
    ensures ValueText(s[p..ParseDict(s, p).pos], ParseDict(s, p).value)
    decreases |s| - p, 1
  {
    hide ParseFields, SkipSpace, White, ValueText, Members;
    var q := SkipSpace(s, p + 1);
    SkipIsWhite(s, p + 1);
    var e := ParseDict(s, p).pos;
    if !(q < |s| && s[q] == '}') {
      FieldsSound(s, q);
      var fs := ParseFields(s, q).value;
      MembersPad(s[p + 1..q], s[q..e - 1], fs);
      Slices(s, p + 1, q, e - 1);
    }
    SliceBetween(s, p, e, '{', '}');
    DictTextIs(s[p..e], s[p + 1..e - 1], ParseDict(s, p).value.fields);
  }

  // A field, with the blanks after it.
  lemma {:induction false} FieldSound(s: string, p: nat, q: nat)
    requires p <= |s| && ParseField(s, p).Ok? && ParseField(s, p).pos <= q <= |s| && White(s[ParseField(s, p).pos..q])
    ensures Member(s[p..q], ParseField(s, p).value)
    decreases |s| - p, 3
  {
    hide ParseValue, ParseString, SkipSpace, White, ValueText, StringText, Padded;
    var k := SkipSpace(s, p);
    SkipIsWhite(s, p);
    StringSound(s, k);
    var e := ParseString(s, k).pos;
    var c := SkipSpace(s, e);
    SkipIsWhite(s, e);
    var n := SkipSpace(s, c + 1);
    SkipIsWhite(s, c + 1);
    ValueSound(s, n);
    SkipTwice(s, c + 1);
    PadSound(s, c + 1, n, ParseValue(s, n).pos, q, ParseValue(s, n).value);
    Slices(s, p, k, e);
    Slices(s, p, e, c);
    SliceAround(s, p, c, q, ':');
    assert s[p..q] == s[p..k] + s[k..e] + s[e..c] + ":" + s[c + 1..q];
  }

  lemma {:induction false} SkipTwice(s: string, p: nat)
    requires p <= |s|
    ensures SkipSpace(s, SkipSpace(s, p)) == SkipSpace(s, p)
  {
    var q := SkipSpace(s, p);
    if q < |s| { SkipNone(s, q); }
  }

  lemma {:induction false} FieldsSound(s: string, p: nat)
    requires p <= |s| && ParseFields(s, p).Ok?
    ensures var e, fs := ParseFields(s, p).pos, ParseFields(s, p).value;
            fs != [] && p < e && s[e - 1] == '}' && Members(s[p..e - 1], fs)
    decreases |s| - p, 4
  {
    hide ParseField, SkipSpace, White, Member, Members;
    var f, e := ParseField(s, p).value, ParseField(s, p).pos;
    var q := SkipSpace(s, e);
    SkipIsWhite(s, e);
    FieldSound(s, p, q);
    MembersOne(s[p..q], f);
    if s[q] == ',' {
      var n := SkipSpace(s, q + 1);
      SkipIsWhite(s, q + 1);
      FieldsSound(s, n);
      var fs, end := ParseFields(s, n).value, ParseFields(s, n).pos;
      MembersPad(s[q + 1..n], s[n..end - 1], fs);
      Slices(s, q + 1, n, end - 1);
      SliceAround(s, p, q, end - 1, ',');
      MembersJoin(s[p..q], s[q + 1..end - 1], f, fs);
    }
  }

  lemma ParseSound(s: string, v: Value)
    requires Parse(s).Ok? && Parse(s).value == v
    ensures Derives(s, v)
  {
    hide ParseValue, SkipSpace, White, ValueText;
    ValueSound(s, 0);
    SkipIsWhite(s, 0);
    var e := ParseValue(s, 0).pos;
    SkipIsWhite(s, e);
    PadSound(s, 0, SkipSpace(s, 0), e, |s|, v);
    assert s[0..|s|] == s;
  }

  // ----- completeness: what is derived is accepted -----

  // The end, or what may follow a padded value.
  predicate Closed(s: string, p: nat) {
    p < |s| ==> s[p] == ',' || s[p] == ']' || s[p] == '}'
  }

  lemma SkipFirst(s: string, p: nat)
    requires p <= |s|
    ensures ParseValue(s, SkipSpace(s, p)) == ParseValue(s, p)
  {
    hide ParseString, ParseNumber, ParseArray, ParseDict, ParseLiteral, SkipSpace;
    SkipTwice(s, p);
  }

  lemma WhiteThen(s: string, p: nat, w: string)
    requires Matches(s, p, w) && White(w) && (p + |w| < |s| ==> !IsSpace(s[p + |w|]))
    ensures SkipSpace(s, p) == p + |w|
  {
    WhiteSkips(s, p, w);
    if p + |w| < |s| { SkipNone(s, p + |w|); }
  }

  lemma LiteralComplete(s: string, p: nat, v: Value, t: string)
    requires (v.Null? || v.Bool?) && ValueText(t, v) && Matches(s, p, t)
    ensures s[p] == t[0] && (s[p] == 't' || s[p] == 'f' || s[p] == 'n') && ParseLiteral(s, p) == Ok(v, p + |t|)
  {
    MatchAt(s, p, t, 0);
  }

  lemma Dispatch(s: string, p: nat)
    requires p < |s| && !IsSpace(s[p])
    ensures s[p] == '[' ==> ParseValue(s, p) == ParseArray(s, p)
    ensures s[p] == '{' ==> ParseValue(s, p) == ParseDict(s, p)
    ensures s[p] == '-' || IsDigit(s[p]) ==> ParseValue(s, p) == ParseNumber(s, p)
    ensures s[p] == 't' || s[p] == 'f' || s[p] == 'n' ==> ParseValue(s, p) == ParseLiteral(s, p)
    ensures s[p] == '\"' && ParseString(s, p).Ok? ==>
              ParseValue(s, p) == Ok(Str(ParseString(s, p).value), ParseString(s, p).pos)
  {
    hide ParseString, ParseNumber, ParseArray, ParseDict, ParseLiteral;
    SkipNone(s, p);
  }

  lemma {:induction false} ValueComplete(s: string, p: nat, t: string, v: Value)
    requires Matches(s, p, t) && ValueText(t, v) && Stops(s, p + |t|)
    ensures p < |s| && !IsSpace(s[p]) && s[p] != ']' && s[p] != '}' && ParseValue(s, p) == Ok(v, p + |t|)
    decreases v, 0
  {
    hide ParseString, ParseNumber, ParseArray, ParseDict, ParseLiteral, ParseValue, Matches;
    hide FloatText, Whole, StringText;
    MatchesFit(s, p, t);
    match v
    case Null => LiteralComplete(s, p, v, t); Dispatch(s, p);
    case Bool(_) => LiteralComplete(s, p, v, t); Dispatch(s, p);
    case U64(n) =>
      UnsignedText(t, n);
      UnsignedComplete(s, p, t);
      Dispatch(s, p);
    case I64(i) =>
      UnsignedText(t[1..], -1 * i);
      assert t == "-" + t[1..];
      SignedComplete(s, p, t[1..]);
      Dispatch(s, p);
    case F64(_) =>
      FloatComplete(s, p, t);
      Dispatch(s, p);
    case Str(u) =>
      StringComplete(s, p, t, u);
      Dispatch(s, p);
    case Array(vs) => ArrayComplete(s, p, t, vs); Dispatch(s, p);
    case Dict(fs) => DictComplete(s, p, t, fs); Dispatch(s, p);
  }

  lemma UnsignedText(t: string, n: int)
    requires Whole(t, n)
    ensures NumberOf(t) == n && Whole(t, NumberOf(t)) && t != ""
  {
  }

  lemma {:induction false} ArrayComplete(s: string, p: nat, t: string, vs: seq<Value>)
    requires Matches(s, p, t) && ValueText(t, Array(vs))
    ensures p < |s| && s[p] == '[' && ParseArray(s, p) == Ok(Array(vs), p + |t|)
    decreases vs, 1
  {
    hide Matches, White, SkipSpace, ParseElems;
    var e :| t == "[" + e + "]" && if vs == [] then White(e) else Elements(e, vs);
    assert t == "[" + (e + "]");
    Split(s, p, "[", e + "]");
    MatchesFit(s, p + 1, e + "]");
    MatchAt(s, p, "[", 0);
    if vs == [] {
      MatchAt(s, p + 1, e + "]", |e|);
      Split(s, p + 1, e, "]");
      WhiteThen(s, p + 1, e);
    } else {
      ElemsComplete(s, p + 1, e, vs);
    }
  }

  // A padded value; the parser finds it from its first blank or its first character.
  lemma {:induction false} PaddedComplete(s: string, p: nat, t: string, v: Value)
    requires Matches(s, p, t) && Padded(t, v) && Closed(s, p + |t|)
    ensures var w := SkipSpace(s, p);
            w < |s| && s[w] != ']' && s[w] != '}' && ParseValue(s, w) == ParseValue(s, p) &&
            ParseValue(s, p).Ok? && ParseValue(s, p).value == v && SkipSpace(s, ParseValue(s, p).pos) == p + |t|
    decreases v, 1
  {
    hide ParseValue, SkipSpace, Matches, ValueText;
    MatchesFit(s, p, t);
    var a, x, b :| White(a) && ValueText(x, v) && White(b) && t == a + x + b;
    assert t == a + (x + b);
    Split(s, p, a, x + b);
    Split(s, p + |a|, x, b);
    var m := p + |a|;
    if b != "" { MatchAt(s, m + |x|, b, 0); }
    ValueComplete(s, m, x, v);
    WhiteThen(s, p, a);
    SkipFirst(s, p);
    WhiteThen(s, m + |x|, b);
  }

  lemma CutComma(s: string, p: nat, t: string, a: string, b: string, close: string)
    requires Matches(s, p, t + close) && t == a + "," + b
    ensures Matches(s, p, a) && p + |a| < |s| && s[p + |a|] == ',' && Matches(s, p + |a| + 1, b + close)
    ensures |t| == |a| + 1 + |b|
  {
    hide Matches;
    assert t + close == a + ("," + (b + close));
    Split(s, p, a, "," + (b + close));
    Split(s, p + |a|, ",", b + close);
    MatchesFit(s, p + |a|, "," + (b + close));
    MatchAt(s, p + |a|, ",", 0);
  }

  lemma CutClose(s: string, p: nat, t: string, close: char)
    requires Matches(s, p, t + [close])
    ensures Matches(s, p, t) && p + |t| < |s| && s[p + |t|] == close
  {
    hide Matches;
    Split(s, p, t, [close]);
    MatchesFit(s, p + |t|, [close]);
    MatchAt(s, p + |t|, [close], 0);
  }

  // The parser at the last element, and at one that others follow.
  lemma ElemsUnfold(s: string, w: nat, v: Value, e: nat, q: nat)
    requires w < |s| && ParseValue(s, w) == Ok(v, e) && e <= |s| && SkipSpace(s, e) == q && q < |s|
    ensures s[q] == ']' ==> ParseElems(s, w) == Ok([v], q + 1)
    ensures s[q] == ',' ==>
              var r := ParseElems(s, SkipSpace(s, q + 1));
              r.Ok? ==> ParseElems(s, w) == Ok([v] + r.value, r.pos)
  {
    hide ParseValue, SkipSpace;
  }

  lemma {:induction false} ElemsComplete(s: string, p: nat, t: string, vs: seq<Value>)
    requires vs != [] && Matches(s, p, t + "]") && Elements(t, vs)
    ensures p <= |s|
    ensures var w := SkipSpace(s, p); w < |s| && s[w] != ']' && ParseElems(s, w) == Ok(vs, p + |t| + 1)
    decreases vs, 0
  {
    hide ParseValue, ParseElems, SkipSpace, Matches, Padded;
    MatchesFit(s, p, t + "]");
    var w := SkipSpace(s, p);
    if |vs| == 1 {
      CutClose(s, p, t, ']');
      PaddedComplete(s, p, t, vs[0]);
      ElemsUnfold(s, w, vs[0], ParseValue(s, w).pos, p + |t|);
      assert vs == [vs[0]];
    } else {
      var a, b :| Padded(a, vs[0]) && Elements(b, vs[1..]) && t == a + "," + b;
      CutComma(s, p, t, a, b, "]");
      PaddedComplete(s, p, a, vs[0]);
      ElemsComplete(s, p + |a| + 1, b, vs[1..]);
      ElemsUnfold(s, w, vs[0], ParseValue(s, w).pos, p + |a|);
      assert [vs[0]] + vs[1..] == vs;
    }
  }

  lemma {:induction false} DictComplete(s: string, p: nat, t: string, fs: seq<Field>)
    requires Matches(s, p, t) && ValueText(t, Dict(fs))
    ensures p < |s| && s[p] == '{' && ParseDict(s, p) == Ok(Dict(fs), p + |t|)
    decreases fs, 1
  {
    hide Matches, White, SkipSpace, ParseFields;
    var e :| t == "{" + e + "}" && if fs == [] then White(e) else Members(e, fs);
    assert t == "{" + (e + "}");
    Split(s, p, "{", e + "}");
    MatchesFit(s, p + 1, e + "}");
    MatchAt(s, p, "{", 0);
    if fs == [] {
      MatchAt(s, p + 1, e + "}", |e|);
      Split(s, p + 1, e, "}");
      WhiteThen(s, p + 1, e);
    } else {
      FieldsComplete(s, p + 1, e, fs);
    }
  }

  lemma MemberPieces(s: string, p: nat, a: string, k: string, b: string, x: string, m: nat, n: nat, c: nat)
    requires Matches(s, p, a + k + b + ":" + x) && m == p + |a| && n == m + |k| && c == n + |b|
    ensures Matches(s, p, a) && Matches(s, m, k) && Matches(s, n, b) && Matches(s, c + 1, x)
    ensures c < |s| && s[c] == ':'
  {
    hide Matches;
    assert a + k + b + ":" + x == a + (k + (b + (":" + x)));
    Split(s, p, a, k + (b + (":" + x)));
    Split(s, m, k, b + (":" + x));
    Split(s, n, b, ":" + x);
    Split(s, c, ":", x);
    MatchesFit(s, c, ":" + x);
    MatchAt(s, c, ":", 0);
  }

  // The parts of a field, each at its place.
  lemma FieldAt(s: string, p: nat, m: nat, n: nat, c: nat, e: nat, f: Field)
    requires p <= m < n <= c < |s| && SkipSpace(s, p) == m && s[m] == '\"' && ParseString(s, m) == Ok(f.key, n)
    requires SkipSpace(s, n) == c && s[c] == ':' && ParseValue(s, c + 1).Ok? && ParseValue(s, c + 1).value == f.value
    requires ParseValue(s, SkipSpace(s, c + 1)) == ParseValue(s, c + 1) && ParseValue(s, c + 1).pos == e
    ensures ParseField(s, m) == Ok(f, e)
  {
    hide ParseValue, ParseString, SkipSpace;
    SkipTwice(s, p);
  }

  lemma {:induction false} MemberComplete(s: string, p: nat, t: string, f: Field)
    requires Matches(s, p, t) && Member(t, f) && Closed(s, p + |t|)
    ensures var w := SkipSpace(s, p);
            w < |s| && s[w] == '\"' && ParseField(s, w).Ok? && ParseField(s, w).value == f &&
            SkipSpace(s, ParseField(s, w).pos) == p + |t|
    decreases f, 0
  {
    hide ParseValue, ParseString, ParseField, SkipSpace, Matches, StringText, Padded, White;
    MatchesFit(s, p, t);
    var a, k, b, x :|
      White(a) && StringText(k, f.key) && White(b) && Padded(x, f.value) && t == a + k + b + ":" + x;
    var m := p + |a|;
    var n := m + |k|;
    var c := n + |b|;
    assert |t| == |a| + |k| + |b| + 1 + |x|;
    MemberPieces(s, p, a, k, b, x, m, n, c);
    StringComplete(s, m, k, f.key);
    WhiteThen(s, p, a);
    WhiteThen(s, n, b);
    PaddedComplete(s, c + 1, x, f.value);
    FieldAt(s, p, m, n, c, ParseValue(s, c + 1).pos, f);
  }

  lemma FieldsUnfold(s: string, w: nat, f: Field, e: nat, q: nat)
    requires w < |s| && ParseField(s, w) == Ok(f, e) && e <= |s| && SkipSpace(s, e) == q && q < |s|
    ensures s[q] == '}' ==> ParseFields(s, w) == Ok([f], q + 1)
    ensures s[q] == ',' ==>
              var r := ParseFields(s, SkipSpace(s, q + 1));
              r.Ok? ==> ParseFields(s, w) == Ok([f] + r.value, r.pos)
  {
    hide ParseField, SkipSpace;
  }

  lemma {:induction false} FieldsComplete(s: string, p: nat, t: string, fs: seq<Field>)
    requires fs != [] && Matches(s, p, t + "}") && Members(t, fs)
    ensures p <= |s|
    ensures var w := SkipSpace(s, p); w < |s| && s[w] != '}' && ParseFields(s, w) == Ok(fs, p + |t| + 1)
    decreases fs, 0
  {
    hide ParseField, ParseFields, SkipSpace, Matches, Member;
    MatchesFit(s, p, t + "}");
    var w := SkipSpace(s, p);
    if |fs| == 1 {
      CutClose(s, p, t, '}');
      MemberComplete(s, p, t, fs[0]);
      FieldsUnfold(s, w, fs[0], ParseField(s, w).pos, p + |t|);
      assert fs == [fs[0]];
    } else {
      var a, b :| Member(a, fs[0]) && Members(b, fs[1..]) && t == a + "," + b;
      CutComma(s, p, t, a, b, "}");
      MemberComplete(s, p, a, fs[0]);
      FieldsComplete(s, p + |a| + 1, b, fs[1..]);
      FieldsUnfold(s, w, fs[0], ParseField(s, w).pos, p + |a|);
      assert [fs[0]] + fs[1..] == fs;
    }
  }

  // json_parse accepts exactly the documents of the grammar, with the values they derive. The value of
  // a document is unique.
  lemma {:induction false} ParseIffDerives(s: string, v: Value)
    ensures Parse(s).Ok? && Parse(s).value == v <==> Derives(s, v)
  {
    hide ParseValue, SkipSpace, Padded;
    if Parse(s).Ok? && Parse(s).value == v { ParseSound(s, v); }
    if Derives(s, v) {
      assert s[0..|s|] == s;
      PaddedComplete(s, 0, s, v);
    }
  }
}
