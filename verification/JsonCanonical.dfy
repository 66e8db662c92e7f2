// The writer's text of a value is the only document of the grammar that derives the value and is laid out.
module JsonCanonical {
  import opened Fmt
  import opened JsonText
  import opened JsonRoundTrip
  import opened JsonGrammar
  import opened JsonLayout

  // The text can be read on from m; what comes after does not matter.
  predicate Good(size: nat, m: Mode, t: string) {
    Reads(size, false, m, t) != Bad
  }

  lemma GoodCut(size: nat, m: Mode, a: string, b: string)
    requires Good(size, m, a + b)
    ensures Good(size, m, a) && Good(size, Reads(size, false, m, a), b)
    ensures Reads(size, false, m, a + b) == Reads(size, false, Reads(size, false, m, a), b)
  {
    hide Reads;
    ReadsJoin(size, false, m, a, b);
    BadStays(size, false, b);
  }

  lemma GoodHead(size: nat, m: Mode, t: string)
    requires Good(size, m, t) && t != ""
    ensures Read(size, false, m, t[0]) != Bad && Good(size, Read(size, false, m, t[0]), t[1..])
  {
    hide Read;
    BadStays(size, false, t[1..]);
  }

  // ----- strings -----

  lemma {:induction false} BodyUnique(size: nat, d: int, b: string, s: string)
    requires Body(b, s) && Good(size, Quoted(d), b)
    ensures b == Escape(s)
    decreases |b|
  {
    if b != "" {
      GoodHead(size, Quoted(d), b);
      if b[0] == '\\' {
        GoodHead(size, Escaped(d), b[1..]);
        assert b[1..][1..] == b[2..] && b[1..][0] == b[1];
        BodyUnique(size, d, b[2..], s[1..]);
        assert b == [b[0], b[1]] + b[2..];
        assert EscapeChar(s[0]) == [b[0], b[1]];
      } else {
        BodyUnique(size, d, b[1..], s[1..]);
        assert b == [b[0]] + b[1..];
        assert EscapeChar(s[0]) == [b[0]];
      }
    }
  }

  lemma StringUnique(size: nat, m: Mode, d: int, t: string, s: string)
    requires StringText(t, s) && Begins(size, m, d) && Good(size, m, t)
    ensures t == Quote(s)
  {
    hide Reads, Read, Body, Escape;
    var b := t[1..|t| - 1];
    assert t == "\"" + (b + "\"");
    GoodCut(size, m, "\"", b + "\"");
    ReadsOne(size, false, m, '\"');
    BeginRead(size, false, m, d, '\"');
    GoodCut(size, Quoted(d), b, "\"");
    BodyUnique(size, d, b, s);
  }

  // ----- numbers -----

  lemma OneDigitUnique(size: nat, m: Mode, d: int, c: char)
    requires '0' <= c <= '9' && (Begins(size, m, d) || m == Minus(d)) && Good(size, m, [c])
    ensures NumberOf([c]) == c as int - '0' as int >= 0 && [c] == Decimal(NumberOf([c]))
    ensures m == Minus(d) ==> NumberOf([c]) > 0
  {
    assert [c][..0] == "";
    ReadsOne(size, false, m, c);
  }

  lemma NumberNext(t: string)
    requires t != ""
    ensures NumberOf(t) == 10 * NumberOf(t[..|t| - 1]) + (t[|t| - 1] as int - '0' as int)
  {
  }

  lemma {:induction false} DigitsUnique(size: nat, m: Mode, d: int, t: string)
    requires Digits(t) && (Begins(size, m, d) || m == Minus(d)) && Good(size, m, t)
    ensures NumberOf(t) >= 0 && t == Decimal(NumberOf(t)) && (m == Minus(d) ==> NumberOf(t) > 0)
    decreases |t|
  {
    hide Good, Reads, Read, Begins, NumberOf, Decimal;
    var n := |t| - 1;
    var c := t[n];
    var k: nat := c as int - '0' as int;
    assert t == t[..n] + [c];
    if n == 0 {
      assert t == [c];
      OneDigitUnique(size, m, d, c);
    } else {
      GoodCut(size, m, t[..n], [c]);
      DigitsUnique(size, m, d, t[..n]);
      var v: nat := NumberOf(t[..n]);
      NumberNext(t);
      DecimalReads(size, false, m, d, v);
      GoodOne(size, if v == 0 then Zero(d) else Number(d), c);
      NoLeadingZero(size, d, v, c);
      DecimalNext(v, k);
      assert Digit(k) == c;
    }
  }

  lemma GoodOne(size: nat, m: Mode, c: char)
    requires Good(size, m, [c])
    ensures Read(size, false, m, c) != Bad
  {
    hide Read;
    ReadsOne(size, false, m, c);
  }

  lemma NoLeadingZero(size: nat, d: int, v: nat, c: char)
    requires '0' <= c <= '9' && Read(size, false, if v == 0 then Zero(d) else Number(d), c) != Bad
    ensures v > 0
  {
  }

  lemma DecimalNext(v: nat, k: nat)
    requires v > 0 && k < 10
    ensures Decimal(10 * v + k) == Decimal(v) + [Digit(k)]
  {
    assert (10 * v + k) / 10 == v && (10 * v + k) % 10 == k;
  }

  lemma SignedUnique(size: nat, m: Mode, d: int, t: string, i: int)
    requires i < 0 && t != "" && t[0] == '-' && Whole(t[1..], -1 * i) && Begins(size, m, d) && Good(size, m, t)
    ensures t == DecimalI64(i)
  {
    hide Decimal, NumberOf;
    GoodHead(size, m, t);
    BeginRead(size, false, m, d, '-');
    DigitsUnique(size, Minus(d), d, t[1..]);
    assert t == "-" + t[1..];
  }

  // ----- blanks -----

  lemma HeadAndRest(w: string, c: char)
    ensures w + [c] != "" && (w + [c])[0] == (if w == "" then c else w[0])
    ensures w != "" ==> (w + [c])[1..] == w[1..] + [c]
  {
  }

  predicate IsWhite(c: char) {
    c == ' ' || c == '\t' || c == '\n' || c == '\r'
  }

  // On a new line: only blanks, and as many as the depth asks for.
  lemma {:induction false} LineForced(size: nat, m: Mode, w: string, c: char)
    requires (m.Line? || m.Last?) && White(w) && !IsWhite(c) && Good(size, m, w + [c])
    ensures w == Spaces(|w|) && m.blanks + |w| == size * (m.depth - if IsCloser(c) then 1 else 0)
    ensures m.Last? ==> IsCloser(c)
    decreases |w|
  {
    GoodHead(size, m, w + [c]);
    if w == "" {
      assert (w + [c])[0] == c;
    } else {
      assert (w + [c])[0] == w[0] && (w + [c])[1..] == w[1..] + [c];
      LineForced(size, Read(size, false, m, w[0]), w[1..], c);
      assert w == [w[0]] + w[1..];
    }
  }

  // Before an element, or before the bracket that closes an empty container.
  lemma OpenForced(size: nat, m: Mode, w: string, c: char, k: nat)
    requires m.Opened? && White(w) && !IsWhite(c) && Good(size, m, w + [c])
    requires k == size * (m.depth - if IsCloser(c) then 1 else 0)
    ensures w == Sep(size, k)
  {
    hide Spaces;
    GoodHead(size, m, w + [c]);
    if w == "" {
      assert (w + [c])[0] == c;
    } else {
      assert (w + [c])[0] == w[0] && (w + [c])[1..] == w[1..] + [c];
      if size > 0 {
        LineForced(size, Line(m.depth, m.empty, 0), w[1..], c);
        assert w == [w[0]] + w[1..];
      }
    }
  }

  // After an element.
  lemma EndForced(size: nat, m: Mode, d: int, w: string, c: char, k: nat)
    requires Ended(m, d) && White(w) && !IsWhite(c) && Good(size, m, w + [c])
    requires IsCloser(c) ==> k == size * (d - 1)
    ensures w == if IsCloser(c) then Sep(size, k) else ""
  {
    hide Spaces;
    GoodHead(size, m, w + [c]);
    if w == "" {
      assert (w + [c])[0] == c;
    } else {
      assert (w + [c])[0] == w[0] && (w + [c])[1..] == w[1..] + [c];
      LineForced(size, Last(d, 0), w[1..], c);
      assert w == [w[0]] + w[1..];
    }
  }

  // ----- values -----

  // The characters a value of the grammar may begin with.
  lemma FirstOf(t: string, v: Value)
    requires InDomain(v) && ValueText(t, v)
    ensures t != "" && !IsWhite(t[0]) && !IsCloser(t[0]) && t[0] != ','
  {
  }

  lemma InDomainSuits(v: Value)
    requires InDomain(v)
    ensures Suits(v, false)
    decreases v
  {
    match v
    case Array(vs) => forall i | 0 <= i < |vs| ensures Suits(vs[i], false) { InDomainSuits(vs[i]); }
    case Dict(fs) => forall i | 0 <= i < |fs| ensures Suits(fs[i].value, false) { InDomainSuits(fs[i].value); }
    case _ =>
  }

  lemma {:induction false} ValueUnique(t: string, v: Value, size: nat, m: Mode, d: nat)
    requires InDomain(v) && ValueText(t, v) && Begins(size, m, d) && Good(size, m, t)
    ensures t == Print(v, size, size * d)
    decreases v, 0
  {
    hide Good, Begins, Whole, StringText, Decimal, DecimalI64, Quote, Sep, Clean;
    match v
    case U64(n) => UnsignedUnique(size, m, d, t, n);
    case I64(i) => SignedUnique(size, m, d, t, i);
    case Str(s) => StringUnique(size, m, d, t, s);
    case Array(vs) => ArrayUnique(t, vs, size, m, d);
    case Dict(fs) => DictUnique(t, fs, size, m, d);
    case _ =>
  }

  lemma UnsignedUnique(size: nat, m: Mode, d: int, t: string, n: nat)
    requires Whole(t, n) && Begins(size, m, d) && Good(size, m, t)
    ensures t == Decimal(n)
  {
    DigitsUnique(size, m, d, t);
  }

  // What stands before a value, and after it up to the next character.
  function Lead(size: nat, m: Mode, d: nat): string {
    if m.Colon? then " " else if m.Ready? then "" else Sep(size, size * d)
  }

  function Trail(size: nat, d: nat, c: char): string {
    if IsCloser(c) && d > 0 then Sep(size, size * (d - 1)) else ""
  }

  predicate Leads(m: Mode, d: int) {
    (m.Opened? || m == Colon(d) || m == Ready(d)) && m.depth == d
  }

  // The blanks before a value or a key are forced.
  lemma LeadForced(size: nat, m: Mode, d: nat, w: string, x: string)
    requires Leads(m, d) && White(w) && x != "" && !IsWhite(x[0]) && !IsCloser(x[0]) && Good(size, m, w + x)
    ensures w == Lead(size, m, d) && Begins(size, Reads(size, false, m, w), d)
  {
    hide Spaces, Reads, Read;
    assert w + x == w + [x[0]] + x[1..];
    GoodCut(size, m, w + [x[0]], x[1..]);
    if m.Opened? {
      OpenForced(size, m, w, x[0], size * d);
      BreakReads(size, false, d, m.empty);
    } else if m.Colon? {
      ColonForced(size, m, d, w, x[0]);
    } else {
      ReadyForced(size, m, d, w, x[0]);
    }
  }

  lemma ColonForced(size: nat, m: Mode, d: nat, w: string, c: char)
    requires m == Colon(d) && White(w) && !IsWhite(c) && Good(size, m, w + [c])
    ensures w == " " && Reads(size, false, m, w) == Ready(d) && Begins(size, Ready(d), d)
  {
    HeadAndRest(w, c);
    GoodHead(size, m, w + [c]);
    HeadAndRest(w[1..], c);
    GoodHead(size, Ready(d), w[1..] + [c]);
    assert w == [w[0]];
    ReadsOne(size, false, m, ' ');
  }

  lemma ReadyForced(size: nat, m: Mode, d: nat, w: string, c: char)
    requires m == Ready(d) && White(w) && !IsWhite(c) && Good(size, m, w + [c])
    ensures w == "" && Reads(size, false, m, w) == m && Begins(size, m, d)
  {
    HeadAndRest(w, c);
    GoodHead(size, m, w + [c]);
  }

  lemma {:induction false} PaddedUnique(t: string, v: Value, size: nat, m: Mode, d: nat, c: char)
    requires InDomain(v) && Padded(t, v) && Leads(m, d) && Good(size, m, t + [c])
    requires c == ',' || (IsCloser(c) && d > 0)
    ensures t == Lead(size, m, d) + Print(v, size, size * d) + Trail(size, d, c)
    ensures c == ',' ==> Reads(size, false, m, t + [c]) == Opened(d, false)
    decreases v, 1
  {
    hide Good, Begins, Reads, Read, Print, ValueText, InDomain, Sep, Ended;
    var a, x, b :| White(a) && ValueText(x, v) && White(b) && t == a + x + b;
    FirstOf(x, v);
    assert t + [c] == a + (x + (b + [c]));
    HeadOfJoin(x, b + [c]);
    LeadForced(size, m, d, a, x + (b + [c]));
    GoodCut(size, m, a, x + (b + [c]));
    var m1 := Reads(size, false, m, a);
    GoodCut(size, m1, x, b + [c]);
    ValueUnique(x, v, size, m1, d);
    InDomainSuits(v);
    PrintReads(v, size, false, m1, d);
    var m2 := Reads(size, false, m1, x);
    EndForced(size, m2, d, b, c, if IsCloser(c) then size * (d - 1) else 0);
    if c == ',' {
      assert b + [c] == ",";
      CommaReads(size, false, m2, d);
    }
  }

  lemma HeadOfJoin(x: string, y: string)
    requires x != ""
    ensures x + y != "" && (x + y)[0] == x[0]
  {
  }

  // ----- containers -----

  lemma JoinContainer(o: string, a: string, x: string, r: string, b: string, c: string)
    ensures o + (a + x + r + b) + c == o + (a + (x + (r + (b + c))))
  {
  }

  lemma {:induction false} ArrayUnique(t: string, vs: seq<Value>, size: nat, m: Mode, d: nat)
    requires InDomain(Array(vs)) && ValueText(t, Array(vs)) && Begins(size, m, d) && Good(size, m, t)
    ensures t == Print(Array(vs), size, size * d)
    decreases vs, 2
  {
    hide Good, Begins, Reads, Read, White, InDomain, Sep, Print, PrintRest, Elements;
    var e :| t == "[" + e + "]" && if vs == [] then White(e) else Elements(e, vs);
    assert t == "[" + (e + "]");
    GoodCut(size, m, "[", e + "]");
    OpenReads(size, false, m, d, '[');
    ArrayPrinted(vs, size, d);
    if vs == [] {
      OpenForced(size, Opened(d + 1, true), e, ']', size * d);
    } else {
      ElementsInDomain(vs);
      ElementsUnique(e, vs, size, Opened(d + 1, true), d + 1);
      var a, x := Sep(size, size * (d + 1)), Print(vs[0], size, size * (d + 1));
      var r := PrintRest(vs[1..], size, size * (d + 1));
      JoinContainer("[", a, x, r, Sep(size, size * d), "]");
    }
  }

  lemma ElementsInDomain(vs: seq<Value>)
    requires InDomain(Array(vs))
    ensures forall i | 0 <= i < |vs| :: InDomain(vs[i])
  {
  }

  lemma {:induction false} ElementsUnique(t: string, vs: seq<Value>, size: nat, m: Mode, d: nat)
    requires vs != [] && (forall i | 0 <= i < |vs| :: InDomain(vs[i])) && Elements(t, vs)
    requires m.Opened? && m.depth == d && d > 0 && Good(size, m, t + "]")
    ensures t == Sep(size, size * d) + Print(vs[0], size, size * d) + PrintRest(vs[1..], size, size * d) +
                 Sep(size, size * (d - 1))
    decreases vs, 1
  {
    hide Good, Reads, Read, Print, Padded, InDomain, Sep, Spaces;
    if |vs| == 1 {
      PaddedUnique(t, vs[0], size, m, d, ']');
      assert PrintRest(vs[1..], size, size * d) == "";
    } else {
      var a, b :| Padded(a, vs[0]) && Elements(b, vs[1..]) && t == a + "," + b;
      assert t + "]" == (a + [',']) + (b + "]");
      GoodCut(size, m, a + [','], b + "]");
      PaddedUnique(a, vs[0], size, m, d, ',');
      ElementsUnique(b, vs[1..], size, Opened(d, false), d);
      assert vs[1..][1..] == vs[2..];
      RestPrinted(vs[1..], size, size * d);
    }
  }

  lemma RestPrinted(vs: seq<Value>, size: nat, k: nat)
    requires vs != []
    ensures PrintRest(vs, size, k) == "," + Sep(size, k) + Print(vs[0], size, k) + PrintRest(vs[1..], size, k)
  {
  }

  lemma {:induction false} DictUnique(t: string, fs: seq<Field>, size: nat, m: Mode, d: nat)
    requires InDomain(Dict(fs)) && ValueText(t, Dict(fs)) && Begins(size, m, d) && Good(size, m, t)
    ensures t == Print(Dict(fs), size, size * d)
    decreases fs, 2
  {
    hide Good, Begins, Reads, Read, White, InDomain, Sep, Print, PrintField, PrintFields, Members;
    var e :| t == "{" + e + "}" && if fs == [] then White(e) else Members(e, fs);
    assert t == "{" + (e + "}");
    GoodCut(size, m, "{", e + "}");
    OpenReads(size, false, m, d, '{');
    DictPrinted(fs, size, d);
    if fs == [] {
      OpenForced(size, Opened(d + 1, true), e, '}', size * d);
    } else {
      MembersInDomain(fs);
      MembersUnique(e, fs, size, Opened(d + 1, true), d + 1);
      var a, x := Sep(size, size * (d + 1)), PrintField(fs[0], size, size * (d + 1));
      var r := PrintFields(fs[1..], size, size * (d + 1));
      JoinContainer("{", a, x, r, Sep(size, size * d), "}");
    }
  }

  lemma MembersInDomain(fs: seq<Field>)
    requires InDomain(Dict(fs))
    ensures forall i | 0 <= i < |fs| :: InDomain(fs[i].value)
  {
  }

  lemma {:induction false} MemberUnique(t: string, f: Field, size: nat, m: Mode, d: nat, c: char)
    requires InDomain(f.value) && Member(t, f) && m.Opened? && m.depth == d && Good(size, m, t + [c])
    requires c == ',' || (IsCloser(c) && d > 0)
    ensures t == Sep(size, size * d) + PrintField(f, size, size * d) + Trail(size, d, c)
    ensures c == ',' ==> Reads(size, false, m, t + [c]) == Opened(d, false)
    decreases f, 0
  {
    hide Good, Begins, Reads, Read, Print, StringText, Padded, InDomain, Sep, Ended, Quote;
    var a, k, b, x :|
      White(a) && StringText(k, f.key) && White(b) && Padded(x, f.value) && t == a + k + b + ":" + x;
    assert t + [c] == a + (k + (b + ":" + (x + [c])));
    FirstQuote(k, f.key);
    HeadOfJoin(k, b + ":" + (x + [c]));
    LeadForced(size, m, d, a, k + (b + ":" + (x + [c])));
    GoodCut(size, m, a, k + (b + ":" + (x + [c])));
    var m1 := Reads(size, false, m, a);
    GoodCut(size, m1, k, b + ":" + (x + [c]));
    StringUnique(size, m1, d, k, f.key);
    StringReads(size, m1, d, k, f.key);
    var m2 := After(d);
    GoodCut(size, m2, b + ":", x + [c]);
    ColonAfter(size, m2, d, b);
    PaddedUnique(x, f.value, size, Colon(d), d, c);
    assert t == a + (k + (": " + Print(f.value, size, size * d))) + Trail(size, d, c);
    FieldPrinted(f, size, size * d);
  }

  lemma FieldPrinted(f: Field, size: nat, k: nat)
    ensures PrintField(f, size, k) == Quote(f.key) + (": " + Print(f.value, size, k))
  {
  }

  lemma FirstQuote(k: string, s: string)
    requires StringText(k, s)
    ensures k != "" && k[0] == '\"'
  {
  }

  // After a whole string of the grammar the reader has left the string.
  lemma StringReads(size: nat, m: Mode, d: int, t: string, s: string)
    requires t == Quote(s) && StringText(t, s) && Begins(size, m, d) && Good(size, m, t)
    ensures Reads(size, false, m, t) == After(d)
  {
    hide Reads, Read, Body, Escape;
    var b := t[1..|t| - 1];
    assert t == "\"" + (b + "\"");
    GoodCut(size, m, "\"", b + "\"");
    ReadsOne(size, false, m, '\"');
    BeginRead(size, false, m, d, '\"');
    GoodCut(size, Quoted(d), b, "\"");
    BodyReads(size, d, b, s);
    ReadsOne(size, false, Quoted(d), '\"');
    QuoteCloses(size, false, d);
  }

  lemma {:induction false} BodyReads(size: nat, d: int, b: string, s: string)
    requires Body(b, s) && Good(size, Quoted(d), b)
    ensures Reads(size, false, Quoted(d), b) == Quoted(d)
    decreases |b|
  {
    if b != "" {
      GoodHead(size, Quoted(d), b);
      if b[0] == '\\' {
        GoodHead(size, Escaped(d), b[1..]);
        assert b[1..][1..] == b[2..] && b[1..][0] == b[1];
        BodyReads(size, d, b[2..], s[1..]);
      } else {
        BodyReads(size, d, b[1..], s[1..]);
      }
    }
  }

  lemma ColonAfter(size: nat, m: Mode, d: int, b: string)
    requires m == After(d) && White(b) && Good(size, m, b + ":")
    ensures b == "" && Reads(size, false, m, b + ":") == Colon(d)
  {
    EndForced(size, m, d, b, ':', 0);
    assert b + ":" == ":";
    ReadsOne(size, false, m, ':');
  }

  lemma {:induction false} MembersUnique(t: string, fs: seq<Field>, size: nat, m: Mode, d: nat)
    requires fs != [] && (forall i | 0 <= i < |fs| :: InDomain(fs[i].value)) && Members(t, fs)
    requires m.Opened? && m.depth == d && d > 0 && Good(size, m, t + "}")
    ensures t == Sep(size, size * d) + PrintField(fs[0], size, size * d) + PrintFields(fs[1..], size, size * d) +
                 Sep(size, size * (d - 1))
    decreases fs, 1
  {
    hide Good, Reads, Read, PrintField, Member, InDomain, Sep, Spaces;
    if |fs| == 1 {
      MemberUnique(t, fs[0], size, m, d, '}');
      assert PrintFields(fs[1..], size, size * d) == "";
    } else {
      var a, b :| Member(a, fs[0]) && Members(b, fs[1..]) && t == a + "," + b;
      assert t + "}" == (a + [',']) + (b + "}");
      GoodCut(size, m, a + [','], b + "}");
      MemberUnique(a, fs[0], size, m, d, ',');
      MembersUnique(b, fs[1..], size, Opened(d, false), d);
      assert fs[1..][1..] == fs[2..];
      FieldsPrinted(fs[1..], size, size * d);
    }
  }

  lemma FieldsPrinted(fs: seq<Field>, size: nat, k: nat)
    requires fs != []
    ensures PrintFields(fs, size, k) == "," + Sep(size, k) + PrintField(fs[0], size, k) + PrintFields(fs[1..], size, k)
  {
  }

  // ----- documents -----

  lemma DocumentUnique(t: string, v: Value, size: nat)
    requires InDomain(v) && Derives(t, v) && LaidOut(t, size, false)
    ensures t == Print(v, size, 0)
  {
    hide Reads, Read, Print, ValueText, InDomain, Begins;
    var a, x, b :| White(a) && ValueText(x, v) && White(b) && t == a + x + b;
    FirstOf(x, v);
    assert t == a + (x + b);
    HeadOfJoin(x, b);
    LeadForced(size, Ready(0), 0, a, x + b);
    GoodCut(size, Ready(0), a, x + b);
    var m1 := Reads(size, false, Ready(0), a);
    GoodCut(size, m1, x, b);
    ValueUnique(x, v, size, m1, 0);
    InDomainSuits(v);
    PrintReads(v, size, false, m1, 0);
    NothingAfter(size, Reads(size, false, m1, x), b);
    assert size * 0 == 0;
    assert a + x + b == x;
  }

  lemma NothingAfter(size: nat, m: Mode, b: string)
    requires Ended(m, 0) && White(b) && Ended(Reads(size, false, m, b), 0)
    ensures b == ""
  {
    if b != "" {
      if size > 0 && b[0] == '\n' { LastStays(size, Last(0, 0), b[1..]); } else { BadStays(size, false, b[1..]); }
    }
  }

  lemma {:induction false} LastStays(size: nat, m: Mode, b: string)
    requires (m.Last? || m == Bad) && White(b)
    ensures var r := Reads(size, false, m, b); r.Last? || r == Bad
    decreases |b|
  {
    if b != "" { LastStays(size, Read(size, false, m, b[0]), b[1..]); }
  }

  // For every value in the domain and every indent: the text the writer produces is the only one that
  // derives the value and is laid out.
  lemma {:induction false} PrintIsTheOne(t: string, v: Value, size: nat)
    requires InDomain(v)
    ensures t == Print(v, size, 0) <==> Derives(t, v) && LaidOut(t, size, false)
  {
    hide Print, InDomain, Derives, LaidOut, Parse;
    if t == Print(v, size, 0) {
      DomainNoFloats(v);
      RoundTrip(v, size);
      ParseIffDerives(t, v);
      InDomainSuits(v);
      PrintAccepted(v, size, false);
    }
    if Derives(t, v) && LaidOut(t, size, false) { DocumentUnique(t, v, size); }
  }

  lemma {:induction false} DomainNoFloats(v: Value)
    requires InDomain(v)
    ensures NoFloats(v)
    decreases v
  {
    match v
    case Array(vs) => forall i | 0 <= i < |vs| ensures NoFloats(vs[i]) { DomainNoFloats(vs[i]); }
    case Dict(fs) => forall i | 0 <= i < |fs| ensures NoFloats(fs[i].value) { DomainNoFloats(fs[i].value); }
    case _ =>
  }
}
