// The layout of the documents the writer of src/json.c produces, as a reader sees it: an automaton over
// the characters, apart from the function that prints.
module JsonLayout {
  import opened Fmt
  import opened JsonText
  import opened JsonRoundTrip

  // ----- reading a text -----

  // Between tokens and in them, with the number of open brackets.
  datatype Mode =
    | Ready(depth: int)                              // a value or a key must begin
    | Opened(depth: int, empty: bool)                // after a bracket or a comma
    | Line(depth: int, empty: bool, blanks: nat)     // on a new line, after some blanks
    | Colon(depth: int)                              // a blank must follow
    | Quoted(depth: int)
    | Escaped(depth: int)
    | Minus(depth: int)
    | Zero(depth: int)
    | Number(depth: int)
    | Word(depth: int)
    | After(depth: int)                              // after a string or a closing bracket
    | Last(depth: int, blanks: nat)                  // on the line of a closing bracket
    | Bad

  predicate IsCloser(c: char) {
    c == ']' || c == '}'
  }

  // The first character of a value or of a key.
  function Begin(d: int, c: char): Mode {
    if c == '\"' then Quoted(d)
    else if c == '[' || c == '{' then Opened(d + 1, true)
    else if c == '-' then Minus(d)
    else if c == '0' then Zero(d)
    else if '1' <= c <= '9' then Number(d)
    else if c == 't' || c == 'f' || c == 'n' then Word(d)
    else Bad
  }

  // The character after a token: with an indent a closing bracket stands on a line of its own.
  function Follow(size: nat, d: int, c: char): Mode {
    if c == ',' then Opened(d, false)
    else if c == ':' then Colon(d)
    else if c == '\n' && size > 0 then Last(d, 0)
    else if IsCloser(c) && size == 0 then After(d - 1)
    else Bad
  }

  // Characters that must be escaped, and the letters of the escapes. A vertical tab is written as an
  // escape of its own, which the flag tabs admits.
  predicate MustEscape(c: char) {
    c == '\n' || c == '\r' || c == '\t' || c == '\U{0008}' || c == '\U{000C}' || c == '\U{000B}'
  }

  predicate IsEscapeLetter(c: char) {
    c == '\"' || c == '\\' || c == 'n' || c == 'r' || c == 't' || c == 'b' || c == 'f'
  }

  function Read(size: nat, tabs: bool, m: Mode, c: char): Mode {
    match m
    case Ready(d) => Begin(d, c)
    case Opened(d, empty) =>
      if size > 0 then (if c == '\n' then Line(d, empty, 0) else Bad)
      else if empty && IsCloser(c) then After(d - 1)
      else Begin(d, c)
    case Line(d, empty, n) =>
      if c == ' ' then Line(d, empty, n + 1)
      else if IsCloser(c) then (if empty && n == size * (d - 1) then After(d - 1) else Bad)
      else if n == size * d then Begin(d, c)
      else Bad
    case Colon(d) => if c == ' ' then Ready(d) else Bad
    case Quoted(d) =>
      if c == '\"' then After(d) else if c == '\\' then Escaped(d) else if MustEscape(c) then Bad else Quoted(d)
    case Escaped(d) => if IsEscapeLetter(c) || (tabs && c == 'v') then Quoted(d) else Bad
    case Minus(d) => if '1' <= c <= '9' then Number(d) else Bad
    case Zero(d) => Follow(size, d, c)
    case Number(d) => if '0' <= c <= '9' then Number(d) else Follow(size, d, c)
    case Word(d) => if 'a' <= c <= 'z' then Word(d) else Follow(size, d, c)
    case After(d) => Follow(size, d, c)
    case Last(d, n) =>
      if c == ' ' then Last(d, n + 1) else if IsCloser(c) && n == size * (d - 1) then After(d - 1) else Bad
    case Bad => Bad
  }

  function Reads(size: nat, tabs: bool, m: Mode, t: string): Mode
    decreases |t|
  {
    if t == "" then m else Reads(size, tabs, Read(size, tabs, m, t[0]), t[1..])
  }

  // A token or a bracket has just been completed.
  predicate Ended(m: Mode, d: int) {
    m == After(d) || m == Zero(d) || m == Number(d) || m == Word(d)
  }

  // A whole document, laid out with this indent.
  predicate LaidOut(t: string, size: nat, tabs: bool) {
    Ended(Reads(size, tabs, Ready(0), t), 0)
  }

  lemma {:induction false} ReadsJoin(size: nat, tabs: bool, m: Mode, a: string, b: string)
    ensures Reads(size, tabs, m, a + b) == Reads(size, tabs, Reads(size, tabs, m, a), b)
    decreases |a|
  {
    hide Read;
    if a == "" {
      assert a + b == b;
    } else {
      assert (a + b)[0] == a[0] && (a + b)[1..] == a[1..] + b;
      ReadsJoin(size, tabs, Read(size, tabs, m, a[0]), a[1..], b);
    }
  }

  lemma ReadsOne(size: nat, tabs: bool, m: Mode, c: char)
    ensures Reads(size, tabs, m, [c]) == Read(size, tabs, m, c)
  {
    hide Read;
    assert [c][1..] == "";
  }

  // ----- what the writer prints is laid out -----

  // A mode in which a value may begin at this depth.
  predicate Begins(size: nat, m: Mode, d: int) {
    m == Ready(d) || (size == 0 && m.Opened? && m.depth == d) || (m.Line? && m.depth == d && m.blanks == size * d)
  }

  lemma BeginRead(size: nat, tabs: bool, m: Mode, d: int, c: char)
    requires Begins(size, m, d) && !IsCloser(c) && c != ' '
    ensures Read(size, tabs, m, c) == Begin(d, c)
  {
  }

  predicate Tabless(s: string) {
    forall i | 0 <= i < |s| :: s[i] != VERTICAL_TAB
  }

  // No floats, and no vertical tabs unless they are admitted.
  predicate Suits(v: Value, tabs: bool)
    decreases v
  {
    match v
    case F64(_) => false
    case Str(s) => tabs || Tabless(s)
    case Array(vs) => forall i | 0 <= i < |vs| :: Suits(vs[i], tabs)
    case Dict(fs) => forall i | 0 <= i < |fs| :: (tabs || Tabless(fs[i].key)) && Suits(fs[i].value, tabs)
    case _ => true
  }

  lemma {:induction false} EscapeReads(size: nat, tabs: bool, d: int, s: string)
    requires tabs || Tabless(s)
    ensures Reads(size, tabs, Quoted(d), Escape(s)) == Quoted(d)
    decreases |s|
  {
    hide Read;
    if s != "" {
      var u := EscapeChar(s[0]);
      EscapeCharReads(size, tabs, d, s[0]);
      ReadsJoin(size, tabs, Quoted(d), u, Escape(s[1..]));
      EscapeReads(size, tabs, d, s[1..]);
    }
  }

  lemma EscapeCharReads(size: nat, tabs: bool, d: int, c: char)
    requires tabs || c != VERTICAL_TAB
    ensures Reads(size, tabs, Quoted(d), EscapeChar(c)) == Quoted(d)
  {
    var u := EscapeChar(c);
    if |u| == 2 {
      assert u[1..] == [u[1]];
      ReadsOne(size, tabs, Escaped(d), u[1]);
    } else {
      assert u == [c];
      ReadsOne(size, tabs, Quoted(d), c);
    }
  }

  lemma QuoteReads(size: nat, tabs: bool, m: Mode, d: int, s: string)
    requires Begins(size, m, d) && (tabs || Tabless(s))
    ensures Reads(size, tabs, m, Quote(s)) == After(d)
  {
    hide Escape, Read;
    assert Quote(s) == "\"" + (Escape(s) + "\"");
    ReadsJoin(size, tabs, m, "\"", Escape(s) + "\"");
    ReadsOne(size, tabs, m, '\"');
    BeginRead(size, tabs, m, d, '\"');
    ReadsJoin(size, tabs, Quoted(d), Escape(s), "\"");
    EscapeReads(size, tabs, d, s);
    ReadsOne(size, tabs, Quoted(d), '\"');
    QuoteCloses(size, tabs, d);
  }

  lemma QuoteCloses(size: nat, tabs: bool, d: int)
    ensures Read(size, tabs, Quoted(d), '\"') == After(d)
  {
  }

  lemma {:induction false} DecimalReads(size: nat, tabs: bool, m: Mode, d: int, n: nat)
    requires Begins(size, m, d) || (m == Minus(d) && n > 0)
    ensures Reads(size, tabs, m, Decimal(n)) == if n == 0 then Zero(d) else Number(d)
    decreases n
  {
    if n < 10 {
      ReadsOne(size, tabs, m, Digit(n));
      if m != Minus(d) { BeginRead(size, tabs, m, d, Digit(n)); }
    } else {
      hide Read, Begins;
      DecimalReads(size, tabs, m, d, n / 10);
      ReadsJoin(size, tabs, m, Decimal(n / 10), [Digit(n % 10)]);
      ReadsOne(size, tabs, Number(d), Digit(n % 10));
      DigitRead(size, tabs, d, n % 10);
    }
  }

  lemma DigitRead(size: nat, tabs: bool, d: int, k: nat)
    requires k < 10
    ensures Read(size, tabs, Number(d), Digit(k)) == Number(d)
  {
  }

  lemma SignedReads(size: nat, tabs: bool, m: Mode, d: int, i: int)
    requires Begins(size, m, d)
    ensures Ended(Reads(size, tabs, m, DecimalI64(i)), d)
  {
    hide Decimal, Read;
    if i < 0 {
      ReadsJoin(size, tabs, m, "-", Decimal(-i));
      ReadsOne(size, tabs, m, '-');
      BeginRead(size, tabs, m, d, '-');
      DecimalReads(size, tabs, Minus(d), d, -i);
    } else {
      DecimalReads(size, tabs, m, d, i);
    }
  }

  lemma {:induction false} WordReads(size: nat, tabs: bool, d: int, t: string)
    requires forall k | 0 <= k < |t| :: 'a' <= t[k] <= 'z'
    ensures Reads(size, tabs, Word(d), t) == Word(d)
    decreases |t|
  {
    if t != "" { WordReads(size, tabs, d, t[1..]); }
  }

  lemma LiteralReads(size: nat, tabs: bool, m: Mode, d: int, t: string)
    requires Begins(size, m, d) && t != "" && (t[0] == 't' || t[0] == 'f' || t[0] == 'n')
    requires forall k | 0 <= k < |t| :: 'a' <= t[k] <= 'z'
    ensures Reads(size, tabs, m, t) == Word(d)
  {
    BeginRead(size, tabs, m, d, t[0]);
    WordReads(size, tabs, d, t[1..]);
  }

  lemma {:induction false} SpacesRead(size: nat, tabs: bool, m: Mode, n: nat)
    requires m.Line? || m.Last?
    ensures Reads(size, tabs, m, Spaces(n)) == m.(blanks := m.blanks + n)
    decreases n
  {
    if n > 0 {
      assert Spaces(n)[1..] == Spaces(n - 1);
      SpacesRead(size, tabs, m.(blanks := m.blanks + 1), n - 1);
    }
  }

  // The break before an element.
  lemma BreakReads(size: nat, tabs: bool, d: nat, empty: bool)
    ensures Begins(size, Reads(size, tabs, Opened(d, empty), Sep(size, size * d)), d)
  {
    hide Spaces;
    if size > 0 {
      ReadsJoin(size, tabs, Opened(d, empty), "\n", Spaces(size * d));
      ReadsOne(size, tabs, Opened(d, empty), '\n');
      SpacesRead(size, tabs, Line(d, empty, 0), size * d);
    }
  }

  // The break before a closing bracket, after the last element or in an empty container, and the bracket.
  lemma CloseReads(size: nat, tabs: bool, m: Mode, d: nat, close: char)
    requires Ended(m, d + 1) || m == Opened(d + 1, true)
    requires IsCloser(close)
    ensures Reads(size, tabs, m, Sep(size, size * d) + [close]) == After(d)
  {
    hide Spaces;
    var m' := Reads(size, tabs, m, Sep(size, size * d));
    ReadsJoin(size, tabs, m, Sep(size, size * d), [close]);
    ReadsOne(size, tabs, m', close);
    if size > 0 {
      ReadsJoin(size, tabs, m, "\n", Spaces(size * d));
      ReadsOne(size, tabs, m, '\n');
      SpacesRead(size, tabs, Read(size, tabs, m, '\n'), size * d);
    }
  }

  lemma CommaReads(size: nat, tabs: bool, m: Mode, d: int)
    requires Ended(m, d)
    ensures Reads(size, tabs, m, ",") == Opened(d, false)
  {
    ReadsOne(size, tabs, m, ',');
  }

  lemma ColonReads(size: nat, tabs: bool, m: Mode, d: int)
    requires Ended(m, d)
    ensures Reads(size, tabs, m, ": ") == Ready(d)
  {
    assert ": "[1..] == " ";
    ReadsOne(size, tabs, Colon(d), ' ');
  }

  lemma IndentStep(size: nat, d: nat)
    ensures size * d + size == size * (d + 1)
  {
  }

  lemma {:induction false} PrintReads(v: Value, size: nat, tabs: bool, m: Mode, d: nat)
    requires Suits(v, tabs) && Begins(size, m, d)
    ensures Ended(Reads(size, tabs, m, Print(v, size, size * d)), d)
    decreases v, 0
  {
    hide Reads, Read, Begins, Sep, Decimal, DecimalI64, Quote;
    match v
    case Null => LiteralReads(size, tabs, m, d, "null");
    case Bool(b) => LiteralReads(size, tabs, m, d, if b then "true" else "false");
    case U64(n) => DecimalReads(size, tabs, m, d, n);
    case I64(i) => SignedReads(size, tabs, m, d, i);
    case Str(s) => QuoteReads(size, tabs, m, d, s);
    case Array(vs) => ArrayReads(vs, size, tabs, m, d);
    case Dict(fs) => DictReads(fs, size, tabs, m, d);
  }

  lemma OpenReads(size: nat, tabs: bool, m: Mode, d: int, open: char)
    requires Begins(size, m, d) && (open == '[' || open == '{')
    ensures Reads(size, tabs, m, [open]) == Opened(d + 1, true)
  {
    ReadsOne(size, tabs, m, open);
    BeginRead(size, tabs, m, d, open);
  }

  lemma ArrayPrinted(vs: seq<Value>, size: nat, d: nat)
    ensures size * (d + 1) == size * d + size
    ensures var close := Sep(size, size * d) + "]";
            Print(Array(vs), size, size * d) ==
            if vs == [] then "[" + close
            else "[" + (Sep(size, size * (d + 1)) +
                        (Print(vs[0], size, size * (d + 1)) + (PrintRest(vs[1..], size, size * (d + 1)) + close)))
  {
    hide Sep, Spaces, PrintRest;
    IndentStep(size, d);
    if vs != [] {
      var a, x := Sep(size, size * (d + 1)), Print(vs[0], size, size * (d + 1));
      var r, close := PrintRest(vs[1..], size, size * (d + 1)), Sep(size, size * d) + "]";
      assert "[" + (a + x + r) + Sep(size, size * d) + "]" == "[" + (a + (x + (r + close)));
    } else {
      assert "[" + "" + Sep(size, size * d) + "]" == "[" + (Sep(size, size * d) + "]");
    }
  }

  lemma {:induction false} ArrayReads(vs: seq<Value>, size: nat, tabs: bool, m: Mode, d: nat)
    requires (forall i | 0 <= i < |vs| :: Suits(vs[i], tabs)) && Begins(size, m, d)
    ensures Reads(size, tabs, m, Print(Array(vs), size, size * d)) == After(d)
    decreases vs, 2
  {
    hide Reads, Read, Begins, Sep, Suits, Print, PrintRest;
    ArrayPrinted(vs, size, d);
    OpenReads(size, tabs, m, d, '[');
    var close := Sep(size, size * d) + "]";
    if vs == [] {
      ReadsJoin(size, tabs, m, "[", close);
      CloseReads(size, tabs, Opened(d + 1, true), d, ']');
    } else {
      var a, x := Sep(size, size * (d + 1)), Print(vs[0], size, size * (d + 1));
      var r := PrintRest(vs[1..], size, size * (d + 1));
      ReadsJoin(size, tabs, m, "[", a + (x + (r + close)));
      BreakReads(size, tabs, d + 1, true);
      ReadsJoin(size, tabs, Opened(d + 1, true), a, x + (r + close));
      var m1 := Reads(size, tabs, Opened(d + 1, true), a);
      PrintReads(vs[0], size, tabs, m1, d + 1);
      ReadsJoin(size, tabs, m1, x, r + close);
      var m2 := Reads(size, tabs, m1, x);
      RestReads(vs[1..], size, tabs, m2, d + 1);
      ReadsJoin(size, tabs, m2, r, close);
      CloseReads(size, tabs, Reads(size, tabs, m2, r), d, ']');
    }
  }

  lemma {:induction false} RestReads(vs: seq<Value>, size: nat, tabs: bool, m: Mode, d: nat)
    requires (forall i | 0 <= i < |vs| :: Suits(vs[i], tabs)) && Ended(m, d)
    ensures Ended(Reads(size, tabs, m, PrintRest(vs, size, size * d)), d)
    decreases vs, 1
  {
    hide Read, Begins, Sep, Suits, Print;
    if vs != [] {
      hide Reads;
      var a, x := Sep(size, size * d), Print(vs[0], size, size * d);
      var r := PrintRest(vs[1..], size, size * d);
      assert PrintRest(vs, size, size * d) == "," + (a + (x + r));
      CommaReads(size, tabs, m, d);
      ReadsJoin(size, tabs, m, ",", a + (x + r));
      BreakReads(size, tabs, d, false);
      ReadsJoin(size, tabs, Opened(d, false), a, x + r);
      var m1 := Reads(size, tabs, Opened(d, false), a);
      PrintReads(vs[0], size, tabs, m1, d);
      ReadsJoin(size, tabs, m1, x, r);
      RestReads(vs[1..], size, tabs, Reads(size, tabs, m1, x), d);
    }
  }

  lemma {:induction false} FieldReads(f: Field, size: nat, tabs: bool, m: Mode, d: nat)
    requires (tabs || Tabless(f.key)) && Suits(f.value, tabs) && Begins(size, m, d)
    ensures Ended(Reads(size, tabs, m, PrintField(f, size, size * d)), d)
    decreases f, 1
  {
    hide Reads, Read, Begins, Quote, Print, Suits;
    var x := Print(f.value, size, size * d);
    QuoteReads(size, tabs, m, d, f.key);
    ReadsJoin(size, tabs, m, Quote(f.key), ": " + x);
    ColonReads(size, tabs, After(d), d);
    ReadsJoin(size, tabs, After(d), ": ", x);
    ReadyBegins(size, d);
    PrintReads(f.value, size, tabs, Ready(d), d);
  }

  lemma ReadyBegins(size: nat, d: int)
    ensures Begins(size, Ready(d), d)
  {
  }

  lemma DictPrinted(fs: seq<Field>, size: nat, d: nat)
    ensures size * (d + 1) == size * d + size
    ensures var close := Sep(size, size * d) + "}";
            Print(Dict(fs), size, size * d) ==
            if fs == [] then "{" + close
            else "{" + (Sep(size, size * (d + 1)) +
                        (PrintField(fs[0], size, size * (d + 1)) +
                         (PrintFields(fs[1..], size, size * (d + 1)) + close)))
  {
    hide Sep, Spaces, PrintField, PrintFields;
    IndentStep(size, d);
    if fs != [] {
      var a, x := Sep(size, size * (d + 1)), PrintField(fs[0], size, size * (d + 1));
      var r, close := PrintFields(fs[1..], size, size * (d + 1)), Sep(size, size * d) + "}";
      assert "{" + (a + x + r) + Sep(size, size * d) + "}" == "{" + (a + (x + (r + close)));
    } else {
      assert "{" + "" + Sep(size, size * d) + "}" == "{" + (Sep(size, size * d) + "}");
    }
  }

  lemma {:induction false} DictReads(fs: seq<Field>, size: nat, tabs: bool, m: Mode, d: nat)
    requires forall i | 0 <= i < |fs| :: (tabs || Tabless(fs[i].key)) && Suits(fs[i].value, tabs)
    requires Begins(size, m, d)
    ensures Reads(size, tabs, m, Print(Dict(fs), size, size * d)) == After(d)
    decreases fs, 2
  {
    hide Reads, Read, Begins, Sep, Suits, Print, PrintField, PrintFields;
    DictPrinted(fs, size, d);
    OpenReads(size, tabs, m, d, '{');
    var close := Sep(size, size * d) + "}";
    if fs == [] {
      ReadsJoin(size, tabs, m, "{", close);
      CloseReads(size, tabs, Opened(d + 1, true), d, '}');
    } else {
      var a, x := Sep(size, size * (d + 1)), PrintField(fs[0], size, size * (d + 1));
      var r := PrintFields(fs[1..], size, size * (d + 1));
      ReadsJoin(size, tabs, m, "{", a + (x + (r + close)));
      BreakReads(size, tabs, d + 1, true);
      ReadsJoin(size, tabs, Opened(d + 1, true), a, x + (r + close));
      var m1 := Reads(size, tabs, Opened(d + 1, true), a);
      FieldReads(fs[0], size, tabs, m1, d + 1);
      ReadsJoin(size, tabs, m1, x, r + close);
      var m2 := Reads(size, tabs, m1, x);
      FieldsRead(fs[1..], size, tabs, m2, d + 1);
      ReadsJoin(size, tabs, m2, r, close);
      CloseReads(size, tabs, Reads(size, tabs, m2, r), d, '}');
    }
  }

  lemma {:induction false} FieldsRead(fs: seq<Field>, size: nat, tabs: bool, m: Mode, d: nat)
    requires (forall i | 0 <= i < |fs| :: (tabs || Tabless(fs[i].key)) && Suits(fs[i].value, tabs)) && Ended(m, d)
    ensures Ended(Reads(size, tabs, m, PrintFields(fs, size, size * d)), d)
    decreases fs, 1
  {
    hide Read, Begins, Sep, Suits, PrintField;
    if fs != [] {
      hide Reads;
      var a, x := Sep(size, size * d), PrintField(fs[0], size, size * d);
      var r := PrintFields(fs[1..], size, size * d);
      assert PrintFields(fs, size, size * d) == "," + (a + (x + r));
      CommaReads(size, tabs, m, d);
      ReadsJoin(size, tabs, m, ",", a + (x + r));
      BreakReads(size, tabs, d, false);
      ReadsJoin(size, tabs, Opened(d, false), a, x + r);
      var m1 := Reads(size, tabs, Opened(d, false), a);
      FieldReads(fs[0], size, tabs, m1, d);
      ReadsJoin(size, tabs, m1, x, r);
      FieldsRead(fs[1..], size, tabs, Reads(size, tabs, m1, x), d);
    }
  }

  // Every document the writer produces is laid out.
  lemma PrintLaidOut(v: Value, size: nat)
    requires NoFloats(v)
    ensures LaidOut(Print(v, size, 0), size, true)
  {
    SuitsTabs(v);
    PrintAccepted(v, size, true);
  }

  lemma PrintAccepted(v: Value, size: nat, tabs: bool)
    requires Suits(v, tabs)
    ensures LaidOut(Print(v, size, 0), size, tabs)
  {
    ReadyBegins(size, 0);
    PrintReads(v, size, tabs, Ready(0), 0);
    assert size * 0 == 0;
  }

  lemma {:induction false} SuitsTabs(v: Value)
    requires NoFloats(v)
    ensures Suits(v, true)
    decreases v
  {
    match v
    case Array(vs) => forall i | 0 <= i < |vs| ensures Suits(vs[i], true) { SuitsTabs(vs[i]); }
    case Dict(fs) => forall i | 0 <= i < |fs| ensures Suits(fs[i].value, true) { SuitsTabs(fs[i].value); }
    case _ =>
  }

  // ----- what that means, position by position -----

  // Brackets outside strings, and whether a position is in a string, from the characters alone.
  datatype Nest = Nest(depth: int, quoted: bool, escaped: bool)

  function Nesting(t: string): Nest {
    if t == "" then Nest(0, false, false)
    else
      var n, c := Nesting(t[..|t| - 1]), t[|t| - 1];
      if n.quoted then
        (if n.escaped then n.(escaped := false)
         else if c == '\\' then n.(escaped := true)
         else if c == '\"' then n.(quoted := false)
         else n)
      else if c == '\"' then n.(quoted := true)
      else if c == '[' || c == '{' then n.(depth := n.depth + 1)
      else if IsCloser(c) then n.(depth := n.depth - 1)
      else n
  }

  function ModeAt(t: string, size: nat, tabs: bool, k: nat): Mode
    requires k <= |t|
  {
    Reads(size, tabs, Ready(0), t[..k])
  }

  lemma AtEnds(t: string, size: nat, tabs: bool)
    ensures ModeAt(t, size, tabs, 0) == Ready(0) && ModeAt(t, size, tabs, |t|) == Reads(size, tabs, Ready(0), t)
  {
    assert t[..0] == "" && t[..|t|] == t;
  }

  lemma ModeNext(t: string, size: nat, tabs: bool, k: nat)
    requires k < |t|
    ensures ModeAt(t, size, tabs, k + 1) == Read(size, tabs, ModeAt(t, size, tabs, k), t[k])
  {
    hide Read;
    assert t[..k + 1] == t[..k] + [t[k]];
    ReadsJoin(size, tabs, Ready(0), t[..k], [t[k]]);
    ReadsOne(size, tabs, ModeAt(t, size, tabs, k), t[k]);
  }

  lemma {:induction false} BadStays(size: nat, tabs: bool, t: string)
    ensures Reads(size, tabs, Bad, t) == Bad
    decreases |t|
  {
    if t != "" { BadStays(size, tabs, t[1..]); }
  }

  lemma NeverBad(t: string, size: nat, tabs: bool, k: nat)
    requires LaidOut(t, size, tabs) && k <= |t|
    ensures ModeAt(t, size, tabs, k) != Bad
  {
    hide Read;
    assert t == t[..k] + t[k..];
    ReadsJoin(size, tabs, Ready(0), t[..k], t[k..]);
    BadStays(size, tabs, t[k..]);
  }

  // The reader counts brackets and follows strings as the characters say.
  ghost predicate Counts(m: Mode, n: Nest) {
    m != Bad && m.depth == n.depth && n.quoted == (m.Quoted? || m.Escaped?) && n.escaped == m.Escaped?
  }

  lemma {:induction false} ModeCounts(t: string, size: nat, tabs: bool, k: nat)
    requires LaidOut(t, size, tabs) && k <= |t|
    ensures Counts(ModeAt(t, size, tabs, k), Nesting(t[..k]))
    decreases k
  {
    if k > 0 {
      ModeCounts(t, size, tabs, k - 1);
      ModeNext(t, size, tabs, k - 1);
      NeverBad(t, size, tabs, k);
      assert t[..k][..k - 1] == t[..k - 1];
    } else {
      assert t[..0] == "";
    }
  }

  // Only blanks between a line break at j and position k.
  ghost predicate Indented(t: string, j: int, k: nat) {
    0 <= j < k <= |t| && t[j] == '\n' && forall i | j < i < k :: t[i] == ' '
  }

  lemma {:induction false} LineBack(t: string, size: nat, tabs: bool, k: nat)
    requires LaidOut(t, size, tabs) && k <= |t| && (ModeAt(t, size, tabs, k).Line? || ModeAt(t, size, tabs, k).Last?)
    ensures Indented(t, k - 1 - ModeAt(t, size, tabs, k).blanks, k)
    decreases k
  {
    AtEnds(t, size, tabs);
    ModeNext(t, size, tabs, k - 1);
    NeverBad(t, size, tabs, k - 1);
    var m := ModeAt(t, size, tabs, k - 1);
    if m.Line? || m.Last? { LineBack(t, size, tabs, k - 1); }
  }

  // The first character after the blanks of a line.
  lemma {:induction false} LineForward(t: string, size: nat, tabs: bool, k: nat) returns (e: nat)
    requires LaidOut(t, size, tabs) && k <= |t| && (ModeAt(t, size, tabs, k).Line? || ModeAt(t, size, tabs, k).Last?)
    ensures k <= e < |t| && (forall i | k <= i < e :: t[i] == ' ') && t[e] != ' '
    ensures var m := ModeAt(t, size, tabs, k);
            m.blanks + (e - k) == size * (m.depth - if IsCloser(t[e]) then 1 else 0)
    decreases |t| - k
  {
    AtEnds(t, size, tabs);
    ModeNext(t, size, tabs, k);
    NeverBad(t, size, tabs, k + 1);
    if t[k] == ' ' { e := LineForward(t, size, tabs, k + 1); } else { e := k; }
  }

  // Every line break is followed by the indent times the depth of blanks, or one less on a line that
  // begins with a closing bracket; without an indent there are no line breaks.
  lemma LineBreaks(t: string, size: nat, tabs: bool, k: nat) returns (e: nat)
    requires LaidOut(t, size, tabs) && k < |t| && t[k] == '\n'
    ensures size > 0 && !Nesting(t[..k]).quoted && Indented(t, k, e) && e < |t| && t[e] != ' '
    ensures e - k - 1 == size * (Nesting(t[..k]).depth - if IsCloser(t[e]) then 1 else 0)
  {
    ModeCounts(t, size, tabs, k);
    ModeNext(t, size, tabs, k);
    NeverBad(t, size, tabs, k + 1);
    e := LineForward(t, size, tabs, k + 1);
  }

  // With an indent elements and closing brackets stand on lines of their own, and blanks are indents or
  // the one after a colon; without one there is no other blank.
  lemma OwnLines(t: string, size: nat, tabs: bool, k: nat)
    requires LaidOut(t, size, tabs) && k < |t| && !Nesting(t[..k]).quoted
    ensures size > 0 && (t[k] == '[' || t[k] == '{' || t[k] == ',') ==> k + 1 < |t| && t[k + 1] == '\n'
    ensures size > 0 && IsCloser(t[k]) ==> exists j :: Indented(t, j, k)
    ensures t[k] == ' ' ==> (k > 0 && t[k - 1] == ':') || (size > 0 && exists j :: Indented(t, j, k))
    ensures t[k] == ':' ==> k + 2 < |t| && t[k + 1] == ' ' && t[k + 2] != ' '
  {
    ModeCounts(t, size, tabs, k);
    ModeNext(t, size, tabs, k);
    NeverBad(t, size, tabs, k + 1);
    var m, m' := ModeAt(t, size, tabs, k), ModeAt(t, size, tabs, k + 1);
    AtEnds(t, size, tabs);
    if m.Line? || m.Last? {
      LineBack(t, size, tabs, k);
      LineSize(t, size, tabs, k);
    }
    if m.Colon? {
      ColonBack(t, size, tabs, k);
    }
    if k + 1 < |t| {
      ModeNext(t, size, tabs, k + 1);
      NeverBad(t, size, tabs, k + 2);
      if k + 2 < |t| {
        ModeNext(t, size, tabs, k + 2);
        NeverBad(t, size, tabs, k + 3);
      }
    }
  }

  lemma {:induction false} LineSize(t: string, size: nat, tabs: bool, k: nat)
    requires LaidOut(t, size, tabs) && k <= |t| && (ModeAt(t, size, tabs, k).Line? || ModeAt(t, size, tabs, k).Last?)
    ensures size > 0
    decreases k
  {
    AtEnds(t, size, tabs);
    ModeNext(t, size, tabs, k - 1);
    NeverBad(t, size, tabs, k - 1);
    if ModeAt(t, size, tabs, k - 1).Line? || ModeAt(t, size, tabs, k - 1).Last? { LineSize(t, size, tabs, k - 1); }
  }

  lemma ColonBack(t: string, size: nat, tabs: bool, k: nat)
    requires LaidOut(t, size, tabs) && k <= |t| && ModeAt(t, size, tabs, k).Colon?
    ensures k > 0 && t[k - 1] == ':'
  {
    AtEnds(t, size, tabs);
    ModeNext(t, size, tabs, k - 1);
    NeverBad(t, size, tabs, k - 1);
  }
}
