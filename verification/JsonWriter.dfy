// The buffered, indenting writer of src/json.c.
module JsonWriters {
  import opened JsonText
  import opened JsonRoundTrip
  import opened Fmt
  import JsonGrammar
  import JsonLayout
  import JsonCanonical
  import Bits

  // What json_write_str sees of a string: the characters before the first NUL.
  function CString(s: string): (r: string)
    ensures |r| <= |s|
  {
    if s == "" || s[0] == '\0' then "" else [s[0]] + CString(s[1..])
  }

  predicate NoNul(s: string) {
    forall i | 0 <= i < |s| :: s[i] != '\0'
  }

  lemma {:induction false} CStringAt(s: string, i: nat)
    requires i <= |CString(s)|
    ensures s[..i] == CString(s)[..i]
    ensures i < |CString(s)| <==> i < |s| && s[i] != '\0'
    ensures i < |CString(s)| ==> CString(s)[i] == s[i]
    decreases i
  {
    if i > 0 {
      var t := s[1..];
      CStringAt(t, i - 1);
      assert s[..i] == [s[0]] + t[..i - 1];
      assert CString(s)[..i] == [s[0]] + CString(t)[..i - 1];
    }
  }

  lemma {:induction false} CStringWhole(s: string)
    requires NoNul(s)
    ensures CString(s) == s
  {
    if s != "" { CStringWhole(s[1..]); }
  }

  // What a JsonValue can hold: numbers within their 64 bits and strings that a NUL ends.
  predicate Stored(v: Value)
    decreases v
  {
    match v
    case U64(n) => Bits.BitLen(n) <= 64
    case I64(i) => -1 * TWO63 <= i < TWO63
    case Str(s) => NoNul(s)
    case Array(vs) => forall i | 0 <= i < |vs| :: Stored(vs[i])
    case Dict(fs) => forall i | 0 <= i < |fs| :: NoNul(fs[i].key) && Stored(fs[i].value)
    case _ => true
  }

  predicate Writable(v: Value) {
    NoFloats(v) && Stored(v)
  }

  // json_char_is_escaped
  predicate IsEscaped(c: char) {
    c == '\'' || |EscapeChar(c)| == 2
  }

  // What the sizing loop of json_write_str reserves: three per escaped character, one otherwise.
  function Reserved(s: string): nat {
    if s == "" then 0 else (if IsEscaped(s[0]) then 3 else 1) + Reserved(s[1..])
  }

  lemma {:induction false} ReservedEnough(s: string)
    ensures |Escape(s)| <= Reserved(s)
  {
    if s != "" { ReservedEnough(s[1..]); }
  }

  lemma {:induction false} EscapeAppend(s: string, i: nat)
    requires i < |s|
    ensures Escape(s[..i + 1]) == Escape(s[..i]) + EscapeChar(s[i])
    ensures Reserved(s[..i + 1]) == Reserved(s[..i]) + (if IsEscaped(s[i]) then 3 else 1)
    ensures |Escape(s[..i])| + |EscapeChar(s[i])| <= |Escape(s)|
    decreases i
  {
    hide EscapeChar;
    if i == 0 {
      assert s[..1] == [s[0]] && s[..1][1..] == "" && s[..0] == "";
    } else {
      var t := s[1..];
      EscapeAppend(t, i - 1);
      assert s[..i + 1][1..] == t[..i] && s[..i][1..] == t[..i - 1] && t[i - 1] == s[i];
    }
  }

  class JsonWriter {
    var str: array<char>
    var size: nat
    var capacity: nat
    var indent: nat
    const indentSize: nat

    ghost predicate Valid()
      reads this
    {
      capacity == str.Length && size < capacity
    }

    ghost function Text(): string
      requires Valid()
      reads this, str
    {
      str[..size]
    }

    constructor (indentSize: nat)
      ensures Valid() && fresh(str) && Text() == "" && indent == 0 && this.indentSize == indentSize
    {
      str := new char[4096];
      capacity := 4096;
      size := 0;
      indent := 0;
      this.indentSize := indentSize;
    }

    // json_write_realloc: doubles until the text and what is needed fit with one to spare.
    method Reserve(needed: nat)
      requires Valid()
      modifies this`str, this`capacity
      ensures Valid() && (str == old(str) || fresh(str)) && Text() == old(Text())
      ensures size + needed < capacity
    {
      var total := size + needed;
      var newCapacity := capacity;
      if total < newCapacity {
        return;
      }
      while total >= newCapacity
        invariant newCapacity >= capacity
        decreases total - newCapacity
      {
        newCapacity := 2 * newCapacity;
      }
      var oldStr := str;
      str := new char[newCapacity](i requires 0 <= i < newCapacity reads oldStr =>
        if i < oldStr.Length then oldStr[i] else '\0');
      capacity := newCapacity;
    }

    // json_write_literal, and json_write_char for a text of one character.
    method WriteLiteral(lit: string)
      requires Valid()
      modifies this`str, this`capacity, this`size, str
      ensures Valid() && (str == old(str) || fresh(str)) && Text() == old(Text()) + lit
    {
      Reserve(|lit|);
      ghost var t := Text();
      var i := 0;
      while i < |lit|
        invariant Valid() && size + |lit| < capacity && (str == old(str) || fresh(str))
        invariant i <= |lit| && str[..size + i] == t + lit[..i]
      {
        ghost var u := str[..size + i];
        str[size + i] := lit[i];
        i := i + 1;
        assert str[..size + i] == u + [lit[i - 1]];
      }
      assert lit[..|lit|] == lit;
      size := size + |lit|;
    }

    method WriteIndent()
      requires Valid()
      modifies this`str, this`capacity, this`size, str
      ensures Valid() && (str == old(str) || fresh(str)) && Text() == old(Text()) + Spaces(indent)
    {
      WriteLiteral(Spaces(indent));
    }

    method WriteU64(n: nat)
      requires Valid() && Bits.BitLen(n) <= 64
      modifies this`str, this`capacity, this`size, str
      ensures Valid() && (str == old(str) || fresh(str)) && Text() == old(Text()) + Decimal(n)
    {
      hide Decimal, Bits.BitLen;
      var sz := FmtSizeU64(n);
      Reserve(sz);
      ghost var t := Text();
      var k := FmtU64(str, size, n);
      assert str[..size + sz] == str[..size] + str[size..size + sz];
      size := size + sz;
    }

    method WriteI64(i: int)
      requires Valid() && -1 * TWO63 <= i < TWO63
      modifies this`str, this`capacity, this`size, str
      ensures Valid() && (str == old(str) || fresh(str)) && Text() == old(Text()) + DecimalI64(i)
    {
      hide DecimalI64;
      var sz := FmtSizeI64(i);
      Reserve(sz);
      ghost var t := Text();
      var k := FmtI64(str, size, i);
      assert str[..size + sz] == str[..size] + str[size..size + sz];
      size := size + sz;
    }

    // The sizing loop of json_write_str.
    static method EscapedSize(s: string) returns (sz: nat)
      ensures sz == Reserved(CString(s)) >= |Escape(CString(s))|
    {
      hide Escape, EscapeChar, Reserved, IsEscaped, CString;
      ghost var c := CString(s);
      sz := 0;
      EmptyText();
      var i := 0;
      CStringAt(s, 0);
      while i < |s| && s[i] != '\0'
        invariant i <= |c| && sz == Reserved(c[..i]) && (i < |c| <==> i < |s| && s[i] != '\0')
        invariant i < |c| ==> c[i] == s[i]
      {
        EscapeAppend(c, i);
        sz := sz + if IsEscaped(s[i]) then 3 else 1;
        i := i + 1;
        CStringAt(s, i);
      }
      assert c[..i] == c;
      ReservedEnough(c);
    }

    // json_write_str: sizes the text first, then writes without further checks.
    method WriteStr(s: string)
      requires Valid()
      modifies this`str, this`capacity, this`size, str
      ensures Valid() && (str == old(str) || fresh(str)) && Text() == old(Text()) + Quote(CString(s))
    {
      hide Escape, EscapeChar, Reserved, CString;
      var sz := EscapedSize(s);
      Reserve(sz + 2);
      ghost var t := Text();
      PutQuote();
      WriteEscaped(s);
      PutQuote();
      assert t + "\"" + Escape(CString(s)) + "\"" == t + ("\"" + Escape(CString(s)) + "\"");
    }

    method PutQuote()
      requires Valid() && size + 1 < capacity
      modifies this`size, str
      ensures Valid() && size == old(size) + 1 && str[..size] == old(str[..size]) + "\""
    {
      str[size] := '\"';
      size := size + 1;
    }

    // The writing loop of json_write_str.
    method WriteEscaped(s: string)
      requires Valid() && size + |Escape(CString(s))| < capacity
      modifies this`size, str
      ensures Valid() && str[..size] == old(str[..size]) + Escape(CString(s))
    {
      hide Escape, EscapeChar, Reserved, CString;
      ghost var c, t := CString(s), str[..size];
      EmptyText();
      var i := 0;
      CStringAt(s, 0);
      while i < |s| && s[i] != '\0'
        invariant i <= |c| && (i < |c| <==> i < |s| && s[i] != '\0') && (i < |c| ==> c[i] == s[i])
        invariant Valid() && str[..size] == t + Escape(c[..i]) && |Escape(c[..i])| <= |Escape(c)|
      {
        EscapeAppend(c, i);
        assert |str[..size]| == size;
        PutEscaped(s[i]);
        assert t + Escape(c[..i]) + EscapeChar(c[i]) == t + (Escape(c[..i]) + EscapeChar(c[i]));
        i := i + 1;
        CStringAt(s, i);
      }
      assert c[..i] == c;
    }

    static lemma EmptyText()
      ensures Reserved("") == 0 && Escape("") == ""
    {
    }

    // The body of the writing loop of json_write_str.
    method PutEscaped(c: char)
      requires Valid() && size + |EscapeChar(c)| < capacity
      modifies this`size, str
      ensures Valid() && str[..size] == old(str[..size]) + EscapeChar(c)
    {
      ghost var t := str[..size];
      var e := EscapeChar(c);
      if |e| == 2 {
        str[size] := '\\';
        size := size + 1;
        str[size] := e[1];
        size := size + 1;
        assert str[..size] == t + e;
      } else {
        str[size] := c;
        size := size + 1;
        assert str[..size] == t + [c];
      }
    }

    // The line break and indentation that open an element or close a container.
    method WriteBreak()
      requires Valid()
      modifies this`str, this`capacity, this`size, str
      ensures Valid() && (str == old(str) || fresh(str)) && Text() == old(Text()) + Sep(indentSize, indent)
    {
      if indentSize > 0 {
        WriteLiteral("\n");
        WriteIndent();
        assert Sep(indentSize, indent) == "\n" + Spaces(indent);
      }
    }

    // The comma, line break and indentation before the i-th element of a container.
    method WriteLead(i: nat)
      requires Valid()
      modifies this`str, this`capacity, this`size, str
      ensures Valid() && (str == old(str) || fresh(str)) && Text() == old(Text()) + Lead(i, indentSize, indent)
    {
      hide Sep;
      if i > 0 {
        WriteLiteral(",");
      }
      WriteBreak();
    }

    // The element loop of json_write_array.
    method WriteElems(vs: seq<Value>)
      requires Valid() && Writable(Array(vs))
      modifies this, str
      ensures Valid() && (str == old(str) || fresh(str)) && indent == old(indent)
      ensures Text() == old(Text()) + ElemsBody(vs, indentSize, indent)
      decreases vs, 0
    {
      hide Print, Sep, Writable, ElemsBody, Lead;
      ghost var t := Text();
      EmptyBodies(indentSize, indent);
      assert vs[..0] == [];
      for i := 0 to |vs|
        invariant Valid() && (str == old(str) || fresh(str)) && indent == old(indent)
        invariant Text() == t + ElemsBody(vs[..i], indentSize, indent)
      {
        ghost var b := ElemsBody(vs[..i], indentSize, indent);
        WriteLead(i);
        ElementWritable(vs, i);
        WriteValue(vs[i]);
        ElemsBodyAppend(vs, i, indentSize, indent);
        Join(t, b, Lead(i, indentSize, indent), Print(vs[i], indentSize, indent));
      }
      assert vs[..|vs|] == vs;
    }

    static lemma Join(t: string, b: string, l: string, x: string)
      ensures t + b + l + x == t + (b + l + x)
    {
    }

    method WriteArray(vs: seq<Value>)
      requires Valid() && Writable(Array(vs))
      modifies this, str
      ensures Valid() && (str == old(str) || fresh(str)) && indent == old(indent)
      ensures Text() == old(Text()) + Print(Array(vs), indentSize, indent)
      decreases vs, 1
    {
      hide Print, Sep, Writable, ElemsBody;
      ghost var t := Text();
      WriteLiteral("[");
      indent := indent + indentSize;
      WriteElems(vs);
      indent := indent - indentSize;
      WriteBreak();
      WriteLiteral("]");
      ArrayIsBody(vs, indentSize, indent);
      Join(t, "[", ElemsBody(vs, indentSize, indent + indentSize), Sep(indentSize, indent) + "]");
    }

    // The element loop of json_write_dict.
    method WriteFields(fs: seq<Field>)
      requires Valid() && Writable(Dict(fs))
      modifies this, str
      ensures Valid() && (str == old(str) || fresh(str)) && indent == old(indent)
      ensures Text() == old(Text()) + FieldsBody(fs, indentSize, indent)
      decreases fs, 0
    {
      hide Print, Sep, Writable, FieldsBody, Lead, PrintField;
      ghost var t := Text();
      EmptyBodies(indentSize, indent);
      assert fs[..0] == [];
      for i := 0 to |fs|
        invariant Valid() && (str == old(str) || fresh(str)) && indent == old(indent)
        invariant Text() == t + FieldsBody(fs[..i], indentSize, indent)
      {
        ghost var b := FieldsBody(fs[..i], indentSize, indent);
        WriteLead(i);
        FieldWritable(fs, i);
        WriteField(fs[i]);
        FieldsBodyAppend(fs, i, indentSize, indent);
        Join(t, b, Lead(i, indentSize, indent), PrintField(fs[i], indentSize, indent));
      }
      assert fs[..|fs|] == fs;
    }

    method WriteField(f: Field)
      requires Valid() && Writable(f.value) && NoNul(f.key)
      modifies this, str
      ensures Valid() && (str == old(str) || fresh(str)) && indent == old(indent)
      ensures Text() == old(Text()) + PrintField(f, indentSize, indent)
      decreases f, 0
    {
      hide Print, Writable, Quote, CString;
      ghost var t := Text();
      CStringWhole(f.key);
      WriteStr(f.key);
      WriteLiteral(":");
      WriteLiteral(" ");
      WriteValue(f.value);
      assert Text() == t + (Quote(f.key) + (": " + Print(f.value, indentSize, indent)));
    }

    method WriteDict(fs: seq<Field>)
      requires Valid() && Writable(Dict(fs))
      modifies this, str
      ensures Valid() && (str == old(str) || fresh(str)) && indent == old(indent)
      ensures Text() == old(Text()) + Print(Dict(fs), indentSize, indent)
      decreases fs, 1
    {
      hide Print, Sep, Writable, FieldsBody;
      ghost var t := Text();
      WriteLiteral("{");
      indent := indent + indentSize;
      WriteFields(fs);
      indent := indent - indentSize;
      WriteBreak();
      WriteLiteral("}");
      DictIsBody(fs, indentSize, indent);
      Join(t, "{", FieldsBody(fs, indentSize, indent + indentSize), Sep(indentSize, indent) + "}");
    }

    method WriteValue(v: Value)
      requires Valid() && Writable(v)
      modifies this, str
      ensures Valid() && (str == old(str) || fresh(str)) && indent == old(indent)
      ensures Text() == old(Text()) + Print(v, indentSize, indent)
      decreases v, 1
    {
      hide Sep, ElemsBody, FieldsBody, PrintRest, PrintFields, PrintField, Decimal, DecimalI64, Quote;
      match v
      case Null => WriteLiteral("null");
      case Bool(b) => if b { WriteLiteral("true"); } else { WriteLiteral("false"); }
      case U64(n) => WriteU64(n);
      case I64(i) => WriteI64(i);
      case Str(s) =>
        CStringWhole(s);
        WriteStr(s);
      case Array(vs) => WriteArray(vs);
      case Dict(fs) => WriteDict(fs);
    }
  }

  // json_write: for every value without floats, whatever the number of reallocations, the text is
  // the one Print defines. It is laid out, and if the value is in the domain it is the only document that
  // derives the value and is laid out.
  method JsonWrite(v: Value, indentSize: nat) returns (text: string)
    requires Writable(v)
    ensures text == Print(v, indentSize, 0) && JsonLayout.LaidOut(text, indentSize, true)
    ensures InDomain(v) ==>
              forall t :: t == text <==> JsonGrammar.Derives(t, v) && JsonLayout.LaidOut(t, indentSize, false)
  {
    var writer := new JsonWriter(indentSize);
    writer.WriteValue(v);
    text := writer.str[..writer.size];
    TextIsTheOne(v, indentSize);
  }

  lemma TextIsTheOne(v: Value, size: nat)
    requires Writable(v)
    ensures JsonLayout.LaidOut(Print(v, size, 0), size, true)
    ensures InDomain(v) ==>
              forall t :: t == Print(v, size, 0) <==> JsonGrammar.Derives(t, v) && JsonLayout.LaidOut(t, size, false)
  {
    hide Print, InDomain, NoFloats, Stored, JsonGrammar.Derives, JsonLayout.LaidOut;
    JsonLayout.PrintLaidOut(v, size);
    if InDomain(v) {
      forall t ensures t == Print(v, size, 0) <==> JsonGrammar.Derives(t, v) && JsonLayout.LaidOut(t, size, false) {
        JsonCanonical.PrintIsTheOne(t, v, size);
      }
    }
  }

  // ----- the text between brackets, one element at a time -----

  function Lead(i: nat, size: nat, indent: nat): string {
    (if i > 0 then "," else "") + Sep(size, indent)
  }

  function ElemsBody(vs: seq<Value>, size: nat, indent: nat): string {
    if vs == [] then "" else Sep(size, indent) + Print(vs[0], size, indent) + PrintRest(vs[1..], size, indent)
  }

  function FieldsBody(fs: seq<Field>, size: nat, indent: nat): string {
    if fs == [] then ""
    else Sep(size, indent) + PrintField(fs[0], size, indent) + PrintFields(fs[1..], size, indent)
  }

  lemma EmptyBodies(size: nat, indent: nat)
    ensures ElemsBody([], size, indent) == "" && FieldsBody([], size, indent) == ""
  {
  }

  lemma ElementWritable(vs: seq<Value>, i: nat)
    requires i < |vs| && Writable(Array(vs))
    ensures Writable(vs[i])
  {
  }

  lemma FieldWritable(fs: seq<Field>, i: nat)
    requires i < |fs| && Writable(Dict(fs))
    ensures Writable(fs[i].value) && NoNul(fs[i].key)
  {
  }

  lemma {:induction false} PrintRestAppend(vs: seq<Value>, v: Value, size: nat, indent: nat)
    ensures PrintRest(vs + [v], size, indent) ==
            PrintRest(vs, size, indent) + ("," + Sep(size, indent) + Print(v, size, indent))
    decreases |vs|
  {
    hide Print, Sep;
    if vs == [] {
      assert vs + [v] == [v] && [v][1..] == [];
    } else {
      PrintRestAppend(vs[1..], v, size, indent);
      assert (vs + [v])[1..] == vs[1..] + [v];
    }
  }

  lemma {:induction false} PrintFieldsAppend(fs: seq<Field>, f: Field, size: nat, indent: nat)
    ensures PrintFields(fs + [f], size, indent) ==
            PrintFields(fs, size, indent) + ("," + Sep(size, indent) + PrintField(f, size, indent))
    decreases |fs|
  {
    hide PrintField, Sep;
    if fs == [] {
      assert fs + [f] == [f] && [f][1..] == [];
    } else {
      PrintFieldsAppend(fs[1..], f, size, indent);
      assert (fs + [f])[1..] == fs[1..] + [f];
    }
  }

  lemma ElemsBodyAppend(vs: seq<Value>, i: nat, size: nat, indent: nat)
    requires i < |vs|
    ensures ElemsBody(vs[..i + 1], size, indent) ==
            ElemsBody(vs[..i], size, indent) + Lead(i, size, indent) + Print(vs[i], size, indent)
  {
    hide Print, Sep;
    if i == 0 {
      assert vs[..1] == [vs[0]] && vs[..1][1..] == [];
    } else {
      assert vs[..i + 1][1..] == vs[1..i] + [vs[i]] && vs[..i][1..] == vs[1..i];
      PrintRestAppend(vs[1..i], vs[i], size, indent);
    }
  }

  lemma FieldsBodyAppend(fs: seq<Field>, i: nat, size: nat, indent: nat)
    requires i < |fs|
    ensures FieldsBody(fs[..i + 1], size, indent) ==
            FieldsBody(fs[..i], size, indent) + Lead(i, size, indent) + PrintField(fs[i], size, indent)
  {
    hide PrintField, Sep;
    if i == 0 {
      assert fs[..1] == [fs[0]] && fs[..1][1..] == [];
    } else {
      assert fs[..i + 1][1..] == fs[1..i] + [fs[i]] && fs[..i][1..] == fs[1..i];
      PrintFieldsAppend(fs[1..i], fs[i], size, indent);
    }
  }

  lemma ArrayIsBody(vs: seq<Value>, size: nat, indent: nat)
    ensures Print(Array(vs), size, indent) == "[" + ElemsBody(vs, size, indent + size) + (Sep(size, indent) + "]")
  {
    hide Sep;
  }

  lemma DictIsBody(fs: seq<Field>, size: nat, indent: nat)
    ensures Print(Dict(fs), size, indent) == "{" + FieldsBody(fs, size, indent + size) + (Sep(size, indent) + "}")
  {
    hide Sep, PrintField;
  }
}
