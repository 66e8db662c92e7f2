// The bytecode emitter of src/regex.c and the machine that runs the bytecode.
module Regex {

  datatype Operator = Alternate | Concatenate | ZeroOrMore | OneOrMore | ZeroOrOne

  // A character token is a single character, any character, or of the third kind, which emits no test.
  datatype Token =
    | Single(c: nat)
    | AnyChar
    | OtherChar
    | Range(lo: nat, hi: nat)
    | Op(op: Operator)
    | GroupBegin
    | GroupEnd
    | Invalid

  predicate IsQuantifier(t: Token) {
    t.Op? && (t.op.ZeroOrMore? || t.op.OneOrMore? || t.op.ZeroOrOne?)
  }

  // ----- instructions -----

  const JUMP_FAIL: int := 0x7FFF_FFFF

  datatype Instr =
    | TestSingle(c: nat)
    | TestRange(lo: nat, hi: nat)
    | TestAny
    | TestDigit
    | TestLowerCase
    | TestUpperCase
    | JumpEq(off: int)
    | JumpNeq(off: int)
    | Accept
    | Fail
    | GroupStart(id: nat)
    | GroupStop(id: nat)
    | IncPosEq
    | SetFlag(b: nat)

  function Size(i: Instr): (n: nat)
    ensures n > 0
  {
    match i
    case TestSingle(_) => 2
    case TestRange(_, _) => 3
    case JumpEq(_) => 5
    case JumpNeq(_) => 5
    case GroupStart(_) => 2
    case GroupStop(_) => 2
    case SetFlag(_) => 2
    case _ => 1
  }

  // Bytes taken by a piece of code.
  function Len(code: seq<Instr>): nat {
    if code == [] then 0 else Len(code[..|code| - 1]) + Size(code[|code| - 1])
  }

  lemma {:induction false} LenAppend(a: seq<Instr>, b: seq<Instr>)
    ensures Len(a + b) == Len(a) + Len(b)
    decreases |b|
  {
    if b == [] {
      assert a + b == a;
    } else {
      LenAppend(a, b[..|b| - 1]);
      assert (a + b)[..|a + b| - 1] == a + b[..|b| - 1];
    }
  }

  lemma LenOne(x: Instr)
    ensures Len([x]) == Size(x)
  {
    assert [x][..0] == [];
  }

  // ----- the emitters -----

  // The position reached, the next group id and the code; or a rejected expression.
  datatype Emit = Emitted(pos: nat, group: nat, code: seq<Instr>) | Failed

  function EmitRange(lo: nat, hi: nat): seq<Instr> {
    if lo == '0' as nat && hi == '9' as nat then [TestDigit, IncPosEq]
    else if lo == 'a' as nat && hi == 'z' as nat then [TestLowerCase, IncPosEq]
    else if lo == 'A' as nat && hi == 'Z' as nat then [TestUpperCase, IncPosEq]
    else [TestRange(lo, hi), IncPosEq]
  }

  function EmitAlternation(ts: seq<Token>, pos: nat, group: nat): (r: Emit)
    requires pos <= |ts|
    ensures r.Emitted? ==> pos <= r.pos <= |ts|
    decreases |ts| - pos, 3
  {
    var r := EmitConcatenation(ts, pos, group, true);
    if r.Failed? then Failed else AlternationLoop(ts, r.pos, r.group, r.code)
  }

  // The loop over further alternatives: a jump over the right-hand side, then its code.
  function AlternationLoop(ts: seq<Token>, pos: nat, group: nat, code: seq<Instr>): (r: Emit)
    requires pos <= |ts|
    ensures r.Emitted? ==> pos <= r.pos <= |ts|
    decreases |ts| - pos, 0
  {
    if pos < |ts| && ts[pos] == Op(Alternate) then
      var r := EmitConcatenation(ts, pos + 1, group, true);
      if r.Failed? then Failed
      else AlternationLoop(ts, r.pos, r.group, code + [JumpEq(5 + Len(r.code))] + r.code)
    else Emitted(pos, group, code)
  }

  // Stops at the end or at the end of a group, and not at an alternation sign.
  function EmitConcatenation(ts: seq<Token>, pos: nat, group: nat, first: bool): (r: Emit)
    requires pos <= |ts|
    ensures r.Emitted? ==> pos <= r.pos <= |ts|
    decreases |ts| - pos, 2
  {
    if pos >= |ts| || ts[pos].GroupEnd? then Emitted(pos, group, [])
    else
      var q := EmitQuantified(ts, pos, group);
      if q.Failed? then Failed
      else
        var rest := EmitConcatenation(ts, q.pos, q.group, false);
        if rest.Failed? then Failed
        else Emitted(rest.pos, rest.group, (if first then [] else [JumpNeq(JUMP_FAIL)]) + q.code + rest.code)
  }

  function Star(p: seq<Instr>): seq<Instr> {
    p + [JumpEq(0 - Len(p)), SetFlag(1)]
  }

  function Plus(p: seq<Instr>): seq<Instr> {
    p + [JumpNeq(JUMP_FAIL)] + p + [JumpNeq(10), SetFlag(1), JumpEq(0 - Len(p) - 12)]
  }

  function EmitQuantified(ts: seq<Token>, pos: nat, group: nat): (r: Emit)
    requires pos < |ts|
    ensures r.Emitted? ==> pos < r.pos <= |ts|
    decreases |ts| - pos, 1
  {
    var p := EmitPrimary(ts, pos, group);
    if p.Failed? then Failed
    else if p.pos >= |ts| || !ts[p.pos].Op? then p
    else
      match ts[p.pos].op
      case ZeroOrMore => Emitted(p.pos + 1, p.group, Star(p.code))
      case OneOrMore => Emitted(p.pos + 1, p.group, Plus(p.code))
      case ZeroOrOne => Emitted(p.pos + 1, p.group, p.code + [SetFlag(1)])
      case _ => p
  }

  function EmitPrimary(ts: seq<Token>, pos: nat, group: nat): (r: Emit)
    requires pos < |ts|
    ensures r.Emitted? ==> pos < r.pos <= |ts|
    decreases |ts| - pos, 0
  {
    match ts[pos]
    case Single(c) => Emitted(pos + 1, group, [TestSingle(c), IncPosEq])
    case AnyChar => Emitted(pos + 1, group, [TestAny, IncPosEq])
    case OtherChar => Emitted(pos + 1, group, [IncPosEq])
    case Range(lo, hi) => Emitted(pos + 1, group, EmitRange(lo, hi))
    case GroupBegin =>
      var r := EmitAlternation(ts, pos + 1, group + 1);
      if r.Failed? || r.pos >= |ts| || !ts[r.pos].GroupEnd? then Failed
      else Emitted(r.pos + 1, r.group, [GroupStart(group % 256)] + r.code + [GroupStop(group % 256)])
    case Op(Alternate) => EmitAlternation(ts, pos + 1, group)
    case Op(Concatenate) => EmitConcatenation(ts, pos + 1, group, true)
    case _ => Failed
  }

  // The code before the jumps to the final Fail are resolved.
  function EmitAll(ts: seq<Token>): Emit {
    if ts == [] then Emitted(0, 1, [Accept])
    else
      var r := EmitAlternation(ts, 0, 1);
      if r.Failed? || r.pos < |ts| then Failed
      else Emitted(r.pos, r.group, r.code + [JumpNeq(JUMP_FAIL), Accept, Fail])
  }

  // ----- which token lists are accepted -----

  // A reference in one pass: groups balance, and a quantifier directly follows an operand.
  predicate Scan(ts: seq<Token>, i: nat, depth: nat, operand: bool)
    requires i <= |ts|
    decreases |ts| - i
  {
    if i == |ts| then depth == 0
    else
      match ts[i]
      case Single(_) => Scan(ts, i + 1, depth, true)
      case AnyChar => Scan(ts, i + 1, depth, true)
      case OtherChar => Scan(ts, i + 1, depth, true)
      case Range(_, _) => Scan(ts, i + 1, depth, true)
      case Op(_) => (IsQuantifier(ts[i]) ==> operand) && Scan(ts, i + 1, depth, false)
      case GroupBegin => Scan(ts, i + 1, depth + 1, false)
      case GroupEnd => depth > 0 && Scan(ts, i + 1, depth - 1, true)
      case Invalid => false
  }

  predicate AtEnd(ts: seq<Token>, i: nat) {
    i == |ts| || (i < |ts| && ts[i].GroupEnd?)
  }

  // Concatenation runs to the end or to the end of its group, so no alternation sign is left for
  // the loop of the alternation emitter, which therefore never emits a jump.
  lemma {:induction false} ConcatenationEnds(ts: seq<Token>, pos: nat, group: nat, first: bool)
    requires pos <= |ts|
    ensures var r := EmitConcatenation(ts, pos, group, first); r.Emitted? ==> AtEnd(ts, r.pos)
    decreases |ts| - pos
  {
    hide EmitQuantified;
    if pos < |ts| && !ts[pos].GroupEnd? {
      var q := EmitQuantified(ts, pos, group);
      if q.Emitted? { ConcatenationEnds(ts, q.pos, q.group, false); }
    }
  }

  lemma AlternationIsConcatenation(ts: seq<Token>, pos: nat, group: nat)
    requires pos <= |ts|
    ensures EmitAlternation(ts, pos, group) == EmitConcatenation(ts, pos, group, true)
  {
    hide EmitConcatenation;
    ConcatenationEnds(ts, pos, group, true);
  }

  // Away from a quantifier it does not matter whether an operand came before.
  lemma FlagIrrelevant(ts: seq<Token>, i: nat, depth: nat, f: bool, g: bool)
    requires i <= |ts| && (i < |ts| ==> !IsQuantifier(ts[i]))
    ensures Scan(ts, i, depth, f) == Scan(ts, i, depth, g)
  {
  }

  lemma {:induction false} ConcatenationScans(ts: seq<Token>, pos: nat, group: nat, first: bool, depth: nat, f: bool)
    requires pos <= |ts| && (pos < |ts| && IsQuantifier(ts[pos]) ==> !f)
    ensures var r := EmitConcatenation(ts, pos, group, first);
            if r.Emitted? then Scan(ts, pos, depth, f) == Scan(ts, r.pos, depth, true) else !Scan(ts, pos, depth, f)
    decreases |ts| - pos, 2
  {
    hide EmitQuantified, Scan;
    if pos >= |ts| || ts[pos].GroupEnd? {
      FlagIrrelevant(ts, pos, depth, f, true);
    } else {
      QuantifiedScans(ts, pos, group, depth, f);
      var q := EmitQuantified(ts, pos, group);
      if q.Emitted? {
        var g := !(q.pos < |ts| && IsQuantifier(ts[q.pos]));
        assert Scan(ts, pos, depth, f) == Scan(ts, q.pos, depth, g);
        ConcatenationScans(ts, q.pos, q.group, false, depth, g);
      }
    }
  }

  lemma {:induction false} QuantifiedScans(ts: seq<Token>, pos: nat, group: nat, depth: nat, f: bool)
    requires pos < |ts| && !ts[pos].GroupEnd? && (IsQuantifier(ts[pos]) ==> !f)
    ensures var r := EmitQuantified(ts, pos, group);
            if r.Emitted? then
              forall g | r.pos < |ts| && IsQuantifier(ts[r.pos]) ==> !g ::
                Scan(ts, pos, depth, f) == Scan(ts, r.pos, depth, g)
            else !Scan(ts, pos, depth, f)
    decreases |ts| - pos, 1
  {
    PrimaryScans(ts, pos, group, depth, f);
    var p := EmitPrimary(ts, pos, group);
    hide EmitPrimary;
    if p.Emitted? {
      var r := EmitQuantified(ts, pos, group);
      forall g | r.pos < |ts| && IsQuantifier(ts[r.pos]) ==> !g
        ensures Scan(ts, pos, depth, f) == Scan(ts, r.pos, depth, g)
      {
        if p.pos < |ts| && IsQuantifier(ts[p.pos]) {
          if !(r.pos < |ts| && IsQuantifier(ts[r.pos])) { FlagIrrelevant(ts, r.pos, depth, false, g); }
        } else {
          FlagIrrelevant(ts, p.pos, depth, true, g);
        }
      }
    }
  }

  lemma {:induction false} PrimaryScans(ts: seq<Token>, pos: nat, group: nat, depth: nat, f: bool)
    requires pos < |ts| && !ts[pos].GroupEnd? && (IsQuantifier(ts[pos]) ==> !f)
    ensures var r := EmitPrimary(ts, pos, group);
            if r.Emitted? then Scan(ts, pos, depth, f) == Scan(ts, r.pos, depth, true) else !Scan(ts, pos, depth, f)
    decreases |ts| - pos, 0
  {
    match ts[pos]
    case GroupBegin =>
      AlternationIsConcatenation(ts, pos + 1, group + 1);
      ConcatenationEnds(ts, pos + 1, group + 1, true);
      ConcatenationScans(ts, pos + 1, group + 1, true, depth + 1, false);
    case Op(Alternate) =>
      AlternationIsConcatenation(ts, pos + 1, group);
      ConcatenationScans(ts, pos + 1, group, true, depth, false);
    case Op(Concatenate) =>
      ConcatenationScans(ts, pos + 1, group, true, depth, false);
    case _ =>
  }

  // The emitter accepts exactly what the one-pass reference accepts.
  lemma AcceptedIffScanned(ts: seq<Token>)
    ensures EmitAll(ts).Emitted? <==> Scan(ts, 0, 0, false)
  {
    if ts != [] {
      AlternationIsConcatenation(ts, 0, 1);
      ConcatenationEnds(ts, 0, 1, true);
      ConcatenationScans(ts, 0, 1, true, 0, false);
    }
  }

  // ----- jumps -----

  // Byte offset of instruction k.
  function Offset(code: seq<Instr>, k: nat): nat
    requires k <= |code|
  {
    Len(code[..k])
  }

  ghost predicate Boundary(code: seq<Instr>, p: int) {
    exists k: nat :: k <= |code| && p == Offset(code, k)
  }

  // A backward jump lands on an instruction of the same piece; the other jumps go to the final
  // Fail, but for the exit of a one-or-more loop.
  ghost predicate JumpOk(code: seq<Instr>, k: nat, exits: bool)
    requires k < |code|
  {
    && (code[k].JumpEq? ==>
          code[k].off < 0 && exists j: nat :: j <= k && Offset(code, j) == Offset(code, k) + code[k].off)
    && (code[k].JumpNeq? ==> code[k].off == JUMP_FAIL || (exits && code[k].off == 10))
  }

  ghost predicate Jumps(code: seq<Instr>, exits: bool) {
    forall k: nat | k < |code| :: JumpOk(code, k, exits)
  }

  lemma OffsetAppend(a: seq<Instr>, b: seq<Instr>, k: nat)
    requires k <= |a| + |b|
    ensures k <= |a| ==> Offset(a + b, k) == Offset(a, k)
    ensures k >= |a| ==> Offset(a + b, k) == Len(a) + Offset(b, k - |a|)
  {
    if k <= |a| {
      assert (a + b)[..k] == a[..k];
    }
    if k >= |a| {
      assert (a + b)[..k] == a + b[..k - |a|];
      LenAppend(a, b[..k - |a|]);
    }
  }

  lemma JumpsAppend(a: seq<Instr>, b: seq<Instr>, exits: bool)
    requires Jumps(a, exits) && Jumps(b, exits)
    ensures Jumps(a + b, exits)
  {
    hide Len;
    forall k: nat | k < |a + b| ensures JumpOk(a + b, k, exits) {
      OffsetAppend(a, b, k);
      if k < |a| {
        assert JumpOk(a, k, exits);
        if a[k].JumpEq? {
          var j: nat :| j <= k && Offset(a, j) == Offset(a, k) + a[k].off;
          OffsetAppend(a, b, j);
        }
      } else {
        assert JumpOk(b, k - |a|, exits);
        if b[k - |a|].JumpEq? {
          var j: nat :| j <= k - |a| && Offset(b, j) == Offset(b, k - |a|) + b[k - |a|].off;
          OffsetAppend(a, b, j + |a|);
        }
      }
    }
  }

  lemma NoJumps(code: seq<Instr>, exits: bool)
    requires forall k: nat | k < |code| :: !code[k].JumpEq? && (code[k].JumpNeq? ==> code[k].off == JUMP_FAIL)
    ensures Jumps(code, exits)
  {
    forall k: nat | k < |code| ensures JumpOk(code, k, exits) {}
  }

  // A backward jump appended to a piece, to its instruction j.
  lemma JumpsBack(code: seq<Instr>, j: nat, off: int, exits: bool)
    requires Jumps(code, exits) && j <= |code| && off == Offset(code, j) - Len(code) && off < 0
    ensures Jumps(code + [JumpEq(off)], exits)
  {
    var b := [JumpEq(off)];
    forall k: nat | k < |code + b| ensures JumpOk(code + b, k, exits) {
      OffsetAppend(code, b, k);
      if k < |code| {
        assert JumpOk(code, k, exits);
        if code[k].JumpEq? {
          var i: nat :| i <= k && Offset(code, i) == Offset(code, k) + code[k].off;
          OffsetAppend(code, b, i);
        }
      } else {
        OffsetAppend(code, b, j);
        assert code[..|code|] == code;
      }
    }
  }

  lemma StarJumps(p: seq<Instr>, exits: bool)
    requires Jumps(p, exits) && Len(p) > 0
    ensures Jumps(Star(p), exits)
  {
    hide Len;
    EmptyLen();
    assert p[..0] == [];
    JumpsBack(p, 0, 0 - Len(p), exits);
    NoJumps([SetFlag(1)], exits);
    JumpsAppend(p + [JumpEq(0 - Len(p))], [SetFlag(1)], exits);
    assert Star(p) == p + [JumpEq(0 - Len(p))] + [SetFlag(1)];
  }

  lemma EmptyLen()
    ensures Len([]) == 0
  {
  }

  lemma PlusJumps(p: seq<Instr>)
    requires Jumps(p, true)
    ensures Jumps(Plus(p), true)
  {
    hide Jumps, Len;
    var a, c := [JumpNeq(JUMP_FAIL)], [JumpNeq(10), SetFlag(1)];
    var loop := a + p + c;
    NoJumps(a, true);
    ExitJump();
    JumpsAppend(a, p, true);
    JumpsAppend(a + p, c, true);
    JumpsAppend(p, loop, true);
    var code := p + loop;
    PlusLen(p);
    assert code[..|p|] == p;
    JumpsBack(code, |p|, 0 - Len(p) - 12, true);
    assert Plus(p) == code + [JumpEq(0 - Len(p) - 12)];
  }

  lemma ExitJump()
    ensures Jumps([JumpNeq(10), SetFlag(1)], true)
  {
    var c := [JumpNeq(10), SetFlag(1)];
    forall k: nat | k < |c| ensures JumpOk(c, k, true) {}
  }

  lemma PlusLen(p: seq<Instr>)
    ensures Len(p + ([JumpNeq(JUMP_FAIL)] + p + [JumpNeq(10), SetFlag(1)])) == 2 * Len(p) + 12
    ensures Len(Plus(p)) == 2 * Len(p) + 17
  {
    hide Len;
    var a, c := [JumpNeq(JUMP_FAIL)], [JumpNeq(10), SetFlag(1)];
    var e := [JumpEq(0 - Len(p) - 12)];
    LenOne(a[0]);
    LenOne(e[0]);
    LenOne(c[0]);
    LenOne(c[1]);
    LenAppend([c[0]], [c[1]]);
    assert c == [c[0]] + [c[1]];
    LenAppend(a, p);
    LenAppend(a + p, c);
    LenAppend(p, a + p + c);
    LenAppend(p + (a + p + c), e);
    assert Plus(p) == p + (a + p + c) + e;
  }

  // Only one-or-more makes an exit jump.
  predicate NoPlus(ts: seq<Token>) {
    forall i | 0 <= i < |ts| :: ts[i] != Op(OneOrMore)
  }

  lemma {:induction false} ConcatenationJumps(ts: seq<Token>, pos: nat, group: nat, first: bool, exits: bool)
    requires pos <= |ts| && (exits || NoPlus(ts))
    ensures var r := EmitConcatenation(ts, pos, group, first); r.Emitted? ==> Jumps(r.code, exits)
    decreases |ts| - pos, 2
  {
    hide EmitQuantified, Jumps;
    if pos >= |ts| || ts[pos].GroupEnd? {
      NoJumps([], exits);
    } else {
      var q := EmitQuantified(ts, pos, group);
      if q.Emitted? {
        QuantifiedJumps(ts, pos, group, exits);
        ConcatenationJumps(ts, q.pos, q.group, false, exits);
        var rest := EmitConcatenation(ts, q.pos, q.group, false);
        if rest.Emitted? {
          var a := if first then [] else [JumpNeq(JUMP_FAIL)];
          NoJumps(a, exits);
          JumpsAppend(a, q.code, exits);
          JumpsAppend(a + q.code, rest.code, exits);
        }
      }
    }
  }

  lemma {:induction false} QuantifiedJumps(ts: seq<Token>, pos: nat, group: nat, exits: bool)
    requires pos < |ts| && (exits || NoPlus(ts))
    ensures var r := EmitQuantified(ts, pos, group); r.Emitted? ==> Jumps(r.code, exits)
    decreases |ts| - pos, 1
  {
    hide EmitPrimary, Jumps, Star, Plus;
    PrimaryJumps(ts, pos, group, exits);
    var p := EmitPrimary(ts, pos, group);
    if p.Emitted? && p.pos < |ts| && IsQuantifier(ts[p.pos]) {
      OperandNotEmpty(ts, pos, group);
      if ts[p.pos].op.ZeroOrMore? {
        StarJumps(p.code, exits);
      } else if ts[p.pos].op.OneOrMore? {
        PlusJumps(p.code);
      } else {
        NoJumps([SetFlag(1)], exits);
        JumpsAppend(p.code, [SetFlag(1)], exits);
      }
    }
  }

  // A quantifier follows only a primary that has emitted something.
  lemma OperandNotEmpty(ts: seq<Token>, pos: nat, group: nat)
    requires pos < |ts|
    requires var p := EmitPrimary(ts, pos, group); p.Emitted? && p.pos < |ts| && IsQuantifier(ts[p.pos])
    ensures Len(EmitPrimary(ts, pos, group).code) > 0
  {
    if ts[pos].Op? {
      AlternationIsConcatenation(ts, pos + 1, group);
      ConcatenationEnds(ts, pos + 1, group, true);
    }
  }

  lemma {:induction false} PrimaryJumps(ts: seq<Token>, pos: nat, group: nat, exits: bool)
    requires pos < |ts| && (exits || NoPlus(ts))
    ensures var r := EmitPrimary(ts, pos, group); r.Emitted? ==> Jumps(r.code, exits)
    decreases |ts| - pos, 0
  {
    hide Jumps, EmitConcatenation, EmitAlternation;
    match ts[pos]
    case GroupBegin =>
      AlternationIsConcatenation(ts, pos + 1, group + 1);
      ConcatenationJumps(ts, pos + 1, group + 1, true, exits);
      var r := EmitAlternation(ts, pos + 1, group + 1);
      if r.Emitted? {
        NoJumps([GroupStart(group % 256)], exits);
        NoJumps([GroupStop(group % 256)], exits);
        JumpsAppend([GroupStart(group % 256)], r.code, exits);
        JumpsAppend([GroupStart(group % 256)] + r.code, [GroupStop(group % 256)], exits);
      }
    case Op(o) =>
      AlternationIsConcatenation(ts, pos + 1, group);
      ConcatenationJumps(ts, pos + 1, group, true, exits);
    case Invalid =>
    case GroupEnd =>
    case _ =>
      var r := EmitPrimary(ts, pos, group);
      NoJumps(r.code, exits);
  }

  // Whole programs.
  lemma ProgramJumps(ts: seq<Token>, exits: bool)
    requires EmitAll(ts).Emitted? && (exits || NoPlus(ts))
    ensures Jumps(EmitAll(ts).code, exits)
  {
    hide Jumps, EmitAlternation;
    if ts == [] {
      NoJumps([Accept], exits);
    } else {
      AlternationIsConcatenation(ts, 0, 1);
      ConcatenationJumps(ts, 0, 1, true, exits);
      NoJumps([JumpNeq(JUMP_FAIL), Accept, Fail], exits);
      JumpsAppend(EmitAlternation(ts, 0, 1).code, [JumpNeq(JUMP_FAIL), Accept, Fail], exits);
    }
  }
}
