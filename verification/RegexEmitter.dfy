// The emitter of src/regex.c as it works: tokens are consumed at a position, bytes are pushed on a
// vector, and jumps are patched once their distance is known.
module RegexEmitter {
  import opened Regex
  import opened RegexMachine
  import opened Wrappers

  ghost function Glue(code: seq<Instr>, e: Emit): Emit {
    if e.Failed? then Failed else Emitted(e.pos, e.group, code + e.code)
  }

  lemma AssembleNext(a: seq<Instr>, x: Instr)
    ensures Assemble(a + [x]) == Assemble(a) + Encode(x)
  {
    assert (a + [x])[..|a|] == a;
  }

  lemma AssembleOne(x: Instr)
    ensures Assemble([x]) == Encode(x)
  {
    assert [x] == [] + [x];
    AssembleNext([], x);
  }

  lemma AssembleTwo(x: Instr, y: Instr)
    ensures Assemble([x, y]) == Encode(x) + Encode(y)
  {
    hide Encode, Assemble;
    AssembleOne(x);
    assert [x, y] == [x] + [y];
    AssembleNext([x], y);
  }

  // A jump emitted with distance 0 and patched after the code it spans.
  lemma PatchedJump(a: seq<nat>, x: Instr, rest: seq<Instr>, off: int)
    requires IsJump(x)
    ensures |Encode(x)| == 5
    ensures Patch(a + Encode(x) + Assemble(rest), |a| + 1, off) == a + Assemble([Retarget(x, off)] + rest)
  {
    hide Encode, Assemble, Patch;
    EncodeJump(x);
    PatchJump(a, x, Assemble(rest), off);
    AssembleAppend([Retarget(x, off)], rest);
    AssembleOne(Retarget(x, off));
    assert a + Encode(Retarget(x, off)) + Assemble(rest) == a + (Encode(Retarget(x, off)) + Assemble(rest));
  }

  class Emitter {
    const tokens: seq<Token>
    var pos: nat
    var group: nat
    var code: seq<nat>

    constructor (tokens: seq<Token>)
      ensures this.tokens == tokens && pos == 0 && group == 1 && code == []
    {
      this.tokens := tokens;
      pos, group, code := 0, 1, [];
    }

    method EmitJump(op: nat) returns (at: nat)
      modifies this`code
      ensures code == old(code) + ([op] + JumpBytes(0)) && at == |old(code)| + 1
    {
      code := code + [op];
      at := |code|;
      var bytes := JumpBytes(0);
      var i := 0;
      while i < 4
        invariant i <= 4 && code == old(code) + [op] + bytes[..i]
      {
        code := code + [bytes[i]];
        i := i + 1;
      }
      assert bytes[..4] == bytes;
    }

    method PatchJump(at: nat, off: int)
      requires at + 4 <= |code|
      modifies this`code
      ensures code == Patch(old(code), at, off)
    {
      var bytes := JumpBytes(off);
      code := code[at := bytes[0]];
      code := code[at + 1 := bytes[1]];
      code := code[at + 2 := bytes[2]];
      code := code[at + 3 := bytes[3]];
    }

    // A jump whose distance is known when it is emitted.
    method EmitJumpTo(x: Instr)
      requires IsJump(x)
      modifies this`code
      ensures code == old(code) + Encode(x)
    {
      hide Encode, JumpBytes, Patch;
      var zero := Retarget(x, 0);
      EncodeJump(zero);
      var at := EmitJump(Opcode(x));
      assert code == old(code) + Encode(zero) + [];
      RegexMachine.PatchJump(old(code), zero, [], x.off);
      PatchJump(at, x.off);
      assert Retarget(zero, x.off) == x;
    }

    // Has the state become what emission e says?
    ghost predicate Reached(e: Emit, ok: bool, before: seq<nat>)
      reads this
    {
      ok == e.Emitted? && (ok ==> pos == e.pos && group == e.group && code == before + Assemble(e.code))
    }

    method EmitAlternation() returns (ok: bool)
      requires pos <= |tokens|
      modifies this
      ensures Reached(Regex.EmitAlternation(tokens, old(pos), old(group)), ok, old(code))
      decreases |tokens| - pos, 4
    {
      hide Regex.EmitAlternation, Regex.EmitConcatenation, AlternationLoop, Assemble, Patch, JumpBytes, Len;
      AlternationStarts(tokens, pos, group);
      ok := EmitConcatenation();
      if !ok { return; }
      ghost var acc := Regex.EmitConcatenation(tokens, old(pos), old(group), true).code;
      while pos < |tokens| && tokens[pos] == Op(Alternate)
        invariant old(pos) <= pos <= |tokens|
        invariant code == old(code) + Assemble(acc)
        invariant AlternationLoop(tokens, pos, group, acc) == Regex.EmitAlternation(tokens, old(pos), old(group))
        decreases |tokens| - pos
      {
        ghost var before := code;
        AlternationTurns(tokens, pos, group, acc);
        pos := pos + 1;
        var at := EmitJump(7);
        ghost var here, id := pos, group;
        ok := EmitConcatenation();
        if !ok { return; }
        ghost var rest := Regex.EmitConcatenation(tokens, here, id, true).code;
        AlternativeBytes(before, acc, rest, old(code));
        PatchJump(at, |code| - (at - 1));
        acc := acc + [JumpEq(5 + Len(rest))] + rest;
      }
      AlternationStops(tokens, pos, group, acc);
      ok := true;
    }

    method EmitConcatenation() returns (ok: bool)
      requires pos <= |tokens|
      modifies this
      ensures Reached(Regex.EmitConcatenation(tokens, old(pos), old(group), true), ok, old(code))
      decreases |tokens| - pos, 3
    {
      hide Regex.EmitConcatenation, Regex.EmitQuantified, Assemble, Encode, Glue;
      var first := true;
      ghost var acc: seq<Instr> := [];
      ConcatenationStarts(tokens, pos, group);
      while pos < |tokens| && !tokens[pos].GroupEnd?
        invariant old(pos) <= pos <= |tokens|
        invariant code == old(code) + Assemble(acc)
        invariant Glue(acc, Regex.EmitConcatenation(tokens, pos, group, first)) ==
                  Regex.EmitConcatenation(tokens, old(pos), old(group), true)
        decreases |tokens| - pos
      {
        ghost var link: seq<Instr> := if first then [] else [JumpNeq(JUMP_FAIL)];
        ghost var here, id := pos, group;
        ConcatenationBytes(old(code), acc, link);
        ConcatenationTurns(tokens, pos, group, first, acc);
        if !first { EmitJumpTo(JumpNeq(JUMP_FAIL)); }
        assert code == old(code) + Assemble(acc + link);
        ok := EmitQuantified();
        if !ok { return false; }
        ghost var q := Regex.EmitQuantified(tokens, here, id).code;
        AssembleAppend(acc + link, q);
        acc := acc + link + q;
        first := false;
      }
      ConcatenationStops(tokens, pos, group, first, acc);
      ok := true;
    }

    method EmitQuantified() returns (ok: bool)
      requires pos < |tokens|
      modifies this
      ensures Reached(Regex.EmitQuantified(tokens, old(pos), old(group)), ok, old(code))
      decreases |tokens| - pos, 2
    {
      hide Regex.EmitPrimary, Assemble, Encode, Star, Plus, Len;
      var start := |code|;
      ok := EmitPrimary();
      if !ok || pos >= |tokens| || !tokens[pos].Op? { return; }
      ghost var p := Regex.EmitPrimary(tokens, old(pos), old(group)).code;
      match tokens[pos].op
      case ZeroOrMore =>
        pos := pos + 1;
        EmitStar(start, p);
      case OneOrMore =>
        pos := pos + 1;
        EmitLoop(start, p);
      case ZeroOrOne =>
        pos := pos + 1;
        AssembleNext(p, SetFlag(1));
        FlagBytes();
        code := code + [17];
        code := code + [1];
      case Alternate =>
      case Concatenate =>
    }

    // Zero-or-more: a jump back over the operand.
    method EmitStar(start: nat, ghost p: seq<Instr>)
      requires start <= |code| && code[start..] == Assemble(p)
      modifies this`code
      ensures code == old(code)[..start] + Assemble(Star(p))
    {
      hide Assemble, Encode, Star, Len;
      StarBytes(p);
      EmitJumpTo(JumpEq(start - |code|));
      code := code + [17];
      code := code + [1];
      assert old(code) == old(code)[..start] + Assemble(p);
    }

    // One-or-more: the bytes of the operand are copied behind a jump to Fail, and repeated.
    method EmitLoop(start: nat, ghost p: seq<Instr>)
      requires start <= |code| && code[start..] == Assemble(p)
      modifies this`code
      ensures code == old(code)[..start] + Assemble(Plus(p))
    {
      hide Assemble, Encode, Plus, Len, Patch, JumpBytes;
      var loopStart := |code|;
      var copy := code[start..];
      EmitJumpTo(JumpNeq(JUMP_FAIL));
      CopyBack(copy);
      ghost var before := code;
      EncodeJump(JumpNeq(JUMP_FAIL));
      assert before == old(code)[..start] + Assemble(p) + Encode(JumpNeq(JUMP_FAIL)) + Assemble(p);
      PlusBytes(old(code)[..start], p, before);
      var exit := EmitJump(8);
      code := code + [17];
      code := code + [1];
      EmitJumpTo(JumpEq(loopStart - |code|));
      PatchJump(exit, |code| - exit - 1);
    }

    method CopyBack(copy: seq<nat>)
      modifies this`code
      ensures code == old(code) + copy
    {
      var i := 0;
      while i < |copy|
        invariant i <= |copy| && code == old(code) + copy[..i]
      {
        code := code + [copy[i]];
        i := i + 1;
      }
    }

    method EmitPrimary() returns (ok: bool)
      requires pos < |tokens|
      modifies this
      ensures Reached(Regex.EmitPrimary(tokens, old(pos), old(group)), ok, old(code))
      decreases |tokens| - pos, 1
    {
      hide Regex.EmitAlternation, Regex.EmitConcatenation, Assemble, Len;
      match tokens[pos]
      case Single(c) =>
        pos := pos + 1;
        code := code + [0];
        code := code + [c % 256];
        code := code + [15];
        AssembleTwo(TestSingle(c), IncPosEq);
        ok := true;
      case AnyChar =>
        pos := pos + 1;
        code := code + [3];
        code := code + [15];
        AssembleTwo(TestAny, IncPosEq);
        ok := true;
      case OtherChar =>
        pos := pos + 1;
        code := code + [15];
        AssembleOne(IncPosEq);
        ok := true;
      case Range(lo, hi) =>
        pos := pos + 1;
        EmitRangeBytes(lo, hi);
        ok := true;
      case GroupBegin =>
        ok := EmitGroup();
      case Op(o) =>
        pos := pos + 1;
        if o.Alternate? {
          ok := EmitAlternation();
        } else if o.Concatenate? {
          ok := EmitConcatenation();
        } else {
          ok := false;
        }
      case GroupEnd => ok := false;
      case Invalid => ok := false;
    }

    method EmitRangeBytes(lo: nat, hi: nat)
      modifies this`code
      ensures code == old(code) + Assemble(EmitRange(lo, hi))
    {
      ghost var x := EmitRange(lo, hi)[0];
      AssembleTwo(x, IncPosEq);
      if lo == '0' as nat && hi == '9' as nat {
        code := code + [4];
      } else if lo == 'a' as nat && hi == 'z' as nat {
        code := code + [5];
      } else if lo == 'A' as nat && hi == 'Z' as nat {
        code := code + [6];
      } else {
        code := code + [1];
        code := code + [lo % 256];
        code := code + [hi % 256];
      }
      assert code == old(code) + Encode(x);
      code := code + [15];
    }

    method EmitGroup() returns (ok: bool)
      requires pos < |tokens| && tokens[pos].GroupBegin?
      modifies this
      ensures Reached(Regex.EmitPrimary(tokens, old(pos), old(group)), ok, old(code))
      decreases |tokens| - pos, 0
    {
      hide Regex.EmitAlternation, Assemble, Len;
      var id := group;
      group := group + 1;
      pos := pos + 1;
      code := code + [11];
      code := code + [id % 256];
      ok := EmitAlternation();
      if !ok { return; }
      if pos >= |tokens| || !tokens[pos].GroupEnd? { return false; }
      GroupBytes(id % 256, Regex.EmitAlternation(tokens, old(pos) + 1, id + 1).code);
      code := code + [12];
      code := code + [id % 256];
      pos := pos + 1;
    }

    // regex_emit, with its pass that resolves the jumps to Fail.
    method EmitProgram() returns (ok: bool)
      requires pos == 0 && group == 1 && code == []
      modifies this
      ensures ok == Compile(tokens).Some? && (ok ==> code == Compile(tokens).value)
    {
      hide Regex.EmitAlternation, Assemble, Encode, FixUp, Len;
      if |tokens| == 0 {
        AcceptByte();
        code := code + [9];
        return true;
      }
      ok := EmitAlternation();
      if !ok || pos < |tokens| { return false; }
      ghost var body := Regex.EmitAlternation(tokens, 0, 1).code;
      EmitJumpTo(JumpNeq(JUMP_FAIL));
      code := code + [9];
      code := code + [10];
      ProgramBytes(body);
      assert code == Assemble(EmitAll(tokens).code);
      ok := ResolveJumps();
    }

    // The pass over the finished code.
    method ResolveJumps() returns (ok: bool)
      modifies this`code
      ensures ok == FixUp(old(code), 0).Some? && (ok ==> code == FixUp(old(code), 0).value)
    {
      hide DecodeJump, Patch;
      var i: nat := 0;
      while i < |code|
        invariant FixUp(code, i) == FixUp(old(code), 0)
        decreases |code| - i
      {
        if OpSize(code[i]) == 0 { return false; }
        if code[i] == 7 || code[i] == 8 {
          if i + 5 > |code| { return false; }
          if DecodeJump(code, i + 1) == JUMP_FAIL {
            PatchJump(i + 1, |code| - 1 - (i + 5));
          }
          i := i + 5;
        } else {
          i := i + OpSize(code[i]);
        }
      }
      ok := true;
    }
  }

  // ----- the loops of the emitter against its functions -----

  lemma AlternationStarts(ts: seq<Token>, pos: nat, group: nat)
    requires pos <= |ts|
    ensures var r := EmitConcatenation(ts, pos, group, true);
            EmitAlternation(ts, pos, group) == if r.Failed? then Failed else AlternationLoop(ts, r.pos, r.group, r.code)
  {
    hide EmitConcatenation, AlternationLoop;
  }

  lemma AlternationTurns(ts: seq<Token>, pos: nat, group: nat, acc: seq<Instr>)
    requires pos < |ts| && ts[pos] == Op(Alternate)
    ensures var r := EmitConcatenation(ts, pos + 1, group, true);
            AlternationLoop(ts, pos, group, acc) ==
            if r.Failed? then Failed else AlternationLoop(ts, r.pos, r.group, acc + [JumpEq(5 + Len(r.code))] + r.code)
  {
    hide EmitConcatenation, Len;
  }

  lemma AlternationStops(ts: seq<Token>, pos: nat, group: nat, acc: seq<Instr>)
    requires pos <= |ts| && !(pos < |ts| && ts[pos] == Op(Alternate))
    ensures AlternationLoop(ts, pos, group, acc) == Emitted(pos, group, acc)
  {
  }

  lemma ConcatenationStarts(ts: seq<Token>, pos: nat, group: nat)
    requires pos <= |ts|
    ensures Assemble([]) == []
    ensures var r := EmitConcatenation(ts, pos, group, true); Glue([], r) == r
  {
    hide EmitConcatenation;
    var r := EmitConcatenation(ts, pos, group, true);
    if r.Emitted? { assert [] + r.code == r.code; }
  }

  lemma ConcatenationTurns(ts: seq<Token>, pos: nat, group: nat, first: bool, acc: seq<Instr>)
    requires pos < |ts| && !ts[pos].GroupEnd?
    ensures var q := EmitQuantified(ts, pos, group);
            Glue(acc, EmitConcatenation(ts, pos, group, first)) ==
            if q.Failed? then Failed
            else Glue(acc + (if first then [] else [JumpNeq(JUMP_FAIL)]) + q.code,
                      EmitConcatenation(ts, q.pos, q.group, false))
  {
    hide EmitQuantified;
    var q := EmitQuantified(ts, pos, group);
    if q.Emitted? {
      var rest := EmitConcatenation(ts, q.pos, q.group, false);
      if rest.Emitted? {
        var link := if first then [] else [JumpNeq(JUMP_FAIL)];
        assert acc + (link + q.code + rest.code) == acc + link + q.code + rest.code;
      }
    }
  }

  lemma ConcatenationStops(ts: seq<Token>, pos: nat, group: nat, first: bool, acc: seq<Instr>)
    requires AtEnd(ts, pos)
    ensures Glue(acc, EmitConcatenation(ts, pos, group, first)) == Emitted(pos, group, acc)
  {
    assert acc + [] == acc;
  }

  // ----- the bytes of each construct -----

  lemma AlternativeBytes(before: seq<nat>, acc: seq<Instr>, rest: seq<Instr>, base: seq<nat>)
    requires before == base + Assemble(acc)
    ensures var b := before + ([7] + JumpBytes(0)) + Assemble(rest);
            |b| == |before| + 5 + Len(rest) &&
            Patch(b, |before| + 1, 5 + Len(rest)) == base + Assemble(acc + [JumpEq(5 + Len(rest))] + rest)
  {
    hide Encode, Assemble, Patch, JumpBytes, Opcode, Len, Retarget;
    var x, off := JumpEq(0), 5 + Len(rest);
    EncodeJump(x);
    OpcodeOfJumps();
    PatchedJump(before, x, rest, off);
    RetargetForward(off);
    AlternativeJoin(acc, JumpEq(off), rest, base);
  }

  lemma RetargetForward(off: int)
    ensures Retarget(JumpEq(0), off) == JumpEq(off)
  {
  }

  lemma AlternativeJoin(acc: seq<Instr>, y: Instr, rest: seq<Instr>, base: seq<nat>)
    ensures base + Assemble(acc) + Assemble([y] + rest) == base + Assemble(acc + [y] + rest)
  {
    hide Assemble, Len;
    AssembleAppend(acc, [y] + rest);
    assert acc + [y] + rest == acc + ([y] + rest);
    assert base + Assemble(acc) + Assemble([y] + rest) == base + (Assemble(acc) + Assemble([y] + rest));
  }

  lemma AcceptByte()
    ensures Assemble([Accept]) == [9]
  {
    hide Assemble;
    AssembleOne(Accept);
  }

  lemma OpcodeOfJumps()
    ensures Opcode(JumpEq(0)) == 7 && Opcode(JumpNeq(0)) == 8
  {
  }

  lemma ConcatenationBytes(base: seq<nat>, acc: seq<Instr>, link: seq<Instr>)
    requires link == [] || link == [JumpNeq(JUMP_FAIL)]
    ensures base + Assemble(acc + link) == base + Assemble(acc) + if link == [] then [] else Encode(JumpNeq(JUMP_FAIL))
  {
    hide Encode, Assemble;
    if link == [] {
      assert acc + link == acc;
    } else {
      AssembleNext(acc, JumpNeq(JUMP_FAIL));
    }
  }

  lemma StarBytes(p: seq<Instr>)
    ensures Assemble(Star(p)) == Assemble(p) + Encode(JumpEq(0 - Len(p))) + [17] + [1]
  {
    hide Assemble, JumpBytes, Len, Encode;
    var j := JumpEq(0 - Len(p));
    AssembleNext(p, j);
    AssembleNext(p + [j], SetFlag(1));
    FlagBytes();
    assert Star(p) == p + [j] + [SetFlag(1)];
    assert Assemble(p) + Encode(j) + [17, 1] == Assemble(p) + Encode(j) + [17] + [1];
  }

  lemma PlusBytes(base: seq<nat>, p: seq<Instr>, before: seq<nat>)
    requires before == base + Assemble(p) + Encode(JumpNeq(JUMP_FAIL)) + Assemble(p)
    ensures var b := before + ([8] + JumpBytes(0)) + [17] + [1] + Encode(JumpEq(0 - Len(p) - 12));
            |b| == |before| + 12 &&
            Patch(b, |before| + 1, 10) == base + Assemble(Plus(p))
  {
    hide Encode, Assemble, Patch, JumpBytes, Len;
    var back := JumpEq(0 - Len(p) - 12);
    var tail := [SetFlag(1), back];
    EncodeJump(JumpNeq(0));
    EncodeJump(back);
    OpcodeOfJumps();
    AssembleTwo(SetFlag(1), back);
    FlagBytes();
    PatchedJump(before, JumpNeq(0), tail, 10);
    var b := before + ([8] + JumpBytes(0)) + [17] + [1] + Encode(back);
    assert b == before + Encode(JumpNeq(0)) + Assemble(tail);
    PlusPieces(p);
    assert before + Assemble([JumpNeq(10)] + tail) ==
           base + (Assemble(p) + Encode(JumpNeq(JUMP_FAIL)) + Assemble(p) + Assemble([JumpNeq(10)] + tail));
  }

  lemma FlagBytes()
    ensures Encode(SetFlag(1)) == [17, 1]
  {
  }

  lemma PlusPieces(p: seq<Instr>)
    ensures Assemble(Plus(p)) == Assemble(p) + Encode(JumpNeq(JUMP_FAIL)) + Assemble(p) +
                                 Assemble([JumpNeq(10)] + [SetFlag(1), JumpEq(0 - Len(p) - 12)])
  {
    hide Encode, Assemble, Len;
    var tail := [JumpNeq(10)] + [SetFlag(1), JumpEq(0 - Len(p) - 12)];
    AssembleNext(p, JumpNeq(JUMP_FAIL));
    AssembleAppend(p + [JumpNeq(JUMP_FAIL)], p);
    AssembleAppend(p + [JumpNeq(JUMP_FAIL)] + p, tail);
    assert Plus(p) == p + [JumpNeq(JUMP_FAIL)] + p + tail;
  }

  lemma GroupBytes(id: nat, body: seq<Instr>)
    requires id < 256
    ensures Assemble([GroupStart(id)] + body + [GroupStop(id)]) == [11, id] + Assemble(body) + [12, id]
  {
    hide Assemble, Len;
    AssembleOne(GroupStart(id));
    AssembleAppend([GroupStart(id)], body);
    AssembleNext([GroupStart(id)] + body, GroupStop(id));
  }

  lemma ProgramBytes(body: seq<Instr>)
    ensures Assemble(body + [JumpNeq(JUMP_FAIL), Accept, Fail]) ==
            Assemble(body) + Encode(JumpNeq(JUMP_FAIL)) + [9] + [10]
  {
    hide Assemble, JumpBytes, Len;
    var j := JumpNeq(JUMP_FAIL);
    AssembleNext(body, j);
    AssembleNext(body + [j], Accept);
    AssembleNext(body + [j] + [Accept], Fail);
    assert body + [j, Accept, Fail] == body + [j] + [Accept] + [Fail];
  }
}
