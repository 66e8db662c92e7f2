// Where the machine of src/regex.c can get to in code that its emitter produced.
module RegexRuns {
  import opened Regex
  import opened RegexMachine
  import opened Wrappers

  // ----- what follows the exit jump of a one-or-more loop -----

  ghost predicate Exit(code: seq<Instr>, k: nat) {
    k < |code| && code[k] == JumpNeq(10)
  }

  ghost predicate NoExit(code: seq<Instr>) {
    forall k: nat | k < |code| :: code[k] != JumpNeq(10)
  }

  // Byte 3 from instruction j on is an operand byte.
  ghost predicate Blocked(code: seq<Instr>, j: nat) {
    j >= |code| || Size(code[j]) == 5 || (code[j].GroupStop? && (j + 1 == |code| || Size(code[j + 1]) >= 2))
  }

  ghost predicate Followed(code: seq<Instr>) {
    forall k: nat | Exit(code, k) ::
      k + 2 < |code| && Size(code[k + 1]) == 2 && Size(code[k + 2]) == 5 && Blocked(code, k + 3)
  }

  ghost predicate Joint(a: seq<Instr>, b: seq<Instr>) {
    || NoExit(a)
    || b == []
    || Size(b[0]) == 5
    || (b[0].GroupStop? && |b| == 1)
    || (a != [] && a[|a| - 1].GroupStop? && Size(b[0]) >= 2)
  }

  lemma FollowedAppend(a: seq<Instr>, b: seq<Instr>)
    requires Followed(a) && Followed(b) && Joint(a, b)
    ensures Followed(a + b)
  {
    var c := a + b;
    forall k: nat | Exit(c, k)
      ensures k + 2 < |c| && Size(c[k + 1]) == 2 && Size(c[k + 2]) == 5 && Blocked(c, k + 3)
    {
      if k < |a| {
        assert Exit(a, k);
      } else {
        assert Exit(b, k - |a|);
        assert Blocked(b, k - |a| + 3);
      }
    }
  }

  lemma NoExitFollowed(code: seq<Instr>)
    requires NoExit(code)
    ensures Followed(code)
  {
  }

  lemma PlusFollowed(p: seq<Instr>)
    requires Followed(p)
    ensures Followed(Plus(p))
  {
    hide Followed, Len;
    var j, tail := [JumpNeq(JUMP_FAIL)], [JumpNeq(10), SetFlag(1), JumpEq(0 - Len(p) - 12)];
    NoExitFollowed(j);
    FollowedAppend(j, p);
    TailFollowed(0 - Len(p) - 12);
    FollowedAppend(j + p, tail);
    FollowedAppend(p, j + p + tail);
    assert Plus(p) == p + (j + p + tail);
  }

  lemma TailFollowed(off: int)
    ensures Followed([JumpNeq(10), SetFlag(1), JumpEq(off)])
  {
  }

  lemma {:induction false} ConcatenationFollowed(ts: seq<Token>, pos: nat, group: nat, first: bool)
    requires pos <= |ts|
    ensures var r := EmitConcatenation(ts, pos, group, first);
            r.Emitted? ==> Followed(r.code) && (!first && r.code != [] ==> r.code[0] == JumpNeq(JUMP_FAIL))
    decreases |ts| - pos, 2
  {
    hide EmitQuantified, Followed;
    if pos >= |ts| || ts[pos].GroupEnd? {
      NoExitFollowed([]);
    } else {
      var q := EmitQuantified(ts, pos, group);
      if q.Emitted? {
        QuantifiedFollowed(ts, pos, group);
        ConcatenationFollowed(ts, q.pos, q.group, false);
        var rest := EmitConcatenation(ts, q.pos, q.group, false);
        if rest.Emitted? {
          var a := if first then [] else [JumpNeq(JUMP_FAIL)];
          NoExitFollowed(a);
          FollowedAppend(a, q.code);
          FollowedAppend(a + q.code, rest.code);
        }
      }
    }
  }

  lemma {:induction false} QuantifiedFollowed(ts: seq<Token>, pos: nat, group: nat)
    requires pos < |ts|
    ensures var r := EmitQuantified(ts, pos, group); r.Emitted? ==> Followed(r.code)
    decreases |ts| - pos, 1
  {
    hide EmitPrimary, Followed, Plus;
    PrimaryFollowed(ts, pos, group);
    var p := EmitPrimary(ts, pos, group);
    if p.Emitted? && p.pos < |ts| && IsQuantifier(ts[p.pos]) {
      if ts[p.pos].op.ZeroOrMore? {
        var tail := [JumpEq(0 - Len(p.code)), SetFlag(1)];
        NoExitFollowed(tail);
        FollowedAppend(p.code, tail);
      } else if ts[p.pos].op.OneOrMore? {
        PlusFollowed(p.code);
      } else {
        OperandEnds(ts, pos, group);
        NoExitFollowed([SetFlag(1)]);
        FollowedAppend(p.code, [SetFlag(1)]);
      }
    }
  }

  // A quantified primary is one test or a group.
  lemma OperandEnds(ts: seq<Token>, pos: nat, group: nat)
    requires pos < |ts|
    requires var p := EmitPrimary(ts, pos, group); p.Emitted? && p.pos < |ts| && IsQuantifier(ts[p.pos])
    ensures var code := EmitPrimary(ts, pos, group).code; NoExit(code) || (code != [] && code[|code| - 1].GroupStop?)
  {
    hide EmitConcatenation, EmitAlternation;
    if ts[pos].Op? {
      AlternationIsConcatenation(ts, pos + 1, group);
      ConcatenationEnds(ts, pos + 1, group, true);
    }
  }

  lemma {:induction false} PrimaryFollowed(ts: seq<Token>, pos: nat, group: nat)
    requires pos < |ts|
    ensures var r := EmitPrimary(ts, pos, group); r.Emitted? ==> Followed(r.code)
    decreases |ts| - pos, 0
  {
    hide Followed, EmitConcatenation, EmitAlternation;
    match ts[pos]
    case GroupBegin =>
      AlternationIsConcatenation(ts, pos + 1, group + 1);
      ConcatenationFollowed(ts, pos + 1, group + 1, true);
      var r := EmitAlternation(ts, pos + 1, group + 1);
      if r.Emitted? {
        var start, stop := [GroupStart(group % 256)], [GroupStop(group % 256)];
        NoExitFollowed(start);
        NoExitFollowed(stop);
        FollowedAppend(start, r.code);
        FollowedAppend(start + r.code, stop);
      }
    case Op(o) =>
      AlternationIsConcatenation(ts, pos + 1, group);
      ConcatenationFollowed(ts, pos + 1, group, true);
    case Invalid =>
    case GroupEnd =>
    case _ =>
      var r := EmitPrimary(ts, pos, group);
      NoExitFollowed(r.code);
  }

  // ----- whole programs -----

  ghost predicate EndsInVerdict(code: seq<Instr>) {
    |code| >= 2 && code[|code| - 2] == Accept && code[|code| - 1] == Fail
  }

  lemma ProgramFollowed(ts: seq<Token>)
    requires EmitAll(ts).Emitted? && ts != []
    ensures Followed(EmitAll(ts).code) && EndsInVerdict(EmitAll(ts).code)
  {
    hide Followed, EmitAlternation;
    AlternationIsConcatenation(ts, 0, 1);
    ConcatenationFollowed(ts, 0, 1, true);
    var tail := [JumpNeq(JUMP_FAIL), Accept, Fail];
    NoExitFollowed(tail);
    FollowedAppend(EmitAlternation(ts, 0, 1).code, tail);
  }

  lemma {:induction false} OffsetOrder(code: seq<Instr>, i: nat, j: nat)
    requires i <= j <= |code|
    ensures Offset(code, i) <= Offset(code, j)
    decreases j - i
  {
    hide Len, Size;
    if i < j {
      OffsetOrder(code, i, j - 1);
      OffsetNext(code, j - 1);
    }
  }

  // Strictly inside an instruction there is no boundary.
  lemma InsideNoBoundary(code: seq<Instr>, j: nat, p: int)
    requires j < |code| && Offset(code, j) < p < Offset(code, j + 1)
    ensures !Boundary(code, p)
  {
    hide Len;
    if Boundary(code, p) {
      var k: nat :| k <= |code| && p == Offset(code, k);
      if k <= j { OffsetOrder(code, k, j); } else { OffsetOrder(code, j + 1, k); }
    }
  }

  // The exit jump lands inside an operand.
  lemma ExitInside(code: seq<Instr>, k: nat)
    requires Followed(code) && EndsInVerdict(code) && Exit(code, k)
    ensures !Boundary(code, Offset(code, k) + Hop(10))
  {
    hide Len, Boundary;
    OffsetNext(code, k);
    OffsetNext(code, k + 1);
    OffsetNext(code, k + 2);
    assert Offset(code, k + 3) == Offset(code, k) + 12;
    assert k + 3 < |code|;
    OffsetNext(code, k + 3);
    if Size(code[k + 3]) == 5 {
      InsideNoBoundary(code, k + 3, Offset(code, k) + 15);
    } else {
      assert k + 4 < |code|;
      OffsetNext(code, k + 4);
      InsideNoBoundary(code, k + 4, Offset(code, k) + 15);
    }
  }

  // A resolved placeholder leads to the final Fail.
  lemma PlaceholderTarget(code: seq<Instr>, k: nat)
    requires EndsInVerdict(code) && k < |code| && IsJump(code[k]) && code[k].off == JUMP_FAIL
    ensures Offset(code, k) + Hop(ResolveOne(code[k], Offset(code, k), Len(code)).off) == Offset(code, |code| - 1)
  {
    hide Len;
    OffsetNext(code, k);
    OffsetOrder(code, k + 1, |code| - 2);
    OffsetNext(code, |code| - 2);
    OffsetNext(code, |code| - 1);
    assert code[..|code|] == code;
  }

  // ----- one turn -----

  lemma ResolvedOffset(code: seq<Instr>, total: nat, k: nat)
    requires k <= |code|
    ensures Offset(Resolve(code, total), k) == Offset(code, k)
  {
    hide Resolve, Len;
    if k < |code| {
      ResolveAt(code, total, k);
    } else {
      assert code[..k] == code && Resolve(code, total)[..k] == Resolve(code, total);
    }
  }

  // Where the jump of instruction k leads.
  lemma JumpTarget(ts: seq<Token>, k: nat)
    requires Compiled(ts) && k < |EmitAll(ts).code| && IsJump(EmitAll(ts).code[k])
    ensures var code := EmitAll(ts).code;
            var x := Program(ts)[k];
            IsJump(x) && IsInt32(x.off) && (Boundary(code, Offset(code, k) + Hop(x.off)) <==> !Exit(code, k))
  {
    hide EmitAll, Len, Resolve, Followed, EndsInVerdict;
    var code := EmitAll(ts).code;
    NotEmpty(ts);
    ProgramFollowed(ts);
    ProgramJumps(ts, true);
    assert JumpOk(code, k, true);
    EmittedJumpsFit(code, true);
    ResolveAt(code, Len(code), k);
    if code[k].off == JUMP_FAIL {
      PlaceholderTarget(code, k);
      OffsetOrder(code, k, |code|);
      assert code[..|code|] == code;
    } else if Exit(code, k) {
      ExitInside(code, k);
    }
  }

  lemma NotEmpty(ts: seq<Token>)
    requires EmitAll(ts).Emitted? && exists k: nat :: k < |EmitAll(ts).code| && IsJump(EmitAll(ts).code[k])
    ensures ts != []
  {
    hide EmitAlternation;
  }

  // A turn begun at an instruction is never stuck, and leaves the instruction boundaries exactly
  // when it takes the exit jump of a one-or-more loop.
  lemma {:induction false} TurnOnBoundary(ts: seq<Token>, k: nat, str: seq<int>, m: Machine)
    requires Compiled(ts) && k <= |EmitAll(ts).code| && m.pc == Offset(EmitAll(ts).code, k)
    ensures var code := EmitAll(ts).code;
            var t := Step(Assemble(Program(ts)), str, m);
            !t.Stuck? && (t.Next? ==> (Boundary(code, t.m.pc) <==> !(Exit(code, k) && !m.flag)))
  {
    hide EmitAll, Assemble, Len, Resolve, Hop, Step, Exit, Boundary;
    var code, prog := EmitAll(ts).code, Program(ts);
    ResolvedOffset(code, Len(code), k);
    if k < |code| {
      ResolvedOffset(code, Len(code), k + 1);
      ResolveAt(code, Len(code), k);
      if IsJump(code[k]) { JumpTarget(ts, k); }
      StepAt(prog, k, str, m);
      NextIsBoundary(code, k);
      OnlyExits(code, k);
    } else {
      PastEnd(code, prog, str, m);
    }
  }

  lemma NextIsBoundary(code: seq<Instr>, k: nat)
    requires k < |code|
    ensures Boundary(code, Offset(code, k + 1))
  {
  }

  lemma OnlyExits(code: seq<Instr>, k: nat)
    requires k < |code|
    ensures Exit(code, k) ==> code[k].JumpNeq?
  {
  }

  lemma PastEnd(code: seq<Instr>, prog: seq<Instr>, str: seq<int>, m: Machine)
    requires Len(prog) == Len(code) && m.pc == Offset(code, |code|)
    ensures Step(Assemble(prog), str, m).Stop?
  {
    assert code[..|code|] == code;
  }

  // ----- runs -----

  // Without one-or-more, whatever the string and however long the run, the machine is at an
  // instruction boundary or has answered; the unknown-opcode branch is dead.
  lemma {:induction false} RunsOnBoundaries(ts: seq<Token>, str: seq<int>, m: Machine, n: nat)
    requires Compiled(ts) && NoPlus(ts) && Boundary(EmitAll(ts).code, m.pc)
    ensures var t := Run(Assemble(Program(ts)), str, m, n);
            !t.Stuck? && (t.Next? ==> Boundary(EmitAll(ts).code, t.m.pc))
    decreases n
  {
    hide EmitAll, Assemble, Len, Resolve, Step, Exit, Program;
    if n > 0 {
      var code := EmitAll(ts).code;
      var k: nat :| k <= |code| && m.pc == Offset(code, k);
      TurnOnBoundary(ts, k, str, m);
      NoPlusNoExit(ts, k);
      var t := Step(Assemble(Program(ts)), str, m);
      if t.Next? { RunsOnBoundaries(ts, str, t.m, n - 1); }
    }
  }

  lemma NoPlusNoExit(ts: seq<Token>, k: nat)
    requires EmitAll(ts).Emitted? && NoPlus(ts)
    ensures !Exit(EmitAll(ts).code, k)
  {
    hide EmitAll;
    ProgramJumps(ts, false);
    var code := EmitAll(ts).code;
    if k < |code| { assert JumpOk(code, k, false); }
  }

  // The whole of regex_match on a token list.
  lemma {:induction false} MatchNeverStuck(ts: seq<Token>, str: seq<int>, n: nat)
    requires Compiled(ts) && NoPlus(ts)
    ensures Compile(ts).Some?
    ensures var t := Run(Compile(ts).value, str, Machine(0, 0, false), n);
            !t.Stuck? && (t.Next? ==> Boundary(EmitAll(ts).code, t.m.pc))
  {
    hide EmitAll, Assemble, Resolve, Run, Compile;
    CompileResolves(ts);
    var code := EmitAll(ts).code;
    assert code[..0] == [] && Offset(code, 0) == 0;
    RunsOnBoundaries(ts, str, Machine(0, 0, false), n);
  }

  // ----- one-or-more does leave the boundaries -----

  lemma StepOne(code: seq<Instr>, k: nat, str: seq<int>, m: Machine)
    requires k < |code| && m.pc == Offset(code, k) && 0 <= m.sp < |str|
    ensures code[k].TestSingle? && code[k].c < 256 ==>
              Step(Assemble(code), str, m) ==
                  Next(Machine(Offset(code, k + 1), m.sp, Signed(str[m.sp]) == Signed(code[k].c)))
    ensures code[k].IncPosEq? ==>
              Step(Assemble(code), str, m) ==
                  Next(Machine(Offset(code, k + 1), if m.flag then m.sp + 1 else m.sp, m.flag))
  {
    hide Len, Assemble, DecodeJump, JumpBytes;
    AssembleAt(code, k);
    OffsetNext(code, k);
    var b := Assemble(code);
    if code[k].TestSingle? {
      assert b[m.pc] == Encode(code[k])[0] && b[m.pc + 1] == Encode(code[k])[1];
    } else if code[k].IncPosEq? {
      assert b[m.pc] == Encode(code[k])[0];
    }
  }

  lemma StepJump(code: seq<Instr>, k: nat, str: seq<int>, m: Machine)
    requires k < |code| && m.pc == Offset(code, k) && 0 <= m.sp < |str| && IsJump(code[k]) && IsInt32(code[k].off)
    ensures Step(Assemble(code), str, m) ==
            Next(m.(pc := if Taken(code[k], m.flag) then m.pc + Hop(code[k].off) else Offset(code, k + 1)))
  {
    hide Len, Assemble, DecodeJump, JumpBytes, Encode, Hop, Opcode;
    AssembleAt(code, k);
    OffsetNext(code, k);
    JumpSits(Assemble(code[..k]), code[k], Assemble(code[k + 1..]));
    JumpOpcode(code[k]);
  }

  // The program of a character repeated one or more times.
  lemma PlusProgram(c: nat)
    ensures var code := [TestSingle(c), IncPosEq, JumpNeq(JUMP_FAIL), TestSingle(c), IncPosEq, JumpNeq(10), SetFlag(1),
                         JumpEq(-15), JumpNeq(JUMP_FAIL), Accept, Fail];
            EmitAll([Single(c), Op(OneOrMore)]) == Emitted(2, 1, code) && Len(code) == 30
  {
    hide Len, Plus;
    var ts := [Single(c), Op(OneOrMore)];
    var p := [TestSingle(c), IncPosEq];
    PlusCode(c);
    assert EmitPrimary(ts, 0, 1) == Emitted(1, 1, p);
    assert EmitQuantified(ts, 0, 1) == Emitted(2, 1, Plus(p));
    assert EmitConcatenation(ts, 2, 1, false) == Emitted(2, 1, []);
    assert EmitConcatenation(ts, 0, 1, true) == Emitted(2, 1, [] + Plus(p) + []);
    AlternationIsConcatenation(ts, 0, 1);
    assert EmitAll(ts).code == Plus(p) + [JumpNeq(JUMP_FAIL), Accept, Fail];
  }

  lemma PlusCode(c: nat)
    ensures var code := [TestSingle(c), IncPosEq, JumpNeq(JUMP_FAIL), TestSingle(c), IncPosEq, JumpNeq(10),
                         SetFlag(1), JumpEq(-15)];
            Plus([TestSingle(c), IncPosEq]) == code && Len(code + [JumpNeq(JUMP_FAIL), Accept, Fail]) == 30
  {
    hide Len;
    var p, tail := [TestSingle(c), IncPosEq], [JumpNeq(JUMP_FAIL), Accept, Fail];
    LenOne(TestSingle(c));
    LenOne(IncPosEq);
    LenOne(JumpNeq(JUMP_FAIL));
    LenOne(Accept);
    LenOne(Fail);
    LenAppend([TestSingle(c)], [IncPosEq]);
    assert p == [TestSingle(c)] + [IncPosEq];
    PlusLen(p);
    LenAppend([Accept], [Fail]);
    LenAppend([JumpNeq(JUMP_FAIL)], [Accept] + [Fail]);
    assert tail == [JumpNeq(JUMP_FAIL)] + ([Accept] + [Fail]);
    LenAppend(Plus(p), tail);
  }

  // A character repeated one or more times, on any string that continues with another character
  // after the first: the sixth turn takes the machine into the middle of an instruction.
  lemma {:induction false} PlusLeavesBoundaries(c: nat, str: seq<int>)
    requires c < 128 && |str| >= 2 && str[0] == c && str[1] < 128 && str[1] != c
    ensures var ts := [Single(c), Op(OneOrMore)];
            Compiled(ts) &&
            var t := Run(Assemble(Program(ts)), str, Machine(0, 0, false), 6);
            t.Next? && !Boundary(EmitAll(ts).code, t.m.pc)
  {
    hide Len, Assemble, EmitAll, Resolve, Step, Hop, Boundary;
    var ts := [Single(c), Op(OneOrMore)];
    PlusProgram(c);
    var code, prog := EmitAll(ts).code, Program(ts);
    ProgramFollowed(ts);
    ExitInside(code, 5);
    var b := Assemble(prog);
    FirstTurns(ts, c, str);
    ResolvedOffset(code, Len(code), 5);
    assert Run(b, str, Machine(0, 0, false), 6) == Run(b, str, Machine(Offset(code, 5), 1, false), 1);
    ResolveAt(code, Len(code), 5);
    StepJump(prog, 5, str, Machine(Offset(code, 5), 1, false));
  }

  lemma FirstTurns(ts: seq<Token>, c: nat, str: seq<int>)
    requires Compiled(ts) && c < 128 && |str| >= 2 && str[0] == c && str[1] < 128 && str[1] != c
    requires var code := EmitAll(ts).code;
             |code| > 5 && code[..5] == [TestSingle(c), IncPosEq, JumpNeq(JUMP_FAIL), TestSingle(c), IncPosEq]
    ensures var b := Assemble(Program(ts));
            Run(b, str, Machine(0, 0, false), 6) == Run(b, str, Machine(Offset(Program(ts), 5), 1, false), 1)
  {
    hide Len, Assemble, EmitAll, Resolve, Step, Hop;
    var code, prog := EmitAll(ts).code, Program(ts);
    ghost var n := Len(code);
    assert code[0] == code[..5][0] && code[1] == code[..5][1] && code[2] == code[..5][2] &&
        code[3] == code[..5][3] && code[4] == code[..5][4];
    ResolveAt(code, n, 0);
    ResolveAt(code, n, 1);
    ResolveAt(code, n, 2);
    ResolveAt(code, n, 3);
    ResolveAt(code, n, 4);
    EmptyLen();
    assert prog[..0] == [] && Offset(prog, 0) == 0;
    StepOne(prog, 0, str, Machine(0, 0, false));
    StepOne(prog, 1, str, Machine(Offset(prog, 1), 0, true));
    PlaceholderFits(ts, 2);
    StepJump(prog, 2, str, Machine(Offset(prog, 2), 1, true));
    StepOne(prog, 3, str, Machine(Offset(prog, 3), 1, true));
    StepOne(prog, 4, str, Machine(Offset(prog, 4), 1, false));
  }

  lemma PlaceholderFits(ts: seq<Token>, k: nat)
    requires Compiled(ts) && k < |EmitAll(ts).code| && IsJump(EmitAll(ts).code[k])
    ensures IsJump(Program(ts)[k]) && IsInt32(Program(ts)[k].off)
  {
    JumpTarget(ts, k);
  }
}
