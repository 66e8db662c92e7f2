// The machine of src/regex.c does to a text what the tree of the pattern says.
module RegexMeaning {
  import opened Regex
  import opened RegexMachine
  import opened RegexRuns
  import opened RegexTree
  import opened Wrappers
  import opened Counting
  import Bits

  // ----- runs put together -----

  ghost predicate Reaches(b: seq<nat>, str: seq<int>, m: Machine, m': Machine) {
    exists n: nat :: Run(b, str, m, n) == Next(m')
  }

  ghost predicate Halts(b: seq<nat>, str: seq<int>, m: Machine, answer: bool) {
    exists n: nat :: Run(b, str, m, n) == Stop(answer)
  }

  ghost predicate Spins(b: seq<nat>, str: seq<int>, m: Machine) {
    forall n: nat :: Run(b, str, m, n).Next?
  }

  ghost predicate Stops(b: seq<nat>, str: seq<int>, m: Machine) {
    exists n: nat :: Run(b, str, m, n).Stop?
  }

  // The machine does what the outcome says, passing to position end.
  ghost predicate Delivers(b: seq<nat>, str: seq<int>, m: Machine, o: Outcome, end: int) {
    match o
    case At(sp, flag) => Reaches(b, str, m, Machine(end, sp, flag))
    case Done(answer) => Halts(b, str, m, answer)
    case Forever => Spins(b, str, m)
  }

  lemma {:induction false} RunAdd(b: seq<nat>, str: seq<int>, m: Machine, n: nat, k: nat)
    requires Run(b, str, m, n).Next?
    ensures Run(b, str, m, n + k) == Run(b, str, Run(b, str, m, n).m, k)
    decreases n
  {
    hide Step;
    if n > 0 { RunAdd(b, str, Step(b, str, m).m, n - 1, k); }
  }

  lemma {:induction false} Shorter(b: seq<nat>, str: seq<int>, m: Machine, n: nat, k: nat)
    requires Run(b, str, m, n).Next? && k <= n
    ensures Run(b, str, m, k).Next?
    decreases k
  {
    hide Step;
    if k > 0 { Shorter(b, str, Step(b, str, m).m, n - 1, k - 1); }
  }

  // Once it has stopped, more turns change nothing.
  lemma {:induction false} StaysStopped(b: seq<nat>, str: seq<int>, m: Machine, n: nat, k: nat)
    requires !Run(b, str, m, n).Next? && n <= k
    ensures Run(b, str, m, k) == Run(b, str, m, n)
    decreases n
  {
    hide Step;
    if n > 0 {
      var t := Step(b, str, m);
      if t.Next? { StaysStopped(b, str, t.m, n - 1, k - 1); }
    }
  }

  lemma Via(b: seq<nat>, str: seq<int>, m: Machine, m': Machine, o: Outcome, end: int)
    requires Reaches(b, str, m, m') && Delivers(b, str, m', o, end)
    ensures Delivers(b, str, m, o, end)
  {
    hide Run;
    var n: nat :| Run(b, str, m, n) == Next(m');
    match o
    case At(sp, flag) =>
      var k: nat :| Run(b, str, m', k) == Next(Machine(end, sp, flag));
      RunAdd(b, str, m, n, k);
    case Done(answer) =>
      var k: nat :| Run(b, str, m', k) == Stop(answer);
      RunAdd(b, str, m, n, k);
    case Forever =>
      forall k: nat ensures Run(b, str, m, k).Next? {
        if k <= n { Shorter(b, str, m, n, k); } else { RunAdd(b, str, m, n, k - n); }
      }
  }

  lemma Turned(b: seq<nat>, str: seq<int>, m: Machine, m': Machine)
    requires Step(b, str, m) == Next(m')
    ensures Reaches(b, str, m, m')
  {
    hide Step;
    assert Run(b, str, m', 0) == Next(m');
    assert Run(b, str, m, 1) == Next(m');
  }

  lemma Stays(b: seq<nat>, str: seq<int>, m: Machine)
    ensures Reaches(b, str, m, m)
  {
    assert Run(b, str, m, 0) == Next(m);
  }

  lemma Stopped(b: seq<nat>, str: seq<int>, m: Machine, answer: bool)
    requires Step(b, str, m) == Stop(answer)
    ensures Halts(b, str, m, answer)
  {
    hide Step;
    assert Run(b, str, m, 1) == Stop(answer);
  }

  // A state that comes back to itself does so for ever.
  lemma Cycle(b: seq<nat>, str: seq<int>, m: Machine, m': Machine)
    requires Reaches(b, str, m, m') && Step(b, str, m') == Next(m)
    ensures Spins(b, str, m)
  {
    hide Run;
    var n: nat :| Run(b, str, m, n) == Next(m');
    OneTurn(b, str, m', m);
    RunAdd(b, str, m, n, 1);
    forall k: nat ensures Run(b, str, m, k).Next? { RoundAndRound(b, str, m, n + 1, k); }
  }

  lemma OneTurn(b: seq<nat>, str: seq<int>, m: Machine, m': Machine)
    requires Step(b, str, m) == Next(m')
    ensures Run(b, str, m, 1) == Next(m')
  {
    hide Step;
    assert Run(b, str, m', 0) == Next(m');
  }

  lemma {:induction false} RoundAndRound(b: seq<nat>, str: seq<int>, m: Machine, n: nat, k: nat)
    requires n > 0 && Run(b, str, m, n) == Next(m)
    ensures Run(b, str, m, k).Next?
    decreases k
  {
    hide Run;
    if k < n {
      Shorter(b, str, m, n, k);
    } else {
      RoundAndRound(b, str, m, n, k - n);
      RunAdd(b, str, m, n, k - n);
    }
  }

  // ----- one turn at an instruction -----

  predicate IsSteady(i: Instr) {
    !IsJump(i) && i != Accept && i != Fail
  }

  function FlagOf(i: Instr, ch: int, flag: bool): bool {
    if IsTestInstr(i) then InstrFits(i, ch) else if i.SetFlag? then i.b % 256 != 0 else flag
  }

  function PosOf(i: Instr, sp: int, flag: bool): int {
    if i.IncPosEq? && flag then sp + 1 else sp
  }

  lemma EncodedTurn(a: seq<nat>, x: Instr, c: seq<nat>, ch: int, sp: int, flag: bool)
    requires IsSteady(x)
    ensures var b := a + Encode(x) + c;
            var op := b[|a|];
            op != 7 && op != 8 && op != 9 && op != 10 && OpSize(op) == Size(x) &&
            FlagAfter(b, |a|, ch, flag) == FlagOf(x, ch, flag) && PosAfter(b, |a|, sp, flag) == PosOf(x, sp, flag)
  {
    hide JumpBytes, DecodeJump;
    var e := Encode(x);
    var b := a + e + c;
    assert b[|a|] == e[0];
    if |e| > 1 { assert b[|a| + 1] == e[1]; }
    if |e| > 2 { assert b[|a| + 2] == e[2]; }
  }

  lemma SteadyTurn(code: seq<Instr>, k: nat, str: seq<int>, m: Machine)
    requires k < |code| && IsSteady(code[k]) && m.pc == Offset(code, k) && 0 <= m.sp < |str|
    ensures Step(Assemble(code), str, m) ==
            Next(Machine(Offset(code, k + 1), PosOf(code[k], m.sp, m.flag), FlagOf(code[k], str[m.sp], m.flag)))
  {
    hide Len, Assemble, Encode, FlagAfter, PosAfter, OpSize, FlagOf, PosOf, IsSteady, Size;
    AssembleAt(code, k);
    OffsetNext(code, k);
    EncodedTurn(Assemble(code[..k]), code[k], Assemble(code[k + 1..]), str[m.sp], m.sp, m.flag);
    SizePositive(code[k]);
  }

  lemma SizePositive(i: Instr)
    ensures Size(i) > 0
  {
  }

  lemma VerdictTurn(code: seq<Instr>, k: nat, str: seq<int>, m: Machine)
    requires k < |code| && (code[k] == Accept || code[k] == Fail) && m.pc == Offset(code, k) && 0 <= m.sp < |str|
    ensures Step(Assemble(code), str, m) == Stop(code[k] == Accept)
  {
    hide Len, Assemble;
    AssembleAt(code, k);
    var a := Assemble(code[..k]);
    assert Encode(code[k]) == [Opcode(code[k])];
    assert Assemble(code)[|a|] == Opcode(code[k]);
  }

  lemma OverTurn(b: seq<nat>, str: seq<int>, m: Machine)
    requires m.sp >= |str|
    ensures Step(b, str, m) == Stop(m.flag)
  {
  }

  // ----- the program of a token list -----

  ghost function Emission(ts: seq<Token>): seq<Instr>
    requires Compiled(ts)
  {
    EmitAll(ts).code
  }

  ghost function Bytecode(ts: seq<Token>): seq<nat>
    requires Compiled(ts)
  {
    Assemble(Program(ts))
  }

  ghost function Place(ts: seq<Token>, k: nat): nat
    requires Compiled(ts) && k <= |Emission(ts)|
  {
    Offset(Emission(ts), k)
  }

  lemma PlaceInProgram(ts: seq<Token>, k: nat)
    requires Compiled(ts) && k <= |Emission(ts)|
    ensures |Program(ts)| == |Emission(ts)| && Offset(Program(ts), k) == Place(ts, k)
  {
    hide EmitAll, Len, Resolve;
    ResolvedOffset(Emission(ts), Len(Emission(ts)), k);
  }

  // The instruction at k of the resolved program, and its place.
  lemma ProgramAt(ts: seq<Token>, k: nat)
    requires Compiled(ts) && k < |Emission(ts)|
    ensures var code := Emission(ts);
            |Program(ts)| == |code| && Program(ts)[k] == ResolveOne(code[k], Offset(code, k), Len(code)) &&
            Offset(Program(ts), k) == Offset(code, k)
  {
    hide EmitAll, Len, Resolve, ResolveOne;
    var code := Emission(ts);
    ResolveAt(code, Len(code), k);
    ResolvedOffset(code, Len(code), k);
  }

  // A turn at a steady instruction of the program.
  lemma AtSteady(ts: seq<Token>, k: nat, str: seq<int>, sp: nat, flag: bool)
    requires Compiled(ts) && k < |Emission(ts)| && IsSteady(Emission(ts)[k]) && sp < |str|
    ensures var i := Emission(ts)[k];
            PosOf(i, sp, flag) >= 0 &&
            Step(Bytecode(ts), str, Machine(Place(ts, k), sp, flag)) ==
            Next(Machine(Place(ts, k + 1), PosOf(i, sp, flag), FlagOf(i, str[sp], flag)))
  {
    hide EmitAll, Len, Resolve, Step, Assemble, FlagOf, Program;
    ProgramAt(ts, k);
    PlaceInProgram(ts, k + 1);
    ResolveOther(Emission(ts)[k], Offset(Emission(ts), k), Len(Emission(ts)));
    SteadyTurn(Program(ts), k, str, Machine(Place(ts, k), sp, flag));
  }

  // At a jump to Fail: on with the flag, and the answer false without it.
  lemma AtLink(ts: seq<Token>, k: nat, str: seq<int>, sp: nat, flag: bool)
    requires Compiled(ts) && ts != [] && k < |Emission(ts)| && Emission(ts)[k] == JumpNeq(JUMP_FAIL) && sp < |str|
    ensures var m := Machine(Place(ts, k), sp, flag);
            if flag then Step(Bytecode(ts), str, m) == Next(m.(pc := Place(ts, k + 1)))
            else Halts(Bytecode(ts), str, m, false)
  {
    hide EmitAll, Len, Resolve, Step, Assemble, Followed, Hop, Program, Halts;
    var code, prog, m := Emission(ts), Program(ts), Machine(Place(ts, k), sp, flag);
    ProgramAt(ts, k);
    PlaceInProgram(ts, k + 1);
    PlaceholderFits(ts, k);
    StepJump(prog, k, str, m);
    if !flag {
      ProgramFollowed(ts);
      PlaceholderTarget(code, k);
      var last: nat := |code| - 1;
      ProgramAt(ts, last);
      var m' := m.(pc := Place(ts, last));
      assert Step(Bytecode(ts), str, m) == Next(m');
      VerdictTurn(prog, last, str, m');
      Stopped(Bytecode(ts), str, m', false);
      Turned(Bytecode(ts), str, m, m');
      Via(Bytecode(ts), str, m, m', Done(false), 0);
    }
  }

  // At the jump back of a star, over a piece of code that begins at j.
  lemma AtBack(ts: seq<Token>, j: nat, k: nat, str: seq<int>, sp: nat, flag: bool)
    requires Compiled(ts) && j <= k < |Emission(ts)| && sp < |str|
    requires Emission(ts)[k] == JumpEq(Offset(Emission(ts), j) - Offset(Emission(ts), k))
    ensures Step(Bytecode(ts), str, Machine(Place(ts, k), sp, flag)) ==
            Next(Machine(if flag then Place(ts, j) else Place(ts, k + 1), sp, flag))
  {
    hide EmitAll, Len, Resolve, Step, Assemble, Program;
    var code := Emission(ts);
    OffsetOrder(code, j, k);
    ProgramAt(ts, k);
    PlaceInProgram(ts, k + 1);
    ResolveOther(code[k], Offset(code, k), Len(code));
    PlaceholderFits(ts, k);
    StepJump(Program(ts), k, str, Machine(Place(ts, k), sp, flag));
  }

  // ----- the machine at the code of an item -----

  // The program is pre, the code c, and post.
  ghost predicate Laid(ts: seq<Token>, pre: seq<Instr>, c: seq<Instr>, post: seq<Instr>) {
    Compiled(ts) && ts != [] && Emission(ts) == pre + c + post
  }

  // At the code c, from position sp with the flag, the machine does o.
  ghost predicate Does(ts: seq<Token>, pre: seq<Instr>, c: seq<Instr>, post: seq<Instr>, str: seq<int>, sp: nat,
                       flag: bool, o: Outcome)
    requires Laid(ts, pre, c, post)
  {
    Delivers(Bytecode(ts), str, Machine(Place(ts, |pre|), sp, flag), o, Place(ts, |pre| + |c|))
  }

  // With the text used up any instruction ends the match.
  lemma OverDoes(ts: seq<Token>, k: nat, str: seq<int>, sp: nat, flag: bool)
    requires Compiled(ts) && k <= |Emission(ts)| && sp >= |str|
    ensures Halts(Bytecode(ts), str, Machine(Place(ts, k), sp, flag), flag)
  {
    hide EmitAll, Step, Halts, Bytecode;
    OverTurn(Bytecode(ts), str, Machine(Place(ts, k), sp, flag));
    Stopped(Bytecode(ts), str, Machine(Place(ts, k), sp, flag), flag);
  }

  lemma SteadyReaches(ts: seq<Token>, k: nat, str: seq<int>, sp: nat, flag: bool)
    requires Compiled(ts) && k < |Emission(ts)| && IsSteady(Emission(ts)[k]) && sp < |str|
    ensures var i := Emission(ts)[k];
            Reaches(Bytecode(ts), str, Machine(Place(ts, k), sp, flag),
                    Machine(Place(ts, k + 1), PosOf(i, sp, flag), FlagOf(i, str[sp], flag)))
  {
    hide EmitAll, Step, Reaches, Bytecode, FlagOf, PosOf, Place;
    AtSteady(ts, k, str, sp, flag);
    var i := Emission(ts)[k];
    Turned(Bytecode(ts), str, Machine(Place(ts, k), sp, flag),
           Machine(Place(ts, k + 1), PosOf(i, sp, flag), FlagOf(i, str[sp], flag)));
  }

  lemma TestDoes(ts: seq<Token>, i: Instr, pre: seq<Instr>, post: seq<Instr>, str: seq<int>, sp: nat, flag: bool)
    requires Laid(ts, pre, [i, IncPosEq], post) && IsTestInstr(i)
    ensures Does(ts, pre, [i, IncPosEq], post, str, sp, flag, Eval(Test(i), str, sp, flag))
  {
    hide EmitAll, Reaches, Halts, Bytecode, Place, InstrFits;
    var k, b := |pre|, Bytecode(ts);
    if sp >= |str| {
      OverDoes(ts, k, str, sp, flag);
    } else {
      var hit := InstrFits(i, str[sp]);
      assert Emission(ts)[k] == i && Emission(ts)[k + 1] == IncPosEq;
      SteadyReaches(ts, k, str, sp, flag);
      SteadyReaches(ts, k + 1, str, sp, hit);
      Via(b, str, Machine(Place(ts, k), sp, flag), Machine(Place(ts, k + 1), sp, hit),
          At(if hit then sp + 1 else sp, hit), Place(ts, k + 2));
    }
  }

  lemma BareDoes(ts: seq<Token>, pre: seq<Instr>, post: seq<Instr>, str: seq<int>, sp: nat, flag: bool)
    requires Laid(ts, pre, [IncPosEq], post)
    ensures Does(ts, pre, [IncPosEq], post, str, sp, flag, Eval(Bare, str, sp, flag))
  {
    hide EmitAll, Reaches, Halts, Bytecode, Place;
    if sp >= |str| {
      OverDoes(ts, |pre|, str, sp, flag);
    } else {
      assert Emission(ts)[|pre|] == IncPosEq;
      SteadyReaches(ts, |pre|, str, sp, flag);
    }
  }

  // A piece and one more steady instruction that keeps the position.
  lemma ThenSteady(ts: seq<Token>, pre: seq<Instr>, c: seq<Instr>, i: Instr, post: seq<Instr>, str: seq<int>,
                   sp: nat, flag: bool, o: Outcome)
    requires Laid(ts, pre, c + [i], post) && Laid(ts, pre, c, [i] + post) && IsSteady(i) && !IsTestInstr(i) &&
            !i.IncPosEq?
    requires Does(ts, pre, c, [i] + post, str, sp, flag, o)
    ensures var e := Ended(o, str);
            Does(ts, pre, c + [i], post, str, sp, flag, if e.At? then At(e.sp, FlagOf(i, 0, e.flag)) else e)
  {
    hide EmitAll, Reaches, Halts, Spins, Bytecode, Place;
    var b, k, m := Bytecode(ts), |pre| + |c|, Machine(Place(ts, |pre|), sp, flag);
    assert Emission(ts)[k] == i;
    if o.At? {
      var m' := Machine(Place(ts, k), o.sp, o.flag);
      if o.sp >= |str| {
        OverDoes(ts, k, str, o.sp, o.flag);
        Via(b, str, m, m', Done(o.flag), Place(ts, k + 1));
      } else {
        SteadyReaches(ts, k, str, o.sp, o.flag);
        Via(b, str, m, m', At(o.sp, FlagOf(i, 0, o.flag)), Place(ts, k + 1));
      }
    }
  }

  lemma {:induction false} ItemDoes(ts: seq<Token>, x: Item, pre: seq<Instr>, post: seq<Instr>, str: seq<int>,
                                    sp: nat, flag: bool)
    requires Laid(ts, pre, Code(x), post) && WellFormed(x)
    ensures Does(ts, pre, Code(x), post, str, sp, flag, Eval(x, str, sp, flag))
    decreases x, 0, 0, 0
  {
    hide Laid, Does;
    match x
    case Test(i) => TestDoes(ts, i, pre, post, str, sp, flag);
    case Bare => BareDoes(ts, pre, post, str, sp, flag);
    case Group(id, body) => GroupDoes(ts, id, body, pre, post, str, sp, flag);
    case Rest(body) => BodyDoes(ts, body, true, pre, post, str, sp, flag);
    case Many(y) => LoopDoes(ts, y, pre, post, str, sp, flag);
    case Maybe(y) =>
      Regroup(ts, pre, Code(y), [SetFlag(1)], post);
      ItemDoes(ts, y, pre, [SetFlag(1)] + post, str, sp, flag);
      ThenSteady(ts, pre, Code(y), SetFlag(1), post, str, sp, flag, Eval(y, str, sp, flag));
  }

  // The same program, cut elsewhere.
  lemma Regroup(ts: seq<Token>, pre: seq<Instr>, a: seq<Instr>, b: seq<Instr>, post: seq<Instr>)
    requires Laid(ts, pre, a + b, post)
    ensures Laid(ts, pre, a, b + post) && Laid(ts, pre + a, b, post)
  {
    hide EmitAll, Compiled, Emission;
    assert pre + (a + b) + post == pre + a + (b + post);
    assert pre + (a + b) + post == pre + a + b + post;
  }

  lemma {:induction false} GroupDoes(ts: seq<Token>, id: nat, body: seq<Item>, pre: seq<Instr>, post: seq<Instr>,
                                     str: seq<int>, sp: nat, flag: bool)
    requires Laid(ts, pre, Code(Group(id, body)), post) && forall k | 0 <= k < |body| :: WellFormed(body[k])
    ensures Does(ts, pre, Code(Group(id, body)), post, str, sp, flag, Eval(Group(id, body), str, sp, flag))
    decreases body, 1, 0, 0
  {
    hide EmitAll, Reaches, Halts, Spins, Bytecode, Place, Codes, Evals, WellFormed;
    var start, stop, c := [GroupStart(id)], [GroupStop(id)], Codes(body, true);
    assert Code(Group(id, body)) == start + (c + stop);
    Regroup(ts, pre, start, c + stop, post);
    Regroup(ts, pre + start, c, stop, post);
    assert Emission(ts)[|pre|] == start[0];
    if sp >= |str| {
      OverDoes(ts, |pre|, str, sp, flag);
    } else {
      SteadyReaches(ts, |pre|, str, sp, flag);
      BodyDoes(ts, body, true, pre + start, stop + post, str, sp, flag);
      ThenSteady(ts, pre + start, c, stop[0], post, str, sp, flag, Evals(body, true, str, sp, flag));
      Via(Bytecode(ts), str, Machine(Place(ts, |pre|), sp, flag), Machine(Place(ts, |pre| + 1), sp, flag),
          Ended(Evals(body, true, str, sp, flag), str), Place(ts, |pre| + |start + (c + stop)|));
    }
  }

  // One piece after another.
  lemma ThenPiece(ts: seq<Token>, pre: seq<Instr>, a: seq<Instr>, c: seq<Instr>, post: seq<Instr>, str: seq<int>,
                  sp: nat, flag: bool, sp': nat, flag': bool, o: Outcome)
    requires Laid(ts, pre, a + c, post) && Laid(ts, pre, a, c + post) && Laid(ts, pre + a, c, post)
    requires Does(ts, pre, a, c + post, str, sp, flag, At(sp', flag')) && Does(ts, pre + a, c, post, str, sp', flag', o)
    ensures Does(ts, pre, a + c, post, str, sp, flag, o)
  {
    hide EmitAll, Reaches, Halts, Spins, Bytecode, Place;
    Via(Bytecode(ts), str, Machine(Place(ts, |pre|), sp, flag), Machine(Place(ts, |pre + a|), sp', flag'), o,
        Place(ts, |pre + a| + |c|));
  }

  // A piece that does not pass does the same whatever follows it.
  lemma ThenNothing(ts: seq<Token>, pre: seq<Instr>, a: seq<Instr>, c: seq<Instr>, post: seq<Instr>, str: seq<int>,
                    sp: nat, flag: bool, o: Outcome)
    requires Laid(ts, pre, a + c, post) && Laid(ts, pre, a, c + post) && !o.At? &&
            Does(ts, pre, a, c + post, str, sp, flag, o)
    ensures Does(ts, pre, a + c, post, str, sp, flag, o)
  {
    hide EmitAll, Reaches, Halts, Spins, Bytecode, Place;
  }

  lemma LinkDoes(ts: seq<Token>, pre: seq<Instr>, post: seq<Instr>, str: seq<int>, sp: nat, flag: bool)
    requires Laid(ts, pre, [JumpNeq(JUMP_FAIL)], post)
    ensures Does(ts, pre, [JumpNeq(JUMP_FAIL)], post, str, sp, flag,
                 if sp < |str| && flag then At(sp, flag) else Done(sp >= |str| && flag))
  {
    hide EmitAll, Reaches, Halts, Spins, Bytecode, Place, Step;
    var k := |pre|;
    assert Emission(ts)[k] == JumpNeq(JUMP_FAIL);
    if sp >= |str| {
      OverDoes(ts, k, str, sp, flag);
    } else {
      AtLink(ts, k, str, sp, flag);
      if flag { Turned(Bytecode(ts), str, Machine(Place(ts, k), sp, flag), Machine(Place(ts, k + 1), sp, flag)); }
    }
  }

  lemma {:induction false} BodyDoes(ts: seq<Token>, xs: seq<Item>, first: bool, pre: seq<Instr>, post: seq<Instr>,
                                    str: seq<int>, sp: nat, flag: bool)
    requires Laid(ts, pre, Codes(xs, first), post) && forall k | 0 <= k < |xs| :: WellFormed(xs[k])
    ensures Does(ts, pre, Codes(xs, first), post, str, sp, flag, Evals(xs, first, str, sp, flag))
    decreases xs, if first then 0 else 1, 0, 0
  {
    hide Laid, Does, Code, Eval, WellFormed;
    if xs == [] {
      EmptyDoes(ts, pre, post, str, sp, flag);
    } else if !first {
      var link, rest := [JumpNeq(JUMP_FAIL)], Codes(xs, true);
      assert Codes(xs, false) == link + rest;
      Regroup(ts, pre, link, rest, post);
      LinkDoes(ts, pre, rest + post, str, sp, flag);
      if sp < |str| && flag {
        BodyDoes(ts, xs, true, pre + link, post, str, sp, flag);
        ThenPiece(ts, pre, link, rest, post, str, sp, flag, sp, flag, Evals(xs, true, str, sp, flag));
      } else {
        ThenNothing(ts, pre, link, rest, post, str, sp, flag, Done(sp >= |str| && flag));
      }
    } else {
      var a, rest := Code(xs[0]), Codes(xs[1..], false);
      assert Codes(xs, true) == a + rest;
      Regroup(ts, pre, a, rest, post);
      ItemDoes(ts, xs[0], pre, rest + post, str, sp, flag);
      var o := Eval(xs[0], str, sp, flag);
      if o.At? {
        BodyDoes(ts, xs[1..], false, pre + a, post, str, o.sp, o.flag);
        ThenPiece(ts, pre, a, rest, post, str, sp, flag, o.sp, o.flag, Evals(xs[1..], false, str, o.sp, o.flag));
      } else {
        ThenNothing(ts, pre, a, rest, post, str, sp, flag, o);
      }
    }
  }

  lemma EmptyDoes(ts: seq<Token>, pre: seq<Instr>, post: seq<Instr>, str: seq<int>, sp: nat, flag: bool)
    requires Laid(ts, pre, [], post)
    ensures Does(ts, pre, [], post, str, sp, flag, At(sp, flag))
  {
    hide EmitAll, Reaches, Bytecode, Place;
    Stays(Bytecode(ts), str, Machine(Place(ts, |pre|), sp, flag));
  }

  // ----- stars -----

  ghost function Tail(p: seq<Instr>): seq<Instr> {
    [JumpEq(0 - Len(p)), SetFlag(1)]
  }

  lemma BackDistance(ts: seq<Token>, pre: seq<Instr>, p: seq<Instr>, post: seq<Instr>)
    requires Laid(ts, pre, p, Tail(p) + post)
    ensures |Emission(ts)| > |pre| + |p| + 1
    ensures Emission(ts)[|pre| + |p|] == JumpEq(Place(ts, |pre|) - Place(ts, |pre| + |p|)) &&
            Emission(ts)[|pre| + |p| + 1] == SetFlag(1)
  {
    hide EmitAll, Len;
    var code := Emission(ts);
    assert code[..|pre|] == pre && code[..|pre| + |p|] == pre + p;
    LenAppend(pre, p);
    assert code[|pre| + |p|] == Tail(p)[0] && code[|pre| + |p| + 1] == Tail(p)[1];
  }

  // From the end of the operand, with text left: back to the start with the flag, on without it.
  lemma TailDoes(ts: seq<Token>, pre: seq<Instr>, p: seq<Instr>, post: seq<Instr>, str: seq<int>, sp: nat, flag: bool)
    requires Laid(ts, pre, p, Tail(p) + post) && sp < |str|
    ensures |Emission(ts)| > |pre| + |p| + 1
    ensures var k := |pre| + |p|;
            if flag then Step(Bytecode(ts), str, Machine(Place(ts, k), sp, flag)) ==
                Next(Machine(Place(ts, |pre|), sp, flag))
            else Reaches(Bytecode(ts), str, Machine(Place(ts, k), sp, flag), Machine(Place(ts, k + 2), sp, true))
  {
    hide EmitAll, Reaches, Bytecode, Step, Len, Place, Tail;
    BackDistance(ts, pre, p, post);
    var k := |pre| + |p|;
    BackTurn(ts, |pre|, k, str, sp, flag);
    if !flag {
      Turned(Bytecode(ts), str, Machine(Place(ts, k), sp, flag), Machine(Place(ts, k + 1), sp, flag));
      SteadyReaches(ts, k + 1, str, sp, flag);
      Via(Bytecode(ts), str, Machine(Place(ts, k), sp, flag), Machine(Place(ts, k + 1), sp, flag), At(sp, true),
          Place(ts, k + 2));
    }
  }

  lemma BackTurn(ts: seq<Token>, j: nat, k: nat, str: seq<int>, sp: nat, flag: bool)
    requires Compiled(ts) && j <= k < |Emission(ts)| && sp < |str|
    requires Emission(ts)[k] == JumpEq(Place(ts, j) - Place(ts, k))
    ensures Step(Bytecode(ts), str, Machine(Place(ts, k), sp, flag)) ==
            Next(Machine(if flag then Place(ts, j) else Place(ts, k + 1), sp, flag))
  {
    hide EmitAll, Step, Bytecode;
    AtBack(ts, j, k, str, sp, flag);
  }

  lemma {:induction false} LoopDoes(ts: seq<Token>, y: Item, pre: seq<Instr>, post: seq<Instr>, str: seq<int>,
                                    sp: nat, flag: bool)
    requires Laid(ts, pre, Star(Code(y)), post) && WellFormed(y)
    ensures Does(ts, pre, Star(Code(y)), post, str, sp, flag, Loop(y, str, sp, flag))
    decreases y, 1, if sp < |str| then |str| - sp else 0, if flag then 0 else 1
  {
    hide Laid, Reaches, Halts, Spins, Bytecode, Place, Code, Eval, WellFormed, EmitAll, Step, Tail, Compiled;
    var p := Code(y);
    StarIsTail(p);
    Regroup(ts, pre, p, Tail(p), post);
    ItemDoes(ts, y, pre, Tail(p) + post, str, sp, flag);
    var o := Eval(y, str, sp, flag);
    if !o.At? || o.sp >= |str| {
      LoopStops(ts, pre, p, post, str, sp, flag, o);
    } else {
      TailDoes(ts, pre, p, post, str, o.sp, o.flag);
      if o.flag && (o.sp > sp || !flag) { LoopDoes(ts, y, pre, post, str, o.sp, true); }
      LoopGoesOn(ts, pre, p, post, str, sp, flag, o,
                 if !o.flag then At(o.sp, true) else if o.sp == sp && flag then Forever else Loop(y, str, o.sp, true));
    }
  }

  lemma StarIsTail(p: seq<Instr>)
    ensures Star(p) == p + Tail(p) && |Tail(p)| == 2
  {
    hide Len;
  }

  lemma LoopStops(ts: seq<Token>, pre: seq<Instr>, p: seq<Instr>, post: seq<Instr>, str: seq<int>, sp: nat,
                  flag: bool, o: Outcome)
    requires Laid(ts, pre, p, Tail(p) + post) && Laid(ts, pre, Star(p), post)
    requires (!o.At? || o.sp >= |str|) && Does(ts, pre, p, Tail(p) + post, str, sp, flag, o)
    ensures Does(ts, pre, Star(p), post, str, sp, flag, Ended(o, str))
  {
    hide EmitAll, Reaches, Halts, Spins, Bytecode, Place, Star, Tail, Len;
    if o.At? {
      OverDoes(ts, |pre| + |p|, str, o.sp, o.flag);
      Via(Bytecode(ts), str, Machine(Place(ts, |pre|), sp, flag), Machine(Place(ts, |pre| + |p|), o.sp, o.flag),
          Done(o.flag), 0);
    }
  }

  lemma LoopGoesOn(ts: seq<Token>, pre: seq<Instr>, p: seq<Instr>, post: seq<Instr>, str: seq<int>, sp: nat,
                   flag: bool, o: Outcome, r: Outcome)
    requires Laid(ts, pre, p, Tail(p) + post) && Laid(ts, pre, Star(p), post) && Star(p) == p + Tail(p) &&
            |Tail(p)| == 2
    requires o.At? && Does(ts, pre, p, Tail(p) + post, str, sp, flag, o) && |Emission(ts)| > |pre| + |p| + 1
    requires var k := |pre| + |p|;
             if o.flag then Step(Bytecode(ts), str, Machine(Place(ts, k), o.sp, o.flag)) ==
                 Next(Machine(Place(ts, |pre|), o.sp, o.flag))
             else Reaches(Bytecode(ts), str, Machine(Place(ts, k), o.sp, o.flag), Machine(Place(ts, k + 2), o.sp, true))
    requires if !o.flag then r == At(o.sp, true)
             else if o.sp == sp && flag then r == Forever
             else Does(ts, pre, Star(p), post, str, o.sp, true, r)
    ensures Does(ts, pre, Star(p), post, str, sp, flag, r)
  {
    hide EmitAll, Reaches, Halts, Spins, Bytecode, Place, Star, Tail, Step, Compiled;
    var b, m := Bytecode(ts), Machine(Place(ts, |pre|), sp, flag);
    var m', end := Machine(Place(ts, |pre| + |p|), o.sp, o.flag), Place(ts, |pre| + |p| + 2);
    if !o.flag {
      Via(b, str, m, m', r, end);
    } else if o.sp == sp && flag {
      Cycle(b, str, m, m');
    } else {
      var start := Machine(Place(ts, |pre|), o.sp, true);
      Turned(b, str, m', start);
      Via(b, str, m', start, r, end);
      Via(b, str, m, m', r, end);
    }
  }

  // ----- whole patterns -----

  ghost function Verdict(): seq<Instr> {
    [JumpNeq(JUMP_FAIL), Accept, Fail]
  }

  lemma ProgramLaid(ts: seq<Token>)
    requires Compiled(ts) && ts != [] && NoPlus(ts)
    ensures EmitConcatenation(ts, 0, 1, true).Emitted?
    ensures Laid(ts, [], Codes(Items(ts, 0, 1, true), true), Verdict())
  {
    hide EmitConcatenation, Items, Codes, Len;
    AlternationIsConcatenation(ts, 0, 1);
    ItemsCode(ts, 0, 1, true);
    var c := Codes(Items(ts, 0, 1, true), true);
    assert [] + c + Verdict() == c + Verdict();
  }

  // After the items: a clear flag leads to Fail, a set one to Accept.
  lemma VerdictDoes(ts: seq<Token>, pre: seq<Instr>, str: seq<int>, sp: nat, flag: bool)
    requires Laid(ts, pre, Verdict(), [])
    ensures Halts(Bytecode(ts), str, Machine(Place(ts, |pre|), sp, flag), flag)
  {
    hide EmitAll, Reaches, Halts, Bytecode, Place, Step;
    var k, m := |pre|, Machine(Place(ts, |pre|), sp, flag);
    assert Emission(ts)[k] == JumpNeq(JUMP_FAIL) && Emission(ts)[k + 1] == Accept;
    if sp >= |str| {
      OverDoes(ts, k, str, sp, flag);
    } else {
      AtLink(ts, k, str, sp, flag);
      if flag {
        var m' := Machine(Place(ts, k + 1), sp, flag);
        AtAccept(ts, k + 1, str, sp, flag);
        Turned(Bytecode(ts), str, m, m');
        Via(Bytecode(ts), str, m, m', Done(true), 0);
      }
    }
  }

  lemma AtAccept(ts: seq<Token>, k: nat, str: seq<int>, sp: nat, flag: bool)
    requires Compiled(ts) && k < |Emission(ts)| && Emission(ts)[k] == Accept && sp < |str|
    ensures Halts(Bytecode(ts), str, Machine(Place(ts, k), sp, flag), true)
  {
    hide EmitAll, Len, Resolve, Step, Assemble, Program, Halts;
    ProgramAt(ts, k);
    ResolveOther(Accept, Offset(Emission(ts), k), Len(Emission(ts)));
    VerdictTurn(Program(ts), k, str, Machine(Place(ts, k), sp, flag));
    Stopped(Bytecode(ts), str, Machine(Place(ts, k), sp, flag), true);
  }

  lemma ProgramDoes(ts: seq<Token>, str: seq<int>)
    requires Compiled(ts) && ts != [] && NoPlus(ts)
    ensures Delivers(Bytecode(ts), str, Machine(0, 0, false), Meaning(ts, str), 0)
  {
    hide EmitConcatenation, Items, Codes, Evals, Reaches, Halts, Spins, Bytecode, EmitAll, WellFormed, Verdict;
    ProgramLaid(ts);
    ItemsWellFormed(ts, 0, 1, true);
    var xs := Items(ts, 0, 1, true);
    var c := Codes(xs, true);
    BodyDoes(ts, xs, true, [], Verdict(), str, 0, false);
    FirstPlace(ts);
    var o := Evals(xs, true, str, 0, false);
    if o.At? {
      assert [] + c + Verdict() == c + Verdict() + [];
      VerdictDoes(ts, c, str, o.sp, o.flag);
      Via(Bytecode(ts), str, Machine(0, 0, false), Machine(Place(ts, |c|), o.sp, o.flag), Done(o.flag), 0);
    }
  }

  lemma FirstPlace(ts: seq<Token>)
    requires Compiled(ts)
    ensures Place(ts, 0) == 0
  {
    assert Emission(ts)[..0] == [];
  }

  // regex_match on any pattern without one-or-more and any text: it stops with the answer the tree
  // gives, or it never stops, which the tree says too.
  lemma {:induction false} MatchMeans(ts: seq<Token>, str: seq<int>)
    requires Compiled(ts) && ts != [] && NoPlus(ts)
    ensures Compile(ts).Some?
    ensures var b, m, o := Compile(ts).value, Machine(0, 0, false), Meaning(ts, str);
            && (o.Done? <==> Stops(b, str, m))
            && (forall n: nat | Run(b, str, m, n).Stop? :: Run(b, str, m, n) == Stop(o.answer))
            && (o.Forever? <==> Spins(b, str, m))
  {
    hide Run, Compile, EmitAll, Meaning, Program, Assemble;
    CompileResolves(ts);
    ProgramDoes(ts, str);
    MeaningEnds(ts, str);
    OutcomeDecides(Compile(ts).value, str, Machine(0, 0, false), Meaning(ts, str));
  }

  lemma OutcomeDecides(b: seq<nat>, str: seq<int>, m: Machine, o: Outcome)
    requires Delivers(b, str, m, o, 0) && !o.At?
    ensures o.Done? <==> Stops(b, str, m)
    ensures forall n: nat | Run(b, str, m, n).Stop? :: o.Done? && Run(b, str, m, n) == Stop(o.answer)
    ensures o.Forever? <==> Spins(b, str, m)
  {
    hide Run;
    if o.Done? {
      var k: nat :| Run(b, str, m, k) == Stop(o.answer);
      assert Run(b, str, m, k).Stop?;
      assert !Run(b, str, m, k).Next?;
      forall n: nat | Run(b, str, m, n).Stop? ensures Run(b, str, m, n) == Stop(o.answer) {
        if n <= k { StaysStopped(b, str, m, n, k); } else { StaysStopped(b, str, m, k, n); }
      }
    } else {
      forall n: nat ensures !Run(b, str, m, n).Stop? { assert Run(b, str, m, n).Next?; }
    }
  }

  lemma MeaningEnds(ts: seq<Token>, str: seq<int>)
    requires ts != [] && EmitAll(ts).Emitted?
    ensures !Meaning(ts, str).At?
  {
    hide EmitAll, Evals, Items;
  }

  // ----- how soon it stops -----

  // A number for each state in which the machine can go on.
  ghost function Number(str: seq<int>, m: Machine): int {
    2 * (m.pc * |str| + m.sp) + (if m.flag then 1 else 0)
  }

  ghost predicate Going(b: seq<nat>, str: seq<int>, m: Machine) {
    0 <= m.pc < |b| && 0 <= m.sp < |str|
  }

  lemma NumberBound(b: seq<nat>, str: seq<int>, m: Machine)
    requires Going(b, str, m)
    ensures 0 <= Number(str, m) < 2 * (|b| * |str|)
  {
    assert m.pc * |str| >= 0;
    assert (|b| - 1 - m.pc) * |str| >= 0;
    assert (|b| - 1 - m.pc) * |str| == |b| * |str| - |str| - m.pc * |str|;
  }

  lemma NumberUnique(b: seq<nat>, str: seq<int>, m: Machine, m': Machine)
    requires Going(b, str, m) && Going(b, str, m') && Number(str, m) == Number(str, m')
    ensures m == m'
  {
    var d := m.pc - m'.pc;
    assert |str| * d == m.pc * |str| - m'.pc * |str|;
    if d != 0 { Bits.MulApart(|str|, d); }
  }

  lemma GoesOn(b: seq<nat>, str: seq<int>, m: Machine, n: nat, i: nat)
    requires Run(b, str, m, n).Next? && i < n
    ensures Run(b, str, m, i).Next? && Going(b, str, Run(b, str, m, i).m)
  {
    Shorter(b, str, m, n, i);
    Shorter(b, str, m, n, i + 1);
    RunAdd(b, str, m, i, 1);
    assert Run(b, str, Run(b, str, m, i).m, 1).Next?;
  }

  // Any bytecode on any text: after twice the product of their lengths and one more turn, the
  // machine has stopped or never will.
  lemma {:induction false} DecidedSoon(b: seq<nat>, str: seq<int>, m: Machine)
    ensures Spins(b, str, m) <==> Run(b, str, m, 2 * (|b| * |str|) + 1).Next?
  {
    var n := 2 * (|b| * |str|) + 1;
    if Run(b, str, m, n).Next? {
      hide Run, Number, Going;
      forall i: nat | i < n ensures Run(b, str, m, i).Next? && Going(b, str, Run(b, str, m, i).m) {
        GoesOn(b, str, m, n, i);
      }
      var w := seq(n, i requires 0 <= i < n => Number(str, Run(b, str, m, i).m));
      forall i: nat | i < n ensures 0 <= w[i] < 2 * (|b| * |str|) { NumberBound(b, str, Run(b, str, m, i).m); }
      if forall i: nat, j: nat | i < j < n :: w[i] != w[j] { Pigeonhole(w, 0, 2 * (|b| * |str|)); }
      var i: nat, j: nat :| i < j < n && w[i] == w[j];
      NumberUnique(b, str, Run(b, str, m, i).m, Run(b, str, m, j).m);
      Returns(b, str, m, i, j);
    }
  }

  lemma Returns(b: seq<nat>, str: seq<int>, m: Machine, i: nat, j: nat)
    requires i < j && Run(b, str, m, i).Next? && Run(b, str, m, j) == Run(b, str, m, i)
    ensures Spins(b, str, m)
  {
    hide Run;
    var m' := Run(b, str, m, i).m;
    RunAdd(b, str, m, i, j - i);
    forall k: nat ensures Run(b, str, m', k).Next? { RoundAndRound(b, str, m', j - i, k); }
    Via(b, str, m, m', Forever, 0);
  }

  // ----- patterns that stop on every text -----

  // If no starred item can idle, the machine stops within that many turns.
  lemma {:induction false} SettledStops(ts: seq<Token>, str: seq<int>)
    requires Compiled(ts) && ts != [] && NoPlus(ts) && IsText(str)
    requires forall k | 0 <= k < |Items(ts, 0, 1, true)| :: Settled(Items(ts, 0, 1, true)[k])
    ensures Compile(ts).Some?
    ensures var b := Compile(ts).value; Run(b, str, Machine(0, 0, false), 2 * (|b| * |str|) + 1).Stop?
  {
    hide Run, Compile, Settled, EmitAll, Evals, Items;
    ProgramLaid(ts);
    MatchMeans(ts, str);
    BodyEnds(Items(ts, 0, 1, true), true, str, 0, false);
    MeaningEnds(ts, str);
    var b, m := Compile(ts).value, Machine(0, 0, false);
    DecidedSoon(b, str, m);
    var n: nat :| Run(b, str, m, n).Stop?;
    var k := 2 * (|b| * |str|) + 1;
    if n <= k { StaysStopped(b, str, m, n, k); } else { StaysStopped(b, str, m, k, n); }
  }

  // In particular without groups, where a star can only follow a single test.
  lemma {:induction false} UngroupedStops(ts: seq<Token>, str: seq<int>)
    requires Compiled(ts) && ts != [] && NoPlus(ts) && NoGroups(ts) && IsText(str)
    ensures Compile(ts).Some?
    ensures var b := Compile(ts).value; Run(b, str, Machine(0, 0, false), 2 * (|b| * |str|) + 1).Stop?
  {
    hide Run, Compile, Settled, EmitAll, Items, NoGroups;
    ProgramLaid(ts);
    UngroupedSettled(ts, 0, 1, true);
    SettledStops(ts, str);
  }

  // ----- and one that does not -----

  lemma {:induction false} LenBound(code: seq<Instr>)
    ensures Len(code) <= 5 * |code|
    decreases |code|
  {
    if code != [] { LenBound(code[..|code| - 1]); }
  }

  // A character made optional, in a group that is starred.
  function OptionalStarred(c: nat): seq<Token> {
    [GroupBegin, Single(c), Op(ZeroOrOne), GroupEnd, Op(ZeroOrMore)]
  }

  lemma OptionalStarredTree(c: nat)
    ensures Compiled(OptionalStarred(c)) && NoPlus(OptionalStarred(c))
    ensures EmitConcatenation(OptionalStarred(c), 0, 1, true).Emitted?
    ensures Items(OptionalStarred(c), 0, 1, true) == [Many(Group(1, [Maybe(Test(TestSingle(c)))]))]
  {
    hide Len;
    var ts := OptionalStarred(c);
    OptionalTree(c);
    AlternationIsConcatenation(ts, 1, 2);
    var g := [GroupStart(1)] + [TestSingle(c), IncPosEq, SetFlag(1)] + [GroupStop(1)];
    assert EmitPrimary(ts, 0, 1) == Emitted(4, 2, g);
    assert EmitQuantified(ts, 0, 1) == Emitted(5, 2, Star(g));
    assert EmitConcatenation(ts, 5, 2, false) == Emitted(5, 2, []);
    assert EmitConcatenation(ts, 0, 1, true) == Emitted(5, 2, [] + Star(g) + []);
    AlternationIsConcatenation(ts, 0, 1);
    LenBound(EmitAll(ts).code);
    assert Primary(ts, 0, 1) == Group(1, [Maybe(Test(TestSingle(c)))]);
    assert Quantified(ts, 0, 1) == Many(Primary(ts, 0, 1));
    assert Items(ts, 5, 2, false) == [];
  }

  lemma OptionalTree(c: nat)
    ensures var ts := OptionalStarred(c);
            EmitConcatenation(ts, 1, 2, true) == Emitted(3, 2, [TestSingle(c), IncPosEq, SetFlag(1)]) &&
            Items(ts, 1, 2, true) == [Maybe(Test(TestSingle(c)))]
  {
    hide Len;
    var ts := OptionalStarred(c);
    assert EmitConcatenation(ts, 3, 2, false) == Emitted(3, 2, []);
    assert EmitPrimary(ts, 1, 2) == Emitted(2, 2, [TestSingle(c), IncPosEq]);
    assert EmitQuantified(ts, 1, 2) == Emitted(3, 2, [TestSingle(c), IncPosEq] + [SetFlag(1)]);
    assert [] + ([TestSingle(c), IncPosEq] + [SetFlag(1)]) + [] == [TestSingle(c), IncPosEq, SetFlag(1)];
    assert Quantified(ts, 1, 2) == Maybe(Test(TestSingle(c)));
    assert Items(ts, 3, 2, false) == [];
  }

  // (c?)* on any text that begins with another character never stops.
  lemma {:induction false} OptionalStarredSpins(c: nat, str: seq<int>)
    requires c < 256 && str != [] && 0 < str[0] < 256 && str[0] != c
    ensures Compiled(OptionalStarred(c)) && Compile(OptionalStarred(c)).Some?
    ensures forall n: nat :: Run(Compile(OptionalStarred(c)).value, str, Machine(0, 0, false), n).Next?
  {
    hide Run, Compile, Compiled, Items, EmitAll;
    var ts := OptionalStarred(c);
    OptionalStarredTree(c);
    var x := Group(1, [Maybe(Test(TestSingle(c)))]);
    NothingConsumed(c, str, false);
    NothingConsumed(c, str, true);
    assert Loop(x, str, 0, true) == Forever;
    assert Loop(x, str, 0, false) == Forever;
    assert Evals([Many(x)], true, str, 0, false) == Forever;
    MatchMeans(ts, str);
  }

  lemma NothingConsumed(c: nat, str: seq<int>, flag: bool)
    requires c < 256 && str != [] && 0 < str[0] < 256 && str[0] != c
    ensures Eval(Group(1, [Maybe(Test(TestSingle(c)))]), str, 0, flag) == At(0, true)
  {
    assert Eval(Test(TestSingle(c)), str, 0, flag) == At(0, false);
    assert Eval(Maybe(Test(TestSingle(c))), str, 0, flag) == At(0, true);
    assert [Maybe(Test(TestSingle(c)))][1..] == [];
    assert Evals([Maybe(Test(TestSingle(c)))], true, str, 0, flag) == At(0, true);
  }
}
