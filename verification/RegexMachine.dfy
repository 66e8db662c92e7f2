// The bytes the emitter of src/regex.c produces, the pass that resolves the jumps to Fail, and the
// machine that executes them.
module RegexMachine {
  import opened Regex
  import opened Wrappers

  // ----- encoding -----

  // regex_encode_jump: the four bytes of a 32-bit two's complement number, highest first.
  function JumpBytes(off: int): (r: seq<nat>)
    ensures |r| == 4
  {
    var u := off % 0x1_0000_0000;
    [u / 0x100_0000, u / 0x1_0000 % 0x100, u / 0x100 % 0x100, u % 0x100]
  }

  // regex_decode_jump
  function DecodeJump(b: seq<nat>, p: nat): int
    requires p + 4 <= |b|
  {
    FromBytes(b[p], b[p + 1], b[p + 2], b[p + 3])
  }

  function FromBytes(b0: nat, b1: nat, b2: nat, b3: nat): int {
    var u: int := b0 * 0x100_0000 + b1 * 0x1_0000 + b2 * 0x100 + b3;
    if u >= 0x8000_0000 then u - 0x1_0000_0000 else u
  }

  ghost predicate IsInt32(off: int) {
    -0x8000_0000 <= off < 0x8000_0000
  }

  lemma SplitBytes(u: nat)
    ensures u == u / 0x100_0000 * 0x100_0000 + u / 0x1_0000 % 0x100 * 0x1_0000 + u / 0x100 % 0x100 * 0x100 + u % 0x100
  {
    var q := u / 0x100;
    assert u / 0x1_0000 == q / 0x100;
    assert u / 0x100_0000 == u / 0x1_0000 / 0x100;
  }

  lemma {:induction false} BytesRoundTrip(off: int)
    requires IsInt32(off)
    ensures var r := JumpBytes(off); FromBytes(r[0], r[1], r[2], r[3]) == off
  {
    var u: nat := off % 0x1_0000_0000;
    SplitBytes(u);
    var r := JumpBytes(off);
    assert r[0] * 0x100_0000 + r[1] * 0x1_0000 + r[2] * 0x100 + r[3] == u;
  }

  lemma JumpRoundTrip(b: seq<nat>, p: nat, off: int)
    requires IsInt32(off) && p + 4 <= |b| && b[p..p + 4] == JumpBytes(off)
    ensures DecodeJump(b, p) == off
  {
    hide JumpBytes, FromBytes;
    BytesRoundTrip(off);
    var r := b[p..p + 4];
    assert r[0] == b[p] && r[1] == b[p + 1] && r[2] == b[p + 2] && r[3] == b[p + 3];
  }

  function Opcode(i: Instr): nat {
    match i
    case TestSingle(_) => 0
    case TestRange(_, _) => 1
    case TestAny => 3
    case TestDigit => 4
    case TestLowerCase => 5
    case TestUpperCase => 6
    case JumpEq(_) => 7
    case JumpNeq(_) => 8
    case Accept => 9
    case Fail => 10
    case GroupStart(_) => 11
    case GroupStop(_) => 12
    case IncPosEq => 15
    case SetFlag(_) => 17
  }

  function Encode(i: Instr): (r: seq<nat>)
    ensures |r| == Size(i) && r[0] == Opcode(i)
  {
    match i
    case TestSingle(c) => [0, c % 256]
    case TestRange(lo, hi) => [1, lo % 256, hi % 256]
    case JumpEq(off) => [7] + JumpBytes(off)
    case JumpNeq(off) => [8] + JumpBytes(off)
    case GroupStart(id) => [11, id % 256]
    case GroupStop(id) => [12, id % 256]
    case SetFlag(v) => [17, v % 256]
    case _ => [Opcode(i)]
  }

  function Assemble(code: seq<Instr>): (r: seq<nat>)
    ensures |r| == Len(code)
  {
    if code == [] then [] else Assemble(code[..|code| - 1]) + Encode(code[|code| - 1])
  }

  lemma {:induction false} AssembleAppend(a: seq<Instr>, b: seq<Instr>)
    ensures Assemble(a + b) == Assemble(a) + Assemble(b)
    decreases |b|
  {
    hide Encode, Len;
    if b == [] {
      assert a + b == a;
    } else {
      var n := |b| - 1;
      AssembleAppend(a, b[..n]);
      assert (a + b)[..|a + b| - 1] == a + b[..n];
      AssembleSplit(a + b);
      AssembleSplit(b);
      assert Assemble(a) + Assemble(b[..n]) + Encode(b[n]) == Assemble(a) + (Assemble(b[..n]) + Encode(b[n]));
    }
  }

  lemma AssembleSplit(code: seq<Instr>)
    requires code != []
    ensures Assemble(code) == Assemble(code[..|code| - 1]) + Encode(code[|code| - 1])
  {
  }

  // ----- the instructions an opcode byte announces -----

  // How far the pass that resolves jumps, and the machine, advance over an opcode; 0 if unknown.
  function OpSize(op: nat): nat {
    if op == 7 || op == 8 || op == 16 then 5
    else if op == 1 || op == 2 then 3
    else if op == 0 || op == 11 || op == 12 || op == 17 then 2
    else if op <= 17 then 1
    else 0
  }

  lemma OpSizeRight(i: Instr)
    ensures OpSize(Opcode(i)) == Size(i)
  {
  }

  // ----- resolving the jumps to Fail -----

  function Patch(b: seq<nat>, p: nat, off: int): (r: seq<nat>)
    requires p + 4 <= |b|
    ensures |r| == |b|
  {
    b[..p] + JumpBytes(off) + b[p + 4..]
  }

  // The pass over the bytecode at the end of regex_emit; None is its unknown-opcode error.
  function FixUp(b: seq<nat>, i: nat): Option<seq<nat>>
    decreases |b| - i
  {
    if i >= |b| then Some(b)
    else if OpSize(b[i]) == 0 then None
    else if b[i] == 7 || b[i] == 8 then
      if i + 5 > |b| then None
      else if DecodeJump(b, i + 1) == JUMP_FAIL then FixUp(Patch(b, i + 1, |b| - 1 - (i + 5)), i + 5)
      else FixUp(b, i + 5)
    else FixUp(b, i + OpSize(b[i]))
  }

  function ResolveOne(i: Instr, at: nat, total: nat): (r: Instr)
    ensures Size(r) == Size(i)
  {
    if i == JumpEq(JUMP_FAIL) then JumpEq(total - 1 - (at + 5))
    else if i == JumpNeq(JUMP_FAIL) then JumpNeq(total - 1 - (at + 5))
    else i
  }

  // Every placeholder jump made to land on the last instruction.
  function Resolve(code: seq<Instr>, total: nat): (r: seq<Instr>)
    ensures |r| == |code| && Len(r) == Len(code)
  {
    if code == [] then []
    else
      var n := |code| - 1;
      var pre := Resolve(code[..n], total);
      assert (pre + [ResolveOne(code[n], Len(code[..n]), total)])[..n] == pre;
      pre + [ResolveOne(code[n], Len(code[..n]), total)]
  }

  ghost predicate JumpsFit(code: seq<Instr>) {
    forall k: nat | k < |code| && IsJump(code[k]) :: IsInt32(code[k].off)
  }

  lemma {:induction false} ResolveAt(code: seq<Instr>, total: nat, k: nat)
    requires k < |code|
    ensures Resolve(code, total)[k] == ResolveOne(code[k], Offset(code, k), total)
    ensures Resolve(code, total)[..k] == Resolve(code[..k], total)
  {
    hide ResolveOne, Len;
    var n := |code| - 1;
    if k < n {
      ResolveAt(code[..n], total, k);
      assert code[..n][..k] == code[..k];
      assert Resolve(code, total)[..n] == Resolve(code[..n], total);
      assert Resolve(code, total)[..k] == Resolve(code, total)[..n][..k];
    }
  }

  predicate IsJump(x: Instr) {
    x.JumpEq? || x.JumpNeq?
  }

  lemma EncodeJump(x: Instr)
    requires IsJump(x)
    ensures Encode(x) == [Opcode(x)] + JumpBytes(x.off) && Size(x) == 5 && (Opcode(x) == 7 || Opcode(x) == 8)
  {
  }

  lemma OtherOpcode(x: Instr)
    requires !IsJump(x)
    ensures Opcode(x) != 7 && Opcode(x) != 8
  {
  }

  // The pass, started at an instruction, resolves that instruction and goes to the next.
  lemma FixUpStep(a: seq<nat>, x: Instr, c: seq<nat>, total: nat)
    requires (IsJump(x) ==> IsInt32(x.off)) && total == |a| + Size(x) + |c|
    ensures FixUp(a + Encode(x) + c, |a|) == FixUp(a + Encode(ResolveOne(x, |a|, total)) + c, |a| + Size(x))
  {
    hide Encode, Opcode, JumpBytes, DecodeJump, Size, Patch, FixUp, ResolveOne, OpSize;
    if IsJump(x) {
      JumpSize(x);
      FixUpJump(a, x, c, total);
    } else {
      ResolveOther(x, |a|, total);
      FixUpOther(a, x, c);
    }
  }

  lemma JumpSize(x: Instr)
    requires IsJump(x)
    ensures Size(x) == 5
  {
  }

  lemma FixUpOther(a: seq<nat>, x: Instr, c: seq<nat>)
    requires !IsJump(x)
    ensures FixUp(a + Encode(x) + c, |a|) == FixUp(a + Encode(x) + c, |a| + Size(x))
  {
    hide Encode, Opcode, JumpBytes, DecodeJump, Size, Patch, OpSize;
    OpSizeRight(x);
    OtherOpcode(x);
    assert (a + Encode(x) + c)[|a|] == Opcode(x);
  }

  lemma FixUpJump(a: seq<nat>, x: Instr, c: seq<nat>, total: nat)
    requires IsJump(x) && IsInt32(x.off) && total == |a| + 5 + |c| && Size(x) == 5
    ensures FixUp(a + Encode(x) + c, |a|) == FixUp(a + Encode(ResolveOne(x, |a|, total)) + c, |a| + 5)
  {
    hide Encode, Opcode, JumpBytes, DecodeJump, Size, FixUp, Patch, ResolveOne, OpSize, FromBytes, Retarget;
    JumpSits(a, x, c);
    var b := a + Encode(x) + c;
    FixUpAtJump(b, |a|);
    if x.off == JUMP_FAIL {
      var off := total - 1 - (|a| + 5);
      PatchJump(a, x, c, off);
      ResolvePlaceholder(x, |a|, total);
      assert FixUp(b, |a|) == FixUp(Patch(b, |a| + 1, off), |a| + 5);
    } else {
      ResolveOther(x, |a|, total);
    }
  }

  lemma ResolvePlaceholder(x: Instr, at: nat, total: nat)
    requires IsJump(x) && x.off == JUMP_FAIL
    ensures ResolveOne(x, at, total) == Retarget(x, total - 1 - (at + 5))
  {
  }

  lemma ResolveOther(x: Instr, at: nat, total: nat)
    requires IsJump(x) ==> x.off != JUMP_FAIL
    ensures ResolveOne(x, at, total) == x
  {
  }

  lemma JumpSits(a: seq<nat>, x: Instr, c: seq<nat>)
    requires IsJump(x) && IsInt32(x.off)
    ensures var b := a + Encode(x) + c;
            Size(x) == 5 && |b| == |a| + 5 + |c| && b[|a|] == Opcode(x) && (b[|a|] == 7 || b[|a|] == 8) &&
            DecodeJump(b, |a| + 1) == x.off
  {
    hide Encode, Opcode, JumpBytes, DecodeJump, Size;
    EncodeJump(x);
    var b := a + Encode(x) + c;
    assert b[|a| + 1..|a| + 5] == JumpBytes(x.off);
    JumpRoundTrip(b, |a| + 1, x.off);
  }

  lemma FixUpAtJump(b: seq<nat>, i: nat)
    requires i + 5 <= |b| && (b[i] == 7 || b[i] == 8)
    ensures FixUp(b, i) ==
            FixUp(if DecodeJump(b, i + 1) == JUMP_FAIL then Patch(b, i + 1, |b| - 1 - (i + 5)) else b, i + 5)
  {
    hide DecodeJump, Patch;
  }

  function Retarget(x: Instr, off: int): (y: Instr)
    requires IsJump(x)
    ensures IsJump(y) && Opcode(y) == Opcode(x) && y.off == off && Size(y) == 5
  {
    if x.JumpEq? then JumpEq(off) else JumpNeq(off)
  }

  // Patching the operand of a jump changes its target and nothing else.
  lemma PatchJump(a: seq<nat>, x: Instr, c: seq<nat>, off: int)
    requires IsJump(x) && Size(x) == 5
    ensures Patch(a + Encode(x) + c, |a| + 1, off) == a + Encode(Retarget(x, off)) + c
  {
    hide Encode, Opcode, JumpBytes;
    EncodeJump(x);
    EncodeJump(Retarget(x, off));
    var b := a + Encode(x) + c;
    assert b[..|a| + 1] == a + [Opcode(x)];
    assert b[|a| + 5..] == c;
  }

  lemma {:induction false} FixUpFrom(code: seq<Instr>, k: nat)
    requires k <= |code| && JumpsFit(code)
    ensures FixUp(Assemble(Resolve(code[..k], Len(code)) + code[k..]), Offset(code, k)) ==
            Some(Assemble(Resolve(code, Len(code))))
    decreases |code| - k
  {
    var total := Len(code);
    if k == |code| {
      assert code[..k] == code && code[k..] == [];
      assert Resolve(code, total) + [] == Resolve(code, total);
    } else {
      hide Encode, ResolveOne, FixUp, JumpsFit, Resolve, Assemble, Len;
      FixUpFrom(code, k + 1);
      FixUpOne(code, k);
    }
  }

  lemma FixUpOne(code: seq<Instr>, k: nat)
    requires k < |code| && JumpsFit(code)
    ensures FixUp(Assemble(Resolve(code[..k], Len(code)) + code[k..]), Offset(code, k)) ==
            FixUp(Assemble(Resolve(code[..k + 1], Len(code)) + code[k + 1..]), Offset(code, k + 1))
  {
    hide Encode, ResolveOne, FixUp, Resolve, Assemble, Len, Size;
    var total, x, at := Len(code), code[k], Offset(code, k);
    var pre, post, y := Resolve(code[..k], total), code[k + 1..], ResolveOne(x, at, total);
    assert pre + code[k..] == pre + [x] + post;
    ResolveNext(code, total, k);
    LenAround(code, k);
    FixUpMiddle(pre, x, post, total, at, y);
  }

  lemma FixUpMiddle(pre: seq<Instr>, x: Instr, post: seq<Instr>, total: nat, at: nat, y: Instr)
    requires IsJump(x) ==> IsInt32(x.off)
    requires at == Len(pre) && total == at + Size(x) + Len(post) && y == ResolveOne(x, at, total)
    ensures FixUp(Assemble(pre + [x] + post), at) == FixUp(Assemble(pre + [y] + post), at + Size(x))
  {
    hide Encode, ResolveOne, FixUp, Assemble, Len, Size, IsJump;
    AssembleThree(pre, x, post);
    AssembleThree(pre, y, post);
    FixUpStep(Assemble(pre), x, Assemble(post), total);
  }

  lemma ResolveNext(code: seq<Instr>, total: nat, k: nat)
    requires k < |code|
    ensures Resolve(code[..k + 1], total) == Resolve(code[..k], total) + [ResolveOne(code[k], Offset(code, k), total)]
  {
    assert code[..k + 1][..k] == code[..k];
  }

  lemma OffsetNext(code: seq<Instr>, k: nat)
    requires k < |code|
    ensures Offset(code, k + 1) == Offset(code, k) + Size(code[k])
  {
    hide Size;
    assert code[..k + 1][..k] == code[..k];
  }

  lemma LenAround(code: seq<Instr>, k: nat)
    requires k < |code|
    ensures Offset(code, k + 1) == Offset(code, k) + Size(code[k])
    ensures Len(code) == Offset(code, k) + Size(code[k]) + Len(code[k + 1..])
  {
    hide Size, Len;
    OffsetNext(code, k);
    assert code == code[..k + 1] + code[k + 1..];
    LenAppend(code[..k + 1], code[k + 1..]);
  }

  lemma AssembleThree(a: seq<Instr>, x: Instr, c: seq<Instr>)
    ensures Assemble(a + [x] + c) == Assemble(a) + Encode(x) + Assemble(c)
  {
    hide Encode;
    AssembleAppend(a + [x], c);
    AssembleAppend(a, [x]);
    assert [x][..0] == [];
    assert Assemble([x]) == [] + Encode(x);
  }

  // On assembled code the pass never meets an unknown opcode and resolves every placeholder.
  lemma {:induction false} FixUpResolves(code: seq<Instr>)
    requires JumpsFit(code)
    ensures FixUp(Assemble(code), 0) == Some(Assemble(Resolve(code, Len(code))))
  {
    FixUpFrom(code, 0);
    assert code[..0] == [] && [] + code[0..] == code;
  }

  // The emitter's jumps fit in 32 bits as long as the code does.
  lemma EmittedJumpsFit(code: seq<Instr>, exits: bool)
    requires Jumps(code, exits) && Len(code) < 0x8000_0000
    ensures JumpsFit(code)
  {
    forall k: nat | k < |code| && IsJump(code[k]) ensures IsInt32(code[k].off) {
      assert JumpOk(code, k, exits);
      assert code == code[..k] + code[k..];
      LenAppend(code[..k], code[k..]);
    }
  }

  // ----- the machine -----

  datatype Machine = Machine(pc: int, sp: int, flag: bool)

  // One turn of the loop of regex_exec. Stuck is the unknown-opcode branch, or a read past the end
  // of the code.
  datatype Turn = Next(m: Machine) | Stop(answer: bool) | Stuck

  function Hop(jump: int): int {
    if jump > 0 then 5 + jump else jump
  }

  // Bytes compare as C's signed characters.
  function Signed(b: int): int {
    if b >= 128 then b - 256 else b
  }

  function FlagAfter(b: seq<nat>, pc: nat, ch: int, flag: bool): bool
    requires pc < |b| && pc + OpSize(b[pc]) <= |b|
  {
    match b[pc]
    case 0 => Signed(ch) == Signed(b[pc + 1])
    case 1 => Signed(b[pc + 1]) <= Signed(ch) <= Signed(b[pc + 2])
    case 2 => Signed(ch) < Signed(b[pc + 1]) && Signed(ch) > Signed(b[pc + 2])
    case 3 => true
    case 4 => '0' as int <= ch <= '9' as int
    case 5 => 'a' as int <= ch <= 'z' as int
    case 6 => 'A' as int <= ch <= 'Z' as int
    case 17 => b[pc + 1] != 0
    case _ => flag
  }

  function PosAfter(b: seq<nat>, pc: nat, sp: int, flag: bool): int
    requires pc < |b| && pc + OpSize(b[pc]) <= |b|
  {
    match b[pc]
    case 13 => sp + 1
    case 14 => sp - 1
    case 15 => if flag then sp + 1 else sp
    case 16 => sp + DecodeJump(b, pc + 1)
    case _ => sp
  }

  function Step(b: seq<nat>, str: seq<int>, m: Machine): Turn {
    if !(0 <= m.pc < |b| && 0 <= m.sp < |str|) then Stop(m.flag)
    else if b[m.pc] == 7 || b[m.pc] == 8 then
      if (b[m.pc] == 7) != m.flag then Next(m.(pc := m.pc + 5))
      else if m.pc + 5 > |b| then Stuck
      else Next(m.(pc := m.pc + Hop(DecodeJump(b, m.pc + 1))))
    else if b[m.pc] == 9 then Stop(true)
    else if b[m.pc] == 10 then Stop(false)
    else if OpSize(b[m.pc]) == 0 || m.pc + OpSize(b[m.pc]) > |b| then Stuck
    else
      Next(Machine(m.pc + OpSize(b[m.pc]), PosAfter(b, m.pc, m.sp, m.flag), FlagAfter(b, m.pc, str[m.sp], m.flag)))
  }

  // The outcome of at most n turns.
  function Run(b: seq<nat>, str: seq<int>, m: Machine, n: nat): Turn
    decreases n
  {
    if n == 0 then Next(m)
    else
      var t := Step(b, str, m);
      if t.Next? then Run(b, str, t.m, n - 1) else t
  }

  // The bytecode of a token list, jumps resolved; None when it is rejected.
  function Compile(ts: seq<Token>): Option<seq<nat>> {
    var e := EmitAll(ts);
    if e.Failed? then None
    else if ts == [] then Some(Assemble(e.code))
    else FixUp(Assemble(e.code), 0)
  }

  ghost predicate Compiled(ts: seq<Token>) {
    EmitAll(ts).Emitted? && Len(EmitAll(ts).code) < 0x8000_0000
  }

  // The instructions of the program, jumps resolved.
  ghost function Program(ts: seq<Token>): seq<Instr>
    requires Compiled(ts)
  {
    Resolve(EmitAll(ts).code, Len(EmitAll(ts).code))
  }

  // Every accepted list compiles: the pass that resolves jumps never meets an unknown opcode, and
  // the result is whole instructions, the emitted ones with every placeholder resolved.
  lemma {:induction false} CompileResolves(ts: seq<Token>)
    requires Compiled(ts)
    ensures Compile(ts) == Some(Assemble(Program(ts)))
  {
    hide EmitAll, FixUp, Assemble, Resolve, Jumps, JumpsFit;
    var code := EmitAll(ts).code;
    ProgramJumps(ts, true);
    EmittedJumpsFit(code, true);
    FixUpResolves(code);
    if ts == [] { EmptyProgram(ts); }
  }

  lemma EmptyProgram(ts: seq<Token>)
    requires ts == []
    ensures EmitAll(ts) == Emitted(0, 1, [Accept]) && Resolve([Accept], Len([Accept])) == [Accept]
  {
    hide EmitAlternation, Len;
    var code := [Accept];
    ResolveAt(code, Len(code), 0);
    ResolveOther(Accept, Offset(code, 0), Len(code));
  }

  // ----- one turn at an instruction -----

  lemma {:induction false} AssembleAt(code: seq<Instr>, k: nat)
    requires k < |code|
    ensures Offset(code, k) + Size(code[k]) <= Len(code)
    ensures Assemble(code) == Assemble(code[..k]) + Encode(code[k]) + Assemble(code[k + 1..])
  {
    hide Encode, Assemble, Len, Size;
    LenAround(code, k);
    assert code == code[..k] + [code[k]] + code[k + 1..];
    AssembleThree(code[..k], code[k], code[k + 1..]);
  }

  // Does the jump x happen with this flag?
  predicate Taken(x: Instr, flag: bool) {
    (x.JumpEq? && flag) || (x.JumpNeq? && !flag)
  }

  // At an instruction a turn stops, goes to the next instruction or makes its jump.
  lemma StepAt(code: seq<Instr>, k: nat, str: seq<int>, m: Machine)
    requires k < |code| && m.pc == Offset(code, k) && (IsJump(code[k]) ==> IsInt32(code[k].off))
    ensures var t := Step(Assemble(code), str, m);
            !t.Stuck? &&
            (t.Next? ==> t.m.pc == if Taken(code[k], m.flag) then m.pc + Hop(code[k].off) else Offset(code, k + 1))
  {
    hide Encode, Assemble, Len, Size, Opcode, DecodeJump;
    var x := code[k];
    AssembleAt(code, k);
    OffsetNext(code, k);
    var a, c := Assemble(code[..k]), Assemble(code[k + 1..]);
    StepOver(a, x, c, str, m);
  }

  lemma StepOver(a: seq<nat>, x: Instr, c: seq<nat>, str: seq<int>, m: Machine)
    requires m.pc == |a| && (IsJump(x) ==> IsInt32(x.off))
    ensures var t := Step(a + Encode(x) + c, str, m);
            !t.Stuck? && (t.Next? ==> t.m.pc == |a| + if Taken(x, m.flag) then Hop(x.off) else Size(x))
  {
    hide Encode, Size, Opcode, DecodeJump, FlagAfter, PosAfter, Hop;
    OpSizeRight(x);
    if IsJump(x) {
      JumpSits(a, x, c);
      JumpOpcode(x);
    } else {
      OtherOpcode(x);
      assert (a + Encode(x) + c)[|a|] == Opcode(x);
    }
  }

  lemma JumpOpcode(x: Instr)
    requires IsJump(x)
    ensures (Opcode(x) == 7) == x.JumpEq?
  {
  }
}
