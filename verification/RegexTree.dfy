// Patterns of src/regex.c without one-or-more as trees, and what such a tree does to a text.
module RegexTree {
  import opened Regex
  import opened RegexMachine

  // ----- trees -----

  // Rest is what an alternation or concatenation sign starts: all that follows in its group.
  datatype Item =
    | Test(instr: Instr)
    | Bare
    | Group(id: nat, body: seq<Item>)
    | Rest(body: seq<Item>)
    | Many(item: Item)
    | Maybe(item: Item)

  function Code(x: Item): seq<Instr>
    decreases x
  {
    match x
    case Test(i) => [i, IncPosEq]
    case Bare => [IncPosEq]
    case Group(id, body) => [GroupStart(id)] + Codes(body, true) + [GroupStop(id)]
    case Rest(body) => Codes(body, true)
    case Many(y) => Star(Code(y))
    case Maybe(y) => Code(y) + [SetFlag(1)]
  }

  function Codes(xs: seq<Item>, first: bool): seq<Instr>
    decreases xs
  {
    if xs == [] then []
    else (if first then [] else [JumpNeq(JUMP_FAIL)]) + Code(xs[0]) + Codes(xs[1..], false)
  }

  // The tests of an item are test instructions.
  predicate WellFormed(x: Item)
    decreases x
  {
    match x
    case Test(i) => IsTestInstr(i)
    case Bare => true
    case Group(_, body) => forall k | 0 <= k < |body| :: WellFormed(body[k])
    case Rest(body) => forall k | 0 <= k < |body| :: WellFormed(body[k])
    case Many(y) => WellFormed(y)
    case Maybe(y) => WellFormed(y)
  }

  predicate IsTestInstr(i: Instr) {
    i.TestSingle? || i.TestRange? || i.TestAny? || i.TestDigit? || i.TestLowerCase? || i.TestUpperCase?
  }

  // The tree of a token list, following the emitters.
  function Items(ts: seq<Token>, pos: nat, group: nat, first: bool): seq<Item>
    requires pos <= |ts| && EmitConcatenation(ts, pos, group, first).Emitted?
    decreases |ts| - pos, 2
  {
    if pos >= |ts| || ts[pos].GroupEnd? then []
    else
      var q := EmitQuantified(ts, pos, group);
      [Quantified(ts, pos, group)] + Items(ts, q.pos, q.group, false)
  }

  function Quantified(ts: seq<Token>, pos: nat, group: nat): Item
    requires pos < |ts| && EmitQuantified(ts, pos, group).Emitted?
    decreases |ts| - pos, 1
  {
    var end := EmitPrimary(ts, pos, group).pos;
    if end < |ts| && ts[end] == Op(ZeroOrMore) then Many(Primary(ts, pos, group))
    else if end < |ts| && ts[end] == Op(ZeroOrOne) then Maybe(Primary(ts, pos, group))
    else Primary(ts, pos, group)
  }

  function Primary(ts: seq<Token>, pos: nat, group: nat): Item
    requires pos < |ts| && EmitPrimary(ts, pos, group).Emitted?
    decreases |ts| - pos, 0
  {
    match ts[pos]
    case Single(c) => Test(TestSingle(c))
    case AnyChar => Test(TestAny)
    case Range(lo, hi) => Test(EmitRange(lo, hi)[0])
    case GroupBegin =>
      AlternationIsConcatenation(ts, pos + 1, group + 1);
      Group(group % 256, Items(ts, pos + 1, group + 1, true))
    case Op(Alternate) =>
      AlternationIsConcatenation(ts, pos + 1, group);
      Rest(Items(ts, pos + 1, group, true))
    case Op(Concatenate) => Rest(Items(ts, pos + 1, group, true))
    case _ => Bare
  }

  // What is emitted is the code of the tree.
  lemma {:induction false} ItemsCode(ts: seq<Token>, pos: nat, group: nat, first: bool)
    requires pos <= |ts| && NoPlus(ts) && EmitConcatenation(ts, pos, group, first).Emitted?
    ensures EmitConcatenation(ts, pos, group, first).code == Codes(Items(ts, pos, group, first), first)
    decreases |ts| - pos, 2
  {
    hide EmitQuantified, Quantified, Code;
    if pos < |ts| && !ts[pos].GroupEnd? {
      var q := EmitQuantified(ts, pos, group);
      QuantifiedCode(ts, pos, group);
      ItemsCode(ts, q.pos, q.group, false);
      var xs := Items(ts, pos, group, first);
      assert xs[0] == Quantified(ts, pos, group) && xs[1..] == Items(ts, q.pos, q.group, false);
    }
  }

  lemma {:induction false} QuantifiedCode(ts: seq<Token>, pos: nat, group: nat)
    requires pos < |ts| && NoPlus(ts) && EmitQuantified(ts, pos, group).Emitted?
    ensures EmitQuantified(ts, pos, group).code == Code(Quantified(ts, pos, group))
    decreases |ts| - pos, 1
  {
    hide EmitPrimary, Primary, Star;
    PrimaryCode(ts, pos, group);
  }

  lemma {:induction false} PrimaryCode(ts: seq<Token>, pos: nat, group: nat)
    requires pos < |ts| && NoPlus(ts) && EmitPrimary(ts, pos, group).Emitted?
    ensures EmitPrimary(ts, pos, group).code == Code(Primary(ts, pos, group))
    decreases |ts| - pos, 0
  {
    hide EmitConcatenation, Items;
    match ts[pos]
    case GroupBegin =>
      AlternationIsConcatenation(ts, pos + 1, group + 1);
      ItemsCode(ts, pos + 1, group + 1, true);
    case Op(Alternate) =>
      AlternationIsConcatenation(ts, pos + 1, group);
      ItemsCode(ts, pos + 1, group, true);
    case Op(Concatenate) =>
      ItemsCode(ts, pos + 1, group, true);
    case _ =>
  }

  lemma {:induction false} ItemsWellFormed(ts: seq<Token>, pos: nat, group: nat, first: bool)
    requires pos <= |ts| && EmitConcatenation(ts, pos, group, first).Emitted?
    ensures forall k | 0 <= k < |Items(ts, pos, group, first)| :: WellFormed(Items(ts, pos, group, first)[k])
    decreases |ts| - pos
  {
    hide EmitQuantified, EmitPrimary, Primary, WellFormed;
    if pos < |ts| && !ts[pos].GroupEnd? {
      var q := EmitQuantified(ts, pos, group);
      PrimaryWellFormed(ts, pos, group);
      QuantifiedWellFormed(ts, pos, group);
      ItemsWellFormed(ts, q.pos, q.group, false);
    }
  }

  lemma QuantifiedWellFormed(ts: seq<Token>, pos: nat, group: nat)
    requires pos < |ts| && EmitQuantified(ts, pos, group).Emitted? && WellFormed(Primary(ts, pos, group))
    ensures WellFormed(Quantified(ts, pos, group))
  {
    hide EmitPrimary, Primary;
  }

  lemma {:induction false} PrimaryWellFormed(ts: seq<Token>, pos: nat, group: nat)
    requires pos < |ts| && EmitQuantified(ts, pos, group).Emitted?
    ensures EmitPrimary(ts, pos, group).Emitted? && WellFormed(Primary(ts, pos, group))
    decreases |ts| - pos, 0
  {
    hide EmitConcatenation, Items;
    match ts[pos]
    case GroupBegin => ItemsWellFormed(ts, pos + 1, group + 1, true);
    case Op(Alternate) => ItemsWellFormed(ts, pos + 1, group, true);
    case Op(Concatenate) => ItemsWellFormed(ts, pos + 1, group, true);
    case _ =>
  }

  // ----- what a tree does to a text -----

  predicate InstrFits(i: Instr, ch: int) {
    match i
    case TestSingle(c) => Signed(ch) == Signed(c % 256)
    case TestRange(lo, hi) => Signed(lo % 256) <= Signed(ch) <= Signed(hi % 256)
    case TestDigit => '0' as int <= ch <= '9' as int
    case TestLowerCase => 'a' as int <= ch <= 'z' as int
    case TestUpperCase => 'A' as int <= ch <= 'Z' as int
    case _ => true
  }

  // Passed with a position and a flag, answered, or turning for ever.
  datatype Outcome = At(sp: nat, flag: bool) | Done(answer: bool) | Forever

  function Eval(x: Item, str: seq<int>, sp: nat, flag: bool): (o: Outcome)
    ensures o.At? ==> sp <= o.sp
    decreases x, 0, 0, 0
  {
    match x
    case Test(i) =>
      if sp >= |str| then Done(flag)
      else if InstrFits(i, str[sp]) then At(sp + 1, true)
      else At(sp, false)
    case Bare => if sp >= |str| then Done(flag) else if flag then At(sp + 1, true) else At(sp, false)
    case Group(_, body) => if sp >= |str| then Done(flag) else Ended(Evals(body, true, str, sp, flag), str)
    case Rest(body) => Evals(body, true, str, sp, flag)
    case Many(y) => Loop(y, str, sp, flag)
    case Maybe(y) =>
      var o := Ended(Eval(y, str, sp, flag), str);
      if o.At? then At(o.sp, true) else o
  }

  // When the text is used up the next instruction, whichever it is, ends the match with the flag.
  function Ended(o: Outcome, str: seq<int>): (r: Outcome)
    ensures r.At? ==> r == o && o.sp < |str|
  {
    if o.At? && o.sp >= |str| then Done(o.flag) else o
  }

  function Evals(xs: seq<Item>, first: bool, str: seq<int>, sp: nat, flag: bool): (o: Outcome)
    ensures o.At? ==> sp <= o.sp
    decreases xs, 0, 0, 0
  {
    if xs == [] then At(sp, flag)
    else if !first && (sp >= |str| || !flag) then Done(sp >= |str| && flag)
    else
      var o := Eval(xs[0], str, sp, flag);
      if o.At? then Evals(xs[1..], false, str, o.sp, o.flag) else o
  }

  // Repeats while the flag is set; with nothing consumed and the flag set before, for ever.
  function Loop(y: Item, str: seq<int>, sp: nat, flag: bool): (o: Outcome)
    ensures o.At? ==> sp <= o.sp
    decreases y, 1, if sp < |str| then |str| - sp else 0, if flag then 0 else 1
  {
    var o := Ended(Eval(y, str, sp, flag), str);
    if !o.At? then o
    else if !o.flag then At(o.sp, true)
    else if o.sp > sp then Loop(y, str, o.sp, true)
    else if flag then Forever
    else Loop(y, str, sp, true)
  }

  // The meaning of a whole pattern: its answer, or none.
  function Meaning(ts: seq<Token>, str: seq<int>): Outcome
    requires ts != [] && EmitAll(ts).Emitted?
  {
    var o := Evals(Items(ts, 0, 1, true), true, str, 0, false);
    if o.At? then Done(o.flag) else o
  }

  // ----- passing an item with nothing consumed -----

  // With this character next: passed on the spot with a flag, or not.
  datatype Stay = Stays(flag: bool) | Moves

  function Still(x: Item, ch: int, flag: bool): Stay
    decreases x
  {
    match x
    case Test(i) => if InstrFits(i, ch) then Moves else Stays(false)
    case Bare => if flag then Moves else Stays(false)
    case Group(_, body) => Stills(body, true, ch, flag)
    case Rest(body) => Stills(body, true, ch, flag)
    case Maybe(y) => if Still(y, ch, flag).Stays? then Stays(true) else Moves
    case Many(y) =>
      if Still(y, ch, flag) == Stays(false) ||
          (!flag && Still(y, ch, false) == Stays(true) && Still(y, ch, true) == Stays(false))
      then Stays(true) else Moves
  }

  function Stills(xs: seq<Item>, first: bool, ch: int, flag: bool): Stay
    decreases xs
  {
    if xs == [] then Stays(flag)
    else if !first && !flag then Moves
    else
      var s := Still(xs[0], ch, flag);
      if s.Stays? then Stills(xs[1..], false, ch, s.flag) else Moves
  }

  // Still says when the evaluator passes an item with text left and nothing consumed.
  ghost predicate SaysStay(o: Outcome, s: Stay, sp: nat) {
    (s.Stays? ==> o == At(sp, s.flag)) && (o.At? && o.sp == sp ==> s == Stays(o.flag))
  }

  lemma {:induction false} StillIs(x: Item, str: seq<int>, sp: nat, flag: bool)
    requires sp < |str|
    ensures SaysStay(Eval(x, str, sp, flag), Still(x, str[sp], flag), sp)
    decreases x, 0
  {
    match x
    case Group(_, body) => StillsAre(body, true, str, sp, flag);
    case Rest(body) => StillsAre(body, true, str, sp, flag);
    case Maybe(y) => StillIs(y, str, sp, flag);
    case Many(y) =>
      StillIs(y, str, sp, flag);
      StillIs(y, str, sp, true);
      LoopStill(y, str, sp, flag);
    case _ =>
  }

  lemma LoopStill(y: Item, str: seq<int>, sp: nat, flag: bool)
    requires sp < |str|
    requires SaysStay(Eval(y, str, sp, flag), Still(y, str[sp], flag), sp)
    requires SaysStay(Eval(y, str, sp, true), Still(y, str[sp], true), sp)
    ensures SaysStay(Loop(y, str, sp, flag), Still(Many(y), str[sp], flag), sp)
  {
    hide Eval;
    if !flag && Still(y, str[sp], false) == Stays(true) {
      assert Loop(y, str, sp, false) == Loop(y, str, sp, true);
    }
  }

  lemma {:induction false} StillsAre(xs: seq<Item>, first: bool, str: seq<int>, sp: nat, flag: bool)
    requires sp < |str|
    ensures SaysStay(Evals(xs, first, str, sp, flag), Stills(xs, first, str[sp], flag), sp)
    decreases xs, 0
  {
    hide Eval, Still;
    if xs != [] && (first || flag) {
      StillIs(xs[0], str, sp, flag);
      var o := Eval(xs[0], str, sp, flag);
      if o.At? && o.sp == sp { StillsAre(xs[1..], false, str, sp, o.flag); }
    }
  }

  // ----- patterns that always come to an end -----

  predicate IsChar(ch: int) {
    0 < ch < 256
  }

  ghost predicate IsText(str: seq<int>) {
    forall i | 0 <= i < |str| :: IsChar(str[i])
  }

  // With this character next, the item entered with the flag set is passed with the flag set and
  // nothing consumed.
  predicate Idles(y: Item, ch: int) {
    Still(y, ch, true) == Stays(true)
  }

  // No starred item can idle.
  predicate Settled(x: Item)
    decreases x
  {
    match x
    case Test(_) => true
    case Bare => true
    case Group(_, body) => forall k | 0 <= k < |body| :: Settled(body[k])
    case Rest(body) => forall k | 0 <= k < |body| :: Settled(body[k])
    case Many(y) => Settled(y) && forall ch | 0 < ch < 256 :: !Idles(y, ch)
    case Maybe(y) => Settled(y)
  }

  lemma {:induction false} SettledEnds(x: Item, str: seq<int>, sp: nat, flag: bool)
    requires Settled(x) && IsText(str)
    ensures !Eval(x, str, sp, flag).Forever?
    decreases x, 0, 0, 0
  {
    hide Idles, IsText;
    match x
    case Group(_, body) => BodyEnds(body, true, str, sp, flag);
    case Rest(body) => BodyEnds(body, true, str, sp, flag);
    case Many(y) => LoopEnds(y, str, sp, flag);
    case Maybe(y) => SettledEnds(y, str, sp, flag);
    case _ =>
  }

  lemma {:induction false} BodyEnds(xs: seq<Item>, first: bool, str: seq<int>, sp: nat, flag: bool)
    requires IsText(str) && forall k | 0 <= k < |xs| :: Settled(xs[k])
    ensures !Evals(xs, first, str, sp, flag).Forever?
    decreases xs, 0, 0, 0
  {
    hide Eval, Settled, IsText;
    if xs != [] {
      SettledEnds(xs[0], str, sp, flag);
      var o := Eval(xs[0], str, sp, flag);
      if o.At? { BodyEnds(xs[1..], false, str, o.sp, o.flag); }
    }
  }

  lemma {:induction false} LoopEnds(y: Item, str: seq<int>, sp: nat, flag: bool)
    requires Settled(y) && (forall ch | 0 < ch < 256 :: !Idles(y, ch)) && IsText(str)
    ensures !Loop(y, str, sp, flag).Forever?
    decreases y, 1, if sp < |str| then |str| - sp else 0, if flag then 0 else 1
  {
    hide Eval, Settled, Still;
    SettledEnds(y, str, sp, flag);
    var o := Ended(Eval(y, str, sp, flag), str);
    if o.At? {
      assert IsChar(str[sp]) && !Idles(y, str[sp]);
      StillIs(y, str, sp, true);
      if o.flag { LoopEnds(y, str, o.sp, true); }
    }
  }

  // An optional group of two tests cannot idle: the second is not reached once the first has failed.
  lemma OptionalPairSettled(i: Instr, j: Instr)
    ensures Settled(Many(Group(1, [Maybe(Group(2, [Test(i), Test(j)]))])))
  {
    hide InstrFits;
    var pair := [Test(i), Test(j)];
    var x := Maybe(Group(2, pair));
    var y := Group(1, [x]);
    forall ch | 0 < ch < 256 ensures !Idles(y, ch) {
      assert pair[1..] == [Test(j)];
      assert Stills(pair, true, ch, true) == Moves;
      assert Still(Group(2, pair), ch, true) == Moves;
      assert Still(x, ch, true) == Moves;
      assert Stills([x], true, ch, true) == Moves;
      assert Still(y, ch, true) == Moves;
    }
    assert Settled(Group(2, pair));
    assert Settled(x);
    assert Settled(y);
  }

  ghost predicate SpinsAt(y: Item, str: seq<int>, sp: nat) {
    IsText(str) && sp < |str| && Loop(y, str, sp, true) == Forever
  }

  // A star over settled items turns for ever on some text, when reached with the flag set and text
  // left, exactly if some character lets its operand idle.
  lemma {:induction false} StarSpins(y: Item)
    requires Settled(y)
    ensures (exists str, sp: nat :: SpinsAt(y, str, sp)) <==> exists ch :: IsChar(ch) && Idles(y, ch)
  {
    hide Eval, Settled, Still;
    if ch :| IsChar(ch) && Idles(y, ch) {
      StillIs(y, [ch], 0, true);
      assert SpinsAt(y, [ch], 0);
    }
    if str, sp: nat :| SpinsAt(y, str, sp) {
      if forall ch | 0 < ch < 256 :: !Idles(y, ch) { LoopEnds(y, str, sp, true); }
    }
  }

  // ----- a condition on the tokens -----

  predicate NoGroups(ts: seq<Token>) {
    forall i | 0 <= i < |ts| :: !ts[i].GroupBegin?
  }

  // Without groups a star follows a single test, and every item is settled.
  lemma {:induction false} UngroupedSettled(ts: seq<Token>, pos: nat, group: nat, first: bool)
    requires pos <= |ts| && NoGroups(ts) && EmitConcatenation(ts, pos, group, first).Emitted?
    ensures forall k | 0 <= k < |Items(ts, pos, group, first)| :: Settled(Items(ts, pos, group, first)[k])
    decreases |ts| - pos
  {
    hide EmitQuantified, Settled, Quantified;
    if pos < |ts| && !ts[pos].GroupEnd? {
      var q := EmitQuantified(ts, pos, group);
      QuantifiedSettled(ts, pos, group);
      UngroupedSettled(ts, q.pos, q.group, false);
    }
  }

  lemma {:induction false} QuantifiedSettled(ts: seq<Token>, pos: nat, group: nat)
    requires pos < |ts| && NoGroups(ts) && EmitQuantified(ts, pos, group).Emitted?
    ensures Settled(Quantified(ts, pos, group))
    decreases |ts| - pos, 0
  {
    hide EmitConcatenation, EmitAlternation, Items;
    if ts[pos].Op? {
      AlternationIsConcatenation(ts, pos + 1, group);
      ConcatenationEnds(ts, pos + 1, group, true);
      UngroupedSettled(ts, pos + 1, group, true);
      assert EmitPrimary(ts, pos, group) == EmitConcatenation(ts, pos + 1, group, true);
      assert Quantified(ts, pos, group) == Rest(Items(ts, pos + 1, group, true));
    }
  }
}
