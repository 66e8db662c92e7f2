// What a match answers for the patterns of src/regex.c that have no quantifier and no group, and
// when that is what such a pattern is meant to match.
module RegexPlain {
  import opened Regex
  import opened RegexMachine
  import opened RegexTree
  import opened RegexMeaning
  import opened Wrappers

  // ----- plain patterns -----

  // A character, any character or a range, or one of the two signs that join them.
  predicate IsTest(t: Token) {
    match t
    case Single(c) => c < 256
    case AnyChar => true
    case Range(lo, hi) => lo < 256 && hi < 256
    case _ => false
  }

  predicate IsJoint(t: Token) {
    t == Op(Concatenate) || t == Op(Alternate)
  }

  predicate IsPlain(ts: seq<Token>) {
    forall i | 0 <= i < |ts| :: IsTest(ts[i]) || IsJoint(ts[i])
  }

  // The tests of a pattern, from position pos on.
  function Tests(ts: seq<Token>, pos: nat): (r: seq<Token>)
    requires pos <= |ts|
    ensures forall i | 0 <= i < |r| :: IsTest(r[i])
    decreases |ts| - pos
  {
    if pos == |ts| then []
    else (if IsTest(ts[pos]) then [ts[pos]] else []) + Tests(ts, pos + 1)
  }

  predicate Fits(t: Token, ch: int)
    requires IsTest(t)
  {
    match t
    case Single(c) => ch == c
    case AnyChar => true
    case Range(lo, hi) => Signed(lo) <= Signed(ch) <= Signed(hi)
  }

  // Tests and text agree at every index both have.
  ghost predicate Agreeing(tests: seq<Token>, str: seq<int>)
    requires forall i | 0 <= i < |tests| :: IsTest(tests[i])
  {
    forall k: nat | k < |tests| && k < |str| :: Fits(tests[k], str[k])
  }

  // Tests and text agree as far as both go, from position sp of the text on.
  predicate Agree(tests: seq<Token>, str: seq<int>, sp: nat)
    requires forall i | 0 <= i < |tests| :: IsTest(tests[i])
    decreases |tests|
  {
    tests == [] || sp >= |str| || (Fits(tests[0], str[sp]) && Agree(tests[1..], str, sp + 1))
  }

  lemma {:induction false} AgreeAt(tests: seq<Token>, str: seq<int>, sp: nat)
    requires forall i | 0 <= i < |tests| :: IsTest(tests[i])
    ensures Agree(tests, str, sp) <==> forall k: nat | k < |tests| && sp + k < |str| :: Fits(tests[k], str[sp + k])
    decreases |tests|
  {
    if tests != [] && sp < |str| {
      var rest := tests[1..];
      AgreeAt(rest, str, sp + 1);
      if Agree(tests, str, sp) {
        forall k: nat | k < |tests| && sp + k < |str| ensures Fits(tests[k], str[sp + k]) {
          if k > 0 { assert Fits(rest[k - 1], str[sp + 1 + (k - 1)]); }
        }
      }
      if forall k: nat | k < |tests| && sp + k < |str| :: Fits(tests[k], str[sp + k]) {
        assert Fits(tests[0], str[sp + 0]);
        forall k: nat | k < |rest| && sp + 1 + k < |str| ensures Fits(rest[k], str[sp + 1 + k]) {
          assert Fits(tests[k + 1], str[sp + (k + 1)]);
        }
      }
    }
  }

  // ----- the tree of a plain pattern -----

  function TestInstr(t: Token): Instr
    requires IsTest(t)
  {
    match t
    case Single(c) => TestSingle(c)
    case AnyChar => TestAny
    case Range(lo, hi) => EmitRange(lo, hi)[0]
  }

  // The shortcut tests for digits and letters are the ranges they stand for.
  lemma TestFits(t: Token, ch: int)
    requires IsTest(t) && IsChar(ch)
    ensures InstrFits(TestInstr(t), ch) == Fits(t, ch)
  {
  }

  lemma {:induction false} PlainEmits(ts: seq<Token>, pos: nat, group: nat, first: bool)
    requires pos <= |ts| && IsPlain(ts)
    ensures var r := EmitConcatenation(ts, pos, group, first); r.Emitted? && r.pos == |ts| && r.group == group
    decreases |ts| - pos
  {
    hide EmitQuantified, IsTest, IsJoint;
    if pos < |ts| {
      PlainQuantified(ts, pos, group);
      if IsTest(ts[pos]) {
        PlainEmits(ts, pos + 1, group, false);
      } else {
        PlainEmits(ts, pos + 1, group, true);
      }
    }
  }

  lemma PlainQuantified(ts: seq<Token>, pos: nat, group: nat)
    requires pos < |ts| && IsPlain(ts)
    ensures !ts[pos].GroupEnd? && (IsTest(ts[pos]) || IsJoint(ts[pos]))
    ensures IsTest(ts[pos]) ==>
              EmitQuantified(ts, pos, group) == Emitted(pos + 1, group, [TestInstr(ts[pos]), IncPosEq])
    ensures IsJoint(ts[pos]) ==> EmitQuantified(ts, pos, group) == EmitConcatenation(ts, pos + 1, group, true)
  {
    hide EmitConcatenation, EmitAlternation;
    if IsJoint(ts[pos]) {
      AlternationIsConcatenation(ts, pos + 1, group);
      ConcatenationEnds(ts, pos + 1, group, true);
    }
  }

  lemma PlainItem(ts: seq<Token>, pos: nat, group: nat)
    requires pos < |ts| && IsPlain(ts) && EmitQuantified(ts, pos, group).Emitted?
    ensures IsTest(ts[pos]) ==> Quantified(ts, pos, group) == Test(TestInstr(ts[pos]))
    ensures IsJoint(ts[pos]) ==> EmitConcatenation(ts, pos + 1, group, true).Emitted? &&
                                 Quantified(ts, pos, group) == Rest(Items(ts, pos + 1, group, true))
  {
    hide EmitConcatenation, EmitAlternation, Items;
    if IsJoint(ts[pos]) {
      AlternationIsConcatenation(ts, pos + 1, group);
      ConcatenationEnds(ts, pos + 1, group, true);
    }
  }

  // ----- the answer, token by token -----

  function Answer(ts: seq<Token>, pos: nat, first: bool, str: seq<int>, sp: nat, flag: bool): bool
    requires pos <= |ts| && IsPlain(ts)
    decreases |ts| - pos, if first then 0 else 1
  {
    if sp >= |str| || pos == |ts| then flag
    else if !first then flag && Answer(ts, pos, true, str, sp, flag)
    else if IsTest(ts[pos]) then
      var hit := Fits(ts[pos], str[sp]);
      Answer(ts, pos + 1, false, str, if hit then sp + 1 else sp, hit)
    else Answer(ts, pos + 1, true, str, sp, flag)
  }

  ghost predicate Ends(o: Outcome, answer: bool) {
    (o.At? && o.flag == answer) || (o.Done? && o.answer == answer)
  }

  lemma {:induction false} PlainEvals(ts: seq<Token>, pos: nat, group: nat, first: bool, str: seq<int>, sp: nat,
                                      flag: bool)
    requires pos <= |ts| && IsPlain(ts) && IsText(str)
    ensures EmitConcatenation(ts, pos, group, first).Emitted?
    ensures Ends(Evals(Items(ts, pos, group, first), first, str, sp, flag), Answer(ts, pos, first, str, sp, flag))
    decreases |ts| - pos
  {
    hide EmitQuantified, IsTest, IsJoint, Quantified, TestInstr, Fits, InstrFits, Eval;
    PlainEmits(ts, pos, group, first);
    if pos < |ts| && !(!first && (sp >= |str| || !flag)) {
      PlainQuantified(ts, pos, group);
      PlainItem(ts, pos, group);
      var xs, o := Items(ts, pos, group, first), Eval(Quantified(ts, pos, group), str, sp, flag);
      var q := EmitQuantified(ts, pos, group);
      assert xs[0] == Quantified(ts, pos, group) && xs[1..] == Items(ts, q.pos, q.group, false);
      if IsTest(ts[pos]) {
        TestEval(ts[pos], str, sp, flag);
        if o.At? { PlainEvals(ts, pos + 1, group, false, str, o.sp, o.flag); }
      } else {
        PlainEvals(ts, pos + 1, group, true, str, sp, flag);
        RestEval(Items(ts, pos + 1, group, true), str, sp, flag);
        PlainEmits(ts, pos + 1, group, true);
        assert Items(ts, q.pos, q.group, false) == [];
      }
    }
  }

  lemma TestEval(t: Token, str: seq<int>, sp: nat, flag: bool)
    requires IsTest(t) && IsText(str)
    ensures Eval(Test(TestInstr(t)), str, sp, flag) ==
            if sp >= |str| then Done(flag) else At(if Fits(t, str[sp]) then sp + 1 else sp, Fits(t, str[sp]))
  {
    hide InstrFits, Fits, TestInstr;
    if sp < |str| { TestFits(t, str[sp]); }
  }

  lemma RestEval(xs: seq<Item>, str: seq<int>, sp: nat, flag: bool)
    ensures Eval(Rest(xs), str, sp, flag) == Evals(xs, true, str, sp, flag)
  {
  }

  lemma {:induction false} AnswerIs(ts: seq<Token>, pos: nat, first: bool, str: seq<int>, sp: nat, flag: bool)
    requires pos <= |ts| && IsPlain(ts) && (flag || first)
    ensures Answer(ts, pos, first, str, sp, flag) <==>
            (flag || (sp < |str| && Tests(ts, pos) != [])) && Agree(Tests(ts, pos), str, sp)
    decreases |ts| - pos, if first then 0 else 1
  {
    if sp < |str| && pos < |ts| {
      if !first {
        AnswerIs(ts, pos, true, str, sp, flag);
      } else if IsTest(ts[pos]) {
        var rest := Tests(ts, pos + 1);
        assert Tests(ts, pos)[0] == ts[pos] && Tests(ts, pos)[1..] == rest;
        if Fits(ts[pos], str[sp]) { AnswerIs(ts, pos + 1, false, str, sp + 1, true); }
      } else {
        AnswerIs(ts, pos + 1, true, str, sp, flag);
        assert Tests(ts, pos) == Tests(ts, pos + 1);
      }
    }
  }

  // What the machine says after enough turns.
  ghost function Says(ts: seq<Token>, str: seq<int>): Turn
    requires Compile(ts).Some?
  {
    var b := Compile(ts).value;
    Run(b, str, Machine(0, 0, false), 2 * (|b| * |str|) + 1)
  }

  lemma SaysMeaning(ts: seq<Token>, str: seq<int>)
    requires Compiled(ts) && ts != [] && NoPlus(ts) && NoGroups(ts) && IsText(str)
    ensures Compile(ts).Some? && Meaning(ts, str).Done? && Says(ts, str) == Stop(Meaning(ts, str).answer)
  {
    hide Run, Compile, EmitAll, Meaning, NoPlus, NoGroups, IsText;
    UngroupedStops(ts, str);
    MatchMeans(ts, str);
  }

  lemma PlainMeaning(ts: seq<Token>, str: seq<int>)
    requires ts != [] && EmitAll(ts).Emitted? && IsPlain(ts) && IsText(str)
    ensures Meaning(ts, str) == Done(str != [] && Tests(ts, 0) != [] && Agreeing(Tests(ts, 0), str))
  {
    hide EmitAll, Items, Evals, Fits;
    PlainEvals(ts, 0, 1, true, str, 0, false);
    AnswerIs(ts, 0, true, str, 0, false);
    AgreeAt(Tests(ts, 0), str, 0);
  }

  // A plain pattern, on any text: the machine stops, and answers true exactly when pattern and text
  // are not empty and agree as far as both go. An alternation sign joins like a concatenation.
  lemma {:induction false} PlainMatch(ts: seq<Token>, str: seq<int>)
    requires Compiled(ts) && ts != [] && IsPlain(ts) && IsText(str)
    ensures Compile(ts).Some?
    ensures Says(ts, str) == Stop(str != [] && Tests(ts, 0) != [] && Agreeing(Tests(ts, 0), str))
  {
    hide Says, Compile, EmitAll, Meaning, Fits, IsText;
    PlainLists(ts);
    SaysMeaning(ts, str);
    PlainMeaning(ts, str);
  }

  lemma PlainLists(ts: seq<Token>)
    requires IsPlain(ts)
    ensures NoPlus(ts) && NoGroups(ts)
  {
  }

  // ----- what a plain pattern is meant to match -----

  // The tests between alternation signs.
  function Alternatives(ts: seq<Token>, pos: nat): (r: seq<seq<Token>>)
    requires pos <= |ts|
    ensures |r| > 0 && forall i, k | 0 <= i < |r| && 0 <= k < |r[i]| :: IsTest(r[i][k])
    decreases |ts| - pos
  {
    if pos == |ts| then [[]]
    else
      var r := Alternatives(ts, pos + 1);
      if ts[pos] == Op(Alternate) then [[]] + r
      else if IsTest(ts[pos]) then [[ts[pos]] + r[0]] + r[1..]
      else r
  }

  // All of the tests fit the beginning of the text.
  ghost predicate Begins(tests: seq<Token>, str: seq<int>)
    requires forall i | 0 <= i < |tests| :: IsTest(tests[i])
  {
    |tests| <= |str| && forall k: nat | k < |tests| :: Fits(tests[k], str[k])
  }

  // Some alternative matches the beginning of the text.
  ghost predicate Intended(ts: seq<Token>, str: seq<int>) {
    exists i: nat :: i < |Alternatives(ts, 0)| && Begins(Alternatives(ts, 0)[i], str)
  }

  lemma {:induction false} AlternativesInTests(ts: seq<Token>, pos: nat)
    requires pos <= |ts|
    ensures |Alternatives(ts, pos)[0]| <= |Tests(ts, pos)|
    ensures Tests(ts, pos)[..|Alternatives(ts, pos)[0]|] == Alternatives(ts, pos)[0]
    ensures forall i | 0 <= i < |Alternatives(ts, pos)| :: |Alternatives(ts, pos)[i]| <= |Tests(ts, pos)|
    decreases |ts| - pos
  {
    if pos < |ts| { AlternativesInTests(ts, pos + 1); }
  }

  // When the whole pattern agrees with a text that has room for the first alternative, that matches.
  lemma FirstIsIntended(ts: seq<Token>, str: seq<int>)
    requires Agreeing(Tests(ts, 0), str) && |Alternatives(ts, 0)[0]| <= |str|
    ensures Intended(ts, str)
  {
    hide Fits;
    AlternativesInTests(ts, 0);
    var a, t := Alternatives(ts, 0)[0], Tests(ts, 0);
    forall k: nat | k < |a| ensures Fits(a[k], str[k]) { assert a[k] == t[..|a|][k]; }
    assert Begins(a, str);
  }

  // On one text: when the answer is the intended one. With room for the first alternative the answer
  // is never true by mistake; it is wrong when an alternative matches and the whole pattern, its
  // alternatives one after the other, does not agree.
  lemma {:induction false} PlainIsIntended(ts: seq<Token>, str: seq<int>)
    requires Compiled(ts) && ts != [] && IsPlain(ts) && IsText(str)
    ensures Compile(ts).Some?
    ensures var tests, alts := Tests(ts, 0), Alternatives(ts, 0);
            Says(ts, str) == Stop(Intended(ts, str)) <==>
            if str == [] then forall i | 0 <= i < |alts| :: alts[i] != []
            else if |alts[0]| <= |str| then tests != [] && (Agreeing(tests, str) || !Intended(ts, str))
            else Intended(ts, str) <==> Agreeing(alts[0], str)
  {
    hide Says, Fits, Compile, Compiled;
    PlainMatch(ts, str);
    var tests, alts := Tests(ts, 0), Alternatives(ts, 0);
    AlternativesInTests(ts, 0);
    if str == [] {
      forall i | 0 <= i < |alts| ensures Begins(alts[i], str) <==> alts[i] == [] {}
    } else if |alts[0]| <= |str| {
      if Agreeing(tests, str) { FirstIsIntended(ts, str); }
      if tests == [] { assert alts[0] == [] && Begins(alts[0], str); }
    } else {
      FirstAgrees(tests, alts[0], str);
    }
  }

  lemma FirstAgrees(tests: seq<Token>, a: seq<Token>, str: seq<int>)
    requires forall i | 0 <= i < |tests| :: IsTest(tests[i])
    requires |str| < |a| <= |tests| && tests[..|a|] == a
    ensures forall i | 0 <= i < |a| :: IsTest(a[i])
    ensures Agreeing(tests, str) <==> Agreeing(a, str)
  {
    hide Fits;
    forall k: nat | k < |a| ensures a[k] == tests[k] { assert a[k] == tests[..|a|][k]; }
  }

  ghost predicate HasFit(t: Token)
    requires IsTest(t)
  {
    exists ch :: IsChar(ch) && Fits(t, ch)
  }

  // Some character fits each test.
  ghost predicate Satisfiable(tests: seq<Token>)
    requires forall i | 0 <= i < |tests| :: IsTest(tests[i])
  {
    forall k: nat | k < |tests| :: HasFit(tests[k])
  }

  // Each test of the whole pattern follows from the alternative's test at its place, and is met by
  // every character where the alternative is over.
  ghost predicate Implies(a: seq<Token>, tests: seq<Token>)
    requires forall i | 0 <= i < |a| :: IsTest(a[i])
    requires forall i | 0 <= i < |tests| :: IsTest(tests[i])
  {
    forall k: nat, ch | k < |tests| && IsChar(ch) :: (k < |a| ==> Fits(a[k], ch)) ==> Fits(tests[k], ch)
  }

  // A match of an alternative makes the whole pattern fit.
  ghost predicate Harmless(ts: seq<Token>) {
    Tests(ts, 0) != [] &&
    forall i | 0 <= i < |Alternatives(ts, 0)| && Satisfiable(Alternatives(ts, 0)[i]) ::
      Implies(Alternatives(ts, 0)[i], Tests(ts, 0))
  }

  // Some alternative of one test fits the character.
  ghost predicate Covered(ts: seq<Token>, ch: int) {
    exists i: nat :: i < |Alternatives(ts, 0)| && Begins(Alternatives(ts, 0)[i], [ch]) && |Alternatives(ts, 0)[i]| == 1
  }

  ghost predicate Reliable(ts: seq<Token>) {
    && Harmless(ts)
    && (forall i | 0 <= i < |Alternatives(ts, 0)| :: Alternatives(ts, 0)[i] != [])
    && (|Tests(ts, 0)| >= 2 ==> forall ch | IsChar(ch) && Fits(Tests(ts, 0)[0], ch) :: Covered(ts, ch))
  }

  // A text on which alternative a fits and the whole pattern does not.
  lemma Witness(a: seq<Token>, tests: seq<Token>) returns (str: seq<int>)
    requires forall i | 0 <= i < |a| :: IsTest(a[i])
    requires forall i | 0 <= i < |tests| :: IsTest(tests[i])
    requires |a| <= |tests| && Satisfiable(a) && !Implies(a, tests)
    ensures IsText(str) && |str| == |tests| && Begins(a, str) && !Begins(tests, str)
  {
    hide Fits;
    var k: nat, bad :| k < |tests| && IsChar(bad) && (k < |a| ==> Fits(a[k], bad)) && !Fits(tests[k], bad);
    str := seq(|tests|, i requires 0 <= i < |tests| =>
      if i == k then bad
      else if i < |a| then (assert HasFit(a[i]); var ch :| IsChar(ch) && Fits(a[i], ch); ch)
      else 1);
    assert str[k] == bad;
  }

  ghost predicate Right(ts: seq<Token>, str: seq<int>)
    requires Compile(ts).Some?
  {
    Says(ts, str) == Stop(Intended(ts, str))
  }

  // Right on the texts as long as the pattern means harmless, ...
  lemma RightMeansHarmless(ts: seq<Token>)
    requires Compiled(ts) && ts != [] && IsPlain(ts) && Compile(ts).Some?
    requires forall str | IsText(str) && |str| >= |Tests(ts, 0)| :: Right(ts, str)
    ensures Harmless(ts)
  {
    hide Says, Fits, Compile, Compiled, Implies, Satisfiable;
    var one: seq<int> := [1];
    var tests := Tests(ts, 0);
    if tests == [] {
      AlternativesInTests(ts, 0);
      assert IsText(one) && Right(ts, one);
      PlainIsIntended(ts, one);
      assert false;
    } else if !Harmless(ts) {
      var i: nat :| i < |Alternatives(ts, 0)| && Satisfiable(Alternatives(ts, 0)[i]) &&
          !Implies(Alternatives(ts, 0)[i], tests);
      AlternativesInTests(ts, 0);
      var str := Witness(Alternatives(ts, 0)[i], tests);
      assert Right(ts, str);
      assert Begins(Alternatives(ts, 0)[i], str);
      assert Intended(ts, str);
      PlainMatch(ts, str);
      assert false;
    }
  }

  // ... and right on the texts of one character that the first alternatives of one test cover it.
  lemma RightMeansCovered(ts: seq<Token>, ch: int)
    requires Compiled(ts) && ts != [] && IsPlain(ts) && Compile(ts).Some? && IsChar(ch)
    requires |Tests(ts, 0)| >= 2 && Fits(Tests(ts, 0)[0], ch)
    requires forall i | 0 <= i < |Alternatives(ts, 0)| :: Alternatives(ts, 0)[i] != []
    requires Right(ts, [ch])
    ensures Covered(ts, ch)
  {
    hide Says, Fits, Compile, Compiled;
    PlainMatch(ts, [ch]);
    var i: nat :| i < |Alternatives(ts, 0)| && Begins(Alternatives(ts, 0)[i], [ch]);
  }

  lemma HarmlessAgrees(ts: seq<Token>, str: seq<int>)
    requires Harmless(ts) && IsText(str) && Intended(ts, str)
    ensures Agreeing(Tests(ts, 0), str)
  {
    hide Fits;
    var i: nat :| i < |Alternatives(ts, 0)| && Begins(Alternatives(ts, 0)[i], str);
    var a, tests := Alternatives(ts, 0)[i], Tests(ts, 0);
    forall k: nat | k < |a| ensures HasFit(a[k]) { assert IsChar(str[k]) && Fits(a[k], str[k]); }
    assert Satisfiable(a);
    forall k: nat | k < |tests| && k < |str| ensures Fits(tests[k], str[k]) {
      if k < |a| { assert Fits(a[k], str[k]); }
    }
  }

  lemma ReliableIsRight(ts: seq<Token>, str: seq<int>)
    requires Compiled(ts) && ts != [] && IsPlain(ts) && Compile(ts).Some? && Reliable(ts) && IsText(str)
    ensures Right(ts, str)
  {
    hide Says, Fits, Compile, Compiled, Harmless;
    PlainMatch(ts, str);
    var tests, alts := Tests(ts, 0), Alternatives(ts, 0);
    AlternativesInTests(ts, 0);
    HarmlessSome(ts);
    if Intended(ts, str) {
      HarmlessAgrees(ts, str);
    } else if str != [] && Agreeing(tests, str) {
      if |tests| >= 2 {
        assert Fits(tests[0], str[0]);
        CoveredIsIntended(ts, str);
      } else {
        FirstIsIntended(ts, str);
      }
      assert false;
    }
  }

  lemma HarmlessSome(ts: seq<Token>)
    requires Harmless(ts)
    ensures Tests(ts, 0) != []
  {
  }

  lemma CoveredIsIntended(ts: seq<Token>, str: seq<int>)
    requires str != [] && Covered(ts, str[0])
    ensures Intended(ts, str)
  {
    hide Fits;
    var i: nat :| i < |Alternatives(ts, 0)| && Begins(Alternatives(ts, 0)[i], [str[0]]) &&
        |Alternatives(ts, 0)[i]| == 1;
    assert Begins(Alternatives(ts, 0)[i], str);
  }

  // A plain pattern gets the intended answer on every text exactly when it is reliable.
  lemma {:induction false} RightOnAllTexts(ts: seq<Token>)
    requires Compiled(ts) && ts != [] && IsPlain(ts)
    ensures Compile(ts).Some?
    ensures (forall str | IsText(str) :: Right(ts, str)) <==> Reliable(ts)
  {
    hide Says, Fits, Compile, Compiled, Harmless, Covered, Intended;
    var none: seq<int> := [];
    PlainIsIntended(ts, none);
    if forall str | IsText(str) :: Right(ts, str) {
      RightMeansHarmless(ts);
      assert IsText(none) && Right(ts, none);
      assert forall i | 0 <= i < |Alternatives(ts, 0)| :: Alternatives(ts, 0)[i] != [];
      if |Tests(ts, 0)| >= 2 {
        forall ch | IsChar(ch) && Fits(Tests(ts, 0)[0], ch) ensures Covered(ts, ch) {
          assert Right(ts, [ch]);
          RightMeansCovered(ts, ch);
        }
      }
    }
    if Reliable(ts) {
      forall str: seq<int> | IsText(str) ensures Right(ts, str) { ReliableIsRight(ts, str); }
    }
  }

  // Without an alternation sign there is one alternative, the whole pattern.
  lemma {:induction false} NoSign(ts: seq<Token>, pos: nat)
    requires pos <= |ts| && forall i | pos <= i < |ts| :: ts[i] != Op(Alternate)
    ensures Alternatives(ts, pos) == [Tests(ts, pos)]
    decreases |ts| - pos
  {
    if pos < |ts| {
      NoSign(ts, pos + 1);
      var rest := Tests(ts, pos + 1);
      assert [rest][1..] == [] && [] + rest == rest;
    }
  }

  lemma NoSignHarmless(ts: seq<Token>)
    requires IsPlain(ts) && Tests(ts, 0) != [] && forall i | 0 <= i < |ts| :: ts[i] != Op(Alternate)
    ensures Harmless(ts)
  {
    hide Fits;
    NoSign(ts, 0);
  }

  // Without an alternation sign only a single test is right on every text, or tests of which the
  // first fits nothing.
  lemma {:induction false} NoSignRight(ts: seq<Token>)
    requires Compiled(ts) && ts != [] && IsPlain(ts) && forall i | 0 <= i < |ts| :: ts[i] != Op(Alternate)
    ensures Compile(ts).Some?
    ensures (forall str | IsText(str) :: Right(ts, str)) <==>
            |Tests(ts, 0)| == 1 || (Tests(ts, 0) != [] && !HasFit(Tests(ts, 0)[0]))
  {
    hide Says, Fits, Compile, Compiled, Harmless;
    RightOnAllTexts(ts);
    NoSign(ts, 0);
    var tests := Tests(ts, 0);
    if tests == [] {
      if Harmless(ts) { HarmlessSome(ts); }
    } else {
      NoSignHarmless(ts);
      assert |tests| >= 2 ==> forall ch :: !Covered(ts, ch);
    }
  }

  // ----- two texts that get the wrong answer -----

  lemma ShortCompiled(t: Token, sign: Token, u: Token)
    requires IsTest(t) && IsTest(u) && IsJoint(sign)
    ensures Compiled([t, sign, u])
  {
    hide Len, TestInstr, Codes, Code;
    var ts := [t, sign, u];
    PlainLists(ts);
    PlainEmits(ts, 0, 1, true);
    AlternationIsConcatenation(ts, 0, 1);
    ItemsCode(ts, 0, 1, true);
    ShortItems(t, sign, u);
    ShortCode(TestInstr(t), TestInstr(u));
    LenBound(EmitAll(ts).code);
  }

  lemma ShortItems(t: Token, sign: Token, u: Token)
    requires IsTest(t) && IsTest(u) && IsJoint(sign)
    ensures EmitConcatenation([t, sign, u], 0, 1, true).Emitted?
    ensures Items([t, sign, u], 0, 1, true) == [Test(TestInstr(t)), Rest([Test(TestInstr(u))])]
  {
    hide TestInstr, EmitQuantified, Quantified, IsTest, IsJoint, EmitConcatenation;
    var ts := [t, sign, u];
    PlainEmits(ts, 0, 1, true);
    PlainEmits(ts, 1, 1, false);
    PlainEmits(ts, 2, 1, true);
    PlainEmits(ts, 3, 1, false);
    PlainQuantified(ts, 0, 1);
    PlainQuantified(ts, 1, 1);
    PlainQuantified(ts, 2, 1);
    PlainItem(ts, 0, 1);
    PlainItem(ts, 1, 1);
    PlainItem(ts, 2, 1);
    assert Items(ts, 3, 1, false) == [];
    assert Items(ts, 2, 1, true) == [Test(TestInstr(u))];
    assert Items(ts, 1, 1, false) == [Rest([Test(TestInstr(u))])];
  }

  lemma ShortCode(i: Instr, j: Instr)
    ensures |Codes([Test(i), Rest([Test(j)])], true)| == 5
  {
    var y := Rest([Test(j)]);
    assert [Test(j)][1..] == [] && [y][1..] == [] && [Test(i), y][1..] == [y];
    assert Codes([Test(j)], true) == [j, IncPosEq];
    assert Code(y) == [j, IncPosEq];
    assert Codes([y], false) == [JumpNeq(JUMP_FAIL)] + Code(y) + [];
    assert Codes([Test(i), y], true) == [] + Code(Test(i)) + Codes([y], false);
  }

  // c|d on a text that begins with d is refused, although its second alternative matches.
  lemma AlternationRefuses(c: nat, d: nat, str: seq<int>)
    requires 0 < c < 256 && 0 < d < 256 && c != d && IsText(str) && str != [] && str[0] == d
    ensures var ts := [Single(c), Op(Alternate), Single(d)];
            Compiled(ts) && Compile(ts).Some? && Intended(ts, str) && Says(ts, str) == Stop(false)
  {
    hide Says, Compile, Compiled;
    var ts := [Single(c), Op(Alternate), Single(d)];
    ShortCompiled(Single(c), Op(Alternate), Single(d));
    PlainMatch(ts, str);
    assert Tests(ts, 2) == [Single(d)] && Tests(ts, 0)[0] == Single(c);
    assert Alternatives(ts, 2) == [[Single(d)]];
    assert Alternatives(ts, 1) == [[], [Single(d)]];
    assert Alternatives(ts, 0)[1] == [Single(d)] && Begins([Single(d)], str);
  }

  // cd on the text c is accepted, although the text is too short.
  lemma ShortTextAccepted(c: nat, d: nat)
    requires 0 < c < 256 && 0 < d < 256
    ensures var ts := [Single(c), Op(Concatenate), Single(d)];
            Compiled(ts) && Compile(ts).Some? && !Intended(ts, [c]) && Says(ts, [c]) == Stop(true)
  {
    hide Says, Compile, Compiled;
    var ts := [Single(c), Op(Concatenate), Single(d)];
    ShortCompiled(Single(c), Op(Concatenate), Single(d));
    PlainMatch(ts, [c]);
    NoSign(ts, 0);
    assert Tests(ts, 2) == [Single(d)] && Tests(ts, 1) == [Single(d)];
    assert Tests(ts, 0) == [Single(c), Single(d)];
  }
}
