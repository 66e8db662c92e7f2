// The passes of a worker of src/thread.c that finds nothing, over runs in which any other thread may
// move in between: which queues it tries, how often, and that no item is out of its reach.
module ThreadPoolSteal {
  import opened ThreadPool
  import opened Wrappers

  predicate Own(step: Step, i: nat) {
    step.ByWorker? && step.i == i
  }

  // All that worker i does in the run is to find queues empty.
  ghost predicate OnlyMisses(run: seq<Step>, i: nat) {
    forall p: nat | p < |run| && Own(run[p], i) :: run[p].act.PopMiss? || run[p].act.StealMiss?
  }

  // How many of the steps are those of worker i.
  function OwnSteps(run: seq<Step>, i: nat): (m: nat)
    ensures m <= |run|
  {
    if run == [] then 0 else OwnSteps(run[..|run| - 1], i) + if Own(run[|run| - 1], i) then 1 else 0
  }

  // Worker i may next dequeue from q.
  ghost predicate Tries(t: State, i: nat, q: nat) {
    exists act: WorkerAct, k: nat :: Dequeues(t, i, act, q, k)
  }

  ghost predicate Dequeues(t: State, i: nat, act: WorkerAct, q: nat, k: nat) {
    Can(t, ByWorker(i, act)) && EffectOf(t, ByWorker(i, act)) == Take(q, k)
  }

  // The m-th queue from i on, in a circle of count.
  function Around(i: nat, m: nat, count: nat): nat {
    if i + m < count then i + m else i + m - count
  }

  // Worker i has missed m times since it began its pass.
  predicate InPass(t: State, i: nat, m: nat) {
    i < |t.workers| == |t.queues| && m < |t.workers| &&
    t.workers[i] == if m == 0 then Popping else Stealing(m)
  }

  lemma TriesIs(t: State, i: nat, m: nat, q: nat)
    requires InPass(t, i, m)
    ensures Tries(t, i, q) <==> q == Around(i, m, |t.workers|)
  {
    hide Victim;
    VictimAt(i, m, |t.workers|);
    if q == Around(i, m, |t.workers|) {
      assert Dequeues(t, i, if m == 0 then Pop(0) else Steal(0), q, 0);
    }
  }

  lemma NoTries(t: State, i: nat, q: nat)
    requires i < |t.workers| && t.workers[i].Checking?
    ensures !Tries(t, i, q)
  {
  }

  // ----- one step -----

  lemma SizesKept(t: State, step: Step)
    requires Enabled(t, step)
    ensures |Affect(t, EffectOf(t, step)).queues| == |t.queues|
  {
    hide Counted, RemoveAt, EffectOf;
  }

  lemma OthersKeep(t: State, step: Step, i: nat)
    requires Enabled(t, step) && i < |t.workers|
    ensures |Do(t, step).workers| == |t.workers| && |Do(t, step).queues| == |t.queues|
    ensures !Own(step, i) ==> Do(t, step).workers[i] == t.workers[i]
  {
    SizesKept(t, step);
    Untouched(t, step);
    hide WorkerNext, OutsideNext, ReleaseNext, Affect, EffectOf, Possible;
  }

  lemma Untouched(t: State, step: Step)
    requires Enabled(t, step)
    ensures Affect(t, EffectOf(t, step)).workers == t.workers
  {
    hide Counted, RemoveAt, EffectOf;
  }

  lemma MissStep(t: State, step: Step, i: nat, m: nat)
    requires InPass(t, i, m) && Enabled(t, step) && Own(step, i) && (step.act.PopMiss? || step.act.StealMiss?)
    ensures if m + 1 < |t.workers| then InPass(Do(t, step), i, m + 1) else Do(t, step).workers[i].Checking?
  {
  }

  lemma NoMissLeft(t: State, step: Step, i: nat)
    requires i < |t.workers| && t.workers[i].Checking? && Enabled(t, step) && Own(step, i)
    ensures !step.act.PopMiss? && !step.act.StealMiss?
  {
  }

  // ----- the pass -----

  // After m misses, whatever the other threads did, the worker tries exactly the m-th queue from its
  // own on; after as many as there are workers it tries none and is back where it loads the stop flag.
  lemma {:induction false} Pass(s: State, run: seq<Step>, i: nat)
    requires i < |s.workers| == |s.queues| && s.workers[i].Popping?
    requires Legal(s, run) && OnlyMisses(run, i)
    ensures var t, m, n := After(s, run), OwnSteps(run, i), |s.workers|;
            && |t.workers| == |t.queues| == n && m <= n
            && (m < n ==> InPass(t, i, m) && forall q: nat :: Tries(t, i, q) <==> q == Around(i, m, n))
            && (m == n ==> t.workers[i].Checking? && forall q: nat :: !Tries(t, i, q))
    decreases |run|
  {
    hide Enabled, Do, Tries;
    if run != [] {
      var pre, step := run[..|run| - 1], run[|run| - 1];
      Pass(s, pre, i);
      var t, m := After(s, pre), OwnSteps(pre, i);
      OthersKeep(t, step, i);
      if Own(step, i) {
        if m == |s.workers| { NoMissLeft(t, step, i); }
        MissStep(t, step, i, m);
      }
    }
    var t, m := After(s, run), OwnSteps(run, i);
    forall q: nat ensures Tries(t, i, q) <==> m < |s.workers| && q == Around(i, m, |s.workers|) {
      if m < |s.workers| { TriesIs(t, i, m, q); } else { NoTries(t, i, q); }
    }
  }

  // ----- every queue once -----

  lemma {:induction false} LegalPrefix(s: State, run: seq<Step>, p: nat)
    requires Legal(s, run) && p <= |run|
    ensures Legal(s, run[..p])
    decreases |run|
  {
    hide Enabled, Do;
    if p == |run| {
      assert run[..p] == run;
    } else {
      LegalPrefix(s, run[..|run| - 1], p);
      assert run[..|run| - 1][..p] == run[..p];
    }
  }

  // At step p of the run worker i tries queue q and misses.
  ghost predicate Visits(s: State, run: seq<Step>, i: nat, q: nat, p: nat)
    requires Legal(s, run)
  {
    p < |run| && Own(run[p], i) && Legal(s, run[..p]) && Tries(After(s, run[..p]), i, q)
  }

  lemma OneMore(run: seq<Step>, i: nat, p: nat)
    requires p < |run|
    ensures OwnSteps(run[..p + 1], i) == OwnSteps(run[..p], i) + if Own(run[p], i) then 1 else 0
  {
    assert run[..p + 1][..p] == run[..p];
  }

  // The step that is number m of those of worker i.
  lemma {:induction false} StepNumber(run: seq<Step>, i: nat, m: nat) returns (p: nat)
    requires m < OwnSteps(run, i)
    ensures p < |run| && Own(run[p], i) && OwnSteps(run[..p], i) == m
    decreases |run|
  {
    var last := |run| - 1;
    if m < OwnSteps(run[..last], i) {
      p := StepNumber(run[..last], i, m);
      assert run[..last][..p] == run[..p];
    } else {
      p := last;
    }
  }

  lemma {:induction false} StepsGrow(run: seq<Step>, i: nat, p: nat, r: nat)
    requires p < r <= |run| && Own(run[p], i)
    ensures OwnSteps(run[..p], i) < OwnSteps(run[..r], i)
    decreases r
  {
    hide OwnSteps;
    OneMore(run, i, r - 1);
    if p + 1 < r { StepsGrow(run, i, p, r - 1); }
  }

  lemma VisitIs(s: State, run: seq<Step>, i: nat, q: nat, p: nat)
    requires i < |s.workers| == |s.queues| && s.workers[i].Popping?
    requires Legal(s, run) && OnlyMisses(run, i) && p < |run| && Own(run[p], i)
    ensures OwnSteps(run[..p], i) < |s.workers|
    ensures Visits(s, run, i, q, p) <==> q == Around(i, OwnSteps(run[..p], i), |s.workers|)
  {
    hide Legal, Tries, OwnSteps, Own;
    LegalPrefix(s, run, p);
    LegalPrefix(s, run, p + 1);
    MissesPrefix(run, i, p);
    MissesPrefix(run, i, p + 1);
    Pass(s, run[..p], i);
    Pass(s, run[..p + 1], i);
    OneMore(run, i, p);
  }

  lemma MissesPrefix(run: seq<Step>, i: nat, p: nat)
    requires OnlyMisses(run, i) && p <= |run|
    ensures OnlyMisses(run[..p], i)
  {
    forall k: nat | k < p && Own(run[..p][k], i) ensures run[..p][k].act.PopMiss? || run[..p][k].act.StealMiss? {
      assert run[..p][k] == run[k];
    }
  }

  // A worker that comes back empty-handed has tried every queue of the pool exactly once: its own
  // first, then each of the others, in one attempt less than there are workers.
  lemma EachOnce(s: State, run: seq<Step>, i: nat, q: nat) returns (p: nat)
    requires i < |s.workers| == |s.queues| && s.workers[i].Popping?
    requires Legal(s, run) && OnlyMisses(run, i)
    requires i < |After(s, run).workers| && After(s, run).workers[i].Checking?
    ensures OwnSteps(run, i) == |s.workers|
    ensures q < |s.workers| ==> Visits(s, run, i, q, p) && (OwnSteps(run[..p], i) == 0 <==> q == i)
    ensures forall r: nat | Visits(s, run, i, q, r) :: q < |s.workers| && r == p
  {
    hide Legal, Tries, OwnSteps;
    Pass(s, run, i);
    p := 0;
    var n := |s.workers|;
    if q < n {
      var m := if q >= i then q - i else q + n - i;
      p := StepNumber(run, i, m);
      VisitIs(s, run, i, q, p);
    }
    forall r: nat | Visits(s, run, i, q, r) ensures q < n && r == p {
      VisitIs(s, run, i, q, r);
      if p < r { StepsGrow(run, i, p, r); }
      if r < p { StepsGrow(run, i, r, p); }
    }
  }

  // ----- every item within reach -----

  // What a worker tries it can take, any item of it.
  lemma TakesWhatItTries(t: State, i: nat, m: nat, x: WorkId) returns (step: Step)
    requires InPass(t, i, m) && x in t.queues[Around(i, m, |t.workers|)]
    ensures Own(step, i) && Enabled(t, step)
    ensures var u, q := Do(t, step), Around(i, m, |t.workers|);
            && u.workers == t.workers[i := Holding(x)]
            && |u.queues| == |t.queues| && multiset(u.queues[q]) + multiset{x} == multiset(t.queues[q])
            && forall r: nat | r < |t.queues| && r != q :: u.queues[r] == t.queues[r]
  {
    hide Victim;
    var q := Around(i, m, |t.workers|);
    VictimAt(i, m, |t.workers|);
    var k: nat :| k < |t.queues[q]| && t.queues[q][k] == x;
    step := ByWorker(i, if m == 0 then Pop(k) else Steal(k));
    assert EffectOf(t, step) == Take(q, k);
  }

  lemma MissNow(t: State, i: nat, m: nat) returns (step: Step)
    requires InPass(t, i, m) && m + 1 < |t.workers|
    ensures Own(step, i) && (step.act.PopMiss? || step.act.StealMiss?) && Enabled(t, step)
    ensures InPass(Do(t, step), i, m + 1) && Do(t, step).queues == t.queues
  {
    step := ByWorker(i, if m == 0 then PopMiss else StealMiss);
  }

  // The rest of a pass up to the d-th queue, the other threads standing still.
  lemma {:induction false} GoOn(s: State, i: nat, m: nat, d: nat) returns (run: seq<Step>)
    requires InPass(s, i, m) && m <= d < |s.workers|
    ensures Legal(s, run) && OnlyMisses(run, i) && OwnSteps(run, i) == |run| == d - m
    ensures InPass(After(s, run), i, d) && After(s, run).queues == s.queues
    decreases d
  {
    if d == m {
      run := [];
    } else {
      var pre := GoOn(s, i, m, d - 1);
      hide Legal, Do, Enabled;
      var step := MissNow(After(s, pre), i, d - 1);
      Extend(s, pre, step);
      run := pre + [step];
      assert run[..|run| - 1] == pre;
      OthersKeep(After(s, pre), step, i);
    }
  }

  // From any point of a pass, an item in a queue not yet tried is taken by some continuation of the
  // pass: as many misses as there are queues before it, and then the item.
  lemma Reaches(s: State, run: seq<Step>, i: nat, q: nat, x: WorkId) returns (rest: seq<Step>)
    requires i < |s.workers| == |s.queues| && s.workers[i].Popping? && Legal(s, run) && OnlyMisses(run, i)
    requires q < |After(s, run).queues| && x in After(s, run).queues[q]
    requires forall p: nat :: !Visits(s, run, i, q, p)
    ensures Legal(After(s, run), rest) && rest != [] && OnlyMisses(rest[..|rest| - 1], i)
    ensures OwnSteps(rest, i) == |rest| && OwnSteps(run, i) + |rest| <= |s.workers|
    ensures var t, u := After(s, run), After(After(s, run), rest);
            |u.workers| == |s.workers| && |u.queues| == |t.queues| && u.workers[i] == Holding(x) &&
            multiset(u.queues[q]) + multiset{x} == multiset(t.queues[q]) &&
            forall r: nat | r < |t.queues| && r != q :: u.queues[r] == t.queues[r]
  {
    hide Legal, Tries, Do, Enabled;
    Pass(s, run, i);
    var t, n := After(s, run), |s.workers|;
    var m, d := OwnSteps(run, i), if q >= i then q - i else q + n - i;
    if d < m {
      var p := StepNumber(run, i, d);
      VisitIs(s, run, i, q, p);
      assert false;
    }
    var pre := GoOn(t, i, m, d);
    var step := TakesWhatItTries(After(t, pre), i, d, x);
    Extend(t, pre, step);
    rest := pre + [step];
    assert rest[..|rest| - 1] == pre;
  }
}
