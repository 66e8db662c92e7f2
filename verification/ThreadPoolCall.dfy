// What a caller of threadpool_wait can rely on, from the state of the pool at the call.
module ThreadPoolCall {
  import opened ThreadPool
  import opened ThreadPoolWait
  import opened Wrappers

  // ----- continuations in which no item is made -----

  ghost predicate Path(j: Joint, run: seq<Move>, j': Joint) {
    LegalMoves(j, run) && NothingMade(j, run) && AfterMoves(j, run) == j'
  }

  ghost predicate Leads(j: Joint, j': Joint) {
    exists run: seq<Move> :: Path(j, run, j')
  }

  lemma PathStep(j: Joint, run: seq<Move>, j': Joint, move: Move)
    requires Path(j, run, j') && CanMove(j', move) && !Makes(j'.pool, move)
    ensures Path(j, run + [move], Moved(j', move))
  {
    hide CanMove, Moved, Makes;
    Onward(j, run, move);
    QuietEnd(j, run, move);
  }

  lemma {:induction false} PathJoin(j: Joint, r: seq<Move>, j': Joint, r': seq<Move>, j'': Joint)
    requires Path(j, r, j') && Path(j', r', j'')
    ensures Path(j, r + r', j'')
    decreases |r'|
  {
    hide CanMove, Moved, Makes;
    if r' == [] {
      assert r + r' == r;
    } else {
      var n := |r'| - 1;
      PathJoin(j, r, j', r'[..n], AfterMoves(j', r'[..n]));
      PathStep(j, r + r'[..n], AfterMoves(j', r'[..n]), r'[n]);
      assert r + r' == r + r'[..n] + [r'[n]];
    }
  }

  lemma LeadsHere(j: Joint)
    ensures Leads(j, j)
  {
    assert Path(j, [], j);
  }

  lemma LeadsOn(j: Joint, j': Joint, j'': Joint)
    requires Leads(j, j') && Leads(j', j'')
    ensures Leads(j, j'')
  {
    hide Path;
    var r: seq<Move> :| Path(j, r, j');
    var r': seq<Move> :| Path(j', r', j'');
    PathJoin(j, r, j', r', j'');
  }

  lemma LeadsMove(j: Joint, move: Move)
    requires CanMove(j, move) && !Makes(j.pool, move)
    ensures Leads(j, Moved(j, move))
  {
    hide CanMove, Moved, Makes;
    assert Path(j, [], j);
    PathStep(j, [], j, move);
  }

  lemma LeadsKeepsInv(j: Joint, j': Joint)
    requires Leads(j, j') && Inv(j.pool)
    ensures Inv(j'.pool)
  {
    hide Inv;
    var r: seq<Move> :| Path(j, r, j');
    InvMoves(j, r);
  }

  ghost predicate Goes(t: State, t': State) {
    Leads(Joint(t, Loading), Joint(t', Loading))
  }

  lemma GoesOn(t: State, t': State, t'': State)
    requires Goes(t, t') && Goes(t', t'')
    ensures Goes(t, t'')
  {
    hide Leads;
    LeadsOn(Joint(t, Loading), Joint(t', Loading), Joint(t'', Loading));
  }

  lemma GoesStep(t: State, step: Step)
    requires Enabled(t, step) && !EffectOf(t, step).New?
    ensures Goes(t, Do(t, step))
  {
    hide Leads, Do;
    LeadsMove(Joint(t, Loading), Pool(step));
  }

  // ----- before a release -----

  predicate HasLeft(pc: WorkerPc) {
    pc.Leaving? || pc.Gone?
  }

  // Workers leave only after the stop.
  ghost predicate Staying(t: State) {
    !t.stop ==> forall i: nat | i < |t.workers| :: !HasLeft(t.workers[i])
  }

  lemma StayingStep(t: State, step: Step)
    requires Staying(t) && Enabled(t, step)
    ensures Staying(Do(t, step))
  {
    hide Victim;
  }

  lemma {:induction false} StayingMoves(j: Joint, run: seq<Move>)
    requires Staying(j.pool) && LegalMoves(j, run)
    ensures Staying(AfterMoves(j, run).pool)
    decreases |run|
  {
    hide Staying, Enabled, Do;
    if run != [] {
      StayingMoves(j, run[..|run| - 1]);
      var last := run[|run| - 1];
      if last.Pool? { StayingStep(AfterMoves(j, run[..|run| - 1]).pool, last.step); }
    }
  }

  ghost predicate Open(t: State) {
    Inv(t) && !t.stop && t.releaser.NotReleased? && OutsideIdle(t) &&
        forall i: nat | i < |t.workers| :: !HasLeft(t.workers[i])
  }

  // Only worker i, and what it does to the items, has changed.
  ghost predicate Kept(t: State, t': State, i: nat) {
    && t'.queues == t.queues && t'.outside == t.outside && t'.releaser == t.releaser && t'.stop == t.stop
    && |t'.workers| == |t.workers| && forall k: nat | k < |t.workers| && k != i :: t'.workers[k] == t.workers[k]
  }

  lemma OpenKept(t: State, t': State, i: nat)
    requires Open(t) && Goes(t, t') && Kept(t, t', i) && i < |t.workers| && !HasLeft(t'.workers[i])
    ensures Open(t')
  {
    hide Inv, Leads;
    LeadsKeepsInv(Joint(t, Loading), Joint(t', Loading));
  }

  // ----- one worker comes to its queue -----

  predicate Between(act: WorkerAct) {
    act.Start? || act.Check? || act.PopMiss? || act.StealMiss? || act.Begin? || act.Return? || act.Finish?
  }

  lemma WorkerGoes(t: State, i: nat, act: WorkerAct) returns (t': State)
    requires WorkerCan(t, i, act) && Between(act)
    ensures Goes(t, t') && Kept(t, t', i) && t'.workers[i] == WorkerNext(t, i, act)
    ensures t'.live <= t.live && (!act.Finish? ==> t'.live == t.live)
  {
    hide Victim;
    var step := ByWorker(i, act);
    assert Enabled(t, step) && !EffectOf(t, step).New?;
    t' := Do(t, step);
    GoesStep(t, step);
  }

  function Rank(pc: WorkerPc, count: nat): nat {
    match pc
    case Popping => 0
    case Checking => 1
    case Stealing(i) => if i < count then 2 + count - i else 2
    case Running(_, _) => 3
    case Holding(_) => 4
    case _ => 2
  }

  // A worker that is not making an item can come to the point where it looks at its own queue.
  lemma {:induction false} ComesToQueue(t: State, i: nat) returns (t': State)
    requires Open(t) && i < |t.workers| && (t.workers[i].Running? ==> t.workers[i].made.None?)
    ensures Open(t') && Goes(t, t') && Kept(t, t', i) && t'.workers[i] == Popping
    decreases if t.workers[i].Running? || t.workers[i].Holding? then 1 else 0, Rank(t.workers[i], |t.workers|)
  {
    hide Inv, Goes;
    var pc := t.workers[i];
    if pc.Popping? {
      t' := t;
      GoesNowhere(t);
    } else {
      var act := if pc.Starting? then Start else if pc.Checking? then Check else if pc.Stealing? then StealMiss
                 else if pc.Holding? then Begin else if pc.Running? then Return else Finish;
      assert WorkerCan(t, i, act);
      var u := WorkerGoes(t, i, act);
      OpenKept(t, u, i);
      t' := ComesToQueue(u, i);
      GoesOn(t, u, t');
    }
  }

  lemma GoesNowhere(t: State)
    ensures Goes(t, t)
  {
    LeadsHere(Joint(t, Loading));
  }

  // ----- nobody busy, queues empty, something live -----

  ghost predicate NobodyBusy(t: State, k: nat) {
    forall i: nat | i < k && i < |t.workers| :: !t.workers[i].Running?
  }

  lemma EnqueueGoes(t: State, i: nat) returns (t': State)
    requires Open(t) && WorkerCan(t, i, Enqueue)
    ensures Open(t') && Goes(t, t') && t'.live == t.live && |t'.workers| == |t.workers|
    ensures t'.workers == t.workers[i := Running(t.workers[i].work, None)]
  {
    hide Victim, Inv, Goes;
    var step := ByWorker(i, Enqueue);
    OwnQueue(t, i);
    assert Enabled(t, step) && !EffectOf(t, step).New?;
    t' := Do(t, step);
    GoesStep(t, step);
    InvStep(t, step);
  }

  lemma OwnQueue(t: State, i: nat)
    requires Inv(t) && i < |t.workers|
    ensures i < |t.queues|
  {
  }

  // The running items come to their ends.
  lemma {:induction false} AllReturn(t: State, k: nat) returns (t': State)
    requires Open(t) && NobodyBusy(t, k) && k <= |t.workers|
    ensures Open(t') && Goes(t, t') && t'.live == t.live && NobodyBusy(t', |t'.workers|)
    decreases |t.workers| - k
  {
    hide Inv, Goes;
    if k == |t.workers| {
      t' := t;
      GoesNowhere(t);
    } else {
      var u := t;
      GoesNowhere(t);
      if t.workers[k].Running? && t.workers[k].made.Some? { u := EnqueueGoes(t, k); }
      var v := u;
      if u.workers[k].Running? {
        v := WorkerGoes(u, k, Return);
        OpenKept(u, v, k);
        GoesOn(t, u, v);
      }
      t' := AllReturn(v, k + 1);
      GoesOn(t, v, t');
    }
  }

  function Total(qs: seq<seq<WorkId>>): nat {
    if qs == [] then 0 else Total(qs[..|qs| - 1]) + |qs[|qs| - 1]|
  }

  lemma {:induction false} TotalUpdate(qs: seq<seq<WorkId>>, q: nat, c: seq<WorkId>)
    requires q < |qs|
    ensures Total(qs[q := c]) == Total(qs) - |qs[q]| + |c|
  {
    var n := |qs| - 1;
    if q == n {
      assert qs[q := c][..n] == qs[..n];
    } else {
      TotalUpdate(qs[..n], q, c);
      assert qs[q := c][..n] == qs[..n][q := c];
    }
  }

  // A worker takes the first item of its own queue.
  lemma PopGoes(t: State, q: nat) returns (t': State)
    requires Open(t) && q < |t.workers| && t.workers[q] == Popping && q < |t.queues| && t.queues[q] != []
    requires NobodyBusy(t, |t.workers|)
    ensures Open(t') && Goes(t, t') && NobodyBusy(t', |t'.workers|) && t'.live != {} &&
            Total(t'.queues) < Total(t.queues)
  {
    hide Victim, Inv, Goes;
    var step := ByWorker(q, ThreadPool.Pop(0));
    assert Enabled(t, step) && !EffectOf(t, step).New?;
    t' := Do(t, step);
    GoesStep(t, step);
    InvStep(t, step);
    TotalUpdate(t.queues, q, RemoveAt(t.queues[q], 0));
    assert t'.workers[q].Holding?;
    HeldIsLive(t', q);
  }

  lemma HeldIsLive(t: State, i: nat)
    requires Inv(t) && i < |t.workers| && t.workers[i].Holding?
    ensures t.workers[i].work in t.live
  {
    hide Shape, Accounts, Begun, Headcount;
    Shares(t, t.workers[i].work, i, 0, 0);
  }

  // The queues are emptied, and the last item taken is still in a worker's hands.
  lemma {:induction false} QueuesDrain(t: State) returns (t': State)
    requires Open(t) && NobodyBusy(t, |t.workers|) && t.live != {}
    ensures Open(t') && Goes(t, t') && NobodyBusy(t', |t'.workers|) && t'.live != {} && QueuesEmpty(t')
    decreases Total(t.queues)
  {
    hide Inv, Goes;
    if QueuesEmpty(t) {
      t' := t;
      GoesNowhere(t);
    } else {
      var q: nat :| q < |t.queues| && t.queues[q] != [];
      SameCount(t);
      var u := ComesToQueue(t, q);
      var v := PopGoes(u, q);
      GoesOn(t, u, v);
      t' := QueuesDrain(v);
      GoesOn(t, v, t');
    }
  }

  lemma SameCount(t: State)
    requires Inv(t)
    ensures |t.queues| == |t.workers| > 0
  {
  }

  // ----- the scan -----

  lemma {:induction false} LooksThrough(j: Joint)
    requires j.pc.Looking? && j.pc.q < |j.pool.queues| && QueuesEmpty(j.pool)
    ensures Leads(j, j.(pc := Returned))
    decreases |j.pool.queues| - j.pc.q
  {
    hide Leads;
    LeadsMove(j, Look);
    if j.pc.q + 1 < |j.pool.queues| {
      LooksThrough(Moved(j, Look));
      LeadsOn(j, Moved(j, Look), j.(pc := Returned));
    }
  }

  lemma NobodyCounted(t: State)
    requires Inv(t) && NobodyBusy(t, |t.workers|)
    ensures t.working == 0
  {
    hide Shape, Accounts, Begun, OneRef;
    SumZero(Busy(t.workers));
  }

  lemma ScanReturns(t: State)
    requires Open(t) && NobodyBusy(t, |t.workers|) && QueuesEmpty(t)
    ensures Leads(Joint(t, Loading), Joint(t, Returned))
  {
    hide Leads, Inv, QueuesEmpty;
    NobodyCounted(t);
    SameCount(t);
    LeadsMove(Joint(t, Loading), Load);
    LooksThrough(Joint(t, Looking(0)));
    LeadsOn(Joint(t, Loading), Joint(t, Looking(0)), Joint(t, Returned));
  }

  // ----- what the call is worth -----

  // The wait called in j can return with an item live, although no item is made from the call on.
  ghost predicate MayFail(j: Joint) {
    exists j': Joint :: Leads(j, j') && j'.pc.Returned? && j'.pool.live != {}
  }

  lemma OpenMayFail(t: State)
    requires Open(t) && t.live != {}
    ensures MayFail(Joint(t, Loading))
  {
    hide Leads, Inv;
    var u := AllReturn(t, 0);
    var v := QueuesDrain(u);
    GoesOn(t, u, v);
    ScanReturns(v);
    LeadsOn(Joint(t, Loading), Joint(v, Loading), Joint(v, Returned));
  }

  lemma {:induction false} NothingAppears(j: Joint, run: seq<Move>)
    requires LegalMoves(j, run) && NothingMade(j, run) && j.pool.live == {}
    ensures AfterMoves(j, run).pool.live == {}
    decreases |run|
  {
    hide Enabled, EffectOf, Do, Affect;
    if run != [] {
      var n := |run| - 1;
      NothingAppears(j, run[..n]);
      var last := run[n];
      if last.Pool? { LiveAfter(AfterMoves(j, run[..n]).pool, last.step); }
    }
  }

  lemma LiveAfter(t: State, step: Step)
    requires Enabled(t, step) && !EffectOf(t, step).New?
    ensures Do(t, step).live <= t.live
  {
    hide EffectOf, Affect, WorkerNext, OutsideNext, ReleaseNext;
    ItemsAfter(t, step);
    LiveAffected(t, EffectOf(t, step));
  }

  lemma LiveAffected(t: State, e: Effect)
    requires Possible(t, e) && !e.New?
    ensures Affect(t, e).live <= t.live
  {
  }

  // In any reachable state before a release with nobody outside submitting, and even if no item is
  // made from then on, a wait called now can return too early exactly if any item is live now.
  lemma {:induction false} CallMayFail(s: State, run: seq<Move>)
    requires Init(s) && LegalMoves(Joint(s, Loading), run)
    requires var j := AfterMoves(Joint(s, Loading), run);
             j.pc.Loading? && j.pool.releaser.NotReleased? && OutsideIdle(j.pool)
    ensures var j := AfterMoves(Joint(s, Loading), run); MayFail(j) <==> j.pool.live != {}
  {
    hide Init, Inv, LegalMoves, AfterMoves, MayFail, Staying;
    var j := AfterMoves(Joint(s, Loading), run);
    InvInit(s);
    InvMoves(Joint(s, Loading), run);
    StayingInit(s);
    StayingMoves(Joint(s, Loading), run);
    if j.pool.live != {} {
      OpenReached(j.pool);
      OpenMayFail(j.pool);
    } else {
      CannotFail(j);
    }
  }

  lemma StayingInit(s: State)
    requires Init(s)
    ensures Staying(s)
  {
  }

  lemma OpenReached(t: State)
    requires Inv(t) && Staying(t) && t.releaser.NotReleased? && OutsideIdle(t)
    ensures Open(t)
  {
  }

  lemma CannotFail(j: Joint)
    requires j.pool.live == {}
    ensures !MayFail(j)
  {
    if j': Joint :| Leads(j, j') && j'.pc.Returned? && j'.pool.live != {} {
      var r: seq<Move> :| Path(j, r, j');
      NothingAppears(j, r);
      assert false;
    }
  }
}
