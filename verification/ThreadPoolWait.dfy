// threadpool_wait of src/thread.c beside the running pool: the waiting thread loads the count of busy
// workers, then looks at the queues one by one, each in a step of its own.
module ThreadPoolWait {
  import opened ThreadPool
  import opened Wrappers

  // Where the waiting thread is: about to load the count, about to look at queue q, or back.
  datatype WaitPc = Loading | Looking(q: nat) | Returned

  datatype Joint = Joint(pool: State, pc: WaitPc)

  datatype Move = Pool(step: Step) | Load | Look

  predicate CanMove(j: Joint, move: Move) {
    match move
    case Pool(step) => Enabled(j.pool, step)
    case Load => j.pc.Loading?
    case Look => j.pc.Looking? && j.pc.q < |j.pool.queues|
  }

  // A busy worker or a queue that is not empty sends the waiting thread back to the load.
  function Moved(j: Joint, move: Move): Joint
    requires CanMove(j, move)
  {
    match move
    case Pool(step) => j.(pool := Do(j.pool, step))
    case Load => if j.pool.working == 0 then j.(pc := Looking(0)) else j
    case Look =>
      if j.pool.queues[j.pc.q] != [] then j.(pc := Loading)
      else if j.pc.q + 1 < |j.pool.queues| then j.(pc := Looking(j.pc.q + 1))
      else j.(pc := Returned)
  }

  predicate LegalMoves(j: Joint, run: seq<Move>)
    decreases |run|, 0
  {
    run == [] || (LegalMoves(j, run[..|run| - 1]) && CanMove(AfterMoves(j, run[..|run| - 1]), run[|run| - 1]))
  }

  function AfterMoves(j: Joint, run: seq<Move>): Joint
    requires LegalMoves(j, run)
    decreases |run|, 1
  {
    if run == [] then j else Moved(AfterMoves(j, run[..|run| - 1]), run[|run| - 1])
  }

  lemma {:induction false} InvMoves(j: Joint, run: seq<Move>)
    requires Inv(j.pool) && LegalMoves(j, run)
    ensures Inv(AfterMoves(j, run).pool)
    decreases |run|
  {
    hide Inv, Enabled, Do;
    if run != [] {
      InvMoves(j, run[..|run| - 1]);
      var last := run[|run| - 1];
      if last.Pool? { InvStep(AfterMoves(j, run[..|run| - 1]).pool, last.step); }
    }
  }

  // ----- the last scan -----

  // A scan: the moves after a load that found nobody busy, without another load.
  ghost predicate IsScan(j: Joint, scan: seq<Move>) {
    && j.pc == Looking(0) && j.pool.working == 0
    && LegalMoves(j, scan)
    && forall k: nat | k < |scan| :: !scan[k].Load?
  }

  // A thread that has returned did so at the end of a scan.
  lemma {:induction false} ReturnHasScan(j: Joint, run: seq<Move>) returns (pre: seq<Move>, scan: seq<Move>)
    requires LegalMoves(j, run) && j.pc.Loading? && !AfterMoves(j, run).pc.Loading?
    ensures run == pre + [Load] + scan && LegalMoves(j, pre) && AfterMoves(j, pre).pc.Loading?
    ensures IsScan(Moved(AfterMoves(j, pre), Load), scan)
    ensures AfterMoves(Moved(AfterMoves(j, pre), Load), scan) == AfterMoves(j, run)
    decreases |run|
  {
    hide Enabled, Do;
    var n := |run| - 1;
    var before, last := AfterMoves(j, run[..n]), run[n];
    if before.pc.Loading? && last.Load? {
      pre, scan := run[..n], [];
    } else {
      pre, scan := ReturnHasScan(j, run[..n]);
      Onward(Moved(AfterMoves(j, pre), Load), scan, last);
      scan := scan + [last];
    }
  }

  lemma Onward(j: Joint, run: seq<Move>, move: Move)
    requires LegalMoves(j, run) && CanMove(AfterMoves(j, run), move)
    ensures LegalMoves(j, run + [move]) && AfterMoves(j, run + [move]) == Moved(AfterMoves(j, run), move)
  {
    hide CanMove, Moved;
    assert (run + [move])[..|run|] == run;
  }

  // ----- what a return means -----

  predicate HasItem(pc: WorkerPc) {
    pc.Holding? || pc.Running? || pc.Finishing?
  }

  ghost predicate NobodyHasItem(t: State) {
    (forall i: nat | i < |t.workers| :: !HasItem(t.workers[i])) && !t.releaser.Dropping?
  }

  ghost predicate QueuesEmpty(t: State) {
    forall q: nat | q < |t.queues| :: t.queues[q] == []
  }

  // Nothing is live exactly when no thread has an item and no queue holds one.
  lemma NothingLive(t: State)
    requires Inv(t)
    ensures t.live == {} <==> NobodyHasItem(t) && OutsideIdle(t) && QueuesEmpty(t)
  {
    hide Shape, Accounts, Begun, Headcount;
    if t.live == {} {
      forall i: nat | i < |t.workers| ensures !HasItem(t.workers[i]) {
        if HasItem(t.workers[i]) { Shares(t, t.workers[i].work, i, 0, 0); }
      }
      forall o: nat | o < |t.outside| ensures t.outside[o].Idle? {
        if !t.outside[o].Idle? { Shares(t, t.outside[o].work, 0, 0, o); }
      }
      if t.releaser.Dropping? { Shares(t, t.releaser.work, 0, 0, 0); }
      forall q: nat | q < |t.queues| ensures t.queues[q] == [] {
        if t.queues[q] != [] { Shares(t, t.queues[q][0], 0, q, 0); }
      }
    } else if NobodyHasItem(t) && OutsideIdle(t) && QueuesEmpty(t) {
      var x :| x in t.live;
      SumZero(InWorkers(t.workers, x));
      SumZero(InQueues(t.queues, x));
      SumZero(InOutsides(t.outside, x));
      assert false;
    }
  }

  // No item is made in the course of the moves.
  ghost predicate NothingMade(j: Joint, run: seq<Move>)
    requires LegalMoves(j, run)
    decreases |run|
  {
    run == [] ||
    (NothingMade(j, run[..|run| - 1]) && !Makes(AfterMoves(j, run[..|run| - 1]).pool, run[|run| - 1]))
  }

  ghost predicate Makes(t: State, move: Move)
    requires move.Pool? ==> Enabled(t, move.step)
  {
    move.Pool? && EffectOf(t, move.step).New?
  }

  ghost predicate NothingTaken(j: Joint, run: seq<Move>)
    requires LegalMoves(j, run)
    decreases |run|
  {
    run == [] ||
    (NothingTaken(j, run[..|run| - 1]) && !Takes(AfterMoves(j, run[..|run| - 1]).pool, run[|run| - 1]))
  }

  ghost predicate Takes(t: State, move: Move)
    requires move.Pool? ==> Enabled(t, move.step)
  {
    move.Pool? && EffectOf(t, move.step).Take?
  }

  // No thread has an item that it could still put into a queue.
  ghost predicate NoneToQueue(t: State) {
    OutsideIdle(t) && forall i: nat | i < |t.workers| && t.workers[i].Running? :: t.workers[i].made.None?
  }

  // The queues already seen are empty and stay so.
  ghost predicate SeenEmpty(j: Joint) {
    && (j.pc.Looking? ==> forall q: nat | q < j.pc.q && q < |j.pool.queues| :: j.pool.queues[q] == [])
    && (j.pc.Returned? ==> QueuesEmpty(j.pool))
  }

  lemma QuietMove(j: Joint, move: Move)
    requires CanMove(j, move) && !move.Load? && !Makes(j.pool, move) && NoneToQueue(j.pool) && SeenEmpty(j)
    ensures NoneToQueue(Moved(j, move).pool) && SeenEmpty(Moved(j, move))
  {
    hide Victim;
    match move
    case Pool(step) => QuietStep(j.pool, step);
    case Look =>
  }

  lemma QuietStep(t: State, step: Step)
    requires Enabled(t, step) && !EffectOf(t, step).New? && NoneToQueue(t)
    ensures NoneToQueue(Do(t, step)) && |Do(t, step).queues| == |t.queues|
    ensures forall q: nat | q < |t.queues| && t.queues[q] == [] :: Do(t, step).queues[q] == []
  {
    hide Victim;
  }

  lemma {:induction false} QuietMoves(j: Joint, scan: seq<Move>)
    requires IsScan(j, scan) && NothingMade(j, scan) && NoneToQueue(j.pool)
    ensures NoneToQueue(AfterMoves(j, scan).pool) && SeenEmpty(AfterMoves(j, scan))
    decreases |scan|
  {
    hide Enabled, Do, NoneToQueue, Makes;
    if scan != [] {
      var n := |scan| - 1;
      QuietMoves(j, scan[..n]);
      QuietMove(AfterMoves(j, scan[..n]), scan[n]);
    }
  }

  // At the load nobody is counted busy, so nobody is in the middle of a submission from inside.
  lemma NobodyRunning(t: State)
    requires Inv(t) && t.working == 0
    ensures forall i: nat | i < |t.workers| :: !t.workers[i].Running?
  {
    hide Shape, Accounts, Begun, OneRef;
    forall i: nat | i < |t.workers| ensures !t.workers[i].Running? {
      SumAtLeast(Busy(t.workers), i);
    }
  }

  // What a return of threadpool_wait says about any run of a pool: when nobody outside was
  // submitting at the load of the last scan and no item was made during that scan, the wait is
  // right exactly if no worker and no release has an item in hand at the return.
  lemma {:induction false} WaitIsRight(s: State, pre: seq<Move>, scan: seq<Move>)
    requires Init(s) && LegalMoves(Joint(s, Loading), pre)
    requires AfterMoves(Joint(s, Loading), pre).pc.Loading?
    requires var j := Moved(AfterMoves(Joint(s, Loading), pre), Load);
             IsScan(j, scan) && OutsideIdle(j.pool) && NothingMade(j, scan) && AfterMoves(j, scan).pc.Returned?
    ensures var t := AfterMoves(Moved(AfterMoves(Joint(s, Loading), pre), Load), scan).pool;
            t.live == {} <==> NobodyHasItem(t)
  {
    hide Init, Inv, Enabled, Do, LegalMoves, AfterMoves, Makes;
    InvInit(s);
    InvMoves(Joint(s, Loading), pre);
    var j := Moved(AfterMoves(Joint(s, Loading), pre), Load);
    NobodyRunning(j.pool);
    QuietMoves(j, scan);
    InvMoves(j, scan);
    NothingLive(AfterMoves(j, scan).pool);
  }

  // ----- a condition that can be seen from the steps alone -----

  lemma IdleMove(t: State, step: Step)
    requires Enabled(t, step) && !EffectOf(t, step).New? && !EffectOf(t, step).Take? && NobodyHasItem(t)
    ensures NobodyHasItem(Do(t, step))
  {
    hide Victim;
  }

  lemma {:induction false} IdleMoves(j: Joint, scan: seq<Move>)
    requires LegalMoves(j, scan) && NothingMade(j, scan) && NothingTaken(j, scan) && NobodyHasItem(j.pool)
    ensures NobodyHasItem(AfterMoves(j, scan).pool)
    decreases |scan|
  {
    hide Enabled, Do, NobodyHasItem, EffectOf;
    if scan != [] {
      var n := |scan| - 1;
      IdleMoves(j, scan[..n]);
      var last := scan[n];
      if last.Pool? { IdleMove(AfterMoves(j, scan[..n]).pool, last.step); }
    }
  }

  // If nobody had an item at the load, nobody outside was submitting, and during the scan no item
  // was made or taken from a queue, then nothing is live when the wait returns.
  lemma {:induction false} StillScanIsRight(s: State, pre: seq<Move>, scan: seq<Move>)
    requires Init(s) && LegalMoves(Joint(s, Loading), pre)
    requires AfterMoves(Joint(s, Loading), pre).pc.Loading?
    requires var j := Moved(AfterMoves(Joint(s, Loading), pre), Load);
             IsScan(j, scan) && OutsideIdle(j.pool) && NobodyHasItem(j.pool) && NothingMade(j, scan) &&
             NothingTaken(j, scan) &&
             AfterMoves(j, scan).pc.Returned?
    ensures AfterMoves(Moved(AfterMoves(Joint(s, Loading), pre), Load), scan).pool.live == {}
  {
    hide Init, Inv, Enabled, Do, LegalMoves, AfterMoves, Makes, NobodyHasItem, Takes;
    WaitIsRight(s, pre, scan);
    IdleMoves(Moved(AfterMoves(Joint(s, Loading), pre), Load), scan);
  }

  // ----- each part of the condition is needed -----

  function Lifted(run: seq<Step>): seq<Move> {
    if run == [] then [] else Lifted(run[..|run| - 1]) + [Pool(run[|run| - 1])]
  }

  lemma {:induction false} Lift(s: State, run: seq<Step>)
    requires Legal(s, run)
    ensures LegalMoves(Joint(s, Loading), Lifted(run))
    ensures AfterMoves(Joint(s, Loading), Lifted(run)) == Joint(After(s, run), Loading)
    decreases |run|
  {
    hide Enabled, Do;
    if run != [] {
      Lift(s, run[..|run| - 1]);
      Onward(Joint(s, Loading), Lifted(run[..|run| - 1]), Pool(run[|run| - 1]));
    }
  }

  lemma QuietEnd(j: Joint, run: seq<Move>, move: Move)
    requires LegalMoves(j, run) && CanMove(AfterMoves(j, run), move) && NothingMade(j, run)
    requires !Makes(AfterMoves(j, run).pool, move)
    ensures LegalMoves(j, run + [move]) && NothingMade(j, run + [move])
  {
    hide CanMove, Makes;
    Onward(j, run, move);
    assert (run + [move])[..|run|] == run;
  }

  // One item, taken from its queue between the load and the look at that queue: at the load nobody
  // has an item, at the return the worker counts as busy, and no thread is ever between counts at a
  // read. The wait returns while the item is running.
  lemma ReturnsWhileRunning(s: State) returns (pre: seq<Move>, scan: seq<Move>)
    requires Init(s) && |s.workers| == 1 && |s.outside| == 1
    ensures LegalMoves(Joint(s, Loading), pre) && AfterMoves(Joint(s, Loading), pre).pc.Loading?
    ensures var j := Moved(AfterMoves(Joint(s, Loading), pre), Load);
            IsScan(j, scan) && OutsideIdle(j.pool) && NobodyHasItem(j.pool) && NothingMade(j, scan) &&
            var t := AfterMoves(j, scan);
            t.pc.Returned? && OutsideIdle(t.pool) && t.pool.live != {} && t.pool.workers == [Running(0, None)]
  {
    var run := SubmitFirst(s);
    hide Init, Legal, After;
    Lift(s, run);
    pre := Lifted(run);
    var j := Moved(AfterMoves(Joint(s, Loading), pre), Load);
    assert j.pc == Looking(0);
    scan := TakeAndLook(j);
  }

  lemma TakeAndLook(j: Joint) returns (scan: seq<Move>)
    requires j.pc == Looking(0) && j.pool.workers == [Starting] && j.pool.queues == [[0]] && !j.pool.stop
    requires j.pool.working == 0 && j.pool.live == {0} && j.pool.outside == [Idle]
    ensures IsScan(j, scan) && NothingMade(j, scan)
    ensures var t := AfterMoves(j, scan);
            t.pc.Returned? && t.pool.outside == [Idle] && t.pool.live == {0} && t.pool.workers == [Running(0, None)]
  {
    hide LegalMoves, AfterMoves, NothingMade, Enabled, Do, EffectOf;
    scan := StartAndCheck(j);
    PopFirst(AfterMoves(j, scan).pool);
    QuietEnd(j, scan, Pool(ByWorker(0, Pop(0))));
    Onward(j, scan, Pool(ByWorker(0, Pop(0))));
    scan := scan + [Pool(ByWorker(0, Pop(0)))];
    BeginFirst(AfterMoves(j, scan).pool);
    QuietEnd(j, scan, Pool(ByWorker(0, Begin)));
    Onward(j, scan, Pool(ByWorker(0, Begin)));
    scan := scan + [Pool(ByWorker(0, Begin))];
    QuietEnd(j, scan, Look);
    Onward(j, scan, Look);
    scan := scan + [Look];
  }

  lemma PopFirst(t: State)
    requires t.workers == [Popping] && t.queues == [[0]]
    ensures var step := ByWorker(0, Pop(0));
            Enabled(t, step) && !EffectOf(t, step).New? && Do(t, step) == t.(workers := [Holding(0)], queues := [[]])
  {
  }

  lemma BeginFirst(t: State)
    requires t.workers == [Holding(0)]
    ensures var step := ByWorker(0, Begin);
            Enabled(t, step) && !EffectOf(t, step).New? &&
            Do(t, step) == t.(workers := [Running(0, None)], working := t.working + 1, begun := t.begun + [0])
  {
  }

  lemma StartAndCheck(j: Joint) returns (scan: seq<Move>)
    requires j.pool.workers == [Starting] && !j.pool.stop
    ensures LegalMoves(j, scan) && NothingMade(j, scan) && forall k: nat | k < |scan| :: !scan[k].Load?
    ensures AfterMoves(j, scan) == j.(pool := j.pool.(workers := [Popping], alive := j.pool.alive + 1))
  {
    QuietEnd(j, [], Pool(ByWorker(0, Start)));
    Onward(j, [], Pool(ByWorker(0, Start)));
    scan := [] + [Pool(ByWorker(0, Start))];
    hide LegalMoves, AfterMoves, NothingMade;
    QuietEnd(j, scan, Pool(ByWorker(0, Check)));
    Onward(j, scan, Pool(ByWorker(0, Check)));
    scan := scan + [Pool(ByWorker(0, Check))];
  }

  // An item taken before the load and not yet counted: nothing is made or taken during the scan.
  lemma ReturnsBeforeCounted(s: State) returns (pre: seq<Move>, scan: seq<Move>)
    requires Init(s) && |s.workers| == 1 && |s.outside| == 1
    ensures LegalMoves(Joint(s, Loading), pre) && AfterMoves(Joint(s, Loading), pre).pc.Loading?
    ensures var j := Moved(AfterMoves(Joint(s, Loading), pre), Load);
            IsScan(j, scan) && OutsideIdle(j.pool) && NothingMade(j, scan) && NothingTaken(j, scan) &&
            AfterMoves(j, scan).pc.Returned? && AfterMoves(j, scan).pool.live != {}
  {
    var run := SubmitFirst(s);
    hide Init, Legal, After;
    Extend(s, run, ByWorker(0, Start));
    run := run + [ByWorker(0, Start)];
    Extend(s, run, ByWorker(0, Check));
    run := run + [ByWorker(0, Check)];
    Extend(s, run, ByWorker(0, ThreadPool.Pop(0)));
    run := run + [ByWorker(0, ThreadPool.Pop(0))];
    Lift(s, run);
    pre := Lifted(run);
    scan := OneLook(Moved(AfterMoves(Joint(s, Loading), pre), Load));
  }

  lemma OneLook(j: Joint) returns (scan: seq<Move>)
    requires j.pc == Looking(0) && j.pool.queues == [[]] && j.pool.working == 0
    ensures IsScan(j, scan) && NothingMade(j, scan) && NothingTaken(j, scan)
    ensures AfterMoves(j, scan) == j.(pc := Returned)
  {
    Onward(j, [], Look);
    scan := [] + [Look];
    assert scan[..0] == [];
  }

  // A submitter that has made an item and not yet queued it.
  lemma ReturnsBeforeQueued(s: State) returns (pre: seq<Move>, scan: seq<Move>)
    requires Init(s) && |s.workers| == 1 && |s.outside| == 1
    ensures LegalMoves(Joint(s, Loading), pre) && AfterMoves(Joint(s, Loading), pre).pc.Loading?
    ensures var j := Moved(AfterMoves(Joint(s, Loading), pre), Load);
            IsScan(j, scan) && NobodyHasItem(j.pool) && NothingMade(j, scan) && NothingTaken(j, scan) &&
            AfterMoves(j, scan).pc.Returned? && AfterMoves(j, scan).pool.live != {}
  {
    Onward(Joint(s, Loading), [], Pool(ByOutside(0, Submit(0, None))));
    pre := [] + [Pool(ByOutside(0, Submit(0, None)))];
    assert s.queues == [[]];
    scan := OneLook(Moved(AfterMoves(Joint(s, Loading), pre), Load));
  }
}
