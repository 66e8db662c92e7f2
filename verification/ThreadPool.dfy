// The work-stealing thread pool of src/thread.c as a system of atomic steps. Every atomic
// operation, queue operation and allocation is one step of one thread; any thread may move next.
module ThreadPool {
  import Bits
  import opened Wrappers

  type WorkId = nat
  type Waiter = Option<nat>

  // Where a worker is in threadpool_worker_func.
  datatype WorkerPc =
    | Starting
    | Checking                                  // about to load the stop flag
    | Popping                                   // about to dequeue from its own queue
    | Stealing(i: nat)                          // about to dequeue from the i-th other queue
    | Holding(work: WorkId)                     // dequeued, not yet counted as working
    | Running(work: WorkId, made: Option<WorkId>)  // in func; made is a submission in progress
    | Finishing(work: WorkId)                   // func has returned, work_free is next
    | Leaving
    | Gone

  // Where a thread outside the pool is in threadpool_work_add.
  datatype OutsidePc =
    | Idle
    | Created(work: WorkId)
    | Routed(work: WorkId, queue: nat)

  // Where threadpool_release is.
  datatype ReleasePc =
    | NotReleased
    | Joining(next: nat)
    | Draining(queue: nat)
    | Dropping(queue: nat, work: WorkId)
    | Released

  datatype State = State(
    workers: seq<WorkerPc>,
    queues: seq<seq<WorkId>>,
    outside: seq<OutsidePc>,
    releaser: ReleasePc,
    stop: bool,
    working: int,
    alive: int,
    submitRr: nat,
    counters: map<nat, int>,
    live: set<WorkId>,
    // history: every item ever made with its waiter, items begun, items freed
    made: map<WorkId, Waiter>,
    begun: seq<WorkId>,
    freed: seq<WorkId>)

  // What an atomic step does to the queues and to the items.
  datatype Effect =
    | Nothing
    | Take(queue: nat, k: nat)             // dequeue: any element, the queue is a bag
    | Push(queue: nat, work: WorkId)       // enqueue
    | New(work: WorkId, waiter: Waiter)    // work_new
    | Free(work: WorkId)                   // work_free

  datatype WorkerAct =
    | Start | Check | Pop(k: nat) | PopMiss | Steal(k: nat) | StealMiss | Begin
    | Make(work: WorkId, waiter: Waiter) | Enqueue | EnqueueFail | Return | Finish | Leave

  datatype OutsideAct = Submit(work: WorkId, waiter: Waiter) | Route | Hand | HandFail

  datatype ReleaseAct = Stop | Join | Drain(k: nat) | Drop | NextQueue

  datatype Step =
    | ByWorker(i: nat, act: WorkerAct)
    | ByOutside(o: nat, out: OutsideAct)
    | ByRelease(rel: ReleaseAct)

  // ----- effects -----

  function Counted(c: map<nat, int>, waiter: Waiter, d: int): map<nat, int> {
    match waiter
    case None => c
    case Some(x) => if x in c then c[x := c[x] + d] else c
  }

  function RemoveAt(q: seq<WorkId>, k: nat): (r: seq<WorkId>)
    requires k < |q|
    ensures multiset(q) == multiset(r) + multiset{q[k]}
  {
    assert q == q[..k] + [q[k]] + q[k + 1..];
    q[..k] + q[k + 1..]
  }

  predicate Possible(s: State, e: Effect) {
    match e
    case Nothing => true
    case Take(q, k) => q < |s.queues| && k < |s.queues[q]|
    case Push(q, w) => q < |s.queues|
    case New(w, waiter) => w !in s.made && (waiter.Some? ==> waiter.value in s.counters)
    case Free(w) => true
  }

  function Affect(s: State, e: Effect): State
    requires Possible(s, e)
  {
    match e
    case Nothing => s
    case Take(q, k) => s.(queues := s.queues[q := RemoveAt(s.queues[q], k)])
    case Push(q, w) => s.(queues := s.queues[q := s.queues[q] + [w]])
    case New(w, waiter) =>
      s.(made := s.made[w := waiter], live := s.live + {w}, counters := Counted(s.counters, waiter, 1))
    case Free(w) =>
      s.(live := s.live - {w}, freed := s.freed + [w],
         counters := Counted(s.counters, if w in s.made then s.made[w] else None, -1))
  }

  // ----- the worker thread -----

  // The queue visited by the j-th attempt of threadpool_try_steal.
  function Victim(i: nat, j: nat, count: nat): (r: nat)
    requires 0 < count
    ensures r < count
  {
    (i + j) % count
  }

  predicate WorkerCan(s: State, i: nat, act: WorkerAct) {
    i < |s.workers| && var pc := s.workers[i];
    match act
    case Start => pc.Starting?
    case Check => pc.Checking?
    case Pop(_) => pc.Popping?
    case PopMiss => pc.Popping?
    case Steal(_) => pc.Stealing?
    case StealMiss => pc.Stealing?
    case Begin => pc.Holding?
    case Make(_, _) => pc.Running? && pc.made.None?
    case Enqueue => pc.Running? && pc.made.Some?
    case EnqueueFail => pc.Running? && pc.made.Some?
    case Return => pc.Running? && pc.made.None?
    case Finish => pc.Finishing?
    case Leave => pc.Leaving?
  }

  function WorkerEffect(s: State, i: nat, act: WorkerAct): Effect
    requires WorkerCan(s, i, act)
  {
    var pc := s.workers[i];
    match act
    case Pop(k) => Take(i, k)
    case Steal(k) => Take(Victim(i, pc.i, |s.workers|), k)
    case Make(w, waiter) => New(w, waiter)
    case Enqueue => Push(i, pc.made.value)
    case EnqueueFail => Free(pc.made.value)
    case Finish => Free(pc.work)
    case _ => Nothing
  }

  function Taken(s: State, e: Effect): WorkId {
    if e.Take? && Possible(s, e) then s.queues[e.queue][e.k] else 0
  }

  function WorkerNext(s: State, i: nat, act: WorkerAct): WorkerPc
    requires WorkerCan(s, i, act)
  {
    var pc := s.workers[i];
    match act
    case Start => Checking
    case Check => if s.stop then Leaving else Popping
    case Pop(k) => Holding(Taken(s, WorkerEffect(s, i, act)))
    case PopMiss => if |s.workers| > 1 then Stealing(1) else Checking
    case Steal(k) => Holding(Taken(s, WorkerEffect(s, i, act)))
    case StealMiss => if pc.i + 1 < |s.workers| then Stealing(pc.i + 1) else Checking
    case Begin => Running(pc.work, None)
    case Make(w, _) => Running(pc.work, Some(w))
    case Enqueue => Running(pc.work, None)
    case EnqueueFail => Running(pc.work, None)
    case Return => Finishing(pc.work)
    case Finish => Checking
    case Leave => Gone
  }

  // ----- threads outside the pool -----

  predicate OutsideCan(s: State, o: nat, act: OutsideAct) {
    o < |s.outside| &&
    match act
    case Submit(_, _) => s.outside[o].Idle?
    case Route => s.outside[o].Created? && |s.workers| > 0
    case Hand => s.outside[o].Routed?
    case HandFail => s.outside[o].Routed?
  }

  function OutsideEffect(s: State, o: nat, act: OutsideAct): Effect
    requires OutsideCan(s, o, act)
  {
    match act
    case Submit(w, waiter) => New(w, waiter)
    case Route => Nothing
    case Hand => Push(s.outside[o].queue, s.outside[o].work)
    case HandFail => Free(s.outside[o].work)
  }

  function OutsideNext(s: State, o: nat, act: OutsideAct): OutsidePc
    requires OutsideCan(s, o, act)
  {
    match act
    case Submit(w, _) => Created(w)
    case Route => Routed(s.outside[o].work, s.submitRr % |s.workers|)
    case _ => Idle
  }

  // ----- the releasing thread -----

  predicate ReleaseCan(s: State, act: ReleaseAct) {
    var r := s.releaser;
    match act
    case Stop => r.NotReleased?
    case Join => r.Joining? && (r.next < |s.workers| ==> s.workers[r.next].Gone?)
    case Drain(k) => r.Draining? && r.queue < |s.queues|
    case Drop => r.Dropping?
    case NextQueue => r.Draining? && (r.queue < |s.queues| ==> s.queues[r.queue] == [])
  }

  function ReleaseEffect(s: State, act: ReleaseAct): Effect
    requires ReleaseCan(s, act)
  {
    match act
    case Drain(k) => Take(s.releaser.queue, k)
    case Drop => Free(s.releaser.work)
    case _ => Nothing
  }

  function ReleaseNext(s: State, act: ReleaseAct): ReleasePc
    requires ReleaseCan(s, act)
  {
    var r := s.releaser;
    match act
    case Stop => Joining(0)
    case Join => if r.next < |s.workers| then Joining(r.next + 1) else Draining(0)
    case Drain(k) => Dropping(r.queue, Taken(s, ReleaseEffect(s, act)))
    case Drop => Draining(r.queue)
    case NextQueue => if r.queue < |s.queues| then Draining(r.queue + 1) else Released
  }

  // ----- the step relation -----

  predicate Can(s: State, step: Step) {
    match step
    case ByWorker(i, act) => WorkerCan(s, i, act)
    case ByOutside(o, act) => OutsideCan(s, o, act)
    case ByRelease(act) => ReleaseCan(s, act)
  }

  function EffectOf(s: State, step: Step): Effect
    requires Can(s, step)
  {
    match step
    case ByWorker(i, act) => WorkerEffect(s, i, act)
    case ByOutside(o, act) => OutsideEffect(s, o, act)
    case ByRelease(act) => ReleaseEffect(s, act)
  }

  predicate Enabled(s: State, step: Step) {
    Can(s, step) && Possible(s, EffectOf(s, step))
  }

  function Do(s: State, step: Step): State
    requires Enabled(s, step)
  {
    var a := Affect(s, EffectOf(s, step));
    match step
    case ByWorker(i, act) =>
      a.(workers := s.workers[i := WorkerNext(s, i, act)],
         alive := s.alive + (if act.Start? then 1 else if act.Leave? then -1 else 0),
         working := s.working + (if act.Begin? then 1 else if act.Return? then -1 else 0),
         begun := s.begun + (if act.Begin? then [s.workers[i].work] else []))
    case ByOutside(o, act) =>
      a.(outside := s.outside[o := OutsideNext(s, o, act)],
         submitRr := if act.Route? then (s.submitRr + 1) % 0x1_0000_0000 else s.submitRr)
    case ByRelease(act) =>
      a.(releaser := ReleaseNext(s, act), stop := s.stop || act.Stop?)
  }

  // A pool just after threadpool_init has created its threads, with any set of waiters.
  predicate Init(s: State) {
    && |s.workers| > 0 && |s.queues| == |s.workers|
    && (forall i | 0 <= i < |s.workers| :: s.workers[i] == Starting && s.queues[i] == [])
    && (forall o | 0 <= o < |s.outside| :: s.outside[o] == Idle)
    && s.releaser == NotReleased && !s.stop && s.working == 0 && s.alive == 0
    && (forall x | x in s.counters :: s.counters[x] == 0)
    && s.live == {} && s.made == map[] && s.begun == [] && s.freed == []
  }

  // A run is any sequence of steps each enabled where it is taken.
  predicate Legal(s: State, run: seq<Step>)
    decreases |run|, 0
  {
    run == [] || (Legal(s, run[..|run| - 1]) && Enabled(After(s, run[..|run| - 1]), run[|run| - 1]))
  }

  function After(s: State, run: seq<Step>): State
    requires Legal(s, run)
    decreases |run|, 1
  {
    if run == [] then s else Do(After(s, run[..|run| - 1]), run[|run| - 1])
  }

  // ----- references to items -----

  ghost function Sum(ns: seq<int>): int {
    if ns == [] then 0 else Sum(ns[..|ns| - 1]) + ns[|ns| - 1]
  }

  lemma {:induction false} SumUpdate(ns: seq<int>, i: nat, v: int)
    requires i < |ns|
    ensures Sum(ns[i := v]) == Sum(ns) - ns[i] + v
  {
    var n := |ns| - 1;
    if i == n {
      assert ns[i := v][..n] == ns[..n];
    } else {
      SumUpdate(ns[..n], i, v);
      assert ns[i := v][..n] == ns[..n][i := v];
    }
  }

  function One(b: bool): int {
    if b then 1 else 0
  }

  // How many references to item x a place holds.
  ghost function InWorker(pc: WorkerPc, x: WorkId): int {
    match pc
    case Holding(w) => One(w == x)
    case Running(w, m) => One(w == x) + One(m == Some(x))
    case Finishing(w) => One(w == x)
    case _ => 0
  }

  ghost function InOutside(pc: OutsidePc, x: WorkId): int {
    One(!pc.Idle? && pc.work == x)
  }

  ghost function InRelease(pc: ReleasePc, x: WorkId): int {
    One(pc.Dropping? && pc.work == x)
  }

  ghost function InQueue(q: seq<WorkId>, x: WorkId): int {
    multiset(q)[x]
  }

  ghost function InWorkers(ws: seq<WorkerPc>, x: WorkId): seq<int> {
    seq(|ws|, i requires 0 <= i < |ws| => InWorker(ws[i], x))
  }

  ghost function InQueues(qs: seq<seq<WorkId>>, x: WorkId): seq<int> {
    seq(|qs|, i requires 0 <= i < |qs| => InQueue(qs[i], x))
  }

  ghost function InOutsides(os: seq<OutsidePc>, x: WorkId): seq<int> {
    seq(|os|, i requires 0 <= i < |os| => InOutside(os[i], x))
  }

  // All references to item x that any thread or queue holds.
  ghost function Refs(s: State, x: WorkId): int {
    Sum(InWorkers(s.workers, x)) + Sum(InQueues(s.queues, x)) + Sum(InOutsides(s.outside, x)) +
    InRelease(s.releaser, x)
  }

  // References to x that are not those of a worker executing x.
  ghost function WaitsInWorker(pc: WorkerPc, x: WorkId): int {
    match pc
    case Holding(w) => One(w == x)
    case Running(_, m) => One(m == Some(x))
    case _ => 0
  }

  ghost function WaitsInWorkers(ws: seq<WorkerPc>, x: WorkId): seq<int> {
    seq(|ws|, i requires 0 <= i < |ws| => WaitsInWorker(ws[i], x))
  }

  ghost function Waiting(s: State, x: WorkId): int {
    Sum(WaitsInWorkers(s.workers, x)) + Sum(InQueues(s.queues, x)) + Sum(InOutsides(s.outside, x)) +
    InRelease(s.releaser, x)
  }

  lemma WorkerRefs(ws: seq<WorkerPc>, i: nat, pc: WorkerPc, x: WorkId)
    requires i < |ws|
    ensures Sum(InWorkers(ws[i := pc], x)) == Sum(InWorkers(ws, x)) - InWorker(ws[i], x) + InWorker(pc, x)
  {
    SumUpdate(InWorkers(ws, x), i, InWorker(pc, x));
    assert InWorkers(ws[i := pc], x) == InWorkers(ws, x)[i := InWorker(pc, x)];
  }

  lemma OutsideRefs(os: seq<OutsidePc>, o: nat, pc: OutsidePc, x: WorkId)
    requires o < |os|
    ensures Sum(InOutsides(os[o := pc], x)) == Sum(InOutsides(os, x)) - InOutside(os[o], x) + InOutside(pc, x)
  {
    SumUpdate(InOutsides(os, x), o, InOutside(pc, x));
    assert InOutsides(os[o := pc], x) == InOutsides(os, x)[o := InOutside(pc, x)];
  }

  lemma QueueRefs(qs: seq<seq<WorkId>>, q: nat, c: seq<WorkId>, x: WorkId)
    requires q < |qs|
    ensures Sum(InQueues(qs[q := c], x)) == Sum(InQueues(qs, x)) - InQueue(qs[q], x) + InQueue(c, x)
  {
    SumUpdate(InQueues(qs, x), q, InQueue(c, x));
    assert InQueues(qs[q := c], x) == InQueues(qs, x)[q := InQueue(c, x)];
  }

  // ----- accounting -----

  ghost function Pending(s: State, x: nat): set<WorkId> {
    set w | w in s.live && w in s.made && s.made[w] == Some(x)
  }

  ghost predicate NoDup(q: seq<WorkId>) {
    forall i, j | 0 <= i < j < |q| :: q[i] != q[j]
  }

  // Each waiter counts its live items; what was made is live or was freed, once.
  ghost predicate Accounts(s: State) {
    && s.live <= s.made.Keys
    && (forall w | w in s.made && s.made[w].Some? :: s.made[w].value in s.counters)
    && (forall x | x in s.counters :: s.counters[x] == |Pending(s, x)|)
    && NoDup(s.freed)
    && (forall w :: w in s.freed <==> w in s.made && w !in s.live)
  }

  lemma PendingNew(s: State, w: WorkId, waiter: Waiter, x: nat)
    requires Accounts(s) && Possible(s, New(w, waiter))
    ensures Pending(Affect(s, New(w, waiter)), x) ==
            if waiter == Some(x) then Pending(s, x) + {w} else Pending(s, x)
  {
  }

  lemma CounterNew(s: State, w: WorkId, waiter: Waiter, x: nat)
    requires Accounts(s) && Possible(s, New(w, waiter)) && x in s.counters
    ensures var s' := Affect(s, New(w, waiter)); x in s'.counters && s'.counters[x] == |Pending(s', x)|
  {
    hide NoDup;
    PendingNew(s, w, waiter, x);
    hide Pending;
    assert w !in s.live;
    NotPending(s, w, x);
  }

  lemma NotPending(s: State, w: WorkId, x: nat)
    requires w !in s.live
    ensures w !in Pending(s, x)
  {
  }

  lemma AccountsNew(s: State, w: WorkId, waiter: Waiter)
    requires Accounts(s) && Possible(s, New(w, waiter))
    ensures Accounts(Affect(s, New(w, waiter)))
  {
    hide Pending, NoDup;
    var s' := Affect(s, New(w, waiter));
    assert s'.counters.Keys == s.counters.Keys;
    forall x | x in s'.counters ensures s'.counters[x] == |Pending(s', x)| {
      CounterNew(s, w, waiter, x);
    }
  }

  lemma AccountsFree(s: State, w: WorkId)
    requires Accounts(s) && w in s.live
    ensures Accounts(Affect(s, Free(w)))
  {
    var s' := Affect(s, Free(w));
    forall x | x in s'.counters ensures s'.counters[x] == |Pending(s', x)| {
      assert Pending(s', x) == if s.made[w] == Some(x) then Pending(s, x) - {w} else Pending(s, x);
      if s.made[w] == Some(x) { assert w in Pending(s, x); }
    }
    forall v ensures v in s'.freed <==> v in s'.made && v !in s'.live {
      assert v in s'.freed <==> v in s.freed || v == w;
    }
  }

  // ----- the invariant -----

  ghost predicate Shape(s: State) {
    && |s.workers| > 0 && |s.queues| == |s.workers|
    && (forall i: nat | i < |s.workers| && s.workers[i].Stealing? :: 1 <= s.workers[i].i < |s.workers|)
    && (forall o: nat | o < |s.outside| && s.outside[o].Routed? :: s.outside[o].queue < |s.queues|)
    && s.stop == !s.releaser.NotReleased?
    && (s.releaser.Joining? ==> s.releaser.next <= |s.workers|)
    && (s.releaser.Draining? ==> s.releaser.queue <= |s.queues|)
    && (s.releaser.Dropping? ==> s.releaser.queue < |s.queues|)
    && (forall i: nat | i < |s.workers| && Joined(s.releaser, i) :: s.workers[i].Gone?)
  }

  // Worker i has been joined by the releasing thread.
  predicate Joined(r: ReleasePc, i: nat) {
    r.Draining? || r.Dropping? || r.Released? || (r.Joining? && i < r.next)
  }

  // Each live item has exactly one reference and nothing else is referred to.
  ghost predicate OneRef(s: State) {
    forall x :: Refs(s, x) == One(x in s.live)
  }

  // Items are begun at most once: what has been begun is nowhere waiting to be begun.
  ghost predicate Begun(s: State) {
    && NoDup(s.begun)
    && (forall x | x in s.begun :: x in s.made && Waiting(s, x) == 0)
  }

  // The counters of busy and of living workers are exact.
  ghost predicate Headcount(s: State) {
    s.working == Sum(Busy(s.workers)) && s.alive == Sum(Living(s.workers))
  }

  ghost function Busy(ws: seq<WorkerPc>): seq<int> {
    seq(|ws|, i requires 0 <= i < |ws| => One(ws[i].Running?))
  }

  ghost function Living(ws: seq<WorkerPc>): seq<int> {
    seq(|ws|, i requires 0 <= i < |ws| => One(!ws[i].Starting? && !ws[i].Gone?))
  }

  ghost predicate Inv(s: State) {
    Shape(s) && OneRef(s) && Accounts(s) && Begun(s) && Headcount(s)
  }

  lemma ShapeWorker(s: State, i: nat, act: WorkerAct)
    requires Shape(s) && Enabled(s, ByWorker(i, act))
    ensures Shape(Do(s, ByWorker(i, act)))
  {
    hide Victim;
    var pc := WorkerNext(s, i, act);
    assert pc.Stealing? ==> 1 <= pc.i < |s.workers|;
    assert s.workers[i].Gone? ==> false;
  }

  lemma ShapeOutside(s: State, o: nat, act: OutsideAct)
    requires Shape(s) && Enabled(s, ByOutside(o, act))
    ensures Shape(Do(s, ByOutside(o, act)))
  {
  }

  lemma ShapeRelease(s: State, act: ReleaseAct)
    requires Shape(s) && Enabled(s, ByRelease(act))
    ensures Shape(Do(s, ByRelease(act)))
  {
  }

  // ----- one reference per live item -----

  // References to x that an effect hands to the acting thread, and that it takes from it.
  ghost function Gets(s: State, e: Effect, x: WorkId): int {
    match e
    case Take(_, _) => One(Taken(s, e) == x)
    case New(w, _) => One(w == x)
    case _ => 0
  }

  ghost function Puts(e: Effect, x: WorkId): int {
    match e
    case Push(_, w) => One(w == x)
    case Free(w) => One(w == x)
    case _ => 0
  }

  // Every thread keeps its own books: what it holds after a step is what it held, plus what the
  // step handed to it, less what it gave away.
  lemma WorkerBalance(s: State, i: nat, act: WorkerAct, x: WorkId)
    requires WorkerCan(s, i, act)
    ensures InWorker(WorkerNext(s, i, act), x) + Puts(WorkerEffect(s, i, act), x) ==
            InWorker(s.workers[i], x) + Gets(s, WorkerEffect(s, i, act), x)
  {
    hide Victim;
  }

  lemma OutsideBalance(s: State, o: nat, act: OutsideAct, x: WorkId)
    requires OutsideCan(s, o, act)
    ensures InOutside(OutsideNext(s, o, act), x) + Puts(OutsideEffect(s, o, act), x) ==
            InOutside(s.outside[o], x) + Gets(s, OutsideEffect(s, o, act), x)
  {
  }

  lemma ReleaseBalance(s: State, act: ReleaseAct, x: WorkId)
    requires ReleaseCan(s, act)
    ensures InRelease(ReleaseNext(s, act), x) + Puts(ReleaseEffect(s, act), x) ==
            InRelease(s.releaser, x) + Gets(s, ReleaseEffect(s, act), x)
  {
  }

  // Only Take and Push change the queues.
  lemma EffectRefs(s: State, e: Effect, x: WorkId)
    requires Possible(s, e)
    ensures Sum(InQueues(Affect(s, e).queues, x)) ==
            Sum(InQueues(s.queues, x)) - (if e.Take? then Gets(s, e, x) else 0) + (if e.Push? then Puts(e, x) else 0)
  {
    if e.Take? || e.Push? {
      QueueRefs(s.queues, e.queue, Affect(s, e).queues[e.queue], x);
    }
  }

  // The references to x change exactly as its liveness does.
  lemma RefsStep(s: State, step: Step, x: WorkId)
    requires Enabled(s, step)
    ensures var e := EffectOf(s, step);
            Refs(Do(s, step), x) == Refs(s, x) + One(e.New? && e.work == x) - One(e.Free? && e.work == x)
  {
    hide Sum;
    EffectRefs(s, EffectOf(s, step), x);
    match step
    case ByWorker(i, act) =>
      WorkerRefs(s.workers, i, WorkerNext(s, i, act), x);
      WorkerBalance(s, i, act, x);
    case ByOutside(o, act) =>
      OutsideRefs(s.outside, o, OutsideNext(s, o, act), x);
      OutsideBalance(s, o, act, x);
    case ByRelease(act) =>
      ReleaseBalance(s, act, x);
  }

  lemma {:induction false} SumAtLeast(ns: seq<int>, i: nat)
    requires forall k: nat | k < |ns| :: ns[k] >= 0
    ensures 0 <= Sum(ns) && (i < |ns| ==> ns[i] <= Sum(ns))
  {
    if ns != [] {
      var n := |ns| - 1;
      SumAtLeast(ns[..n], i);
      SumAtLeast(ns[..n], 0);
    }
  }

  lemma {:induction false} SumBelow(ns: seq<int>, ms: seq<int>)
    requires |ns| == |ms| && forall k: nat | k < |ns| :: ns[k] <= ms[k]
    ensures Sum(ns) <= Sum(ms)
  {
    if ns != [] {
      SumBelow(ns[..|ns| - 1], ms[..|ns| - 1]);
    }
  }

  // The pieces of Refs and Waiting are non-negative and each place's share is within the sum.
  lemma Shares(s: State, x: WorkId, i: nat, q: nat, o: nat)
    ensures 0 <= Waiting(s, x) <= Refs(s, x)
    ensures i < |s.workers| ==> InWorker(s.workers[i], x) <= Refs(s, x)
    ensures i < |s.workers| ==> WaitsInWorker(s.workers[i], x) <= Waiting(s, x)
    ensures q < |s.queues| ==> InQueue(s.queues[q], x) <= Waiting(s, x)
    ensures o < |s.outside| ==> InOutside(s.outside[o], x) <= Waiting(s, x)
    ensures InRelease(s.releaser, x) <= Waiting(s, x)
  {
    hide Sum;
    SumAtLeast(InWorkers(s.workers, x), i);
    SumAtLeast(WaitsInWorkers(s.workers, x), i);
    SumAtLeast(InQueues(s.queues, x), q);
    SumAtLeast(InOutsides(s.outside, x), o);
    SumBelow(WaitsInWorkers(s.workers, x), InWorkers(s.workers, x));
  }

  lemma FreedIsLive(s: State, step: Step)
    requires OneRef(s) && Enabled(s, step) && EffectOf(s, step).Free?
    ensures EffectOf(s, step).work in s.live
  {
    hide Refs, Waiting;
    var w := EffectOf(s, step).work;
    match step
    case ByWorker(i, act) => Shares(s, w, i, 0, 0);
    case ByOutside(o, act) => Shares(s, w, 0, 0, o);
    case ByRelease(act) => Shares(s, w, 0, 0, 0);
  }

  lemma OneRefStep(s: State, step: Step)
    requires OneRef(s) && Accounts(s) && Enabled(s, step)
    ensures OneRef(Do(s, step))
  {
    hide Refs;
    var e, s' := EffectOf(s, step), Do(s, step);
    assert s'.live == Affect(s, e).live;
    forall x ensures Refs(s', x) == One(x in s'.live) {
      RefsStep(s, step, x);
      if e.Free? { FreedIsLive(s, step); }
    }
  }

  lemma AccountsStep(s: State, step: Step)
    requires OneRef(s) && Accounts(s) && Enabled(s, step)
    ensures Accounts(Do(s, step))
  {
    hide OneRef;
    var e := EffectOf(s, step);
    var a := Affect(s, e);
    match e {
      case New(w, waiter) => AccountsNew(s, w, waiter);
      case Free(w) =>
        FreedIsLive(s, step);
        AccountsFree(s, w);
      case _ => SameAccounts(s, a);
    }
    SameAccounts(a, Do(s, step));
  }

  lemma SameAccounts(a: State, b: State)
    requires Accounts(a)
    requires a.live == b.live && a.made == b.made && a.counters == b.counters && a.freed == b.freed
    ensures Accounts(b)
  {
    forall x ensures Pending(b, x) == Pending(a, x) {}
  }

  // ----- an item is begun at most once -----

  predicate Begins(s: State, step: Step, x: WorkId)
    requires Can(s, step)
  {
    step.ByWorker? && step.act.Begin? && s.workers[step.i].work == x
  }

  lemma WorkerWaits(s: State, i: nat, act: WorkerAct, x: WorkId)
    requires WorkerCan(s, i, act)
    ensures var e := WorkerEffect(s, i, act);
            WaitsInWorker(WorkerNext(s, i, act), x) + (if act.Finish? then 0 else Puts(e, x)) ==
            WaitsInWorker(s.workers[i], x) + Gets(s, e, x) - One(act.Begin? && s.workers[i].work == x)
  {
    hide Victim;
  }

  lemma WaitingStep(s: State, step: Step, x: WorkId)
    requires Enabled(s, step)
    ensures var e := EffectOf(s, step);
            && Waiting(Do(s, step), x) <= Waiting(s, x) + One(e.New? && e.work == x) - One(Begins(s, step, x))
  {
    hide Sum;
    EffectRefs(s, EffectOf(s, step), x);
    match step
    case ByWorker(i, act) =>
      var pc := WorkerNext(s, i, act);
      SumUpdate(WaitsInWorkers(s.workers, x), i, WaitsInWorker(pc, x));
      assert WaitsInWorkers(s.workers[i := pc], x) == WaitsInWorkers(s.workers, x)[i := WaitsInWorker(pc, x)];
      WorkerWaits(s, i, act, x);
    case ByOutside(o, act) =>
      OutsideRefs(s.outside, o, OutsideNext(s, o, act), x);
      OutsideBalance(s, o, act, x);
    case ByRelease(act) =>
      ReleaseBalance(s, act, x);
  }

  lemma BegunOne(s: State, step: Step, x: WorkId)
    requires OneRef(s) && Accounts(s) && Begun(s) && Enabled(s, step)
    requires x in s.begun || Begins(s, step, x)
    ensures x in Do(s, step).made && Waiting(Do(s, step), x) == 0
    ensures Begins(s, step, x) ==> x !in s.begun
  {
    hide Waiting, Refs, NoDup;
    WaitingStep(s, step, x);
    Shares(Do(s, step), x, 0, 0, 0);
    if Begins(s, step, x) {
      Shares(s, x, step.i, 0, 0);
    }
  }

  // The part of a step that only workers take.
  lemma WorkersAfter(s: State, step: Step)
    requires Enabled(s, step)
    ensures var s' := Do(s, step);
            if step.ByWorker? then
              && s'.workers == s.workers[step.i := WorkerNext(s, step.i, step.act)]
              && s'.alive == s.alive + One(step.act.Start?) - One(step.act.Leave?)
              && s'.working == s.working + One(step.act.Begin?) - One(step.act.Return?)
              && s'.begun == s.begun + (if step.act.Begin? then [s.workers[step.i].work] else [])
            else
              s'.workers == s.workers && s'.alive == s.alive && s'.working == s.working && s'.begun == s.begun
  {
    hide WorkerNext, OutsideNext, ReleaseNext, EffectOf;
  }

  lemma BegunStep(s: State, step: Step)
    requires OneRef(s) && Accounts(s) && Begun(s) && Enabled(s, step)
    ensures Begun(Do(s, step))
  {
    hide Waiting, OneRef, Accounts, Do, WorkerNext, EffectOf;
    var s' := Do(s, step);
    WorkersAfter(s, step);
    forall x | x in s'.begun ensures x in s'.made && Waiting(s', x) == 0 {
      BegunOne(s, step, x);
    }
    if step.ByWorker? && step.act.Begin? {
      BegunOne(s, step, s.workers[step.i].work);
    }
  }

  lemma BusyStep(s: State, i: nat, act: WorkerAct)
    requires WorkerCan(s, i, act)
    ensures Sum(Busy(s.workers[i := WorkerNext(s, i, act)])) ==
            Sum(Busy(s.workers)) + One(act.Begin?) - One(act.Return?)
  {
    hide Sum, Victim;
    var pc := WorkerNext(s, i, act);
    SumUpdate(Busy(s.workers), i, One(pc.Running?));
    assert Busy(s.workers[i := pc]) == Busy(s.workers)[i := One(pc.Running?)];
  }

  lemma LivingStep(s: State, i: nat, act: WorkerAct)
    requires WorkerCan(s, i, act)
    ensures Sum(Living(s.workers[i := WorkerNext(s, i, act)])) ==
            Sum(Living(s.workers)) + One(act.Start?) - One(act.Leave?)
  {
    hide Sum, Victim;
    var pc := WorkerNext(s, i, act);
    SumUpdate(Living(s.workers), i, One(!pc.Starting? && !pc.Gone?));
    assert Living(s.workers[i := pc]) == Living(s.workers)[i := One(!pc.Starting? && !pc.Gone?)];
  }

  lemma HeadcountStep(s: State, step: Step)
    requires Headcount(s) && Enabled(s, step)
    ensures Headcount(Do(s, step))
  {
    hide Sum, Busy, Living, Do, WorkerNext, EffectOf;
    WorkersAfter(s, step);
    if step.ByWorker? {
      BusyStep(s, step.i, step.act);
      LivingStep(s, step.i, step.act);
    }
  }

  lemma InvStep(s: State, step: Step)
    requires Inv(s) && Enabled(s, step)
    ensures Inv(Do(s, step))
  {
    hide Shape, OneRef, Accounts, Begun, Headcount;
    match step {
      case ByWorker(i, act) => ShapeWorker(s, i, act);
      case ByOutside(o, act) => ShapeOutside(s, o, act);
      case ByRelease(act) => ShapeRelease(s, act);
    }
    OneRefStep(s, step);
    AccountsStep(s, step);
    BegunStep(s, step);
    HeadcountStep(s, step);
  }

  lemma {:induction false} SumZero(ns: seq<int>)
    requires forall k: nat | k < |ns| :: ns[k] == 0
    ensures Sum(ns) == 0
  {
    if ns != [] { SumZero(ns[..|ns| - 1]); }
  }

  lemma InvInit(s: State)
    requires Init(s)
    ensures Inv(s)
  {
    forall x ensures Refs(s, x) == 0 {
      SumZero(InWorkers(s.workers, x));
      SumZero(InQueues(s.queues, x));
      SumZero(InOutsides(s.outside, x));
    }
    forall x ensures Pending(s, x) == {} {}
    SumZero(Busy(s.workers));
    SumZero(Living(s.workers));
  }

  // ----- results for every run -----

  lemma {:induction false} InvRun(s: State, run: seq<Step>)
    requires Inv(s) && Legal(s, run)
    ensures Inv(After(s, run))
  {
    hide Inv, Enabled, Do;
    if run != [] {
      InvRun(s, run[..|run| - 1]);
      InvStep(After(s, run[..|run| - 1]), run[|run| - 1]);
    }
  }

  // Each live item has one reference; an item is begun at most once and freed exactly once, and
  // only what was made and is no longer live has been freed. No counter ever goes below zero.
  lemma {:induction false} EveryRun(s: State, run: seq<Step>)
    requires Init(s) && Legal(s, run)
    ensures var t := After(s, run);
            && (forall x :: Refs(t, x) == One(x in t.live))
            && NoDup(t.begun) && NoDup(t.freed)
            && (forall x :: x in t.freed <==> x in t.made && x !in t.live)
            && (forall c | c in t.counters :: t.counters[c] == |Pending(t, c)| >= 0)
            && 0 <= t.working == Sum(Busy(t.workers)) <= |t.workers|
            && 0 <= t.alive == Sum(Living(t.workers)) <= |t.workers|
  {
    InvInit(s);
    InvRun(s, run);
    var t := After(s, run);
    hide Inv, Init, Legal;
    HeadcountBounds(Busy(t.workers));
    HeadcountBounds(Living(t.workers));
  }

  lemma {:induction false} HeadcountBounds(ns: seq<int>)
    requires forall k: nat | k < |ns| :: 0 <= ns[k] <= 1
    ensures 0 <= Sum(ns) <= |ns|
  {
    if ns != [] { HeadcountBounds(ns[..|ns| - 1]); }
  }

  lemma {:induction false} SumPair(ns: seq<int>, i: nat, j: nat)
    requires i < j < |ns| && forall k: nat | k < |ns| :: ns[k] >= 0
    ensures ns[i] + ns[j] <= Sum(ns)
  {
    var n := |ns| - 1;
    if j < n {
      SumPair(ns[..n], i, j);
    } else {
      SumAtLeast(ns[..n], i);
    }
  }

  // Two workers never hold the same item, and what a worker holds is in no queue and with no
  // submitter.
  lemma NoSharing(t: State, x: WorkId, i: nat, j: nat, q: nat, o: nat)
    requires Inv(t) && i < |t.workers| && InWorker(t.workers[i], x) > 0
    ensures x in t.live && InWorker(t.workers[i], x) == 1
    ensures j < |t.workers| && j != i ==> InWorker(t.workers[j], x) == 0
    ensures q < |t.queues| ==> x !in t.queues[q]
    ensures o < |t.outside| ==> InOutside(t.outside[o], x) == 0
  {
    hide Sum, Shape, Accounts, Begun, Headcount;
    var ns := InWorkers(t.workers, x);
    SumAtLeast(ns, i);
    SumAtLeast(InQueues(t.queues, x), q);
    SumAtLeast(InOutsides(t.outside, x), o);
    if j < |t.workers| && j != i {
      if i < j { SumPair(ns, i, j); } else { SumPair(ns, j, i); }
    }
    assert q < |t.queues| ==> InQueue(t.queues[q], x) == 0;
  }

  // When a wait on counter c reads zero, every item ever submitted on it, by anyone including its
  // own items, has been run and freed or dropped; none is queued, held or running.
  lemma {:induction false} WaitSeesAllDone(s: State, run: seq<Step>, c: nat)
    requires Init(s) && Legal(s, run) && c in After(s, run).counters && After(s, run).counters[c] == 0
    ensures var t := After(s, run);
            forall x | x in t.made && t.made[x] == Some(c) :: x in t.freed && Refs(t, x) == 0
  {
    InvInit(s);
    InvRun(s, run);
    var t := After(s, run);
    hide Init, Legal;
    forall x | x in t.made && t.made[x] == Some(c) ensures x in t.freed && Refs(t, x) == 0 {
      assert x !in Pending(t, c);
    }
  }

  // New work on c comes only from items that themselves count on c.
  ghost predicate OnlyFamily(s: State, run: seq<Step>, c: nat)
    requires Legal(s, run)
  {
    run == [] ||
    (OnlyFamily(s, run[..|run| - 1], c) &&
     var t, step := After(s, run[..|run| - 1]), run[|run| - 1];
     EffectOf(t, step).New? && EffectOf(t, step).waiter == Some(c) ==>
       step.ByWorker? && t.workers[step.i].work in t.made && t.made[t.workers[step.i].work] == Some(c))
  }

  // Completion is stable: once the counter is zero it stays zero as long as only the family of
  // items waited for may submit on it.
  lemma {:induction false} ZeroStaysZero(s: State, run: seq<Step>, c: nat)
    requires Inv(s) && Legal(s, run) && c in s.counters && s.counters[c] == 0 && OnlyFamily(s, run, c)
    ensures var t := After(s, run);
            c in t.counters && t.counters[c] == 0 && Pending(t, c) == {}
  {
    hide Inv, Do, Affect, EffectOf, Can, Possible;
    if run == [] {
      ZeroMeansNone(s, c);
    } else {
      var pre, step := run[..|run| - 1], run[|run| - 1];
      ZeroStaysZero(s, pre, c);
      InvRun(s, pre);
      ZeroStep(After(s, pre), step, c);
    }
  }

  lemma ZeroMeansNone(t: State, c: nat)
    requires Inv(t) && c in t.counters
    ensures t.counters[c] == 0 <==> Pending(t, c) == {}
  {
  }

  lemma NoFamilyLeft(t: State, step: Step, c: nat)
    requires Inv(t) && Enabled(t, step) && Pending(t, c) == {}
    requires step.ByWorker? && EffectOf(t, step).New?
    ensures t.workers[step.i].work in t.made ==> t.made[t.workers[step.i].work] != Some(c)
  {
    var w := t.workers[step.i].work;
    hide Refs, Waiting, Headcount, Begun, Shape;
    Shares(t, w, step.i, 0, 0);
    assert w in t.live;
    assert w !in Pending(t, c);
  }

  // The part of a step that its effect determines.
  lemma ItemsAfter(t: State, step: Step)
    requires Enabled(t, step)
    ensures var t', a := Do(t, step), Affect(t, EffectOf(t, step));
            t'.live == a.live && t'.made == a.made && t'.counters == a.counters && t'.queues == a.queues
  {
    hide Affect, EffectOf, WorkerNext, OutsideNext, ReleaseNext;
  }

  lemma ZeroStep(t: State, step: Step, c: nat)
    requires Inv(t) && Enabled(t, step) && c in t.counters && t.counters[c] == 0
    requires EffectOf(t, step).New? && EffectOf(t, step).waiter == Some(c) ==>
               step.ByWorker? && t.workers[step.i].work in t.made && t.made[t.workers[step.i].work] == Some(c)
    ensures c in Do(t, step).counters && Do(t, step).counters[c] == 0 && Pending(Do(t, step), c) == {}
  {
    hide Inv, Do, EffectOf, Can;
    ZeroMeansNone(t, c);
    InvStep(t, step);
    var e, t' := EffectOf(t, step), Do(t, step);
    if e.New? && e.waiter == Some(c) {
      NoFamilyLeft(t, step, c);
      assert false;
    }
    ItemsAfter(t, step);
    assert Pending(t', c) <= Pending(t, c);
    ZeroMeansNone(t', c);
  }

  // ----- release -----

  ghost predicate OutsideIdle(s: State) {
    forall o: nat | o < |s.outside| :: s.outside[o].Idle?
  }

  // No thread outside the pool is submitting once the release has begun.
  ghost predicate QuietRelease(s: State, run: seq<Step>)
    requires Legal(s, run)
  {
    && (After(s, run).stop ==> OutsideIdle(After(s, run)))
    && (run != [] ==> QuietRelease(s, run[..|run| - 1]))
  }

  ghost predicate QueueDone(r: ReleasePc, q: nat) {
    r.Released? || (r.Draining? && q < r.queue) || (r.Dropping? && q < r.queue)
  }

  ghost predicate Drained(s: State) {
    forall q: nat | q < |s.queues| && QueueDone(s.releaser, q) :: s.queues[q] == []
  }

  lemma DrainedStep(t: State, step: Step)
    requires Shape(t) && Drained(t) && Enabled(t, step) && (t.stop ==> OutsideIdle(t))
    ensures Drained(Do(t, step))
  {
    hide Victim;
    var t' := Do(t, step);
    forall q: nat | q < |t'.queues| && QueueDone(t'.releaser, q) ensures t'.queues[q] == [] {
      match step
      case ByWorker(i, act) => assert Joined(t.releaser, i);
      case ByOutside(o, act) =>
      case ByRelease(act) =>
    }
  }

  lemma {:induction false} DrainedRun(s: State, run: seq<Step>)
    requires Init(s) && Legal(s, run) && QuietRelease(s, run)
    ensures Inv(After(s, run)) && Drained(After(s, run))
  {
    InvInit(s);
    InvRun(s, run);
    if run != [] {
      hide Do, Enabled, Init, Inv, Drained;
      var pre := run[..|run| - 1];
      DrainedRun(s, pre);
      ShapeOf(After(s, pre));
      DrainedStep(After(s, pre), run[|run| - 1]);
    }
  }

  lemma ShapeOf(t: State)
    requires Inv(t)
    ensures Shape(t)
  {
  }

  // After a release with no outside submitter nothing is live: every item ever made has been
  // freed, every worker has gone, and every waiter's counter is back to zero.
  lemma ReleaseLeavesNothing(s: State, run: seq<Step>)
    requires Init(s) && Legal(s, run) && QuietRelease(s, run) && After(s, run).releaser.Released?
    ensures var t := After(s, run);
            && t.live == {} && (forall x | x in t.made :: x in t.freed)
            && (forall c | c in t.counters :: t.counters[c] == 0)
            && t.working == 0 && t.alive == 0
  {
    DrainedRun(s, run);
    var t := After(s, run);
    hide Init, Legal, Begun;
    forall i: nat | i < |t.workers| ensures t.workers[i].Gone? {
      assert Joined(t.releaser, i);
    }
    forall x ensures x !in t.live {
      NothingRefers(t, x);
    }
    forall c | c in t.counters ensures t.counters[c] == 0 {
      assert Pending(t, c) == {};
    }
    SumZero(Busy(t.workers));
    SumZero(Living(t.workers));
  }

  lemma NothingRefers(t: State, x: WorkId)
    requires forall i: nat | i < |t.workers| :: t.workers[i].Gone?
    requires forall q: nat | q < |t.queues| :: t.queues[q] == []
    requires OutsideIdle(t) && t.releaser.Released?
    ensures Refs(t, x) == 0
  {
    SumZero(InWorkers(t.workers, x));
    SumZero(InQueues(t.queues, x));
    SumZero(InOutsides(t.outside, x));
  }

  // ----- stealing -----

  lemma VictimAt(i: nat, j: nat, count: nat)
    requires i < count && j < count
    ensures Victim(i, j, count) == if i + j < count then i + j else i + j - count
  {
    if i + j < count {
      Bits.ModUnique(i + j, count, 0, i + j);
    } else {
      Bits.ModUnique(i + j, count, 1, i + j - count);
    }
  }

  // One pass of threadpool_try_steal visits the queue of every other worker, each exactly once.
  lemma StealPass(i: nat, v: nat, count: nat)
    requires i < count && v < count
    ensures v != i <==> exists j: nat :: 1 <= j < count && Victim(i, j, count) == v
    ensures forall j: nat, k: nat | j < count && k < count && Victim(i, j, count) == Victim(i, k, count) :: j == k
  {
    hide Victim;
    forall j: nat | j < count ensures Victim(i, j, count) == if i + j < count then i + j else i + j - count {
      VictimAt(i, j, count);
    }
    var j := if v >= i then v - i else v - i + count;
    assert Victim(i, j, count) == v;
  }

  // ----- a first run -----

  lemma Extend(s: State, run: seq<Step>, step: Step)
    requires Legal(s, run) && Enabled(After(s, run), step)
    ensures Legal(s, run + [step]) && After(s, run + [step]) == Do(After(s, run), step)
  {
    assert (run + [step])[..|run|] == run;
  }

  // An outside thread makes item 0 and is given the only queue.
  lemma RouteFirst(s: State) returns (run: seq<Step>)
    requires Init(s) && |s.workers| == 1 && |s.outside| == 1
    ensures Legal(s, run)
    ensures After(s, run) == s.(outside := [Routed(0, 0)], made := map[0 := None], live := {0},
                                submitRr := (s.submitRr + 1) % 0x1_0000_0000)
  {
    assert s.submitRr % 1 == 0 && s.outside == [Idle];
    Extend(s, [], ByOutside(0, Submit(0, None)));
    run := [] + [ByOutside(0, Submit(0, None))];
    hide Legal, After;
    Extend(s, run, ByOutside(0, Route));
    run := run + [ByOutside(0, Route)];
  }

  lemma SubmitFirst(s: State) returns (run: seq<Step>)
    requires Init(s) && |s.workers| == 1 && |s.outside| == 1
    ensures Legal(s, run)
    ensures After(s, run).workers == [Starting] && After(s, run).queues == [[0]]
    ensures After(s, run).live == {0} && After(s, run).working == 0 && !After(s, run).stop
    ensures After(s, run).outside == [Idle] && After(s, run).releaser.NotReleased?
  {
    run := RouteFirst(s);
    hide Legal, After;
    Extend(s, run, ByOutside(0, Hand));
    run := run + [ByOutside(0, Hand)];
    assert s.queues == [[]] && After(s, run).queues[0] == [0];
  }
}
