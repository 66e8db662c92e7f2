// How src/thread.c spreads items over the queues, and when its workers stop, over every run.
module ThreadPoolTurns {
  import Bits
  import opened Counting
  import opened ThreadPool
  import opened ThreadPoolSteal
  import opened Wrappers

  const WRAP: nat := 0x1_0000_0000

  // ----- the counter of the submissions from outside -----

  predicate Routing(step: Step) {
    step.ByOutside? && step.out.Route?
  }

  function Routings(run: seq<Step>): (m: nat)
    ensures m <= |run|
  {
    if run == [] then 0 else Routings(run[..|run| - 1]) + if Routing(run[|run| - 1]) then 1 else 0
  }

  lemma CounterStep(t: State, step: Step)
    requires Enabled(t, step)
    ensures |Do(t, step).workers| == |t.workers|
    ensures Do(t, step).submitRr == if Routing(step) then (t.submitRr + 1) % WRAP else t.submitRr
  {
    Untouched(t, step);
    CounterUntouched(t, step);
    hide WorkerNext, OutsideNext, ReleaseNext, Affect, EffectOf, Possible;
  }

  lemma CounterUntouched(t: State, step: Step)
    requires Enabled(t, step)
    ensures Affect(t, EffectOf(t, step)).submitRr == t.submitRr
  {
    hide Counted, RemoveAt, EffectOf;
  }

  lemma {:induction false} Counter(s: State, run: seq<Step>)
    requires Legal(s, run) && s.submitRr < WRAP
    ensures |After(s, run).workers| == |s.workers|
    ensures After(s, run).submitRr == (s.submitRr + Routings(run)) % WRAP
    decreases |run|
  {
    hide Enabled, Do;
    if run != [] {
      var pre := run[..|run| - 1];
      Counter(s, pre);
      CounterStep(After(s, pre), run[|run| - 1]);
    }
  }

  // The queue for routing number r, counted from a counter of c.
  function Turn(c: nat, r: nat, count: nat): nat
    requires count > 0
  {
    (c + r) % WRAP % count
  }

  // Step p of the run gives its item queue q, and a hand-over that follows puts it there.
  ghost predicate RoutesTo(s: State, run: seq<Step>, p: nat, q: nat)
    requires Legal(s, run)
  {
    p < |run| && Routing(run[p]) && Legal(s, run[..p]) && Enabled(After(s, run[..p]), run[p]) &&
    var t, o := Do(After(s, run[..p]), run[p]), run[p].o;
    o < |t.outside| && t.outside[o].Routed? &&
    EffectOf(t, ByOutside(o, Hand)) == Push(q, t.outside[o].work)
  }

  lemma RouteStep(t: State, step: Step, q: nat)
    requires Enabled(t, step) && Routing(step)
    ensures var u, o := Do(t, step), step.o;
            o < |u.outside| && u.outside[o].Routed? &&
            EffectOf(u, ByOutside(o, Hand)) == Push(t.submitRr % |t.workers|, u.outside[o].work)
  {
  }

  lemma {:induction false} StepsLegal(s: State, run: seq<Step>, p: nat)
    requires Legal(s, run) && p < |run|
    ensures Legal(s, run[..p]) && Enabled(After(s, run[..p]), run[p])
    decreases |run|
  {
    hide Enabled, Do;
    if p + 1 == |run| {
    } else {
      var pre := run[..|run| - 1];
      StepsLegal(s, pre, p);
      assert pre[..p] == run[..p];
    }
  }

  lemma RouteIs(s: State, run: seq<Step>, p: nat, q: nat)
    requires Legal(s, run) && s.submitRr < WRAP && |s.workers| > 0 && p < |run| && Routing(run[p])
    ensures RoutesTo(s, run, p, q) <==> q == Turn(s.submitRr, Routings(run[..p]), |s.workers|)
  {
    hide Legal, Enabled, Do, Routings, EffectOf;
    StepsLegal(s, run, p);
    Counter(s, run[..p]);
    RouteStep(After(s, run[..p]), run[p], q);
  }

  // ----- taking turns -----

  ghost predicate EachOnceFrom(c: nat, count: nat)
    requires count > 0
  {
    forall r: nat, v: nat | r < v < count :: Turn(c, r, count) != Turn(c, v, count)
  }

  lemma Same(x: nat, y: nat, n: nat)
    requires n > 0 && x <= y < x + n && x % n == y % n
    ensures x == y
  {
    var a, b := x / n, y / n;
    assert x == n * a + x % n && y == n * b + y % n;
    assert y - x == n * (b - a);
    if a != b { Bits.MulApart(n, b - a); }
  }

  lemma Regroup(n: nat, k: nat, q: nat, z: nat)
    ensures n * k * q + n * z == n * (k * q + z)
  {
  }

  lemma ModMod(x: nat, w: nat, n: nat)
    requires n > 0 && w > 0 && w % n == 0
    ensures x % w % n == x % n
  {
    var q, k := x / w, w / n;
    assert x == w * q + x % w && w == n * k;
    var y := x % w;
    assert y == n * (y / n) + y % n;
    Regroup(n, k, q, y / n);
    Bits.ModUnique(x, n, k * q + y / n, y % n);
  }

  lemma NoWrap(c: nat, r: nat, count: nat)
    requires count > 0 && c < WRAP && r < count && (c + count <= WRAP || WRAP % count == 0)
    ensures Turn(c, r, count) == (c + r) % count
  {
    if c + count <= WRAP {
      Bits.ModUnique(c + r, WRAP, 0, c + r);
    } else {
      ModMod(c + r, WRAP, count);
    }
  }

  lemma Fair(c: nat, count: nat)
    requires 0 < count < WRAP && c < WRAP && (c + count <= WRAP || WRAP % count == 0)
    ensures EachOnceFrom(c, count)
  {
    hide Turn;
    forall r: nat, v: nat | r < v < count ensures Turn(c, r, count) != Turn(c, v, count) {
      NoWrap(c, r, count);
      NoWrap(c, v, count);
      if (c + r) % count == (c + v) % count { Same(c + r, c + v, count); }
    }
  }

  lemma Wrapped(c: nat, r: nat, count: nat)
    requires 0 < count < WRAP && c < WRAP && WRAP <= c + r < WRAP + count
    ensures Turn(c, r, count) == c + r - WRAP
  {
    Bits.ModUnique(c + r, WRAP, 1, c + r - WRAP);
    Bits.ModUnique(c + r - WRAP, count, 0, c + r - WRAP);
  }

  lemma BeforeWrap(c: nat, r: nat, count: nat, e: nat)
    requires 0 < count < WRAP && e == WRAP % count && c + r < WRAP <= c + r + e
    ensures Turn(c, r, count) == c + r + e - WRAP
  {
    var k := WRAP / count;
    assert WRAP == count * k + e;
    Bits.ModUnique(c + r, WRAP, 0, c + r);
    Bits.ModUnique(c + r, count, k, c + r + e - WRAP);
  }

  // Two turns of one queue, where the counter wraps and the workers do not divide 2^32.
  lemma Unfair(c: nat, count: nat)
    requires 0 < count < WRAP && c < WRAP < c + count && WRAP % count != 0
    ensures !EachOnceFrom(c, count)
  {
    hide Turn;
    var e, k := WRAP % count, WRAP - c;
    var r, v := if e <= k then k - e else 0, if e <= k then k else e;
    BeforeWrap(c, r, count, e);
    Wrapped(c, v, count);
    assert Turn(c, r, count) == Turn(c, v, count);
  }

  // As many turns as queues, no queue twice: every queue has its turn.
  lemma AllHaveTurns(c: nat, count: nat, q: nat) returns (r: nat)
    requires q < count && EachOnceFrom(c, count)
    ensures r < count && Turn(c, r, count) == q
  {
    hide Turn;
    forall k: nat | k < count ensures Turn(c, k, count) < count { TurnBound(c, k, count); }
    if forall k: nat | k < count :: Turn(c, k, count) != q {
      Pigeonhole(seq(count, (k: nat) => Turn(c, k, count)) + [q], 0, count);
      assert false;
    }
    r :| r < count && Turn(c, r, count) == q;
  }

  lemma TurnBound(c: nat, r: nat, count: nat)
    requires count > 0
    ensures Turn(c, r, count) < count
  {
  }

  // ----- runs -----

  lemma {:induction false} RoutingNumber(run: seq<Step>, m: nat) returns (p: nat)
    requires m < Routings(run)
    ensures p < |run| && Routing(run[p]) && Routings(run[..p]) == m
    decreases |run|
  {
    var last := |run| - 1;
    if m < Routings(run[..last]) {
      p := RoutingNumber(run[..last], m);
      assert run[..last][..p] == run[..p];
    } else {
      p := last;
    }
  }

  lemma {:induction false} RoutingsGrow(run: seq<Step>, p: nat, r: nat)
    requires p < r <= |run| && Routing(run[p])
    ensures Routings(run[..p]) < Routings(run[..r])
    decreases r
  {
    assert run[..r][..r - 1] == run[..r - 1];
    if p + 1 < r { RoutingsGrow(run, p, r - 1); }
  }

  // Exactly one step of the run routes an item to queue q.
  ghost predicate RoutedOnce(s: State, run: seq<Step>, q: nat)
    requires Legal(s, run)
  {
    exists p: nat :: RoutesTo(s, run, p, q) && forall r: nat | RoutesTo(s, run, r, q) :: r == p
  }

  // Among as many items from outside as there are workers each queue is given exactly one, if and
  // only if the 32-bit counter does not wrap in between or their number divides 2^32.
  lemma RoundRobin(s: State, run: seq<Step>)
    requires Legal(s, run) && s.submitRr < WRAP && 0 < |s.workers| < WRAP && Routings(run) == |s.workers|
    ensures (forall q: nat | q < |s.workers| :: RoutedOnce(s, run, q)) <==>
            s.submitRr + |s.workers| <= WRAP || WRAP % |s.workers| == 0
  {
    hide Legal, Routings, RoutesTo, Turn, EachOnceFrom, RoutedOnce;
    var c, n := s.submitRr, |s.workers|;
    if c + n <= WRAP || WRAP % n == 0 {
      Fair(c, n);
      forall q: nat | q < n ensures RoutedOnce(s, run, q) { OnceWhenFair(s, run, q); }
    } else {
      Unfair(c, n);
      TwiceWhenUnfair(s, run);
    }
  }

  lemma OnceWhenFair(s: State, run: seq<Step>, q: nat)
    requires Legal(s, run) && s.submitRr < WRAP && Routings(run) == |s.workers| && q < |s.workers|
    requires EachOnceFrom(s.submitRr, |s.workers|)
    ensures RoutedOnce(s, run, q)
  {
    hide Legal, Routings, RoutesTo, Turn;
    var c, n := s.submitRr, |s.workers|;
    var m := AllHaveTurns(c, n, q);
    var p := RoutingNumber(run, m);
    RouteIs(s, run, p, q);
    forall r: nat | RoutesTo(s, run, r, q) ensures r == p {
      RoutesWhat(s, run, r, q);
      RouteIs(s, run, r, q);
      FewerBefore(run, r);
      if p < r { RoutingsGrow(run, p, r); }
      if r < p { RoutingsGrow(run, r, p); }
    }
  }

  lemma RoutesWhat(s: State, run: seq<Step>, p: nat, q: nat)
    requires Legal(s, run) && RoutesTo(s, run, p, q)
    ensures p < |run| && Routing(run[p])
  {
  }

  lemma FewerBefore(run: seq<Step>, r: nat)
    requires r < |run| && Routing(run[r])
    ensures Routings(run[..r]) < Routings(run)
  {
    RoutingsGrow(run, r, |run|);
    assert run[..|run|] == run;
  }

  lemma NotOnce(s: State, run: seq<Step>, p: nat, w: nat, q: nat)
    requires Legal(s, run) && RoutesTo(s, run, p, q) && RoutesTo(s, run, w, q) && p != w
    ensures !RoutedOnce(s, run, q)
  {
    hide Legal, RoutesTo;
  }

  lemma TwiceWhenUnfair(s: State, run: seq<Step>)
    requires Legal(s, run) && s.submitRr < WRAP && Routings(run) == |s.workers| > 0
    requires !EachOnceFrom(s.submitRr, |s.workers|)
    ensures exists q: nat :: q < |s.workers| && !RoutedOnce(s, run, q)
  {
    hide Legal, Routings, RoutesTo, Turn, RoutedOnce;
    var c, n := s.submitRr, |s.workers|;
    var r: nat, v: nat :| r < v < n && Turn(c, r, n) == Turn(c, v, n);
    var q := Turn(c, r, n);
    TurnBound(c, r, n);
    var p := RoutingNumber(run, r);
    var w := RoutingNumber(run, v);
    RouteIs(s, run, p, q);
    RouteIs(s, run, w, q);
    NotOnce(s, run, p, w, q);
  }

  // ----- stopping -----

  function Begins(run: seq<Step>, i: nat): nat {
    if run == [] then 0
    else Begins(run[..|run| - 1], i) + if Own(run[|run| - 1], i) && run[|run| - 1].act.Begin? then 1 else 0
  }

  // Worker i is past its test of the stop flag and has not begun the item it may yet find.
  predicate Past(t: State, i: nat) {
    i < |t.workers| && (t.workers[i].Popping? || t.workers[i].Stealing? || t.workers[i].Holding?)
  }

  lemma PastStep(t: State, step: Step, i: nat)
    requires Enabled(t, step) && i < |t.workers| && t.stop
    ensures Do(t, step).stop && |Do(t, step).workers| == |t.workers|
    ensures Past(Do(t, step), i) ==> Past(t, i)
    ensures Own(step, i) && step.act.Begin? ==> Past(t, i) && !Past(Do(t, step), i)
  {
    OthersKeep(t, step, i);
    StopKept(t, step);
    if Own(step, i) { PastOwn(t, step.act, i); }
    hide Do, Enabled;
  }

  lemma PastOwn(t: State, act: WorkerAct, i: nat)
    requires Enabled(t, ByWorker(i, act)) && t.stop
    ensures var u := Do(t, ByWorker(i, act));
            (Past(u, i) ==> Past(t, i)) && (act.Begin? ==> Past(t, i) && !Past(u, i))
  {
    hide Affect, Victim;
  }

  lemma StopKept(t: State, step: Step)
    requires Enabled(t, step) && t.stop
    ensures Do(t, step).stop
  {
    hide Counted, RemoveAt, WorkerNext, OutsideNext, ReleaseNext, EffectOf;
  }

  // Once the pool is stopped a worker begins at most one item more, and none unless it had already
  // passed its test of the flag.
  lemma {:induction false} LastItem(s: State, run: seq<Step>, i: nat)
    requires Legal(s, run) && s.stop && i < |s.workers|
    ensures After(s, run).stop && |After(s, run).workers| == |s.workers|
    ensures Begins(run, i) + (if Past(After(s, run), i) then 1 else 0) <= if Past(s, i) then 1 else 0
    decreases |run|
  {
    hide Enabled, Do, Past;
    if run != [] {
      var pre := run[..|run| - 1];
      LastItem(s, pre, i);
      PastStep(After(s, pre), run[|run| - 1], i);
    }
  }

  // ----- nested submissions -----

  // What worker i does to submit item w from within an item and come back for it.
  function Nested(i: nat, w: WorkId, waiter: Waiter, k: nat): seq<Step> {
    [ByWorker(i, Make(w, waiter)), ByWorker(i, Enqueue), ByWorker(i, Return), ByWorker(i, Finish),
     ByWorker(i, Check), ByWorker(i, Pop(k))]
  }

  // The part of a state these steps look at and change.
  datatype View = View(workers: seq<WorkerPc>, queues: seq<seq<WorkId>>, freed: seq<WorkId>, working: int,
                       submitRr: nat, stop: bool)

  function ViewOf(t: State): View {
    View(t.workers, t.queues, t.freed, t.working, t.submitRr, t.stop)
  }

  lemma AfterMake(t: State, i: nat, w: WorkId, waiter: Waiter)
    requires i < |t.workers| == |t.queues| && t.workers[i].Running? && t.workers[i].made.None?
    requires w !in t.made && (waiter.Some? ==> waiter.value in t.counters)
    ensures Enabled(t, ByWorker(i, Make(w, waiter)))
    ensures var u := Do(t, ByWorker(i, Make(w, waiter)));
            ViewOf(u) == ViewOf(t).(workers := t.workers[i := Running(t.workers[i].work, Some(w))])
  {
    hide Counted;
  }

  lemma AfterEnqueue(t: State, i: nat, w: WorkId)
    requires i < |t.workers| == |t.queues| && t.workers[i].Running? && t.workers[i].made == Some(w)
    ensures Enabled(t, ByWorker(i, Enqueue))
    ensures var u := Do(t, ByWorker(i, Enqueue));
            ViewOf(u) == ViewOf(t).(workers := t.workers[i := Running(t.workers[i].work, None)],
                                queues := t.queues[i := t.queues[i] + [w]])
  {
    hide Counted;
  }

  lemma AfterReturn(t: State, i: nat)
    requires i < |t.workers| == |t.queues| && t.workers[i].Running? && t.workers[i].made.None?
    ensures Enabled(t, ByWorker(i, Return))
    ensures var u := Do(t, ByWorker(i, Return));
            ViewOf(u) == ViewOf(t).(workers := t.workers[i := Finishing(t.workers[i].work)], working := t.working - 1)
  {
    hide Counted;
  }

  lemma AfterFinish(t: State, i: nat)
    requires i < |t.workers| == |t.queues| && t.workers[i].Finishing?
    ensures Enabled(t, ByWorker(i, Finish))
    ensures var u := Do(t, ByWorker(i, Finish));
            ViewOf(u) == ViewOf(t).(workers := t.workers[i := Checking], freed := t.freed + [t.workers[i].work])
  {
    hide Counted;
  }

  lemma AfterCheck(t: State, i: nat)
    requires i < |t.workers| == |t.queues| && t.workers[i].Checking? && !t.stop
    ensures Enabled(t, ByWorker(i, Check))
    ensures var u := Do(t, ByWorker(i, Check));
            ViewOf(u) == ViewOf(t).(workers := t.workers[i := Popping])
  {
    hide Counted;
  }

  lemma AfterLast(t: State, i: nat, q: seq<WorkId>, w: WorkId)
    requires i < |t.workers| == |t.queues| && t.workers[i].Popping? && t.queues[i] == q + [w]
    ensures Enabled(t, ByWorker(i, Pop(|q|)))
    ensures var u := Do(t, ByWorker(i, Pop(|q|)));
            ViewOf(u) == ViewOf(t).(workers := t.workers[i := Holding(w)], queues := t.queues[i := q])
  {
    hide Counted;
    assert RemoveAt(t.queues[i], |q|) == q;
  }

  // An item submitted by a running item waits behind what its worker has queued, and that worker can
  // take it from there as soon as it has finished, wherever the counter of the outside stands.
  lemma ComesBack(s: State, i: nat, w: WorkId, waiter: Waiter)
    requires i < |s.workers| == |s.queues| && s.workers[i].Running? && s.workers[i].made.None? && !s.stop
    requires w !in s.made && (waiter.Some? ==> waiter.value in s.counters)
    ensures var run := Nested(i, w, waiter, |s.queues[i]|);
            Legal(s, run) && After(s, run).queues == s.queues && After(s, run).submitRr == s.submitRr &&
            After(s, run).workers == s.workers[i := Holding(w)] &&
            After(s, run).freed == s.freed + [s.workers[i].work] && After(s, run).working == s.working - 1
  {
    hide Legal, After, Enabled, Do;
    var t, run := Returned(s, i, w, waiter);
    AfterFinish(t, i);
    t, run := Onward(s, run, ByWorker(i, Finish));
    AfterCheck(t, i);
    t, run := Onward(s, run, ByWorker(i, Check));
    AfterLast(t, i, s.queues[i], w);
    t, run := Onward(s, run, ByWorker(i, Pop(|s.queues[i]|)));
    assert run == Nested(i, w, waiter, |s.queues[i]|);
  }

  lemma Returned(s: State, i: nat, w: WorkId, waiter: Waiter) returns (t: State, run: seq<Step>)
    requires i < |s.workers| == |s.queues| && s.workers[i].Running? && s.workers[i].made.None?
    requires w !in s.made && (waiter.Some? ==> waiter.value in s.counters)
    ensures run == [ByWorker(i, Make(w, waiter)), ByWorker(i, Enqueue), ByWorker(i, Return)]
    ensures Legal(s, run) && t == After(s, run)
    ensures ViewOf(t) == ViewOf(s).(workers := s.workers[i := Finishing(s.workers[i].work)],
                                    queues := s.queues[i := s.queues[i] + [w]], working := s.working - 1)
  {
    hide Legal, After, Enabled, Do;
    LegalNone(s);
    AfterMake(s, i, w, waiter);
    t, run := Onward(s, [], ByWorker(i, Make(w, waiter)));
    AfterEnqueue(t, i, w);
    t, run := Onward(s, run, ByWorker(i, Enqueue));
    AfterReturn(t, i);
    t, run := Onward(s, run, ByWorker(i, Return));
  }

  lemma LegalNone(s: State)
    ensures Legal(s, []) && After(s, []) == s
  {
  }

  lemma Onward(s: State, run: seq<Step>, step: Step) returns (t: State, more: seq<Step>)
    requires Legal(s, run) && Enabled(After(s, run), step)
    ensures more == run + [step] && Legal(s, more) && t == After(s, more) == Do(After(s, run), step)
  {
    Extend(s, run, step);
    t, more := Do(After(s, run), step), run + [step];
  }
}
