// How many permutations the seeds of vector_shuffle can lead to.
module ShuffleSeeds {
  import opened Shuffle

  function Factorial(n: nat): nat {
    if n == 0 then 1 else n * Factorial(n - 1)
  }

  // ----- the orders of a set -----

  ghost function Prefixed<T(!new)>(x: T, ps: set<seq<T>>): set<seq<T>> {
    set p | p in ps :: [x] + p
  }

  // The orders of d that begin with an element of e.
  ghost function Beginning<T(!new)>(d: set<T>, e: set<T>): set<seq<T>>
    requires e <= d
    decreases |d|, |e| + 1
  {
    set x, p | x in e && p in OrdersWithout(d, x) :: [x] + p
  }

  ghost function OrdersWithout<T(!new)>(d: set<T>, x: T): set<seq<T>>
    decreases |d|, 0
  {
    if x in d then Smaller(d, x); Orders(d - {x}) else {}
  }

  lemma Smaller<T(!new)>(d: set<T>, x: T)
    requires x in d
    ensures |d - {x}| == |d| - 1
  {
  }

  ghost function Orders<T(!new)>(d: set<T>): set<seq<T>>
    decreases |d|, |d| + 2
  {
    if d == {} then {[]} else Beginning(d, d)
  }

  lemma {:induction false} OrderOf<T(!new)>(d: set<T>, p: seq<T>)
    requires p in Orders(d)
    ensures multiset(p) == multiset(d)
    decreases |d|
  {
    if d != {} {
      var x, q :| x in d && q in OrdersWithout(d, x) && p == [x] + q;
      Smaller(d, x);
      OrderOf(d - {x}, q);
      assert multiset(d) == multiset{x} + multiset(d - {x});
    }
  }

  lemma {:induction false} PrefixedSize<T(!new)>(x: T, ps: set<seq<T>>)
    ensures |Prefixed(x, ps)| == |ps|
    decreases |ps|
  {
    if ps == {} {
      assert Prefixed(x, ps) == {};
    } else {
      var p :| p in ps;
      PrefixedSize(x, ps - {p});
      assert ([x] + p)[1..] == p;
      assert forall q | q in ps - {p} :: ([x] + q)[1..] == q;
      assert [x] + p !in Prefixed(x, ps - {p});
      assert Prefixed(x, ps) == Prefixed(x, ps - {p}) + {[x] + p};
    }
  }

  lemma {:induction false} BeginningSize<T(!new)>(d: set<T>, e: set<T>)
    requires e <= d && d != {}
    ensures |Beginning(d, e)| == |e| * Factorial(|d| - 1)
    decreases |d|, |e|
  {
    if e == {} {
      assert Beginning(d, e) == {};
    } else {
      var x :| x in e;
      Smaller(d, x);
      Smaller(e, x);
      BeginningSize(d, e - {x});
      OrdersSize(d - {x});
      PrefixedSize(x, Orders(d - {x}));
      BeginningSplit(d, e, x);
    }
  }

  lemma BeginningSplit<T(!new)>(d: set<T>, e: set<T>, x: T)
    requires e <= d && x in e
    ensures |Beginning(d, e)| == |Beginning(d, e - {x})| + |Prefixed(x, Orders(d - {x}))|
  {
    var a, b := Beginning(d, e - {x}), Prefixed(x, Orders(d - {x}));
    assert Beginning(d, e) == a + b;
    forall p | p in a ensures p !in b {
      var y, q :| y in e - {x} && q in OrdersWithout(d, y) && p == [y] + q;
      assert p[0] == y;
    }
    assert a !! b;
  }

  // A set of n elements has n! orders.
  lemma {:induction false} OrdersSize<T(!new)>(d: set<T>)
    ensures |Orders(d)| == Factorial(|d|)
    decreases |d|, |d| + 1
  {
    if d != {} { BeginningSize(d, d); }
  }

  // ----- the permutations that put some elements in any order first -----

  lemma {:induction false} SeqOf<T(!new)>(m: multiset<T>) returns (r: seq<T>)
    ensures multiset(r) == m
    decreases |m|
  {
    if m == multiset{} {
      r := [];
    } else {
      var x :| x in m;
      r := SeqOf(m - multiset{x});
      r := [x] + r;
    }
  }

  ghost function Appended<T(!new)>(ps: set<seq<T>>, r: seq<T>): set<seq<T>> {
    set p | p in ps :: p + r
  }

  lemma {:induction false} AppendedSize<T(!new)>(ps: set<seq<T>>, r: seq<T>)
    ensures |Appended(ps, r)| == |ps|
    decreases |ps|
  {
    if ps == {} {
      assert Appended(ps, r) == {};
    } else {
      var p :| p in ps;
      AppendedSize(ps - {p}, r);
      forall q | q in ps - {p} ensures q + r != p + r {
        if |q| == |p| { assert (q + r)[..|q|] == q && (p + r)[..|p|] == p; }
      }
      assert Appended(ps, r) == Appended(ps - {p}, r) + {p + r};
    }
  }

  lemma {:induction false} Choose<T(!new)>(d: set<T>, n: nat) returns (e: set<T>)
    requires n <= |d|
    ensures e <= d && |e| == n
    decreases |d|
  {
    if n == |d| {
      e := d;
    } else {
      var x :| x in d;
      Smaller(d, x);
      e := Choose(d - {x}, n);
    }
  }

  // ----- counting the seeds -----

  // What the shuffle makes of s with a seed.
  ghost function Outcome<T(!new)>(s: seq<T>, hash: nat -> nat, seed: nat): seq<T>
    requires Is64(hash)
  {
    Shuffled(s, 0, Draws(seed, hash))
  }

  ghost function Outcomes<T(!new)>(s: seq<T>, hash: nat -> nat, n: nat): set<seq<T>>
    requires Is64(hash)
  {
    set k: nat | k < n :: Outcome(s, hash, k)
  }

  lemma {:induction false} OutcomesSize<T(!new)>(s: seq<T>, hash: nat -> nat, n: nat)
    requires Is64(hash)
    ensures |Outcomes(s, hash, n)| <= n
    decreases n
  {
    hide Outcome, Is64;
    if n == 0 {
      assert Outcomes(s, hash, 0) == {};
    } else {
      OutcomesSize(s, hash, n - 1);
      assert Outcomes(s, hash, n) == Outcomes(s, hash, n - 1) + {Outcome(s, hash, n - 1)};
    }
  }

  lemma {:induction false} SubsetSize<T(!new)>(a: set<T>, b: set<T>)
    requires a <= b
    ensures |a| <= |b|
    decreases |a|
  {
    if a != {} {
      var x :| x in a;
      SubsetSize(a - {x}, b - {x});
    }
  }

  ghost function Distinct<T(!new)>(s: seq<T>): set<T> {
    set x | x in s
  }

  lemma Factorial21()
    ensures Factorial(21) > MAX64 + 1
  {
    assert Factorial(7) == 5040;
    assert Factorial(14) == 87178291200;
  }

  lemma OrderedFirst<T(!new)>(s: seq<T>, d: set<T>) returns (r: seq<T>)
    requires d <= Distinct(s)
    ensures forall p | p in Orders(d) :: multiset(p + r) == multiset(s)
  {
    assert multiset(d) <= multiset(s);
    r := SeqOf(multiset(s) - multiset(d));
    forall p | p in Orders(d) ensures multiset(p + r) == multiset(s) { OrderOf(d, p); }
  }

  // With 21 different elements or more there are more permutations than seeds: whatever the hash
  // function, some permutation comes out for no seed.
  lemma SomePermutationMissed<T(!new)>(s: seq<T>, hash: nat -> nat) returns (t: seq<T>)
    requires Is64(hash) && |Distinct(s)| >= 21
    ensures multiset(t) == multiset(s)
    ensures forall seed: nat | seed <= MAX64 :: Shuffled(s, 0, Draws(seed, hash)) != t
  {
    hide Orders, Shuffled;
    var d := Choose(Distinct(s), 21);
    var r := OrderedFirst(s, d);
    var targets, reached := Appended(Orders(d), r), Outcomes(s, hash, MAX64 + 1);
    OrdersSize(d);
    AppendedSize(Orders(d), r);
    OutcomesSize(s, hash, MAX64 + 1);
    Factorial21();
    if targets <= reached { SubsetSize(targets, reached); }
    t :| t in targets && t !in reached;
    forall seed: nat | seed <= MAX64 ensures Shuffled(s, 0, Draws(seed, hash)) != t {
      assert Outcome(s, hash, seed) in reached;
    }
  }
}
