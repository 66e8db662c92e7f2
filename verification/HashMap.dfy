// The hash map of src/hashmap.c: open addressing with Robin Hood displacement.
module HashMaps {
  import opened RobinHood
  import opened Bits
  import opened Wrappers

  const INITIAL_CAPACITY: nat := 1024

  class HashMap {
    var buckets: array<Bucket>
    var size: nat
    var capacity: nat
    var maxProbes: nat
    // hash_func applied with the map's hash key, both fixed before the first insertion
    const hashOf: Key -> nat

    // A Robin Hood table with room for one more entry.
    ghost predicate Roomy()
      reads this, buckets
    {
      && buckets.Length == capacity
      && maxProbes > 0 && capacity == Pow2(maxProbes)
      && Table(buckets[..], hashOf)
      && size == Count(buckets[..]) < capacity
    }

    // Between operations, moreover, every stored probe length is below log2 of the capacity.
    ghost predicate Valid()
      reads this, buckets
    {
      Roomy() && ProbesBelow(buckets[..], maxProbes)
    }

    ghost function Map(): map<Key, Value>
      requires Table(buckets[..], hashOf)
      reads this, buckets
    {
      Contents(buckets[..])
    }

    lemma SizeIsMapSize()
      requires Valid()
      ensures size == |Map()|
    {
      ContentsSize(buckets[..]);
    }

    // On a machine with 64-bit sizes the 16-bit probe field never truncates.
    lemma ProbesFitSixteenBits()
      requires Valid() && BitLen(capacity) <= 64
      ensures forall i: nat | i < capacity && buckets[i].Entry? :: buckets[i].probe < 64 < 0x1_0000
    {
      Log2OfPow2(maxProbes);
      forall i: nat | i < capacity && buckets[i].Entry? ensures buckets[i].probe < 64 {
        assert buckets[i] == buckets[..][i];
      }
    }

    constructor (initialCapacity: nat, hashOf: Key -> nat)
      requires BitLen(initialCapacity + 1) <= 63
      ensures Valid() && fresh(buckets) && Map() == map[] && size == 0
      ensures this.hashOf == hashOf
      ensures initialCapacity == 0 ==> capacity == INITIAL_CAPACITY
      ensures initialCapacity > 0 ==> initialCapacity < capacity <= 2 * initialCapacity
    {
      var cap: nat := INITIAL_CAPACITY;
      ghost var k := 10;
      assert Pow2(10) == 1024;
      if initialCapacity != 0 {
        var r := RoundU64ToNextPow2(initialCapacity + 1);
        cap := r + 1;
        k := BitLen(initialCapacity);
      }
      assert cap == Pow2(k);
      Log2OfPow2(k);
      this.hashOf := hashOf;
      buckets := new Bucket[cap](_ => Empty);
      capacity := cap;
      size := 0;
      maxProbes := Log2(cap);
      new;
      EmptyTable(buckets[..], hashOf);
    }

    static lemma EmptyTable(t: seq<Bucket>, f: Key -> nat)
      requires |t| > 1 && forall i: nat | i < |t| :: t[i].Empty?
      ensures Table(t, f) && Contents(t) == map[] && Count(t) == 0
    {
      ContentsEmpty(t);
    }

    // hashmap_move_entry: no key comparison and no probe limit.
    method MoveEntry(entry: Bucket)
      requires Roomy()
      requires entry.Entry? && entry.hash == hashOf(entry.key) && entry.key !in Map()
      requires size + 1 < capacity
      modifies this`size, buckets
      ensures Roomy() && size == old(size) + 1
      ensures Map() == old(Map())[entry.key := entry.value]
    {
      var e := entry.(probe := 0);
      var index: nat := Home(e.hash, capacity);
      ContentsKeys(buckets[..], e.key);
      ghost var z := EmptySlot(buckets[..]);
      while true
        invariant Roomy() && size == old(size)
        invariant index < capacity && z < capacity && buckets[z].Empty?
        invariant Carried(buckets[..], hashOf, e, index)
        invariant Map()[e.key := e.value] == old(Map())[entry.key := entry.value]
        decreases Dist(index, z, capacity)
      {
        ghost var t := buckets[..];
        if buckets[index].Entry? {
          if e.probe > buckets[index].probe {
            Displace(t, hashOf, e, index, z);
            var tmp := e;
            e := buckets[index];
            buckets[index] := tmp;
            assert buckets[..] == t[index := tmp];
          } else {
            Pass(t, hashOf, e, index, z);
          }
          index := Next(index, capacity);
          e := e.(probe := e.probe + 1);
        } else {
          Settle(t, hashOf, e, index);
          buckets[index] := e;
          assert buckets[..] == t[index := e];
          size := size + 1;
          return;
        }
      }
    }

    // The loop of hashmap_grow over the old buckets.
    method MoveAll(oldBuckets: array<Bucket>)
      requires Roomy() && size == 0 && Map() == map[]
      requires oldBuckets != buckets && Table(oldBuckets[..], hashOf) && 2 * oldBuckets.Length == capacity
      modifies this`size, buckets
      ensures Roomy() && Map() == Contents(oldBuckets[..])
    {
      hide Contents, Moved, Count;
      ghost var t := oldBuckets[..];
      MovedStart(t);
      for i := 0 to oldBuckets.Length
        invariant Roomy() && size <= i && oldBuckets[..] == t && Moved(t, i, Map())
      {
        if oldBuckets[i].Entry? {
          assert PlacedAt(t, hashOf, i);
          MovedOne(t, i, Map());
          MoveEntry(oldBuckets[i]);
        } else {
          MovedSkip(t, i, Map());
        }
      }
      MovedEnd(t, Map());
    }

    // hashmap_grow, called with the capacity that hashmap_get_new_capacity computes.
    method Grow(newCapacity: nat)
      requires Valid() && newCapacity == 2 * capacity
      modifies this
      ensures Valid() && fresh(buckets)
      ensures capacity == newCapacity && maxProbes == old(maxProbes) + 1
      ensures Map() == old(Map()) && size == old(size)
      ensures ProbesBelow(buckets[..], old(maxProbes))
    {
      var oldBuckets := buckets;
      ghost var t, k := buckets[..], maxProbes;
      buckets := new Bucket[newCapacity](_ => Empty);
      capacity := newCapacity;
      size := 0;
      Log2OfPow2(k + 1);
      maxProbes := Log2(capacity);
      EmptyTable(buckets[..], hashOf);
      MoveAll(oldBuckets);
      ContentsSize(t);
      ContentsSize(buckets[..]);
      FromContents(buckets[..], t);
      DoublingKeepsProbes(t, buckets[..], hashOf, k);
    }

    // The load limit of 0.9.
    static predicate Fits(n: nat, capacity: nat) {
      10 * n <= 9 * capacity
    }

    static lemma FitsLess(n: nat, capacity: nat)
      requires Fits(n + 1, capacity)
      ensures Fits(n, capacity)
    {
    }

    // The load test that opens both insertions: (size + 1) > capacity * 0.9.
    method MakeRoom()
      requires Valid()
      modifies this
      ensures Valid() && (buckets == old(buckets) || fresh(buckets))
      ensures Map() == old(Map()) && size == old(size) && size + 1 < capacity && Fits(size + 1, capacity)
      ensures capacity == if !Fits(size + 1, old(capacity)) then 2 * old(capacity) else old(capacity)
      ensures maxProbes == old(maxProbes) || maxProbes == old(maxProbes) + 1
    {
      if !Fits(size + 1, capacity) {
        NextPow2Doubles(maxProbes);
        Grow(NextPow2(capacity));
      }
    }

    // The carried entry has reached the probe limit: double the table and insert it there. The
    // recursion ends because the limit rises while a probe length cannot exceed the size.
    method Regrow(entry: Bucket)
      requires Valid() && entry.Entry? && maxProbes <= entry.probe <= size
      modifies this, buckets
      ensures Valid() && (buckets == old(buckets) || fresh(buckets))
      ensures maxProbes > old(maxProbes)
      ensures Map() == Added(old(Map()), entry.key, entry.value)
      ensures Fits(size, capacity)
      decreases size - maxProbes, 0
    {
      NextPow2Doubles(maxProbes);
      Grow(NextPow2(capacity));
      InsertBucket(entry);
    }

    // hashmap_insert_bucket: places an entry that was being carried when the table had to grow.
    // The hash compared with is always that of the first entry, even after a displacement.
    method InsertBucket(entry: Bucket)
      requires Valid() && entry.Entry?
      modifies this, buckets
      ensures Valid() && (buckets == old(buckets) || fresh(buckets))
      ensures maxProbes >= old(maxProbes)
      ensures Map() == Added(old(Map()), entry.key, entry.value)
      ensures Fits(size, capacity)
      decreases size - maxProbes, 1
    {
      hide Contents, Count, Table, Inserting, Added, Home, Next, Dist, Pow2, ProbesBelow, Fits;
      ghost var m := Map();
      MakeRoom();
      FitsLess(size, capacity);
      var hash := hashOf(entry.key);
      var e := entry.(hash := hash, probe := 0);
      var index: nat := Home(hash, capacity);
      ghost var z := EmptySlot(buckets[..]);
      ghost var seat: nat := z;
      InsertStart(buckets[..], hashOf, entry.key, entry.value, z);
      while true
        invariant Valid() && (buckets == old(buckets) || fresh(buckets))
        invariant size == old(size) && size + 1 < capacity && maxProbes >= old(maxProbes)
        invariant Fits(size, capacity) && Fits(size + 1, capacity)
        invariant index < capacity && z < capacity
        invariant e.Entry? && e.probe < maxProbes
        invariant Inserting(buckets[..], hashOf, m, entry.key, entry.value, e, index, z, seat)
        decreases Dist(index, z, capacity)
      {
        ghost var t := buckets[..];
        if buckets[index].Entry? {
          MatchOnlyBeforeSeating(t, hashOf, m, entry.key, entry.value, e, index, z, seat);
          if buckets[index].hash == hash && buckets[index].key == e.key {
            InsertFound(t, hashOf, m, entry.key, entry.value, e, index, z, seat);
            return;
          }
          seat := InsertAdvance(t, hashOf, m, entry.key, entry.value, e, index, z, seat, maxProbes);
          if e.probe > buckets[index].probe {
            var tmp := e;
            e := buckets[index];
            buckets[index] := tmp;
            assert buckets[..] == t[index := tmp];
          }
          index := Next(index, capacity);
          e := e.(probe := e.probe + 1);
          if e.probe >= maxProbes {
            InsertLimit(buckets[..], hashOf, m, entry.key, entry.value, e, index, z, seat, maxProbes);
            Regrow(e);
            return;
          }
        } else {
          InsertSettle(t, hashOf, m, entry.key, entry.value, e, index, z, seat, maxProbes);
          buckets[index] := e;
          assert buckets[..] == t[index := e];
          size := size + 1;
          return;
        }
      }
    }

    // hashmap_insert: the first value written for a key stays. After a displacement the loop still
    // compares residents with the key given, not with the entry in hand.
    method Insert(key: Key, value: Value)
      requires Valid()
      modifies this, buckets
      ensures Valid() && (buckets == old(buckets) || fresh(buckets))
      ensures maxProbes >= old(maxProbes)
      ensures Map() == Added(old(Map()), key, value)
      ensures Fits(size, capacity)
    {
      hide Contents, Count, Table, Inserting, Added, Home, Next, Dist, Pow2, ProbesBelow, Fits;
      ghost var m := Map();
      MakeRoom();
      FitsLess(size, capacity);
      var hash := hashOf(key);
      var e := Entry(key, value, hash, 0);
      var index: nat := Home(hash, capacity);
      ghost var z := EmptySlot(buckets[..]);
      ghost var seat: nat := z;
      InsertStart(buckets[..], hashOf, key, value, z);
      while true
        invariant Valid() && (buckets == old(buckets) || fresh(buckets))
        invariant size + 1 < capacity && maxProbes >= old(maxProbes)
        invariant Fits(size, capacity) && Fits(size + 1, capacity)
        invariant index < capacity && z < capacity
        invariant e.Entry? && e.probe < maxProbes
        invariant Inserting(buckets[..], hashOf, m, key, value, e, index, z, seat)
        decreases Dist(index, z, capacity)
      {
        ghost var t := buckets[..];
        if buckets[index].Entry? {
          MatchOnlyBeforeSeating(t, hashOf, m, key, value, e, index, z, seat);
          if buckets[index].hash == hash && buckets[index].key == key {
            InsertFound(t, hashOf, m, key, value, e, index, z, seat);
            return;
          }
          seat := InsertAdvance(t, hashOf, m, key, value, e, index, z, seat, maxProbes);
          if e.probe > buckets[index].probe {
            var tmp := e;
            e := buckets[index];
            buckets[index] := tmp;
            assert buckets[..] == t[index := tmp];
          }
          index := Next(index, capacity);
          e := e.(probe := e.probe + 1);
          if e.probe >= maxProbes {
            InsertLimit(buckets[..], hashOf, m, key, value, e, index, z, seat, maxProbes);
            Regrow(e);
            return;
          }
        } else {
          InsertSettle(t, hashOf, m, key, value, e, index, z, seat, maxProbes);
          buckets[index] := e;
          assert buckets[..] == t[index := e];
          size := size + 1;
          return;
        }
      }
    }

    // hashmap_get. The ghost result counts the buckets looked at.
    method Get(key: Key) returns (r: Option<Value>, ghost visited: nat)
      requires Valid()
      ensures r == if key in Map() then Some(Map()[key]) else None
      ensures visited <= maxProbes + 1
    {
      hide Count;
      var hash := hashOf(key);
      var index: nat := Home(hash, capacity);
      var probe := 0;
      ghost var t := buckets[..];
      ghost var z := EmptySlot(t);
      while true
        invariant index < capacity && Searched(t, hashOf, key, index, probe)
        invariant probe <= maxProbes
        decreases Dist(index, z, capacity)
      {
        visited := probe + 1;
        assert PlacedAt(t, hashOf, index);
        if buckets[index].Entry? && buckets[index].hash == hash && buckets[index].key == key {
          ContentsAt(t, index);
          return Some(buckets[index].value), visited;
        }
        if buckets[index].Empty? || probe > buckets[index].probe {
          StopIsMiss(t, hashOf, key, index, probe);
          ContentsKeys(t, key);
          return None, visited;
        }
        SearchStep(t, hashOf, key, index, probe, z);
        index := Next(index, capacity);
        probe := probe + 1;
      }
    }

    // hashmap_remove: finds the key, then shifts displaced followers back by one slot each.
    method Remove(key: Key)
      requires Valid()
      modifies this`size, buckets
      ensures Valid()
      ensures Map() == old(Map()) - {key}
    {
      hide Count;
      var hash := hashOf(key);
      var index: nat := Home(hash, capacity);
      var probe := 0;
      ghost var t := buckets[..];
      ghost var z := EmptySlot(t);
      ContentsSize(t);
      while true
        invariant Valid() && size == old(size) && buckets[..] == t
        invariant index < capacity && Searched(t, hashOf, key, index, probe)
        decreases Dist(index, z, capacity)
      {
        assert PlacedAt(t, hashOf, index);
        if buckets[index].Empty? || probe > buckets[index].probe {
          StopIsMiss(t, hashOf, key, index, probe);
          ContentsKeys(t, key);
          return;
        }
        if buckets[index].hash == hash && buckets[index].key == key {
          ContentsAt(t, index);
          assert Map().Keys != {};
          size := size - 1;
          ShiftBack(index, z);
          return;
        }
        SearchStep(t, hashOf, key, index, probe, z);
        index := Next(index, capacity);
        probe := probe + 1;
      }
    }

    // The inner loop of hashmap_remove, from the bucket that was just freed.
    method ShiftBack(start: nat, ghost z: nat)
      requires buckets.Length == capacity == Pow2(maxProbes)
      requires Table(buckets[..], hashOf) && ProbesBelow(buckets[..], maxProbes)
      requires start < capacity && buckets[start].Entry? && z < capacity && buckets[z].Empty?
      modifies buckets
      ensures Table(buckets[..], hashOf) && ProbesBelow(buckets[..], maxProbes)
      ensures Map() == old(Map()) - {old(buckets[start].key)}
      ensures Count(buckets[..]) == old(Count(buckets[..])) - 1
    {
      hide Contents, Count;
      ghost var t0, v := buckets[..], buckets[start].probe;
      var hole := start;
      Dig(t0, hashOf, hole);
      while true
        invariant hole < capacity && z != hole && buckets[z].Empty?
        invariant Hollow(buckets[..][hole := Empty], hashOf, hole, v)
        invariant ProbesBelow(buckets[..][hole := Empty], maxProbes)
        invariant Contents(buckets[..][hole := Empty]) == Contents(t0) - {t0[start].key}
        invariant Count(buckets[..][hole := Empty]) == Count(t0) - 1
        decreases Dist(hole, z, capacity)
      {
        buckets[hole] := Empty;
        ghost var t := buckets[..];
        var index := Next(hole, capacity);
        if buckets[index].Empty? || buckets[index].probe == 0 {
          Close(t, hashOf, hole, v);
          return;
        }
        Shift(t, hashOf, hole, v);
        v := buckets[index].probe;
        buckets[index] := buckets[index].(probe := buckets[index].probe - 1);
        buckets[hole] := buckets[index];
        assert buckets[..][index := Empty] == Shifted(t, hole);
        hole := index;
      }
    }

    // hashmap_iterate: the next occupied bucket at or after it.
    method Iterate(it: nat) returns (found: bool, next: nat, entry: Bucket)
      requires Valid()
      ensures !found ==> next == it && forall j: nat | it <= j < capacity :: buckets[j].Empty?
      ensures found ==> it < next <= capacity && entry == buckets[next - 1] && entry.Entry?
      ensures found ==> forall j: nat | it <= j < next - 1 :: buckets[j].Empty?
    {
      var i := it;
      while i < capacity
        invariant it <= i && forall j: nat | it <= j < i && j < capacity :: buckets[j].Empty?
      {
        if buckets[i].Entry? {
          return true, i + 1, buckets[i];
        }
        i := i + 1;
      }
      return false, it, Empty;
    }

    // A full pass, as callers write it: every binding of the map exactly once.
    method IterateAll() returns (entries: seq<(Key, Value)>)
      requires Valid()
      ensures |entries| == size
      ensures forall i: nat, j: nat | i < j < |entries| :: entries[i].0 != entries[j].0
      ensures forall k, v :: (k, v) in entries <==> k in Map() && Map()[k] == v
    {
      ghost var t := buckets[..];
      ghost var slots: seq<nat> := [];
      entries := [];
      var it: nat := 0;
      var found, next, entry := Iterate(it);
      while found
        invariant found ==> it < next <= capacity && entry == t[next - 1] && entry.Entry?
        invariant found ==> forall j: nat | it <= j < next - 1 :: t[j].Empty?
        invariant !found ==> forall j: nat | it <= j < capacity :: t[j].Empty?
        invariant it <= capacity && Listed(t, it, slots, entries)
        decreases capacity - it, found
      {
        ListOne(t, it, next - 1, slots, entries);
        entries := entries + [(entry.key, entry.value)];
        slots := slots + [next - 1];
        it := next;
        found, next, entry := Iterate(it);
      }
      ListEnd(t, it, slots, entries);
    }
  }

  // The entries are those of the occupied slots below it, in slot order.
  ghost predicate Listed(t: seq<Bucket>, it: nat, slots: seq<nat>, entries: seq<(Key, Value)>) {
    && |slots| == |entries|
    && (forall i: nat | i < |slots| :: slots[i] < it && slots[i] < |t| && t[slots[i]].Entry? &&
                                       entries[i] == (t[slots[i]].key, t[slots[i]].value))
    && (forall i: nat, j: nat | i < j < |slots| :: slots[i] < slots[j])
    && (forall j: nat | j < it && j < |t| && t[j].Entry? :: j in slots)
  }

  lemma ListOne(t: seq<Bucket>, it: nat, s: nat, slots: seq<nat>, entries: seq<(Key, Value)>)
    requires Listed(t, it, slots, entries) && it <= s < |t| && t[s].Entry?
    requires forall j: nat | it <= j < s :: t[j].Empty?
    ensures Listed(t, s + 1, slots + [s], entries + [(t[s].key, t[s].value)])
  {
    var slots' := slots + [s];
    forall j: nat | j < s + 1 && t[j].Entry? ensures j in slots' {
      assert j == s ==> slots'[|slots|] == s;
    }
  }

  lemma ListEnd(t: seq<Bucket>, it: nat, slots: seq<nat>, entries: seq<(Key, Value)>)
    requires Distinct(t) && Listed(t, it, slots, entries)
    requires forall j: nat | it <= j < |t| :: t[j].Empty?
    ensures |entries| == Count(t)
    ensures forall i: nat, j: nat | i < j < |entries| :: entries[i].0 != entries[j].0
    ensures forall k, v :: (k, v) in entries <==> k in Contents(t) && Contents(t)[k] == v
  {
    assert Occupied(t) == SlotSet(slots);
    SlotSetSize(slots);
    forall k, v ensures (k, v) in entries <==> k in Contents(t) && Contents(t)[k] == v {
      if (k, v) in entries {
        var i: nat :| i < |entries| && entries[i] == (k, v);
        ContentsAt(t, slots[i]);
      }
      if k in Contents(t) && Contents(t)[k] == v {
        var j: nat :| j < |t| && t[j].Entry? && t[j].key == k;
        ContentsAt(t, j);
        assert j in slots;
      }
    }
  }

  ghost function SlotSet(s: seq<nat>): set<nat> {
    set x | x in s
  }

  lemma {:induction false} SlotSetSize(s: seq<nat>)
    requires forall i: nat, j: nat | i < j < |s| :: s[i] < s[j]
    ensures |SlotSet(s)| == |s|
  {
    if s == [] {
      assert SlotSet(s) == {};
    } else {
      var n := |s| - 1;
      SlotSetSize(s[..n]);
      assert s[n] !in SlotSet(s[..n]);
      assert SlotSet(s) == SlotSet(s[..n]) + {s[n]};
    }
  }

  // ----- hashmap_index -----

  // Reducing to a slot is the remainder by the capacity ...
  lemma HomeIsMod(h: nat, n: nat)
    requires 0 < n
    ensures Home(h, n) == h % n
  {
    var q := HomeQuotient(h, n);
    ModUnique(h, n, q, Home(h, n));
  }

  lemma {:induction false} HomeQuotient(h: nat, n: nat) returns (q: nat)
    requires 0 < n
    ensures h == n * q + Home(h, n)
  {
    q := 0;
    if h >= n {
      q := HomeQuotient(h - n, n);
      assert n * (q + 1) == n * q + n;
      q := q + 1;
    }
  }

  lemma {:induction false} HomeOfDouble(h: nat, n: nat)
    requires 0 < n
    ensures Home(h, 2 * n) == 2 * Home(h / 2, n) + h % 2
  {
    if h >= 2 * n { HomeOfDouble(h - 2 * n, n); }
  }

  // ... and for a power of two it is what masking with capacity - 1 computes.
  lemma {:induction false} HomeIsMask(h: nat, k: nat)
    ensures Home(h, Pow2(k)) == And(h, Pow2(k) - 1)
    decreases k
  {
    if k == 0 {
      HomeIsMod(h, 1);
    } else {
      HomeIsMask(h / 2, k - 1);
      HomeOfDouble(h, Pow2(k - 1));
    }
  }

  lemma {:induction false} NextIsMask(i: nat, k: nat)
    requires i < Pow2(k)
    ensures Next(i, Pow2(k)) == And(i + 1, Pow2(k) - 1)
  {
    HomeIsMask(i + 1, k);
  }

  // ----- whole runs -----

  datatype Op = InsertOp(key: Key, value: Value) | GetOp(key: Key) | RemoveOp(key: Key)

  // What a finite map answers to the lookups of a sequence of operations, and what it becomes.
  ghost function MapAfter(m: map<Key, Value>, ops: seq<Op>): map<Key, Value> {
    if ops == [] then m else
    var p := MapAfter(m, ops[..|ops| - 1]);
    match ops[|ops| - 1]
    case InsertOp(k, v) => Added(p, k, v)
    case GetOp(_) => p
    case RemoveOp(k) => p - {k}
  }

  ghost function Answers(m: map<Key, Value>, ops: seq<Op>): seq<Option<Value>> {
    if ops == [] then [] else
    var last := ops[|ops| - 1];
    var p := MapAfter(m, ops[..|ops| - 1]);
    Answers(m, ops[..|ops| - 1]) +
    if last.GetOp? then [if last.key in p then Some(p[last.key]) else None] else []
  }

  // Every run of the table is a run of the map, and the table is valid throughout: the capacity
  // stays a power of two that never shrinks and every probe length stays below its logarithm.
  method Run(h: HashMap, ops: seq<Op>) returns (answers: seq<Option<Value>>)
    requires h.Valid()
    modifies h, h.buckets
    ensures h.Valid() && (h.buckets == old(h.buckets) || fresh(h.buckets))
    ensures answers == Answers(old(h.Map()), ops)
    ensures h.Map() == MapAfter(old(h.Map()), ops)
    ensures h.maxProbes >= old(h.maxProbes)
  {
    answers := [];
    for i := 0 to |ops|
      invariant h.Valid() && (h.buckets == old(h.buckets) || fresh(h.buckets))
      invariant answers == Answers(old(h.Map()), ops[..i])
      invariant h.Map() == MapAfter(old(h.Map()), ops[..i])
      invariant h.maxProbes >= old(h.maxProbes)
    {
      assert ops[..i + 1][..i] == ops[..i];
      match ops[i] {
        case InsertOp(k, v) => h.Insert(k, v);
        case GetOp(k) =>
          var r, _ := h.Get(k);
          answers := answers + [r];
        case RemoveOp(k) => h.Remove(k);
      }
    }
    assert ops[..|ops|] == ops;
  }
}
