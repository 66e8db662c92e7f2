// The theory of a Robin Hood table as a value: a cyclic sequence of buckets.
// The class in HashMap.dfy works in place on an array and uses these facts.
module RobinHood {
  import opened Counting

  // A key is a non-empty byte string: key size 0 is what marks a bucket as empty.
  datatype Key = Key(head: char, tail: string)

  type Value = string

  datatype Bucket = Empty | Entry(key: Key, value: Value, hash: nat, probe: nat)

  // ----- cyclic slot arithmetic -----

  function Next(i: nat, n: nat): (r: nat)
    requires i < n
    ensures r < n
  {
    if i + 1 == n then 0 else i + 1
  }

  function Prev(i: nat, n: nat): (r: nat)
    requires i < n
    ensures r < n && Next(r, n) == i
  {
    if i == 0 then n - 1 else i - 1
  }

  // Number of forward steps from slot a to slot b.
  function Dist(a: nat, b: nat, n: nat): (r: nat)
    requires a < n && b < n
    ensures r < n
  {
    if a <= b then b - a else b - a + n
  }

  // The slot k steps behind slot s.
  function Back(s: nat, k: nat, n: nat): (r: nat)
    requires s < n && k < n
    ensures r < n && Dist(r, s, n) == k
  {
    if k <= s then s - k else s - k + n
  }

  // The slot a hash belongs to: the hash reduced modulo the capacity (see HomeIsMod and
  // HomeIsMask), written so that no division enters the proofs about slots.
  function Home(hash: nat, n: nat): (r: nat)
    requires 0 < n
    ensures r < n
  {
    if hash < n then hash else Home(hash - n, n)
  }

  // ----- the invariant -----

  // The stored hash is the key's hash and the stored probe length is the true displacement.
  ghost predicate PlacedAt(t: seq<Bucket>, f: Key -> nat, i: nat)
    requires i < |t|
  {
    t[i].Entry? ==> t[i].hash == f(t[i].key) && t[i].probe == Dist(Home(t[i].hash, |t|), i, |t|)
  }

  // A displaced entry follows an entry that is at most one step closer to its home.
  ghost predicate OrderedAt(t: seq<Bucket>, i: nat)
    requires i < |t|
  {
    t[i].Entry? && t[i].probe > 0 ==>
      t[Prev(i, |t|)].Entry? && t[Prev(i, |t|)].probe + 1 >= t[i].probe
  }

  ghost predicate Placed(t: seq<Bucket>, f: Key -> nat) {
    forall i: nat | i < |t| :: PlacedAt(t, f, i)
  }

  ghost predicate Ordered(t: seq<Bucket>) {
    forall i: nat | i < |t| :: OrderedAt(t, i)
  }

  ghost predicate Distinct(t: seq<Bucket>) {
    forall i: nat, j: nat | i < |t| && j < |t| && t[i].Entry? && t[j].Entry? && t[i].key == t[j].key :: i == j
  }

  ghost predicate Table(t: seq<Bucket>, f: Key -> nat) {
    |t| > 1 && Placed(t, f) && Ordered(t) && Distinct(t)
  }

  ghost predicate Absent(t: seq<Bucket>, k: Key) {
    forall i: nat | i < |t| && t[i].Entry? :: t[i].key != k
  }

  // ----- the abstract map and the occupied slots -----

  ghost function Keys(t: seq<Bucket>): set<Key> {
    set i: nat | i < |t| && t[i].Entry? :: t[i].key
  }

  ghost function Contents(t: seq<Bucket>): map<Key, Value>
    requires Distinct(t)
  {
    map k | k in Keys(t) :: var i: nat :| i < |t| && t[i].Entry? && t[i].key == k; t[i].value
  }

  ghost function Occupied(t: seq<Bucket>): set<nat> {
    set i: nat | i < |t| && t[i].Entry?
  }

  ghost function Count(t: seq<Bucket>): nat {
    |Occupied(t)|
  }

  ghost predicate ProbesBelow(t: seq<Bucket>, m: nat) {
    forall i: nat | i < |t| && t[i].Entry? :: t[i].probe < m
  }

  lemma ContentsAt(t: seq<Bucket>, i: nat)
    requires Distinct(t) && i < |t| && t[i].Entry?
    ensures t[i].key in Contents(t) && Contents(t)[t[i].key] == t[i].value
  {
  }

  lemma ContentsKeys(t: seq<Bucket>, k: Key)
    requires Distinct(t)
    ensures Absent(t, k) <==> k !in Contents(t)
  {
    if !Absent(t, k) {
      var i: nat :| i < |t| && t[i].Entry? && t[i].key == k;
      ContentsAt(t, i);
    }
  }

  // Writing an absent key into any slot replaces that slot's binding and no other.
  lemma ContentsWrite(t: seq<Bucket>, i: nat, e: Bucket)
    requires Distinct(t) && i < |t| && e.Entry? && Absent(t, e.key)
    ensures Distinct(t[i := e])
    ensures Contents(t[i := e]) ==
            (if t[i].Entry? then Contents(t) - {t[i].key} else Contents(t))[e.key := e.value]
  {
    var u := t[i := e];
    var m := (if t[i].Entry? then Contents(t) - {t[i].key} else Contents(t))[e.key := e.value];
    forall k | k in Contents(u) ensures k in m && m[k] == Contents(u)[k] {
      var j: nat :| j < |u| && u[j].Entry? && u[j].key == k;
      ContentsAt(u, j);
      if j != i { ContentsAt(t, j); }
    }
    forall k | k in m ensures k in Contents(u) {
      if k == e.key {
        ContentsAt(u, i);
      } else {
        var j: nat :| j < |t| && t[j].Entry? && t[j].key == k;
        ContentsAt(u, j);
      }
    }
  }

  lemma ContentsClear(t: seq<Bucket>, i: nat)
    requires Distinct(t) && i < |t| && t[i].Entry?
    ensures Distinct(t[i := Empty])
    ensures Contents(t[i := Empty]) == Contents(t) - {t[i].key}
  {
    var u := t[i := Empty];
    var m := Contents(t) - {t[i].key};
    forall k | k in Contents(u) ensures k in m && m[k] == Contents(u)[k] {
      var j: nat :| j < |u| && u[j].Entry? && u[j].key == k;
      ContentsAt(u, j);
      ContentsAt(t, j);
    }
    forall k | k in m ensures k in Contents(u) {
      var j: nat :| j < |t| && t[j].Entry? && t[j].key == k;
      ContentsAt(u, j);
    }
  }

  lemma ContentsEmpty(t: seq<Bucket>)
    requires forall i: nat | i < |t| :: t[i].Empty?
    ensures Distinct(t) && Contents(t) == map[] && Count(t) == 0
  {
    assert Keys(t) == {};
    assert Occupied(t) == {};
  }

  // Distinct keys: the map has exactly one binding per occupied slot.
  lemma {:induction false} ContentsSize(t: seq<Bucket>)
    requires Distinct(t)
    ensures |Contents(t)| == Count(t)
    decreases Count(t)
  {
    if i: nat :| i < |t| && t[i].Entry? {
      ContentsClear(t, i);
      ContentsAt(t, i);
      var u := t[i := Empty];
      assert Occupied(u) == Occupied(t) - {i};
      assert i in Occupied(t);
      ContentsSize(u);
      var m := Contents(t);
      assert m.Keys == (m - {t[i].key}).Keys + {t[i].key};
      assert |m| == |m.Keys|;
      assert |Contents(u)| == |Contents(u).Keys|;
    } else {
      assert Occupied(t) == {};
      assert Contents(t) == map[];
    }
  }

  // ----- room -----

  ghost function Slots(n: nat): (r: set<nat>)
    ensures |r| == n
    ensures forall i: nat :: i in r <==> i < n
  {
    if n == 0 then {} else Slots(n - 1) + {n - 1}
  }

  lemma EmptySlot(t: seq<Bucket>) returns (z: nat)
    requires Count(t) < |t|
    ensures z < |t| && t[z].Empty?
  {
    assert Occupied(t) <= Slots(|t|);
    assert Occupied(t) != Slots(|t|);
    z :| z in Slots(|t|) && z !in Occupied(t);
  }

  // ----- the chain behind a displaced entry -----

  lemma {:induction false} Chain(t: seq<Bucket>, s: nat, k: nat)
    requires Ordered(t) && s < |t| && k < |t|
    requires t[s].Entry? && k <= t[s].probe
    ensures t[Back(s, k, |t|)].Entry? && t[Back(s, k, |t|)].probe + k >= t[s].probe
  {
    if k > 0 {
      Chain(t, s, k - 1);
      var j := Back(s, k - 1, |t|);
      assert OrderedAt(t, j);
      assert Prev(j, |t|) == Back(s, k, |t|);
    }
  }

  // No entry's path from its home crosses an empty slot.
  lemma NoCross(t: seq<Bucket>, s: nat, z: nat)
    requires Ordered(t) && s < |t| && z < |t| && t[s].Entry? && t[z].Empty?
    ensures t[s].probe < Dist(z, s, |t|)
  {
    if Dist(z, s, |t|) <= t[s].probe {
      Chain(t, s, Dist(z, s, |t|));
      assert false;
    }
  }

  // ----- looking a key up -----

  // Slot i is p steps past the home of k, and k was at none of the slots passed.
  ghost predicate Searched(t: seq<Bucket>, f: Key -> nat, k: Key, i: nat, p: nat)
    requires |t| > 0 && i < |t|
  {
    && p == Dist(Home(f(k), |t|), i, |t|)
    && forall j: nat | j < |t| && t[j].Entry? && t[j].key == k :: t[j].probe >= p
  }

  // The early stop is sound: a key not yet seen cannot lie beyond a richer or empty slot.
  lemma StopIsMiss(t: seq<Bucket>, f: Key -> nat, k: Key, i: nat, p: nat)
    requires Table(t, f) && i < |t| && Searched(t, f, k, i, p)
    requires t[i].Entry? ==> t[i].key != k && p > t[i].probe
    ensures Absent(t, k)
  {
    forall s: nat | s < |t| && t[s].Entry? ensures t[s].key != k {
      if t[s].key == k {
        assert PlacedAt(t, f, s);
        Chain(t, s, t[s].probe - p);
        assert false;
      }
    }
  }

  // Passing a slot that holds another key and is no richer keeps the search sound and in range.
  lemma SearchStep(t: seq<Bucket>, f: Key -> nat, k: Key, i: nat, p: nat, z: nat)
    requires Table(t, f) && i < |t| && z < |t| && t[z].Empty? && Searched(t, f, k, i, p)
    requires t[i].Entry? && t[i].key != k && p <= t[i].probe
    ensures Searched(t, f, k, Next(i, |t|), p + 1)
    ensures Dist(Next(i, |t|), z, |t|) < Dist(i, z, |t|)
  {
    NoCross(t, i, z);
    forall j: nat | j < |t| && t[j].Entry? && t[j].key == k ensures t[j].probe >= p + 1 {
      assert PlacedAt(t, f, j);
    }
  }

  // ----- carrying an entry forward -----

  // Entry e is held in hand at slot i, its probe length counted up to i.
  ghost predicate Held(t: seq<Bucket>, f: Key -> nat, e: Bucket, i: nat)
    requires |t| > 0 && i < |t|
  {
    && e.Entry? && e.hash == f(e.key)
    && e.probe == Dist(Home(e.hash, |t|), i, |t|)
    && (e.probe > 0 ==> t[Prev(i, |t|)].Entry? && t[Prev(i, |t|)].probe + 1 >= e.probe)
  }

  ghost predicate Carried(t: seq<Bucket>, f: Key -> nat, e: Bucket, i: nat)
    requires |t| > 0 && i < |t|
  {
    Held(t, f, e, i) && Absent(t, e.key)
  }

  // A held entry never outruns an empty slot.
  lemma HeldBehind(t: seq<Bucket>, f: Key -> nat, e: Bucket, i: nat, z: nat)
    requires Table(t, f) && i < |t| && z < |t| && t[z].Empty? && Held(t, f, e, i)
    ensures z != i ==> e.probe < Dist(z, i, |t|)
  {
    if z != i && e.probe > 0 {
      var j := Prev(i, |t|);
      NoCross(t, j, z);
    }
  }

  // All the slots a held entry has passed are occupied, so its probe length is at most the count.
  lemma HeldWithinCount(t: seq<Bucket>, f: Key -> nat, e: Bucket, i: nat)
    requires Table(t, f) && i < |t| && Held(t, f, e, i)
    ensures e.probe <= Count(t)
  {
    if e.probe > 0 {
      var j := Prev(i, |t|);
      var passed := PassedSlots(t, j, e.probe);
      assert Occupied(t) == passed + (Occupied(t) - passed);
    }
  }

  lemma {:induction false} PassedSlots(t: seq<Bucket>, s: nat, k: nat) returns (r: set<nat>)
    requires Ordered(t) && s < |t| && k < |t| && t[s].Entry? && k <= t[s].probe + 1
    ensures r <= Occupied(t) && |r| == k
    ensures forall x | x in r :: x < |t| && Dist(x, s, |t|) < k
  {
    r := {};
    if k > 0 {
      r := PassedSlots(t, s, k - 1);
      Chain(t, s, k - 1);
      assert Back(s, k - 1, |t|) !in r;
      r := r + {Back(s, k - 1, |t|)};
    }
  }

  // The held entry is at most as poor as the resident: it moves on.
  lemma Pass(t: seq<Bucket>, f: Key -> nat, e: Bucket, i: nat, z: nat)
    requires Table(t, f) && i < |t| && z < |t| && t[z].Empty? && Held(t, f, e, i)
    requires t[i].Entry? && e.probe <= t[i].probe
    ensures Held(t, f, e.(probe := e.probe + 1), Next(i, |t|))
    ensures Dist(Next(i, |t|), z, |t|) < Dist(i, z, |t|)
  {
    HeldBehind(t, f, e, i, z);
    assert Prev(Next(i, |t|), |t|) == i;
  }

  // The carried entry is poorer: it takes the slot and the resident is carried on.
  lemma Displace(t: seq<Bucket>, f: Key -> nat, e: Bucket, i: nat, z: nat)
    requires Table(t, f) && i < |t| && z < |t| && t[z].Empty? && Carried(t, f, e, i)
    requires t[i].Entry? && e.probe > t[i].probe
    ensures Table(t[i := e], f)
    ensures Carried(t[i := e], f, t[i].(probe := t[i].probe + 1), Next(i, |t|))
    ensures Dist(Next(i, |t|), z, |t|) < Dist(i, z, |t|)
    ensures Occupied(t[i := e]) == Occupied(t)
    ensures Contents(t[i := e])[t[i].key := t[i].value] == Contents(t)[e.key := e.value]
  {
    var u := t[i := e];
    var n := |t|;
    ContentsWrite(t, i, e);
    ContentsAt(t, i);
    NoCross(t, i, z);
    forall j: nat | j < n ensures PlacedAt(u, f, j) && OrderedAt(u, j) {
      assert PlacedAt(t, f, j) && OrderedAt(t, j);
      assert j != i && Prev(j, n) == i ==> j == Next(i, n);
    }
    assert PlacedAt(t, f, i);
    assert Prev(Next(i, n), n) == i;
  }

  // The carried entry reaches an empty slot and stays there.
  lemma Settle(t: seq<Bucket>, f: Key -> nat, e: Bucket, i: nat)
    requires Table(t, f) && i < |t| && Carried(t, f, e, i) && t[i].Empty?
    ensures Table(t[i := e], f)
    ensures Count(t[i := e]) == Count(t) + 1
    ensures Contents(t[i := e]) == Contents(t)[e.key := e.value]
  {
    var u := t[i := e];
    var n := |t|;
    ContentsWrite(t, i, e);
    forall j: nat | j < n ensures PlacedAt(u, f, j) && OrderedAt(u, j) {
      assert PlacedAt(t, f, j) && OrderedAt(t, j);
    }
    assert Occupied(u) == Occupied(t) + {i};
  }

  // ----- one insertion in progress -----

  // First write wins.
  ghost function Added(m: map<Key, Value>, key: Key, value: Value): map<Key, Value> {
    if key in m then m else m[key := value]
  }

  // The map m is being extended with key: entry e is in hand at slot i, slot z is empty, and seat
  // is the slot the new key took, or z as long as the new key is itself the entry in hand.
  ghost predicate Inserting(t: seq<Bucket>, f: Key -> nat, m: map<Key, Value>, key: Key, value: Value,
                            e: Bucket, i: nat, z: nat, seat: nat)
  {
    && Table(t, f) && i < |t| && z < |t| && seat < |t| && t[z].Empty? && Held(t, f, e, i)
    && (seat == z ==> e.key == key && e.value == value && Contents(t) == m && Searched(t, f, key, i, e.probe))
    && (seat != z ==> Absent(t, e.key) && key !in m && Contents(t)[e.key := e.value] == m[key := value] &&
                      t[seat].Entry? && t[seat].key == key && Dist(i, z, |t|) < Dist(seat, z, |t|))
  }

  lemma InsertStart(t: seq<Bucket>, f: Key -> nat, key: Key, value: Value, z: nat)
    requires Table(t, f) && z < |t| && t[z].Empty?
    ensures Inserting(t, f, Contents(t), key, value, Entry(key, value, f(key), 0), Home(f(key), |t|), z, z)
  {
  }

  // Once the new key has been seated, no later resident equals it or the entry in hand, so the
  // key comparisons that go on after a displacement never match; before that, equal keys have
  // equal stored hashes, so the comparison is exact.
  lemma MatchOnlyBeforeSeating(t: seq<Bucket>, f: Key -> nat, m: map<Key, Value>, key: Key, value: Value,
                               e: Bucket, i: nat, z: nat, seat: nat)
    requires Inserting(t, f, m, key, value, e, i, z, seat) && t[i].Entry?
    ensures seat != z ==> t[i].key != key && t[i].key != e.key
    ensures seat == z ==> e.key == key
    ensures t[i].hash == f(t[i].key)
  {
    assert PlacedAt(t, f, i);
  }

  // A resident with the inserted key is met only while the new entry is in hand, and then the
  // key was there from the start.
  lemma InsertFound(t: seq<Bucket>, f: Key -> nat, m: map<Key, Value>, key: Key, value: Value,
                    e: Bucket, i: nat, z: nat, seat: nat)
    requires Inserting(t, f, m, key, value, e, i, z, seat) && t[i].Entry?
    requires t[i].key == key || t[i].key == e.key
    ensures seat == z && Contents(t) == Added(m, key, value)
  {
    ContentsAt(t, i);
  }

  lemma InsertPass(t: seq<Bucket>, f: Key -> nat, m: map<Key, Value>, key: Key, value: Value,
                   e: Bucket, i: nat, z: nat, seat: nat)
    requires Inserting(t, f, m, key, value, e, i, z, seat)
    requires i < |t| && t[i].Entry? && e.probe <= t[i].probe && t[i].key != e.key
    ensures Inserting(t, f, m, key, value, e.(probe := e.probe + 1), Next(i, |t|), z, seat)
    ensures Dist(Next(i, |t|), z, |t|) < Dist(i, z, |t|)
  {
    Pass(t, f, e, i, z);
    if seat == z { SearchStep(t, f, key, i, e.probe, z); }
  }

  lemma InsertAbsent(t: seq<Bucket>, f: Key -> nat, m: map<Key, Value>, key: Key, value: Value,
                     e: Bucket, i: nat, z: nat, seat: nat)
    requires Inserting(t, f, m, key, value, e, i, z, seat)
    requires t[i].Entry? ==> t[i].key != e.key && e.probe > t[i].probe
    ensures Absent(t, e.key) && key !in m && Contents(t)[e.key := e.value] == m[key := value]
  {
    if seat == z {
      StopIsMiss(t, f, key, i, e.probe);
      ContentsKeys(t, key);
    }
  }

  lemma InsertDisplace(t: seq<Bucket>, f: Key -> nat, m: map<Key, Value>, key: Key, value: Value,
                       e: Bucket, i: nat, z: nat, seat: nat) returns (seat': nat)
    requires Inserting(t, f, m, key, value, e, i, z, seat)
    requires t[i].Entry? && e.probe > t[i].probe && t[i].key != e.key && t[i].key != key
    ensures seat' < |t|
    ensures Inserting(t[i := e], f, m, key, value, t[i].(probe := t[i].probe + 1), Next(i, |t|), z, seat')
    ensures Table(t[i := e], f) && Count(t[i := e]) == Count(t)
    ensures Dist(Next(i, |t|), z, |t|) < Dist(i, z, |t|)
  {
    InsertAbsent(t, f, m, key, value, e, i, z, seat);
    Displace(t, f, e, i, z);
    seat' := if seat == z then i else seat;
    assert i != z;
  }

  // One step of an insertion past an occupied slot.
  lemma InsertAdvance(t: seq<Bucket>, f: Key -> nat, m: map<Key, Value>, key: Key, value: Value,
                      e: Bucket, i: nat, z: nat, seat: nat, limit: nat) returns (seat': nat)
    requires Inserting(t, f, m, key, value, e, i, z, seat)
    requires i < |t| && e.Entry? && t[i].Entry? && t[i].key != e.key && t[i].key != key
    requires ProbesBelow(t, limit) && e.probe < limit
    ensures seat' < |t|
    ensures var t' := if e.probe > t[i].probe then t[i := e] else t;
            var e' := if e.probe > t[i].probe then t[i] else e;
            && Inserting(t', f, m, key, value, e'.(probe := e'.probe + 1), Next(i, |t|), z, seat')
            && Table(t', f) && Count(t') == Count(t) && ProbesBelow(t', limit)
    ensures Dist(Next(i, |t|), z, |t|) < Dist(i, z, |t|)
  {
    hide Inserting, Table, Count, Dist, Next;
    if e.probe > t[i].probe {
      seat' := InsertDisplace(t, f, m, key, value, e, i, z, seat);
    } else {
      InsertPass(t, f, m, key, value, e, i, z, seat);
      InsertTable(t, f, m, key, value, e, i, z, seat);
      seat' := seat;
    }
  }

  lemma InsertTable(t: seq<Bucket>, f: Key -> nat, m: map<Key, Value>, key: Key, value: Value,
                    e: Bucket, i: nat, z: nat, seat: nat)
    requires Inserting(t, f, m, key, value, e, i, z, seat)
    ensures Table(t, f) && seat < |t|
  {
  }

  lemma InsertSettle(t: seq<Bucket>, f: Key -> nat, m: map<Key, Value>, key: Key, value: Value,
                     e: Bucket, i: nat, z: nat, seat: nat, limit: nat)
    requires Inserting(t, f, m, key, value, e, i, z, seat) && t[i].Empty?
    requires ProbesBelow(t, limit) && e.probe < limit
    ensures Table(t[i := e], f) && Contents(t[i := e]) == Added(m, key, value)
    ensures Count(t[i := e]) == Count(t) + 1 && ProbesBelow(t[i := e], limit)
  {
    InsertAbsent(t, f, m, key, value, e, i, z, seat);
    Settle(t, f, e, i);
  }

  // When the entry in hand reaches the probe limit, adding it to the table is all that is left.
  lemma InsertLimit(t: seq<Bucket>, f: Key -> nat, m: map<Key, Value>, key: Key, value: Value,
                    e: Bucket, i: nat, z: nat, seat: nat, limit: nat)
    requires Inserting(t, f, m, key, value, e, i, z, seat) && ProbesBelow(t, limit) && limit <= e.probe
    ensures Added(Contents(t), e.key, e.value) == Added(m, key, value)
    ensures e.probe <= Count(t)
  {
    HeldWithinCount(t, f, e, i);
    ContentsKeys(t, e.key);
  }

  // ----- backward-shift deletion -----

  // Slot h is a hole where an entry of probe length v used to be: the table is a Robin Hood
  // table everywhere except that the slot after the hole may still hold a displaced entry.
  ghost predicate Hollow(t: seq<Bucket>, f: Key -> nat, h: nat, v: nat)
    requires h < |t|
  {
    && |t| > 1 && Placed(t, f) && Distinct(t) && t[h].Empty?
    && (forall j: nat | j < |t| && j != Next(h, |t|) :: OrderedAt(t, j))
    && (v > 0 ==> t[Prev(h, |t|)].Entry? && t[Prev(h, |t|)].probe + 1 >= v)
    && (t[Next(h, |t|)].Entry? ==> t[Next(h, |t|)].probe <= v + 1)
  }

  lemma Dig(t: seq<Bucket>, f: Key -> nat, h: nat)
    requires Table(t, f) && h < |t| && t[h].Entry?
    ensures Hollow(t[h := Empty], f, h, t[h].probe)
    ensures Contents(t[h := Empty]) == Contents(t) - {t[h].key}
    ensures Count(t[h := Empty]) == Count(t) - 1
  {
    var u := t[h := Empty];
    var n := |t|;
    ContentsClear(t, h);
    forall j: nat | j < n ensures PlacedAt(u, f, j) && (j != Next(h, n) ==> OrderedAt(u, j)) {
      assert PlacedAt(t, f, j) && OrderedAt(t, j);
    }
    assert OrderedAt(t, h) && OrderedAt(t, Next(h, n));
    assert Prev(Next(h, n), n) == h;
    assert h in Occupied(t) && Occupied(u) == Occupied(t) - {h};
  }

  // The table after one backward move into the hole at h.
  ghost function Shifted(t: seq<Bucket>, h: nat): (u: seq<Bucket>)
    requires h < |t| && t[Next(h, |t|)].Entry? && t[Next(h, |t|)].probe > 0
    ensures |u| == |t|
  {
    var i := Next(h, |t|);
    t[h := t[i].(probe := t[i].probe - 1)][i := Empty]
  }

  lemma ShiftPlaced(t: seq<Bucket>, f: Key -> nat, h: nat, v: nat, j: nat)
    requires h < |t| && j < |t| && Hollow(t, f, h, v)
    requires t[Next(h, |t|)].Entry? && t[Next(h, |t|)].probe > 0
    ensures PlacedAt(Shifted(t, h), f, j)
    ensures j != Next(Next(h, |t|), |t|) ==> OrderedAt(Shifted(t, h), j)
  {
    var n := |t|;
    var i := Next(h, n);
    assert PlacedAt(t, f, i) && PlacedAt(t, f, j);
    if j != i {
      assert OrderedAt(t, j);
    }
  }

  lemma ShiftContents(t: seq<Bucket>, h: nat)
    requires h < |t| && |t| > 1 && Distinct(t) && t[h].Empty?
    requires t[Next(h, |t|)].Entry? && t[Next(h, |t|)].probe > 0
    ensures Distinct(Shifted(t, h)) && Contents(Shifted(t, h)) == Contents(t)
  {
    var i := Next(h, |t|);
    var b := t[i].(probe := t[i].probe - 1);
    var w := t[i := Empty];
    hide Contents;
    ContentsAt(t, i);
    ContentsClear(t, i);
    ContentsWrite(w, h, b);
    assert Shifted(t, h) == w[h := b];
    assert (Contents(t) - {b.key})[b.key := b.value] == Contents(t);
  }

  lemma ShiftCount(t: seq<Bucket>, h: nat)
    requires h < |t| && |t| > 1 && t[h].Empty?
    requires t[Next(h, |t|)].Entry? && t[Next(h, |t|)].probe > 0
    ensures Count(Shifted(t, h)) == Count(t)
  {
    var i := Next(h, |t|);
    assert i in Occupied(t) && h !in Occupied(t);
    assert Occupied(Shifted(t, h)) == Occupied(t) - {i} + {h};
  }

  // One backward move: the hole advances, and the map and the count stay as they are.
  lemma Shift(t: seq<Bucket>, f: Key -> nat, h: nat, v: nat)
    requires h < |t| && Hollow(t, f, h, v)
    requires t[Next(h, |t|)].Entry? && t[Next(h, |t|)].probe > 0
    ensures Hollow(Shifted(t, h), f, Next(h, |t|), t[Next(h, |t|)].probe)
    ensures Contents(Shifted(t, h)) == Contents(t) && Count(Shifted(t, h)) == Count(t)
  {
    var i := Next(h, |t|);
    ShiftContents(t, h);
    ShiftCount(t, h);
    forall j: nat | j < |t| ensures PlacedAt(Shifted(t, h), f, j) {
      ShiftPlaced(t, f, h, v, j);
    }
    forall j: nat | j < |t| && j != Next(i, |t|) ensures OrderedAt(Shifted(t, h), j) {
      ShiftPlaced(t, f, h, v, j);
    }
    assert Prev(i, |t|) == h && Prev(Next(i, |t|), |t|) == i;
    assert OrderedAt(t, Next(i, |t|));
  }

  // The hole may be closed once the next slot is empty or at its home.
  lemma Close(t: seq<Bucket>, f: Key -> nat, h: nat, v: nat)
    requires h < |t| && Hollow(t, f, h, v)
    requires t[Next(h, |t|)].Entry? ==> t[Next(h, |t|)].probe == 0
    ensures Table(t, f)
  {
    assert OrderedAt(t, Next(h, |t|));
  }

  // ----- moving the buckets of one table into another -----

  // The buckets of t that are still to be moved when the first i have been.
  ghost function Rest(t: seq<Bucket>, i: nat): (r: seq<Bucket>)
    ensures |r| == |t|
  {
    seq(|t|, j requires 0 <= j < |t| => if j < i then Empty else t[j])
  }

  // The map m holds exactly what the first i buckets of t held.
  ghost predicate Moved(t: seq<Bucket>, i: nat, m: map<Key, Value>) {
    && Distinct(t) && Distinct(Rest(t, i))
    && m.Keys !! Contents(Rest(t, i)).Keys
    && m + Contents(Rest(t, i)) == Contents(t)
  }

  lemma MovedStart(t: seq<Bucket>)
    requires Distinct(t)
    ensures Moved(t, 0, map[])
  {
    assert Rest(t, 0) == t;
    assert map[] + Contents(t) == Contents(t);
  }

  lemma MovedSkip(t: seq<Bucket>, i: nat, m: map<Key, Value>)
    requires i < |t| && t[i].Empty? && Moved(t, i, m)
    ensures Moved(t, i + 1, m)
  {
    assert Rest(t, i + 1) == Rest(t, i);
  }

  lemma Transfer(m: map<Key, Value>, r: map<Key, Value>, k: Key, v: Value)
    requires m.Keys !! r.Keys && k in r && r[k] == v
    ensures k !in m && m[k := v].Keys !! (r - {k}).Keys
    ensures m[k := v] + (r - {k}) == m + r
  {
  }

  lemma MovedOne(t: seq<Bucket>, i: nat, m: map<Key, Value>)
    requires i < |t| && t[i].Entry? && Moved(t, i, m)
    ensures t[i].key !in m && Moved(t, i + 1, m[t[i].key := t[i].value])
  {
    var r := Rest(t, i);
    assert r[i] == t[i];
    assert Rest(t, i + 1) == r[i := Empty];
    ContentsAt(r, i);
    ContentsClear(r, i);
    Transfer(m, Contents(r), t[i].key, t[i].value);
  }

  lemma MovedEnd(t: seq<Bucket>, m: map<Key, Value>)
    requires Moved(t, |t|, m)
    ensures m == Contents(t)
  {
    ContentsEmpty(Rest(t, |t|));
    assert m + map[] == m;
  }

  // ----- doubling cannot lengthen the worst probe -----

  // The nearest empty slot behind s: the L slots up to and including s are all occupied.
  lemma {:induction false} NearestEmpty(t: seq<Bucket>, s: nat, z: nat, k: nat) returns (l: nat)
    requires s < |t| && z < |t| && t[z].Empty? && k <= Dist(z, s, |t|)
    requires forall j: nat | j < k :: t[Back(s, j, |t|)].Entry?
    ensures l < |t| && t[Back(s, l, |t|)].Empty?
    ensures forall j: nat | j < l :: t[Back(s, j, |t|)].Entry?
    decreases |t| - k
  {
    if t[Back(s, k, |t|)].Empty? {
      l := k;
    } else {
      assert Back(s, Dist(z, s, |t|), |t|) == z;
      l := NearestEmpty(t, s, z, k + 1);
    }
  }

  // Doubling the capacity keeps a home or moves it up by the old capacity.
  lemma {:induction false} HomeHalves(h: nat, c: nat)
    requires 0 < c
    ensures Home(h, c) == if Home(h, 2 * c) < c then Home(h, 2 * c) else Home(h, 2 * c) - c
  {
    if h >= 2 * c {
      HomeHalves(h - 2 * c, c);
      assert Home(h - c, c) == Home(h - c - c, c);
    }
  }

  // Every entry of u has its key and hash somewhere in t.
  ghost predicate From(u: seq<Bucket>, t: seq<Bucket>) {
    forall s: nat | s < |u| && u[s].Entry? :: exists o: nat :: SameEntry(u, s, t, o)
  }

  ghost predicate SameEntry(u: seq<Bucket>, s: nat, t: seq<Bucket>, o: nat)
  {
    s < |u| && o < |t| && u[s].Entry? && t[o].Entry? && u[s].key == t[o].key
  }

  lemma FromContents(u: seq<Bucket>, t: seq<Bucket>)
    requires Distinct(u) && Distinct(t) && Contents(u) == Contents(t)
    ensures From(u, t)
  {
    forall s: nat | s < |u| && u[s].Entry? ensures exists o: nat :: SameEntry(u, s, t, o) {
      ContentsAt(u, s);
      var o: nat :| o < |t| && t[o].Entry? && t[o].key == u[s].key;
      assert SameEntry(u, s, t, o);
    }
  }

  // How far behind s (in the doubled table) the old position of the entry j slots behind s lies.
  ghost function OldOffset(u: seq<Bucket>, t: seq<Bucket>, s: nat, j: nat): int
    requires s < |u| && j < |u| && From(u, t) && u[Back(s, j, |u|)].Entry?
  {
    var x := Back(s, j, |u|);
    var o: nat :| SameEntry(u, x, t, o);
    j + u[x].probe - t[o].probe
  }

  // Window counting. Behind an entry displaced by d lie l occupied slots up to an empty one; all
  // their homes are between that empty slot and the entry's home. If every old probe length was
  // below m, the same entries sat in distinct old slots of a window of l - 1 - d + m slots.
  lemma DoublingKeepsProbes(t: seq<Bucket>, u: seq<Bucket>, f: Key -> nat, m: nat)
    requires Table(t, f) && Table(u, f) && |u| == 2 * |t|
    requires Count(u) < |u| && ProbesBelow(t, m) && From(u, t)
    ensures ProbesBelow(u, m)
  {
    forall s: nat | s < |u| && u[s].Entry? ensures u[s].probe < m {
      var z := EmptySlot(u);
      var l := NearestEmpty(u, s, z, 0);
      var w := seq(l, j requires 0 <= j < l => OldOffset(u, t, s, j));
      forall j: nat | j < l ensures u[s].probe - m + 1 <= w[j] < l {
        OffsetInWindow(t, u, f, m, s, l, j);
      }
      forall i: nat, j: nat | i < j < l ensures w[i] != w[j] {
        OffsetsDiffer(t, u, f, s, i, j);
      }
      NoCross(u, s, Back(s, l, |u|));
      assert u[Back(s, 0, |u|)].Entry?;
      OffsetInWindow(t, u, f, m, s, l, 0);
      Pigeonhole(w, u[s].probe - m + 1, l);
    }
  }

  lemma OffsetInWindow(t: seq<Bucket>, u: seq<Bucket>, f: Key -> nat, m: nat, s: nat, l: nat, j: nat)
    requires Table(t, f) && Table(u, f) && ProbesBelow(t, m) && From(u, t)
    requires s < |u| && j < l < |u| && u[s].Entry? && u[Back(s, j, |u|)].Entry? && u[Back(s, l, |u|)].Empty?
    ensures u[s].probe - m + 1 <= OldOffset(u, t, s, j) < l
  {
    var n := |u|;
    var x := Back(s, j, n);
    NoCross(u, x, Back(s, l, n));
    assert Dist(Back(s, l, n), x, n) == l - j;
    if j <= u[s].probe { Chain(u, s, j); }
    var o: nat :| SameEntry(u, x, t, o) && OldOffset(u, t, s, j) == j + u[x].probe - t[o].probe;
  }

  ghost predicate SmallMultiple(d: int, c: nat) {
    d == -2 * c || d == -1 * c || d == 0 || d == c || d == 2 * c || d == 3 * c || d == 4 * c
  }

  // Slot a of the old table, named by its offset behind slot s of the doubled one.
  lemma OldSlot(s: nat, j: nat, x: nat, home: nat, p: nat, a: nat, q: nat, c: nat)
    requires s < 2 * c && j < 2 * c && x == Back(s, j, 2 * c)
    requires home < 2 * c && p == Dist(home, x, 2 * c)
    requires a < c && q == Dist(if home < c then home else home - c, a, c)
    ensures SmallMultiple(a - (s - (j + p - q)), c)
  {
  }

  lemma OffsetsDiffer(t: seq<Bucket>, u: seq<Bucket>, f: Key -> nat, s: nat, i: nat, j: nat)
    requires Table(t, f) && Table(u, f) && |u| == 2 * |t| && From(u, t)
    requires s < |u| && i < j < |u| && u[Back(s, i, |u|)].Entry? && u[Back(s, j, |u|)].Entry?
    ensures OldOffset(u, t, s, i) != OldOffset(u, t, s, j)
  {
    var a := OldOffsetSlot(t, u, f, s, i);
    var b := OldOffsetSlot(t, u, f, s, j);
    assert Back(s, i, |u|) != Back(s, j, |u|);
    assert t[a].key != t[b].key;
    assert a != b;
  }

  lemma OldOffsetSlot(t: seq<Bucket>, u: seq<Bucket>, f: Key -> nat, s: nat, j: nat) returns (a: nat)
    requires Table(t, f) && Table(u, f) && |u| == 2 * |t| && From(u, t)
    requires s < |u| && j < |u| && u[Back(s, j, |u|)].Entry?
    ensures a < |t| && t[a].Entry? && t[a].key == u[Back(s, j, |u|)].key
    ensures SmallMultiple(a - (s - OldOffset(u, t, s, j)), |t|)
  {
    var c := |t|;
    var x := Back(s, j, |u|);
    a :| SameEntry(u, x, t, a) && OldOffset(u, t, s, j) == j + u[x].probe - t[a].probe;
    assert PlacedAt(u, f, x) && PlacedAt(t, f, a);
    HomeHalves(u[x].hash, c);
    OldSlot(s, j, x, Home(u[x].hash, 2 * c), u[x].probe, a, t[a].probe, c);
  }
}
