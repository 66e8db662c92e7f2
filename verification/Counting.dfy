// Counting arguments shared by the models.
module Counting {
  lemma {:induction false} Pigeonhole(w: seq<int>, lo: int, hi: int)
    requires lo <= hi
    requires forall i: nat | i < |w| :: lo <= w[i] < hi
    requires forall i: nat, j: nat | i < j < |w| :: w[i] != w[j]
    ensures |w| <= hi - lo
    decreases hi - lo
  {
    if |w| > 0 {
      assert lo <= w[0] < hi;
      if i: nat :| i < |w| && w[i] == hi - 1 {
        var w' := w[..i] + w[i + 1..];
        Pigeonhole(w', lo, hi - 1);
      } else {
        Pigeonhole(w, lo, hi - 1);
      }
    }
  }
}
