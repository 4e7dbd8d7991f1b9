/** `iterate_slice_in_triplets!`: a walk over the indices of a slice of
    length `max` in which every index `k` is visited together with the two
    indices before it, counted cyclically. */
module Triplets {

  /** The values of the three loop variables when the body runs. */
  datatype Triplet = Triplet(i: nat, j: nat, k: nat)

  /** The triplet of the `n`-th run of the body. */
  function TripletAt(max: nat, n: nat): Triplet
    requires max >= 2
  {
    Triplet((n + max - 2) % max, (n + max - 1) % max, n)
  }

  /** For every index `k` of the slice, `i` and `j` are the two indices
      before it, wrapping round from the start to the end. */
  lemma TripletCyclic(max: nat, n: nat)
    requires max >= 2 && n < max
    ensures TripletAt(max, n).i < max && TripletAt(max, n).j < max && TripletAt(max, n).k == n
    ensures (TripletAt(max, n).i + 1) % max == TripletAt(max, n).j
    ensures (TripletAt(max, n).j + 1) % max == n
    ensures n == 0 ==> TripletAt(max, n).i == max - 2 && TripletAt(max, n).j == max - 1
    ensures n == 1 ==> TripletAt(max, n).i == max - 1 && TripletAt(max, n).j == 0
    ensures n >= 2 ==> TripletAt(max, n).i == n - 2 && TripletAt(max, n).j == n - 1
  {
    var t := TripletAt(max, n);
    if n >= 2 {
      ModShift(n - 2, max);
      ModShift(n - 1, max);
      assert t.i == n - 2 && t.j == n - 1;
      ModSmall(n - 1, max);
      ModSmall(n, max);
    } else if n == 1 {
      ModSmall(max - 1, max);
      ModShift(0, max);
      assert t.i == max - 1 && t.j == 0;
      ModSmall(1, max);
    } else {
      ModSmall(max - 2, max);
      ModSmall(max - 1, max);
      assert t.i == max - 2 && t.j == max - 1;
      ModShift(0, max);
    }
  }

  /** Each run shifts the window by one: the new `i` is the old `j` and the
      new `j` the old `k`. */
  lemma TripletShift(max: nat, n: nat)
    requires max >= 2 && 0 < n < max
    ensures TripletAt(max, n).i == TripletAt(max, n - 1).j
    ensures TripletAt(max, n).j == TripletAt(max, n - 1).k
  {
    TripletCyclic(max, n);
    TripletCyclic(max, n - 1);
  }

  lemma ModSmall(a: nat, max: nat)
    requires a < max
    ensures a % max == a
  {
  }

  lemma ModShift(a: nat, max: nat)
    requires a < max
    ensures (a + max) % max == a
  {
    assert a + max == 1 * max + a;
  }

  /** The macro's loop with an empty body: the triplets it runs the body
      with, in order.  `$max - 2` underflows for a slice shorter than two. */
  method IterateSliceInTriplets(max: nat) returns (runs: seq<Triplet>)
    requires max >= 2
    ensures |runs| == max
    ensures forall n :: 0 <= n < max ==> runs[n] == TripletAt(max, n)
  {
    var i, j, k := max - 2, max - 1, 0;
    runs := [];
    while k < max
      invariant 0 <= k <= max
      invariant |runs| == k
      invariant forall n :: 0 <= n < k ==> runs[n] == TripletAt(max, n)
      invariant i == (k + max - 2) % max && j == (k + max - 1) % max
    {
      runs := runs + [Triplet(i, j, k)];
      ModShift(k, max);
      i := j;
      j := k;
      k := k + 1;
    }
  }
}
