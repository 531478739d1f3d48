/**
  The dot product of two vectors, summed in strictly increasing index order.
  This is the reference that both programs compute: the producer over the
  whole range, each reducer worker over its own slice.
 */
module DotProduct {

  /** The sum of v1[i] * v2[i] for lo <= i < hi, accumulated from lo upwards. */
  function DotRange(v1: seq<real>, v2: seq<real>, lo: nat, hi: nat): real
    requires lo <= hi <= |v1| && hi <= |v2|
    decreases hi - lo
  {
    if lo == hi then 0.0 else DotRange(v1, v2, lo, hi - 1) + v1[hi - 1] * v2[hi - 1]
  }

  /** The dot product over the whole of two vectors of equal length. */
  function Dot(v1: seq<real>, v2: seq<real>): real
    requires |v1| == |v2|
  {
    DotRange(v1, v2, 0, |v1|)
  }

  /** Splitting a range at any point splits its sum. */
  lemma {:induction false} DotRangeSplit(v1: seq<real>, v2: seq<real>, lo: nat, mid: nat, hi: nat)
    requires lo <= mid <= hi <= |v1| && hi <= |v2|
    ensures DotRange(v1, v2, lo, mid) + DotRange(v1, v2, mid, hi) == DotRange(v1, v2, lo, hi)
    decreases hi - mid
  {
    if mid < hi {
      DotRangeSplit(v1, v2, lo, mid, hi - 1);
    }
  }

  /** The sum over a range is the dot product of the two slices [lo, hi):
      a worker that only sees its slices computes the same value. */
  lemma {:induction false} DotRangeIsDotOfSlices(v1: seq<real>, v2: seq<real>, lo: nat, hi: nat)
    requires lo <= hi <= |v1| && hi <= |v2|
    ensures DotRange(v1, v2, lo, hi) == Dot(v1[lo..hi], v2[lo..hi])
  {
    var s1, s2 := v1[lo..hi], v2[lo..hi];
    assert |s1| == hi - lo;
    SlicePrefix(v1, v2, lo, hi, hi - lo);
    assert Dot(s1, s2) == DotRange(s1, s2, 0, hi - lo);
  }

  /** The first k products of the slices [lo, hi) are those of [lo, lo + k). */
  lemma {:induction false} SlicePrefix(v1: seq<real>, v2: seq<real>, lo: nat, hi: nat, k: nat)
    requires lo <= hi <= |v1| && hi <= |v2| && k <= hi - lo
    ensures DotRange(v1[lo..hi], v2[lo..hi], 0, k) == DotRange(v1, v2, lo, lo + k)
  {
    if k > 0 {
      SlicePrefix(v1, v2, lo, hi, k - 1);
    }
  }
}
