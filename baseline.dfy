/**
  The baseline record that the producer writes and the reducer reads back:
  the dimension N, then the N elements of vector1, then the N elements of
  vector2, then the sequential result. Only the order of the fields is
  modelled; the byte layout (native widths, endianness) is not.
 */
module Baseline {
  import opened Results

  /** One field of the record file: the dimension (a long) or a double. */
  datatype Field = Dim(n: int) | Num(x: real)

  datatype Record = Record(n: int, v1: seq<real>, v2: seq<real>, result: real)

  /** A record as the producer builds it: two vectors of length N. */
  predicate WellFormed(r: Record)
  {
    r.n >= 0 && |r.v1| == r.n && |r.v2| == r.n
  }

  function Nums(s: seq<real>): (fs: seq<Field>)
    ensures |fs| == |s|
    ensures forall i :: 0 <= i < |s| ==> fs[i] == Num(s[i])
  {
    seq(|s|, i requires 0 <= i < |s| => Num(s[i]))
  }

  /** Fields lo..hi-1 all hold doubles. */
  predicate NumsBetween(fs: seq<Field>, lo: nat, hi: nat)
    requires lo <= hi <= |fs|
  {
    forall i :: lo <= i < hi ==> fs[i].Num?
  }

  /** The doubles held by fields lo..hi-1. */
  function ValuesBetween(fs: seq<Field>, lo: nat, hi: nat): (s: seq<real>)
    requires lo <= hi <= |fs| && NumsBetween(fs, lo, hi)
    ensures Nums(s) == fs[lo..hi]
  {
    var s := seq(hi - lo, i requires 0 <= i < hi - lo => fs[lo + i].x);
    assert forall i :: 0 <= i < hi - lo ==> fs[lo..hi][i] == fs[lo + i];
    s
  }

  /** Different doubles give different fields. */
  lemma NumsInjective(s: seq<real>, t: seq<real>)
    requires Nums(s) == Nums(t)
    ensures s == t
  {
    assert forall i :: 0 <= i < |s| ==> Nums(s)[i] == Num(s[i]) && Nums(t)[i] == Num(t[i]);
  }

  /** The fields in the order the producer writes them: N at 0, vector1 at
      1..N, vector2 at N+1..2N, the result at 2N+1. */
  function Encode(r: Record): (fs: seq<Field>)
    requires WellFormed(r)
    ensures |fs| == 2 * r.n + 2
    ensures fs[0] == Dim(r.n) && fs[2 * r.n + 1] == Num(r.result)
    ensures fs[1..r.n + 1] == Nums(r.v1) && fs[r.n + 1..2 * r.n + 1] == Nums(r.v2)
  {
    var fs := [Dim(r.n)] + Nums(r.v1) + Nums(r.v2) + [Num(r.result)];
    assert fs[1..r.n + 1] == Nums(r.v1);
    assert fs[r.n + 1..2 * r.n + 1] == Nums(r.v2);
    fs
  }

  /**
    Reads the fields back in the same order: N, N doubles into vector1, N
    into vector2, one for the sequential result. Fields after those are
    never read. A negative N is refused (its allocation cannot succeed), and
    so is a sequence too short or with a field of the wrong kind.
   */
  function Decode(fs: seq<Field>): (r: Option<Record>)
    ensures r.Some? ==> WellFormed(r.value) && 2 * r.value.n + 2 <= |fs|
    ensures r.Some? ==> Encode(r.value) == fs[..2 * r.value.n + 2]
  {
    if |fs| == 0 || !fs[0].Dim? then None
    else
      var n := fs[0].n;
      if n < 0 || |fs| < 2 * n + 2 || !NumsBetween(fs, 1, 2 * n + 2) then None
      else
        assert NumsBetween(fs, 1, n + 1) && NumsBetween(fs, n + 1, 2 * n + 1);
        var rec := Record(n, ValuesBetween(fs, 1, n + 1), ValuesBetween(fs, n + 1, 2 * n + 1), fs[2 * n + 1].x);
        ConcatAround(fs, n);
        Some(rec)
  }

  lemma ConcatAround(fs: seq<Field>, n: nat)
    requires 2 * n + 2 <= |fs|
    ensures fs[..2 * n + 2] == [fs[0]] + fs[1..n + 1] + fs[n + 1..2 * n + 1] + [fs[2 * n + 1]]
  {
  }

  /** Reading back what was written recovers every field unchanged, and
      fields after the record do not matter. */
  lemma DecodeEncode(r: Record, rest: seq<Field>)
    requires WellFormed(r)
    ensures Decode(Encode(r) + rest) == Some(r)
  {
    var e := Encode(r);
    var fs := e + rest;
    var n := r.n;
    assert fs[..2 * n + 2] == e;
    assert fs[0] == Dim(n);
    assert NumsBetween(fs, 1, 2 * n + 2) by {
      forall i | 1 <= i < 2 * n + 2 ensures fs[i].Num? {
        if i <= n {
          assert fs[i] == e[1..n + 1][i - 1];
        } else if i <= 2 * n {
          assert fs[i] == e[n + 1..2 * n + 1][i - n - 1];
        }
      }
    }
    assert NumsBetween(fs, 1, n + 1) && NumsBetween(fs, n + 1, 2 * n + 1);
    assert fs[1..n + 1] == e[1..n + 1] && fs[n + 1..2 * n + 1] == e[n + 1..2 * n + 1];
    NumsInjective(ValuesBetween(fs, 1, n + 1), r.v1);
    NumsInjective(ValuesBetween(fs, n + 1, 2 * n + 1), r.v2);
  }
}
