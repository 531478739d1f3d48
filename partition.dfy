/**
  How the reducer divides the index range [0, n) among its workers: each of
  t workers gets a contiguous slice of n / t indices, and the last one also
  takes the remainder. The requested thread count is first clamped to n.
 */
module Partition {

  /** The half-open index range [start, end) one worker sums over. */
  datatype Range = Range(start: nat, end: nat)

  /** The number of workers actually started: the request, lowered to n
      when more threads than elements are asked for. */
  function EffectiveThreads(requested: nat, n: nat): (t: nat)
    ensures t <= requested && t <= n
    ensures t == requested || t == n
  {
    if requested > n then n else requested
  }

  /** Worker id's range, out of t workers, over [0, n). */
  function WorkerRange(n: nat, t: nat, id: nat): (r: Range)
    requires id < t
    ensures r.start <= r.end <= n
    ensures r.start == id * (n / t)
    ensures id < t - 1 ==> r.end - r.start == n / t
    ensures id == t - 1 ==> r.end == n && r.end - r.start == n / t + n % t
  {
    var slice := n / t;
    var start := id * slice;
    MulBelowWhole(n, t, id);
    Range(start, if id == t - 1 then n else start + slice)
  }

  /** (id + 1) * (n / t) never exceeds n for id < t, and the last start
      leaves exactly the slice and the remainder. */
  lemma MulBelowWhole(n: nat, t: nat, id: nat)
    requires id < t
    ensures (id + 1) * (n / t) <= n
    ensures n - (t - 1) * (n / t) == n / t + n % t
  {
    var s := n / t;
    assert n == t * s + n % t;
    MulMonotone(id + 1, t, s);
  }

  lemma {:induction false} MulMonotone(a: nat, b: nat, s: nat)
    requires a <= b
    ensures a * s <= b * s
  {
    if a < b {
      MulMonotone(a, b - 1, s);
    }
  }

  /** The first worker starts at 0 and the last ends at n. */
  lemma Ends(n: nat, t: nat)
    requires 0 < t
    ensures WorkerRange(n, t, 0).start == 0
    ensures WorkerRange(n, t, t - 1).end == n
  {
  }

  /** Each range but the last ends where the next one starts. */
  lemma Contiguous(n: nat, t: nat, id: nat)
    requires id + 1 < t
    ensures WorkerRange(n, t, id).end == WorkerRange(n, t, id + 1).start
  {
  }

  /** Ranges of different workers do not overlap: the earlier ends before
      the later starts. */
  lemma Disjoint(n: nat, t: nat, i: nat, j: nat)
    requires i < j < t
    ensures WorkerRange(n, t, i).end <= WorkerRange(n, t, j).start
  {
    MulMonotone(i + 1, j, n / t);
  }

  /** The worker whose range holds index k. */
  function Owner(n: nat, t: nat, k: nat): (id: nat)
    requires 0 < t && k < n
    ensures id < t
    ensures WorkerRange(n, t, id).start <= k < WorkerRange(n, t, id).end
  {
    var s := n / t;
    if s == 0 || k / s >= t - 1 then
      LastOwns(n, t, k);
      t - 1
    else
      QuotientOwns(n, t, k);
      k / s
  }

  lemma LastOwns(n: nat, t: nat, k: nat)
    requires 0 < t && k < n
    requires n / t == 0 || k / (n / t) >= t - 1
    ensures WorkerRange(n, t, t - 1).start <= k
  {
    var s := n / t;
    if s > 0 {
      MulMonotone(t - 1, k / s, s);
    }
  }

  lemma QuotientOwns(n: nat, t: nat, k: nat)
    requires 0 < t && k < n && n / t > 0
    requires k / (n / t) < t - 1
    ensures WorkerRange(n, t, k / (n / t)).start <= k < WorkerRange(n, t, k / (n / t)).end
  {
    var s := n / t;
    var q := k / s;
    assert k == q * s + k % s;
  }

  /** Every index of [0, n) lies in exactly one worker's range: the ranges
      cover [0, n) with no gap and no overlap. */
  lemma InRangeIffOwner(n: nat, t: nat, k: nat, id: nat)
    requires id < t && k < n
    ensures WorkerRange(n, t, id).start <= k < WorkerRange(n, t, id).end <==> id == Owner(n, t, k)
  {
    var o := Owner(n, t, k);
    var r := WorkerRange(n, t, id);
    if r.start <= k < r.end && id != o {
      if id < o {
        Disjoint(n, t, id, o);
      } else {
        Disjoint(n, t, o, id);
      }
    }
  }

  /** With as many workers as elements, every worker handles exactly its
      own index. */
  lemma OneIndexPerWorker(n: nat, id: nat)
    requires id < n
    ensures WorkerRange(n, n, id) == Range(id, id + 1)
  {
  }

  /** Asking for more threads than elements starts exactly n workers, each
      with a single index. */
  lemma Oversubscribed(requested: nat, n: nat, id: nat)
    requires requested > n && id < n
    ensures EffectiveThreads(requested, n) == n
    ensures WorkerRange(n, EffectiveThreads(requested, n), id) == Range(id, id + 1)
  {
    OneIndexPerWorker(n, id);
  }
}
