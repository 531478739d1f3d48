/**
  The parallel reducer: checks the requested thread count, reads the
  baseline record, clamps the thread count, lets each worker sum the
  products over its own range, adds the partial sums in ascending worker
  order and reports the relative error against the sequential result.

  The workers run one after another here. Each only reads the two vectors,
  which nothing writes while they run, and each partial sum is collected
  after its worker finishes, so running them in sequence computes the same
  values. Whether the input file can be opened is the Option around its
  fields.
 */
module Reducer {
  import opened Results
  import opened DotProduct
  import opened Baseline
  import opened Partition
  import Producer

  datatype ReducerError = InvalidThreadCount | CannotOpenInput | MalformedRecord

  /** What a successful run reports. */
  datatype Outcome = Outcome(
    dimension: nat,
    threads: nat,
    sequential: real,
    concurrent: real,
    relativeError: Option<real>)

  /** The partial sum worker id computes over its range. */
  function PartialSum(v1: seq<real>, v2: seq<real>, n: nat, t: nat, id: nat): real
    requires n <= |v1| && n <= |v2| && id < t
  {
    var r := WorkerRange(n, t, id);
    DotRange(v1, v2, r.start, r.end)
  }

  /** The partial sums of all t workers, indexed by worker id. */
  function Partials(v1: seq<real>, v2: seq<real>, n: nat, t: nat): (ps: seq<real>)
    requires n <= |v1| && n <= |v2|
    ensures |ps| == t
    ensures forall id :: 0 <= id < t ==> ps[id] == PartialSum(v1, v2, n, t, id)
  {
    seq(t, id requires 0 <= id < t => PartialSum(v1, v2, n, t, id))
  }

  /** A sum taken left to right: element 0 first, then 1, and so on. */
  function SumInOrder(s: seq<real>): real
  {
    if s == [] then 0.0 else SumInOrder(s[..|s| - 1]) + s[|s| - 1]
  }

  /** The first k partial sums add up to the products over [0, end of
      worker k - 1). */
  lemma {:induction false} PartialsPrefix(v1: seq<real>, v2: seq<real>, n: nat, t: nat, k: nat)
    requires n <= |v1| && n <= |v2| && 0 < k <= t
    ensures SumInOrder(Partials(v1, v2, n, t)[..k]) == DotRange(v1, v2, 0, WorkerRange(n, t, k - 1).end)
  {
    var ps := Partials(v1, v2, n, t);
    assert ps[..k][..k - 1] == ps[..k - 1];
    if k == 1 {
      assert ps[..0] == [];
    } else {
      PartialsPrefix(v1, v2, n, t, k - 1);
      Contiguous(n, t, k - 2);
      DotRangeSplit(v1, v2, 0, WorkerRange(n, t, k - 2).end, WorkerRange(n, t, k - 1).end);
    }
  }

  /** Adding the partial sums in worker order gives exactly the
      whole-range sum that the sequential loop computes. */
  lemma ReductionMatchesReference(v1: seq<real>, v2: seq<real>, n: nat, t: nat)
    requires n <= |v1| && n <= |v2|
    requires 0 < t || n == 0
    ensures SumInOrder(Partials(v1, v2, n, t)) == DotRange(v1, v2, 0, n)
  {
    var ps := Partials(v1, v2, n, t);
    if t > 0 {
      PartialsPrefix(v1, v2, n, t, t);
      assert ps[..t] == ps;
    }
  }

  function Abs(x: real): real
  {
    if x < 0.0 then -x else x
  }

  /** |sequential - concurrent| / sequential, or None when the sequential
      result is zero and the quotient is undefined. */
  function RelativeError(sequential: real, concurrent: real): (e: Option<real>)
    ensures e.None? <==> sequential == 0.0
    ensures e.Some? ==> e.value * sequential == Abs(sequential - concurrent)
    ensures e.Some? && concurrent == sequential ==> e.value == 0.0
  {
    if sequential == 0.0 then None else Some(Abs(sequential - concurrent) / sequential)
  }

  /** What one run of the reducer reports, for the fields of the input file
      (None when it cannot be opened) and the requested thread count. */
  function Reduction(file: Option<seq<Field>>, requested: int): Result<Outcome, ReducerError>
  {
    if requested <= 0 then Failure(InvalidThreadCount)
    else if file.None? then Failure(CannotOpenInput)
    else match Decode(file.value)
      case None => Failure(MalformedRecord)
      case Some(rec) =>
        var t := EffectiveThreads(requested, rec.n);
        var concurrent := SumInOrder(Partials(rec.v1, rec.v2, rec.n, t));
        Success(Outcome(rec.n, t, rec.result, concurrent, RelativeError(rec.result, concurrent)))
  }

  /** A run succeeds exactly when the thread count is positive and the file
      opens and holds a record; it then uses min(requested, N) workers and
      its result is the exact dot product of the two vectors read. */
  lemma ReductionIsExact(file: Option<seq<Field>>, requested: int)
    ensures Reduction(file, requested).Success? <==>
      requested > 0 && file.Some? && Decode(file.value).Some?
    ensures Reduction(file, requested).Success? ==>
      var rec, o := Decode(file.value).value, Reduction(file, requested).value;
      o.dimension == rec.n && o.sequential == rec.result &&
      o.threads == (if requested < rec.n then requested else rec.n) &&
      o.concurrent == Dot(rec.v1, rec.v2) &&
      o.relativeError == RelativeError(o.sequential, o.concurrent)
  {
    if requested > 0 && file.Some? && Decode(file.value).Some? {
      var rec := Decode(file.value).value;
      ReductionMatchesReference(rec.v1, rec.v2, rec.n, EffectiveThreads(requested, rec.n));
    }
  }

  /** A file holding a record whose result is the dot product of its
      vectors reduces to that result exactly: the relative error is 0, or
      undefined when the dot product itself is 0. */
  lemma ConsistentRecordReducesExactly(rec: Record, fs: seq<Field>, requested: int)
    requires Decode(fs) == Some(rec) && rec.result == Dot(rec.v1, rec.v2) && requested > 0
    ensures Reduction(Some(fs), requested).Success?
    ensures var o := Reduction(Some(fs), requested).value;
      o.concurrent == rec.result && (o.relativeError.None? || o.relativeError.value == 0.0)
  {
    ReductionIsExact(Some(fs), requested);
    var o := Reduction(Some(fs), requested).value;
    ExactHasNoError(o);
  }

  lemma ExactHasNoError(o: Outcome)
    requires o.relativeError == RelativeError(o.sequential, o.concurrent)
    requires o.sequential == o.concurrent
    ensures o.relativeError.None? || o.relativeError.value == 0.0
  {
  }

  /** In particular for every record the producer writes. */
  lemma ProducedRecordReducesExactly(d: nat, rng: nat -> nat, rest: seq<Field>, requested: int)
    requires d > 0 && requested > 0
    ensures Reduction(Some(Encode(Producer.GeneratedRecord(d, rng)) + rest), requested).Success?
    ensures var o := Reduction(Some(Encode(Producer.GeneratedRecord(d, rng)) + rest), requested).value;
      o.concurrent == o.sequential == Producer.GeneratedRecord(d, rng).result &&
      (o.relativeError.None? || o.relativeError.value == 0.0)
  {
    var rec := Producer.GeneratedRecord(d, rng);
    DecodeEncode(rec, rest);
    ConsistentRecordReducesExactly(rec, Encode(rec) + rest, requested);
  }

  /** One worker: sums v1[i] * v2[i] over its range into a private
      accumulator. */
  method Worker(v1: array<real>, v2: array<real>, n: nat, t: nat, id: nat) returns (partial: real)
    requires n <= v1.Length && n <= v2.Length && id < t
    ensures partial == PartialSum(v1[..], v2[..], n, t, id)
  {
    var slice := n / t;
    var start := id * slice;
    var end := start + slice;
    if id == t - 1 {
      end := n;
    }
    assert WorkerRange(n, t, id) == Range(start, end);
    partial := 0.0;
    var i := start;
    while i < end
      invariant start <= i <= end
      invariant partial == DotRange(v1[..], v2[..], start, i)
    {
      partial := partial + v1[i] * v2[i];
      i := i + 1;
    }
  }

  /** Starts workers 0 .. t - 1 and collects each one's partial sum under
      its id. */
  method RunWorkers(v1: array<real>, v2: array<real>, n: nat, t: nat) returns (partials: seq<real>)
    requires n <= v1.Length && n <= v2.Length
    ensures partials == Partials(v1[..], v2[..], n, t)
  {
    partials := [];
    for id := 0 to t
      invariant partials == Partials(v1[..], v2[..], n, t)[..id]
    {
      var p := Worker(v1, v2, n, t, id);
      partials := partials + [p];
    }
  }

  /** The coordinator's combination: adds the partial sums in ascending
      worker order. */
  method Combine(partials: seq<real>) returns (total: real)
    ensures total == SumInOrder(partials)
  {
    total := 0.0;
    for id := 0 to |partials|
      invariant total == SumInOrder(partials[..id])
    {
      assert partials[..id + 1][..id] == partials[..id];
      total := total + partials[id];
    }
    assert partials[..|partials|] == partials;
  }

  /** The whole reducer run. A thread count of 0 or less is refused before
      the file is opened. */
  method Reduce(file: Option<seq<Field>>, requested: int) returns (r: Result<Outcome, ReducerError>)
    ensures r == Reduction(file, requested)
  {
    if requested <= 0 {
      return Failure(InvalidThreadCount);
    }
    if file.None? {
      return Failure(CannotOpenInput);
    }
    var decoded := Decode(file.value);
    if decoded.None? {
      return Failure(MalformedRecord);
    }
    var rec := decoded.value;
    var n: nat := rec.n;
    var v1 := new real[n](i requires 0 <= i < n => rec.v1[i]);
    var v2 := new real[n](i requires 0 <= i < n => rec.v2[i]);
    assert v1[..] == rec.v1 && v2[..] == rec.v2;
    var threads := EffectiveThreads(requested, n);
    var partials := RunWorkers(v1, v2, n, threads);
    var concurrent := Combine(partials);
    r := Success(Outcome(n, threads, rec.result, concurrent, RelativeError(rec.result, concurrent)));
  }
}
