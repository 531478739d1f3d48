/**
  The vector producer: checks the dimension, fills two vectors with
  generated values, computes their dot product sequentially in index order
  and writes the baseline record.

  The C library's rand() is modelled as a stream of draws rng(0), rng(1),
  ...: element i of vector1 uses draws 4i and 4i + 1, element i of vector2
  draws 4i + 2 and 4i + 3 (left-to-right evaluation of the two calls in
  each element expression). Whether the output file can be opened is a
  parameter.
 */
module Producer {
  import opened Results
  import opened DotProduct
  import opened Baseline

  datatype ProducerError = InvalidDimension | CannotOpenOutput

  /** One generated element: an integer part below 1000 plus a number of
      hundredths below 100. */
  function Element(whole: nat, cents: nat): (x: real)
    ensures 0.0 <= x <= 999.99
    ensures x * 100.0 == ((whole % 1000) * 100 + cents % 100) as real
    ensures x.Floor == whole % 1000
  {
    (whole % 1000) as real + ((cents % 100) as real) / 100.0
  }

  /** The element made from two consecutive draws, starting at draw k:
      rng(k) for the integer part and rng(k + 1) for the hundredths. */
  function ElementFromDraws(rng: nat -> nat, k: nat): real
  {
    Element(rng(k), rng(k + 1))
  }

  /** vector1 of dimension d: element i takes draws 4i and 4i + 1. */
  function Vector1(d: nat, rng: nat -> nat): (v: seq<real>)
    ensures |v| == d
    ensures forall i :: 0 <= i < d ==> 0.0 <= v[i] <= 999.99
  {
    seq(d, i requires 0 <= i < d => ElementFromDraws(rng, 4 * i))
  }

  /** vector2 of dimension d: element i takes draws 4i + 2 and 4i + 3,
      right after those of element i of vector1. */
  function Vector2(d: nat, rng: nat -> nat): (v: seq<real>)
    ensures |v| == d
    ensures forall i :: 0 <= i < d ==> 0.0 <= v[i] <= 999.99
  {
    seq(d, i requires 0 <= i < d => ElementFromDraws(rng, 4 * i + 2))
  }

  /** The record the producer writes for dimension d. */
  function GeneratedRecord(d: nat, rng: nat -> nat): (r: Record)
    ensures WellFormed(r) && r.n == d
    ensures r.result == Dot(r.v1, r.v2)
  {
    var v1, v2 := Vector1(d, rng), Vector2(d, rng);
    Record(d, v1, v2, Dot(v1, v2))
  }

  /** Fills both vectors in place, index by index. */
  method FillVectors(v1: array<real>, v2: array<real>, rng: nat -> nat)
    requires v1.Length == v2.Length && v1 != v2
    modifies v1, v2
    ensures v1[..] == Vector1(v1.Length, rng)
    ensures v2[..] == Vector2(v2.Length, rng)
  {
    for i := 0 to v1.Length
      invariant v1[..i] == Vector1(v1.Length, rng)[..i]
      invariant v2[..i] == Vector2(v2.Length, rng)[..i]
    {
      v1[i] := Element(rng(4 * i), rng(4 * i + 1));
      v2[i] := Element(rng(4 * i + 2), rng(4 * i + 3));
    }
    assert v1[..] == v1[..v1.Length];
    assert v2[..] == v2[..v2.Length];
  }

  /** The reference loop: one accumulator, indices 0, 1, ... in order. */
  method SequentialDot(v1: array<real>, v2: array<real>) returns (acc: real)
    requires v1.Length == v2.Length
    ensures acc == Dot(v1[..], v2[..])
  {
    acc := 0.0;
    for i := 0 to v1.Length
      invariant acc == DotRange(v1[..], v2[..], 0, i)
    {
      acc := acc + v1[i] * v2[i];
    }
  }

  /** The whole producer run: a dimension of 0 or less is refused before
      anything is allocated; an output file that cannot be opened means no
      record; otherwise the fields of the record, in file order. */
  method Produce(dimension: int, rng: nat -> nat, canOpen: bool) returns (out: Result<seq<Field>, ProducerError>)
    ensures dimension <= 0 ==> out == Failure(InvalidDimension)
    ensures dimension > 0 && !canOpen ==> out == Failure(CannotOpenOutput)
    ensures dimension > 0 && canOpen ==> out == Success(Encode(GeneratedRecord(dimension, rng)))
  {
    if dimension <= 0 {
      return Failure(InvalidDimension);
    }
    var v1 := new real[dimension];
    var v2 := new real[dimension];
    FillVectors(v1, v2, rng);
    var result := SequentialDot(v1, v2);
    if !canOpen {
      return Failure(CannotOpenOutput);
    }
    var record := Record(dimension, v1[..], v2[..], result);
    assert record == GeneratedRecord(dimension, rng);
    out := Success(Encode(record));
  }
}
