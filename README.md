# Parallel dot product: partition and reduce

This project models the arithmetic core of a pair of C programs that compute
the dot product of two vectors.

- The producer (`sequencial.c`) checks that the dimension N is positive. It
  fills two vectors with generated values, each an integer part below 1000
  plus hundredths below 100. It sums `v1[i] * v2[i]` in index order and
  writes the baseline record: N, vector1, vector2, the result.
- The reducer (`concorrente.c`) checks that the thread count is positive and
  reads the record back. It lowers the thread count to N when more threads
  than elements are asked for. Worker `id` of `t` sums over
  `[id * (N / t), id * (N / t) + N / t)`, and the last worker's range ends at
  N. The coordinator adds the partial sums in ascending worker order. It
  reports the relative error against the sequential result.

The values are exact `real`s, so the central theorem is an equality. For any
record, the partial sums added in worker order equal the whole-range sum
that the producer's loop computes. A record that the producer writes and the
reducer reads back therefore gives a relative error of 0. The error is
undefined only when the dot product is 0.

Modules:

- `Results`: Option and Result.
- `DotProduct`: the reference sum over an index range, in increasing index order.
- `Baseline`: the record's fields and their order, written and read back.
- `Producer`: `sequencial.c`, as methods over arrays.
- `Partition`: the worker ranges and the thread-count clamp, as functions and lemmas.
- `Reducer`: the workers, the combination loop and the whole run of `concorrente.c`.

The workers run one after another. They only read the two vectors, and the
coordinator uses each partial sum only after its worker finishes. So
running them in sequence computes the same values. A `Failure` result
stands for the programs' exit status 1.

## Model

| member | source | states |
|---|---|---|
| `DotProduct.DotRangeSplit` | sequencial.c:47-49 | the index-order sum over [lo, hi) is the sum over [lo, mid) plus the sum over [mid, hi), for every split point |
| `DotProduct.DotRangeIsDotOfSlices` | concorrente.c:34-36 | a worker's sum over [lo, hi) equals the dot product of the two slices [lo, hi) of the vectors |
| `Baseline.Encode` | sequencial.c:64-67 | the record is written as 2N+2 fields: N first, then the N elements of vector1, then the N elements of vector2, then the result |
| `Baseline.Decode` | concorrente.c:77-90 | a successful read yields two vectors of length N, and writing that record gives back exactly the fields it consumed |
| `Baseline.DecodeEncode` | concorrente.c:78-90 | reading back a written record, with any fields after it, recovers N, both vectors and the result unchanged |
| `Producer.Element` | sequencial.c:36-37 | a generated element is between 0 and 999.99; in hundredths it is (r1 mod 1000)*100 + (r2 mod 100), and its integer part is r1 mod 1000 |
| `Producer.Vector1` | sequencial.c:34-36 | vector1 has N elements, each in [0, 999.99]; element i is made from draws 4i and 4i+1 |
| `Producer.Vector2` | sequencial.c:34-37 | vector2 has N elements, each in [0, 999.99]; element i is made from draws 4i+2 and 4i+3 |
| `Producer.GeneratedRecord` | sequencial.c:34-49 | the producer's record has dimension N, two vectors of length N, and the dot product of those vectors as its result |
| `Producer.FillVectors` | sequencial.c:33-38 | after the fill loop, element i of each vector is the one generated from its draws, for every i |
| `Producer.SequentialDot` | sequencial.c:42-49 | the accumulator visits indices 0..N-1 in order and ends as the dot product of the two vectors |
| `Producer.Produce` | sequencial.c:16-67 | a dimension of 0 or less fails before any allocation; an output file that cannot be opened fails with no record; otherwise the written fields are the encoding of the generated record |
| `Partition.EffectiveThreads` | concorrente.c:97-101 | the thread count used is at most the request and at most N, and equals one of them: min(requested, N) |
| `Partition.WorkerRange` | concorrente.c:23-31 | for id < t, 0 <= start <= end <= N with start = id*(N/t); a worker other than the last has N/t indices, and the last ends at N with N/t + N mod t indices |
| `Partition.Ends` | concorrente.c:24-31 | the first range starts at 0 and the last range ends at N |
| `Partition.Contiguous` | concorrente.c:25-26 | each range but the last ends where the next one starts |
| `Partition.Disjoint` | concorrente.c:24-31 | an earlier worker's range ends at or before a later worker's start, so no two ranges overlap |
| `Partition.Owner` | concorrente.c:24-31 | every index k < N lies in the range of some worker id < t |
| `Partition.InRangeIffOwner` | concorrente.c:24-31 | index k is in worker id's range if and only if id is its owner: the ranges cover [0, N) with no gap and no overlap |
| `Partition.OneIndexPerWorker` | concorrente.c:24-31 | with as many workers as elements, worker id handles exactly [id, id+1) |
| `Partition.Oversubscribed` | concorrente.c:98-101 | a request above N uses exactly N workers, each with exactly one index |
| `Reducer.PartialsPrefix` | concorrente.c:138-148 | the first k partial sums, added in worker order, equal the sum over [0, end of worker k-1) |
| `Reducer.ReductionMatchesReference` | concorrente.c:135-148 | adding all partial sums in ascending worker order gives exactly the whole-range sum over [0, N) |
| `Reducer.RelativeError` | concorrente.c:154 | the error is undefined exactly when the sequential result is 0; otherwise error * sequential = abs(sequential - concurrent), and it is 0 when the results agree |
| `Reducer.ReductionIsExact` | concorrente.c:61-154 | a run succeeds if and only if the thread count is positive and the file opens and holds a record; it then uses min(requested, N) threads, and its result is the exact dot product of the vectors read |
| `Reducer.ConsistentRecordReducesExactly` | concorrente.c:135-154 | for a record whose result is the dot product of its vectors, the reducer's result equals the baseline and the relative error is 0 or undefined |
| `Reducer.ProducedRecordReducesExactly` | sequencial.c:42-67 | every record the producer writes, read back by the reducer with any thread count above 0, gives the sequential result exactly |
| `Reducer.Worker` | concorrente.c:17-36 | a worker's accumulator ends as the sum of v1[i]*v2[i] over its own range [start(id), end(id)) |
| `Reducer.RunWorkers` | concorrente.c:117-132 | workers 0..t-1 are run, and partial sum id is worker id's sum over its range |
| `Reducer.Combine` | concorrente.c:138-148 | the partial sums are added one by one in ascending worker order |
| `Reducer.Reduce` | concorrente.c:51-154 | the whole run: a thread count of 0 or less fails before the file is opened; a file that cannot be opened or holds no record fails; otherwise the outcome is the one `ReductionIsExact` describes |

## Left out

- Threads: `pthread_create`, `pthread_join`, `pthread_exit` and the heap-allocated partial results are not modelled. The workers run in sequence, which computes the same values because the vectors are read-only while they run.
- Spawn and join failures: the early exits when a thread cannot be created or joined are not modelled, because thread handles do not exist in a sequential model. The model does not capture that those exits leave already-started threads unjoined.
- Floating point: values are exact reals, so the model does not capture the rounding differences between the two summation orders. In the model the relative error is exactly 0.
- Reducer.RelativeError: returns None when the sequential result is 0. The C code divides without a guard, which gives NaN or infinity; the model has no such values.
- Byte layout: the record is a sequence of fields. Native widths, endianness, `fopen`, `fread`, `fwrite` and `fclose` are not modelled.
- Baseline.Decode: fails when there are fewer than 2N+2 fields or a field has the wrong kind. The C code does not check the return of `fread` and would go on with uninitialised memory, which a model cannot represent. A negative N fails as well. In the C code the allocation size `n * sizeof(double)` is computed in `size_t` and wraps. For most negative N the wrapped size is too large and the program exits with status 1. For some (N = -2^61 + 1 asks for 8 bytes) the allocation succeeds and `fread` then writes far past the buffer, which is undefined behaviour the model does not represent.
- Randomness: `srand(time(NULL))` and `rand()` are replaced by a stream of draws `rng(0), rng(1), ...`. Element i of vector1 uses draws 4i and 4i+1, and element i of vector2 uses 4i+2 and 4i+3. C leaves unspecified the order of the two `rand()` calls in one expression; the model assumes left to right.
- Argument parsing, the argument-count checks, `printf` reporting and timing (`GET_TIME`, from `timer.h`, which is not part of this model) are left out.
- Memory management: `malloc`, `free` and the allocation-failure exits are left out. A record with N = 0 is read as if `malloc(0)` succeeds. The clamp then gives 0 workers and a result of 0.
- Integer widths: N is a `long` and the thread count an `int`. The model uses unbounded integers. No product in the range computation exceeds N, so the partition arithmetic loses no overflow.
- Producer.Produce: does not model the wrap-around of the allocation size `dimensao * sizeof(double)` in `size_t`. For a dimension such as 2^61 + 1 the product wraps to 8 bytes, the allocation succeeds and the fill loop writes past the buffer: undefined behaviour in the C code, while the model returns a complete record.
