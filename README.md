# par_accumulate in Dafny

A model of `parallel::accumulate` (`par_accumulate.h`). This is a partitioned fold over a contiguous range. It cuts the range into `min(hardware concurrency, size)` contiguous partitions. All partitions but the last are `size / count` long, and the last one also takes the remainder. Each partition is folded in place into its own accumulator, which starts from `initF()`, by calling `accumulateF` on each element in range order. The accumulators are then reduced with `reduceF`, seeded with a fresh `initF()`.

Modules:

- `Folds` (folds.dfy): `FoldLeft`, the left fold. It is the sequential reference, and it also serves as the in-order reduce. The module also holds the caller's obligation `ComposesPartialFolds` (reducing two partial folds gives the fold of the concatenation) and the theorem that reducing the per-chunk folds gives the fold of the concatenated chunks.
- `Partition` (partition.dfy): the partition arithmetic. It covers the partition count and the chunk size, and a `Plan` value with the `Start` and `End` offsets of each partition. Lemmas show that the partitions are non-empty and adjacent, and that the last one takes the remainder. They also show that every offset belongs to exactly one partition, and that the partitions laid end to end are the range.
- `ParAccumulate` (par_accumulate.dfy): the algorithm as imperative Dafny. `GenerateResults` builds the results vector. `AccumulatePartition` is the per-partition worker. It computes the partition's boundaries, then `FoldInto` runs the loop that updates one array cell in place. `Accumulate` is the whole function, with the source's precondition (non-empty range, positive thread count). `AccumulateGuarded` is the corrected variant described under Findings.
- `Examples` (examples.dfy): two instances with the in-order reduce: a sum of 1..10 that gives 55 for every thread count, and an order-preserving concatenation, for every range and thread count.

The three callables are total Dafny functions: `initF: () -> R`, `accumulateF: (R, T) -> R` and `reduceF: (R, R) -> R`. The source's in-place `accumulateF(temp_result, *it)` becomes `results[i] := accumulateF(results[i], range[it])`. The range is a `seq<T>`, and iterator positions are offsets from `first`. The hardware concurrency is the parameter `threadCount`.

The correctness theorem needs only one hypothesis: `reduceF(fold(xs), fold(ys)) == fold(xs + ys)` for all `xs` and `ys`, where `fold` is the fold of `accumulateF` from `initF()`. Two things follow from it that a caller might otherwise have to state separately:

- `initF()` is an identity of `reduceF` on partial folds (`ComposesGivesIdentityOnFolds`).
- A common way to meet it is an associative `reduceF` with right identity `initF()` and an `accumulateF` that reduces with the element's own fold (`ComposesFromMonoid`).

## Model

| member | source | states |
|---|---|---|
| `Partition.ResultCount` | par_accumulate.h:12 | The partition count is at most the thread count and at most the size, and equal to one of them: their minimum. It is zero exactly when the thread count or the size is zero. |
| `Partition.ChunkSize` | par_accumulate.h:13 | For a positive partition count, `count * chunk <= size < count * chunk + count`: floor division. When `count <= size`, the chunk is at least 1. |
| `Partition.MakePlan` | par_accumulate.h:9-13 | For a non-empty range and a positive thread count, the plan is valid, its partition count is `result_count` (the minimum of the thread count and the size), and it has between 1 and `size` partitions, never more than the thread count. |
| `Partition.Plan.Start` | par_accumulate.h:20 | Partition `i` starts `i` chunks in, and in a valid plan every partition starts strictly inside the range. |
| `Partition.Plan.End` | par_accumulate.h:19-21 | Every partition ends strictly after it starts and no later than the end of the range, so no partition is empty and none runs past `last`. |
| `Partition.PartitionsAreAdjacent` | par_accumulate.h:19-21 | The first partition starts at offset 0, every partition ends where the next one starts, and the last one ends at `last`. |
| `Partition.PartitionLengths` | par_accumulate.h:13-21 | Every partition but the last is `chunk_size` long; the last is `chunk_size + size % result_count` long. |
| `Partition.ExactlyOneOwner` | par_accumulate.h:19-23 | Offset `k` lies in partition `i` if and only if `i` is `k`'s owner, so each element is folded by exactly one partition. |
| `Partition.SlicesCoverRange` | par_accumulate.h:19-25 | The partitions' elements, concatenated in partition order, are exactly the range: no element is dropped, repeated or moved. |
| `Folds.FoldLeftFront` | par_accumulate.h:23-25 | The fold takes the elements left to right: the first element is folded into the accumulator first, then the rest in order. With `reduceF` as the step, this is the in-order reduce of line 28. |
| `Folds.FoldLeftAppend` | par_accumulate.h:23-28 | Folding a concatenation folds the second part on from where the first part left off, so a fold can be cut at any point and resumed. |
| `Folds.ReducePartialFolds` | par_accumulate.h:28 | If `reduceF` composes partial folds, reducing the chunk folds in order from `initF()` gives the sequential fold of the concatenated chunks. |
| `Folds.ComposesGivesIdentityOnFolds` | par_accumulate.h:28 | Under the composition obligation, the `initF()` seed of the reduce is a left and right identity on every partial fold. |
| `Folds.ComposesFromMonoid` | par_accumulate.h:28 | An associative `reduceF` with right identity `initF()`, where folding one element is reducing with that element's own fold, meets the composition obligation. |
| `Folds.ReduceSplit` | par_accumulate.h:28 | With an associative `reduceF` that has identity `initF()`, reducing `a + b` equals reducing the reductions of `a` and `b`. This is the regrouping of `std::reduce` that needs no commutativity. |
| `ParAccumulate.GenerateResults` | par_accumulate.h:15-16 | The results vector is a fresh array of exactly `result_count` entries, each equal to `initF()`. |
| `ParAccumulate.FoldInto` | par_accumulate.h:23-25 | The iterator loop of the worker leaves its accumulator equal to the left fold of `accumulateF`, from the accumulator's old value, over `[start, end)` in range order. No other accumulator changes. |
| `ParAccumulate.AccumulatePartition` | par_accumulate.h:18-26 | After partition `index` is processed, `results[index]` is the left fold of `accumulateF`, from its old value, over that partition's elements in range order; every other accumulator is unchanged. |
| `ParAccumulate.Accumulate` | par_accumulate.h:8-29 | For a non-empty range and a positive thread count, the result is the in-order reduction, seeded with `initF()`, of every partition's fold from `initF()`. |
| `ParAccumulate.PartitionedFoldIsSequential` | par_accumulate.h:28 | For any valid plan, and so for any partition count, the reduced per-partition folds equal the sequential fold of `accumulateF` over the whole range from `initF()`, provided `reduceF` composes partial folds. |
| `ParAccumulate.EffectiveThreads` | par_accumulate.h:10-12 | The guarded variant plans with a positive thread count: the given one when it is positive, exactly one when it is zero. |
| `ParAccumulate.GuardedFoldIsSequential` | par_accumulate.h:9-28 | For every range, including the empty one, and every thread count, including zero, the guarded fold equals the sequential fold, provided `reduceF` composes partial folds. |
| `ParAccumulate.AccumulateGuarded` | par_accumulate.h:9-28 | Returns `initF()` for an empty range. Otherwise it returns the partitioned fold for the thread count, or for one thread when the count is zero. Whenever `reduceF` composes partial folds, the result is the sequential fold of the whole range. |
| `Examples.SumIsSequential` | par_accumulate.h:28 | With `initF` = 0 and `+` for both callables, the partitioned fold equals the sequential sum for every range and thread count. |
| `Examples.SumOneToTen` | par_accumulate.h:8-29 | The partitioned sum of 1..10 is 55 for every thread count. |
| `Examples.SnocFoldRebuilds` | par_accumulate.h:23-25 | Folding "append one element" over a range, starting from the empty sequence, rebuilds the range. |
| `Examples.ConcatIsSequential` | par_accumulate.h:28 | With the in-order reduce and concatenation as `reduceF`, which is associative but not commutative, the partitioned fold returns the range itself, in range order, for every thread count. |
| `Examples.CollectInOrder` | par_accumulate.h:8-29 | Collecting the elements through the partitioned fold returns exactly the input range. |
| `Examples.TenOnFour` | par_accumulate.h:12-21 | Ten elements on four threads give four partitions with a chunk size of 2; the last partition is 4 long. |

## Left out

- The hardware concurrency query (par_accumulate.h:10) is the parameter `threadCount`, because it is ambient process state.
- Execution policies and real parallel scheduling (par_accumulate.h:18 and 28) are not modelled. The accumulate phase runs its partitions one after another, in index order. This gives the same result because each worker writes only its own accumulator and only reads the range.
- `std::reduce` may regroup and reorder its operands. The model reduces as an in-order left fold. `ReduceSplit` covers regrouping into two halves under associativity and identity. Reordering, which needs a commutative `reduceF`, is not modelled.
- The recipe "reduceF is associative and initF() is its identity" is not a hypothesis of the main theorem. The composition obligation alone suffices, and it implies that identity on partial folds. The matching associativity on partial folds, which composition also implies, is not stated as a lemma.
- Template and iterator generality, `[[nodiscard]]` and `decltype` are not modelled. The range is a `seq<T>`, and iterator arithmetic is offset arithmetic.
- Exceptions thrown by the callables, and any side effects they have, are not modelled. The callables are total, pure functions, so every call of `initF()` gives the same value.
- The signed/unsigned comparison at par_accumulate.h:12 is not modelled. Sizes and thread counts are `nat`, so `last >= first` is built in.
- Value-initialisation of the results vector before `std::generate` is modelled by Dafny's default array contents. This needs `R` to have a default value, the counterpart of the source's default-constructible `R`.

## Findings

| source | as written | input that shows it | evidently intended | confidence | as-written member | corrected member |
|---|---|---|---|---|---|---|
| par_accumulate.h:12-18 | `result_count` is `min(hardware_concurrency(), size)`, then `chunk_size = size / result_count` and `&results[0]`, with no guard | an empty range (`first == last`), or `hardware_concurrency()` returning 0: `result_count` is 0, so line 13 divides by zero and line 18 indexes an empty vector | an empty range returns `initF()`; an unknown concurrency plans with one partition, so the result is the sequential fold for every input | not executed | `Partition.ResultCount` | `ParAccumulate.AccumulateGuarded` |

`Partition.ResultCount` states that the partition count is zero exactly on these inputs. `Partition.ChunkSize` requires a positive count, so `Accumulate`, which follows the source, must require a non-empty range and a positive thread count. `ParAccumulate.GuardedFoldIsSequential` proves that the corrected variant equals the sequential fold on every input, and the examples go through the corrected variant.
