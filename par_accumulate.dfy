/** `parallel::accumulate`: split the range into partitions, fold each one
    into its own accumulator in place, then reduce the accumulators in
    partition order. The per-partition folds touch disjoint accumulators and
    only read the range, so they run here one after another, in partition
    order. */
module ParAccumulate {
  import opened Folds
  import opened Partition

  /** The results vector: `count` accumulators, each set by a call of
      `initF` (the value-initialised vector that `std::generate` fills). */
  method GenerateResults<R(0)>(count: nat, initF: () -> R) returns (results: array<R>)
    ensures fresh(results) && results.Length == count
    ensures forall j :: 0 <= j < count ==> results[j] == initF()
  {
    results := new R[count];
    for k := 0 to count
      invariant forall j :: 0 <= j < k ==> results[j] == initF()
    {
      results[k] := initF();
    }
  }

  /** The worker's loop: folds `range[start..end]`, in order, into
      `results[index]` and touches no other accumulator. */
  method FoldInto<T, R>(range: seq<T>, start: nat, end: nat, results: array<R>, index: nat, accumulateF: (R, T) -> R)
    requires start <= end <= |range| && index < results.Length
    modifies results
    ensures results[index] == FoldLeft(accumulateF, old(results[index]), range[start..end])
    ensures forall j :: 0 <= j < results.Length && j != index ==> results[j] == old(results[j])
  {
    var it := start;
    while it != end
      invariant start <= it <= end
      invariant results[index] == FoldLeft(accumulateF, old(results[index]), range[start..it])
      invariant forall j :: 0 <= j < results.Length && j != index ==> results[j] == old(results[j])
      decreases end - it
    {
      assert range[start..it + 1][..it - start] == range[start..it];
      results[index] := accumulateF(results[index], range[it]);
      it := it + 1;
    }
  }

  /** The worker for partition `index`: folds that partition's elements, in
      range order, into `results[index]` and touches no other accumulator. */
  method AccumulatePartition<T, R>(plan: Plan, range: seq<T>, results: array<R>, index: nat, accumulateF: (R, T) -> R)
    requires plan.Valid() && |range| == plan.size
    requires results.Length == plan.count && index < plan.count
    modifies results
    ensures results[index] == FoldLeft(accumulateF, old(results[index]), Slice(plan, range, index))
    ensures forall j :: 0 <= j < results.Length && j != index ==> results[j] == old(results[j])
  {
    var start := plan.Start(index);
    var end := plan.End(index);
    FoldInto(range, start, end, results, index, accumulateF);
  }

  /** The value the accumulate phase leaves in the results vector: the fold
      of each partition from `initF()`. */
  function AccumulatedResults<T, R>(plan: Plan, range: seq<T>, initF: () -> R, accumulateF: (R, T) -> R): seq<R>
    requires plan.Valid() && |range| == plan.size
  {
    PartialFolds(initF(), accumulateF, Slices(plan, range))
  }

  /** What the source returns for a non-empty range and a positive thread
      count: the in-order reduction, seeded with `initF()`, of the
      per-partition folds. */
  function PartitionedFold<T, R>(range: seq<T>, threadCount: nat, initF: () -> R, accumulateF: (R, T) -> R, reduceF: (R, R) -> R): R
    requires |range| > 0 && threadCount > 0
  {
    FoldLeft(reduceF, initF(), AccumulatedResults(MakePlan(threadCount, |range|), range, initF, accumulateF))
  }

  /** The partitioned fold. The source divides by the partition count, so it
      needs a non-empty range and a positive thread count. */
  method Accumulate<T, R(0)>(range: seq<T>, threadCount: nat, initF: () -> R, accumulateF: (R, T) -> R, reduceF: (R, R) -> R)
    returns (r: R)
    requires |range| > 0 && threadCount > 0
    ensures r == PartitionedFold(range, threadCount, initF, accumulateF, reduceF)
  {
    var size := |range|;
    var resultCount := ResultCount(threadCount, size);
    var chunkSize := ChunkSize(size, resultCount);
    var plan := Plan(size, resultCount, chunkSize);
    var results := GenerateResults(resultCount, initF);
    for i := 0 to resultCount
      invariant forall j :: 0 <= j < i ==> results[j] == FoldLeft(accumulateF, initF(), Slice(plan, range, j))
      invariant forall j :: i <= j < resultCount ==> results[j] == initF()
    {
      AccumulatePartition(plan, range, results, i, accumulateF);
    }
    ghost var expected := AccumulatedResults(plan, range, initF, accumulateF);
    forall j | 0 <= j < resultCount
      ensures results[j] == expected[j]
    {
    }
    assert results[..] == expected;
    assert plan == MakePlan(threadCount, size);
    r := FoldLeft(reduceF, initF(), results[..]);
  }

  /** The correctness claim: whatever the plan, reducing the partition folds
      in order from `initF()` gives the sequential fold of the whole range,
      provided `reduceF` composes partial folds. */
  lemma PartitionedFoldIsSequential<T(!new), R>(plan: Plan, range: seq<T>, initF: () -> R, accumulateF: (R, T) -> R, reduceF: (R, R) -> R)
    requires plan.Valid() && |range| == plan.size
    requires ComposesPartialFolds(initF(), accumulateF, reduceF)
    ensures FoldLeft(reduceF, initF(), AccumulatedResults(plan, range, initF, accumulateF)) == FoldLeft(accumulateF, initF(), range)
  {
    ReducePartialFolds(initF(), accumulateF, reduceF, Slices(plan, range));
    SlicesCoverRange(plan, range);
  }

  /** The thread count the guarded fold plans with: an unknown hardware
      concurrency (zero) is taken as one. */
  function EffectiveThreads(threadCount: nat): (t: nat)
    ensures t > 0 && (threadCount > 0 ==> t == threadCount)
    ensures threadCount == 0 ==> t == 1
  {
    if threadCount == 0 then 1 else threadCount
  }

  /** The partitioned fold with its degenerate inputs guarded: an empty range
      gives `initF()`. */
  function GuardedFold<T, R>(range: seq<T>, threadCount: nat, initF: () -> R, accumulateF: (R, T) -> R, reduceF: (R, R) -> R): R
  {
    if |range| == 0 then initF() else PartitionedFold(range, EffectiveThreads(threadCount), initF, accumulateF, reduceF)
  }

  /** For every range and every thread count, the guarded fold is the
      sequential fold, provided `reduceF` composes partial folds. */
  lemma GuardedFoldIsSequential<T(!new), R>(range: seq<T>, threadCount: nat, initF: () -> R, accumulateF: (R, T) -> R, reduceF: (R, R) -> R)
    requires ComposesPartialFolds(initF(), accumulateF, reduceF)
    ensures GuardedFold(range, threadCount, initF, accumulateF, reduceF) == FoldLeft(accumulateF, initF(), range)
  {
    if |range| > 0 {
      PartitionedFoldIsSequential(MakePlan(EffectiveThreads(threadCount), |range|), range, initF, accumulateF, reduceF);
    }
  }

  /** The partitioned fold with its degenerate inputs guarded: the
      sequential fold on every input whenever `reduceF` composes partial
      folds. */
  method AccumulateGuarded<T(!new), R(0)>(range: seq<T>, threadCount: nat, initF: () -> R, accumulateF: (R, T) -> R, reduceF: (R, R) -> R)
    returns (r: R)
    ensures r == GuardedFold(range, threadCount, initF, accumulateF, reduceF)
    ensures ComposesPartialFolds(initF(), accumulateF, reduceF) ==> r == FoldLeft(accumulateF, initF(), range)
  {
    if |range| == 0 {
      r := initF();
    } else {
      r := Accumulate(range, EffectiveThreads(threadCount), initF, accumulateF, reduceF);
    }
    if ComposesPartialFolds(initF(), accumulateF, reduceF) {
      GuardedFoldIsSequential(range, threadCount, initF, accumulateF, reduceF);
    }
  }
}
