/** The partition plan of `parallel::accumulate`: how many chunks the range
    is cut into, how long they are, and where each one starts and ends.
    Offsets are relative to `first`, so the range is `[0, size)`. */
module Partition {
  import opened Folds

  /** The number of partitions: the smaller of the thread count and the
      range size. It is zero exactly when one of the two is zero. */
  function ResultCount(threadCount: nat, size: nat): (p: nat)
    ensures p <= threadCount && p <= size
    ensures p == threadCount || p == size
    ensures p == 0 <==> threadCount == 0 || size == 0
  {
    if threadCount < size then threadCount else size
  }

  /** The length of every partition but the last; defined only for a
      positive partition count. */
  function ChunkSize(size: nat, count: nat): (c: nat)
    requires count > 0
    ensures count * c <= size < count * c + count
    ensures count <= size ==> c >= 1
  {
    size / count
  }

  /** A partition plan over a range of `size` elements: `count` partitions,
      all but the last `chunk` elements long. */
  datatype Plan = Plan(size: nat, count: nat, chunk: nat)
  {
    predicate Valid()
    {
      0 < count <= size && chunk == ChunkSize(size, count)
    }

    /** Offset of the first element of partition `i`: `i` chunks in. In a
        valid plan every partition starts inside the range. */
    function Start(i: nat): (s: nat)
      ensures Valid() && i < count ==> s < size
    {
      if Valid() && i < count then
        MulMonotone(i + 1, count, chunk);
        assert (i + 1) * chunk == i * chunk + chunk;
        i * chunk
      else
        i * chunk
    }

    /** Offset one past the last element of partition `i`: the end of the
        range for the last partition, one chunk on from its start for the
        others. Every partition is non-empty and inside the range. */
    function End(i: nat): (e: nat)
      requires Valid() && i < count
      ensures Start(i) < e <= size
    {
      BoundsOfPartition(this, i);
      if i == count - 1 then size else Start(i) + chunk
    }

    /** The partition that holds offset `k`. */
    function Owner(k: nat): nat
      requires Valid()
    {
      if k / chunk < count - 1 then k / chunk else count - 1
    }
  }

  /** The plan the source computes for a thread count and a range size. */
  function MakePlan(threadCount: nat, size: nat): (plan: Plan)
    requires threadCount > 0 && size > 0
    ensures plan.Valid() && plan.size == size
    ensures plan.count == ResultCount(threadCount, size)
    ensures 1 <= plan.count <= size && plan.count <= threadCount
  {
    var count := ResultCount(threadCount, size);
    Plan(size, count, ChunkSize(size, count))
  }

  lemma MulMonotone(a: nat, b: nat, c: nat)
    requires a <= b
    ensures a * c <= b * c
  {}

  lemma BoundsOfPartition(plan: Plan, i: nat)
    requires plan.Valid() && i < plan.count
    ensures plan.Start(i) < plan.size
    ensures i < plan.count - 1 ==> plan.Start(i) + plan.chunk <= plan.size
  {
    MulMonotone(i + 1, plan.count, plan.chunk);
    assert (i + 1) * plan.chunk == plan.Start(i) + plan.chunk;
  }

  /** Consecutive partitions touch: the first starts at offset 0, each ends
      where the next starts, and the last ends at the end of the range. */
  lemma PartitionsAreAdjacent(plan: Plan)
    requires plan.Valid()
    ensures plan.Start(0) == 0
    ensures forall i :: 0 <= i < plan.count - 1 ==> plan.End(i) == plan.Start(i + 1)
    ensures plan.End(plan.count - 1) == plan.size
  {
    forall i | 0 <= i < plan.count - 1
      ensures plan.End(i) == plan.Start(i + 1)
    {
      assert (i + 1) * plan.chunk == i * plan.chunk + plan.chunk;
    }
  }

  /** Every partition but the last is `chunk` long; the last one also takes
      the remainder `size % count`. */
  lemma PartitionLengths(plan: Plan, i: nat)
    requires plan.Valid() && i < plan.count
    ensures i < plan.count - 1 ==> plan.End(i) - plan.Start(i) == plan.chunk
    ensures i == plan.count - 1 ==> plan.End(i) - plan.Start(i) == plan.chunk + plan.size % plan.count
  {
    var q, r := plan.size / plan.count, plan.size % plan.count;
    assert plan.size == plan.count * q + r;
    assert (plan.count - 1) * q == plan.count * q - q;
  }

  lemma DivIsUnique(k: nat, c: nat, q: nat)
    requires c > 0 && q * c <= k < q * c + c
    ensures k / c == q
  {
    var d := k / c;
    assert k == d * c + k % c;
    if d < q {
      MulMonotone(d + 1, q, c);
    } else if d > q {
      MulMonotone(q + 1, d, c);
    }
  }

  /** Offset `k` of the range lies in partition `i` exactly when `i` is its
      owner, so every element belongs to one partition and no other. */
  lemma ExactlyOneOwner(plan: Plan, k: nat, i: nat)
    requires plan.Valid() && k < plan.size && i < plan.count
    ensures plan.Start(i) <= k < plan.End(i) <==> i == plan.Owner(k)
  {
    var c := plan.chunk;
    if i < plan.count - 1 {
      if plan.Start(i) <= k < plan.End(i) {
        DivIsUnique(k, c, i);
      }
      if i == plan.Owner(k) {
        assert k / c == i;
        assert k == (k / c) * c + k % c;
      }
    } else {
      if plan.Start(i) <= k {
        if k / c < plan.count - 1 {
          MulMonotone(k / c + 1, plan.count - 1, c);
        }
      }
      if i == plan.Owner(k) {
        assert k / c >= plan.count - 1;
        MulMonotone(plan.count - 1, k / c, c);
        assert k == (k / c) * c + k % c;
      }
    }
  }

  /** The elements of partition `i` of `range`. */
  function Slice<T>(plan: Plan, range: seq<T>, i: nat): seq<T>
    requires plan.Valid() && |range| == plan.size && i < plan.count
  {
    range[plan.Start(i)..plan.End(i)]
  }

  /** The elements of each partition of `range`, in partition order. */
  function Slices<T>(plan: Plan, range: seq<T>): seq<seq<T>>
    requires plan.Valid() && |range| == plan.size
  {
    seq(plan.count, i requires 0 <= i < plan.count => Slice(plan, range, i))
  }

  lemma {:induction false} SlicesPrefix<T>(plan: Plan, range: seq<T>, k: nat)
    requires plan.Valid() && |range| == plan.size && 0 < k <= plan.count
    ensures Flatten(Slices(plan, range)[..k]) == range[..plan.End(k - 1)]
    decreases k
  {
    var ss := Slices(plan, range);
    assert ss[..k][..k - 1] == ss[..k - 1];
    if k == 1 {
      assert ss[..0] == [];
    } else {
      SlicesPrefix(plan, range, k - 1);
      PartitionsAreAdjacent(plan);
      assert range[..plan.End(k - 2)] + range[plan.Start(k - 1)..plan.End(k - 1)] == range[..plan.End(k - 1)];
    }
  }

  /** Laid end to end in partition order, the partitions are exactly the
      range: nothing dropped, nothing repeated, nothing reordered. */
  lemma SlicesCoverRange<T>(plan: Plan, range: seq<T>)
    requires plan.Valid() && |range| == plan.size
    ensures Flatten(Slices(plan, range)) == range
  {
    var ss := Slices(plan, range);
    SlicesPrefix(plan, range, plan.count);
    assert ss[..plan.count] == ss;
    PartitionsAreAdjacent(plan);
  }
}
