/** Two instances of the partitioned fold with the in-order reduce: an
    integer sum, where any partition count gives the same total, and
    concatenation, a reduce that is associative but not commutative, where
    the result keeps range order. */
module Examples {
  import opened Folds
  import opened Partition
  import opened ParAccumulate

  function Zero(): int { 0 }

  function Add(a: int, b: int): int { a + b }

  function Empty<T>(): seq<T> { [] }

  function Snoc<T>(acc: seq<T>, x: T): seq<T> { acc + [x] }

  function Concat<T>(a: seq<T>, b: seq<T>): seq<T> { a + b }

  /** Summing in partitions is summing sequentially, for any range and any
      thread count. */
  lemma SumIsSequential(range: seq<int>, threadCount: nat)
    ensures GuardedFold(range, threadCount, Zero, Add, Add) == FoldLeft(Add, 0, range)
  {
    ComposesFromMonoid(Zero(), Add, Add);
    GuardedFoldIsSequential(range, threadCount, Zero, Add, Add);
  }

  /** Sum of 1..10 with `initF` = 0 and both callables `+`: 55, whatever the
      thread count. */
  method SumOneToTen(threadCount: nat) returns (r: int)
    ensures r == 55
  {
    var range := [1, 2, 3, 4, 5, 6, 7, 8, 9, 10];
    r := AccumulateGuarded(range, threadCount, Zero, Add, Add);
    SumIsSequential(range, threadCount);
    assert FoldLeft(Add, 0, [1]) == 1;
    assert [1, 2][..1] == [1];
    assert FoldLeft(Add, 0, [1, 2]) == 3;
    assert [1, 2, 3][..2] == [1, 2];
    assert FoldLeft(Add, 0, [1, 2, 3]) == 6;
    assert [1, 2, 3, 4][..3] == [1, 2, 3];
    assert FoldLeft(Add, 0, [1, 2, 3, 4]) == 10;
    assert [1, 2, 3, 4, 5][..4] == [1, 2, 3, 4];
    assert FoldLeft(Add, 0, [1, 2, 3, 4, 5]) == 15;
    assert [1, 2, 3, 4, 5, 6][..5] == [1, 2, 3, 4, 5];
    assert FoldLeft(Add, 0, [1, 2, 3, 4, 5, 6]) == 21;
    assert [1, 2, 3, 4, 5, 6, 7][..6] == [1, 2, 3, 4, 5, 6];
    assert FoldLeft(Add, 0, [1, 2, 3, 4, 5, 6, 7]) == 28;
    assert [1, 2, 3, 4, 5, 6, 7, 8][..7] == [1, 2, 3, 4, 5, 6, 7];
    assert FoldLeft(Add, 0, [1, 2, 3, 4, 5, 6, 7, 8]) == 36;
    assert [1, 2, 3, 4, 5, 6, 7, 8, 9][..8] == [1, 2, 3, 4, 5, 6, 7, 8];
    assert FoldLeft(Add, 0, [1, 2, 3, 4, 5, 6, 7, 8, 9]) == 45;
    assert [1, 2, 3, 4, 5, 6, 7, 8, 9, 10][..9] == [1, 2, 3, 4, 5, 6, 7, 8, 9];
    assert FoldLeft(Add, 0, [1, 2, 3, 4, 5, 6, 7, 8, 9, 10]) == 55;
  }

  /** Appending one element at a time to the empty sequence rebuilds it. */
  lemma {:induction false} SnocFoldRebuilds<T>(xs: seq<T>)
    ensures FoldLeft(Snoc, Empty(), xs) == xs
    decreases |xs|
  {
    if xs != [] {
      SnocFoldRebuilds(xs[..|xs| - 1]);
    }
  }

  /** With the in-order reduce, concatenating the partitions in partition
      order gives back the range, for any range and any thread count. */
  lemma ConcatIsSequential<T(!new)>(range: seq<T>, threadCount: nat)
    ensures GuardedFold(range, threadCount, Empty, Snoc, Concat) == range
  {
    forall a: seq<T>, b: seq<T>, c: seq<T> ensures Concat(Concat(a, b), c) == Concat(a, Concat(b, c)) {
      assert (a + b) + c == a + (b + c);
    }
    forall b: seq<T> ensures Concat(b, Empty()) == b {
      assert b + [] == b;
    }
    forall b: seq<T>, x: T ensures Snoc(b, x) == Concat(b, Snoc(Empty(), x)) {
      assert [] + [x] == [x];
    }
    ComposesFromMonoid(Empty<T>(), Snoc, Concat);
    GuardedFoldIsSequential(range, threadCount, Empty, Snoc, Concat);
    SnocFoldRebuilds(range);
  }

  /** Collecting the elements with a concatenating, in-order reduce
      preserves range order whatever the partition count. */
  method CollectInOrder<T(!new)>(range: seq<T>, threadCount: nat) returns (r: seq<T>)
    ensures r == range
  {
    r := AccumulateGuarded(range, threadCount, Empty, Snoc, Concat);
    ConcatIsSequential(range, threadCount);
  }

  /** Ten elements on four threads: four partitions of two elements, the
      last one taking the remainder, so its length is four. */
  lemma TenOnFour()
    ensures MakePlan(4, 10) == Plan(10, 4, 2)
    ensures MakePlan(4, 10).End(3) - MakePlan(4, 10).Start(3) == 4
  {
    PartitionLengths(MakePlan(4, 10), 3);
  }
}
