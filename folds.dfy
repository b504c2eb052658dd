/** Left folds over sequences. `FoldLeft` is both the sequential reference the
    partitioned fold is proved against and, instantiated with the reduce
    callable, the in-order reduction of the per-partition results. */
module Folds {

  /** Folds the elements of `xs` into `acc` with `f`, left to right. */
  function FoldLeft<T, R>(f: (R, T) -> R, acc: R, xs: seq<T>): R
    decreases |xs|
  {
    if xs == [] then acc else f(FoldLeft(f, acc, xs[..|xs| - 1]), xs[|xs| - 1])
  }

  /** Concatenates a sequence of sequences in order. */
  function Flatten<T>(ss: seq<seq<T>>): seq<T>
    decreases |ss|
  {
    if ss == [] then [] else Flatten(ss[..|ss| - 1]) + ss[|ss| - 1]
  }

  /** The fold of each chunk, each started from `init`. */
  function PartialFolds<T, R>(init: R, accumulate: (R, T) -> R, chunks: seq<seq<T>>): seq<R>
  {
    seq(|chunks|, i requires 0 <= i < |chunks| => FoldLeft(accumulate, init, chunks[i]))
  }

  /** The caller's obligation: reducing two partial folds gives the fold of
      the concatenated ranges. */
  ghost predicate ComposesPartialFolds<T(!new), R>(init: R, accumulate: (R, T) -> R, reduce: (R, R) -> R)
  {
    forall xs: seq<T>, ys: seq<T> {:trigger reduce(FoldLeft(accumulate, init, xs), FoldLeft(accumulate, init, ys))} ::
      reduce(FoldLeft(accumulate, init, xs), FoldLeft(accumulate, init, ys)) == FoldLeft(accumulate, init, xs + ys)
  }

  ghost predicate Associative<R(!new)>(reduce: (R, R) -> R)
  {
    forall a, b, c :: reduce(reduce(a, b), c) == reduce(a, reduce(b, c))
  }

  ghost predicate IsIdentity<R(!new)>(e: R, reduce: (R, R) -> R)
  {
    forall a :: reduce(e, a) == a && reduce(a, e) == a
  }

  /** Folding a concatenation folds the second part on from where the first
      part left off. */
  lemma {:induction false} FoldLeftAppend<T, R>(f: (R, T) -> R, acc: R, xs: seq<T>, ys: seq<T>)
    ensures FoldLeft(f, acc, xs + ys) == FoldLeft(f, FoldLeft(f, acc, xs), ys)
    decreases |ys|
  {
    if ys == [] {
      assert xs + ys == xs;
    } else {
      var zs := xs + ys;
      assert zs[..|zs| - 1] == xs + ys[..|ys| - 1];
      FoldLeftAppend(f, acc, xs, ys[..|ys| - 1]);
    }
  }

  /** The fold takes the first element first: it folds `xs[0]` into `acc`
      and then the rest of `xs`, in order, into that. */
  lemma FoldLeftFront<T, R>(f: (R, T) -> R, acc: R, xs: seq<T>)
    requires xs != []
    ensures FoldLeft(f, acc, xs) == FoldLeft(f, f(acc, xs[0]), xs[1..])
  {
    var x: seq<T> := [xs[0]];
    assert xs == x + xs[1..];
    assert x[..0] == [];
    FoldLeftAppend(f, acc, x, xs[1..]);
  }

  /** Reducing the partial folds of consecutive chunks in chunk order, seeded
      with `init`, gives the fold of all their elements in order. */
  lemma {:induction false} ReducePartialFolds<T(!new), R>(init: R, accumulate: (R, T) -> R, reduce: (R, R) -> R, chunks: seq<seq<T>>)
    requires ComposesPartialFolds(init, accumulate, reduce)
    ensures FoldLeft(reduce, init, PartialFolds(init, accumulate, chunks)) == FoldLeft(accumulate, init, Flatten(chunks))
    decreases |chunks|
  {
    if chunks != [] {
      var n := |chunks|;
      var rs := PartialFolds(init, accumulate, chunks);
      assert rs[..n - 1] == PartialFolds(init, accumulate, chunks[..n - 1]);
      ReducePartialFolds(init, accumulate, reduce, chunks[..n - 1]);
      var prefix := Flatten(chunks[..n - 1]);
      assert reduce(FoldLeft(accumulate, init, prefix), FoldLeft(accumulate, init, chunks[n - 1]))
          == FoldLeft(accumulate, init, prefix + chunks[n - 1]);
    }
  }

  /** The composition obligation already makes `init` an identity for
      `reduce` on partial folds. */
  lemma ComposesGivesIdentityOnFolds<T(!new), R>(init: R, accumulate: (R, T) -> R, reduce: (R, R) -> R, xs: seq<T>)
    requires ComposesPartialFolds(init, accumulate, reduce)
    ensures reduce(init, FoldLeft(accumulate, init, xs)) == FoldLeft(accumulate, init, xs)
    ensures reduce(FoldLeft(accumulate, init, xs), init) == FoldLeft(accumulate, init, xs)
  {
    var e: seq<T> := [];
    assert FoldLeft(accumulate, init, e) == init;
    assert e + xs == xs && xs + e == xs;
    assert reduce(FoldLeft(accumulate, init, e), FoldLeft(accumulate, init, xs)) == FoldLeft(accumulate, init, e + xs);
    assert reduce(FoldLeft(accumulate, init, xs), FoldLeft(accumulate, init, e)) == FoldLeft(accumulate, init, xs + e);
  }

  /** When `reduce` is associative with right identity `init` and folding one
      element is reducing with that element's own fold, folding from any
      accumulator `a` is reducing `a` with the fold from `init`. */
  lemma {:induction false} FoldFromAnyAccumulator<T, R(!new)>(init: R, accumulate: (R, T) -> R, reduce: (R, R) -> R, a: R, ys: seq<T>)
    requires Associative(reduce)
    requires forall b :: reduce(b, init) == b
    requires forall b, x :: accumulate(b, x) == reduce(b, accumulate(init, x))
    ensures FoldLeft(accumulate, a, ys) == reduce(a, FoldLeft(accumulate, init, ys))
    decreases |ys|
  {
    if ys != [] {
      var front, y := ys[..|ys| - 1], ys[|ys| - 1];
      FoldFromAnyAccumulator(init, accumulate, reduce, a, front);
      var p := FoldLeft(accumulate, init, front);
      calc {
        FoldLeft(accumulate, a, ys);
        accumulate(reduce(a, p), y);
        reduce(reduce(a, p), accumulate(init, y));
        reduce(a, reduce(p, accumulate(init, y)));
        reduce(a, accumulate(p, y));
        reduce(a, FoldLeft(accumulate, init, ys));
      }
    }
  }

  /** A sufficient condition for the composition obligation: `reduce` is
      associative with right identity `init`, and folding one element is
      reducing with that element's own fold (integer sum, concatenation). */
  lemma ComposesFromMonoid<T(!new), R(!new)>(init: R, accumulate: (R, T) -> R, reduce: (R, R) -> R)
    requires Associative(reduce)
    requires forall b :: reduce(b, init) == b
    requires forall b, x :: accumulate(b, x) == reduce(b, accumulate(init, x))
    ensures ComposesPartialFolds(init, accumulate, reduce)
  {
    forall xs: seq<T>, ys: seq<T>
      ensures reduce(FoldLeft(accumulate, init, xs), FoldLeft(accumulate, init, ys)) == FoldLeft(accumulate, init, xs + ys)
    {
      FoldLeftAppend(accumulate, init, xs, ys);
      FoldFromAnyAccumulator(init, accumulate, reduce, FoldLeft(accumulate, init, xs), ys);
    }
  }

  /** With an associative `reduce` and identity `init`, the in-order
      reduction of `a + b` is the reduction of the two halves' reductions:
      the one regrouping of the reduce step that needs no commutativity. */
  lemma ReduceSplit<R(!new)>(init: R, reduce: (R, R) -> R, a: seq<R>, b: seq<R>)
    requires Associative(reduce)
    requires IsIdentity(init, reduce)
    ensures FoldLeft(reduce, init, a + b) == reduce(FoldLeft(reduce, init, a), FoldLeft(reduce, init, b))
  {
    ComposesFromMonoid(init, reduce, reduce);
  }
}
