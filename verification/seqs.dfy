/** Order-preserving selections over sequences: the `Array.prototype.filter`
    of the bot and the mask-based selection used when probe results narrow
    the proxy pool. */
module Seqs {

  /** The elements of `xs` that satisfy `f`, in their original order. */
  function Filter<T>(xs: seq<T>, f: T -> bool): (r: seq<T>)
    ensures |r| <= |xs|
    ensures forall i :: 0 <= i < |r| ==> f(r[i])
  {
    if xs == [] then []
    else (if f(xs[0]) then [xs[0]] else []) + Filter(xs[1..], f)
  }

  /** The elements of `xs` whose position is marked in `mask`, in order. */
  function Select<T>(xs: seq<T>, mask: seq<bool>): (r: seq<T>)
    requires |mask| == |xs|
    ensures |r| <= |xs|
    ensures forall i :: 0 <= i < |r| ==> r[i] in xs
  {
    if xs == [] then []
    else (if mask[0] then [xs[0]] else []) + Select(xs[1..], mask[1..])
  }

  /** `xs` is obtained from `ys` by deleting some elements, keeping order. */
  ghost predicate IsSubsequence<T>(xs: seq<T>, ys: seq<T>) {
    exists mask :: |mask| == |ys| && Select(ys, mask) == xs
  }

  /** The mask marking the positions of `xs` whose element satisfies `f`. */
  function Marks<T>(xs: seq<T>, f: T -> bool): (r: seq<bool>)
    ensures |r| == |xs|
    ensures forall i :: 0 <= i < |xs| ==> r[i] == f(xs[i])
  {
    seq(|xs|, i requires 0 <= i < |xs| => f(xs[i]))
  }

  function Ones(n: nat): (r: seq<bool>)
    ensures |r| == n
    ensures forall i :: 0 <= i < n ==> r[i]
  {
    seq(n, _ => true)
  }

  /** Filtering distributes over concatenation: it neither reorders nor mixes
      the two halves. */
  lemma {:induction false} FilterAppend<T>(xs: seq<T>, ys: seq<T>, f: T -> bool)
    ensures Filter(xs + ys, f) == Filter(xs, f) + Filter(ys, f)
  {
    if xs == [] {
      assert xs + ys == ys;
    } else {
      assert (xs + ys)[1..] == xs[1..] + ys;
      FilterAppend(xs[1..], ys, f);
    }
  }

  /** An element survives the filter exactly when it occurs in the input and
      satisfies the predicate. */
  lemma {:induction false} FilterMembership<T>(xs: seq<T>, f: T -> bool, x: T)
    ensures x in Filter(xs, f) <==> x in xs && f(x)
  {
    if xs != [] {
      FilterMembership(xs[1..], f, x);
      assert xs == [xs[0]] + xs[1..];
    }
  }

  /** A sequence all of whose elements pass is its own filter. */
  lemma {:induction false} FilterAllPass<T>(xs: seq<T>, f: T -> bool)
    requires forall i :: 0 <= i < |xs| ==> f(xs[i])
    ensures Filter(xs, f) == xs
  {
    if xs != [] {
      FilterAllPass(xs[1..], f);
    }
  }

  /** Filtering twice is filtering once. */
  lemma FilterIdempotent<T>(xs: seq<T>, f: T -> bool)
    ensures Filter(Filter(xs, f), f) == Filter(xs, f)
  {
    FilterAllPass(Filter(xs, f), f);
  }

  /** Selection distributes over concatenation of masked sequences. */
  lemma {:induction false} SelectAppend<T>(xs: seq<T>, ys: seq<T>, mx: seq<bool>, my: seq<bool>)
    requires |mx| == |xs| && |my| == |ys|
    ensures Select(xs + ys, mx + my) == Select(xs, mx) + Select(ys, my)
  {
    if xs == [] {
      assert xs + ys == ys;
      assert mx + my == my;
    } else {
      assert (xs + ys)[1..] == xs[1..] + ys;
      assert (mx + my)[1..] == mx[1..] + my;
      SelectAppend(xs[1..], ys, mx[1..], my);
    }
  }

  /** Selecting every position gives the sequence back. */
  lemma {:induction false} SelectOnes<T>(xs: seq<T>)
    ensures Select(xs, Ones(|xs|)) == xs
  {
    if xs != [] {
      assert Ones(|xs|)[1..] == Ones(|xs| - 1);
      SelectOnes(xs[1..]);
    }
  }

  /** Selecting no position gives the empty sequence. */
  lemma {:induction false} SelectNone<T>(xs: seq<T>, mask: seq<bool>)
    requires |mask| == |xs|
    requires forall i :: 0 <= i < |mask| ==> !mask[i]
    ensures Select(xs, mask) == []
  {
    if xs != [] {
      SelectNone(xs[1..], mask[1..]);
    }
  }

  /** A filter is the selection of the positions whose element passes, so
      it is a subsequence of its input. */
  lemma {:induction false} FilterIsSubsequence<T>(xs: seq<T>, f: T -> bool)
    ensures Select(xs, Marks(xs, f)) == Filter(xs, f)
    ensures IsSubsequence(Filter(xs, f), xs)
  {
    if xs != [] {
      FilterIsSubsequence(xs[1..], f);
      assert Marks(xs, f)[1..] == Marks(xs[1..], f);
    }
  }
}
