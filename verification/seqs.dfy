/** Order-preserving filtering of sequences, the shape of Rust's `filter_map(..).collect()`. */
module Seqs {
  import opened Wrappers

  /** Keeps, in order, the value `f` gives for each element from position `from` on that it does not reject. */
  function FilterMapFrom<A, B>(xs: seq<A>, f: A -> Option<B>, from: nat): (ys: seq<B>)
    requires from <= |xs|
    ensures |ys| <= |xs| - from
    decreases |xs| - from
  {
    if from == |xs| then []
    else
      var head := match f(xs[from]) case Some(y) => [y] case None => [];
      head + FilterMapFrom(xs, f, from + 1)
  }

  function FilterMap<A, B>(xs: seq<A>, f: A -> Option<B>): seq<B> {
    FilterMapFrom(xs, f, 0)
  }

  /** The positions from `from` on of the elements `f` keeps, in ascending order. */
  function KeptFrom<A, B>(xs: seq<A>, f: A -> Option<B>, from: nat): (idx: seq<nat>)
    requires from <= |xs|
    ensures forall k | 0 <= k < |idx| :: from <= idx[k] < |xs| && f(xs[idx[k]]).Some?
    ensures forall i | from <= i < |xs| && f(xs[i]).Some? :: i in idx
    ensures forall k, l | 0 <= k < l < |idx| :: idx[k] < idx[l]
    decreases |xs| - from
  {
    if from == |xs| then []
    else if f(xs[from]).Some? then [from] + KeptFrom(xs, f, from + 1)
    else KeptFrom(xs, f, from + 1)
  }

  function Kept<A, B>(xs: seq<A>, f: A -> Option<B>): seq<nat> {
    KeptFrom(xs, f, 0)
  }

  /** Position by position, the filtered values are those of the kept elements. */
  lemma {:induction false} FilterMapFromAt<A, B>(xs: seq<A>, f: A -> Option<B>, from: nat)
    requires from <= |xs|
    ensures var ys, idx := FilterMapFrom(xs, f, from), KeptFrom(xs, f, from);
      && |ys| == |idx|
      && forall k | 0 <= k < |ys| :: f(xs[idx[k]]) == Some(ys[k])
    decreases |xs| - from
  {
    if from < |xs| {
      FilterMapFromAt(xs, f, from + 1);
      var ys, idx := FilterMapFrom(xs, f, from), KeptFrom(xs, f, from);
      var rest, restIdx := FilterMapFrom(xs, f, from + 1), KeptFrom(xs, f, from + 1);
      match f(xs[from]) {
        case Some(y) =>
          assert ys == [y] + rest && idx == [from] + restIdx;
          forall k | 0 <= k < |ys| ensures f(xs[idx[k]]) == Some(ys[k]) {
            if k > 0 {
              assert ys[k] == rest[k - 1] && idx[k] == restIdx[k - 1];
            }
          }
        case None =>
          assert ys == rest && idx == restIdx;
      }
    }
  }

  /** The output of `FilterMap` is an order-preserving subsequence: the kept elements' values, in order. */
  lemma FilterMapAt<A, B>(xs: seq<A>, f: A -> Option<B>)
    ensures var ys, idx := FilterMap(xs, f), Kept(xs, f);
      && |ys| == |idx|
      && (forall k | 0 <= k < |ys| :: idx[k] < |xs| && f(xs[idx[k]]) == Some(ys[k]))
      && (forall i | 0 <= i < |xs| :: f(xs[i]).Some? <==> i in idx)
      && (forall k, l | 0 <= k < l < |idx| :: idx[k] < idx[l])
  {
    FilterMapFromAt(xs, f, 0);
  }

  /** When `f` rejects nothing from `from` on, the output has one value per element, position by position. */
  lemma {:induction false} FilterMapTotal<A, B>(xs: seq<A>, f: A -> Option<B>, from: nat)
    requires from <= |xs|
    requires forall i | from <= i < |xs| :: f(xs[i]).Some?
    ensures var ys := FilterMapFrom(xs, f, from);
      && |ys| == |xs| - from
      && forall i | 0 <= i < |ys| :: f(xs[from + i]) == Some(ys[i])
    decreases |xs| - from
  {
    if from < |xs| {
      FilterMapTotal(xs, f, from + 1);
    }
  }

  /** The value `f` gives for one element, as a sequence of zero or one values. */
  function Kept1<A, B>(x: A, f: A -> Option<B>): seq<B> {
    match f(x) case Some(y) => [y] case None => []
  }

  lemma {:induction false} FilterMapFromSnoc<A, B>(xs: seq<A>, x: A, f: A -> Option<B>, from: nat)
    requires from <= |xs|
    ensures FilterMapFrom(xs + [x], f, from) == FilterMapFrom(xs, f, from) + Kept1(x, f)
    decreases |xs| - from
  {
    if from < |xs| {
      assert (xs + [x])[from] == xs[from];
      FilterMapFromSnoc(xs, x, f, from + 1);
    } else {
      assert (xs + [x])[from] == x;
    }
  }

  /** Filtering one more element appends at most its own value: what lets a loop build the result. */
  lemma FilterMapSnoc<A, B>(xs: seq<A>, x: A, f: A -> Option<B>)
    ensures FilterMap(xs + [x], f) == FilterMap(xs, f) + Kept1(x, f)
  {
    FilterMapFromSnoc(xs, x, f, 0);
  }

  /** Two selections that agree on every element of `xs` keep the same values. */
  lemma {:induction false} FilterMapFromCongruent<A, B>(xs: seq<A>, f: A -> Option<B>, g: A -> Option<B>, from: nat)
    requires from <= |xs|
    requires forall i | from <= i < |xs| :: f(xs[i]) == g(xs[i])
    ensures FilterMapFrom(xs, f, from) == FilterMapFrom(xs, g, from)
    decreases |xs| - from
  {
    if from < |xs| {
      FilterMapFromCongruent(xs, f, g, from + 1);
    }
  }

  lemma FilterMapCongruent<A, B>(xs: seq<A>, f: A -> Option<B>, g: A -> Option<B>)
    requires forall i | 0 <= i < |xs| :: f(xs[i]) == g(xs[i])
    ensures FilterMap(xs, f) == FilterMap(xs, g)
  {
    FilterMapFromCongruent(xs, f, g, 0);
  }
}
