/** Order-preserving selection from a sequence, with the positions it selects, and other
    small facts about sequences. */
module Seqs {
  import opened Wrappers

  /** Keeps, in input order, the values that `pick` extracts from the elements it accepts
      (an element is accepted when `pick` returns `Some`). */
  function Choose<T, U>(xs: seq<T>, pick: T -> Option<U>): (ys: seq<U>)
    ensures |ys| <= |xs|
    decreases |xs|
  {
    if xs == [] then []
    else
      var rest := Choose(xs[..|xs| - 1], pick);
      match pick(xs[|xs| - 1])
      case None => rest
      case Some(y) => rest + [y]
  }

  /** The positions of the accepted elements: strictly increasing, and containing
      exactly the indices whose element `pick` accepts. */
  function Positions<T, U>(xs: seq<T>, pick: T -> Option<U>): (idx: seq<nat>)
    ensures forall k :: 0 <= k < |idx| ==> idx[k] < |xs| && pick(xs[idx[k]]).Some?
    ensures forall a, b :: 0 <= a < b < |idx| ==> idx[a] < idx[b]
    ensures forall i :: 0 <= i < |xs| && pick(xs[i]).Some? ==> i in idx
    decreases |xs|
  {
    if xs == [] then []
    else
      var front := xs[..|xs| - 1];
      var rest := Positions(front, pick);
      assert forall k :: 0 <= k < |rest| ==> xs[rest[k]] == front[rest[k]];
      if pick(xs[|xs| - 1]).Some? then rest + [|xs| - 1] else rest
  }

  /** `Choose` returns exactly the picked values of the elements at `Positions`, in order:
      the result is the subsequence of accepted elements and nothing else. */
  lemma {:induction false} ChooseAtPositions<T, U>(xs: seq<T>, pick: T -> Option<U>)
    ensures |Choose(xs, pick)| == |Positions(xs, pick)|
    ensures forall k :: 0 <= k < |Choose(xs, pick)| ==>
              pick(xs[Positions(xs, pick)[k]]) == Some(Choose(xs, pick)[k])
    decreases |xs|
  {
    if xs != [] {
      var front := xs[..|xs| - 1];
      ChooseAtPositions(front, pick);
      var idx := Positions(front, pick);
      assert forall k :: 0 <= k < |idx| ==> xs[idx[k]] == front[idx[k]];
    }
  }

  /** The position of the first occurrence of `x` in `xs`, if any. */
  function FirstIndex<T(==)>(xs: seq<T>, x: T): (r: Option<nat>)
    ensures r.Some? ==> r.value < |xs| && xs[r.value] == x
    ensures r.None? <==> x !in xs
    decreases |xs|
  {
    if xs == [] then None
    else if xs[0] == x then Some(0)
    else match FirstIndex(xs[1..], x)
      case None => None
      case Some(i) => Some(i + 1)
  }

  /** `FirstIndex` finds the first occurrence and no later one. */
  lemma {:induction false} FirstIndexIsFirst<T>(xs: seq<T>, x: T, i: nat)
    requires i < |xs| && xs[i] == x
    requires forall k :: 0 <= k < i ==> xs[k] != x
    ensures FirstIndex(xs, x) == Some(i)
    decreases i
  {
    if i > 0 {
      FirstIndexIsFirst(xs[1..], x, i - 1);
    }
  }

  /** Choosing from one element more appends that element's pick, if any. */
  lemma ChooseSnoc<T, U>(xs: seq<T>, pick: T -> Option<U>, j: nat)
    requires 0 < j <= |xs|
    ensures Choose(xs[..j], pick) ==
            Choose(xs[..j - 1], pick) + (match pick(xs[j - 1]) case None => [] case Some(y) => [y])
  {
    assert xs[..j][..j - 1] == xs[..j - 1];
  }

  /** No element is accepted exactly when nothing is chosen. */
  lemma ChooseEmpty<T, U>(xs: seq<T>, pick: T -> Option<U>)
    ensures Choose(xs, pick) == [] <==> forall i :: 0 <= i < |xs| ==> pick(xs[i]).None?
  {
    ChooseAtPositions(xs, pick);
    var idx := Positions(xs, pick);
    if exists i :: 0 <= i < |xs| && pick(xs[i]).Some? {
      var i :| 0 <= i < |xs| && pick(xs[i]).Some?;
      assert i in idx;
    }
  }

  /** Appending nothing; kept apart, like `ConcatAssoc`, for callers with heavy terms in scope. */
  lemma ConcatEmpty<T>(a: seq<T>)
    ensures a + [] == a
  {
  }

  /** Prepending nothing; the mirror of `ConcatEmpty`. */
  lemma ConcatEmptyLeft<T>(a: seq<T>)
    ensures [] + a == a
  {
  }

  /** Concatenation regrouped; kept apart so callers with heavy terms in scope need not re-derive it. */
  lemma ConcatAssoc<T>(a: seq<T>, b: seq<T>, c: seq<T>)
    ensures (a + b) + c == a + (b + c)
  {
  }

  /** The middle piece of a concatenation is the slice at its offsets. */
  lemma MiddleSlice<T>(a: seq<T>, b: seq<T>, c: seq<T>)
    ensures (a + b + c)[|a|..|a| + |b|] == b
  {
    var s := a + b + c;
    forall k | 0 <= k < |b|
      ensures s[|a|..|a| + |b|][k] == b[k]
    {
      assert s[|a| + k] == b[k];
    }
  }

  /** Cutting a sequence at two offsets and putting the pieces back gives it back. */
  lemma CutTwice<T>(s: seq<T>, i: nat, j: nat)
    requires i <= j <= |s|
    ensures s == s[..i] + s[i..j] + s[j..]
  {
    assert s[..j] == s[..i] + s[i..j];
    assert s == s[..j] + s[j..];
  }

  /** `f` applied to every element, in order. */
  function Map<T, U>(xs: seq<T>, f: T -> U): (ys: seq<U>)
    ensures |ys| == |xs|
  {
    seq(|xs|, k requires 0 <= k < |xs| => f(xs[k]))
  }

}
