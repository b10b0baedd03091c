/**
  Facts about sequences that the encoder relies on, stated once for any
  element type: mapping a function over a sequence, totals, and where one
  sequence occurs inside another.
*/
module Seqs {

  /** `f` applied to every element of `xs`, in order. */
  function Map<A, B>(xs: seq<A>, f: A -> B): (ys: seq<B>)
    ensures |ys| == |xs|
    decreases |xs|
  {
    if xs == [] then [] else Map(xs[..|xs| - 1], f) + [f(xs[|xs| - 1])]
  }

  lemma TakeOfAppend<T>(a: seq<T>, b: seq<T>, j: nat)
    requires j <= |a|
    ensures (a + b)[..j] == a[..j]
  {
  }

  /** Mapping a prefix gives the prefix of the mapped sequence. */
  lemma {:induction false} MapPrefix<A, B>(xs: seq<A>, f: A -> B, j: nat)
    requires j <= |xs|
    ensures Map(xs[..j], f) == Map(xs, f)[..j]
    decreases |xs|
  {
    if j == |xs| {
      assert xs[..j] == xs;
    } else {
      var init := xs[..|xs| - 1];
      assert xs[..j] == init[..j];
      MapPrefix(init, f, j);
      TakeOfAppend(Map(init, f), [f(xs[|xs| - 1])], j);
    }
  }

  /** The `j`-th element of a mapped sequence is `f` of the `j`-th element. */
  lemma MapAt<A, B>(xs: seq<A>, f: A -> B, j: nat)
    requires j < |xs|
    ensures Map(xs, f)[j] == f(xs[j])
  {
    MapPrefix(xs, f, j + 1);
    assert xs[..j + 1][j] == xs[j];
  }

  /** The total of `size` over `xs`. */
  function SumOf<T>(xs: seq<T>, size: T -> nat): nat
    decreases |xs|
  {
    if xs == [] then 0 else SumOf(xs[..|xs| - 1], size) + size(xs[|xs| - 1])
  }

  lemma {:induction false} SumOfAppend<T>(xs: seq<T>, ys: seq<T>, size: T -> nat)
    ensures SumOf(xs + ys, size) == SumOf(xs, size) + SumOf(ys, size)
    decreases |ys|
  {
    if ys == [] {
      assert xs + ys == xs;
    } else {
      var init := ys[..|ys| - 1];
      assert (xs + ys)[..|xs + ys| - 1] == xs + init;
      SumOfAppend(xs, init, size);
    }
  }

  /** Taking one element out of a sequence takes its size off the total. */
  lemma SumOfRemove<T>(ys: seq<T>, k: nat, size: T -> nat)
    requires k < |ys|
    ensures SumOf(ys, size) == SumOf(ys[..k] + ys[k + 1..], size) + size(ys[k])
  {
    var before, after := ys[..k], ys[k + 1..];
    var upto := ys[..k + 1];
    assert ys == upto + after;
    assert upto[..k] == before;
    assert SumOf(upto, size) == SumOf(before, size) + size(ys[k]);
    SumOfAppend(upto, after, size);
    SumOfAppend(before, after, size);
  }

  lemma MultisetRemove<T>(ys: seq<T>, k: nat)
    requires k < |ys|
    ensures multiset(ys[..k] + ys[k + 1..]) == multiset(ys) - multiset{ys[k]}
  {
    var before, after := ys[..k], ys[k + 1..];
    assert ys == before + [ys[k]] + after;
  }

  /** A total does not depend on the order it is taken in. */
  lemma {:induction false} SumOfPermutation<T>(xs: seq<T>, ys: seq<T>, size: T -> nat)
    requires multiset(xs) == multiset(ys)
    ensures SumOf(xs, size) == SumOf(ys, size)
    decreases |xs|
  {
    if xs == [] {
      assert |ys| == |multiset(ys)| == 0;
    } else {
      var x, init := xs[|xs| - 1], xs[..|xs| - 1];
      assert xs == init + [x];
      assert multiset(init) == multiset(xs) - multiset{x};
      assert x in multiset(ys);
      var k :| 0 <= k < |ys| && ys[k] == x;
      MultisetRemove(ys, k);
      SumOfPermutation(init, ys[..k] + ys[k + 1..], size);
      SumOfRemove(ys, k, size);
      assert SumOf(xs, size) == SumOf(init, size) + size(x);
    }
  }

  /** `block` appears whole in `body`, starting at offset `at`. */
  ghost predicate Occurs<T>(block: seq<T>, body: seq<T>, at: nat) {
    at + |block| <= |body| && body[at..at + |block|] == block
  }

  /** Appending after a sequence keeps what occurs in it. */
  lemma OccursPrefix<T>(block: seq<T>, a: seq<T>, b: seq<T>, at: nat)
    requires Occurs(block, a, at)
    ensures Occurs(block, a + b, at)
  {
    assert (a + b)[at..at + |block|] == a[at..at + |block|];
  }

  lemma OccursInFront<T>(block: seq<T>, a: seq<T>, b: seq<T>, c: seq<T>, at: nat)
    requires Occurs(block, a, at)
    ensures Occurs(block, a + b + c, at)
  {
    OccursPrefix(block, a, b, at);
    OccursPrefix(block, a + b, c, at);
  }

  lemma OccursInMiddle<T>(block: seq<T>, a: seq<T>, b: seq<T>, c: seq<T>, at: nat)
    requires Occurs(block, b, at)
    ensures Occurs(block, a + b + c, |a| + at)
  {
    assert (a + b + c)[|a| + at..|a| + at + |block|] == b[at..at + |block|];
  }

  /** A sequence occurs in any concatenation at the offset where it is put. */
  lemma OccursBetween<T>(a: seq<T>, block: seq<T>, c: seq<T>)
    ensures Occurs(block, a + block + c, |a|)
  {
    assert (a + block + c)[|a|..|a| + |block|] == block;
  }

  lemma OccursAtStart<T>(block: seq<T>, c: seq<T>)
    ensures Occurs(block, block + c, 0)
  {
    assert (block + c)[..|block|] == block;
  }

  lemma OccursAtEnd<T>(a: seq<T>, block: seq<T>)
    ensures Occurs(block, a + block, |a|)
  {
    assert (a + block)[|a|..] == block;
  }

  /** A sequence made of a front and a block ends with the block. */
  lemma EndsWith<T>(body: seq<T>, front: seq<T>, block: seq<T>)
    requires body == front + block
    ensures |block| <= |body| && Occurs(block, body, |body| - |block|)
  {
    OccursAtEnd(front, block);
  }

  /** An occurrence inside an occurrence is an occurrence. */
  lemma OccursWithin<T>(p: seq<T>, b: seq<T>, a: seq<T>, i: nat, j: nat)
    requires Occurs(p, b, i) && Occurs(b, a, j)
    ensures Occurs(p, a, j + i)
  {
    forall k | 0 <= k < |p| ensures a[j + i..j + i + |p|][k] == p[k] {
      assert p[k] == b[i + k] == a[j + (i + k)];
    }
  }

}
