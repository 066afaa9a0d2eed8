/** Small facts about sequences, stated once for any element type so that
    the proofs that use them need not redo the index reasoning. */
module Seqs {

  /** Cutting `p + [x] + r` just after `x`. */
  lemma SplitAfter<T>(p: seq<T>, x: T, r: seq<T>)
    ensures (p + [x] + r)[..|p| + 1] == p + [x]
    ensures (p + [x] + r)[|p| + 1..] == r
  {
  }

  lemma Split<T>(s: seq<T>, i: nat)
    requires i <= |s|
    ensures s == s[..i] + s[i..]
  {
  }

  lemma Assoc<T>(a: seq<T>, b: seq<T>, c: seq<T>)
    ensures a + b + c == a + (b + c)
  {
  }

  /** Putting `x` in place of the element right after `p`. */
  lemma ReplaceAt<T>(p: seq<T>, h: T, r: seq<T>, x: T)
    ensures (p + [h] + r)[|p| := x] == p + [x] + r
  {
  }

  /** `xs` sits between one element in front and anything behind. */
  lemma Between<T>(h: T, xs: seq<T>, r: seq<T>)
    ensures (xs + r)[..|xs|] == xs
    ensures ([h] + (xs + r))[1..1 + |xs|] == xs
  {
  }
}
