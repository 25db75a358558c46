/**
 * Small facts about sequences that the tries and the view model share.
 */
module Sequences {
  /** Taking one more element of a prefix appends that element. */
  lemma SliceSnoc<T>(w: seq<T>, i: nat)
    requires i < |w|
    ensures w[..i + 1] == w[..i] + [w[i]]
  {
  }

  /** The prefix of full length is the whole sequence. */
  lemma SliceAll<T>(w: seq<T>)
    ensures w[..|w|] == w
  {
  }

  /** A prefix of a prefix is a prefix. */
  lemma PrefixTrans<T>(a: seq<T>, b: seq<T>, c: seq<T>)
    requires |a| <= |b| && b[..|a|] == a
    requires |b| <= |c| && c[..|b|] == b
    ensures c[..|a|] == a
  {
    assert c[..|a|] == c[..|b|][..|a|];
  }

  /** A position at which a member of `xs` occurs. */
  lemma Position<T>(xs: seq<T>, x: T) returns (i: nat)
    requires x in xs
    ensures i < |xs| && xs[i] == x
  {
    i :| 0 <= i < |xs| && xs[i] == x;
  }
}
