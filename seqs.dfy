/**
 * Shapes of sequences the tree proofs cut children lists into, stated over
 * any element type so that they are proved apart from the tree functions.
 */
module Seqs {
  /** A sequence is what comes before k, the element at k, and what follows. */
  lemma Around<T>(s: seq<T>, k: nat)
    requires k < |s|
    ensures s == s[..k] + [s[k]] + s[k + 1..]
  {
  }

  /** A sequence split before the pair at i - 1, i. */
  lemma AroundPair<T>(s: seq<T>, i: nat)
    requires 1 <= i < |s|
    ensures s == s[..i - 1] + ([s[i - 1]] + [s[i]] + s[i + 1..])
  {
  }

  /** Concatenation regrouped to the right. */
  lemma Regroup<T>(a: seq<T>, x: T, b: seq<T>)
    ensures a + [x] + b == a + ([x] + b)
  {
  }

  /** A sequence cut at a. */
  lemma Two<T>(s: seq<T>, a: nat)
    requires a <= |s|
    ensures s == s[..a] + s[a..]
  {
  }

  /** A sequence cut at a and b. */
  lemma Three<T>(s: seq<T>, a: nat, b: nat)
    requires a <= b <= |s|
    ensures s == s[..a] + s[a..b] + s[b..]
  {
  }

  /** A slice splits at any point inside it. */
  lemma SliceSplit<T>(s: seq<T>, a: nat, b: nat, c: nat)
    requires a <= b <= c <= |s|
    ensures s[a..c] == s[a..b] + s[b..c]
  {
  }

  /** A prefix one longer. */
  lemma Snoc<T>(s: seq<T>, i: nat)
    requires i < |s|
    ensures s[..i + 1] == s[..i] + [s[i]]
  {
  }

  /** The parts around an element inserted at p. */
  lemma InsertedParts<T>(s: seq<T>, p: nat, x: T)
    requires p <= |s|
    ensures (s[..p] + [x] + s[p..])[..p] == s[..p]
    ensures (s[..p] + [x] + s[p..])[p] == x
    ensures (s[..p] + [x] + s[p..])[p + 1..] == s[p..]
  {
  }

  /** The members of a splice `s[..pos] + [x] + s[pos + len..]`. */
  lemma SpliceAt<T>(s: seq<T>, pos: nat, len: nat, x: T, i: nat)
    requires pos + len <= |s| && i < |s| + 1 - len
    ensures (s[..pos] + [x] + s[pos + len..])[i] ==
      if i < pos then s[i] else if i == pos then x else s[i + len - 1]
  {
  }

  /** Dropping the last element of a + b, b nonempty. */
  lemma DropLast<T>(a: seq<T>, b: seq<T>)
    requires |b| > 0
    ensures (a + b)[..|a + b| - 1] == a + b[..|b| - 1]
    ensures (a + b)[|a + b| - 1] == b[|b| - 1]
    ensures b[..|b| - 1] + [b[|b| - 1]] == b
  {
  }
}
