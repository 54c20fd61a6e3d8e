/** Small facts about sequences, stated once so that the proofs using them stay cheap. */
module Seqs {
  /** The parts of `a + [x] + b` are found back at their offsets. */
  lemma PartsOf<T>(a: seq<T>, x: T, b: seq<T>)
    ensures (a + [x] + b)[|a|] == x
    ensures (a + [x] + b)[..|a|] == a
    ensures (a + [x] + b)[|a| + 1..] == b
  {
  }

  /** A sequence is the part before an index, the element there and the part after. */
  lemma SplitAround<T>(s: seq<T>, n: int)
    requires 0 <= n < |s|
    ensures s == s[..n] + [s[n]] + s[n + 1..]
  {
  }

  /** Concatenation is associative. */
  lemma ConcatAssoc<T>(a: seq<T>, b: seq<T>, c: seq<T>)
    ensures a + b + c == a + (b + c)
  {
  }

  /** Splitting `p + g` at an index of `p`. */
  lemma SplitConcat<T>(p: seq<T>, g: seq<T>, k: int)
    requires 0 <= k < |p|
    ensures (p + g)[k] == p[k]
    ensures (p + g)[..k] == p[..k]
    ensures (p + g)[k + 1..] == p[k + 1..] + g
  {
  }

  /** The prefix as long as the sequence is the sequence. */
  lemma WholePrefix<T>(s: seq<T>)
    ensures s[..|s|] == s
  {
  }

  /** Appending or prepending the empty sequence changes nothing. */
  lemma ConcatEmpty<T>(s: seq<T>)
    ensures s + [] == s && [] + s == s
  {
  }

  /** All but the last element of `a + b`, for a non-empty `b`. */
  lemma InitOfConcat<T>(a: seq<T>, b: seq<T>)
    requires b != []
    ensures (a + b)[..|a + b| - 1] == a + b[..|b| - 1]
  {
  }

  /** A sequence is its prefix of length `k` followed by the rest. */
  lemma TakeDrop<T>(s: seq<T>, k: int)
    requires 0 <= k <= |s|
    ensures s == s[..k] + s[k..]
  {
  }

  /** A prefix of a prefix is a prefix. */
  lemma PrefixOfPrefix<T>(s: seq<T>, j: int, k: int)
    requires 0 <= j <= k <= |s|
    ensures s[..k][..j] == s[..j]
  {
  }
}
