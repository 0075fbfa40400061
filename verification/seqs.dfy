/** Facts about cutting and joining sequences. They are stated on their own
    so that proofs about recursive string functions can use them without the
    solver unfolding those functions while it checks them. */
module Seqs {

  /** A sequence is its part before `j`, its element `j` and its part after. */
  lemma SplitSeq<T>(s: seq<T>, j: nat)
    requires j < |s|
    ensures s == s[..j] + [s[j]] + s[j + 1..]
  {
  }

  /** A prefix is the first element followed by a prefix of the tail. */
  lemma PrefixCons<T>(s: seq<T>, j: nat)
    requires j < |s|
    ensures s[..j + 1] == [s[0]] + s[1..][..j]
  {
  }

  /** Concatenation is associative. */
  lemma ConcatAssoc<T>(a: seq<T>, b: seq<T>, c: seq<T>)
    ensures a + b + c == a + (b + c)
  {
  }

  /** The three pieces of `a + m + b` can be cut back out of it. */
  lemma Pieces<T>(a: seq<T>, m: seq<T>, b: seq<T>)
    ensures (a + m + b)[..|a|] == a && (a + m + b)[|a| + |m|..] == b
    ensures forall i :: 0 <= i < |m| ==> (a + m + b)[|a| + i] == m[i]
  {
  }

  /** The pieces of a sequence around `[idx, idx + len)`, seen from its tail. */
  lemma TailPieces<T>(s: seq<T>, idx: nat, len: nat)
    requires 0 < idx && idx + len <= |s|
    ensures s[1..][idx - 1 + len..] == s[idx + len..]
    ensures s[..idx] == [s[0]] + s[1..][..idx - 1]
  {
  }

  /** Moving one leading element across a three-part concatenation. */
  lemma Regroup<T>(x: T, a: seq<T>, b: seq<T>, c: seq<T>, pre: seq<T>, whole: seq<T>, rest: seq<T>)
    requires whole == [x] + rest && rest == a + b + c && pre == [x] + a
    ensures whole == pre + b + c
  {
  }

  /** A prefix ending at `i` is the prefix up to `next`, the run between
      them and the element `i`. */
  lemma PrefixParts<T>(s: seq<T>, next: nat, i: nat)
    requires next <= i < |s|
    ensures s[..i + 1] == s[..next] + s[next..i] + [s[i]]
  {
  }

  /** A sequence is its prefix up to `n` followed by the rest. */
  lemma SplitPrefix<T>(s: seq<T>, n: nat)
    requires n <= |s|
    ensures s == s[..n] + s[n..]
  {
  }

  /** A sequence is its part before `k`, the `n` elements from `k`, and the
      rest. */
  lemma SplitAround<T>(s: seq<T>, k: nat, n: nat)
    requires k + n <= |s|
    ensures s == s[..k] + s[k..k + n] + s[k + n..]
  {
  }
}
