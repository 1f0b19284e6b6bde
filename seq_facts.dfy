/** Facts about sequences in general, each proved on its own so that proofs
    in a context full of string facts can cite them instead of rediscovering
    them by extensionality. */
module SeqFacts {
  /** The last `k + 1` elements of `s` are the last `k` of its front
      followed by its last element. */
  lemma SuffixSnoc<T>(s: seq<T>, k: nat)
    requires k < |s|
    ensures s[..|s| - 1][|s| - 1 - k..] + [s[|s| - 1]] == s[|s| - 1 - k..]
  {
  }

  /** Concatenation is associative. */
  lemma ConcatAssoc<T>(a: seq<T>, b: seq<T>, c: seq<T>)
    ensures a + (b + c) == a + b + c
  {
  }

  /** A sequence is its prefix followed by the rest. */
  lemma SliceSplit<T>(s: seq<T>, k: nat)
    requires k <= |s|
    ensures s == s[..k] + s[k..]
  {
  }

  /** Dropping the last element of a concatenation with a non-empty right
      part drops it from that part. */
  lemma InitOfConcat<T>(xs: seq<T>, ys: seq<T>)
    requires ys != []
    ensures (xs + ys)[..|xs + ys| - 1] == xs + ys[..|ys| - 1]
    ensures (xs + ys)[|xs + ys| - 1] == ys[|ys| - 1]
  {
  }

  /** The first `n - 1` elements of the first `n` are the first `n - 1`. */
  lemma TakeInit<T>(s: seq<T>, n: nat)
    requires 0 < n <= |s|
    ensures s[..n][..n - 1] == s[..n - 1]
    ensures s[..n][n - 1] == s[n - 1]
  {
  }

  /** Appending leaves a prefix alone. */
  lemma TakeConcat<T>(s: seq<T>, more: seq<T>, k: nat)
    requires k <= |s|
    ensures (s + more)[..k] == s[..k]
  {
  }

  /** Prepending leaves a suffix alone. */
  lemma DropConcat<T>(front: seq<T>, s: seq<T>, k: nat)
    requires k <= |s|
    ensures (front + s)[|front + s| - k..] == s[|s| - k..]
  {
  }
}
