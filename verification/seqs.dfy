/**
  Facts about the shape of sequences, stated once for any element type so
  that proofs about sequences of tags can use them without comparing tags.
 */
module Seqs {

  lemma ConsSplit<T>(s: seq<T>)
    requires s != []
    ensures s == [s[0]] + s[1..]
  {
  }

  lemma ConsParts<T>(c: T, r: seq<T>)
    ensures ([c] + r)[0] == c && ([c] + r)[1..] == r
  {
  }

  lemma AppendParts<T>(a: seq<T>, b: seq<T>)
    ensures a == [] ==> a + b == b
    ensures a != [] ==> (a + b)[0] == a[0] && (a + b)[1..] == a[1..] + b
  {
  }

  lemma AppendIndex<T>(a: seq<T>, b: seq<T>, j: nat)
    requires j < |a| + |b|
    ensures (a + b)[j] == if j < |a| then a[j] else b[j - |a|]
  {
  }

  lemma SplitAt<T>(s: seq<T>, k: nat)
    requires k <= |s|
    ensures s == s[..k] + s[k..]
  {
  }

  lemma PrefixSplit<T>(s: seq<T>, j: nat, k: nat)
    requires j <= k <= |s|
    ensures s[..k] == s[..j] + s[j..k]
  {
  }

  /** s around its k-th element. */
  lemma SplitAround<T>(s: seq<T>, k: nat)
    requires k < |s|
    ensures s[..k + 1] == s[..k] + [s[k]]
    ensures s == s[..k + 1] + s[k + 1..]
    ensures s == s[..k] + ([s[k]] + s[k + 1..])
    ensures [s[k]][0] == s[k] && [s[k]][1..] == []
  {
  }

  lemma ConcatRegroup<T>(x: seq<T>, y: seq<T>, z: seq<T>)
    ensures x + (y + z) == x + y + z
  {
  }

  /** Regrouping a four-way concatenation. */
  lemma ConcatAssoc<T>(a: seq<T>, x: seq<T>, b: seq<T>, f: seq<T>)
    ensures a + x + b + f == a + x + (b + f)
    ensures f + (a + x + b) == f + a + x + b
  {
  }

  /** The middle part of a three-way concatenation is recovered by slicing. */
  lemma SliceMiddle<T>(x: seq<T>, y: seq<T>, z: seq<T>)
    ensures (x + y + z)[|x|..|x| + |y|] == y
  {
  }

  /** A block of f is the same block of [h] + f, one position later. */
  lemma SliceAfterHead<T>(s: seq<T>, h: T, f: seq<T>, lo: nat, hi: nat, b: seq<T>, from: nat, to: nat)
    requires s == [h] + f && lo <= hi <= |f| && f[lo..hi] == b
    requires from == 1 + lo && to == 1 + hi
    ensures from <= to <= |s| && s[from..to] == b
  {
    assert s[from..to] == f[lo..hi];
  }

  /**
    Two sequences whose blocks at i differ only in their first element, and
    that agree after the blocks, agree after i.
   */
  lemma TailsAgree<T>(f: seq<T>, g: seq<T>, i: nat, m: nat, x: seq<T>, y: seq<T>)
    requires i < i + m <= |f| == |g|
    requires f[i..i + m] == x && g[i..i + m] == y && x[1..] == y[1..]
    requires f[i + m..] == g[i + m..]
    ensures f[i + 1..] == g[i + 1..]
  {
    assert f[i + 1..] == x[1..] + f[i + m..];
    assert g[i + 1..] == y[1..] + g[i + m..];
  }
}
