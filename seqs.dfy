/** Small facts about sequences, each proved on its own so that proofs using
    them need not re-derive them by extensionality. */
module Seqs {
  lemma AppendEmpty<T>(a: seq<T>, b: seq<T>)
    requires |a| == 0
    ensures a + b == b
  {
  }

  lemma AppendNil<T>(a: seq<T>, b: seq<T>)
    requires |b| == 0
    ensures a + b == a
  {
  }

  lemma ConsAppend<T>(a: seq<T>, b: seq<T>)
    requires |a| > 0
    ensures (a + b)[0] == a[0] && (a + b)[1..] == a[1..] + b
  {
  }

  lemma AppendAssoc<T>(x: seq<T>, y: seq<T>, z: seq<T>)
    ensures x + (y + z) == (x + y) + z
  {
  }

  /** The front of `f + t` is `f`, and what follows is `t`. */
  lemma SplitFront<T>(f: seq<T>, t: seq<T>)
    ensures (f + t)[..|f|] == f && (f + t)[|f|..] == t
  {
  }

  /** A sequence is its first element followed by its tail. */
  lemma HeadTail<T>(s: seq<T>)
    requires |s| > 0
    ensures [s[0]] + s[1..] == s
  {
  }

  lemma TailIndex<T>(s: seq<T>)
    requires |s| > 0
    ensures forall i | 0 <= i < |s[1..]| :: s[1..][i] == s[i + 1]
  {
  }

  lemma SnocIndex<T>(s: seq<T>, x: T)
    ensures forall i | 0 <= i < |s + [x]| :: (s + [x])[i] == if i < |s| then s[i] else x
  {
  }

  lemma DropDrop<T>(s: seq<T>, a: nat, b: nat)
    requires a + b <= |s|
    ensures s[a..][b..] == s[a + b..]
  {
  }

  lemma PrefixExtend<T>(s: seq<T>, i: nat, j: nat)
    requires i <= j <= |s|
    ensures s[..i] + s[i..j] == s[..j]
  {
  }

  lemma ConsTake<T>(x: T, s: seq<T>, k: nat)
    requires 1 <= k <= |s| + 1
    ensures ([x] + s)[..k] == [x] + s[..k - 1]
    ensures ([x] + s[..k - 1])[1..] == s[..k - 1]
  {
  }
}
