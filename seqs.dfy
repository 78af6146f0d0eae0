/** Facts about sequences in general, stated once so that proofs about strings can cite them. */
module Seqs {

  /** A prefix `r` of a suffix `l` of `s` is the slice of `s` where `l` starts. */
  lemma PrefixOfSuffix<T>(s: seq<T>, l: seq<T>, r: seq<T>)
    requires |l| <= |s| && l == s[|s| - |l|..]
    requires |r| <= |l| && r == l[..|r|]
    ensures var i := |s| - |l|; i + |r| <= |s| && s[i..i + |r|] == r
  {
    var i := |s| - |l|;
    assert s[i..][..|r|] == s[i..i + |r|];
  }

  /** Index `j` of `s` is index `j - (|s| - |l|)` of its suffix `l`. */
  lemma SuffixIndex<T>(s: seq<T>, l: seq<T>)
    requires |l| <= |s| && l == s[|s| - |l|..]
    ensures forall j :: |s| - |l| <= j < |s| ==> s[j] == l[j - (|s| - |l|)]
  {
  }

  /** Dropping a prefix of the left operand of a concatenation. */
  lemma DropAppend<T>(a: seq<T>, b: seq<T>, n: nat)
    requires n <= |a|
    ensures n < |a| ==> (a + b)[0] == a[0]
    ensures (a + b)[n..] == a[n..] + b
  {
  }

  /** Concatenation is associative. */
  lemma AppendAssoc<T>(h: seq<T>, x: seq<T>, y: seq<T>)
    ensures h + (x + y) == (h + x) + y
  {
  }

  /** A list of at least one element is its head followed by its tail. */
  lemma HeadTail<T>(ts: seq<T>)
    requires |ts| >= 1
    ensures ts == [ts[0]] + ts[1..]
  {
  }

  /** A list of at least two elements is its first two followed by the rest. */
  lemma HeadTwo<T>(ts: seq<T>)
    requires |ts| >= 2
    ensures ts == [ts[0], ts[1]] + ts[2..]
    ensures ts[1..] == [ts[1]] + ts[2..]
  {
  }

  /** Three singletons in front of `u` form a three-element prefix. */
  lemma ConsThree<T>(a: T, b: T, c: T, u: seq<T>)
    ensures [a] + ([b] + ([c] + u)) == [a, b, c] + u
  {
  }

  /** A sequence is its first `n` elements followed by the rest. */
  lemma TakeDrop<T>(s: seq<T>, n: nat)
    requires n <= |s|
    ensures s[..n] + s[n..] == s
  {
  }

  /** `r` is `s` with some elements deleted: the kept ones keep their order and multiplicity. */
  predicate IsSubsequence<T(==)>(r: seq<T>, s: seq<T>)
    decreases |s|
  {
    if s == [] then r == []
    else IsSubsequence(r, s[1..]) || (r != [] && r[0] == s[0] && IsSubsequence(r[1..], s[1..]))
  }

  /** Deleting a prefix of `s` as well still leaves `s` a supersequence. */
  lemma {:induction false} SubsequenceDrop<T>(r: seq<T>, s: seq<T>, k: nat)
    requires k <= |s| && IsSubsequence(r, s[k..])
    ensures IsSubsequence(r, s)
    decreases k
  {
    if k > 0 {
      assert s[1..][k - 1..] == s[k..];
      SubsequenceDrop(r, s[1..], k - 1);
    }
  }
}
