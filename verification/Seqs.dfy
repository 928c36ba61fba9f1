/** Facts about sequences, stated for any element type so that their proofs see nothing else. */
module Seqs {

  lemma Assoc<T>(a: seq<T>, b: seq<T>, c: seq<T>)
    ensures a + (b + c) == a + b + c
  {
  }

  lemma Nothing<T>(a: seq<T>)
    ensures a + [] == a && [] + a == a
  {
  }

  lemma HeadTail<T>(a: seq<T>, s: seq<T>)
    requires s != []
    ensures a + [s[0]] + s[1..] == a + s && [s[0]] + s[1..] == s
  {
  }

  /** Splitting a concatenation where it was joined. */
  lemma Split<T>(a: seq<T>, b: seq<T>)
    ensures (a + b)[..|a|] == a && (a + b)[|a|..] == b
  {
  }

  lemma Inserted<T>(a: seq<T>, i: nat, x: T)
    requires i <= |a|
    ensures multiset(a[..i] + [x] + a[i..]) == multiset(a) + multiset{x}
  {
    assert a == a[..i] + a[i..];
  }

  lemma LastIs<T>(a: seq<T>, x: T, s: seq<T>)
    requires s != []
    ensures a + [x] == s <==> a == s[..|s| - 1] && x == s[|s| - 1]
  {
    var n := |s| - 1;
    assert s == s[..n] + [s[n]];
    if a + [x] == s {
      assert (a + [x])[..n] == a && (a + [x])[n] == x;
    }
  }
}
