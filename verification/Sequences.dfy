// Facts about sequences that the proofs name instead of rediscovering.

module Sequences {

  lemma Associative<T>(a: seq<T>, b: seq<T>, c: seq<T>)
    ensures a + b + c == a + (b + c)
  {
  }

  lemma SplitEqual<T>(a: seq<T>, b: seq<T>, c: seq<T>, d: seq<T>)
    requires |a| == |c| && a + b == c + d
    ensures a == c && b == d
  {
    assert a == (a + b)[..|a|] && c == (c + d)[..|c|];
    assert b == (a + b)[|a|..] && d == (c + d)[|c|..];
  }

  lemma Glue<T>(s: seq<T>, i: nat, j: nat)
    requires i <= j <= |s|
    ensures s[..i] + s[i..j] == s[..j]
  {
  }

  /** Slicing what starts at `i` is slicing the whole. */
  lemma SliceOfRest<T>(s: seq<T>, i: nat, j: nat)
    requires i <= j <= |s|
    ensures s[i..][..j - i] == s[i..j] && s[i..][j - i..] == s[j..]
  {
  }

  /** Two splits of one sequence: the longer front is the shorter one and some of its rest. */
  lemma Overhang<T>(a: seq<T>, b: seq<T>, c: seq<T>, d: seq<T>)
    requires a + b == c + d && |a| <= |c|
    ensures c == a + c[|a|..] && b == c[|a|..] + d
  {
    var x := c[|a|..];
    assert (c + d)[..|a|] == c[..|a|] && (a + b)[..|a|] == a;
    Associative(a, x, d);
    SplitEqual(a, b, a, x + d);
  }

  /** The sequence without its `i`th element. */
  function Others<T>(s: seq<T>, i: nat): (r: seq<T>)
    requires i < |s|
    ensures |r| == |s| - 1
  {
    s[..i] + s[i + 1..]
  }

  lemma OthersRemain<T>(s: seq<T>, i: nat)
    requires i < |s|
    ensures multiset(Others(s, i)) == multiset(s) - multiset{s[i]}
  {
    assert s == s[..i] + ([s[i]] + s[i + 1..]);
  }

  /** Where the first element of `p` is in a reordering of it. */
  lemma Counterpart<T>(p: seq<T>, q: seq<T>) returns (i: nat)
    requires p != [] && multiset(p) == multiset(q)
    ensures i < |q| && q[i] == p[0]
    ensures multiset(Others(p, 0)) == multiset(Others(q, i))
  {
    assert p[0] in multiset(q);
    i :| 0 <= i < |q| && q[i] == p[0];
    OthersRemain(p, 0);
    OthersRemain(q, i);
  }
}
