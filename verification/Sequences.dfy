/** Searching and cutting sequences, as strchr, strrchr and C strings do. */
module Sequences {

  /** The first position of x in s, or |s|. */
  function First<T(==)>(s: seq<T>, x: T): (i: nat)
    ensures i <= |s|
    ensures forall k | 0 <= k < i :: s[k] != x
    ensures i < |s| ==> s[i] == x
  {
    if s == [] || s[0] == x then 0 else First(s[1..], x) + 1
  }

  /** The last position of x in s, or -1. */
  function Last<T(==)>(s: seq<T>, x: T): (i: int)
    ensures -1 <= i < |s|
    ensures forall k | i < k < |s| :: s[k] != x
    ensures i >= 0 ==> s[i] == x
  {
    var n := |s|;
    if n == 0 then -1
    else if s[n - 1] == x then n - 1
    else Last(s[..n - 1], x)
  }

  /** The part of s before the first x: what a C string buffer s means, when x is NUL. */
  function UpTo<T(==)>(s: seq<T>, x: T): (r: seq<T>)
    ensures x !in r
    ensures |r| == First(s, x) <= |s|
    ensures r == s <==> x !in s
  {
    s[..First(s, x)]
  }

  lemma {:induction false} FirstFound<T>(s: seq<T>, x: T, k: nat)
    requires k <= |s| && (k < |s| ==> s[k] == x) && forall i | 0 <= i < k :: s[i] != x
    ensures First(s, x) == k
  {
  }

  lemma {:induction false} FirstSplit<T>(a: seq<T>, x: T, b: seq<T>)
    requires x !in a
    ensures First(a + [x] + b, x) == |a|
  {
    var s := a + [x] + b;
    assert s[|a|] == x;
    assert forall k | 0 <= k < |a| :: s[k] == a[k];
  }

  lemma {:induction false} LastSplit<T>(a: seq<T>, x: T, b: seq<T>)
    requires x !in b
    ensures Last(a + [x] + b, x) == |a|
  {
    var s := a + [x] + b;
    assert s[|a|] == x;
    assert forall k | |a| < k < |s| :: s[k] == b[k - |a| - 1];
  }

  /** A text cut at its first x determines both parts. */
  lemma {:induction false} LeftUnique<T>(a: seq<T>, x: T, b: seq<T>, a': seq<T>, b': seq<T>)
    requires x !in a && x !in a'
    requires a + [x] + b == a' + [x] + b'
    ensures a == a' && b == b'
  {
    FirstSplit(a, x, b);
    FirstSplit(a', x, b');
    assert (a + [x] + b)[..|a|] == a && (a' + [x] + b')[..|a|] == a';
    assert (a + [x] + b)[|a| + 1..] == b && (a' + [x] + b')[|a| + 1..] == b';
  }

  /** A text cut at its last x determines both parts. */
  lemma {:induction false} RightUnique<T>(a: seq<T>, x: T, b: seq<T>, a': seq<T>, b': seq<T>)
    requires x !in b && x !in b'
    requires a + [x] + b == a' + [x] + b'
    ensures a == a' && b == b'
  {
    LastSplit(a, x, b);
    LastSplit(a', x, b');
    assert (a + [x] + b)[..|a|] == a && (a' + [x] + b')[..|a|] == a';
    assert (a + [x] + b)[|a| + 1..] == b && (a' + [x] + b')[|a| + 1..] == b';
  }

  lemma {:induction false} Snoc<T>(s: seq<T>)
    requires s != []
    ensures s[..|s| - 1] + [s[|s| - 1]] == s
  {
  }
}
