/** Equalities between sequences that the solver finds at once when it looks at nothing else, and `Increasing`. */
module Sequences {
  lemma Assoc<T>(a: seq<T>, b: seq<T>, c: seq<T>)
    ensures a + b + c == a + (b + c)
  {
  }

  lemma AddNothing<T>(a: seq<T>, b: seq<T>)
    requires b == []
    ensures a + b == a
  {
  }

  lemma Halves<T>(a: seq<T>, b: seq<T>)
    ensures (a + b)[..|a|] == a && (a + b)[|a|..] == b
  {
  }

  lemma InFirst<T>(a: seq<T>, b: seq<T>, n: nat)
    requires n <= |a|
    ensures (a + b)[..n] == a[..n] && (a + b)[n..] == a[n..] + b
  {
  }

  lemma FirstOf<T>(s: seq<T>, a: seq<T>, b: seq<T>, n: nat)
    requires s == a + b && n <= |a|
    ensures s[..n] == a[..n]
  {
  }

  lemma SliceAndRest<T>(s: seq<T>, pos: nat, k: nat)
    requires pos + k <= |s|
    ensures s[pos..pos + k] + s[pos + k..] == s[pos..]
  {
  }

  lemma SliceJoin<T>(s: seq<T>, m: nat, a: nat)
    requires m + a <= |s|
    ensures s[..m] + s[m..][..a] == s[..m + a]
    ensures s[m..][a..] == s[m + a..]
  {
  }

  lemma TakeDrop<T>(s: seq<T>, n: nat)
    requires n <= |s|
    ensures s == s[..n] + s[n..]
  {
  }

  lemma SnocConcat<T>(a: seq<T>, b: seq<T>)
    requires b != []
    ensures (a + b)[..|a + b| - 1] == a + b[..|b| - 1] && (a + b)[|a + b| - 1] == b[|b| - 1]
  {
  }

  lemma Snoc<T>(s: seq<T>, x: T)
    ensures s == [] ==> (s + [x])[0] == x && (s + [x])[1..] == []
    ensures s != [] ==> (s + [x])[0] == s[0] && (s + [x])[1..] == s[1..] + [x]
  {
  }

  lemma Subslice<T>(s: seq<T>, lo: nat, hi: nat, a: nat, b: nat)
    requires lo <= a <= b <= hi <= |s|
    ensures s[lo..hi][a - lo..b - lo] == s[a..b]
  {
    var t := s[lo..hi][a - lo..b - lo];
    assert forall j :: 0 <= j < |t| ==> t[j] == s[lo..hi][a - lo + j] == s[a + j];
  }

  lemma TwoAdded<T>(s: seq<T>, a: T, b: T)
    ensures s + [a] + [b] == s + [a, b]
  {
  }

  lemma OneFurther<T>(s: seq<T>, i: nat)
    requires i < |s|
    ensures s[..i + 1] == s[..i] + [s[i]]
  {
  }

  lemma Whole<T>(s: seq<T>)
    ensures s[..|s|] == s
  {
  }

  lemma Rejoined<T>(s: seq<T>, t: seq<T>)
    requires s != [] && t == [s[0]] + s[1..]
    ensures t == s
  {
  }

  lemma InCons<T>(s: seq<T>)
    requires s != []
    ensures forall v :: v in s <==> v == s[0] || v in s[1..]
  {
    assert s == [s[0]] + s[1..];
  }

  lemma SnocInjective<T>(p: seq<T>, a: T, q: seq<T>, b: T)
    requires p + [a] == q + [b]
    ensures p == q && a == b
  {
    assert (p + [a])[|p|] == a && (q + [b])[|q|] == b;
    assert (p + [a])[..|p|] == p && (q + [b])[..|q|] == q;
  }

  ghost predicate Increasing(s: seq<nat>) {
    forall i, j :: 0 <= i < j < |s| ==> s[i] < s[j]
  }
}
