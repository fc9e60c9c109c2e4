/** Sequences without repeats and without a given element. */
module Sequences {

  ghost predicate Distinct<T>(s: seq<T>) {
    forall i, j :: 0 <= i < j < |s| ==> s[i] != s[j]
  }

  function Without<T(==)>(s: seq<T>, x: T): seq<T> {
    if s == [] then []
    else if s[0] == x then Without(s[1..], x)
    else [s[0]] + Without(s[1..], x)
  }

  lemma {:induction false} WithoutMembers<T>(s: seq<T>, x: T)
    ensures forall y :: y in Without(s, x) <==> y in s && y != x
  {
    if s != [] {
      WithoutMembers(s[1..], x);
      assert s == [s[0]] + s[1..];
    }
  }

  function Prefix<T>(s: seq<T>, n: nat): seq<T> {
    if n <= |s| then s[..n] else s
  }

  /** What two sequences have in common up to n they have after any front. */
  lemma PrefixAfter<T>(front: seq<T>, a: seq<T>, b: seq<T>, n: nat)
    requires Prefix(a, n) == Prefix(b, n)
    ensures Prefix(front + a, n) == Prefix(front + b, n)
  {
    if n <= |front| {
      assert (front + a)[..n] == front[..n] == (front + b)[..n];
    } else {
      var m := n - |front|;
      PrefixOfPrefix(a, m, n);
      PrefixOfPrefix(b, m, n);
      PrefixSplit(front, a, n);
      PrefixSplit(front, b, n);
    }
  }

  lemma PrefixSplit<T>(front: seq<T>, a: seq<T>, n: nat)
    requires n >= |front|
    ensures Prefix(front + a, n) == front + Prefix(a, n - |front|)
  {
  }

  lemma PrefixOfPrefix<T>(a: seq<T>, m: nat, n: nat)
    requires m <= n
    ensures Prefix(Prefix(a, n), m) == Prefix(a, m)
  {
  }

  /** The order of two sequences makes no difference up to n. */
  ghost predicate Commute<T>(a: seq<T>, b: seq<T>, n: nat) {
    Prefix(a + b, n) == Prefix(b + a, n)
  }

  /** ... exactly when it makes none before any rest. */
  lemma CommuteBefore<T>(a: seq<T>, b: seq<T>, rest: seq<T>, n: nat)
    ensures Commute(a, b, n) <==> Prefix(a + (b + rest), n) == Prefix(b + (a + rest), n)
  {
    var ab, ba := a + b, b + a;
    assert a + (b + rest) == ab + rest && b + (a + rest) == ba + rest;
    if n <= |ab| {
      assert (ab + rest)[..n] == ab[..n] && (ba + rest)[..n] == ba[..n];
    } else {
      PrefixSplit(ab, rest, n);
      PrefixSplit(ba, rest, n);
      var more := Prefix(rest, n - |ab|);
      assert (ab + more)[..|ab|] == ab && (ba + more)[..|ba|] == ba;
    }
  }
}
