/** Runs of characters of one class, as the greedy parts of a pattern match them. */
module Texts {

  predicate IsDigit(c: char) {
    '0' <= c <= '9'
  }

  /** Length of the longest prefix whose characters all satisfy p. */
  function Run(p: char -> bool, s: string): (n: nat)
    ensures n <= |s|
    ensures forall i :: 0 <= i < n ==> p(s[i])
    ensures n < |s| ==> !p(s[n])
  {
    RunFrom(p, s, 0)
  }

  function RunFrom(p: char -> bool, s: string, i: nat): (n: nat)
    requires i <= |s|
    ensures i <= n <= |s|
    ensures forall j :: i <= j < n ==> p(s[j])
    ensures n < |s| ==> !p(s[n])
    decreases |s| - i
  {
    if i < |s| && p(s[i]) then RunFrom(p, s, i + 1) else i
  }

  predicate All(p: char -> bool, s: string) {
    forall i :: 0 <= i < |s| ==> p(s[i])
  }

  /** Strings are compared character by character. */
  predicate StringLe(a: string, b: string) {
    a == "" || (b != "" && (a[0] < b[0] || (a[0] == b[0] && StringLe(a[1..], b[1..]))))
  }

  /** Up to i two strings are the same, and there the first one ends or has the smaller character. */
  ghost predicate LessAt(a: string, b: string, i: nat) {
    i <= |a| && i <= |b| && a[..i] == b[..i] && (i == |a| || (i < |b| && a[i] < b[i]))
  }

  ghost predicate Lexicographic(a: string, b: string) {
    exists i: nat :: LessAt(a, b, i)
  }

  /** The order of strings is lexicographic. */
  lemma {:induction false} StringLeExact(a: string, b: string)
    ensures StringLe(a, b) <==> Lexicographic(a, b)
  {
    if a == "" {
      assert LessAt(a, b, 0);
    } else if b != "" && a[0] == b[0] {
      var a', b' := a[1..], b[1..];
      StringLeExact(a', b');
      assert a == [a[0]] + a' && b == [b[0]] + b';
      forall i: nat | LessAt(a', b', i)
        ensures LessAt(a, b, i + 1)
      {
        assert a[..i + 1] == [a[0]] + a'[..i] && b[..i + 1] == [b[0]] + b'[..i];
      }
      forall i: nat | LessAt(a, b, i)
        ensures i > 0 && LessAt(a', b', i - 1)
      {
        if i > 0 {
          assert a[..i][1..] == a'[..i - 1] && b[..i][1..] == b'[..i - 1];
        }
      }
    } else {
      assert b != "" && a[0] < b[0] ==> LessAt(a, b, 0);
      forall i: nat | LessAt(a, b, i)
        ensures b != "" && a[0] < b[0]
      {
        if i > 0 {
          assert a[..i][0] == b[..i][0];
        }
      }
    }
  }

  lemma {:induction false} StringLeTotal(a: string, b: string)
    ensures StringLe(a, b) || StringLe(b, a)
  {
    if a != "" && b != "" {
      StringLeTotal(a[1..], b[1..]);
    }
  }

  lemma {:induction false} StringLeTransitive(a: string, b: string, c: string)
    requires StringLe(a, b) && StringLe(b, c)
    ensures StringLe(a, c)
  {
    if a != "" && a[0] == b[0] == c[0] {
      StringLeTransitive(a[1..], b[1..], c[1..]);
    }
  }

  lemma {:induction false} StringLeAntisymmetric(a: string, b: string)
    requires StringLe(a, b) && StringLe(b, a)
    ensures a == b
  {
    if a != "" {
      StringLeAntisymmetric(a[1..], b[1..]);
      assert a == [a[0]] + a[1..] && b == [b[0]] + b[1..];
    }
  }

  /** Where the run of a string followed by a character outside the class ends. */
  lemma RunSplit(p: char -> bool, x: string, rest: string)
    requires All(p, x)
    requires rest != "" ==> !p(rest[0])
    ensures Run(p, x + rest) == |x|
    ensures (x + rest)[..|x|] == x && (x + rest)[|x|..] == rest
  {
    var s := x + rest;
    assert forall i :: 0 <= i < |x| ==> s[i] == x[i];
    assert rest != "" ==> s[|x|] == rest[0];
  }
}
