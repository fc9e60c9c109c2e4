/** The stable sort of a sequence, as Python's list.sort with a key computes it, and sequences that
    are collected element by element. */
module Sorting {
  import opened Sequences

  ghost predicate TotalPreorder<T(!new)>(le: (T, T) -> bool) {
    && (forall x, y :: le(x, y) || le(y, x))
    && (forall x, y, z :: le(x, y) && le(y, z) ==> le(x, z))
  }

  ghost predicate Sorted<T>(s: seq<T>, le: (T, T) -> bool) {
    forall i, j :: 0 <= i < j < |s| ==> le(s[i], s[j])
  }

  function Filter<T>(p: T -> bool, s: seq<T>): seq<T> {
    if s == [] then [] else (if p(s[0]) then [s[0]] else []) + Filter(p, s[1..])
  }

  /** Puts x before the first element that it may precede. */
  function Insert<T>(x: T, s: seq<T>, le: (T, T) -> bool): seq<T> {
    if s == [] || le(x, s[0]) then [x] + s else [s[0]] + Insert(x, s[1..], le)
  }

  function Sort<T>(s: seq<T>, le: (T, T) -> bool): seq<T> {
    if s == [] then [] else Insert(s[0], Sort(s[1..], le), le)
  }

  lemma {:induction false} InsertBag<T>(x: T, s: seq<T>, le: (T, T) -> bool)
    ensures multiset(Insert(x, s, le)) == multiset(s) + multiset{x}
  {
    if s != [] && !le(x, s[0]) {
      InsertBag(x, s[1..], le);
      assert s == [s[0]] + s[1..];
    }
  }

  lemma {:induction false} SortBag<T>(s: seq<T>, le: (T, T) -> bool)
    ensures multiset(Sort(s, le)) == multiset(s)
  {
    if s != [] {
      SortBag(s[1..], le);
      InsertBag(s[0], Sort(s[1..], le), le);
      assert s == [s[0]] + s[1..];
    }
  }

  lemma SameBagSameElements<T>(s: seq<T>, t: seq<T>)
    requires multiset(s) == multiset(t)
    ensures |s| == |t| && forall x :: x in s <==> x in t
  {
    assert |multiset(s)| == |multiset(t)|;
    forall x
      ensures x in s <==> x in t
    {
      assert x in multiset(s) <==> x in multiset(t);
    }
  }

  lemma {:induction false} InsertSorted<T(!new)>(x: T, s: seq<T>, le: (T, T) -> bool)
    requires TotalPreorder(le) && Sorted(s, le)
    ensures Sorted(Insert(x, s, le), le)
  {
    if s != [] && !le(x, s[0]) {
      var rest := Insert(x, s[1..], le);
      InsertSorted(x, s[1..], le);
      InsertBag(x, s[1..], le);
      forall y | y in rest
        ensures le(s[0], y)
      {
        assert y in multiset(rest);
        if y != x {
          assert y in s[1..];
        }
      }
    }
  }

  lemma {:induction false} SortSorted<T(!new)>(s: seq<T>, le: (T, T) -> bool)
    requires TotalPreorder(le)
    ensures Sorted(Sort(s, le), le)
  {
    if s != [] {
      SortSorted(s[1..], le);
      InsertSorted(s[0], Sort(s[1..], le), le);
    }
  }

  // Stability: sorting commutes with every filter.

  lemma {:induction false} FilterMembers<T>(p: T -> bool, s: seq<T>)
    ensures forall x :: x in Filter(p, s) <==> x in s && p(x)
  {
    if s != [] {
      FilterMembers(p, s[1..]);
      assert s == [s[0]] + s[1..];
    }
  }

  lemma InsertFront<T>(x: T, s: seq<T>, le: (T, T) -> bool)
    requires forall y :: y in s ==> le(x, y)
    ensures Insert(x, s, le) == [x] + s
  {
    if s != [] {
      assert s[0] in s;
    }
  }

  lemma {:induction false} FilterInsert<T(!new)>(p: T -> bool, x: T, s: seq<T>, le: (T, T) -> bool)
    requires TotalPreorder(le) && Sorted(s, le)
    ensures Filter(p, Insert(x, s, le)) == if p(x) then Insert(x, Filter(p, s), le) else Filter(p, s)
  {
    if s == [] || le(x, s[0]) {
      FilterMembers(p, s);
      assert ([x] + s)[1..] == s;
      if p(x) {
        forall y | y in Filter(p, s)
          ensures le(x, y)
        {
          assert y in s;
        }
        InsertFront(x, Filter(p, s), le);
      }
    } else {
      FilterInsert(p, x, s[1..], le);
      var rest, kept := Insert(x, s[1..], le), Filter(p, s[1..]);
      assert ([s[0]] + rest)[1..] == rest;
      if p(s[0]) {
        assert Filter(p, s) == [s[0]] + kept;
        assert Filter(p, s)[1..] == kept;
        assert Filter(p, [s[0]] + rest) == [s[0]] + Filter(p, rest);
      } else {
        assert Filter(p, s) == kept;
        assert Filter(p, [s[0]] + rest) == Filter(p, rest);
      }
    }
  }

  /** The sorted elements that satisfy p are the elements that satisfy p, sorted. */
  lemma {:induction false} FilterSort<T(!new)>(p: T -> bool, s: seq<T>, le: (T, T) -> bool)
    requires TotalPreorder(le)
    ensures Filter(p, Sort(s, le)) == Sort(Filter(p, s), le)
  {
    if s != [] {
      FilterSort(p, s[1..], le);
      SortSorted(s[1..], le);
      FilterInsert(p, s[0], Sort(s[1..], le), le);
      if p(s[0]) {
        assert Filter(p, s)[1..] == Filter(p, s[1..]);
      } else {
        assert Filter(p, s) == Filter(p, s[1..]);
      }
    }
  }

  function Equivalent<T>(x: T, le: (T, T) -> bool): T -> bool {
    y => le(x, y) && le(y, x)
  }

  lemma {:induction false} SortOfSorted<T(!new)>(s: seq<T>, le: (T, T) -> bool)
    requires Sorted(s, le)
    ensures Sort(s, le) == s
  {
    if s != [] {
      SortOfSorted(s[1..], le);
      InsertFront(s[0], s[1..], le);
      assert s == [s[0]] + s[1..];
    }
  }

  /** Sorting keeps equivalent elements in their order. */
  lemma SortStable<T(!new)>(s: seq<T>, le: (T, T) -> bool, x: T)
    requires TotalPreorder(le)
    ensures Filter(Equivalent(x, le), Sort(s, le)) == Filter(Equivalent(x, le), s)
  {
    hide Sort;
    var same := Filter(Equivalent(x, le), s);
    FilterSort(Equivalent(x, le), s, le);
    FilterMembers(Equivalent(x, le), s);
    forall i, j | 0 <= i < j < |same|
      ensures le(same[i], same[j])
    {
      assert same[i] in same && same[j] in same;
    }
    SortOfSorted(same, le);
  }

  /** Equal in every class of equivalent elements. */
  ghost predicate SameClasses<T(!new)>(s: seq<T>, t: seq<T>, le: (T, T) -> bool) {
    forall x :: Filter(Equivalent(x, le), s) == Filter(Equivalent(x, le), t)
  }

  /** There is only one stable sort: a sorted sequence that keeps equivalent elements in order is Sort. */
  lemma StableSortUnique<T(!new)>(s: seq<T>, t: seq<T>, le: (T, T) -> bool)
    requires TotalPreorder(le) && Sorted(t, le) && SameClasses(t, s, le)
    ensures t == Sort(s, le)
  {
    hide Sort;
    SortSorted(s, le);
    forall x
      ensures Filter(Equivalent(x, le), t) == Filter(Equivalent(x, le), Sort(s, le))
    {
      SortStable(s, le, x);
    }
    ClassesDetermine(t, Sort(s, le), le);
  }

  lemma {:induction false} ClassesDetermine<T(!new)>(s: seq<T>, t: seq<T>, le: (T, T) -> bool)
    requires TotalPreorder(le) && Sorted(s, le) && Sorted(t, le) && SameClasses(s, t, le)
    ensures s == t
    decreases |s| + |t|
  {
    if s != [] {
      LeastClass(s, t, le);
    }
    if t != [] {
      LeastClass(t, s, le);
    }
    if s != [] && t != [] {
      var same := Equivalent(s[0], le);
      assert Filter(same, s)[0] == s[0] && Filter(same, t)[0] == t[0];
      assert Filter(same, s) == Filter(same, t);
      forall x
        ensures Filter(Equivalent(x, le), s[1..]) == Filter(Equivalent(x, le), t[1..])
      {
        var p := Equivalent(x, le);
        assert Filter(p, s) == Filter(p, t);
        FilterTail(p, s);
        FilterTail(p, t);
      }
      ClassesDetermine(s[1..], t[1..], le);
      assert s == [s[0]] + s[1..] && t == [t[0]] + t[1..];
    }
  }

  lemma FilterTail<T>(p: T -> bool, s: seq<T>)
    requires s != []
    ensures p(s[0]) ==> Filter(p, s) != [] && Filter(p, s[1..]) == Filter(p, s)[1..]
    ensures !p(s[0]) ==> Filter(p, s[1..]) == Filter(p, s)
  {
  }

  /** The first element of one sequence has an equivalent in the other, after its first element. */
  lemma LeastClass<T(!new)>(s: seq<T>, t: seq<T>, le: (T, T) -> bool)
    requires TotalPreorder(le) && Sorted(t, le) && SameClasses(s, t, le) && s != []
    ensures t != [] && le(t[0], s[0])
  {
    var p := Equivalent(s[0], le);
    assert p(s[0]);
    FilterMembers(p, s);
    FilterMembers(p, t);
    assert s[0] in s && s[0] in Filter(p, s);
    assert Filter(p, s) == Filter(p, t);
    var i :| 0 <= i < |t| && t[i] == s[0];
    assert i > 0 ==> le(t[0], t[i]);
  }

  lemma TailBag<T>(s: seq<T>)
    requires s != []
    ensures multiset(s[1..]) == multiset(s) - multiset{s[0]}
  {
    assert s == [s[0]] + s[1..];
  }

  lemma HeadsShared<T>(s: seq<T>, t: seq<T>)
    requires multiset(s) == multiset(t)
    ensures |s| == |t| && (s != [] ==> s[0] in t && t[0] in s)
  {
    SameBagSameElements(s, t);
  }

  // Collecting a sequence from every element of another.

  function Collect<A, B>(f: A -> seq<B>, s: seq<A>): seq<B> {
    if s == [] then [] else f(s[0]) + Collect(f, s[1..])
  }

  lemma {:induction false} CollectAppend<A, B>(f: A -> seq<B>, a: seq<A>, b: seq<A>)
    ensures Collect(f, a + b) == Collect(f, a) + Collect(f, b)
  {
    if a == [] {
      assert a + b == b;
    } else {
      assert (a + b)[1..] == a[1..] + b;
      CollectAppend(f, a[1..], b);
    }
  }

  lemma CollectNone<A, B>(f: A -> seq<B>, s: seq<A>)
    ensures Collect(f, s[..0]) == [] && Collect(f, []) == []
  {
  }

  lemma CollectTwo<A, B>(f: A -> seq<B>, x: A, y: A)
    ensures Collect(f, [x, y]) == f(x) + f(y)
  {
    assert [x, y][1..] == [y];
    assert Collect(f, [y]) == f(y);
  }

  /** Collecting one element more. */
  lemma CollectSnoc<A, B>(f: A -> seq<B>, s: seq<A>, i: nat)
    requires i < |s|
    ensures Collect(f, s[..i + 1]) == Collect(f, s[..i]) + f(s[i])
  {
    CollectAppend(f, s[..i], [s[i]]);
    assert s[..i + 1] == s[..i] + [s[i]];
    assert Collect(f, [s[i]]) == f(s[i]);
  }

  lemma {:induction false} CollectMembers<A, B>(f: A -> seq<B>, s: seq<A>)
    ensures forall y :: y in Collect(f, s) <==> exists x :: x in s && y in f(x)
  {
    if s != [] {
      CollectMembers(f, s[1..]);
      assert s == [s[0]] + s[1..];
    }
  }

  lemma MiddleBag<A>(a: seq<A>, x: A, b: seq<A>)
    ensures multiset(a + ([x] + b)) == multiset(a + b) + multiset{x}
  {
  }

  /** A permutation splits around its counterpart's first element. */
  lemma SplitBag<A>(s: seq<A>, t: seq<A>) returns (a: seq<A>, b: seq<A>)
    requires s != [] && multiset(s) == multiset(t)
    ensures t == a + ([s[0]] + b) && multiset(s[1..]) == multiset(a + b)
  {
    HeadsShared(s, t);
    var k :| 0 <= k < |t| && t[k] == s[0];
    a, b := t[..k], t[k + 1..];
    assert t == a + ([s[0]] + b);
    MiddleBag(a, s[0], b);
    TailBag(s);
    TakeBack(multiset(a + b), s[0]);
  }

  lemma TakeBack<A>(m: multiset<A>, x: A)
    ensures m + multiset{x} - multiset{x} == m
  {
  }

  /** What is collected does not depend on the order of the elements, up to order. */
  lemma {:induction false} CollectPermutes<A, B>(f: A -> seq<B>, s: seq<A>, t: seq<A>)
    requires multiset(s) == multiset(t)
    ensures multiset(Collect(f, s)) == multiset(Collect(f, t))
  {
    SameBagSameElements(s, t);
    if s != [] {
      var a, b := SplitBag(s, t);
      CollectPermutes(f, s[1..], a + b);
      CollectAppend(f, a, b);
      CollectAppend(f, a, [s[0]] + b);
      assert ([s[0]] + b)[1..] == b;
    }
  }

  // Filtering.

  lemma {:induction false} FilterAsCollect<A>(p: A -> bool, s: seq<A>)
    ensures Filter(p, s) == Collect(x => if p(x) then [x] else [], s)
  {
    if s != [] {
      FilterAsCollect(p, s[1..]);
    }
  }

  lemma FilterAppend<A>(p: A -> bool, a: seq<A>, b: seq<A>)
    ensures Filter(p, a + b) == Filter(p, a) + Filter(p, b)
  {
    hide Filter, Collect;
    FilterAsCollect(p, a);
    FilterAsCollect(p, b);
    FilterAsCollect(p, a + b);
    CollectAppend(x => if p(x) then [x] else [], a, b);
  }

  lemma FilterCons<A>(p: A -> bool, x: A, rest: seq<A>)
    ensures Filter(p, [x] + rest) == if p(x) then [x] + Filter(p, rest) else Filter(p, rest)
  {
    assert ([x] + rest)[1..] == rest;
  }

  lemma FilterSnoc<A>(p: A -> bool, s: seq<A>, x: A)
    ensures Filter(p, s + [x]) == Filter(p, s) + if p(x) then [x] else []
  {
    FilterAppend(p, s, [x]);
    FilterCons(p, x, []);
    assert [x] + [] == [x];
  }

  lemma FilterPermutes<A>(p: A -> bool, s: seq<A>, t: seq<A>)
    requires multiset(s) == multiset(t)
    ensures multiset(Filter(p, s)) == multiset(Filter(p, t))
  {
    FilterAsCollect(p, s);
    FilterAsCollect(p, t);
    CollectPermutes(x => if p(x) then [x] else [], s, t);
  }

  lemma {:induction false} FilterNone<A>(p: A -> bool, s: seq<A>)
    requires forall x :: x in s ==> !p(x)
    ensures Filter(p, s) == []
  {
    if s != [] {
      assert s[0] in s;
      FilterNone(p, s[1..]);
    }
  }

  // Collecting in another order.

  lemma {:induction false} MovePast<A(!new), B>(f: A -> seq<B>, w: seq<B>, s: seq<A>, rest: seq<B>, n: nat)
    requires forall x :: x in s ==> Commute(w, f(x), n)
    ensures Prefix(w + (Collect(f, s) + rest), n) == Prefix(Collect(f, s) + (w + rest), n)
  {
    hide Commute, Prefix;
    if s == [] {
      assert [] + rest == rest && [] + (w + rest) == w + rest;
    } else {
      var first, others := f(s[0]), Collect(f, s[1..]);
      assert s[0] in s;
      CommuteBefore(w, first, others + rest, n);
      MovePast(f, w, s[1..], rest, n);
      PrefixAfter(first, w + (others + rest), others + (w + rest), n);
      assert first + others + rest == first + (others + rest) && first + others + (w + rest) == first + (others + (w + rest));
    }
  }

  /** What is collected from pieces that commute up to n does not depend on their order, up to n. */
  lemma {:induction false} CollectCommutes<A(!new), B>(f: A -> seq<B>, s: seq<A>, t: seq<A>, n: nat)
    requires multiset(s) == multiset(t)
    requires forall x, y :: x in s && y in s ==> Commute(f(x), f(y), n)
    ensures Prefix(Collect(f, s), n) == Prefix(Collect(f, t), n)
  {
    hide Commute, Prefix;
    SameBagSameElements(s, t);
    if s == [] {
      assert t == [];
    } else {
      var a, b := SplitBag(s, t);
      assert forall x :: x in a ==> x in t;
      assert forall x :: x in s[1..] ==> x in s;
      CollectCommutes(f, s[1..], a + b, n);
      var w := f(s[0]);
      PrefixAfter(w, Collect(f, s[1..]), Collect(f, a + b), n);
      CollectAppend(f, a, b);
      assert s[0] in s;
      MovePast(f, w, a, Collect(f, b), n);
      CollectAppend(f, a, [s[0]] + b);
      assert ([s[0]] + b)[1..] == b;
    }
  }
}
