/** Walks in a finite directed graph given by adjacency lists, and the facts about
    reachability, cycles and closed sets that depth-first search relies on. */
module Graphs {
  import opened Sequences

  /** Adjacency lists. A node without outgoing edges has no entry. */
  type Edges = map<int, seq<int>>

  function Successors(e: Edges, a: int): seq<int> {
    if a in e then e[a] else []
  }

  ghost predicate Edge(e: Edges, a: int, b: int) {
    b in Successors(e, a)
  }

  ghost predicate Walk(e: Edges, w: seq<int>) {
    forall i, j {:trigger Edge(e, w[i], w[j])} :: 0 <= i && j == i + 1 < |w| ==> Edge(e, w[i], w[j])
  }

  ghost predicate WalkBetween(e: Edges, w: seq<int>, a: int, b: int) {
    |w| >= 2 && w[0] == a && w[|w| - 1] == b && Walk(e, w)
  }

  /** b is reachable from a by one or more edges. */
  ghost predicate Reaches(e: Edges, a: int, b: int) {
    exists w :: WalkBetween(e, w, a, b)
  }

  ghost predicate OnCycle(e: Edges, a: int) {
    Reaches(e, a, a)
  }

  ghost predicate CycleReachable(e: Edges, a: int) {
    exists c :: (c == a || Reaches(e, a, c)) && OnCycle(e, c)
  }

  ghost predicate Acyclic(e: Edges) {
    forall a :: !OnCycle(e, a)
  }

  /** Every node that occurs as an end of some edge. */
  ghost function Nodes(e: Edges): set<int> {
    e.Keys + (set a, b | a in e && b in e[a] :: b)
  }

  /** The graph with the edge from a to b added. */
  function AddEdge(e: Edges, a: int, b: int): (e': Edges)
    ensures forall x, y :: Edge(e', x, y) <==> Edge(e, x, y) || (x == a && y == b)
  {
    var out := Successors(e, a);
    if b in out then e else
      var e' := e[a := out + [b]];
      assert forall x :: x != a ==> Successors(e', x) == Successors(e, x);
      e'
  }

  lemma EdgeReaches(e: Edges, a: int, b: int)
    requires Edge(e, a, b)
    ensures Reaches(e, a, b)
  {
    assert WalkBetween(e, [a, b], a, b);
  }

  lemma ReachesTransitive(e: Edges, a: int, b: int, c: int)
    requires Reaches(e, a, b) && Reaches(e, b, c)
    ensures Reaches(e, a, c)
  {
    var u :| WalkBetween(e, u, a, b);
    var v :| WalkBetween(e, v, b, c);
    var w := u + v[1..];
    forall i | 0 <= i < |w| - 1
      ensures Edge(e, w[i], w[i + 1])
    {
      if i < |u| - 1 {
        assert Edge(e, u[i], u[i + 1]);
      } else {
        var k := i - (|u| - 1);
        assert Edge(e, v[k], v[k + 1]);
      }
    }
    assert WalkBetween(e, w, a, c);
  }

  /** A walk splits at its first edge. */
  lemma FirstStep(e: Edges, a: int, b: int) returns (c: int)
    requires Reaches(e, a, b)
    ensures Edge(e, a, c) && (c == b || Reaches(e, c, b))
  {
    var w :| WalkBetween(e, w, a, b);
    c := w[1];
    assert Edge(e, w[0], w[1]);
    if |w| > 2 {
      var t := w[1..];
      forall i | 0 <= i < |t| - 1
        ensures Edge(e, t[i], t[i + 1])
      {
        assert Edge(e, w[i + 1], w[i + 2]);
      }
      assert WalkBetween(e, t, c, b);
    }
  }

  /** Two positions of one walk reach each other in order. */
  lemma SegmentReaches(e: Edges, w: seq<int>, i: nat, j: nat)
    requires Walk(e, w) && i < j < |w|
    ensures Reaches(e, w[i], w[j])
  {
    var t := w[i..j + 1];
    forall k | 0 <= k < |t| - 1
      ensures Edge(e, t[k], t[k + 1])
    {
      assert Edge(e, w[i + k], w[i + k + 1]);
    }
    assert WalkBetween(e, t, w[i], w[j]);
  }

  lemma WalkAppend(e: Edges, w: seq<int>, c: int)
    requires Walk(e, w)
    requires |w| > 0 ==> Edge(e, w[|w| - 1], c)
    ensures Walk(e, w + [c])
  {
    var v := w + [c];
    forall i | 0 <= i < |v| - 1
      ensures Edge(e, v[i], v[i + 1])
    {
      if i < |w| - 1 {
        assert Edge(e, w[i], w[i + 1]);
      }
    }
  }

  /** A node reaches every cycle that a successor reaches ... */
  lemma CycleThroughSuccessor(e: Edges, a: int, c: int)
    requires Edge(e, a, c) && CycleReachable(e, c)
    ensures CycleReachable(e, a)
  {
    var x :| (x == c || Reaches(e, c, x)) && OnCycle(e, x);
    EdgeReaches(e, a, c);
    if x != c {
      ReachesTransitive(e, a, c, x);
    }
    assert Reaches(e, a, x);
  }

  /** ... and no other. */
  lemma CycleSuccessor(e: Edges, a: int) returns (c: int)
    requires CycleReachable(e, a)
    ensures Edge(e, a, c) && CycleReachable(e, c)
  {
    var x :| (x == a || Reaches(e, a, x)) && OnCycle(e, x);
    c := FirstStep(e, a, x);
    if c != x && x == a {
      // The cycle through a is also a cycle through c.
      EdgeReaches(e, a, c);
      ReachesTransitive(e, c, a, c);
      assert OnCycle(e, c);
    }
  }

  lemma NoCycleThroughSuccessors(e: Edges, a: int)
    requires forall i :: 0 <= i < |Successors(e, a)| ==> !CycleReachable(e, Successors(e, a)[i])
    ensures !CycleReachable(e, a)
  {
    if CycleReachable(e, a) {
      var c := CycleSuccessor(e, a);
    }
  }

  /** A closed set that holds every successor of a and has no edge into q separates a from q. */
  lemma ClosedSetSeparates(e: Edges, a: int, q: int, closed: set<int>)
    requires forall n :: n == a || n in closed ==> !Edge(e, n, q)
    requires forall n, c :: (n == a || n in closed) && Edge(e, n, c) ==> c in closed
    ensures !Reaches(e, a, q)
  {
    forall w | WalkBetween(e, w, a, q)
      ensures false
    {
      assert Edge(e, w[|w| - 2], w[|w| - 1]);
      WalkStaysInside(e, a, w, closed, |w| - 2);
    }
  }

  lemma {:induction false} WalkStaysInside(e: Edges, a: int, w: seq<int>, closed: set<int>, i: nat)
    requires i < |w| && w[0] == a && Walk(e, w)
    requires forall n, c :: (n == a || n in closed) && Edge(e, n, c) ==> c in closed
    ensures w[i] == a || w[i] in closed
  {
    if i > 0 {
      WalkStaysInside(e, a, w, closed, i - 1);
      assert Edge(e, w[i - 1], w[i]);
    }
  }

  /** Pigeonhole: a list without repeats is no longer than the set it draws from. */
  lemma {:induction false} DistinctBound(s: seq<int>, universe: set<int>)
    requires Distinct(s)
    requires forall i :: 0 <= i < |s| ==> s[i] in universe
    ensures |s| <= |universe|
  {
    if s != [] {
      var n := |s| - 1;
      DistinctBound(s[..n], universe - {s[n]});
    }
  }

  lemma EdgeInNodes(e: Edges, a: int, b: int)
    requires Edge(e, a, b)
    ensures a in Nodes(e) && b in Nodes(e)
  {
  }
}
