/** The dependency graph of ci/pipeline/py_dep_analysis.py and its two depth-first searches. */
module DepAnalysis {
  import opened Graphs
  import opened Sequences

  /** The dictionary of visited nodes that one dependency query threads through its recursion. */
  class Visited {
    var ids: set<int>

    constructor ()
      ensures ids == {}
    {
      ids := {};
    }
  }

  /** The list that the cycle search appends to and pops from in place. */
  class Branch {
    var nodes: seq<int>

    constructor ()
      ensures nodes == []
    {
      nodes := [];
    }
  }

  /** A list of nodes from tid to qid along edges, with no repeats after its first element. */
  ghost predicate DependencyPath(e: Edges, tid: int, qid: int, path: seq<int>) {
    WalkBetween(e, path, tid, qid) && Distinct(path[1..])
  }

  /** The search from tid gave up: tid and every node it marked have all their successors marked
      and no edge to qid. */
  ghost predicate Exhausted(e: Edges, tid: int, qid: int, before: set<int>, after: set<int>) {
    && DeadEnd(e, tid, qid, after)
    && forall n :: n in after - before ==> DeadEnd(e, n, qid, after)
  }

  ghost predicate DeadEnd(e: Edges, n: int, qid: int, marked: set<int>) {
    !Edge(e, n, qid) && forall c :: Edge(e, n, c) ==> c in marked
  }

  /** Searches for a dependency path from tid to qid that avoids the nodes already visited. The
      start node is never marked, and a query node without outgoing edges is never found. */
  method Depends(e: Edges, visited: Visited, tid: int, qid: int) returns (path: seq<int>)
    modifies visited
    ensures old(visited.ids) <= visited.ids
    ensures qid !in e ==> path == [] && visited.ids == old(visited.ids)
    ensures path != [] ==> DependencyPath(e, tid, qid, path)
    ensures path != [] ==>
      forall i :: 1 <= i < |path| - 1 ==> path[i] in visited.ids - old(visited.ids)
    ensures path == [] && qid in e ==> Exhausted(e, tid, qid, old(visited.ids), visited.ids)
    decreases Nodes(e) - visited.ids
  {
    if tid !in e || qid !in e {
      return [];
    }
    if qid in e[tid] {
      assert Edge(e, tid, qid);
      return [tid, qid];
    }
    for i := 0 to |e[tid]|
      invariant old(visited.ids) <= visited.ids
      invariant forall k :: 0 <= k < i ==> e[tid][k] in visited.ids
      invariant forall n :: n in visited.ids - old(visited.ids) ==> DeadEnd(e, n, qid, visited.ids)
    {
      var c := e[tid][i];
      if c in visited.ids {
        continue;
      }
      assert Edge(e, tid, c);
      EdgeInNodes(e, tid, c);
      visited.ids := visited.ids + {c};
      ghost var before := visited.ids;
      var ds := Depends(e, visited, c, qid);
      if ds != [] {
        path := [tid] + ds;
        PrependStep(e, tid, qid, ds);
        return;
      }
      forall n | n in visited.ids - old(visited.ids)
        ensures DeadEnd(e, n, qid, visited.ids)
      {
        if n in before && n != c {
          assert DeadEnd(e, n, qid, before - {c});
        }
      }
    }
    return [];
  }

  lemma PrependStep(e: Edges, tid: int, qid: int, ds: seq<int>)
    requires ds != [] && DependencyPath(e, ds[0], qid, ds)
    requires Edge(e, tid, ds[0]) && ds[0] !in ds[1..]
    ensures DependencyPath(e, tid, qid, [tid] + ds)
  {
    var p := [tid] + ds;
    assert p[1..] == ds;
    forall i | 0 <= i < |p| - 1
      ensures Edge(e, p[i], p[i + 1])
    {
      if i > 0 {
        assert Edge(e, ds[i - 1], ds[i]);
      }
    }
    forall i, j | 0 <= i < j < |ds|
      ensures ds[i] != ds[j]
    {
      assert ds[j] == ds[1..][j - 1];
      if i > 0 {
        assert ds[i] == ds[1..][i - 1];
      }
    }
  }

  /** A whole query, started with nothing visited. */
  method DependsOn(e: Edges, tid: int, qid: int) returns (path: seq<int>)
    ensures path != [] <==> qid in e && Reaches(e, tid, qid)
    ensures path != [] ==> DependencyPath(e, tid, qid, path) && |path| <= |Nodes(e)| + 1
  {
    var visited := new Visited();
    path := Depends(e, visited, tid, qid);
    if path == [] {
      if qid in e {
        forall n, c | (n == tid || n in visited.ids) && Edge(e, n, c)
          ensures c in visited.ids
        {
          assert DeadEnd(e, n, qid, visited.ids);
        }
        assert forall n :: n == tid || n in visited.ids ==> DeadEnd(e, n, qid, visited.ids);
        ClosedSetSeparates(e, tid, qid, visited.ids);
      }
    } else {
      assert Reaches(e, tid, qid);
      forall i | 0 <= i < |path[1..]|
        ensures path[1..][i] in Nodes(e)
      {
        assert Edge(e, path[i], path[i + 1]);
        EdgeInNodes(e, path[i], path[i + 1]);
      }
      DistinctBound(path[1..], Nodes(e));
    }
  }

  /** The branch is what the cycle search holds when it is called on id: the distinct nodes of a
      walk that ends in id, or nothing at the outermost call. */
  ghost predicate SearchBranch(e: Edges, id: int, b: seq<int>) {
    && Walk(e, b)
    && Distinct(b)
    && (forall i :: 0 <= i < |b| ==> b[i] in Nodes(e))
    && (b != [] ==> b[|b| - 1] == id)
  }

  /** The branch of a successful search: a walk whose only repeated node is its last. */
  ghost predicate ClosedBranch(e: Edges, b: seq<int>) {
    && |b| >= 2
    && Walk(e, b)
    && Distinct(b[..|b| - 1])
    && b[|b| - 1] in b[..|b| - 1]
  }

  /** Backtracking search for a cycle. It answers true exactly when a cycle is reachable from id,
      closes the branch then, and restores the branch exactly otherwise. */
  method FindCircularDepImpl(e: Edges, id: int, branch: Branch) returns (found: bool)
    requires SearchBranch(e, id, branch.nodes)
    modifies branch
    ensures found <==> CycleReachable(e, id)
    ensures !found ==> branch.nodes == old(branch.nodes)
    ensures found ==>
      && ClosedBranch(e, branch.nodes)
      && old(branch.nodes) < branch.nodes
      && Edge(e, id, branch.nodes[|old(branch.nodes)|])
    decreases Nodes(e) - Elements(branch.nodes)
  {
    hide SearchBranch, Nodes, Elements, CycleReachable, ClosedBranch;
    if id !in e {
      NoCycleThroughSuccessors(e, id);
      return false;
    }
    for i := 0 to |e[id]|
      invariant branch.nodes == old(branch.nodes)
      invariant forall k :: 0 <= k < i ==> !CycleReachable(e, e[id][k])
    {
      var c := e[id][i];
      assert Edge(e, id, c);
      if c in branch.nodes {
        CloseBranch(e, id, branch.nodes, c);
        CycleThroughSuccessor(e, id, c);
        branch.nodes := branch.nodes + [c];
        return true;
      }
      ExtendBranch(e, id, branch.nodes, c);
      branch.nodes := branch.nodes + [c];
      var inner := FindCircularDepImpl(e, c, branch);
      if inner {
        CycleThroughSuccessor(e, id, c);
        return true;
      }
      branch.nodes := branch.nodes[..|branch.nodes| - 1];
    }
    NoCycleThroughSuccessors(e, id);
    return false;
  }

  function Elements(s: seq<int>): set<int> {
    set n | n in s
  }

  lemma ExtendBranch(e: Edges, id: int, b: seq<int>, c: int)
    requires SearchBranch(e, id, b) && Edge(e, id, c) && c !in b
    ensures SearchBranch(e, c, b + [c])
    ensures Nodes(e) - Elements(b + [c]) < Nodes(e) - Elements(b)
  {
    EdgeInNodes(e, id, c);
    WalkAppend(e, b, c);
    assert Elements(b + [c]) == Elements(b) + {c};
    assert c in Nodes(e) - Elements(b);
  }

  lemma CloseBranch(e: Edges, id: int, b: seq<int>, c: int)
    requires SearchBranch(e, id, b) && Edge(e, id, c) && c in b
    ensures ClosedBranch(e, b + [c]) && CycleReachable(e, c)
  {
    WalkAppend(e, b, c);
    assert (b + [c])[..|b|] == b;
    ClosingNodeOnCycle(e, b, c);
  }

  lemma ClosingNodeOnCycle(e: Edges, b: seq<int>, c: int)
    requires c in b && Walk(e, b + [c])
    ensures OnCycle(e, c) && CycleReachable(e, c)
  {
    var j :| 0 <= j < |b| && b[j] == c;
    SegmentReaches(e, b + [c], j, |b|);
  }

  /** A closed branch carries a genuine cycle through its last node. */
  lemma ClosedBranchCycle(e: Edges, b: seq<int>)
    requires ClosedBranch(e, b)
    ensures OnCycle(e, b[|b| - 1])
  {
    var j :| 0 <= j < |b| - 1 && b[..|b| - 1][j] == b[|b| - 1];
    SegmentReaches(e, b, j, |b| - 1);
  }

  datatype Circle = Circle(mod: string, branch: seq<int>) {
    function Closing(): int
      requires branch != []
    {
      branch[|branch| - 1]
    }
  }

  /** Ids are dense and injective: the id of a module is its place in the insertion order. */
  ghost predicate DenseIds(ids: map<string, int>, modules: seq<string>) {
    && |ids| == |modules|
    && (forall i :: 0 <= i < |modules| ==> modules[i] in ids && ids[modules[i]] == i)
    && (forall m :: m in ids ==> 0 <= ids[m] < |modules| && modules[ids[m]] == m)
  }

  /** Every edge joins two ids below n, and no edge is stored twice. */
  ghost predicate EdgesWithin(e: Edges, n: int) {
    && (forall a :: a in e ==> 0 <= a < n && e[a] != [] && Distinct(e[a]))
    && (forall a, b :: Edge(e, a, b) ==> 0 <= b < n)
  }

  /** Every recorded circle belongs to a module below n and closes a genuine cycle. */
  ghost predicate Recorded(e: Edges, modules: seq<string>, circles: seq<Circle>, n: int) {
    forall k :: 0 <= k < |circles| ==> RecordedCircle(e, modules, circles[k], n)
  }

  ghost predicate RecordedCircle(e: Edges, modules: seq<string>, c: Circle, n: int) {
    && ClosedBranch(e, c.branch)
    && OnCycle(e, c.Closing())
    && exists id :: 0 <= id < n && id < |modules| && modules[id] == c.mod && Edge(e, id, c.branch[0])
  }

  /** The nodes that some recorded branch mentions. */
  ghost function Mentioned(circles: seq<Circle>): set<int> {
    set k, n | 0 <= k < |circles| && n in circles[k].branch :: n
  }

  /** No module is recorded twice and no circle closes on a node that an earlier one mentions. */
  ghost predicate Unrelated(circles: seq<Circle>) {
    forall j, k :: 0 <= j < k < |circles| ==>
      && circles[j].mod != circles[k].mod
      && circles[k].branch != []
      && circles[k].Closing() !in circles[j].branch
  }

  /** Some of the given nodes is reachable from n and lies on a cycle. */
  ghost predicate Covered(e: Edges, nodes: set<int>, n: int) {
    exists c :: c in nodes && Reaches(e, n, c) && OnCycle(e, c)
  }

  /** What holds of the report after the first i modules. */
  ghost predicate Progress(e: Edges, modules: seq<string>, circles: seq<Circle>, known: set<int>, i: int) {
    && Recorded(e, modules, circles, i)
    && Unrelated(circles)
    && known == Mentioned(circles)
    && (forall n :: 0 <= n < i && CycleReachable(e, n) ==> Covered(e, known, n))
  }

  lemma RecordedBelow(e: Edges, modules: seq<string>, circles: seq<Circle>, i: nat)
    requires Recorded(e, modules, circles, i)
    ensures Recorded(e, modules, circles, i + 1)
  {
    forall k | 0 <= k < |circles|
      ensures RecordedCircle(e, modules, circles[k], i + 1)
    {
      assert RecordedCircle(e, modules, circles[k], i);
    }
  }

  /** A branch found from i covers i by its closing node. */
  lemma BranchCovers(e: Edges, nodes: set<int>, i: int, b: seq<int>)
    requires ClosedBranch(e, b) && Edge(e, i, b[0]) && (Elements(b) <= nodes || b[|b| - 1] in nodes)
    ensures Covered(e, nodes, i)
  {
    assert b[|b| - 1] in Elements(b);
    ClosedBranchCycle(e, b);
    WalkFromStart(e, i, b);
  }

  lemma CoveredGrows(e: Edges, nodes: set<int>, more: set<int>, n: int)
    requires Covered(e, nodes, n)
    ensures Covered(e, nodes + more, n)
  {
    var c :| c in nodes && Reaches(e, n, c) && OnCycle(e, c);
    assert c in nodes + more;
  }

  /** Module i reaches no cycle, or the node that closes its branch is already known. */
  lemma KeepCircles(e: Edges, modules: seq<string>, circles: seq<Circle>, known: set<int>, i: nat, b: seq<int>)
    requires Progress(e, modules, circles, known, i)
    requires CycleReachable(e, i) ==> ClosedBranch(e, b) && Edge(e, i, b[0]) && b[|b| - 1] in known
    ensures Progress(e, modules, circles, known, i + 1)
  {
    RecordedBelow(e, modules, circles, i);
    if CycleReachable(e, i) {
      BranchCovers(e, known, i, b);
    }
  }

  lemma MentionedAppend(circles: seq<Circle>, c: Circle)
    ensures Mentioned(circles + [c]) == Mentioned(circles) + Elements(c.branch)
  {
    var circles' := circles + [c];
    assert circles'[|circles|] == c;
    forall n | n in Mentioned(circles)
      ensures n in Mentioned(circles')
    {
      var k :| 0 <= k < |circles| && n in circles[k].branch;
      assert n in circles'[k].branch;
    }
    forall n | n in c.branch
      ensures n in Mentioned(circles')
    {
      assert n in circles'[|circles|].branch;
    }
  }

  lemma RecordedAppend(e: Edges, modules: seq<string>, circles: seq<Circle>, i: nat, b: seq<int>)
    requires i < |modules| && forall j, k :: 0 <= j < k < |modules| ==> modules[j] != modules[k]
    requires Recorded(e, modules, circles, i) && Unrelated(circles)
    requires ClosedBranch(e, b) && Edge(e, i, b[0]) && b[|b| - 1] !in Mentioned(circles)
    ensures var circles' := circles + [Circle(modules[i], b)];
      Recorded(e, modules, circles', i + 1) && Unrelated(circles')
  {
    ClosedBranchCycle(e, b);
    RecordedBelow(e, modules, circles, i);
    assert RecordedCircle(e, modules, Circle(modules[i], b), i + 1);
    forall k | 0 <= k < |circles|
      ensures circles[k].mod != modules[i] && b[|b| - 1] !in circles[k].branch
    {
      assert RecordedCircle(e, modules, circles[k], i);
    }
  }

  lemma RecordCircle(e: Edges, modules: seq<string>, circles: seq<Circle>, known: set<int>, i: nat, b: seq<int>)
    requires i < |modules| && forall j, k :: 0 <= j < k < |modules| ==> modules[j] != modules[k]
    requires Progress(e, modules, circles, known, i)
    requires ClosedBranch(e, b) && Edge(e, i, b[0]) && b[|b| - 1] !in known
    ensures Progress(e, modules, circles + [Circle(modules[i], b)], known + Elements(b), i + 1)
  {
    hide Recorded, Unrelated, Mentioned, Elements, Covered, CycleReachable, ClosedBranch;
    RecordedAppend(e, modules, circles, i, b);
    MentionedAppend(circles, Circle(modules[i], b));
    BranchCovers(e, known + Elements(b), i, b);
    forall n | 0 <= n < i && CycleReachable(e, n)
      ensures Covered(e, known + Elements(b), n)
    {
      CoveredGrows(e, known, Elements(b), n);
    }
  }

  lemma CyclesAreCovered(e: Edges, n: nat, circles: seq<Circle>)
    requires EdgesWithin(e, n)
    requires forall a :: 0 <= a < n && CycleReachable(e, a) ==> Covered(e, Mentioned(circles), a)
    requires forall k :: 0 <= k < |circles| ==> circles[k].branch != [] && OnCycle(e, circles[k].Closing())
    ensures circles == [] <==> Acyclic(e)
  {
    forall a | OnCycle(e, a)
      ensures circles != []
    {
      var c := FirstStep(e, a, a);
      assert CycleReachable(e, a);
      assert Covered(e, Mentioned(circles), a);
    }
    if circles != [] {
      assert OnCycle(e, circles[0].Closing());
    }
  }

  /** The graph object. The dictionary of ids is kept with its insertion order. */
  class DepGraph {
    var edges: Edges
    var ids: map<string, int>
    var modules: seq<string>

    ghost predicate Valid()
      reads this
    {
      DenseIds(ids, modules) && EdgesWithin(edges, |modules|)
    }

    constructor ()
      ensures Valid() && modules == [] && edges == map[]
    {
      edges, ids, modules := map[], map[], [];
    }

    /** Gives a module the next free id, unless it has one. */
    method Register(m: string)
      requires Valid()
      modifies this
      ensures Valid() && edges == old(edges)
      ensures ids.Keys == old(ids).Keys + {m}
      ensures modules == if m in old(ids) then old(modules) else old(modules) + [m]
    {
      if m !in ids {
        ids, modules := ids[m := |ids|], modules + [m];
      }
    }

    /** Records that src depends on dep. An unknown src is an error, raised after dep was given an
        id; a module that depends on itself is therefore never unknown. */
    method NewDep(src: string, dep: string) returns (ok: bool)
      requires Valid()
      modifies this
      ensures Valid()
      ensures ok <==> src in old(ids) || src == dep
      ensures ids.Keys == old(ids).Keys + {dep}
      ensures modules == if dep in old(ids) then old(modules) else old(modules) + [dep]
      ensures !ok ==> edges == old(edges)
      ensures ok ==> src in ids && dep in ids && forall a, b ::
        Edge(edges, a, b) <==> Edge(old(edges), a, b) || (a == ids[src] && b == ids[dep])
    {
      Register(dep);
      ok := src in ids;
      if ok {
        AddEdgeWithin(edges, ids[src], ids[dep], |modules|);
        edges := AddEdge(edges, ids[src], ids[dep]);
      }
    }

    /** The reverse index is a two-sided inverse of the ids. */
    function InvIds(): (inv: map<int, string>)
      requires Valid()
      reads this
      ensures forall m :: m in ids ==> ids[m] in inv && inv[ids[m]] == m
      ensures forall i :: i in inv ==> inv[i] in ids && ids[inv[i]] == i
    {
      map i | 0 <= i < |modules| :: modules[i]
    }

    /** Reports circular dependencies, one branch per module whose closing node is not yet known. */
    method FindCircularDep() returns (circles: seq<Circle>)
      requires Valid()
      ensures circles == [] <==> Acyclic(edges)
      ensures Recorded(edges, modules, circles, |modules|)
      ensures Unrelated(circles)
      ensures forall n :: 0 <= n < |modules| && CycleReachable(edges, n) ==>
        Covered(edges, Mentioned(circles), n)
    {
      circles := [];
      var known: set<int> := {};
      for i := 0 to |modules|
        invariant Progress(edges, modules, circles, known, i)
      {
        var branch := new Branch();
        var found := FindCircularDepImpl(edges, i, branch);
        if !found {
          KeepCircles(edges, modules, circles, known, i, branch.nodes);
          continue;
        }
        var b := branch.nodes;
        if b[|b| - 1] in known {
          KeepCircles(edges, modules, circles, known, i, b);
          continue;
        }
        RecordCircle(edges, modules, circles, known, i, b);
        known := known + Elements(b);
        circles := circles + [Circle(modules[i], b)];
      }
      assert forall k :: 0 <= k < |circles| ==> RecordedCircle(edges, modules, circles[k], |modules|);
      CyclesAreCovered(edges, |modules|, circles);
    }
  }

  lemma AddEdgeWithin(e: Edges, a: int, b: int, n: int)
    requires EdgesWithin(e, n) && 0 <= a < n && 0 <= b < n
    ensures EdgesWithin(AddEdge(e, a, b), n)
  {
  }

  lemma WalkFromStart(e: Edges, id: int, b: seq<int>)
    requires ClosedBranch(e, b) && Edge(e, id, b[0])
    ensures Reaches(e, id, b[|b| - 1])
  {
    EdgeReaches(e, id, b[0]);
    SegmentReaches(e, b, 0, |b| - 1);
    ReachesTransitive(e, id, b[0], b[|b| - 1]);
  }

  /** The answer depends on the query node having outgoing edges: a leaf that is a direct
      dependency is reported as unreachable. */
  lemma LeafQueryIsMissed()
    ensures var e: Edges := map[0 := [1]]; Reaches(e, 0, 1) && 1 !in e
  {
    var e: Edges := map[0 := [1]];
    assert 1 in Successors(e, 0);
    EdgeReaches(e, 0, 1);
  }
}
