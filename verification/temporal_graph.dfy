/**
 * The temporal graph of the span-reachability project: an undirected graph
 * whose every edge carries a timestamp, stored as one list of
 * (neighbour, timestamp) pairs per vertex, and reachability restricted to
 * the edges whose timestamp lies in a query window [t1, t2].
 */
module Temporal {

  /** A timestamped edge as read from the input: (src, dst, timestamp). */
  type TEdge = (int, int, int)

  /** An adjacency entry: (neighbour, timestamp). */
  type Entry = (int, int)

  /** `vertex_num`: one more than the largest endpoint, or 0 for no edges. */
  function VertexCount(edges: seq<TEdge>): (n: int)
    ensures n >= 0
    ensures forall e :: e in edges ==> e.0 < n && e.1 < n
    ensures edges != [] && edges[0].0 >= 0 && edges[0].1 >= 0 ==> n > 0
    ensures n == 0 || exists e :: e in edges && (n == e.0 + 1 || n == e.1 + 1)
  {
    if edges == [] then 0
    else
      var e := edges[|edges| - 1];
      var m := VertexCount(edges[..|edges| - 1]);
      var hi := if e.0 < e.1 then e.1 + 1 else e.0 + 1;
      if m < hi then hi else m
  }

  /** Reading edge `k` raises the count to cover its larger endpoint. */
  lemma VertexCountStep(edges: seq<TEdge>, k: int)
    requires 0 <= k < |edges|
    ensures var e := edges[k];
      var hi := if e.0 < e.1 then e.1 + 1 else e.0 + 1;
      var m := VertexCount(edges[..k]);
      VertexCount(edges[..k + 1]) == if m < hi then hi else m
  {
    assert edges[..k + 1][..k] == edges[..k];
  }

  /**
   * The list of `x` after appending every edge in order: an edge (x, y, t)
   * contributes (y, t), an edge (y, x, t) contributes (x, t); a self-loop
   * contributes twice.
   */
  function Incident(edges: seq<TEdge>, x: int): seq<Entry>
  {
    if edges == [] then []
    else
      var e := edges[|edges| - 1];
      Incident(edges[..|edges| - 1], x)
        + (if e.0 == x then [(e.1, e.2)] else [])
        + (if e.1 == x then [(e.0, e.2)] else [])
  }

  lemma IncidentStep(edges: seq<TEdge>, k: int, x: int)
    requires 0 <= k < |edges|
    ensures var e := edges[k];
      Incident(edges[..k + 1], x) == Incident(edges[..k], x)
        + (if e.0 == x then [(e.1, e.2)] else [])
        + (if e.1 == x then [(e.0, e.2)] else [])
  {
    assert edges[..k + 1][..k] == edges[..k];
  }

  /** Appending edge `k` at both of its ends extends every list from `edges[..k]` to `edges[..k + 1]`. */
  lemma AppendEdge(edges: seq<TEdge>, k: int, adj: seq<seq<Entry>>)
    requires 0 <= k < |edges| && 0 <= edges[k].0 < |adj| && 0 <= edges[k].1 < |adj|
    requires forall i :: 0 <= i < |adj| ==> adj[i] == Incident(edges[..k], i)
    ensures var (src, dst, t) := edges[k];
      var a := adj[src := adj[src] + [(dst, t)]];
      var b := a[dst := a[dst] + [(src, t)]];
      forall i :: 0 <= i < |adj| ==> b[i] == Incident(edges[..k + 1], i)
  {
    forall i | 0 <= i < |adj|
      ensures Incident(edges[..k + 1], i) == Incident(edges[..k], i)
        + (if edges[k].0 == i then [(edges[k].1, edges[k].2)] else [])
        + (if edges[k].1 == i then [(edges[k].0, edges[k].2)] else [])
    {
      IncidentStep(edges, k, i);
    }
  }

  /** An entry (y, t) is in the list of `x` exactly when the edge list joins x and y at time t. */
  lemma {:induction false} IncidentMembers(edges: seq<TEdge>, x: int, y: int, t: int)
    ensures (y, t) in Incident(edges, x) <==> (x, y, t) in edges || (y, x, t) in edges
  {
    if edges != [] {
      var p := edges[..|edges| - 1];
      IncidentMembers(p, x, y, t);
      assert edges == p + [edges[|edges| - 1]];
    }
  }

  /** Each edge is stored at both endpoints with the same timestamp. */
  lemma IncidentSymmetric(edges: seq<TEdge>, x: int, y: int, t: int)
    ensures (y, t) in Incident(edges, x) <==> (x, t) in Incident(edges, y)
  {
    IncidentMembers(edges, x, y, t);
    IncidentMembers(edges, y, x, t);
  }

  /** Entry `k` of `x` names a vertex whose list holds `x` with the same timestamp. */
  ghost predicate Back(adj: seq<seq<Entry>>, x: int, k: int)
    requires 0 <= x < |adj| && 0 <= k < |adj[x]|
  {
    0 <= adj[x][k].0 < |adj| && (x, adj[x][k].1) in adj[adj[x][k].0]
  }

  /** Every listed neighbour is a vertex, and lists the entry back with the same timestamp. */
  ghost predicate Symmetric(adj: seq<seq<Entry>>)
  {
    && (forall x, k :: 0 <= x < |adj| && 0 <= k < |adj[x]| ==> 0 <= adj[x][k].0 < |adj|)
    && (forall x, k :: 0 <= x < |adj| && 0 <= k < |adj[x]| ==> Back(adj, x, k))
  }

  lemma IncidentListsSymmetric(edges: seq<TEdge>, adj: seq<seq<Entry>>)
    requires forall e :: e in edges ==> e.0 >= 0 && e.1 >= 0
    requires |adj| == VertexCount(edges)
    requires forall i :: 0 <= i < |adj| ==> adj[i] == Incident(edges, i)
    ensures Symmetric(adj)
  {
    forall x, k | 0 <= x < |adj| && 0 <= k < |adj[x]|
      ensures 0 <= adj[x][k].0 < |adj| && Back(adj, x, k)
    {
      var (y, t) := adj[x][k];
      assert (y, t) in Incident(edges, x);
      IncidentMembers(edges, x, y, t);
      if (x, y, t) in edges {
        assert y >= 0 && y < VertexCount(edges);
      } else {
        assert (y, x, t) in edges;
      }
      IncidentSymmetric(edges, x, y, t);
    }
  }

  /** The first pass over the edges: the count covers the largest endpoint read. */
  method CountVertices(edges: seq<TEdge>) returns (n: int)
    ensures n == VertexCount(edges)
  {
    n := 0;
    var k := 0;
    while k < |edges|
      invariant 0 <= k <= |edges|
      invariant n == VertexCount(edges[..k])
    {
      VertexCountStep(edges, k);
      var (src, dst, _) := edges[k];
      var hi := if src < dst then dst + 1 else src + 1;
      n := if n < hi then hi else n;
      k := k + 1;
    }
    assert edges[..k] == edges;
  }

  /** The second pass: every edge appended, in order, at both of its ends. */
  method FillLists(edges: seq<TEdge>, n: int) returns (adj: seq<seq<Entry>>)
    requires forall e :: e in edges ==> e.0 >= 0 && e.1 >= 0
    requires n >= 0 && forall e :: e in edges ==> e.0 < n && e.1 < n
    ensures |adj| == n && forall i :: 0 <= i < n ==> adj[i] == Incident(edges, i)
  {
    adj := seq(n, _ => []);
    var k := 0;
    while k < |edges|
      invariant 0 <= k <= |edges| && |adj| == n
      invariant forall i :: 0 <= i < n ==> adj[i] == Incident(edges[..k], i)
    {
      var (src, dst, timestamp) := edges[k];
      assert 0 <= src < n && 0 <= dst < n by {
        assert edges[k] in edges;
      }
      AppendEdge(edges, k, adj);
      adj := adj[src := adj[src] + [(dst, timestamp)]];
      adj := adj[dst := adj[dst] + [(src, timestamp)]];
      k := k + 1;
    }
    assert edges[..k] == edges;
  }

  class UndirectedGraph {
    var vertexNum: int
    var adjList: seq<seq<Entry>>

    ghost predicate Valid()
      reads this
    {
      |adjList| == vertexNum && Symmetric(adjList)
    }

    /** Sizes the lists from the largest endpoint, then appends every edge at both ends. */
    constructor (edgeList: seq<TEdge>)
      requires forall e :: e in edgeList ==> e.0 >= 0 && e.1 >= 0
      ensures Valid()
      ensures vertexNum == VertexCount(edgeList)
      ensures forall i :: 0 <= i < vertexNum ==> adjList[i] == Incident(edgeList, i)
    {
      var n := CountVertices(edgeList);
      var adj := FillLists(edgeList, n);
      IncidentListsSymmetric(edgeList, adj);
      vertexNum := n;
      adjList := adj;
    }
  }

  /** `x` has an entry for `y` whose timestamp lies in [t1, t2]. */
  ghost predicate InWindow(adj: seq<seq<Entry>>, t1: int, t2: int, x: int, y: int)
  {
    0 <= x < |adj| && exists k :: 0 <= k < |adj[x]| && adj[x][k].0 == y && t1 <= adj[x][k].1 <= t2
  }

  ghost predicate IsWalk(adj: seq<seq<Entry>>, t1: int, t2: int, p: seq<int>)
  {
    |p| >= 1 && forall i :: 0 <= i < |p| - 1 ==> InWindow(adj, t1, t2, p[i], p[i + 1])
  }

  /** Some walk over in-window edges leads from `a` to `b` (zero steps allowed). */
  ghost predicate Reach(adj: seq<seq<Entry>>, t1: int, t2: int, a: int, b: int)
  {
    exists p :: IsWalk(adj, t1, t2, p) && p[0] == a && p[|p| - 1] == b
  }

  lemma ReachRefl(adj: seq<seq<Entry>>, t1: int, t2: int, a: int)
    ensures Reach(adj, t1, t2, a, a)
  {
    assert IsWalk(adj, t1, t2, [a]);
  }

  lemma ReachStep(adj: seq<seq<Entry>>, t1: int, t2: int, a: int, b: int, c: int)
    requires Reach(adj, t1, t2, a, b) && InWindow(adj, t1, t2, b, c)
    ensures Reach(adj, t1, t2, a, c)
  {
    var p :| IsWalk(adj, t1, t2, p) && p[0] == a && p[|p| - 1] == b;
    var p' := p + [c];
    forall i | 0 <= i < |p'| - 1
      ensures InWindow(adj, t1, t2, p'[i], p'[i + 1])
    {
      if i < |p| - 1 {
        assert p'[i] == p[i] && p'[i + 1] == p[i + 1];
      }
    }
    assert IsWalk(adj, t1, t2, p') && p'[0] == a && p'[|p'| - 1] == c;
  }

  lemma ReachTrans(adj: seq<seq<Entry>>, t1: int, t2: int, a: int, b: int, c: int)
    requires Reach(adj, t1, t2, a, b) && Reach(adj, t1, t2, b, c)
    ensures Reach(adj, t1, t2, a, c)
  {
    var p :| IsWalk(adj, t1, t2, p) && p[0] == a && p[|p| - 1] == b;
    var q :| IsWalk(adj, t1, t2, q) && q[0] == b && q[|q| - 1] == c;
    var r := p + q[1..];
    forall i | 0 <= i < |r| - 1
      ensures InWindow(adj, t1, t2, r[i], r[i + 1])
    {
      if i < |p| - 1 {
        assert r[i] == p[i] && r[i + 1] == p[i + 1];
      } else {
        assert r[i] == q[i - |p| + 1] && r[i + 1] == q[i - |p| + 2];
      }
    }
    assert IsWalk(adj, t1, t2, r) && r[0] == a && r[|r| - 1] == c;
  }

  /** In a symmetric graph an in-window edge can be followed backwards. */
  lemma WindowSym(adj: seq<seq<Entry>>, t1: int, t2: int, x: int, y: int)
    requires Symmetric(adj) && InWindow(adj, t1, t2, x, y)
    ensures InWindow(adj, t1, t2, y, x)
  {
    var k :| 0 <= k < |adj[x]| && adj[x][k].0 == y && t1 <= adj[x][k].1 <= t2;
    var t := adj[x][k].1;
    assert Back(adj, x, k);
    assert (x, t) in adj[y];
    var k' :| 0 <= k' < |adj[y]| && adj[y][k'] == (x, t);
  }

  lemma ReachSym(adj: seq<seq<Entry>>, t1: int, t2: int, a: int, b: int)
    requires Symmetric(adj) && Reach(adj, t1, t2, a, b)
    ensures Reach(adj, t1, t2, b, a)
  {
    var p :| IsWalk(adj, t1, t2, p) && p[0] == a && p[|p| - 1] == b;
    var r := seq(|p|, i requires 0 <= i < |p| => p[|p| - 1 - i]);
    forall i | 0 <= i < |r| - 1
      ensures InWindow(adj, t1, t2, r[i], r[i + 1])
    {
      WindowSym(adj, t1, t2, p[|p| - 2 - i], p[|p| - 1 - i]);
    }
    assert IsWalk(adj, t1, t2, r);
  }

  /** A set that no in-window edge leaves. */
  ghost predicate WindowClosed(adj: seq<seq<Entry>>, t1: int, t2: int, s: set<int>)
  {
    forall x, y :: x in s && InWindow(adj, t1, t2, x, y) ==> y in s
  }

  lemma {:induction false} WalkStaysIn(adj: seq<seq<Entry>>, t1: int, t2: int, s: set<int>, p: seq<int>, i: nat)
    requires IsWalk(adj, t1, t2, p) && p[0] in s && WindowClosed(adj, t1, t2, s) && i < |p|
    ensures p[i] in s
  {
    if i > 0 {
      WalkStaysIn(adj, t1, t2, s, p, i - 1);
      assert InWindow(adj, t1, t2, p[i - 1], p[i]);
    }
  }

  /** Everything reachable from a member of a closed set is in the set. */
  lemma ClosedHoldsReach(adj: seq<seq<Entry>>, t1: int, t2: int, s: set<int>, a: int, b: int)
    requires a in s && WindowClosed(adj, t1, t2, s) && Reach(adj, t1, t2, a, b)
    ensures b in s
  {
    var p :| IsWalk(adj, t1, t2, p) && p[0] == a && p[|p| - 1] == b;
    WalkStaysIn(adj, t1, t2, s, p, |p| - 1);
  }
}
