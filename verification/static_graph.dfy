/**
 * The static undirected graph the structural-diversity index is built over
 * (`UndirectedGraph` of the truss project): one neighbour list per vertex,
 * filled from an edge list.
 */
module StaticGraph {

  /** `vertex_num`: one more than the largest endpoint, or 0 for no edges. */
  function VertexCount(edges: seq<(int, int)>): (n: int)
    ensures n >= 0
    ensures forall e :: e in edges ==> e.0 < n && e.1 < n
    ensures n == 0 || exists e :: e in edges && (n == e.0 + 1 || n == e.1 + 1)
  {
    if edges == [] then 0
    else
      var e := edges[|edges| - 1];
      var m := VertexCount(edges[..|edges| - 1]);
      var hi := if e.0 < e.1 then e.1 + 1 else e.0 + 1;
      if m < hi then hi else m
  }

  /** Reading edge `k` raises the count to cover its larger endpoint. */
  lemma VertexCountStep(edges: seq<(int, int)>, k: int)
    requires 0 <= k < |edges|
    ensures var e := edges[k];
      var hi := if e.0 < e.1 then e.1 + 1 else e.0 + 1;
      var m := VertexCount(edges[..k]);
      VertexCount(edges[..k + 1]) == if m < hi then hi else m
  {
    assert edges[..k + 1][..k] == edges[..k];
  }

  /** The neighbour list of `x` after appending every edge in order; self-loops are dropped. */
  function Incident(edges: seq<(int, int)>, x: int): seq<int>
  {
    if edges == [] then []
    else
      var e := edges[|edges| - 1];
      Incident(edges[..|edges| - 1], x)
        + (if e.0 == e.1 then [] else if e.0 == x then [e.1] else if e.1 == x then [e.0] else [])
  }

  /** Appending the edge at position `k` extends each neighbour list by at most one entry. */
  lemma IncidentStep(edges: seq<(int, int)>, k: int, x: int)
    requires 0 <= k < |edges|
    ensures var e := edges[k];
      Incident(edges[..k + 1], x) == Incident(edges[..k], x)
        + (if e.0 == e.1 then [] else if e.0 == x then [e.1] else if e.1 == x then [e.0] else [])
  {
    assert edges[..k + 1][..k] == edges[..k];
  }

  /** Appending a non-loop edge `k` at both ends extends every list from `edges[..k]` to `edges[..k + 1]`. */
  lemma AppendEdge(edges: seq<(int, int)>, k: int, adj: seq<seq<int>>)
    requires 0 <= k < |edges| && 0 <= edges[k].0 < |adj| && 0 <= edges[k].1 < |adj|
    requires forall i :: 0 <= i < |adj| ==> adj[i] == Incident(edges[..k], i)
    ensures var (u, v) := edges[k];
      var a := adj[u := adj[u] + [v]];
      var b := if u == v then adj else a[v := a[v] + [u]];
      forall i :: 0 <= i < |adj| ==> b[i] == Incident(edges[..k + 1], i)
  {
    forall i | 0 <= i < |adj|
      ensures var e := edges[k];
        Incident(edges[..k + 1], i) == Incident(edges[..k], i)
          + (if e.0 == e.1 then [] else if e.0 == i then [e.1] else if e.1 == i then [e.0] else [])
    {
      IncidentStep(edges, k, i);
    }
  }

  /** `x` and `y` are the two distinct endpoints of some edge of the list. */
  predicate Linked(edges: seq<(int, int)>, x: int, y: int)
  {
    x != y && ((x, y) in edges || (y, x) in edges)
  }

  /** A neighbour list holds exactly the other endpoints of `x`'s non-loop edges. */
  lemma {:induction false} IncidentMembers(edges: seq<(int, int)>, x: int, y: int)
    ensures y in Incident(edges, x) <==> Linked(edges, x, y)
  {
    if edges != [] {
      var p := edges[..|edges| - 1];
      IncidentMembers(p, x, y);
      assert edges == p + [edges[|edges| - 1]];
    }
  }

  /** Hence adjacency is symmetric and loop-free. */
  lemma IncidentSymmetric(edges: seq<(int, int)>, x: int, y: int)
    ensures y in Incident(edges, x) <==> x in Incident(edges, y)
    ensures x !in Incident(edges, x)
  {
    IncidentMembers(edges, x, y);
    IncidentMembers(edges, y, x);
    IncidentMembers(edges, x, x);
  }

  /** Lists built from an edge list are in range, symmetric and loop-free. */
  lemma IncidentListsValid(edges: seq<(int, int)>, adj: seq<seq<int>>)
    requires forall e :: e in edges ==> e.0 >= 0 && e.1 >= 0
    requires |adj| == VertexCount(edges)
    requires forall i :: 0 <= i < |adj| ==> adj[i] == Incident(edges, i)
    ensures forall i, j :: 0 <= i < |adj| && j in adj[i] ==> 0 <= j < |adj|
    ensures forall i, j :: 0 <= i < |adj| && j in adj[i] ==> i in adj[j]
    ensures forall i :: 0 <= i < |adj| ==> i !in adj[i]
  {
    forall i, j | 0 <= i < |adj| && j in adj[i]
      ensures 0 <= j < |adj|
    {
      IncidentMembers(edges, i, j);
      if (i, j) in edges {
        assert j < VertexCount(edges);
      } else {
        assert (j, i) in edges;
      }
    }
    forall i, j | 0 <= i < |adj| && j in adj[i]
      ensures i in adj[j]
    {
      IncidentSymmetric(edges, i, j);
    }
    forall i | 0 <= i < |adj|
      ensures i !in adj[i]
    {
      IncidentSymmetric(edges, i, i);
    }
  }

  /** The first pass over the edges: the count covers the largest endpoint read. */
  method CountVertices(edges: seq<(int, int)>) returns (n: int)
    ensures n == VertexCount(edges)
  {
    n := 0;
    var k := 0;
    while k < |edges|
      invariant 0 <= k <= |edges|
      invariant n == VertexCount(edges[..k])
    {
      VertexCountStep(edges, k);
      var e := edges[k];
      n := if n < (if e.0 < e.1 then e.1 + 1 else e.0 + 1) then (if e.0 < e.1 then e.1 + 1 else e.0 + 1) else n;
      k := k + 1;
    }
    assert edges[..k] == edges;
  }

  /** The second pass: every edge appended, in order, at both of its ends. */
  method FillLists(edges: seq<(int, int)>, n: int) returns (adj: seq<seq<int>>)
    requires forall e :: e in edges ==> e.0 >= 0 && e.1 >= 0
    requires n >= 0 && forall e :: e in edges ==> e.0 < n && e.1 < n
    ensures |adj| == n && forall i :: 0 <= i < n ==> adj[i] == Incident(edges, i)
  {
    adj := seq(n, _ => []);
    var k := 0;
    while k < |edges|
      invariant 0 <= k <= |edges| && |adj| == n
      invariant forall i :: 0 <= i < n ==> adj[i] == Incident(edges[..k], i)
    {
      var (u, v) := edges[k];
      assert 0 <= u < n && 0 <= v < n by {
        assert edges[k] in edges;
      }
      AppendEdge(edges, k, adj);
      if u != v {
        adj := adj[u := adj[u] + [v]];
        adj := adj[v := adj[v] + [u]];
      }
      k := k + 1;
    }
    assert edges[..k] == edges;
  }

  class UndirectedGraph {
    var vertexNum: int
    var adjList: seq<seq<int>>

    /** Every list entry names a vertex; the graph is undirected and loop-free. */
    ghost predicate Valid()
      reads this
    {
      && |adjList| == vertexNum
      && (forall i, j :: 0 <= i < |adjList| && j in adjList[i] ==> 0 <= j < |adjList|)
      && (forall i, j :: 0 <= i < |adjList| && j in adjList[i] ==> i in adjList[j])
      && (forall i :: 0 <= i < |adjList| ==> i !in adjList[i])
    }

    constructor (edgeList: seq<(int, int)>)
      requires forall e :: e in edgeList ==> e.0 >= 0 && e.1 >= 0
      ensures Valid()
      ensures vertexNum == VertexCount(edgeList)
      ensures forall i :: 0 <= i < vertexNum ==> adjList[i] == Incident(edgeList, i)
    {
      var n := CountVertices(edgeList);
      var adj := FillLists(edgeList, n);
      IncidentListsValid(edgeList, adj);
      vertexNum := n;
      adjList := adj;
    }
  }
}
