/**
 * `online_bidirectional_bfs` and the query loop `HistoricalConnectivity`:
 * two breadth-first searches over the in-window edges, one grown from each
 * query endpoint a level at a time, that stop as soon as one of them
 * discovers a vertex the other has already marked.
 */
module OnlineBfs {
  import opened Temporal
  import Intersection


  /**
   * What one search has marked, in marking order: no vertex twice, the
   * source first, and only vertices the source reaches in the window.
   */
  ghost predicate Marked(adj: seq<seq<Entry>>, t1: int, t2: int, src: int, marked: seq<int>)
  {
    && Intersection.NoDup(marked)
    && marked != [] && marked[0] == src
    && (forall x :: x in marked ==> 0 <= x < |adj| && Reach(adj, t1, t2, src, x))
  }

  /**
   * The state of one search: `vis` is its visited vector, `q` its queue,
   * `done` the vertices whose lists it has scanned completely, `open` the
   * one it is scanning (if any). Every marked vertex is in exactly one of
   * `done`, `q` and `open`, and every in-window neighbour of a done vertex
   * is marked.
   */
  ghost predicate Explored(adj: seq<seq<Entry>>, t1: int, t2: int, src: int,
                           vis: seq<bool>, marked: seq<int>, q: seq<int>, done: set<int>, open: set<int>)
  {
    && |vis| == |adj|
    && Marked(adj, t1, t2, src, marked)
    && Intersection.NoDup(q)
    && (forall x :: 0 <= x < |vis| ==> (vis[x] <==> x in marked))
    && (forall x :: x in marked ==> x in done || x in q || x in open)
    && (forall x :: x in q ==> x in marked && x !in done && x !in open)
    && (forall x :: x in done ==> x in marked && x !in open)
    && (forall x :: x in open ==> x in marked)
    && (forall x, y :: x in done && InWindow(adj, t1, t2, x, y) ==> y in marked)
  }

  /** The two searches never mark the same vertex. */
  ghost predicate Apart(mine: seq<bool>, other: seq<bool>)
  {
    |mine| == |other| && forall x :: 0 <= x < |mine| ==> !(mine[x] && other[x])
  }

  /** Taking the head of the queue makes it the vertex being scanned. */
  lemma PopFront(adj: seq<seq<Entry>>, t1: int, t2: int, src: int,
                 vis: seq<bool>, marked: seq<int>, q: seq<int>, done: set<int>)
    requires Explored(adj, t1, t2, src, vis, marked, q, done, {}) && q != []
    ensures Explored(adj, t1, t2, src, vis, marked, q[1..], done, {q[0]})
    ensures q[0] !in done
  {
    assert q[0] in q;
    forall x | x in q[1..]
      ensures x != q[0]
    {
      var i :| 0 <= i < |q[1..]| && q[1..][i] == x;
      assert q[i + 1] == x;
    }
  }

  /** With nothing queued or being scanned, the marked vertices are all the source reaches. */
  lemma ExploredClosed(adj: seq<seq<Entry>>, t1: int, t2: int, src: int,
                       vis: seq<bool>, marked: seq<int>, done: set<int>)
    requires Explored(adj, t1, t2, src, vis, marked, [], done, {})
    ensures forall y :: Reach(adj, t1, t2, src, y) ==> y in marked
  {
    var s := set x | x in marked;
    assert WindowClosed(adj, t1, t2, s);
    forall y | Reach(adj, t1, t2, src, y)
      ensures y in marked
    {
      ClosedHoldsReach(adj, t1, t2, s, src, y);
    }
  }

  /** A search starts with its source marked and queued. */
  lemma Started(adj: seq<seq<Entry>>, t1: int, t2: int, src: int, vis: seq<bool>)
    requires 0 <= src < |adj| == |vis|
    requires forall x :: 0 <= x < |vis| ==> (vis[x] <==> x == src)
    ensures Explored(adj, t1, t2, src, vis, [src], [src], {}, {})
  {
    ReachRefl(adj, t1, t2, src);
  }

  /** A vertex both sources reach joins them. */
  lemma Met(adj: seq<seq<Entry>>, t1: int, t2: int, u: int, v: int, meet: int)
    requires Symmetric(adj)
    requires Reach(adj, t1, t2, u, meet) && Reach(adj, t1, t2, v, meet)
    ensures Reach(adj, t1, t2, u, v)
  {
    ReachSym(adj, t1, t2, v, meet);
    ReachTrans(adj, t1, t2, u, meet, v);
  }

  /**
   * Once either queue runs dry the searches have not met, so that side has
   * marked everything its source reaches and none of it is the other source.
   */
  lemma Exhausted(adj: seq<seq<Entry>>, t1: int, t2: int, u: int, v: int,
                  visU: seq<bool>, visV: seq<bool>, markedU: seq<int>, markedV: seq<int>,
                  qU: seq<int>, qV: seq<int>, doneU: set<int>, doneV: set<int>)
    requires Symmetric(adj)
    requires Explored(adj, t1, t2, u, visU, markedU, qU, doneU, {})
    requires Explored(adj, t1, t2, v, visV, markedV, qV, doneV, {})
    requires Apart(visU, visV)
    requires qU == [] || qV == []
    ensures !Reach(adj, t1, t2, u, v)
  {
    if qU == [] {
      ExploredClosed(adj, t1, t2, u, visU, markedU, doneU);
      assert markedV[0] in markedV;
      assert visV[v] && !visU[v];
    } else {
      ExploredClosed(adj, t1, t2, v, visV, markedV, doneV);
      assert markedU[0] in markedU;
      assert visU[u] && !visV[u];
      if Reach(adj, t1, t2, u, v) {
        ReachSym(adj, t1, t2, u, v);
      }
    }
  }

  /** Marking an unmarked in-window neighbour of the vertex being scanned and queueing it. */
  lemma Marking(adj: seq<seq<Entry>>, t1: int, t2: int, src: int, vis: seq<bool>, other: seq<bool>,
                marked: seq<int>, q: seq<int>, done: set<int>, curr: int, y: int)
    requires Explored(adj, t1, t2, src, vis, marked, q, done, {curr}) && Apart(vis, other)
    requires InWindow(adj, t1, t2, curr, y) && 0 <= y < |vis| && !vis[y] && !other[y]
    ensures Explored(adj, t1, t2, src, vis[y := true], marked + [y], q + [y], done, {curr})
    ensures Apart(vis[y := true], other)
  {
    ReachStep(adj, t1, t2, src, curr, y);
  }

  /**
   * The scan of one dequeued vertex's list: entries outside the window or
   * already marked by this side are skipped; an entry the other side has
   * marked ends the search; any other neighbour is marked and enqueued.
   */
  method Visit(adj: seq<seq<Entry>>, t1: int, t2: int, mine: array<bool>, other: array<bool>,
               curr: int, q: seq<int>, ghost src: int, ghost marked: seq<int>, ghost done: set<int>)
    returns (met: bool, q': seq<int>, ghost marked': seq<int>, ghost meet: int)
    requires mine != other && mine.Length == |adj| && Symmetric(adj)
    requires Explored(adj, t1, t2, src, mine[..], marked, q, done, {curr})
    requires Apart(mine[..], other[..])
    modifies mine
    ensures Marked(adj, t1, t2, src, marked') && Apart(mine[..], other[..])
    ensures met ==> 0 <= meet < |adj| && other[meet] && Reach(adj, t1, t2, src, meet)
    ensures !met ==> Explored(adj, t1, t2, src, mine[..], marked', q', done + {curr}, {})
    ensures |q'| >= |q|
  {
    q', marked', met, meet := q, marked, false, src;
    var k := 0;
    while k < |adj[curr]|
      invariant 0 <= k <= |adj[curr]| && |q'| >= |q|
      invariant Explored(adj, t1, t2, src, mine[..], marked', q', done, {curr})
      invariant Apart(mine[..], other[..])
      invariant forall j :: 0 <= j < k && t1 <= adj[curr][j].1 <= t2 ==> adj[curr][j].0 in marked'
    {
      var (neighbor, timestamp) := adj[curr][k];
      if timestamp < t1 || timestamp > t2 {
      } else if mine[neighbor] {
      } else if other[neighbor] {
        assert InWindow(adj, t1, t2, curr, neighbor);
        ReachStep(adj, t1, t2, src, curr, neighbor);
        met, meet := true, neighbor;
        return;
      } else {
        assert InWindow(adj, t1, t2, curr, neighbor);
        Marking(adj, t1, t2, src, mine[..], other[..], marked', q', done, curr, neighbor);
        mine[neighbor] := true;
        q' := q' + [neighbor];
        marked' := marked' + [neighbor];
      }
      k := k + 1;
    }
    forall y | InWindow(adj, t1, t2, curr, y)
      ensures y in marked'
    {
      var j :| 0 <= j < |adj[curr]| && adj[curr][j].0 == y && t1 <= adj[curr][j].1 <= t2;
    }
  }

  /**
   * One level of one search: the vertices queued when the level starts are
   * dequeued and scanned, those enqueued meanwhile wait for the next level.
   */
  method Round(adj: seq<seq<Entry>>, t1: int, t2: int, mine: array<bool>, other: array<bool>,
               q: seq<int>, ghost src: int, ghost marked: seq<int>, ghost done: set<int>)
    returns (met: bool, q': seq<int>, ghost marked': seq<int>, ghost done': set<int>, ghost meet: int)
    requires mine != other && mine.Length == |adj| && Symmetric(adj) && q != []
    requires Explored(adj, t1, t2, src, mine[..], marked, q, done, {})
    requires Apart(mine[..], other[..])
    modifies mine
    ensures Marked(adj, t1, t2, src, marked') && Apart(mine[..], other[..])
    ensures met ==> 0 <= meet < |adj| && other[meet] && Reach(adj, t1, t2, src, meet)
    ensures !met ==> Explored(adj, t1, t2, src, mine[..], marked', q', done', {}) && done < done'
  {
    q', marked', done', met, meet := q, marked, done, false, src;
    var size := |q|;
    while size > 0
      invariant 0 <= size <= |q'|
      invariant Explored(adj, t1, t2, src, mine[..], marked', q', done', {})
      invariant Apart(mine[..], other[..])
      invariant done <= done' && (size < |q| ==> done < done')
    {
      var curr := q'[0];
      PopFront(adj, t1, t2, src, mine[..], marked', q', done');
      q' := q'[1..];
      met, q', marked', meet := Visit(adj, t1, t2, mine, other, curr, q', src, marked', done');
      if met {
        return;
      }
      done' := done' + {curr};
      size := size - 1;
    }
  }

  /** The vertex ids 0 .. n-1, the bound on what a search can scan. */
  ghost function Vertices(n: int): (r: set<int>)
    ensures forall x :: x in r <==> 0 <= x < n
  {
    if n <= 0 then {} else Vertices(n - 1) + {n - 1}
  }

  /** Both searches, each in its own visited vector, neither having marked what the other has. */
  ghost predicate Searching(adj: seq<seq<Entry>>, t1: int, t2: int, u: int, v: int,
                            visU: seq<bool>, visV: seq<bool>, markedU: seq<int>, markedV: seq<int>,
                            qU: seq<int>, qV: seq<int>, doneU: set<int>, doneV: set<int>)
  {
    && Explored(adj, t1, t2, u, visU, markedU, qU, doneU, {})
    && Explored(adj, t1, t2, v, visV, markedV, qV, doneV, {})
    && Apart(visU, visV)
  }

  /** One pass of the outer loop: a level of the search from `u`, then one from `v`. */
  method Advance(adj: seq<seq<Entry>>, t1: int, t2: int, visU: array<bool>, visV: array<bool>,
                 qU: seq<int>, qV: seq<int>, ghost u: int, ghost v: int,
                 ghost markedU: seq<int>, ghost markedV: seq<int>, ghost doneU: set<int>, ghost doneV: set<int>)
    returns (met: bool, qU': seq<int>, qV': seq<int>, ghost markedU': seq<int>, ghost markedV': seq<int>,
             ghost doneU': set<int>, ghost doneV': set<int>)
    requires visU != visV && visU.Length == |adj| && Symmetric(adj) && qU != [] && qV != []
    requires Searching(adj, t1, t2, u, v, visU[..], visV[..], markedU, markedV, qU, qV, doneU, doneV)
    modifies visU, visV
    ensures Marked(adj, t1, t2, u, markedU') && Marked(adj, t1, t2, v, markedV')
    ensures met ==> Reach(adj, t1, t2, u, v)
    ensures !met ==> Searching(adj, t1, t2, u, v, visU[..], visV[..], markedU', markedV', qU', qV', doneU', doneV')
    ensures !met ==> doneU < doneU' <= Vertices(|adj|)
  {
    ghost var meet;
    qV', markedV', doneV' := qV, markedV, doneV;
    met, qU', markedU', doneU', meet := Round(adj, t1, t2, visU, visV, qU, u, markedU, doneU);
    if met {
      assert meet in markedV;
      Met(adj, t1, t2, u, v, meet);
      return;
    }
    met, qV', markedV', doneV', meet := Round(adj, t1, t2, visV, visU, qV, v, markedV, doneV);
    if met {
      assert meet in markedU';
      Met(adj, t1, t2, u, v, meet);
    }
  }

  /** The set-up before the search loop: each source marked in its own fresh visited vector and queued. */
  method Start(adj: seq<seq<Entry>>, t1: int, t2: int, u: int, v: int)
    returns (visU: array<bool>, visV: array<bool>)
    requires 0 <= u < |adj| && 0 <= v < |adj| && u != v
    ensures fresh(visU) && fresh(visV) && visU != visV && visU.Length == visV.Length == |adj|
    ensures Searching(adj, t1, t2, u, v, visU[..], visV[..], [u], [v], [u], [v], {}, {})
  {
    visU := new bool[|adj|](_ => false);
    visV := new bool[|adj|](_ => false);
    visU[u] := true;
    visV[v] := true;
    Started(adj, t1, t2, u, visU[..]);
    Started(adj, t1, t2, v, visV[..]);
  }

  /**
   * `online_bidirectional_bfs`: true exactly when `v` can be reached from
   * `u` over edges stamped within [t1, t2]. Each side marks a vertex at
   * most once and only marks vertices its source reaches in the window.
   */
  method OnlineBidirectionalBfs(g: UndirectedGraph, u: int, v: int, t1: int, t2: int)
    returns (found: bool, ghost markedU: seq<int>, ghost markedV: seq<int>)
    requires g.Valid()
    requires u == v || (0 <= u < g.vertexNum && 0 <= v < g.vertexNum)
    ensures found <==> Reach(g.adjList, t1, t2, u, v)
    ensures u == v ==> found
    ensures u != v ==> Marked(g.adjList, t1, t2, u, markedU) && Marked(g.adjList, t1, t2, v, markedV)
  {
    if u == v {
      ReachRefl(g.adjList, t1, t2, u);
      return true, [], [];
    }
    var adj := g.adjList;
    var visitedU, visitedV := Start(adj, t1, t2, u, v);
    var qU, qV := [u], [v];
    markedU, markedV := [u], [v];
    ghost var doneU: set<int>, doneV: set<int> := {}, {};
    while qU != [] && qV != []
      invariant visitedU.Length == |adj|
      invariant Searching(adj, t1, t2, u, v, visitedU[..], visitedV[..], markedU, markedV, qU, qV, doneU, doneV)
      invariant doneU <= Vertices(|adj|)
      decreases Vertices(|adj|) - doneU
    {
      var met;
      met, qU, qV, markedU, markedV, doneU, doneV :=
        Advance(adj, t1, t2, visitedU, visitedV, qU, qV, u, v, markedU, markedV, doneU, doneV);
      if met {
        return true, markedU, markedV;
      }
    }
    Exhausted(adj, t1, t2, u, v, visitedU[..], visitedV[..], markedU, markedV, qU, qV, doneU, doneV);
    found := false;
  }

  /** The answer recorded for query (u, v, ts, te): 1 when u reaches v within [ts, te], else 0. */
  ghost function Answer(adj: seq<seq<Entry>>, query: (int, int, int, int)): int
  {
    if Reach(adj, query.2, query.3, query.0, query.1) then 1 else 0
  }

  /** The body of the query loop: run the search for one query and record 1 or 0. */
  method Query(g: UndirectedGraph, query: (int, int, int, int)) returns (res: int)
    requires g.Valid()
    requires query.0 == query.1 || (0 <= query.0 < g.vertexNum && 0 <= query.1 < g.vertexNum)
    ensures res == Answer(g.adjList, query)
  {
    var reached, _, _ := OnlineBidirectionalBfs(g, query.0, query.1, query.2, query.3);
    res := if reached then 1 else 0;
  }

  /** `HistoricalConnectivity`: one 0/1 answer per (u, v, ts, te) query, in query order. */
  method HistoricalConnectivity(g: UndirectedGraph, queries: seq<(int, int, int, int)>)
    returns (result: seq<int>)
    requires g.Valid()
    requires forall i :: 0 <= i < |queries| ==>
      queries[i].0 == queries[i].1 || (0 <= queries[i].0 < g.vertexNum && 0 <= queries[i].1 < g.vertexNum)
    ensures |result| == |queries|
    ensures forall i :: 0 <= i < |queries| ==> result[i] == Answer(g.adjList, queries[i])
  {
    result := [];
    var i := 0;
    while i < |queries|
      invariant 0 <= i <= |queries| && |result| == i
      invariant forall j :: 0 <= j < i ==> result[j] == Answer(g.adjList, queries[j])
    {
      var res := Query(g, queries[i]);
      result := result + [res];
      i := i + 1;
    }
  }
}
