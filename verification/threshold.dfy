/**
 * The supergraph seen at a trussness threshold `k`: the superedges of
 * trussness at least `k` over the supernodes of trussness at least `k`.
 * The supergraph loop (lines 283-337) keeps this a forest at every
 * threshold, ties every supernode and superedge back to the ego network,
 * and accounts for every edge it pops. Together these make the index's
 * score at `k` the number of connected components of the ego network
 * cut down to the edges of trussness at least `k`, which is what the naive
 * recount (lines 380-401) computes.
 */
module Threshold {
  import opened MapGraph
  import opened EgoNetwork
  import opened Truss
  import opened SuperGraph
  import opened Diversity

  /** The superedges of trussness at least `k`; every supernode keeps its row. */
  function Above(g: Adj<int>, k: int): (r: Adj<int>)
    ensures forall a, b :: Edge(r, a, b) <==> Edge(g, a, b) && g[a][b] >= k
    ensures forall a, b :: Edge(r, a, b) ==> Edge(g, a, b) && r[a][b] == g[a][b]
  {
    map a | a in g :: map b | b in g[a] && g[a][b] >= k :: g[a][b]
  }

  /** The supernodes of trussness at least `k`. */
  ghost function High(nodes: map<int, SuperNode>, k: int): set<int>
  {
    set s | s in nodes && nodes[s].truss >= k
  }

  // ---------------------------------------------------------------------
  // What the loop keeps.

  /** At every threshold the superedges form a forest over the supernodes. */
  ghost predicate Layered(sadj: Adj<int>, nodes: map<int, SuperNode>)
  {
    forall k :: Forest(Above(sadj, k), High(nodes, k))
  }

  /** Every member of a supernode is connected to its namesake by edges of
    * at least the supernode's trussness. */
  ghost predicate Anchored(e: Ego, nodes: map<int, SuperNode>)
  {
    forall s, x :: s in nodes && x in nodes[s].members ==> Reach(Filtered(e, nodes[s].truss), s, x)
  }

  /** The namesakes of the two ends of a superedge of trussness `t` are
    * connected by edges of trussness at least `t`. */
  ghost predicate Traced(e: Ego, sadj: Adj<int>)
  {
    forall a, b :: Edge(sadj, a, b) ==> Reach(Filtered(e, sadj[a][b]), a, b)
  }

  /** No superedge is lighter than an entry still queued: the queue pops by
    * non-increasing trussness. */
  ghost predicate Descending(sadj: Adj<int>, heap: seq<Entry>)
  {
    forall a, b, y :: Edge(sadj, a, b) && y in heap ==> y.s <= sadj[a][b]
  }

  /** A popped edge (u, v) of trussness s is accounted for: u and v share a
    * supernode, or superedges of trussness at least s connect theirs. */
  ghost predicate Joined(ids: map<int, int>, sadj: Adj<int>, x: Entry)
  {
    x.u in ids && x.v in ids && (ids[x.u] == ids[x.v] || Reach(Above(sadj, x.s), ids[x.u], ids[x.v]))
  }

  /** The facts the supergraph loop adds to `SuperOk`, with `heap` still to pop and `done` popped. */
  ghost predicate Tracked(e: Ego, ids: map<int, int>, nodes: map<int, SuperNode>, sadj: Adj<int>, heap: seq<Entry>, done: seq<Entry>)
  {
    && Layered(sadj, nodes) && Anchored(e, nodes) && Traced(e, sadj) && Descending(sadj, heap)
    && forall x :: x in done ==> Joined(ids, sadj, x)
  }

  /**
   * What the supergraph of ego network `e` built from queue `tq` satisfies:
   * a consistent grouping, undirected superedges no heavier than their
   * ends, a forest at every threshold, supernodes and superedges backed by
   * the ego network, and every queued edge accounted for.
   */
  ghost predicate Condenses(e: Ego, tq: seq<Entry>, ids: map<int, int>, nodes: map<int, SuperNode>, sadj: Adj<int>)
  {
    && Grouping(e, ids, nodes) && Undirected(sadj) && EdgesBelow(sadj, nodes)
    && Layered(sadj, nodes) && Anchored(e, nodes) && Traced(e, sadj)
    && forall x :: x in tq ==> TrussEntry(e, x) && Joined(ids, sadj, x)
  }

  // ---------------------------------------------------------------------
  // Thresholds.

  /** The filter at a lower threshold keeps every connection of a higher one. */
  lemma FilteredMono(e: Ego, j: int, k: int, a: int, b: int)
    requires j <= k && Reach(Filtered(e, k), a, b)
    ensures Reach(Filtered(e, j), a, b)
  {
    forall x, y | Edge(Filtered(e, k), x, y)
      ensures Edge(Filtered(e, j), x, y)
    {
      FilteredEdge(e, k, x, y);
      FilteredEdge(e, j, x, y);
    }
    ReachMono(Filtered(e, k), Filtered(e, j), a, b);
  }

  /** A forest stays a forest, with the same labels, in a graph with the same edges. */
  lemma ForestSameEdges(g: Adj<int>, h: Adj<int>, nodes: set<int>, lab: map<int, int>)
    requires ForestBy(g, nodes, lab) && SameEdges(g, h)
    ensures ForestBy(h, nodes, lab)
  {
    forall a, b | a in nodes && b in nodes && lab[a] == lab[b]
      ensures Reach(h, a, b)
    {
      ReachMono(g, h, a, b);
    }
    forall p
      ensures p in UEdges(g) <==> p in UEdges(h)
    {
      assert p in UEdges(g) <==> Edge(g, p.0, p.1) && p.0 < p.1;
      assert p in UEdges(h) <==> Edge(h, p.0, p.1) && p.0 < p.1;
    }
    assert UEdges(g) == UEdges(h);
  }

  lemma AboveUndirected(g: Adj<int>, k: int)
    requires Undirected(g)
    ensures Undirected(Above(g, k))
  {
  }

  /** The superedges of the threshold graph are those of trussness at least `k`. */
  lemma AboveUEdges(g: Adj<int>, k: int)
    ensures UEdges(Above(g, k)) == set p | p in UEdges(g) && g[p.0][p.1] >= k
  {
    var r := Above(g, k);
    forall p | p in UEdges(r)
      ensures p in UEdges(g) && g[p.0][p.1] >= k
    {
      assert Edge(r, p.0, p.1);
    }
    forall p | p in UEdges(g) && g[p.0][p.1] >= k
      ensures p in UEdges(r)
    {
      assert Edge(r, p.0, p.1);
    }
  }

  /** A superedge of trussness `t` between unconnected supernodes keeps every threshold a forest. */
  lemma LevelAdd(sadj: Adj<int>, nodes: map<int, SuperNode>, su: int, sv: int, t: int, k: int)
    requires Undirected(sadj) && su in nodes && sv in nodes && su != sv && !Reach(sadj, su, sv)
    requires t <= nodes[su].truss && t <= nodes[sv].truss
    requires Forest(Above(sadj, k), High(nodes, k))
    ensures Forest(Above(AddEdge(sadj, su, sv, t), k), High(nodes, k))
  {
    var g := Above(sadj, k);
    var r := Above(AddEdge(sadj, su, sv, t), k);
    var h := High(nodes, k);
    NotAdjacent(sadj, su, sv);
    AddAbove(sadj, su, sv, t, k);
    if k <= t {
      assert su in h && sv in h;
      if Reach(g, su, sv) {
        ReachMono(g, sadj, su, sv);
      }
      AboveUndirected(sadj, k);
      ForestJoin(g, r, h, su, sv, t);
    } else {
      ForestSame(g, r, h);
    }
  }

  /** A superedge between unconnected nodes of a forest leaves a forest. */
  lemma ForestJoin(g: Adj<int>, r: Adj<int>, h: set<int>, su: int, sv: int, t: int)
    requires Forest(g, h) && Symmetric(g) && su in h && sv in h && su != sv && !Reach(g, su, sv)
    requires SameEdges(AddEdge(g, su, sv, t), r)
    ensures Forest(r, h)
  {
    var lab :| ForestBy(g, h, lab);
    ForestJoinBy(g, r, h, lab, su, sv, t);
  }

  lemma ForestJoinBy(g: Adj<int>, r: Adj<int>, h: set<int>, lab: map<int, int>, su: int, sv: int, t: int)
    requires ForestBy(g, h, lab) && Symmetric(g) && su in h && sv in h && su != sv && !Reach(g, su, sv)
    requires SameEdges(AddEdge(g, su, sv, t), r)
    ensures Forest(r, h)
  {
    ForestAdd(g, h, lab, su, sv, t);
    ForestSameEdges(AddEdge(g, su, sv, t), r, h, Relabel(lab, h, lab[sv], lab[su]));
    assert ForestBy(r, h, Relabel(lab, h, lab[sv], lab[su]));
  }

  /** A graph with the same edges as a forest is one. */
  lemma ForestSame(g: Adj<int>, r: Adj<int>, h: set<int>)
    requires Forest(g, h) && SameEdges(g, r)
    ensures Forest(r, h)
  {
    var lab :| ForestBy(g, h, lab);
    ForestSameEdges(g, r, h, lab);
    assert ForestBy(r, h, lab);
  }

  /** Adding a superedge of trussness `t` adds it to the threshold graphs up to `t` and to no other. */
  lemma AddAbove(sadj: Adj<int>, su: int, sv: int, t: int, k: int)
    requires su != sv && !Edge(sadj, su, sv) && !Edge(sadj, sv, su)
    ensures k <= t ==> SameEdges(AddEdge(Above(sadj, k), su, sv, t), Above(AddEdge(sadj, su, sv, t), k))
    ensures k > t ==> SameEdges(Above(sadj, k), Above(AddEdge(sadj, su, sv, t), k))
  {
  }

  /** Merging unconnected supernodes of equal trussness keeps every threshold a forest. */
  lemma LevelMerge(sadj: Adj<int>, nodes: map<int, SuperNode>, su: int, sv: int, nodes': map<int, SuperNode>, k: int)
    requires Undirected(sadj) && EdgesBelow(sadj, nodes)
    requires su in nodes && sv in nodes && su != sv && !Reach(sadj, su, sv)
    requires nodes[su].truss == nodes[sv].truss
    requires nodes' == (nodes - {sv})[su := SuperNode(nodes[su].members + nodes[sv].members, nodes[su].truss)]
    requires Forest(Above(sadj, k), High(nodes, k))
    ensures Forest(Above(MergeAdj(sadj, su, sv), k), High(nodes', k))
  {
    var g := Above(sadj, k);
    var r := Above(MergeAdj(sadj, su, sv), k);
    var h := High(nodes, k);
    NotAdjacent(sadj, su, sv);
    if k <= nodes[su].truss {
      assert su in h && sv in h;
      if Reach(g, su, sv) {
        ReachMono(g, sadj, su, sv);
      }
      AboveUndirected(sadj, k);
      NotAdjacent(g, su, sv);
      MergeAboveLow(sadj, su, sv, k);
      ForestMergeJoin(g, r, h, su, sv);
    } else {
      MergeAboveHigh(sadj, nodes, su, sv, k);
      ForestSame(g, r, h);
    }
    HighMerge(nodes, su, sv, nodes', k);
  }

  /** The merged supernode stands in for su and sv exactly at the thresholds they passed. */
  lemma HighMerge(nodes: map<int, SuperNode>, su: int, sv: int, nodes': map<int, SuperNode>, k: int)
    requires su in nodes && sv in nodes && su != sv && nodes[su].truss == nodes[sv].truss
    requires nodes' == (nodes - {sv})[su := SuperNode(nodes[su].members + nodes[sv].members, nodes[su].truss)]
    ensures High(nodes', k) == if k <= nodes[su].truss then High(nodes, k) - {sv} else High(nodes, k)
  {
  }

  /** Merging two unconnected nodes of a forest leaves a forest on the other nodes. */
  lemma ForestMergeJoin(g: Adj<int>, r: Adj<int>, h: set<int>, su: int, sv: int)
    requires Forest(g, h) && Undirected(g) && su in h && sv in h && su != sv && !Reach(g, su, sv)
    requires SameEdges(MergeAdj(g, su, sv), r)
    ensures Forest(r, h - {sv})
  {
    var lab :| ForestBy(g, h, lab);
    ForestMergeJoinBy(g, r, h, lab, su, sv);
  }

  lemma ForestMergeJoinBy(g: Adj<int>, r: Adj<int>, h: set<int>, lab: map<int, int>, su: int, sv: int)
    requires ForestBy(g, h, lab) && Undirected(g) && su in h && sv in h && su != sv && !Reach(g, su, sv)
    requires SameEdges(MergeAdj(g, su, sv), r)
    ensures Forest(r, h - {sv})
  {
    ForestMerge(g, h, lab, su, sv);
    ForestSameEdges(MergeAdj(g, su, sv), r, h - {sv}, Relabel(lab, h - {sv}, lab[sv], lab[su]));
    assert ForestBy(r, h - {sv}, Relabel(lab, h - {sv}, lab[sv], lab[su]));
  }

  /** Up to the merged trussness, merging commutes with taking the threshold graph. */
  lemma MergeAboveLow(sadj: Adj<int>, su: int, sv: int, k: int)
    requires Undirected(sadj) && su != sv
    requires !Edge(Above(sadj, k), su, sv) && Row(Above(sadj, k), su).Keys !! Row(Above(sadj, k), sv).Keys
    requires !Edge(sadj, su, sv) && Row(sadj, su).Keys !! Row(sadj, sv).Keys
    ensures SameEdges(MergeAdj(Above(sadj, k), su, sv), Above(MergeAdj(sadj, su, sv), k))
  {
    AboveUndirected(sadj, k);
    forall a, b
      ensures Edge(MergeAdj(Above(sadj, k), su, sv), a, b) <==> Edge(Above(MergeAdj(sadj, su, sv), k), a, b)
    {
      MergeEdges(Above(sadj, k), su, sv, a, b);
      MergeEdges(sadj, su, sv, a, b);
    }
  }

  /** Above the merged trussness the merge leaves the threshold graph's edges alone. */
  lemma MergeAboveHigh(sadj: Adj<int>, nodes: map<int, SuperNode>, su: int, sv: int, k: int)
    requires Undirected(sadj) && EdgesBelow(sadj, nodes) && su != sv && sv in nodes && nodes[sv].truss < k
    requires !Edge(sadj, su, sv) && Row(sadj, su).Keys !! Row(sadj, sv).Keys
    ensures SameEdges(Above(sadj, k), Above(MergeAdj(sadj, su, sv), k))
  {
    forall a, b
      ensures Edge(Above(sadj, k), a, b) <==> Edge(Above(MergeAdj(sadj, su, sv), k), a, b)
    {
      MergeEdges(sadj, su, sv, a, b);
      if Edge(sadj, a, sv) {
        assert sadj[sv][a] == sadj[a][sv];
      }
    }
  }

  // ---------------------------------------------------------------------
  // One popped edge.

  /** The ends of a queued edge lie in supernodes whose namesakes are
    * connected by edges of at least its trussness. */
  lemma Bridge(e: Ego, ids: map<int, int>, nodes: map<int, SuperNode>, x: Entry)
    requires WellFormed(e) && Grouping(e, ids, nodes) && Anchored(e, nodes) && TrussEntry(e, x)
    ensures x.u in ids && x.v in ids && Reach(Filtered(e, x.s), ids[x.u], ids[x.v])
  {
    assert x.u in ids && x.v in ids;
    var su, sv := ids[x.u], ids[x.v];
    var f := Filtered(e, x.s);
    EntryBelow(e, ids, nodes, x);
    assert x.u in nodes[su].members && x.v in nodes[sv].members;
    FilteredMono(e, x.s, nodes[su].truss, su, x.u);
    FilteredMono(e, x.s, nodes[sv].truss, sv, x.v);
    FilteredSymmetric(e, x.s);
    ReachSym(f, sv, x.v);
    FilteredEdge(e, x.s, x.u, x.v);
    ReachStep(f, su, x.u, x.v);
    ReachTrans(f, su, x.v, sv);
  }

  /** A skipped edge is already accounted for: the superedges connecting
    * its supernodes all weigh at least its trussness. */
  lemma JoinedSkip(ids: map<int, int>, sadj: Adj<int>, x: Entry, heap: seq<Entry>)
    requires x.u in ids && x.v in ids && (ids[x.u] == ids[x.v] || Reach(sadj, ids[x.u], ids[x.v]))
    requires Descending(sadj, heap) && x in heap
    ensures Joined(ids, sadj, x)
  {
    if ids[x.u] != ids[x.v] {
      ReachMono(sadj, Above(sadj, x.s), ids[x.u], ids[x.v]);
    }
  }

  /** After a merge every node maps to its old supernode, with sv renamed su. */
  lemma MergedIdsRename(e: Ego, ids: map<int, int>, nodes: map<int, SuperNode>, su: int, sv: int, z: int)
    requires Grouping(e, ids, nodes) && su in nodes && sv in nodes && z in ids
    ensures z in MergedIds(ids, nodes[sv].members, su)
    ensures MergedIds(ids, nodes[sv].members, su)[z] == Rename(su, sv, ids[z])
  {
    if ids[z] == sv {
      assert z in nodes[sv].members;
    }
  }

  /** A merge of unconnected supernodes keeps every superedge of trussness at least `k`, renamed. */
  lemma MergeRenames(sadj: Adj<int>, su: int, sv: int, k: int)
    requires Undirected(sadj) && su != sv && !Edge(sadj, su, sv) && Row(sadj, su).Keys !! Row(sadj, sv).Keys
    ensures forall p, q :: Edge(Above(sadj, k), p, q) ==>
      Edge(Above(MergeAdj(sadj, su, sv), k), Rename(su, sv, p), Rename(su, sv, q))
  {
    forall p, q | Edge(Above(sadj, k), p, q)
      ensures Edge(Above(MergeAdj(sadj, su, sv), k), Rename(su, sv, p), Rename(su, sv, q))
    {
      MergeEdges(sadj, su, sv, Rename(su, sv, p), Rename(su, sv, q));
      if q == sv {
        assert sadj[sv][p] == sadj[p][sv];
      }
    }
  }

  lemma JoinedMerge(e: Ego, ids: map<int, int>, nodes: map<int, SuperNode>, sadj: Adj<int>, su: int, sv: int, y: Entry)
    requires Grouping(e, ids, nodes) && Undirected(sadj) && su in nodes && sv in nodes && su != sv
    requires !Edge(sadj, su, sv) && Row(sadj, su).Keys !! Row(sadj, sv).Keys
    requires Joined(ids, sadj, y)
    ensures Joined(MergedIds(ids, nodes[sv].members, su), MergeAdj(sadj, su, sv), y)
  {
    MergedIdsRename(e, ids, nodes, su, sv, y.u);
    MergedIdsRename(e, ids, nodes, su, sv, y.v);
    if ids[y.u] != ids[y.v] {
      MergeRenames(sadj, su, sv, y.s);
      ReachRenamed(Above(sadj, y.s), Above(MergeAdj(sadj, su, sv), y.s), su, sv, ids[y.u], ids[y.v]);
    }
  }

  lemma AnchoredMerge(e: Ego, nodes: map<int, SuperNode>, su: int, sv: int, nodes': map<int, SuperNode>)
    requires Anchored(e, nodes) && su in nodes && sv in nodes && su != sv
    requires nodes[su].truss == nodes[sv].truss && Reach(Filtered(e, nodes[su].truss), su, sv)
    requires nodes' == (nodes - {sv})[su := SuperNode(nodes[su].members + nodes[sv].members, nodes[su].truss)]
    ensures Anchored(e, nodes')
  {
    forall s, x | s in nodes' && x in nodes'[s].members
      ensures Reach(Filtered(e, nodes'[s].truss), s, x)
    {
      if s == su && x in nodes[sv].members {
        ReachTrans(Filtered(e, nodes[su].truss), su, sv, x);
      }
    }
  }

  lemma TracedMerge(e: Ego, sadj: Adj<int>, nodes: map<int, SuperNode>, su: int, sv: int)
    requires WellFormed(e) && Traced(e, sadj) && Undirected(sadj) && EdgesBelow(sadj, nodes)
    requires su in nodes && sv in nodes && su != sv && !Edge(sadj, su, sv) && Row(sadj, su).Keys !! Row(sadj, sv).Keys
    requires Reach(Filtered(e, nodes[sv].truss), su, sv)
    ensures Traced(e, MergeAdj(sadj, su, sv))
  {
    var m := MergeAdj(sadj, su, sv);
    var t := nodes[sv].truss;
    forall a, b | Edge(m, a, b)
      ensures Reach(Filtered(e, m[a][b]), a, b)
    {
      MergeEdges(sadj, su, sv, a, b);
      var w := m[a][b];
      if a == su && Edge(sadj, sv, b) {
        FilteredMono(e, w, t, su, sv);
        ReachTrans(Filtered(e, w), su, sv, b);
      } else if b == su && Edge(sadj, a, sv) {
        assert w == sadj[a][sv] && Edge(sadj, sv, a);
        FilteredMono(e, w, t, su, sv);
        FilteredSymmetric(e, w);
        ReachSym(Filtered(e, w), su, sv);
        ReachTrans(Filtered(e, w), a, sv, su);
      }
    }
  }

  lemma TracedAdd(e: Ego, ids: map<int, int>, nodes: map<int, SuperNode>, sadj: Adj<int>, x: Entry)
    requires WellFormed(e) && Grouping(e, ids, nodes) && Anchored(e, nodes) && Traced(e, sadj) && TrussEntry(e, x)
    requires x.u in ids && x.v in ids && ids[x.u] != ids[x.v]
    ensures Traced(e, AddEdge(sadj, ids[x.u], ids[x.v], x.s))
  {
    var su, sv := ids[x.u], ids[x.v];
    var r := AddEdge(sadj, su, sv, x.s);
    Bridge(e, ids, nodes, x);
    FilteredSymmetric(e, x.s);
    ReachSym(Filtered(e, x.s), su, sv);
    forall a, b | Edge(r, a, b)
      ensures Reach(Filtered(e, r[a][b]), a, b)
    {
      if !((a == su && b == sv) || (a == sv && b == su)) {
        assert Edge(sadj, a, b);
      }
    }
  }

  lemma DescendingMerge(sadj: Adj<int>, su: int, sv: int, heap: seq<Entry>, rest: seq<Entry>)
    requires Undirected(sadj) && su != sv && !Edge(sadj, su, sv) && Row(sadj, su).Keys !! Row(sadj, sv).Keys
    requires Descending(sadj, heap) && forall y :: y in rest ==> y in heap
    ensures Descending(MergeAdj(sadj, su, sv), rest)
  {
    var m := MergeAdj(sadj, su, sv);
    forall a, b, y | Edge(m, a, b) && y in rest
      ensures y.s <= m[a][b]
    {
      MergeEdges(sadj, su, sv, a, b);
      if b == su && Edge(sadj, a, sv) {
        assert Edge(sadj, sv, a);
      }
    }
  }

  lemma LayeredMerge(sadj: Adj<int>, nodes: map<int, SuperNode>, su: int, sv: int, nodes': map<int, SuperNode>)
    requires Undirected(sadj) && EdgesBelow(sadj, nodes) && Layered(sadj, nodes)
    requires su in nodes && sv in nodes && su != sv && !Reach(sadj, su, sv)
    requires nodes[su].truss == nodes[sv].truss
    requires nodes' == (nodes - {sv})[su := SuperNode(nodes[su].members + nodes[sv].members, nodes[su].truss)]
    ensures Layered(MergeAdj(sadj, su, sv), nodes')
  {
    forall k
      ensures Forest(Above(MergeAdj(sadj, su, sv), k), High(nodes', k))
    {
      LevelMerge(sadj, nodes, su, sv, nodes', k);
    }
  }

  lemma LayeredAdd(sadj: Adj<int>, nodes: map<int, SuperNode>, su: int, sv: int, t: int)
    requires Undirected(sadj) && Layered(sadj, nodes)
    requires su in nodes && sv in nodes && su != sv && !Reach(sadj, su, sv)
    requires t <= nodes[su].truss && t <= nodes[sv].truss
    ensures Layered(AddEdge(sadj, su, sv, t), nodes)
  {
    forall k
      ensures Forest(Above(AddEdge(sadj, su, sv, t), k), High(nodes, k))
    {
      LevelAdd(sadj, nodes, su, sv, t, k);
    }
  }

  lemma JoinedAllMerge(e: Ego, ids: map<int, int>, nodes: map<int, SuperNode>, sadj: Adj<int>, su: int, sv: int, done: seq<Entry>)
    requires Grouping(e, ids, nodes) && Undirected(sadj) && su in nodes && sv in nodes && su != sv
    requires !Edge(sadj, su, sv) && Row(sadj, su).Keys !! Row(sadj, sv).Keys
    requires forall y :: y in done ==> Joined(ids, sadj, y)
    ensures forall y :: y in done ==> Joined(MergedIds(ids, nodes[sv].members, su), MergeAdj(sadj, su, sv), y)
  {
    forall y | y in done
      ensures Joined(MergedIds(ids, nodes[sv].members, su), MergeAdj(sadj, su, sv), y)
    {
      JoinedMerge(e, ids, nodes, sadj, su, sv, y);
    }
  }

  lemma JoinedAllAdd(ids: map<int, int>, sadj: Adj<int>, su: int, sv: int, t: int, done: seq<Entry>)
    requires su != sv && !Edge(sadj, su, sv) && !Edge(sadj, sv, su)
    requires forall y :: y in done ==> Joined(ids, sadj, y)
    ensures forall y :: y in done ==> Joined(ids, AddEdge(sadj, su, sv, t), y)
  {
    forall y | y in done
      ensures Joined(ids, AddEdge(sadj, su, sv, t), y)
    {
      if ids[y.u] != ids[y.v] {
        forall a, b | Edge(Above(sadj, y.s), a, b)
          ensures Edge(Above(AddEdge(sadj, su, sv, t), y.s), a, b)
        {
        }
        ReachMono(Above(sadj, y.s), Above(AddEdge(sadj, su, sv, t), y.s), ids[y.u], ids[y.v]);
      }
    }
  }

  lemma DescendingAdd(sadj: Adj<int>, su: int, sv: int, t: int, heap: seq<Entry>, rest: seq<Entry>)
    requires su != sv && Descending(sadj, heap) && forall y :: y in rest ==> y in heap && y.s <= t
    ensures Descending(AddEdge(sadj, su, sv, t), rest)
  {
    var r := AddEdge(sadj, su, sv, t);
    forall a, b, y | Edge(r, a, b) && y in rest
      ensures y.s <= r[a][b]
    {
      if !((a == su && b == sv) || (a == sv && b == su)) {
        assert Edge(sadj, a, b);
      }
    }
  }

  lemma JoinedSnoc(ids: map<int, int>, sadj: Adj<int>, done: seq<Entry>, x: Entry)
    requires (forall y :: y in done ==> Joined(ids, sadj, y)) && Joined(ids, sadj, x)
    ensures forall y :: y in done + [x] ==> Joined(ids, sadj, y)
  {
  }

  /** Merging sv into su for a popped edge keeps the tracked facts and accounts for the edge. */
  lemma StepMerge(e: Ego, ids: map<int, int>, nodes: map<int, SuperNode>, sadj: Adj<int>, x: Entry,
                  heap: seq<Entry>, rest: seq<Entry>, done: seq<Entry>)
    requires WellFormed(e) && Grouping(e, ids, nodes) && Undirected(sadj) && EdgesBelow(sadj, nodes)
    requires Tracked(e, ids, nodes, sadj, heap, done) && TrussEntry(e, x)
    requires forall y :: y in rest ==> y in heap
    requires x.u in ids && x.v in ids
    requires ids[x.u] != ids[x.v] && !Reach(sadj, ids[x.u], ids[x.v])
    requires nodes[ids[x.u]].truss == nodes[ids[x.v]].truss == x.s
    ensures var su, sv := ids[x.u], ids[x.v];
      Tracked(e, MergedIds(ids, nodes[sv].members, su),
        (nodes - {sv})[su := SuperNode(nodes[su].members + nodes[sv].members, nodes[su].truss)],
        MergeAdj(sadj, su, sv), rest, done + [x])
  {
    var su, sv := ids[x.u], ids[x.v];
    var ids' := MergedIds(ids, nodes[sv].members, su);
    var nodes' := (nodes - {sv})[su := SuperNode(nodes[su].members + nodes[sv].members, nodes[su].truss)];
    NotAdjacent(sadj, su, sv);
    LayeredMerge(sadj, nodes, su, sv, nodes');
    Bridge(e, ids, nodes, x);
    AnchoredMerge(e, nodes, su, sv, nodes');
    TracedMerge(e, sadj, nodes, su, sv);
    DescendingMerge(sadj, su, sv, heap, rest);
    JoinedAllMerge(e, ids, nodes, sadj, su, sv, done);
    MergedIdsRename(e, ids, nodes, su, sv, x.u);
    MergedIdsRename(e, ids, nodes, su, sv, x.v);
    JoinedSnoc(ids', MergeAdj(sadj, su, sv), done, x);
  }

  /** Joining two supernodes by a superedge for a popped edge keeps the tracked facts and accounts for the edge. */
  lemma StepAdd(e: Ego, ids: map<int, int>, nodes: map<int, SuperNode>, sadj: Adj<int>, x: Entry,
                heap: seq<Entry>, rest: seq<Entry>, done: seq<Entry>)
    requires WellFormed(e) && Grouping(e, ids, nodes) && Undirected(sadj) && EdgesBelow(sadj, nodes)
    requires Tracked(e, ids, nodes, sadj, heap, done) && TrussEntry(e, x)
    requires forall y :: y in rest ==> y in heap && y.s <= x.s
    requires x.u in ids && x.v in ids
    requires ids[x.u] != ids[x.v] && !Reach(sadj, ids[x.u], ids[x.v])
    ensures Tracked(e, ids, nodes, AddEdge(sadj, ids[x.u], ids[x.v], x.s), rest, done + [x])
  {
    var su, sv := ids[x.u], ids[x.v];
    var r := AddEdge(sadj, su, sv, x.s);
    EntryBelow(e, ids, nodes, x);
    NotAdjacent(sadj, su, sv);
    LayeredAdd(sadj, nodes, su, sv, x.s);
    TracedAdd(e, ids, nodes, sadj, x);
    DescendingAdd(sadj, su, sv, x.s, heap, rest);
    JoinedAllAdd(ids, sadj, su, sv, x.s, done);
    ReachRefl(Above(r, x.s), su);
    ReachStep(Above(r, x.s), su, su, sv);
    JoinedSnoc(ids, r, done, x);
  }

  /** One pass of the supergraph loop keeps the tracked facts and accounts for the popped edge. */
  lemma Step(e: Ego, ids: map<int, int>, nodes: map<int, SuperNode>, sadj: Adj<int>, x: Entry,
             heap: seq<Entry>, rest: seq<Entry>, done: seq<Entry>,
             ids': map<int, int>, nodes': map<int, SuperNode>, sadj': Adj<int>)
    requires WellFormed(e) && Grouping(e, ids, nodes) && Undirected(sadj) && EdgesBelow(sadj, nodes)
    requires Tracked(e, ids, nodes, sadj, heap, done) && TrussEntry(e, x) && x in heap
    requires forall y :: y in rest ==> y in heap && y.s <= x.s
    requires var su, sv := ids[x.u], ids[x.v];
      if su == sv || Reach(sadj, su, sv) then ids' == ids && nodes' == nodes && sadj' == sadj
      else if nodes[su].truss == nodes[sv].truss && nodes[su].truss == x.s then
        && ids' == MergedIds(ids, nodes[sv].members, su)
        && nodes' == (nodes - {sv})[su := SuperNode(nodes[su].members + nodes[sv].members, nodes[su].truss)]
        && sadj' == MergeAdj(sadj, su, sv)
      else ids' == ids && nodes' == nodes && sadj' == AddEdge(sadj, su, sv, x.s)
    ensures Tracked(e, ids', nodes', sadj', rest, done + [x])
  {
    assert x.u in ids && x.v in ids;
    var su, sv := ids[x.u], ids[x.v];
    if su == sv || Reach(sadj, su, sv) {
      JoinedSkip(ids, sadj, x, heap);
      assert forall y :: y in done + [x] ==> y in done || y == x;
    } else if nodes[su].truss == nodes[sv].truss && nodes[su].truss == x.s {
      StepMerge(e, ids, nodes, sadj, x, heap, rest, done);
    } else {
      StepAdd(e, ids, nodes, sadj, x, heap, rest, done);
    }
  }

  /** Before the first edge: singleton supernodes, no superedges, nothing popped. */
  lemma TrackedInit(e: Ego, ids: map<int, int>, nodes: map<int, SuperNode>, heap: seq<Entry>)
    requires forall s :: s in nodes ==> nodes[s].members == {s}
    ensures Tracked(e, ids, nodes, map[], heap, [])
  {
    var g: Adj<int> := map[];
    forall k
      ensures Forest(Above(g, k), High(nodes, k))
    {
      ForestInit(High(nodes, k));
      var lab := map x | x in High(nodes, k) :: x;
      ForestSameEdges(g, Above(g, k), High(nodes, k), lab);
    }
    forall s, x | s in nodes && x in nodes[s].members
      ensures Reach(Filtered(e, nodes[s].truss), s, x)
    {
      ReachRefl(Filtered(e, nodes[s].truss), s);
    }
  }

  /**
   * Lines 283-337 for one ego network: start with one supernode per node and
   * no superedges, then feed the edges of the truss queue, largest
   * trussness first. Every supernode groups nodes of its own trussness that
   * are connected by edges of that trussness; at every threshold the
   * superedges form an undirected forest, each superedge no heavier than its
   * ends and backed by a connection of its own trussness; and every queued
   * edge ends inside one supernode or between supernodes that superedges of
   * at least its trussness connect.
   */
  method BuildSupergraph(e: Ego, tq: seq<Entry>) returns (ids: map<int, int>, nodes: map<int, SuperNode>, sadj: Adj<int>)
    requires WellFormed(e) && forall x :: x in tq ==> TrussEntry(e, x)
    ensures Forest(sadj, nodes.Keys)
    ensures Condenses(e, tq, ids, nodes, sadj)
  {
    ids, nodes := InitSupernodes(e);
    sadj := map[];
    ghost var lab := map x | x in nodes.Keys :: x;
    SuperOkInit(e, ids, nodes, sadj, lab);
    TrackedInit(e, ids, nodes, tq);
    var heap := tq;
    ghost var done: seq<Entry> := [];
    while heap != []
      invariant SuperOk(e, ids, nodes, sadj, lab)
      invariant forall x :: x in heap ==> TrussEntry(e, x)
      invariant multiset(heap) + multiset(done) == multiset(tq)
      invariant Tracked(e, ids, nodes, sadj, heap, done)
      decreases |heap|
    {
      ids, nodes, sadj, lab, heap, done := Absorb(e, ids, nodes, sadj, lab, heap, done);
    }
    assert ForestBy(sadj, nodes.Keys, lab);
    CondensesAll(e, tq, ids, nodes, sadj, done);
  }

  /** One round of the loop: pop the heaviest entry and add it to the supergraph. */
  method Absorb(e: Ego, ids: map<int, int>, nodes: map<int, SuperNode>, sadj: Adj<int>, ghost lab: map<int, int>,
                heap: seq<Entry>, ghost done: seq<Entry>)
    returns (ids': map<int, int>, nodes': map<int, SuperNode>, sadj': Adj<int>, ghost lab': map<int, int>,
             heap': seq<Entry>, ghost done': seq<Entry>)
    requires WellFormed(e) && heap != [] && forall x :: x in heap ==> TrussEntry(e, x)
    requires SuperOk(e, ids, nodes, sadj, lab) && Tracked(e, ids, nodes, sadj, heap, done)
    ensures SuperOk(e, ids', nodes', sadj', lab') && Tracked(e, ids', nodes', sadj', heap', done')
    ensures forall x :: x in heap' ==> TrussEntry(e, x)
    ensures |heap'| < |heap| && multiset(heap') + multiset(done') == multiset(heap) + multiset(done)
  {
    var top;
    top, heap' := PopMax(heap);
    PopRest(heap, top, heap', done);
    ids', nodes', sadj', lab' := AddTrussEdge(e, ids, nodes, sadj, lab, top);
    Step(e, ids, nodes, sadj, top, heap, heap', done, ids', nodes', sadj');
    done' := done + [top];
  }

  /** What `PopMax` leaves is still queued and no heavier than what it popped. */
  lemma PopRest(heap: seq<Entry>, top: Entry, rest: seq<Entry>, done: seq<Entry>)
    requires multiset(rest) + multiset{top} == multiset(heap)
    requires forall y :: y in heap ==> y.s <= top.s
    ensures top in heap && forall y :: y in rest ==> y in heap && y.s <= top.s
    ensures |rest| < |heap| && multiset(rest) + multiset(done + [top]) == multiset(heap) + multiset(done)
  {
    assert |multiset(rest)| + 1 == |multiset(heap)|;
    assert multiset(done + [top]) == multiset(done) + multiset{top};
    assert top in multiset(heap);
    forall y | y in rest
      ensures y in heap
    {
      assert y in multiset(rest);
      assert y in multiset(heap);
    }
  }

  /** Once the queue is empty every queued edge has been popped, so the tracked facts are the result's. */
  lemma CondensesAll(e: Ego, tq: seq<Entry>, ids: map<int, int>, nodes: map<int, SuperNode>, sadj: Adj<int>, done: seq<Entry>)
    requires Grouping(e, ids, nodes) && Undirected(sadj) && EdgesBelow(sadj, nodes)
    requires Tracked(e, ids, nodes, sadj, [], done) && multiset(done) == multiset(tq)
    requires forall x :: x in tq ==> TrussEntry(e, x)
    ensures Condenses(e, tq, ids, nodes, sadj)
  {
    forall x | x in tq
      ensures Joined(ids, sadj, x)
    {
      assert x in multiset(done);
    }
  }

  // ---------------------------------------------------------------------
  // The score counts components.

  /** Every edge of the ego network, once as (smaller, larger), is in the queue
    * with its trussness: what `compute_truss` leaves once every edge is final. */
  ghost predicate Covers(e: Ego, tq: seq<Entry>)
  {
    forall a, b :: Edge(e, a, b) && a < b ==> Entry(a, b, e[a][b].value) in tq
  }

  /** The values of `f`, as the image of its keys. */
  ghost function Image<A>(f: map<int, A>): set<A>
  {
    set y | y in f :: f[y]
  }

  /** Two maps over the same keys that group the keys alike have equally many values. */
  lemma ImageCard<A, B>(f: map<int, A>, h: map<int, B>)
    requires f.Keys == h.Keys
    requires forall x, y :: x in f && y in f ==> (f[x] == f[y] <==> h[x] == h[y])
    ensures |Image(f)| == |Image(h)|
    decreases |f.Keys|
  {
    if f.Keys != {} {
      NonemptyHasMember(f.Keys);
      var x :| x in f;
      var c := set y | y in f && f[y] == f[x];
      var f', h' := f - c, h - c;
      assert x in c && f'.Keys == f.Keys - c;
      forall v | v in Image(f)
        ensures v in Image(f') + {f[x]}
      {
        var y :| y in f && f[y] == v;
        if y !in c {
          assert f'[y] == v;
        }
      }
      forall v | v in Image(h)
        ensures v in Image(h') + {h[x]}
      {
        var y :| y in h && h[y] == v;
        if y !in c {
          assert h'[y] == v;
        }
      }
      assert Image(f) == Image(f') + {f[x]};
      assert Image(h) == Image(h') + {h[x]};
      forall y | y in h'
        ensures h'[y] != h[x]
      {
        assert f[y] != f[x];
      }
      assert f[x] !in Image(f');
      assert h[x] !in Image(h');
      ImageCard(f', h');
    }
  }

  /** A node with an edge of trussness at least `k` lies in a supernode of trussness at least `k`. */
  lemma InHigh(e: Ego, ids: map<int, int>, nodes: map<int, SuperNode>, k: int, x: int)
    requires Grouping(e, ids, nodes) && x in Nonisolated(Filtered(e, k))
    ensures x in ids && ids[x] in High(nodes, k)
  {
    assert Filtered(e, k)[x].Keys != {};
    NonemptyHasMember(Filtered(e, k)[x].Keys);
    var y :| y in Filtered(e, k)[x];
    FilteredEdge(e, k, x, y);
    var sx := ids[x];
    assert sx in nodes && x in nodes[sx].members;
    assert IsNodeTruss(e[x], nodes[sx].truss);
  }

  /** An edge of trussness at least `k` joins supernodes connected by superedges of trussness at least `k`. */
  lemma EdgeJoins(e: Ego, tq: seq<Entry>, ids: map<int, int>, sadj: Adj<int>, k: int, a: int, b: int)
    requires WellFormed(e) && Covers(e, tq) && Undirected(sadj)
    requires forall x :: x in tq ==> Joined(ids, sadj, x)
    requires Edge(Filtered(e, k), a, b)
    ensures a in ids && b in ids && Reach(Above(sadj, k), ids[a], ids[b])
  {
    FilteredEdge(e, k, a, b);
    var lo, hi := if a < b then a else b, if a < b then b else a;
    assert Edge(e, lo, hi) && lo < hi && e[lo][hi].value == e[a][b].value;
    var x := Entry(lo, hi, e[lo][hi].value);
    assert Joined(ids, sadj, x);
    if ids[lo] == ids[hi] {
      ReachRefl(Above(sadj, k), ids[lo]);
    } else {
      ReachMono(Above(sadj, x.s), Above(sadj, k), ids[lo], ids[hi]);
    }
    if a > b {
      AboveUndirected(sadj, k);
      ReachSym(Above(sadj, k), ids[lo], ids[hi]);
    }
  }

  /** Connection in the ego network at `k` is connection of supernodes at `k`. */
  lemma LiftFiltered(e: Ego, tq: seq<Entry>, ids: map<int, int>, sadj: Adj<int>, k: int, x: int, y: int)
    requires WellFormed(e) && Covers(e, tq) && Undirected(sadj)
    requires forall z :: z in tq ==> Joined(ids, sadj, z)
    requires x in ids && Reach(Filtered(e, k), x, y)
    ensures y in ids && Reach(Above(sadj, k), ids[x], ids[y])
  {
    forall a, b | Edge(Filtered(e, k), a, b)
      ensures a in ids && b in ids && Reach(Above(sadj, k), ids[a], ids[b])
    {
      EdgeJoins(e, tq, ids, sadj, k, a, b);
    }
    ReachLift(Filtered(e, k), Above(sadj, k), ids, x, y);
  }

  /** Connection of supernodes at `k` is connection of their namesakes in the ego network at `k`. */
  lemma LowerAbove(e: Ego, sadj: Adj<int>, k: int, a: int, b: int)
    requires Traced(e, sadj) && Reach(Above(sadj, k), a, b)
    ensures Reach(Filtered(e, k), a, b)
  {
    forall x, y | Edge(Above(sadj, k), x, y)
      ensures Reach(Filtered(e, k), x, y)
    {
      FilteredMono(e, k, sadj[x][y], x, y);
    }
    ReachThrough(Above(sadj, k), Filtered(e, k), a, b);
  }

  /** A node with an edge of trussness at least `k` reaches its supernode's namesake at `k`. */
  lemma Anchor(e: Ego, ids: map<int, int>, nodes: map<int, SuperNode>, k: int, x: int)
    requires WellFormed(e) && Grouping(e, ids, nodes) && Anchored(e, nodes)
    requires x in Nonisolated(Filtered(e, k))
    ensures x in ids && Reach(Filtered(e, k), x, ids[x]) && Reach(Filtered(e, k), ids[x], x)
  {
    InHigh(e, ids, nodes, k, x);
    FilteredMono(e, k, nodes[ids[x]].truss, ids[x], x);
    FilteredSymmetric(e, k);
    ReachSym(Filtered(e, k), ids[x], x);
  }

  /** Two nodes connected in the ego network at `k` have supernodes of one
    * label in the threshold forest at `k`. */
  lemma ConnectedSameLabel(e: Ego, tq: seq<Entry>, ids: map<int, int>, nodes: map<int, SuperNode>, sadj: Adj<int>,
                           k: int, lab: map<int, int>, x: int, y: int)
    requires WellFormed(e) && Covers(e, tq) && Grouping(e, ids, nodes) && Undirected(sadj)
    requires forall x :: x in tq ==> Joined(ids, sadj, x)
    requires ForestBy(Above(sadj, k), High(nodes, k), lab)
    requires x in Nonisolated(Filtered(e, k)) && y in Nonisolated(Filtered(e, k)) && Reach(Filtered(e, k), x, y)
    ensures x in ids && y in ids && ids[x] in lab && ids[y] in lab && lab[ids[x]] == lab[ids[y]]
  {
    InHigh(e, ids, nodes, k, x);
    InHigh(e, ids, nodes, k, y);
    LiftFiltered(e, tq, ids, sadj, k, x, y);
    LabelsAreComponents(Above(sadj, k), High(nodes, k), lab, ids[x], ids[y]);
  }

  /** Two nodes whose supernodes carry one label of the threshold forest at
    * `k` are connected in the ego network at `k`. */
  lemma SameLabelConnected(e: Ego, ids: map<int, int>, nodes: map<int, SuperNode>, sadj: Adj<int>,
                           k: int, lab: map<int, int>, x: int, y: int)
    requires WellFormed(e) && Grouping(e, ids, nodes) && Anchored(e, nodes) && Traced(e, sadj)
    requires ForestBy(Above(sadj, k), High(nodes, k), lab)
    requires x in Nonisolated(Filtered(e, k)) && y in Nonisolated(Filtered(e, k))
    requires x in ids && y in ids && ids[x] in lab && ids[y] in lab && lab[ids[x]] == lab[ids[y]]
    ensures Reach(Filtered(e, k), x, y)
  {
    var fe := Filtered(e, k);
    InHigh(e, ids, nodes, k, x);
    InHigh(e, ids, nodes, k, y);
    LabelsAreComponents(Above(sadj, k), High(nodes, k), lab, ids[x], ids[y]);
    Anchor(e, ids, nodes, k, x);
    Anchor(e, ids, nodes, k, y);
    LowerAbove(e, sadj, k, ids[x], ids[y]);
    ReachTrans(fe, x, ids[x], ids[y]);
    ReachTrans(fe, x, ids[y], y);
  }

  /** A node lies in one ego edge of trussness at least `k` if its supernode
    * is one of trussness at least `k` named after it. */
  lemma RootHasEdge(e: Ego, tq: seq<Entry>, ids: map<int, int>, nodes: map<int, SuperNode>, k: int, r: int)
    requires WellFormed(e) && Covers(e, tq) && Grouping(e, ids, nodes) && k >= 0
    requires forall x :: x in tq ==> TrussEntry(e, x)
    requires r in High(nodes, k)
    ensures r in Nonisolated(Filtered(e, k)) && ids[r] == r
  {
    GroupingTruss(e, ids, nodes, r);
    assert r in nodes[r].members;
    var t := nodes[r].truss;
    var y: int;
    if t == 0 {
      assert e[r].Keys != {};
      NonemptyHasMember(e[r].Keys);
      y :| y in e[r];
      var lo, hi := if r < y then r else y, if r < y then y else r;
      assert Edge(e, lo, hi) && lo < hi;
      assert TrussEntry(e, Entry(lo, hi, e[lo][hi].value));
    } else {
      y :| y in e[r] && e[r][y].value == t;
    }
    FilteredEdge(e, k, r, y);
  }

  /** The score at `k` counts the trees of the threshold forest at `k`. */
  lemma ScoreIsRoots(nodes: map<int, SuperNode>, sadj: Adj<int>, k: int, lab: map<int, int>)
    requires k >= 0 && ForestBy(Above(sadj, k), High(nodes, k), lab)
    ensures SuperScore(nodes, sadj, k) == |Roots(lab)|
  {
    AboveUEdges(sadj, k);
  }

  /** Every node with an edge at `k` has a supernode of trussness at least
    * `k`, whose label is a root. */
  lemma LabelsOfNodes(e: Ego, ids: map<int, int>, nodes: map<int, SuperNode>, sadj: Adj<int>, k: int, lab: map<int, int>)
    requires Grouping(e, ids, nodes) && ForestBy(Above(sadj, k), High(nodes, k), lab)
    ensures forall x :: x in Nonisolated(Filtered(e, k)) ==> x in ids && ids[x] in lab && lab[ids[x]] in Roots(lab)
  {
    forall x | x in Nonisolated(Filtered(e, k))
      ensures x in ids && ids[x] in lab && lab[ids[x]] in Roots(lab)
    {
      InHigh(e, ids, nodes, k, x);
      var z := ids[x];
      assert z in lab && lab[z] in High(nodes, k) && lab[lab[z]] == lab[z];
    }
  }

  /** `ConnectedSameLabel` for every pair of nodes with an edge at `k`. */
  lemma LabelsOfReach(e: Ego, tq: seq<Entry>, ids: map<int, int>, nodes: map<int, SuperNode>, sadj: Adj<int>,
                      k: int, lab: map<int, int>)
    requires WellFormed(e) && Covers(e, tq) && Grouping(e, ids, nodes) && Undirected(sadj)
    requires forall x :: x in tq ==> Joined(ids, sadj, x)
    requires ForestBy(Above(sadj, k), High(nodes, k), lab)
    ensures forall x, y :: x in Nonisolated(Filtered(e, k)) && y in Nonisolated(Filtered(e, k)) && Reach(Filtered(e, k), x, y) ==>
      x in ids && y in ids && ids[x] in lab && ids[y] in lab && lab[ids[x]] == lab[ids[y]]
  {
    forall x, y | x in Nonisolated(Filtered(e, k)) && y in Nonisolated(Filtered(e, k)) && Reach(Filtered(e, k), x, y)
      ensures x in ids && y in ids && ids[x] in lab && ids[y] in lab && lab[ids[x]] == lab[ids[y]]
    {
      ConnectedSameLabel(e, tq, ids, nodes, sadj, k, lab, x, y);
    }
  }

  /** `SameLabelConnected` for every pair of nodes with an edge at `k`. */
  lemma ReachOfLabels(e: Ego, ids: map<int, int>, nodes: map<int, SuperNode>, sadj: Adj<int>, k: int, lab: map<int, int>)
    requires WellFormed(e) && Grouping(e, ids, nodes) && Anchored(e, nodes) && Traced(e, sadj)
    requires ForestBy(Above(sadj, k), High(nodes, k), lab)
    ensures forall x, y ::
      (x in Nonisolated(Filtered(e, k)) && y in Nonisolated(Filtered(e, k)) &&
       x in ids && y in ids && ids[x] in lab && ids[y] in lab && lab[ids[x]] == lab[ids[y]]) ==>
      Reach(Filtered(e, k), x, y)
  {
    forall x, y | x in Nonisolated(Filtered(e, k)) && y in Nonisolated(Filtered(e, k)) &&
      x in ids && y in ids && ids[x] in lab && ids[y] in lab && lab[ids[x]] == lab[ids[y]]
      ensures Reach(Filtered(e, k), x, y)
    {
      SameLabelConnected(e, ids, nodes, sadj, k, lab, x, y);
    }
  }

  /** Every root of the threshold forest at `k` is a node with an edge at `k`
    * that names its own supernode. */
  lemma RootsOfNodes(e: Ego, tq: seq<Entry>, ids: map<int, int>, nodes: map<int, SuperNode>, sadj: Adj<int>,
                     k: int, lab: map<int, int>)
    requires WellFormed(e) && Covers(e, tq) && Grouping(e, ids, nodes) && k >= 0
    requires forall x :: x in tq ==> TrussEntry(e, x)
    requires ForestBy(Above(sadj, k), High(nodes, k), lab)
    ensures forall r :: r in Roots(lab) ==> r in Nonisolated(Filtered(e, k)) && ids[r] == r
  {
    forall r | r in Roots(lab)
      ensures r in Nonisolated(Filtered(e, k)) && ids[r] == r
    {
      RootHasEdge(e, tq, ids, nodes, k, r);
    }
  }

  /** When supernode labels name the components of `g` one to one, there are
    * as many components as roots. */
  lemma CountByLabels(g: Ego, ids: map<int, int>, lab: map<int, int>)
    requires forall x :: x in Nonisolated(g) ==> x in ids && ids[x] in lab && lab[ids[x]] in Roots(lab)
    requires forall x, y :: x in Nonisolated(g) && y in Nonisolated(g) && Reach(g, x, y) ==>
      x in ids && y in ids && ids[x] in lab && ids[y] in lab && lab[ids[x]] == lab[ids[y]]
    requires forall x, y ::
      (x in Nonisolated(g) && y in Nonisolated(g) &&
       x in ids && y in ids && ids[x] in lab && ids[y] in lab && lab[ids[x]] == lab[ids[y]]) ==>
      Reach(g, x, y)
    requires forall r :: r in Roots(lab) ==> r in Nonisolated(g) && ids[r] == r
    requires Symmetric(g)
    ensures |Components(g)| == |Roots(lab)|
  {
    var n := Nonisolated(g);
    var comp := map x | x in n :: ReachSet(g, x);
    var root := map x | x in n :: lab[ids[x]];
    forall x, y | x in n && y in n
      ensures comp[x] == comp[y] <==> root[x] == root[y]
    {
      SameReachSetIff(g, x, y);
    }
    ImageCard(comp, root);
    forall c | c in Components(g)
      ensures c in Image(comp)
    {
      var x :| x in n && c == ReachSet(g, x);
      assert comp[x] == c;
    }
    assert Components(g) == Image(comp);
    forall r | r in Roots(lab)
      ensures r in Image(root)
    {
      assert root[r] == r;
    }
    assert Roots(lab) == Image(root);
  }

  /**
   * The index's score: on a supergraph built from a queue that holds every
   * ego edge, the supernodes of trussness at least `k` minus the superedges
   * of trussness at least `k` is the number of connected components of the
   * ego network cut down to its edges of trussness at least `k`.
   */
  lemma ScoreIsComponentCount(e: Ego, tq: seq<Entry>, ids: map<int, int>, nodes: map<int, SuperNode>, sadj: Adj<int>, k: int)
    requires WellFormed(e) && Covers(e, tq) && Condenses(e, tq, ids, nodes, sadj) && k >= 0
    ensures SuperScore(nodes, sadj, k) == |Components(Filtered(e, k))|
  {
    var fe := Filtered(e, k);
    assert Forest(Above(sadj, k), High(nodes, k));
    var lab :| ForestBy(Above(sadj, k), High(nodes, k), lab);
    ScoreIsRoots(nodes, sadj, k, lab);
    LabelsOfNodes(e, ids, nodes, sadj, k, lab);
    LabelsOfReach(e, tq, ids, nodes, sadj, k, lab);
    ReachOfLabels(e, ids, nodes, sadj, k, lab);
    RootsOfNodes(e, tq, ids, nodes, sadj, k, lab);
    FilteredSymmetric(e, k);
    CountByLabels(fe, ids, lab);
  }
}
