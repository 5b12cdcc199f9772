/**
 * `GCT_INDEX`: the per-vertex ego networks, their truss queues and the
 * supergraph histograms, built in three passes and then queried for the
 * structural diversity of every vertex.
 */
module Index {
  import opened MapGraph
  import opened StaticGraph
  import opened EgoNetwork
  import opened Truss
  import opened SuperGraph
  import opened Diversity
  import opened Threshold

  /** Every record holds the edge's support and is not yet final. */
  ghost predicate Supported(e: Ego)
  {
    forall a, b :: Edge(e, a, b) ==> b in e && e[a][b] == EdgeInfo(Support(e, a, b), false)
  }

  /** `e` is `e0` after peeling: every edge final, with a trussness backed by
    * enough triangles, and `tq` lists the edges by ascending trussness. */
  ghost predicate Peeled(e0: Ego, e: Ego, tq: seq<Entry>)
  {
    && SameShape(e0, e) && WellFormed(e)
    && (forall a, b :: Edge(e, a, b) ==> e[a][b].finalized && 2 <= e[a][b].value <= e0[a][b].value + 2)
    && (forall a, b :: Edge(e, a, b) ==> |Strong(e, a, b, e[a][b].value)| >= e[a][b].value - 2)
    && Ordered(e, tq)
  }

  /** Filling in the supports of an ego network of zero records makes it supported. */
  lemma SupportsReady(e: Ego, r: Ego)
    requires WellFormed(e) && forall a, b :: Edge(e, a, b) ==> e[a][b] == EdgeInfo(0, false)
    requires SameShape(e, r)
    requires forall a, b :: Edge(e, a, b) ==> r[a][b] == (if a != b then e[a][b].(value := Support(e, a, b)) else e[a][b])
    ensures WellFormed(r) && Supported(r)
  {
    forall a, b | Edge(r, a, b)
      ensures b in r && a in r[b] && r[b][a] == r[a][b] && r[a][b] == EdgeInfo(Support(r, a, b), false)
    {
      SupportSameShape(e, r, a, b);
      SupportSameShape(e, r, b, a);
      SupportSymmetric(e, a, b);
    }
  }

  /** The truss queue of a peeled ego network lists edges with their trussness. */
  lemma PeeledEntries(e0: Ego, e: Ego, tq: seq<Entry>)
    requires Peeled(e0, e, tq)
    ensures forall x :: x in tq ==> TrussEntry(e, x)
  {
  }

  /** Once every edge is final, the truss queue of a peeled ego network holds all its edges. */
  lemma PeeledCovers(e0: Ego, e: Ego, tq: seq<Entry>)
    requires Peeled(e0, e, tq)
    ensures Covers(e, tq)
  {
    forall a, b | Edge(e, a, b) && a < b
      ensures Entry(a, b, e[a][b].value) in tq
    {
      assert e[a][b].finalized;
    }
  }

  /** `vector<vector<int>>` resized to `n` from empty: `n` empty tables. */
  function EmptyTables(n: nat): (r: seq<seq<int>>)
    ensures |r| == n && forall i :: 0 <= i < n ==> r[i] == []
  {
    seq(n, _ => [])
  }

  /** One ego network's entry of a built index: the histograms of a supergraph
    * that condenses the ego network along its truss queue `tq` and whose
    * superedges form a forest. */
  ghost predicate IndexedEgo(e: Ego, tq: seq<Entry>, nodes: map<int, SuperNode>, sadj: Adj<int>, nodeTbl: seq<int>, edgeTbl: seq<int>)
  {
    && WellFormed(e) && (exists ids :: Condenses(e, tq, ids, nodes, sadj))
    && Undirected(sadj) && Forest(sadj, nodes.Keys) && EdgesBelow(sadj, nodes)
    && Tabulates(nodeTbl, TrussOn(nodes, nodes.Keys))
    && Tabulates(edgeTbl, Tallied(sadj, UEdges(sadj)))
  }

  /** Lines 284-358 for one ego network: its supergraph, then its two histograms. */
  method IndexEgo(e: Ego, tq: seq<Entry>) returns (nodeTbl: seq<int>, edgeTbl: seq<int>, ghost nodes: map<int, SuperNode>, ghost sadj: Adj<int>)
    requires WellFormed(e) && forall x :: x in tq ==> TrussEntry(e, x)
    ensures IndexedEgo(e, tq, nodes, sadj, nodeTbl, edgeTbl)
  {
    var ids, nodes', sadj' := BuildSupergraph(e, tq);
    forall s | s in nodes'
      ensures nodes'[s].truss >= 0
    {
      GroupingTruss(e, ids, nodes', s);
    }
    nodeTbl := TallyNodes(nodes');
    edgeTbl := TallyEdges(sadj');
    nodes, sadj := nodes', sadj';
  }

  class GctIndex {
    var egoNetwork: seq<Ego>
    var trussQueue: seq<seq<Entry>>
    var nodeTrussNum: seq<seq<int>>
    var edgeTrussNum: seq<seq<int>>
    /** The supergraph each histogram pair was built from. */
    ghost var superNodes: seq<map<int, SuperNode>>
    ghost var superAdj: seq<Adj<int>>

    constructor ()
      ensures egoNetwork == [] && trussQueue == [] && nodeTrussNum == [] && edgeTrussNum == []
    {
      egoNetwork, trussQueue, nodeTrussNum, edgeTrussNum := [], [], [], [];
      superNodes, superAdj := [], [];
    }

    /** The histograms describe supergraphs of the ego networks: grouped
      * supernodes, an undirected forest of superedges, each counted once. */
    ghost predicate Indexed()
      reads this
    {
      && |superNodes| == |superAdj| == |nodeTrussNum| == |edgeTrussNum| == |trussQueue| == |egoNetwork|
      && forall i :: 0 <= i < |egoNetwork| ==>
        IndexedEgo(egoNetwork[i], trussQueue[i], superNodes[i], superAdj[i], nodeTrussNum[i], edgeTrussNum[i])
    }

    /** Every ego network is well formed and its truss queue lists edges of it
      * with their trussness. */
    ghost predicate Queued()
      reads this
    {
      && |trussQueue| == |egoNetwork|
      && forall i :: 0 <= i < |egoNetwork| ==>
        WellFormed(egoNetwork[i]) && forall x :: x in trussQueue[i] ==> TrussEntry(egoNetwork[i], x)
    }

    /** Every ego network's truss queue holds all of its edges, as `compute_truss`
      * leaves them when it starts from an empty queue list. */
    ghost predicate Complete()
      reads this
    {
      |trussQueue| == |egoNetwork| && forall i :: 0 <= i < |egoNetwork| ==> Covers(egoNetwork[i], trussQueue[i])
    }

    /** `build_egonetwork` (lines 175-216): one ego network per vertex, holding
      * the edges among its neighbours, each with its support. */
    method BuildEgoNetwork(g: UndirectedGraph)
      requires g.Valid() && egoNetwork == [] && nodeTrussNum == [] && edgeTrussNum == []
      modifies this
      ensures |egoNetwork| == g.vertexNum
      ensures forall w, a, b :: 0 <= w < |egoNetwork| ==> (Edge(egoNetwork[w], a, b) <==> InEgo(g.adjList, w, a, b))
      ensures forall w :: 0 <= w < |egoNetwork| ==> WellFormed(egoNetwork[w]) && Supported(egoNetwork[w])
      ensures nodeTrussNum == EmptyTables(g.vertexNum) && edgeTrussNum == EmptyTables(g.vertexNum)
      ensures trussQueue == old(trussQueue)
    {
      var egos := DistributeEdges(g.adjList);
      ghost var spread := egos;
      var i := 0;
      while i < |egos|
        invariant 0 <= i <= |egos| == |spread|
        invariant forall w :: i <= w < |egos| ==> egos[w] == spread[w]
        invariant forall w :: 0 <= w < i ==> SameShape(spread[w], egos[w]) && WellFormed(egos[w]) && Supported(egos[w])
        invariant trussQueue == old(trussQueue)
      {
        var r := ComputeSupports(egos[i]);
        SupportsReady(egos[i], r);
        egos := egos[i := r];
        i := i + 1;
      }
      forall w, a, b | 0 <= w < |egos|
        ensures Edge(egos[w], a, b) <==> InEgo(g.adjList, w, a, b)
      {
        assert Edge(egos[w], a, b) <==> Edge(spread[w], a, b);
      }
      egoNetwork := egos;
      nodeTrussNum := EmptyTables(g.vertexNum);
      edgeTrussNum := EmptyTables(g.vertexNum);
    }

    /** `compute_truss` (lines 218-280): peel every ego network, keeping its
      * truss queue; the queues are appended in ego order. */
    method ComputeTruss()
      requires forall w :: 0 <= w < |egoNetwork| ==> WellFormed(egoNetwork[w]) && Supported(egoNetwork[w])
      modifies this
      ensures |egoNetwork| == |old(egoNetwork)|
      ensures |trussQueue| == |old(trussQueue)| + |egoNetwork| && trussQueue[..|old(trussQueue)|] == old(trussQueue)
      ensures forall w :: 0 <= w < |egoNetwork| ==> Peeled(old(egoNetwork)[w], egoNetwork[w], trussQueue[|old(trussQueue)| + w])
      ensures nodeTrussNum == old(nodeTrussNum) && edgeTrussNum == old(edgeTrussNum)
      ensures old(trussQueue) == [] ==> Queued() && Complete()
    {
      var i := 0;
      while i < |egoNetwork|
        invariant 0 <= i <= |egoNetwork| == |old(egoNetwork)|
        invariant forall w :: i <= w < |egoNetwork| ==> egoNetwork[w] == old(egoNetwork)[w]
        invariant |trussQueue| == |old(trussQueue)| + i && trussQueue[..|old(trussQueue)|] == old(trussQueue)
        invariant forall w :: 0 <= w < i ==> Peeled(old(egoNetwork)[w], egoNetwork[w], trussQueue[|old(trussQueue)| + w])
        invariant nodeTrussNum == old(nodeTrussNum) && edgeTrussNum == old(edgeTrussNum)
      {
        var e, tq := PeelEgo(egoNetwork[i]);
        egoNetwork := egoNetwork[i := e];
        trussQueue := trussQueue + [tq];
        i := i + 1;
      }
      if old(trussQueue) == [] {
        forall w | 0 <= w < |egoNetwork|
          ensures WellFormed(egoNetwork[w]) && forall x :: x in trussQueue[w] ==> TrussEntry(egoNetwork[w], x)
          ensures Covers(egoNetwork[w], trussQueue[w])
        {
          PeeledEntries(old(egoNetwork)[w], egoNetwork[w], trussQueue[w]);
          PeeledCovers(old(egoNetwork)[w], egoNetwork[w], trussQueue[w]);
        }
      }
    }

    /** `build_supergraph_index` (lines 282-360): build the supergraph of every
      * ego network from its truss queue and tally it. */
    method BuildSupergraphIndex()
      requires Queued() && |nodeTrussNum| == |egoNetwork| && |edgeTrussNum| == |egoNetwork|
      requires forall i :: 0 <= i < |egoNetwork| ==> nodeTrussNum[i] == [] && edgeTrussNum[i] == []
      modifies this
      ensures egoNetwork == old(egoNetwork) && trussQueue == old(trussQueue)
      ensures Indexed()
    {
      superNodes, superAdj := [], [];
      var i := 0;
      while i < |egoNetwork|
        invariant 0 <= i <= |egoNetwork| && |nodeTrussNum| == |edgeTrussNum| == |egoNetwork|
        invariant egoNetwork == old(egoNetwork) && trussQueue == old(trussQueue)
        invariant |superNodes| == |superAdj| == i
        invariant forall j :: 0 <= j < i ==>
          IndexedEgo(egoNetwork[j], trussQueue[j], superNodes[j], superAdj[j], nodeTrussNum[j], edgeTrussNum[j])
      {
        var nodeTbl, edgeTbl, nodes, sadj := IndexEgo(egoNetwork[i], trussQueue[i]);
        nodeTrussNum := nodeTrussNum[i := nodeTbl];
        edgeTrussNum := edgeTrussNum[i := edgeTbl];
        superNodes, superAdj := superNodes + [nodes], superAdj + [sadj];
        i := i + 1;
      }
    }

    /** `compute_diversirty` (lines 362-378): the score of every vertex, read
      * from its histograms; on a built index, supernodes minus superedges of
      * trussness at least `k`. */
    method ComputeDiversity(k: int) returns (result: seq<int>)
      requires |nodeTrussNum| >= |egoNetwork| && |edgeTrussNum| >= |egoNetwork|
      ensures |result| == |egoNetwork|
      ensures forall i :: 0 <= i < |result| ==> result[i] == SumFrom(nodeTrussNum[i], k) - SumFrom(edgeTrussNum[i], k)
      ensures Indexed() ==> forall i :: 0 <= i < |result| ==> result[i] == SuperScore(superNodes[i], superAdj[i], k)
      ensures Indexed() && Complete() && k >= 0 ==> forall i :: 0 <= i < |result| ==>
        result[i] == |Components(Filtered(egoNetwork[i], k))|
    {
      result := seq(|egoNetwork|, _ => 0);
      var i := 0;
      while i < |egoNetwork|
        invariant 0 <= i <= |egoNetwork| == |result|
        invariant forall j :: 0 <= j < i ==> result[j] == SumFrom(nodeTrussNum[j], k) - SumFrom(edgeTrussNum[j], k)
      {
        var score := Score(nodeTrussNum[i], edgeTrussNum[i], k);
        result := result[i := score];
        i := i + 1;
      }
      if Indexed() {
        forall i | 0 <= i < |result|
          ensures result[i] == SuperScore(superNodes[i], superAdj[i], k)
        {
          ScoreCounts(superNodes[i], superAdj[i], nodeTrussNum[i], edgeTrussNum[i], k);
        }
        if Complete() && k >= 0 {
          forall i | 0 <= i < |result|
            ensures result[i] == |Components(Filtered(egoNetwork[i], k))|
          {
            assert IndexedEgo(egoNetwork[i], trussQueue[i], superNodes[i], superAdj[i], nodeTrussNum[i], edgeTrussNum[i]);
            var ids :| Condenses(egoNetwork[i], trussQueue[i], ids, superNodes[i], superAdj[i]);
            ScoreIsComponentCount(egoNetwork[i], trussQueue[i], ids, superNodes[i], superAdj[i], k);
          }
        }
      }
    }

    /** `compute_diversirty_naive` (lines 380-401): for every vertex, the
      * connected components of its ego network cut down to the edges of
      * trussness at least `k`. */
    method ComputeDiversityNaive(k: int) returns (result: seq<int>)
      requires forall i :: 0 <= i < |egoNetwork| ==> WellFormed(egoNetwork[i])
      ensures |result| == |egoNetwork|
      ensures forall i :: 0 <= i < |result| ==> result[i] == |Components(Filtered(egoNetwork[i], k))|
    {
      result := seq(|egoNetwork|, _ => 0);
      var i := 0;
      while i < |egoNetwork|
        invariant 0 <= i <= |egoNetwork| == |result|
        invariant forall j :: 0 <= j < i ==> result[j] == |Components(Filtered(egoNetwork[j], k))|
      {
        var count := NaiveCount(egoNetwork[i], k);
        result := result[i := count];
        i := i + 1;
      }
    }
  }

  /** `compute_structure_diversity` (lines 404-411): the index's scores for `k`. */
  method ComputeStructureDiversity(gct: GctIndex, k: int) returns (diversity: seq<int>)
    requires |gct.nodeTrussNum| >= |gct.egoNetwork| && |gct.edgeTrussNum| >= |gct.egoNetwork|
    ensures |diversity| == |gct.egoNetwork|
    ensures forall i :: 0 <= i < |diversity| ==>
      diversity[i] == SumFrom(gct.nodeTrussNum[i], k) - SumFrom(gct.edgeTrussNum[i], k)
    ensures gct.Indexed() ==> forall i :: 0 <= i < |diversity| ==>
      diversity[i] == SuperScore(gct.superNodes[i], gct.superAdj[i], k)
    ensures gct.Indexed() && gct.Complete() && k >= 0 ==> forall i :: 0 <= i < |diversity| ==>
      diversity[i] == |Components(Filtered(gct.egoNetwork[i], k))|
  {
    diversity := gct.ComputeDiversity(k);
  }

  /**
   * Lines 428-431: an index built from a graph by the three passes in order.
   * Its scores are then the component counts of the naive recount for every
   * threshold `k >= 0`.
   */
  method BuildIndex(g: UndirectedGraph) returns (gct: GctIndex)
    requires g.Valid()
    ensures fresh(gct) && |gct.egoNetwork| == g.vertexNum
    ensures gct.Indexed() && gct.Complete()
  {
    gct := new GctIndex();
    gct.BuildEgoNetwork(g);
    gct.ComputeTruss();
    ghost var egos, tqs := gct.egoNetwork, gct.trussQueue;
    gct.BuildSupergraphIndex();
    assert gct.egoNetwork == egos && gct.trussQueue == tqs;
  }
}
