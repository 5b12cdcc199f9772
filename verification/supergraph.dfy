/**
 * The supergraph of one ego network (`build_supergraph_index`): nodes are
 * grouped into supernodes of equal trussness, and the remaining edges, taken
 * in descending trussness, become superedges. An edge is skipped when its
 * endpoints already lie in one supernode or are already connected, so the
 * superedges always form a forest.
 */
module SuperGraph {
  import opened MapGraph
  import opened EgoNetwork
  import opened Truss

  /** A supernode: the ego-network nodes it groups and their common trussness. */
  datatype SuperNode = SuperNode(members: set<int>, truss: int)

  /** The undirected superedges, each once as (smaller, larger). */
  ghost function UEdges(g: Adj<int>): set<(int, int)>
  {
    set a, b | a in g && b in g[a] && a < b :: (a, b)
  }

  /** Superedge (su, sv) with trussness t, written in both directions. */
  function AddEdge(g: Adj<int>, su: int, sv: int, t: int): (r: Adj<int>)
    requires su != sv
    ensures forall a, b :: Edge(r, a, b) <==> Edge(g, a, b) || (a == su && b == sv) || (a == sv && b == su)
    ensures Edge(r, su, sv) && Edge(r, sv, su) && r[su][sv] == t && r[sv][su] == t
    ensures forall a, b :: Edge(g, a, b) && !((a == su && b == sv) || (a == sv && b == su)) ==>
      Edge(r, a, b) && r[a][b] == g[a][b]
  {
    var g1 := g[su := Row(g, su)[sv := t]];
    g1[sv := Row(g1, sv)[su := t]]
  }

  /** Row `a` once the neighbours `moved` of sv (none of them su) are relinked. */
  function RelinkedRow(g: Adj<int>, su: int, sv: int, moved: set<int>, a: int): map<int, int>
    requires moved <= Row(g, sv).Keys
  {
    if a == su then Row(g, su) + (map n | n in moved :: Row(g, sv)[n])
    else if a in moved then (Row(g, a) - {sv})[su := Row(g, sv)[a]]
    else Row(g, a)
  }

  /** The state after the relinking loop has handled the neighbours `d` of sv:
    * each handled neighbour n other than su now links to su instead of sv,
    * with the truss value of its old superedge. */
  function Relinked(g: Adj<int>, su: int, sv: int, d: set<int>): Adj<int>
    requires d <= Row(g, sv).Keys
  {
    var moved := d - {su};
    map a | a in g.Keys + moved + (if moved == {} then {} else {su}) :: RelinkedRow(g, su, sv, moved, a)
  }

  /** Merging supernode sv into su: every superedge of sv is relinked onto su, then sv's row goes. */
  function MergeAdj(g: Adj<int>, su: int, sv: int): Adj<int>
  {
    Relinked(g, su, sv, Row(g, sv).Keys) - {sv}
  }

  /** An adjacency map as the supergraph keeps it: symmetric, loop-free, with the same value both ways. */
  ghost predicate Undirected(g: Adj<int>)
  {
    && Symmetric(g)
    && (forall a :: a in g ==> a !in g[a])
    && (forall a, b :: Edge(g, a, b) ==> g[b][a] == g[a][b])
  }

  /** Which superedges exist after a merge of two unconnected supernodes. */
  lemma MergeEdges(g: Adj<int>, su: int, sv: int, a: int, b: int)
    requires Undirected(g) && su != sv && !Edge(g, su, sv) && Row(g, su).Keys !! Row(g, sv).Keys
    ensures Edge(MergeAdj(g, su, sv), a, b) <==>
      (Edge(g, a, b) && a != sv && b != sv) || (a == su && Edge(g, sv, b)) || (b == su && Edge(g, a, sv))
    ensures a == su && Edge(g, sv, b) ==> MergeAdj(g, su, sv)[a][b] == g[sv][b]
    ensures b == su && Edge(g, a, sv) ==> MergeAdj(g, su, sv)[a][b] == g[sv][a]
    ensures Edge(g, a, b) && a != sv && b != sv ==> MergeAdj(g, su, sv)[a][b] == g[a][b]
  {
    var nb := Row(g, sv);
    var r := MergeAdj(g, su, sv);
    assert su !in nb;
    if a == su && Edge(g, sv, b) {
      assert b in nb;
    }
    if b == su && Edge(g, a, sv) {
      assert a in nb && a != sv;
    }
    if a in nb && a != su {
      assert Edge(g, a, sv);
    }
  }

  /** A merge of unconnected supernodes keeps the adjacency undirected. */
  lemma MergeUndirected(g: Adj<int>, su: int, sv: int)
    requires Undirected(g) && su != sv && !Edge(g, su, sv) && Row(g, su).Keys !! Row(g, sv).Keys
    ensures Undirected(MergeAdj(g, su, sv))
  {
    var r := MergeAdj(g, su, sv);
    forall a, b | Edge(r, a, b)
      ensures b in r && a in r[b] && r[b][a] == r[a][b] && a != b
    {
      MergeEdgeBack(g, su, sv, a, b);
    }
  }

  /** After such a merge each superedge is listed back with the same value, and none is a loop. */
  lemma MergeEdgeBack(g: Adj<int>, su: int, sv: int, a: int, b: int)
    requires Undirected(g) && su != sv && !Edge(g, su, sv) && Row(g, su).Keys !! Row(g, sv).Keys
    requires Edge(MergeAdj(g, su, sv), a, b)
    ensures Edge(MergeAdj(g, su, sv), b, a) && a != b
    ensures MergeAdj(g, su, sv)[b][a] == MergeAdj(g, su, sv)[a][b]
  {
    MergeEdges(g, su, sv, a, b);
    MergeEdges(g, su, sv, b, a);
  }

  /** Adding a superedge between distinct supernodes keeps the adjacency undirected. */
  lemma AddUndirected(g: Adj<int>, su: int, sv: int, t: int)
    requires Undirected(g) && su != sv
    ensures Undirected(AddEdge(g, su, sv, t))
  {
    var r := AddEdge(g, su, sv, t);
    forall a, b | Edge(r, a, b)
      ensures b in r && a in r[b] && r[b][a] == r[a][b] && a != b
    {
      if !((a == su && b == sv) || (a == sv && b == su)) {
        assert Edge(g, a, b) && Edge(g, b, a);
      }
    }
  }

  // ---------------------------------------------------------------------
  // Forests.

  /** The label roots: one per labelled component. */
  ghost function Roots(lab: map<int, int>): set<int>
  {
    set x | x in lab && lab[x] == x
  }

  /**
   * `lab` names the connected components of the superedges over `nodes`:
   * superedges stay inside one label and equally labelled nodes are
   * connected. With as many superedges as nodes minus components, each
   * component is a tree, so the superedges form a forest.
   */
  ghost predicate ForestBy(g: Adj<int>, nodes: set<int>, lab: map<int, int>)
  {
    LabelsOk(nodes, lab) && EdgesInside(g, nodes, lab) && LabelsConnected(g, nodes, lab)
    && |UEdges(g)| + |Roots(lab)| == |nodes|
  }

  /** Every node carries a label, and a label is a node that labels itself. */
  ghost predicate LabelsOk(nodes: set<int>, lab: map<int, int>)
  {
    lab.Keys == nodes && forall x :: x in nodes ==> lab[x] in nodes && lab[lab[x]] == lab[x]
  }

  /** Superedges join nodes of one label. */
  ghost predicate EdgesInside(g: Adj<int>, nodes: set<int>, lab: map<int, int>)
    requires lab.Keys == nodes
  {
    forall a, b :: Edge(g, a, b) ==> a in nodes && b in nodes && lab[a] == lab[b]
  }

  /** Nodes of one label are connected. */
  ghost predicate LabelsConnected(g: Adj<int>, nodes: set<int>, lab: map<int, int>)
    requires lab.Keys == nodes
  {
    forall a, b :: a in nodes && b in nodes && lab[a] == lab[b] ==> Reach(g, a, b)
  }

  ghost predicate Forest(g: Adj<int>, nodes: set<int>)
  {
    exists lab :: ForestBy(g, nodes, lab)
  }

  /** The labels are exactly the connected components. */
  lemma LabelsAreComponents(g: Adj<int>, nodes: set<int>, lab: map<int, int>, a: int, b: int)
    requires ForestBy(g, nodes, lab) && a in nodes && b in nodes
    ensures lab[a] == lab[b] <==> Reach(g, a, b)
  {
    if Reach(g, a, b) {
      var c := set x | x in nodes && lab[x] == lab[a];
      ClosedSetHoldsReach(g, c, a, b);
    }
  }

  /** Every node its own supernode, no superedges: a forest of single nodes. */
  lemma ForestInit(nodes: set<int>)
    ensures ForestBy(map[], nodes, map x | x in nodes :: x)
  {
    var lab := map x | x in nodes :: x;
    var g: Adj<int> := map[];
    assert UEdges(g) == {};
    assert Roots(lab) == nodes;
    forall a, b | a in nodes && b in nodes && lab[a] == lab[b]
      ensures Reach(g, a, b)
    {
      ReachRefl(g, a);
    }
  }

  /** Node `x` as seen after sv is merged into su. */
  function Rename(su: int, sv: int, x: int): int
  {
    if x == sv then su else x
  }

  /** A walk survives any change of the graph that keeps each edge, up to renaming sv as su. */
  lemma ReachRenamed(g: Adj<int>, r: Adj<int>, su: int, sv: int, a: int, b: int)
    requires forall x, y :: Edge(g, x, y) ==> Edge(r, Rename(su, sv, x), Rename(su, sv, y))
    requires Reach(g, a, b)
    ensures Reach(r, Rename(su, sv, a), Rename(su, sv, b))
  {
    var p :| IsWalk(g, p) && p[0] == a && p[|p| - 1] == b;
    var p' := seq(|p|, i requires 0 <= i < |p| => Rename(su, sv, p[i]));
    forall i | 0 <= i < |p'| - 1
      ensures Edge(r, p'[i], p'[i + 1])
    {
      assert Edge(g, p[i], p[i + 1]);
    }
    assert IsWalk(r, p');
  }

  /** Relabelling one component `from` as `to`. */
  ghost function Relabel(lab: map<int, int>, nodes: set<int>, from: int, to: int): map<int, int>
    requires nodes <= lab.Keys
  {
    map x | x in nodes :: if lab[x] == from then to else lab[x]
  }

  /** Relabelling one component into another keeps every label a root that labels itself. */
  lemma RelabelIdempotent(lab: map<int, int>, nodes: set<int>, from: int, to: int, lab': map<int, int>)
    requires nodes <= lab.Keys && (forall x :: x in lab ==> lab[x] in lab && lab[lab[x]] == lab[x])
    requires forall x :: x in nodes ==> lab[x] in nodes || lab[x] == from
    requires to in nodes && lab[to] == to && to != from
    requires lab' == Relabel(lab, nodes, from, to)
    ensures LabelsOk(nodes, lab')
  {
  }

  /** Relabelling a component into another removes exactly its root. */
  lemma RootsRelabel(lab: map<int, int>, nodes: set<int>, from: int, to: int)
    requires nodes <= lab.Keys && (forall x :: x in lab ==> lab[x] in lab && lab[lab[x]] == lab[x])
    requires forall x :: x in lab && x !in nodes ==> lab[x] == from
    requires to in nodes && lab[to] == to && to != from && from in lab && lab[from] == from
    ensures Roots(Relabel(lab, nodes, from, to)) == Roots(lab) - {from}
    ensures |Roots(Relabel(lab, nodes, from, to))| == |Roots(lab)| - 1
  {
    var lab' := Relabel(lab, nodes, from, to);
    forall x | x in Roots(lab')
      ensures x in Roots(lab) - {from}
    {
    }
    forall x | x in Roots(lab) - {from}
      ensures x in Roots(lab')
    {
      assert x in nodes;
    }
    assert from in Roots(lab);
  }

  /** The superedge set grows by exactly the new edge. */
  lemma UEdgesAdd(g: Adj<int>, su: int, sv: int, t: int)
    requires su != sv && !Edge(g, su, sv) && !Edge(g, sv, su)
    ensures UEdges(AddEdge(g, su, sv, t)) == UEdges(g) + {if su < sv then (su, sv) else (sv, su)}
    ensures |UEdges(AddEdge(g, su, sv, t))| == |UEdges(g)| + 1
  {
    var r := AddEdge(g, su, sv, t);
    var e := if su < sv then (su, sv) else (sv, su);
    forall p | p in UEdges(r)
      ensures p in UEdges(g) + {e}
    {
      var (a, b) := p;
      assert Edge(r, a, b);
    }
    forall p | p in UEdges(g) + {e}
      ensures p in UEdges(r)
    {
      var (a, b) := p;
      assert Edge(r, a, b);
    }
    assert e !in UEdges(g);
  }

  /** Adding a superedge between two unconnected supernodes joins their components. */
  lemma ForestAdd(g: Adj<int>, nodes: set<int>, lab: map<int, int>, su: int, sv: int, t: int)
    requires ForestBy(g, nodes, lab) && Symmetric(g) && su in nodes && sv in nodes && su != sv && !Reach(g, su, sv)
    ensures ForestBy(AddEdge(g, su, sv, t), nodes, Relabel(lab, nodes, lab[sv], lab[su]))
  {
    var r := AddEdge(g, su, sv, t);
    var lab' := Relabel(lab, nodes, lab[sv], lab[su]);
    LabelsAreComponents(g, nodes, lab, su, sv);
    NotAdjacent(g, su, sv);
    RelabelIdempotent(lab, nodes, lab[sv], lab[su], lab');
    ForestAddEdges(g, r, nodes, lab, su, sv, t, lab');
    ForestAddReach(g, r, nodes, lab, su, sv, t, lab');
    UEdgesAdd(g, su, sv, t);
    RootsRelabel(lab, nodes, lab[sv], lab[su]);
  }

  /** Unconnected supernodes share no superedge and no neighbour. */
  lemma NotAdjacent(g: Adj<int>, su: int, sv: int)
    requires Symmetric(g) && !Reach(g, su, sv)
    ensures !Edge(g, su, sv) && !Edge(g, sv, su) && Row(g, su).Keys !! Row(g, sv).Keys
  {
    ReachRefl(g, su);
    if Edge(g, su, sv) {
      ReachStep(g, su, su, sv);
    }
    if Edge(g, sv, su) {
      ReachStep(g, su, su, sv);
    }
    forall n | n in Row(g, su) && n in Row(g, sv)
      ensures false
    {
      ReachStep(g, su, su, n);
      ReachStep(g, su, n, sv);
    }
  }

  lemma ForestAddEdges(g: Adj<int>, r: Adj<int>, nodes: set<int>, lab: map<int, int>, su: int, sv: int, t: int, lab': map<int, int>)
    requires ForestBy(g, nodes, lab) && su in nodes && sv in nodes && su != sv && r == AddEdge(g, su, sv, t)
    requires lab[su] != lab[sv] && lab' == Relabel(lab, nodes, lab[sv], lab[su])
    ensures EdgesInside(r, nodes, lab')
  {
    forall a, b | Edge(r, a, b) && !((a == su && b == sv) || (a == sv && b == su))
      ensures Edge(g, a, b)
    {
    }
  }

  lemma ForestAddReach(g: Adj<int>, r: Adj<int>, nodes: set<int>, lab: map<int, int>, su: int, sv: int, t: int, lab': map<int, int>)
    requires ForestBy(g, nodes, lab) && su in nodes && sv in nodes && su != sv && r == AddEdge(g, su, sv, t)
    requires lab' == Relabel(lab, nodes, lab[sv], lab[su])
    ensures LabelsConnected(r, nodes, lab')
  {
    forall x, y | Edge(g, x, y)
      ensures Edge(r, Rename(su, su, x), Rename(su, su, y))
    {
    }
    forall a, b | a in nodes && b in nodes && lab'[a] == lab'[b]
      ensures Reach(r, a, b)
    {
      if lab[a] == lab[b] {
        ReachRenamed(g, r, su, su, a, b);
      } else if lab[a] == lab[sv] {
        ReachRenamed(g, r, su, su, a, sv);
        ReachRenamed(g, r, su, su, su, b);
        ReachStep(r, a, sv, su);
        ReachTrans(r, a, su, b);
      } else {
        ReachRenamed(g, r, su, su, a, su);
        ReachRenamed(g, r, su, su, sv, b);
        ReachStep(r, a, su, sv);
        ReachTrans(r, a, sv, b);
      }
    }
  }

  /** The undirected pair {a, b} as (smaller, larger). */
  function Norm(a: int, b: int): (int, int)
  {
    if a < b then (a, b) else (b, a)
  }

  /** Where a superedge ends up when sv is merged into su. */
  function Relink(p: (int, int), su: int, sv: int): (int, int)
  {
    if p.0 == sv then Norm(su, p.1) else if p.1 == sv then Norm(su, p.0) else p
  }

  ghost function RelinkAll(es: set<(int, int)>, su: int, sv: int): set<(int, int)>
  {
    set p | p in es :: Relink(p, su, sv)
  }

  /** Relinking without collisions keeps the number of superedges. */
  lemma {:induction false} RelinkCard(es: set<(int, int)>, su: int, sv: int)
    requires forall p, q :: p in es && q in es && Relink(p, su, sv) == Relink(q, su, sv) ==> p == q
    ensures |RelinkAll(es, su, sv)| == |es|
  {
    if es != {} {
      var p :| p in es;
      var rest := es - {p};
      RelinkCard(rest, su, sv);
      assert RelinkAll(es, su, sv) == RelinkAll(rest, su, sv) + {Relink(p, su, sv)};
      assert Relink(p, su, sv) !in RelinkAll(rest, su, sv);
    }
  }

  /** Every superedge after the merge is the relinked image of one before it. */
  lemma MergeUEdgesIn(g: Adj<int>, su: int, sv: int)
    requires Undirected(g) && su != sv && !Edge(g, su, sv) && Row(g, su).Keys !! Row(g, sv).Keys
    ensures UEdges(MergeAdj(g, su, sv)) <= RelinkAll(UEdges(g), su, sv)
  {
    var r := MergeAdj(g, su, sv);
    var es := UEdges(g);
    forall p | p in UEdges(r)
      ensures p in RelinkAll(es, su, sv)
    {
      var (a, b) := p;
      MergeEdges(g, su, sv, a, b);
      if a == su && Edge(g, sv, b) {
        assert Relink(Norm(sv, b), su, sv) == p;
      } else if b == su && Edge(g, a, sv) {
        assert Relink(Norm(a, sv), su, sv) == p;
      } else {
        assert Relink(p, su, sv) == p;
      }
    }
  }

  /** The relinked image of every superedge before the merge is a superedge after it. */
  lemma MergeUEdgesOut(g: Adj<int>, su: int, sv: int)
    requires Undirected(g) && su != sv && !Edge(g, su, sv) && Row(g, su).Keys !! Row(g, sv).Keys
    ensures RelinkAll(UEdges(g), su, sv) <= UEdges(MergeAdj(g, su, sv))
  {
    var r := MergeAdj(g, su, sv);
    var es := UEdges(g);
    forall p | p in es
      ensures Relink(p, su, sv) in UEdges(r)
    {
      var (a, b) := p;
      if a == sv {
        MergeEdges(g, su, sv, su, b);
        MergeEdges(g, su, sv, b, su);
      } else if b == sv {
        MergeEdges(g, su, sv, su, a);
        MergeEdges(g, su, sv, a, su);
      } else {
        MergeEdges(g, su, sv, a, b);
      }
    }
  }

  /** Merging unconnected supernodes relinks superedges one for one. */
  lemma MergeUEdges(g: Adj<int>, su: int, sv: int)
    requires Undirected(g) && su != sv && !Edge(g, su, sv) && Row(g, su).Keys !! Row(g, sv).Keys
    ensures |UEdges(MergeAdj(g, su, sv))| == |UEdges(g)|
  {
    var r := MergeAdj(g, su, sv);
    var es := UEdges(g);
    MergeUEdgesIn(g, su, sv);
    MergeUEdgesOut(g, su, sv);
    assert UEdges(r) == RelinkAll(es, su, sv);
    forall p, q | p in es && q in es && Relink(p, su, sv) == Relink(q, su, sv)
      ensures p == q
    {
      RelinkNoCollision(g, su, sv, p, q);
    }
    RelinkCard(es, su, sv);
  }

  /** When su and sv share no neighbour, no two superedges are relinked onto the same one. */
  lemma RelinkNoCollision(g: Adj<int>, su: int, sv: int, p: (int, int), q: (int, int))
    requires Undirected(g) && su != sv && !Edge(g, su, sv) && Row(g, su).Keys !! Row(g, sv).Keys
    requires p in UEdges(g) && q in UEdges(g) && Relink(p, su, sv) == Relink(q, su, sv)
    ensures p == q
  {
    assert Edge(g, p.0, p.1) && Edge(g, q.0, q.1);
  }

  lemma ForestMergeEdges(g: Adj<int>, r: Adj<int>, nodes: set<int>, lab: map<int, int>, su: int, sv: int, lab': map<int, int>)
    requires ForestBy(g, nodes, lab) && Undirected(g) && su in nodes && sv in nodes && su != sv
    requires !Edge(g, su, sv) && Row(g, su).Keys !! Row(g, sv).Keys && lab[su] != lab[sv]
    requires r == MergeAdj(g, su, sv) && lab' == Relabel(lab, nodes - {sv}, lab[sv], lab[su])
    ensures EdgesInside(r, nodes - {sv}, lab')
  {
    forall a, b | Edge(r, a, b)
      ensures a in nodes - {sv} && b in nodes - {sv} && lab'[a] == lab'[b]
    {
      MergeEdges(g, su, sv, a, b);
    }
  }

  lemma ForestMergeReach(g: Adj<int>, r: Adj<int>, nodes: set<int>, lab: map<int, int>, su: int, sv: int, lab': map<int, int>)
    requires ForestBy(g, nodes, lab) && Undirected(g) && su in nodes && sv in nodes && su != sv
    requires !Edge(g, su, sv) && Row(g, su).Keys !! Row(g, sv).Keys
    requires r == MergeAdj(g, su, sv) && lab' == Relabel(lab, nodes - {sv}, lab[sv], lab[su])
    ensures LabelsConnected(r, nodes - {sv}, lab')
  {
    forall x, y | Edge(g, x, y)
      ensures Edge(r, Rename(su, sv, x), Rename(su, sv, y))
    {
      MergeEdges(g, su, sv, Rename(su, sv, x), Rename(su, sv, y));
      assert Edge(g, y, x);
    }
    forall a, b | a in nodes - {sv} && b in nodes - {sv} && lab'[a] == lab'[b]
      ensures Reach(r, a, b)
    {
      if lab[a] == lab[b] {
        ReachRenamed(g, r, su, sv, a, b);
      } else if lab[a] == lab[sv] {
        ReachRenamed(g, r, su, sv, a, sv);
        ReachRenamed(g, r, su, sv, su, b);
        ReachTrans(r, a, su, b);
      } else {
        ReachRenamed(g, r, su, sv, a, su);
        ReachRenamed(g, r, su, sv, sv, b);
        ReachTrans(r, a, su, b);
      }
    }
  }

  /** Merging two unconnected supernodes joins their components and drops sv. */
  lemma ForestMerge(g: Adj<int>, nodes: set<int>, lab: map<int, int>, su: int, sv: int)
    requires ForestBy(g, nodes, lab) && Undirected(g) && su in nodes && sv in nodes && su != sv && !Reach(g, su, sv)
    ensures ForestBy(MergeAdj(g, su, sv), nodes - {sv}, Relabel(lab, nodes - {sv}, lab[sv], lab[su]))
  {
    var r := MergeAdj(g, su, sv);
    var lab' := Relabel(lab, nodes - {sv}, lab[sv], lab[su]);
    LabelsAreComponents(g, nodes, lab, su, sv);
    NotAdjacent(g, su, sv);
    assert lab[su] != sv;
    RelabelIdempotent(lab, nodes - {sv}, lab[sv], lab[su], lab');
    ForestMergeEdges(g, r, nodes, lab, su, sv, lab');
    ForestMergeReach(g, r, nodes, lab, su, sv, lab');
    MergeUEdges(g, su, sv);
    RootsRelabel(lab, nodes - {sv}, lab[sv], lab[su]);
  }

  // ---------------------------------------------------------------------
  // Merging sv into su.

  /** Before the relinking loop nothing has changed. */
  lemma RelinkedNone(g: Adj<int>, su: int, sv: int)
    ensures Relinked(g, su, sv, {}) == g
  {
    var r := Relinked(g, su, sv, {});
    assert r.Keys == g.Keys;
    forall a | a in g
      ensures r[a] == g[a]
    {
    }
  }

  /** One turn of the relinking loop on a neighbour n other than su. */
  lemma RelinkedStep(g: Adj<int>, su: int, sv: int, d: set<int>, n: int)
    requires su != sv && sv !in Row(g, sv) && n != su
    requires d + {n} <= Row(g, sv).Keys && n !in d
    ensures var r := Relinked(g, su, sv, d);
      var t := Row(g, sv)[n];
      var r1 := r[su := Row(r, su)[n := t]];
      var r2 := r1[n := Row(r1, n)[su := t]];
      Relinked(g, su, sv, d + {n}) == r2[n := r2[n] - {sv}]
  {
    var r := Relinked(g, su, sv, d);
    var t := Row(g, sv)[n];
    var r1 := r[su := Row(r, su)[n := t]];
    var r2 := r1[n := Row(r1, n)[su := t]];
    var r3 := r2[n := r2[n] - {sv}];
    var moved := d - {su};
    assert (d + {n}) - {su} == moved + {n};
    var r' := Relinked(g, su, sv, d + {n});
    assert r'.Keys == r3.Keys;
    assert r3[su] == r'[su] by {
      assert Row(r, su) == RelinkedRow(g, su, sv, moved, su);
      RelinkedRowSu(g, su, sv, moved, n);
    }
    assert r3[n] == r'[n] by {
      assert Row(r1, n) == Row(g, n);
    }
    forall a | a in r' && a != su && a != n
      ensures r'[a] == r3[a]
    {
      assert r3[a] == r[a];
    }
  }

  /** Relinking neighbour n adds it to su's row. */
  lemma RelinkedRowSu(g: Adj<int>, su: int, sv: int, moved: set<int>, n: int)
    requires moved + {n} <= Row(g, sv).Keys
    ensures RelinkedRow(g, su, sv, moved + {n}, su) == RelinkedRow(g, su, sv, moved, su)[n := Row(g, sv)[n]]
  {
    assert (map x | x in moved + {n} :: Row(g, sv)[x]) == (map x | x in moved :: Row(g, sv)[x])[n := Row(g, sv)[n]];
  }

  /**
   * The relinking loop: every superedge (sv, n) with n other than su becomes
   * (su, n) in both directions with the same truss value, and n forgets sv.
   */
  method RelinkEdges(g: Adj<int>, su: int, sv: int) returns (r: Adj<int>)
    requires su != sv && sv !in Row(g, sv)
    ensures r == Relinked(g, su, sv, Row(g, sv).Keys)
  {
    var nb := Row(g, sv);
    var todo := nb.Keys;
    r := g;
    RelinkedNone(g, su, sv);
    assert nb.Keys - todo == {};
    while todo != {}
      invariant todo <= nb.Keys
      invariant r == Relinked(g, su, sv, nb.Keys - todo)
      decreases todo
    {
      NonemptyHasMember(todo);
      var nei :| nei in todo;
      ghost var d := nb.Keys - todo;
      todo := todo - {nei};
      assert nb.Keys - todo == d + {nei};
      if nei == su {
        assert (d + {nei}) - {su} == d - {su};
        continue;
      }
      RelinkedStep(g, su, sv, d, nei);
      var tval := nb[nei];
      r := r[su := Row(r, su)[nei := tval]];
      r := r[nei := Row(r, nei)[su := tval]];
      r := r[nei := r[nei] - {sv}];
    }
    assert nb.Keys - todo == nb.Keys;
  }

  /** `super_id_map` after the member loop: the members `m` of sv now map to su. */
  function MergedIds(ids: map<int, int>, m: set<int>, su: int): map<int, int>
  {
    map x | x in ids.Keys + m :: if x in m then su else ids[x]
  }

  /** The member loop of a merge: each member of sv is remapped to su and joins su's members. */
  method MergeMembers(ids: map<int, int>, nodes: map<int, SuperNode>, su: int, sv: int)
    returns (ids': map<int, int>, nodes': map<int, SuperNode>)
    requires su in nodes && sv in nodes && su != sv
    ensures ids' == MergedIds(ids, nodes[sv].members, su)
    ensures nodes' == nodes[su := SuperNode(nodes[su].members + nodes[sv].members, nodes[su].truss)]
  {
    var m := nodes[sv].members;
    var todo := m;
    ids', nodes' := ids, nodes;
    assert MergedIds(ids, {}, su) == ids;
    assert m - todo == {} && nodes[su].members + {} == nodes[su].members;
    assert nodes == nodes[su := SuperNode(nodes[su].members + {}, nodes[su].truss)];
    while todo != {}
      invariant todo <= m
      invariant ids' == MergedIds(ids, m - todo, su)
      invariant nodes' == nodes[su := SuperNode(nodes[su].members + (m - todo), nodes[su].truss)]
      decreases todo
    {
      NonemptyHasMember(todo);
      var node :| node in todo;
      ghost var done := m - todo;
      todo := todo - {node};
      assert m - todo == done + {node};
      assert MergedIds(ids, done + {node}, su) == MergedIds(ids, done, su)[node := su];
      ids' := ids'[node := su];
      assert nodes[su].members + (done + {node}) == (nodes[su].members + done) + {node};
      nodes' := nodes'[su := SuperNode(nodes'[su].members + {node}, nodes'[su].truss)];
    }
    assert m - todo == m;
  }

  /** Lines 315-331: sv's members and superedges move to su, and sv disappears. */
  method Merge(ids: map<int, int>, nodes: map<int, SuperNode>, sadj: Adj<int>, su: int, sv: int)
    returns (ids': map<int, int>, nodes': map<int, SuperNode>, sadj': Adj<int>)
    requires su in nodes && sv in nodes && su != sv && sv !in Row(sadj, sv)
    ensures ids' == MergedIds(ids, nodes[sv].members, su)
    ensures nodes' == (nodes - {sv})[su := SuperNode(nodes[su].members + nodes[sv].members, nodes[su].truss)]
    ensures sadj' == MergeAdj(sadj, su, sv)
  {
    ids', nodes' := MergeMembers(ids, nodes, su, sv);
    sadj' := RelinkEdges(sadj, su, sv);
    sadj' := sadj' - {sv};
    nodes' := nodes' - {sv};
  }

  // ---------------------------------------------------------------------
  // Supernodes.

  /** `truss_u`: the largest trussness on the node's edges, or 0. */
  ghost predicate IsNodeTruss(row: map<int, EdgeInfo>, t: int)
  {
    && t >= 0
    && (forall y :: y in row ==> row[y].value <= t)
    && (t == 0 || exists y :: y in row && row[y].value == t)
  }

  /** Lines 293-296: the maximum over a node's edges, starting from 0. */
  method NodeTruss(row: map<int, EdgeInfo>) returns (t: int)
    ensures IsNodeTruss(row, t)
  {
    t := 0;
    var todo := row.Keys;
    while todo != {}
      invariant todo <= row.Keys
      invariant t >= 0 && forall y :: y in row && y !in todo ==> row[y].value <= t
      invariant t == 0 || exists y :: y in row && row[y].value == t
      decreases todo
    {
      NonemptyHasMember(todo);
      var y :| y in todo;
      if row[y].value > t {
        t := row[y].value;
      }
      todo := todo - {y};
    }
  }

  /**
   * `super_id_map` and `supernodes` agree: every node maps to a supernode
   * that lists it, every member maps back to its supernode, and all members
   * of a supernode have the supernode's trussness as their node truss. A
   * supernode is named after one of its members.
   */
  ghost predicate Grouping(e: Ego, ids: map<int, int>, nodes: map<int, SuperNode>)
  {
    && ids.Keys == e.Keys
    && (forall s :: s in nodes ==> s in nodes[s].members)
    && (forall x :: x in ids ==> ids[x] in nodes && x in nodes[ids[x]].members)
    && (forall s, x :: s in nodes && x in nodes[s].members ==> x in e && ids[x] == s && IsNodeTruss(e[x], nodes[s].truss))
  }

  /** A supernode's trussness is that of its namesake member, so never negative. */
  lemma GroupingTruss(e: Ego, ids: map<int, int>, nodes: map<int, SuperNode>, s: int)
    requires Grouping(e, ids, nodes) && s in nodes
    ensures s in e && IsNodeTruss(e[s], nodes[s].truss) && nodes[s].truss >= 0
  {
    assert s in nodes[s].members;
  }

  /** Lines 292-299: every node is its own supernode, with its node truss. */
  method InitSupernodes(e: Ego) returns (ids: map<int, int>, nodes: map<int, SuperNode>)
    ensures ids == map u | u in e :: u
    ensures nodes.Keys == e.Keys
    ensures forall u :: u in e ==> nodes[u].members == {u} && IsNodeTruss(e[u], nodes[u].truss)
  {
    ids, nodes := map[], map[];
    var todo := e.Keys;
    while todo != {}
      invariant todo <= e.Keys
      invariant ids == map u | u in e && u !in todo :: u
      invariant nodes.Keys == e.Keys - todo
      invariant forall u :: u in nodes ==> nodes[u].members == {u} && IsNodeTruss(e[u], nodes[u].truss)
      decreases todo
    {
      NonemptyHasMember(todo);
      var u :| u in todo;
      var t := NodeTruss(e[u]);
      ids := ids[u := u];
      nodes := nodes[u := SuperNode({u}, t)];
      todo := todo - {u};
    }
  }

  lemma GroupingInit(e: Ego, ids: map<int, int>, nodes: map<int, SuperNode>)
    requires ids == map u | u in e :: u
    requires nodes.Keys == e.Keys
    requires forall u :: u in e ==> nodes[u].members == {u} && IsNodeTruss(e[u], nodes[u].truss)
    ensures Grouping(e, ids, nodes)
  {
  }

  /** Merging two supernodes of equal trussness keeps the grouping. */
  lemma GroupingMerge(e: Ego, ids: map<int, int>, nodes: map<int, SuperNode>, su: int, sv: int)
    requires Grouping(e, ids, nodes) && su in nodes && sv in nodes && su != sv
    requires nodes[su].truss == nodes[sv].truss
    ensures Grouping(e, MergedIds(ids, nodes[sv].members, su),
      (nodes - {sv})[su := SuperNode(nodes[su].members + nodes[sv].members, nodes[su].truss)])
  {
    var m := nodes[sv].members;
    var ids' := MergedIds(ids, m, su);
    var nodes' := (nodes - {sv})[su := SuperNode(nodes[su].members + m, nodes[su].truss)];
    forall x | x in m
      ensures x in ids && ids[x] == sv
    {
    }
    assert ids'.Keys == e.Keys;
    forall x | x in ids'
      ensures ids'[x] in nodes' && x in nodes'[ids'[x]].members
    {
      if x !in m {
        assert ids[x] != sv;
      }
    }
    forall s, x | s in nodes' && x in nodes'[s].members
      ensures x in e && ids'[x] == s && IsNodeTruss(e[x], nodes'[s].truss)
    {
      if s == su {
        if x in nodes[su].members {
          assert ids[x] == su;
        }
      } else {
        assert x in nodes[s].members && x !in m;
      }
    }
  }

  /** Every superedge joins two supernodes, and its trussness is at least 0
    * and at most the trussness of the supernode it leaves. */
  ghost predicate EdgesBelow(sadj: Adj<int>, nodes: map<int, SuperNode>)
  {
    forall a, b :: Edge(sadj, a, b) ==> a in nodes && b in nodes && 0 <= sadj[a][b] <= nodes[a].truss
  }

  /** A merge of equal-trussness supernodes keeps superedges below their endpoints. */
  lemma EdgesBelowMerge(sadj: Adj<int>, nodes: map<int, SuperNode>, su: int, sv: int, nodes': map<int, SuperNode>)
    requires EdgesBelow(sadj, nodes) && Undirected(sadj) && su in nodes && sv in nodes && su != sv
    requires !Edge(sadj, su, sv) && Row(sadj, su).Keys !! Row(sadj, sv).Keys
    requires nodes[su].truss == nodes[sv].truss
    requires nodes' == (nodes - {sv})[su := SuperNode(nodes[su].members + nodes[sv].members, nodes[su].truss)]
    ensures EdgesBelow(MergeAdj(sadj, su, sv), nodes')
  {
    var r := MergeAdj(sadj, su, sv);
    forall a, b | Edge(r, a, b)
      ensures a in nodes' && b in nodes' && 0 <= r[a][b] <= nodes'[a].truss
    {
      MergeEdges(sadj, su, sv, a, b);
      if a == su && Edge(sadj, sv, b) {
        assert b != sv;
      } else if b == su && Edge(sadj, a, sv) {
        assert a != sv && a != su;
        assert sadj[sv][a] == sadj[a][sv];
      }
    }
  }

  /** A superedge no heavier than either endpoint keeps superedges below their endpoints. */
  lemma EdgesBelowAdd(sadj: Adj<int>, nodes: map<int, SuperNode>, su: int, sv: int, t: int)
    requires EdgesBelow(sadj, nodes) && su in nodes && sv in nodes && su != sv
    requires 0 <= t <= nodes[su].truss && t <= nodes[sv].truss
    ensures EdgesBelow(AddEdge(sadj, su, sv, t), nodes)
  {
    var r := AddEdge(sadj, su, sv, t);
    forall a, b | Edge(r, a, b)
      ensures a in nodes && b in nodes && 0 <= r[a][b] <= nodes[a].truss
    {
      if !((a == su && b == sv) || (a == sv && b == su)) {
        assert Edge(sadj, a, b);
      }
    }
  }

  // ---------------------------------------------------------------------
  // The supergraph loop.

  /** The state of the loop: a consistent grouping and an undirected forest of superedges. */
  ghost predicate SuperOk(e: Ego, ids: map<int, int>, nodes: map<int, SuperNode>, sadj: Adj<int>, lab: map<int, int>)
  {
    Grouping(e, ids, nodes) && Undirected(sadj) && ForestBy(sadj, nodes.Keys, lab) && EdgesBelow(sadj, nodes)
  }

  /** Merging two disconnected supernodes of equal trussness keeps the loop state. */
  lemma SuperOkMerge(e: Ego, ids: map<int, int>, nodes: map<int, SuperNode>, sadj: Adj<int>, lab: map<int, int>, su: int, sv: int,
                     ids': map<int, int>, nodes': map<int, SuperNode>, sadj': Adj<int>, lab': map<int, int>)
    requires SuperOk(e, ids, nodes, sadj, lab) && su in nodes && sv in nodes && su != sv
    requires !Reach(sadj, su, sv) && nodes[su].truss == nodes[sv].truss
    requires ids' == MergedIds(ids, nodes[sv].members, su)
    requires nodes' == (nodes - {sv})[su := SuperNode(nodes[su].members + nodes[sv].members, nodes[su].truss)]
    requires sadj' == MergeAdj(sadj, su, sv) && lab' == Relabel(lab, nodes.Keys - {sv}, lab[sv], lab[su])
    ensures SuperOk(e, ids', nodes', sadj', lab')
  {
    var keys := nodes.Keys - {sv};
    assert nodes'.Keys == keys;
    GroupingMerge(e, ids, nodes, su, sv);
    NotAdjacent(sadj, su, sv);
    MergeUndirected(sadj, su, sv);
    EdgesBelowMerge(sadj, nodes, su, sv, nodes');
    ForestMerge(sadj, nodes.Keys, lab, su, sv);
    assert ForestBy(sadj', keys, lab');
  }

  /** Joining two disconnected supernodes by a superedge keeps the loop state. */
  lemma SuperOkAdd(e: Ego, ids: map<int, int>, nodes: map<int, SuperNode>, sadj: Adj<int>, lab: map<int, int>, su: int, sv: int, t: int)
    requires SuperOk(e, ids, nodes, sadj, lab) && su in nodes && sv in nodes && su != sv
    requires !Reach(sadj, su, sv) && 0 <= t <= nodes[su].truss && t <= nodes[sv].truss
    ensures SuperOk(e, ids, nodes, AddEdge(sadj, su, sv, t), Relabel(lab, nodes.Keys, lab[sv], lab[su]))
  {
    ForestAdd(sadj, nodes.Keys, lab, su, sv, t);
    AddUndirected(sadj, su, sv, t);
    EdgesBelowAdd(sadj, nodes, su, sv, t);
  }

  /** The state before the first edge: singleton supernodes and no superedges. */
  lemma SuperOkInit(e: Ego, ids: map<int, int>, nodes: map<int, SuperNode>, sadj: Adj<int>, lab: map<int, int>)
    requires ids == map u | u in e :: u
    requires nodes.Keys == e.Keys
    requires forall u :: u in e ==> nodes[u].members == {u} && IsNodeTruss(e[u], nodes[u].truss)
    requires sadj == map[] && lab == map x | x in nodes.Keys :: x
    ensures SuperOk(e, ids, nodes, sadj, lab)
  {
    GroupingInit(e, ids, nodes);
    ForestInit(nodes.Keys);
  }

  /** A truss-queue entry: an edge of the ego network, in both directions, with its trussness. */
  ghost predicate TrussEntry(e: Ego, x: Entry)
  {
    Edge(e, x.u, x.v) && Edge(e, x.v, x.u) && e[x.u][x.v].value == x.s && e[x.v][x.u].value == x.s && x.s >= 0
  }

  /** An entry's trussness is at most the trussness of either endpoint's supernode. */
  lemma EntryBelow(e: Ego, ids: map<int, int>, nodes: map<int, SuperNode>, x: Entry)
    requires Grouping(e, ids, nodes) && TrussEntry(e, x)
    ensures x.s <= nodes[ids[x.u]].truss && x.s <= nodes[ids[x.v]].truss
  {
    assert x.u in ids && x.v in ids;
    var su, sv := ids[x.u], ids[x.v];
    assert su in nodes && x.u in nodes[su].members;
    assert sv in nodes && x.v in nodes[sv].members;
    assert IsNodeTruss(e[x.u], nodes[su].truss) && IsNodeTruss(e[x.v], nodes[sv].truss);
  }

  /**
   * One popped edge (u, v) with trussness t (lines 303-336): skipped when u
   * and v already share a supernode or their supernodes are connected;
   * otherwise the supernodes merge when both have trussness t, and are
   * joined by a superedge of trussness t when not.
   */
  method AddTrussEdge(e: Ego, ids: map<int, int>, nodes: map<int, SuperNode>, sadj: Adj<int>, ghost lab: map<int, int>, x: Entry)
    returns (ids': map<int, int>, nodes': map<int, SuperNode>, sadj': Adj<int>, ghost lab': map<int, int>)
    requires SuperOk(e, ids, nodes, sadj, lab) && TrussEntry(e, x)
    ensures SuperOk(e, ids', nodes', sadj', lab')
    ensures var su, sv := ids[x.u], ids[x.v];
      if su == sv || Reach(sadj, su, sv) then ids' == ids && nodes' == nodes && sadj' == sadj
      else if nodes[su].truss == nodes[sv].truss && nodes[su].truss == x.s then
        && ids' == MergedIds(ids, nodes[sv].members, su)
        && nodes' == (nodes - {sv})[su := SuperNode(nodes[su].members + nodes[sv].members, nodes[su].truss)]
        && sadj' == MergeAdj(sadj, su, sv)
      else ids' == ids && nodes' == nodes && sadj' == AddEdge(sadj, su, sv, x.s)
  {
    ids', nodes', sadj', lab' := ids, nodes, sadj, lab;
    var su, sv := ids[x.u], ids[x.v];
    if su == sv {
      return;
    }
    var connected := IsConnected(sadj, su, sv);
    if connected {
      return;
    }
    if nodes[su].truss == nodes[sv].truss && nodes[su].truss == x.s {
      ids', nodes', sadj' := Merge(ids, nodes, sadj, su, sv);
      lab' := Relabel(lab, nodes.Keys - {sv}, lab[sv], lab[su]);
      SuperOkMerge(e, ids, nodes, sadj, lab, su, sv, ids', nodes', sadj', lab');
    } else {
      sadj' := AddEdge(sadj, su, sv, x.s);
      lab' := Relabel(lab, nodes.Keys, lab[sv], lab[su]);
      EntryBelow(e, ids, nodes, x);
      SuperOkAdd(e, ids, nodes, sadj, lab, su, sv, x.s);
    }
  }

  /** `top` and `pop` of the max-heap: an entry with the largest key, and the others. */
  method PopMax(q: seq<Entry>) returns (top: Entry, rest: seq<Entry>)
    requires q != []
    ensures forall y :: y in q ==> y.s <= top.s
    ensures multiset(rest) + multiset{top} == multiset(q)
  {
    var i := 0;
    var j := 1;
    while j < |q|
      invariant 0 <= i < j <= |q|
      invariant forall k :: 0 <= k < j ==> q[k].s <= q[i].s
    {
      if q[i].s < q[j].s {
        i := j;
      }
      j := j + 1;
    }
    top, rest := q[i], q[..i] + q[i + 1..];
    assert q == q[..i] + [q[i]] + q[i + 1..];
  }
}
