/**
 * Ego networks of the structural-diversity index (`build_egonetwork`).
 * The ego network of a vertex `w` holds every edge of the graph whose two
 * endpoints are both neighbours of `w`; each edge carries a record
 * (value, finalized), where the value is first the edge's support inside
 * the ego network and later its trussness.
 */
module EgoNetwork {
  import opened Intersection
  import opened MapGraph

  /** The `pair<int,bool>` stored per directed edge: value and "trussness final". */
  datatype EdgeInfo = EdgeInfo(value: int, finalized: bool)

  /** `{u, {v, info}}`: an ego network as nested maps. */
  type Ego = Adj<EdgeInfo>

  /** An ego network proper: undirected, loop-free, no isolated entries, and
    * both directions of an edge carry the same record. */
  ghost predicate WellFormed(e: Ego)
  {
    && Symmetric(e)
    && (forall a :: a in e ==> a !in e[a] && |e[a]| != 0)
    && (forall a, b :: a in e && b in e[a] ==> b in e && a in e[b] && e[b][a] == e[a][b])
  }

  /** Same nodes, same neighbour sets: only the records may differ. */
  ghost predicate SameShape(e: Ego, r: Ego)
  {
    && r.Keys == e.Keys
    && (forall a :: a in e ==> r[a].Keys == e[a].Keys)
  }

  lemma SameShapeTrans(e: Ego, e2: Ego, e3: Ego)
    requires SameShape(e, e2) && SameShape(e2, e3)
    ensures SameShape(e, e3)
  {
  }

  /** The support of edge (a, b) in an ego network: how many nodes are adjacent to both. */
  function Support(e: Ego, a: int, b: int): nat
    requires a in e && b in e
  {
    |e[a].Keys * e[b].Keys|
  }

  lemma SupportSymmetric(e: Ego, a: int, b: int)
    requires a in e && b in e
    ensures Support(e, a, b) == Support(e, b, a)
  {
    assert e[a].Keys * e[b].Keys == e[b].Keys * e[a].Keys;
  }

  /** Store `info` on both directions of the edge between `a` and `b`, creating entries as needed. */
  function PutBoth(e: Ego, a: int, b: int, info: EdgeInfo): (r: Ego)
    ensures r.Keys == e.Keys + {a, b}
    ensures forall x, y :: Edge(r, x, y) <==> Edge(e, x, y) || (x == a && y == b) || (x == b && y == a)
    ensures Edge(r, a, b) && Edge(r, b, a) && r[a][b] == info && r[b][a] == info
    ensures forall x, y :: Edge(e, x, y) && !((x == a && y == b) || (x == b && y == a)) ==>
      Edge(r, x, y) && r[x][y] == e[x][y]
  {
    var e1 := e[a := (if a in e then e[a] else map[])[b := info]];
    e1[b := (if b in e1 then e1[b] else map[])[a := info]]
  }

  /** Overwrite the value of the directed edge (a, b), keeping its flag. */
  function PutValue(e: Ego, a: int, b: int, x: int): (r: Ego)
    requires Edge(e, a, b)
    ensures SameShape(e, r)
    ensures r[a][b] == e[a][b].(value := x)
    ensures forall p, q :: Edge(e, p, q) && (p != a || q != b) ==> r[p][q] == e[p][q]
  {
    e[a := e[a][b := e[a][b].(value := x)]]
  }

  /** Changing the record of an existing edge leaves the shape alone. */
  lemma PutBothShape(e: Ego, a: int, b: int, info: EdgeInfo)
    requires Edge(e, a, b) && Edge(e, b, a)
    ensures SameShape(e, PutBoth(e, a, b, info))
  {
    var r := PutBoth(e, a, b, info);
    forall x | x in e
      ensures r[x].Keys == e[x].Keys
    {
      forall y
        ensures y in r[x] <==> y in e[x]
      {
        assert Edge(r, x, y) <==> Edge(e, x, y);
      }
    }
  }

  /** Shape is all that well-formedness depends on, apart from symmetric records. */
  lemma WellFormedPutBoth(e: Ego, a: int, b: int, info: EdgeInfo)
    requires WellFormed(e) && Edge(e, a, b)
    ensures WellFormed(PutBoth(e, a, b, info))
  {
    var r := PutBoth(e, a, b, info);
    PutBothShape(e, a, b, info);
    forall x, y | x in r && y in r[x]
      ensures y in r && x in r[y] && r[y][x] == r[x][y]
    {
      assert Edge(e, x, y) && Edge(r, y, x);
    }
  }

  // ---------------------------------------------------------------------
  // Phase 1: distribute every edge to the ego networks of its endpoints'
  // common neighbours.

  /** `b` appears in the neighbour list of vertex `a`. */
  predicate Listed(adj: seq<seq<int>>, a: int, b: int)
  {
    0 <= a < |adj| && b in adj[a]
  }

  /** An edge as the outer loop sees it: listed by its smaller endpoint. */
  predicate GraphEdge(adj: seq<seq<int>>, a: int, b: int)
  {
    (a < b && Listed(adj, a, b)) || (b < a && Listed(adj, b, a))
  }

  /** Edge (a, b) belongs to the ego network of `w`: `w` is adjacent to both endpoints. */
  predicate InEgo(adj: seq<seq<int>>, w: int, a: int, b: int)
  {
    GraphEdge(adj, a, b) && Listed(adj, a, w) && Listed(adj, b, w)
  }

  /** Edge (a, b) was reached by the outer loops before position (i, k). */
  predicate Visited(adj: seq<seq<int>>, i: int, k: int, a: int, b: int)
    requires 0 <= i <= |adj|
    requires i < |adj| ==> 0 <= k <= |adj[i]|
  {
    && GraphEdge(adj, a, b)
    && var lo, hi := if a < b then a else b, if a < b then b else a;
      lo < i || (lo == i && i < |adj| && hi in adj[i][..k])
  }

  /** Every record is (0, false). */
  ghost predicate AllZero(egos: seq<Ego>)
  {
    forall w, a, b :: 0 <= w < |egos| && Edge(egos[w], a, b) ==> egos[w][a][b] == EdgeInfo(0, false)
  }

  /** No node of an ego network is without neighbours. */
  ghost predicate NoneIsolated(egos: seq<Ego>)
  {
    forall w, a :: 0 <= w < |egos| && a in egos[w] ==> |egos[w][a]| != 0
  }

  /** Edge (a, b) should be in the ego network of `w` at this point of the
    * first phase: it was visited and `w` is adjacent to both endpoints, or
    * it is the pending edge and `w` is among the first `m` common neighbours. */
  predicate Covered(adj: seq<seq<int>>, i: int, k: int, pending: seq<int>, m: int, w: int, a: int, b: int)
    requires 0 <= i <= |adj|
    requires i < |adj| ==> 0 <= k <= |adj[i]|
    requires 0 <= m <= |pending|
    requires m > 0 ==> i < |adj| && k < |adj[i]|
  {
    (Visited(adj, i, k, a, b) && Listed(adj, a, w) && Listed(adj, b, w))
    || (m > 0 && ((a == i && b == adj[i][k]) || (a == adj[i][k] && b == i)) && w in pending[..m])
  }

  /** The ego networks hold exactly the covered edges. */
  ghost predicate SpreadEdges(adj: seq<seq<int>>, egos: seq<Ego>, i: int, k: int, pending: seq<int>, m: int)
    requires 0 <= i <= |adj|
    requires i < |adj| ==> 0 <= k <= |adj[i]|
    requires 0 <= m <= |pending|
    requires m > 0 ==> i < |adj| && k < |adj[i]|
  {
    forall w, a, b :: 0 <= w < |egos| ==> (Edge(egos[w], a, b) <==> Covered(adj, i, k, pending, m, w, a, b))
  }

  /** The state of the first phase at position (i, k), common neighbour `m`. */
  ghost predicate Spread(adj: seq<seq<int>>, egos: seq<Ego>, i: int, k: int, pending: seq<int>, m: int)
    requires 0 <= i <= |adj|
    requires i < |adj| ==> 0 <= k <= |adj[i]|
  {
    && |egos| == |adj|
    && 0 <= m <= |pending|
    && (m > 0 ==> i < |adj| && k < |adj[i]| && i < adj[i][k])
    && SpreadEdges(adj, egos, i, k, pending, m)
    && AllZero(egos)
    && NoneIsolated(egos)
  }

  /** Moving past position k of `adj[i]` once the pending edge is fully spread. */
  lemma VisitedStep(adj: seq<seq<int>>, i: int, k: int, a: int, b: int)
    requires 0 <= i < |adj| && 0 <= k < |adj[i]|
    ensures Visited(adj, i, k + 1, a, b) <==>
      Visited(adj, i, k, a, b)
      || (i < adj[i][k] && ((a == i && b == adj[i][k]) || (a == adj[i][k] && b == i)))
  {
    assert adj[i][..k + 1] == adj[i][..k] + [adj[i][k]];
  }

  /** Moving from the end of `adj[i]` to the start of `adj[i + 1]`. */
  lemma VisitedNextRow(adj: seq<seq<int>>, i: int, a: int, b: int)
    requires 0 <= i < |adj|
    ensures Visited(adj, i, |adj[i]|, a, b) <==> Visited(adj, i + 1, 0, a, b)
  {
    assert adj[i][..|adj[i]|] == adj[i];
  }

  lemma SpreadInit(adj: seq<seq<int>>)
    ensures Spread(adj, seq(|adj|, _ => map[]), 0, 0, [], 0)
  {
  }

  /** Adding an edge with record (0, false) keeps every record (0, false) and no node isolated. */
  lemma PutZero(egos: seq<Ego>, w: int, i: int, j: int)
    requires AllZero(egos) && NoneIsolated(egos) && 0 <= w < |egos|
    ensures AllZero(egos[w := PutBoth(egos[w], i, j, EdgeInfo(0, false))])
    ensures NoneIsolated(egos[w := PutBoth(egos[w], i, j, EdgeInfo(0, false))])
  {
    var egos' := egos[w := PutBoth(egos[w], i, j, EdgeInfo(0, false))];
    forall w', a, b | 0 <= w' < |egos'| && Edge(egos'[w'], a, b)
      ensures egos'[w'][a][b] == EdgeInfo(0, false)
    {
      if w' == w && !((a == i && b == j) || (a == j && b == i)) {
        assert Edge(egos[w], a, b);
      }
    }
    forall w', a | 0 <= w' < |egos'| && a in egos'[w']
      ensures |egos'[w'][a]| != 0
    {
      if w' == w && a == i {
        assert j in egos'[w'][a];
      } else if w' == w && a == j {
        assert i in egos'[w'][a];
      } else {
        assert a in egos[w'] && |egos[w'][a].Keys| != 0;
        NonemptyHasMember(egos[w'][a].Keys);
        var b :| b in egos[w'][a];
        assert Edge(egos[w'], a, b);
      }
    }
  }

  /** Adding the pending edge to the ego network of the next common neighbour. */
  lemma SpreadPut(adj: seq<seq<int>>, egos: seq<Ego>, i: int, k: int, common: seq<int>, m: int)
    requires 0 <= i < |adj| && 0 <= k < |adj[i]| && i < adj[i][k]
    requires Spread(adj, egos, i, k, common, m) && m < |common|
    requires 0 <= common[m] < |egos|
    ensures Spread(adj, egos[common[m] := PutBoth(egos[common[m]], i, adj[i][k], EdgeInfo(0, false))], i, k, common, m + 1)
  {
    var j, w := adj[i][k], common[m];
    var egos' := egos[w := PutBoth(egos[w], i, j, EdgeInfo(0, false))];
    PutZero(egos, w, i, j);
    assert common[..m + 1] == common[..m] + [w];
    forall w', a, b | 0 <= w' < |egos'|
      ensures Edge(egos'[w'], a, b) <==> Covered(adj, i, k, common, m + 1, w', a, b)
    {
      assert Covered(adj, i, k, common, m, w', a, b) ==> Edge(egos[w'], a, b);
      if w' == w {
        assert Edge(egos'[w'], a, b) <==> Edge(egos[w], a, b) || (a == i && b == j) || (a == j && b == i);
        assert w in common[..m + 1];
      } else {
        assert egos'[w'] == egos[w'];
        assert w' in common[..m + 1] <==> w' in common[..m];
      }
    }
  }

  /** Once the pending edge reached every common neighbour, position k is done. */
  lemma SpreadFinish(adj: seq<seq<int>>, egos: seq<Ego>, i: int, k: int, common: seq<int>)
    requires 0 <= i < |adj| && 0 <= k < |adj[i]| && i < adj[i][k] < |adj|
    requires common == Common(adj[i], adj[adj[i][k]])
    requires Spread(adj, egos, i, k, common, |common|)
    ensures Spread(adj, egos, i, k + 1, [], 0)
  {
    var j := adj[i][k];
    assert common[..|common|] == common;
    forall w, a, b | 0 <= w < |egos|
      ensures Edge(egos[w], a, b) <==> Covered(adj, i, k + 1, [], 0, w, a, b)
    {
      assert Edge(egos[w], a, b) <==> Covered(adj, i, k, common, |common|, w, a, b);
      VisitedStep(adj, i, k, a, b);
      CommonMembers(adj[i], adj[j], w);
    }
  }

  /** A neighbour not above `i` is skipped. */
  lemma SpreadSkip(adj: seq<seq<int>>, egos: seq<Ego>, i: int, k: int)
    requires 0 <= i < |adj| && 0 <= k < |adj[i]| && adj[i][k] <= i
    requires Spread(adj, egos, i, k, [], 0)
    ensures Spread(adj, egos, i, k + 1, [], 0)
  {
    forall w, a, b | 0 <= w < |egos|
      ensures Edge(egos[w], a, b) <==> Covered(adj, i, k + 1, [], 0, w, a, b)
    {
      assert Edge(egos[w], a, b) <==> Covered(adj, i, k, [], 0, w, a, b);
      VisitedStep(adj, i, k, a, b);
    }
  }

  lemma SpreadNextRow(adj: seq<seq<int>>, egos: seq<Ego>, i: int)
    requires 0 <= i < |adj|
    requires Spread(adj, egos, i, |adj[i]|, [], 0)
    ensures Spread(adj, egos, i + 1, 0, [], 0)
  {
    forall w, a, b | 0 <= w < |egos|
      ensures Edge(egos[w], a, b) <==> Covered(adj, i + 1, 0, [], 0, w, a, b)
    {
      assert Edge(egos[w], a, b) <==> Covered(adj, i, |adj[i]|, [], 0, w, a, b);
      VisitedNextRow(adj, i, a, b);
    }
  }

  /** After the last row every graph edge has been spread: the ego networks are exact. */
  lemma SpreadDone(adj: seq<seq<int>>, egos: seq<Ego>)
    requires Spread(adj, egos, |adj|, 0, [], 0)
    ensures forall w, a, b :: 0 <= w < |egos| ==> (Edge(egos[w], a, b) <==> InEgo(adj, w, a, b))
    ensures forall w :: 0 <= w < |egos| ==> WellFormed(egos[w])
  {
    forall w, a, b | 0 <= w < |egos|
      ensures Edge(egos[w], a, b) <==> InEgo(adj, w, a, b)
    {
      assert Edge(egos[w], a, b) <==> Covered(adj, |adj|, 0, [], 0, w, a, b);
      assert Visited(adj, |adj|, 0, a, b) <==> GraphEdge(adj, a, b);
    }
    forall w | 0 <= w < |egos|
      ensures WellFormed(egos[w])
    {
      forall a, b | a in egos[w] && b in egos[w][a]
        ensures b in egos[w] && a in egos[w][b] && egos[w][b][a] == egos[w][a][b]
      {
        assert InEgo(adj, w, a, b) && InEgo(adj, w, b, a);
      }
      forall a | a in egos[w]
        ensures a !in egos[w][a]
      {
        assert !InEgo(adj, w, a, a);
      }
    }
  }

  /** The first phase of `build_egonetwork`: for every edge (i, j) with
    * i < j, found in `adj[i]`, and every common neighbour `w`, add the
    * edge to `w`'s ego network with record (0, false). */
  method DistributeEdges(adj: seq<seq<int>>) returns (egos: seq<Ego>)
    requires forall i, j :: 0 <= i < |adj| && j in adj[i] ==> 0 <= j < |adj|
    ensures |egos| == |adj|
    ensures forall w, a, b :: 0 <= w < |egos| ==> (Edge(egos[w], a, b) <==> InEgo(adj, w, a, b))
    ensures forall w, a, b :: 0 <= w < |egos| && Edge(egos[w], a, b) ==> egos[w][a][b] == EdgeInfo(0, false)
    ensures forall w :: 0 <= w < |egos| ==> WellFormed(egos[w])
  {
    egos := seq(|adj|, _ => map[]);
    SpreadInit(adj);
    var i := 0;
    while i < |adj|
      invariant 0 <= i <= |adj|
      invariant Spread(adj, egos, i, 0, [], 0)
    {
      var k := 0;
      while k < |adj[i]|
        invariant 0 <= k <= |adj[i]|
        invariant Spread(adj, egos, i, k, [], 0)
      {
        var j := adj[i][k];
        assert j in adj[i];
        if i < j {
          var common := FindIntersection(adj[i], adj[j]);
          var m := 0;
          while m < |common|
            invariant 0 <= m <= |common|
            invariant Spread(adj, egos, i, k, common, m)
          {
            var w := common[m];
            CommonMembers(adj[i], adj[j], w);
            assert w in adj[i];
            SpreadPut(adj, egos, i, k, common, m);
            egos := egos[w := PutBoth(egos[w], i, j, EdgeInfo(0, false))];
            m := m + 1;
          }
          SpreadFinish(adj, egos, i, k, common);
        } else {
          SpreadSkip(adj, egos, i, k);
        }
        k := k + 1;
      }
      SpreadNextRow(adj, egos, i);
      i := i + 1;
    }
    SpreadDone(adj, egos);
  }

  // ---------------------------------------------------------------------
  // Phase 2: supports.

  /** The keys of a neighbour map, listed once each in some order. */
  method KeysOf(m: map<int, EdgeInfo>) returns (s: seq<int>)
    ensures NoDup(s)
    ensures forall x :: x in s <==> x in m
  {
    s := [];
    var rest := m.Keys;
    while rest != {}
      invariant rest <= m.Keys
      invariant NoDup(s)
      invariant forall x :: x in s <==> x in m && x !in rest
      decreases rest
    {
      NonemptyHasMember(rest);
      var x :| x in rest;
      s := s + [x];
      rest := rest - {x};
    }
  }

  /** The keys listed by `KeysOf`, seen as a set. */
  lemma KeysOfSet(s: seq<int>, m: map<int, EdgeInfo>)
    requires forall x :: x in s <==> x in m
    ensures Elems(s) == m.Keys
  {
    forall x
      ensures x in Elems(s) <==> x in m
    {
    }
  }

  /** Edge (a, b) already carries its support once its smaller endpoint is done
    * (or it is the smaller endpoint `u` being processed and `b` has been handled). */
  ghost predicate SupportsUpTo(e: Ego, r: Ego, done: set<int>, u: int, doneV: set<int>)
    requires Symmetric(e)
  {
    && SameShape(e, r)
    && (forall a, b :: Edge(e, a, b) ==>
         r[a][b] == (if a != b && ((if a < b then a else b) in done
                                    || ((if a < b then a else b) == u && (if a < b then b else a) in doneV))
                     then e[a][b].(value := Support(e, a, b))
                     else e[a][b]))
  }

  /** Starting a row changes nothing yet. */
  lemma SupportsRowStart(e: Ego, r: Ego, done: set<int>, u: int)
    requires Symmetric(e) && SupportsUpTo(e, r, done, -1, {})
    ensures SupportsUpTo(e, r, done, u, {})
  {
  }

  /** Handling neighbour `v` of the current node `u`. */
  lemma SupportsStep(e: Ego, r: Ego, done: set<int>, u: int, doneV: set<int>, v: int)
    requires Symmetric(e) && SupportsUpTo(e, r, done, u, doneV)
    requires u in e && v in e[u] && u !in done && v !in doneV
    ensures u < v ==> SupportsUpTo(e, PutValue(PutValue(r, u, v, Support(e, u, v)), v, u, Support(e, u, v)), done, u, doneV + {v})
    ensures v <= u ==> SupportsUpTo(e, r, done, u, doneV + {v})
  {
    if u < v {
      var r1 := PutValue(r, u, v, Support(e, u, v));
      var r' := PutValue(r1, v, u, Support(e, u, v));
      SupportSymmetric(e, u, v);
      forall a, b | Edge(e, a, b)
        ensures r'[a][b] == (if a != b && ((if a < b then a else b) in done
                                    || ((if a < b then a else b) == u && (if a < b then b else a) in doneV + {v}))
                     then e[a][b].(value := Support(e, a, b))
                     else e[a][b])
      {
        if a == u && b == v {
          assert r[u][v] == e[u][v];
        } else if a == v && b == u {
          assert r[v][u] == e[v][u];
        } else {
          assert Edge(r, a, b);
        }
      }
    }
  }

  /** After every neighbour of `u`, the node `u` is done. */
  lemma SupportsRowDone(e: Ego, r: Ego, done: set<int>, u: int)
    requires Symmetric(e) && u in e && SupportsUpTo(e, r, done, u, e[u].Keys)
    ensures SupportsUpTo(e, r, done + {u}, -1, {})
  {
    forall a, b | Edge(e, a, b)
      ensures r[a][b] == (if a != b && ((if a < b then a else b) in done + {u})
                     then e[a][b].(value := Support(e, a, b))
                     else e[a][b])
    {
      if a == u || b == u {
        assert Edge(e, u, if a == u then b else a);
      }
    }
  }

  /** `findintersectionnum` of `u`'s key list and `v`'s key list: the support of (u, v). */
  method CommonNeighbourCount(nbrsU: seq<int>, r: Ego, u: int, v: int) returns (support: int)
    requires u in r && v in r
    requires forall x :: x in nbrsU <==> x in r[u]
    ensures support == Support(r, u, v)
  {
    var nbrsV := KeysOf(r[v]);
    support := FindIntersectionNum(nbrsU, nbrsV);
    CommonCount(nbrsU, nbrsV);
    KeysOfSet(nbrsU, r[u]);
    KeysOfSet(nbrsV, r[v]);
  }

  /** Support depends on the shape only. */
  lemma SupportSameShape(e: Ego, r: Ego, u: int, v: int)
    requires SameShape(e, r) && u in e && v in e
    ensures Support(r, u, v) == Support(e, u, v)
  {
  }

  lemma SupportsAllDone(e: Ego, r: Ego)
    requires Symmetric(e) && SupportsUpTo(e, r, e.Keys, -1, {})
    ensures SameShape(e, r)
    ensures forall a, b :: Edge(e, a, b) ==>
      r[a][b] == (if a != b then e[a][b].(value := Support(e, a, b)) else e[a][b])
  {
  }

  /** The body of the inner loop of the second phase: when u < v, store the
    * support of (u, v) on both directions of the edge. */
  method SupportForEdge(e: Ego, r0: Ego, nbrsU: seq<int>, ghost done: set<int>, u: int, ghost doneV: set<int>, v: int)
    returns (r: Ego)
    requires Symmetric(e) && SupportsUpTo(e, r0, done, u, doneV)
    requires u in e && v in e[u] && u !in done && v !in doneV
    requires forall x :: x in nbrsU <==> x in e[u]
    ensures SupportsUpTo(e, r, done, u, doneV + {v})
  {
    r := r0;
    SupportsStep(e, r, done, u, doneV, v);
    if u < v {
      var support := CommonNeighbourCount(nbrsU, r, u, v);
      SupportSameShape(e, r, u, v);
      r := PutValue(r, u, v, support);
      r := PutValue(r, v, u, support);
    }
  }

  /** The body of the outer loop of the second phase: give every edge
    * (u, v) with u < v its support, in both directions. */
  method SupportsForNode(e: Ego, r0: Ego, ghost done: set<int>, u: int) returns (r: Ego)
    requires Symmetric(e) && SupportsUpTo(e, r0, done, -1, {})
    requires u in e && u !in done
    ensures SupportsUpTo(e, r, done + {u}, -1, {})
  {
    r := r0;
    var nbrsU := KeysOf(r[u]);
    var todoV := r[u].Keys;
    ghost var doneV: set<int> := {};
    SupportsRowStart(e, r, done, u);
    while todoV != {}
      invariant todoV <= e[u].Keys && doneV == e[u].Keys - todoV
      invariant SupportsUpTo(e, r, done, u, doneV)
      decreases todoV
    {
      NonemptyHasMember(todoV);
      var v :| v in todoV;
      todoV := todoV - {v};
      r := SupportForEdge(e, r, nbrsU, done, u, doneV, v);
      doneV := doneV + {v};
    }
    SupportsRowDone(e, r, done, u);
  }

  /** The second phase of `build_egonetwork` on one ego network: every edge
    * (u, v) with u < v gets, in both directions, the number of common
    * neighbours of u and v as its value; the finalized flags are untouched. */
  method ComputeSupports(e: Ego) returns (r: Ego)
    requires Symmetric(e)
    ensures SameShape(e, r)
    ensures forall a, b :: Edge(e, a, b) ==>
      r[a][b] == (if a != b then e[a][b].(value := Support(e, a, b)) else e[a][b])
  {
    r := e;
    var todo := e.Keys;
    ghost var done: set<int> := {};
    while todo != {}
      invariant todo <= e.Keys && done == e.Keys - todo
      invariant SupportsUpTo(e, r, done, -1, {})
      decreases todo
    {
      NonemptyHasMember(todo);
      var u :| u in todo;
      todo := todo - {u};
      r := SupportsForNode(e, r, done, u);
      done := done + {u};
    }
    SupportsAllDone(e, r);
  }
}
