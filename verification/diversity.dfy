/**
 * Structural diversity read off the supergraph index, and the naive
 * recount it replaces. The index keeps, per ego network, how many
 * supernodes (`node_truss_num`) and how many superedges (`edge_truss_num`)
 * carry each trussness; the score for `k` is the supernodes of trussness at
 * least `k` minus the superedges of trussness at least `k`.
 */
module Diversity {
  import opened MapGraph
  import opened EgoNetwork
  import opened SuperGraph

  // ---------------------------------------------------------------------
  // Histograms.

  /** How many keys of `vals` carry the value `j`. */
  ghost function CountOf<K>(vals: map<K, int>, j: int): nat
  {
    |set x | x in vals && vals[x] == j|
  }

  /** How many keys of `vals` carry a value of at least `k`. */
  ghost function CountFrom<K>(vals: map<K, int>, k: int): nat
  {
    |set x | x in vals && vals[x] >= k|
  }

  /**
   * `tbl` is the histogram of `vals` as the resize-and-increment loop
   * leaves it: entry `j` counts the keys of value `j`, and the table is
   * exactly long enough for the largest value (empty for no values).
   */
  ghost predicate Tabulates<K>(tbl: seq<int>, vals: map<K, int>)
  {
    && (forall x :: x in vals ==> 0 <= vals[x] < |tbl|)
    && (|tbl| == 0 || tbl[|tbl| - 1] > 0)
    && (forall j :: 0 <= j < |tbl| ==> tbl[j] == CountOf(vals, j))
  }

  /** The histogram grown with zeros to cover slot `t`, with slot `t` one higher. */
  function Bumped(tbl: seq<int>, t: nat): seq<int>
  {
    var grown := if t < |tbl| then tbl else tbl + seq(t + 1 - |tbl|, _ => 0);
    grown[t := grown[t] + 1]
  }

  /** One more key of value `t` adds one to the count of `t` and leaves the others. */
  lemma CountOfAdd<K>(vals: map<K, int>, x: K, t: int, j: int)
    requires x !in vals
    ensures CountOf(vals[x := t], j) == CountOf(vals, j) + (if j == t then 1 else 0)
  {
    var vals' := vals[x := t];
    var old_ := set y | y in vals && vals[y] == j;
    var new_ := set y | y in vals' && vals'[y] == j;
    if j == t {
      assert new_ == old_ + {x};
    } else {
      assert new_ == old_;
    }
  }

  /** No key has a value beyond the table. */
  lemma CountOfBeyond<K>(tbl: seq<int>, vals: map<K, int>, j: int)
    requires Tabulates(tbl, vals) && j >= |tbl|
    ensures CountOf(vals, j) == 0
  {
    var at := set y | y in vals && vals[y] == j;
    assert at == {} by {
      forall y | y in at
        ensures false
      {
      }
    }
  }

  /** Counting one more key of value `t` keeps the histogram exact. */
  lemma TabulatesAdd<K>(tbl: seq<int>, vals: map<K, int>, x: K, t: nat)
    requires Tabulates(tbl, vals) && x !in vals
    ensures Tabulates(Bumped(tbl, t), vals[x := t])
  {
    var r := Bumped(tbl, t);
    forall j | 0 <= j < |r|
      ensures r[j] == CountOf(vals[x := t], j)
    {
      CountOfAdd(vals, x, t, j);
      if j >= |tbl| {
        CountOfBeyond(tbl, vals, j);
      }
    }
  }

  /** The histogram with no values. */
  lemma TabulatesNone<K>(vals: map<K, int>)
    requires vals == map[]
    ensures Tabulates([], vals)
  {
  }

  /** Lines 342-343: counting one more key, of value `t`, growing the histogram when needed. */
  method Increment<K>(tbl: seq<int>, ghost vals: map<K, int>, ghost x: K, t: int) returns (r: seq<int>)
    requires Tabulates(tbl, vals) && x !in vals && t >= 0
    ensures Tabulates(r, vals[x := t])
  {
    r := tbl;
    if t >= |r| {
      r := r + seq(t + 1 - |r|, _ => 0);
    }
    r := r[t := r[t] + 1];
    assert r == Bumped(tbl, t);
    TabulatesAdd(tbl, vals, x, t);
  }

  /** The sum of the histogram from slot `k` to its end. The source compares the
    * signed start with the unsigned size, so a negative `k` sums nothing. */
  function SumFrom(tbl: seq<int>, k: int): int
    decreases |tbl| - k
  {
    if k < 0 || k >= |tbl| then 0 else tbl[k] + SumFrom(tbl, k + 1)
  }

  /** The tail sum of a histogram counts the keys of value at least `k`. */
  lemma {:induction false} SumCounts<K>(tbl: seq<int>, vals: map<K, int>, k: int)
    requires Tabulates(tbl, vals) && k >= 0
    ensures SumFrom(tbl, k) == CountFrom(vals, k)
    decreases |tbl| - k
  {
    var above := set x | x in vals && vals[x] >= k;
    if k >= |tbl| {
      assert above == {} by {
        forall x | x in above
          ensures false
        {
        }
      }
    } else {
      SumCounts(tbl, vals, k + 1);
      var at := set x | x in vals && vals[x] == k;
      var higher := set x | x in vals && vals[x] >= k + 1;
      assert above == at + higher;
      assert at !! higher;
    }
  }

  // ---------------------------------------------------------------------
  // Tallies of the supergraph (lines 340-358).

  /** The trussness of each supernode in `done`. */
  ghost function TrussOn(nodes: map<int, SuperNode>, done: set<int>): map<int, int>
  {
    map s | s in nodes && s in done :: nodes[s].truss
  }

  /** Each undirected superedge (a, b), a < b, with its trussness, out of those in `seen`. */
  ghost function Tallied(sadj: Adj<int>, seen: set<(int, int)>): map<(int, int), int>
  {
    map p | p in seen && Edge(sadj, p.0, p.1) :: sadj[p.0][p.1]
  }

  lemma TrussOnStep(nodes: map<int, SuperNode>, done: set<int>, sid: int)
    requires sid in nodes && sid !in done
    ensures sid !in TrussOn(nodes, done)
    ensures TrussOn(nodes, done)[sid := nodes[sid].truss] == TrussOn(nodes, done + {sid})
  {
  }

  lemma TalliedStep(sadj: Adj<int>, seen: set<(int, int)>, u: int, v: int)
    requires Edge(sadj, u, v) && (u, v) !in seen
    ensures (u, v) !in Tallied(sadj, seen)
    ensures Tallied(sadj, seen)[(u, v) := sadj[u][v]] == Tallied(sadj, seen + {(u, v)})
  {
  }

  /** Lines 340-344: the histogram of supernode trussness. */
  method TallyNodes(nodes: map<int, SuperNode>) returns (tbl: seq<int>)
    requires forall s :: s in nodes ==> nodes[s].truss >= 0
    ensures Tabulates(tbl, TrussOn(nodes, nodes.Keys))
  {
    tbl := [];
    var todo := nodes.Keys;
    ghost var done: set<int> := {};
    TabulatesNone(TrussOn(nodes, done));
    while todo != {}
      invariant todo <= nodes.Keys && done == nodes.Keys - todo
      invariant Tabulates(tbl, TrussOn(nodes, done))
      decreases todo
    {
      NonemptyHasMember(todo);
      var sid :| sid in todo;
      var truss := nodes[sid].truss;
      tbl := Increment(tbl, TrussOn(nodes, done), sid, truss);
      TrussOnStep(nodes, done, sid);
      todo := todo - {sid};
      done := done + {sid};
    }
    assert done == nodes.Keys;
  }

  /** The pairs (u, b), u < b, of the entries `b` of row `u` listed in `done`. */
  ghost function RowPairs(sadj: Adj<int>, u: int, done: set<int>): set<(int, int)>
    requires u in sadj
  {
    set b | b in sadj[u] && b in done && u < b :: (u, b)
  }

  lemma RowPairsStep(sadj: Adj<int>, u: int, done: set<int>, v: int)
    requires u in sadj
    ensures RowPairs(sadj, u, done + {v}) == RowPairs(sadj, u, done) + (if u < v && v in sadj[u] then {(u, v)} else {})
  {
  }

  /** The state of the row loop: `seen` grew by the pairs of the visited entries, and the histogram counts `seen`. */
  ghost predicate RowTallied(sadj: Adj<int>, u: int, seen0: set<(int, int)>, done: set<int>, seen: set<(int, int)>, tbl: seq<int>)
    requires u in sadj
  {
    seen == seen0 + RowPairs(sadj, u, done) && Tabulates(tbl, Tallied(sadj, seen))
  }

  /** Lines 351-356 for entry `v` of row `u`: a pair u < v not yet seen is recorded and counted. */
  method TallyEntry(sadj: Adj<int>, u: int, seen0: set<(int, int)>, ghost done: set<int>, seen: set<(int, int)>, tbl: seq<int>, v: int)
    returns (seen': set<(int, int)>, tbl': seq<int>)
    requires u in sadj && v in sadj[u] && v !in done && sadj[u][v] >= 0
    requires forall p :: p in seen0 ==> p.0 != u
    requires RowTallied(sadj, u, seen0, done, seen, tbl)
    ensures RowTallied(sadj, u, seen0, done + {v}, seen', tbl')
  {
    RowPairsStep(sadj, u, done, v);
    seen', tbl' := seen, tbl;
    if u < v && (u, v) !in seen {
      tbl' := Increment(tbl, Tallied(sadj, seen), (u, v), sadj[u][v]);
      TalliedStep(sadj, seen, u, v);
      seen' := seen + {(u, v)};
    }
  }

  /** One row of lines 349-357: the pairs (u, v), u < v, of row `u` enter the histogram once each. */
  method TallyRow(sadj: Adj<int>, u: int, seen0: set<(int, int)>, tbl0: seq<int>) returns (seen: set<(int, int)>, tbl: seq<int>)
    requires u in sadj && forall b :: b in sadj[u] ==> sadj[u][b] >= 0
    requires forall p :: p in seen0 ==> p.0 != u
    requires Tabulates(tbl0, Tallied(sadj, seen0))
    ensures seen == seen0 + RowPairs(sadj, u, sadj[u].Keys)
    ensures Tabulates(tbl, Tallied(sadj, seen))
  {
    seen, tbl := seen0, tbl0;
    var todo := sadj[u].Keys;
    ghost var done: set<int> := {};
    assert RowPairs(sadj, u, done) == {};
    while todo != {}
      invariant todo <= sadj[u].Keys && done == sadj[u].Keys - todo
      invariant RowTallied(sadj, u, seen0, done, seen, tbl)
      decreases todo
    {
      NonemptyHasMember(todo);
      var v :| v in todo;
      seen, tbl := TallyEntry(sadj, u, seen0, done, seen, tbl, v);
      todo := todo - {v};
      done := done + {v};
    }
  }

  /** Lines 347-358: the histogram of superedge trussness, each undirected superedge counted once. */
  method TallyEdges(sadj: Adj<int>) returns (tbl: seq<int>)
    requires forall a, b :: Edge(sadj, a, b) ==> sadj[a][b] >= 0
    ensures Tabulates(tbl, Tallied(sadj, UEdges(sadj)))
  {
    tbl := [];
    var seen: set<(int, int)> := {};
    TabulatesNone(Tallied(sadj, seen));
    var todo := sadj.Keys;
    while todo != {}
      invariant todo <= sadj.Keys
      invariant seen == set a, b | a in sadj && a !in todo && b in sadj[a] && a < b :: (a, b)
      invariant forall a, b :: Edge(sadj, a, b) ==> sadj[a][b] >= 0
      invariant Tabulates(tbl, Tallied(sadj, seen))
      decreases todo
    {
      NonemptyHasMember(todo);
      var u :| u in todo;
      seen, tbl := TallyRow(sadj, u, seen, tbl);
      todo := todo - {u};
    }
    assert seen == UEdges(sadj);
  }

  // ---------------------------------------------------------------------
  // The score (lines 362-378).

  /** Lines 365-374 for one ego network: the two tail sums of the histograms, subtracted. */
  method Score(nodeTbl: seq<int>, edgeTbl: seq<int>, k: int) returns (score: int)
    ensures score == SumFrom(nodeTbl, k) - SumFrom(edgeTbl, k)
  {
    var countNode := 0;
    var j := k;
    while 0 <= j < |nodeTbl|
      invariant countNode + SumFrom(nodeTbl, j) == SumFrom(nodeTbl, k)
      decreases |nodeTbl| - j
    {
      countNode := countNode + nodeTbl[j];
      j := j + 1;
    }
    var countEdge := 0;
    j := k;
    while 0 <= j < |edgeTbl|
      invariant countEdge + SumFrom(edgeTbl, j) == SumFrom(edgeTbl, k)
      decreases |edgeTbl| - j
    {
      countEdge := countEdge + edgeTbl[j];
      j := j + 1;
    }
    score := countNode - countEdge;
  }

  /** The node table's tail sum counts the supernodes of trussness at least `k`. */
  lemma NodeSum(nodes: map<int, SuperNode>, nodeTbl: seq<int>, k: int)
    requires Tabulates(nodeTbl, TrussOn(nodes, nodes.Keys)) && k >= 0
    ensures SumFrom(nodeTbl, k) == |set s | s in nodes && nodes[s].truss >= k|
  {
    var vals := TrussOn(nodes, nodes.Keys);
    SumCounts(nodeTbl, vals, k);
    assert (set s | s in vals && vals[s] >= k) == set s | s in nodes && nodes[s].truss >= k;
  }

  /** The edge table's tail sum counts the undirected superedges of trussness at least `k`. */
  lemma EdgeSum(sadj: Adj<int>, edgeTbl: seq<int>, k: int)
    requires Tabulates(edgeTbl, Tallied(sadj, UEdges(sadj))) && k >= 0
    ensures SumFrom(edgeTbl, k) == |set p | p in UEdges(sadj) && sadj[p.0][p.1] >= k|
  {
    var vals := Tallied(sadj, UEdges(sadj));
    SumCounts(edgeTbl, vals, k);
    assert (set p | p in vals && vals[p] >= k) == set p | p in UEdges(sadj) && sadj[p.0][p.1] >= k;
  }

  /** Supernodes minus undirected superedges of trussness at least `k`, or 0 for a negative `k`. */
  ghost function SuperScore(nodes: map<int, SuperNode>, sadj: Adj<int>, k: int): int
  {
    if k < 0 then 0
    else |set s | s in nodes && nodes[s].truss >= k| - |set p | p in UEdges(sadj) && sadj[p.0][p.1] >= k|
  }

  /**
   * Read against the supergraph the tables were built from, the score is
   * the number of supernodes of trussness at least `k` minus the number of
   * superedges of trussness at least `k`; a negative `k` scores 0.
   */
  lemma ScoreCounts(nodes: map<int, SuperNode>, sadj: Adj<int>, nodeTbl: seq<int>, edgeTbl: seq<int>, k: int)
    requires Tabulates(nodeTbl, TrussOn(nodes, nodes.Keys))
    requires Tabulates(edgeTbl, Tallied(sadj, UEdges(sadj)))
    ensures SumFrom(nodeTbl, k) - SumFrom(edgeTbl, k) == SuperScore(nodes, sadj, k)
  {
    if k >= 0 {
      NodeSum(nodes, nodeTbl, k);
      EdgeSum(sadj, edgeTbl, k);
    }
  }

  // ---------------------------------------------------------------------
  // The naive recount (lines 380-401).

  /** The entries of row `a` that survive removing the pairs in `gone`, in either direction. */
  function KeptRow(e: Ego, gone: set<(int, int)>, a: int): map<int, EdgeInfo>
    requires a in e
  {
    map b | b in e[a] && (a, b) !in gone && (b, a) !in gone :: e[a][b]
  }

  /** The ego network after erasing the pairs in `gone` and the rows left empty. */
  function Without(e: Ego, gone: set<(int, int)>): Ego
  {
    map a | a in e && KeptRow(e, gone, a) != map[] :: KeptRow(e, gone, a)
  }

  /** The k-truss filter: the edges of value at least `k`, and the nodes that keep one. */
  function Filtered(e: Ego, k: int): Ego
  {
    map a | a in e && KeepRow(e[a], k) != map[] :: KeepRow(e[a], k)
  }

  /** The entries of a row whose value is at least `k`. */
  function KeepRow(row: map<int, EdgeInfo>, k: int): map<int, EdgeInfo>
  {
    map b | b in row && row[b].value >= k :: row[b]
  }

  /** The filter keeps exactly the edges of value at least `k`, and no empty row. */
  lemma FilteredEdge(e: Ego, k: int, a: int, b: int)
    ensures Edge(Filtered(e, k), a, b) <==> Edge(e, a, b) && e[a][b].value >= k
    ensures a in Filtered(e, k) ==> |Filtered(e, k)[a]| != 0
  {
    if Edge(e, a, b) && e[a][b].value >= k {
      assert b in KeepRow(e[a], k);
    }
  }

  /** Filtering an ego network keeps it undirected. */
  lemma FilteredSymmetric(e: Ego, k: int)
    requires WellFormed(e)
    ensures Symmetric(Filtered(e, k))
  {
    forall a, b | a in Filtered(e, k) && b in Filtered(e, k)[a]
      ensures b in Filtered(e, k) && a in Filtered(e, k)[b]
    {
      FilteredEdge(e, k, a, b);
      FilteredEdge(e, k, b, a);
    }
  }

  /** The pairs (u, v), u < v, of value below `k`: what lines 384-390 collect. */
  function Low(e: Ego, k: int): set<(int, int)>
  {
    set a, b | a in e && b in e[a] && a < b && e[a][b].value < k :: (a, b)
  }

  /** An edge of value below `k` is low in one of its two orientations, and no other edge is. */
  lemma LowPair(e: Ego, k: int, a: int, b: int)
    requires WellFormed(e) && a in e && b in e[a]
    ensures ((a, b) !in Low(e, k) && (b, a) !in Low(e, k)) <==> e[a][b].value >= k
  {
    assert e[b][a] == e[a][b];
  }

  /** Erasing the low pairs from one row keeps exactly its entries of value at least `k`. */
  lemma KeptRowLow(e: Ego, k: int, a: int)
    requires WellFormed(e) && a in e
    ensures KeptRow(e, Low(e, k), a) == KeepRow(e[a], k)
  {
    forall b | b in e[a]
      ensures ((a, b) !in Low(e, k) && (b, a) !in Low(e, k)) <==> e[a][b].value >= k
    {
      LowPair(e, k, a, b);
    }
  }

  /** Erasing the low pairs leaves exactly the k-truss filter. */
  lemma WithoutLow(e: Ego, k: int)
    requires WellFormed(e)
    ensures Without(e, Low(e, k)) == Filtered(e, k)
  {
    forall a | a in e
      ensures KeptRow(e, Low(e, k), a) == KeepRow(e[a], k)
    {
      KeptRowLow(e, k, a);
    }
  }

  /** The pairs listed in a sequence. */
  function PairSet(s: seq<(int, int)>): set<(int, int)>
  {
    set p | p in s
  }

  lemma PairSetSnoc(s: seq<(int, int)>, p: (int, int))
    ensures PairSet(s + [p]) == PairSet(s) + {p}
  {
    assert forall q :: q in s + [p] <==> q in s || q == p;
  }

  /** The low pairs (u, b) of row `u` among the entries `b` in `done`. */
  ghost function RowLow(e: Ego, k: int, u: int, done: set<int>): set<(int, int)>
    requires u in e
  {
    set b | b in e[u] && b in done && u < b && e[u][b].value < k :: (u, b)
  }

  /** The low pairs of the rows in `rows`. */
  ghost function LowIn(e: Ego, k: int, rows: set<int>): set<(int, int)>
  {
    set a, b | a in e && a in rows && b in e[a] && a < b && e[a][b].value < k :: (a, b)
  }

  /** Lines 386-390 for row `u`: append the pairs (u, v), u < v, of value below `k`. */
  method CollectRow(e: Ego, k: int, u: int, toRemove0: seq<(int, int)>) returns (toRemove: seq<(int, int)>)
    requires u in e
    ensures PairSet(toRemove) == PairSet(toRemove0) + RowLow(e, k, u, e[u].Keys)
  {
    toRemove := toRemove0;
    var todo := e[u].Keys;
    ghost var done: set<int> := {};
    while todo != {}
      invariant todo <= e[u].Keys && done == e[u].Keys - todo
      invariant PairSet(toRemove) == PairSet(toRemove0) + RowLow(e, k, u, done)
      decreases todo
    {
      NonemptyHasMember(todo);
      var v :| v in todo;
      assert RowLow(e, k, u, done + {v}) == RowLow(e, k, u, done) + (if u < v && e[u][v].value < k then {(u, v)} else {});
      if u < v && e[u][v].value < k {
        PairSetSnoc(toRemove, (u, v));
        toRemove := toRemove + [(u, v)];
      }
      todo := todo - {v};
      done := done + {v};
    }
  }

  /** Lines 384-391: the list of pairs to erase holds exactly the low pairs. */
  method CollectLow(e: Ego, k: int) returns (toRemove: seq<(int, int)>)
    ensures PairSet(toRemove) == Low(e, k)
  {
    toRemove := [];
    var todo := e.Keys;
    ghost var done: set<int> := {};
    assert LowIn(e, k, done) == {};
    while todo != {}
      invariant todo <= e.Keys && done == e.Keys - todo
      invariant PairSet(toRemove) == LowIn(e, k, done)
      decreases todo
    {
      NonemptyHasMember(todo);
      var u :| u in todo;
      toRemove := CollectRow(e, k, u, toRemove);
      assert LowIn(e, k, done + {u}) == LowIn(e, k, done) + RowLow(e, k, u, e[u].Keys);
      todo := todo - {u};
      done := done + {u};
    }
    assert LowIn(e, k, done) == Low(e, k);
  }

  /** Erasing one more pair changes the rows of its two endpoints only. */
  lemma KeptRowStep(e: Ego, gone: set<(int, int)>, u: int, v: int, a: int)
    requires a in e && u != v
    ensures KeptRow(e, gone + {(u, v)}, a) ==
      if a == u then KeptRow(e, gone, a) - {v}
      else if a == v then KeptRow(e, gone, a) - {u}
      else KeptRow(e, gone, a)
  {
  }

  /** Reading a row of the reduced network with `operator[]`. */
  lemma RowWithout(e: Ego, gone: set<(int, int)>, a: int)
    requires a in e
    ensures Row(Without(e, gone), a) == KeptRow(e, gone, a)
  {
  }

  /** What the four statements of lines 393-396 leave, row by row. */
  ghost predicate ErasedRows(cur: Ego, u: int, v: int, r: Ego)
  {
    && (forall a :: a in r <==> if a == u then Row(cur, u) - {v} != map[] else if a == v then Row(cur, v) - {u} != map[] else a in cur)
    && (forall a :: a in r ==> r[a] == if a == u then Row(cur, u) - {v} else if a == v then Row(cur, v) - {u} else cur[a])
  }

  lemma ErasedIsWithout(e: Ego, gone: set<(int, int)>, cur: Ego, u: int, v: int, r: Ego)
    requires WellFormed(e) && u in e && v in e[u]
    requires cur == Without(e, gone) && ErasedRows(cur, u, v, r)
    ensures r == Without(e, gone + {(u, v)})
  {
    var w := Without(e, gone + {(u, v)});
    forall a
      ensures (a in r <==> a in w) && (a in r ==> r[a] == w[a])
    {
      if a in e {
        KeptRowStep(e, gone, u, v, a);
        RowWithout(e, gone, a);
      }
    }
  }

  /** Lines 393-396: erase the pair in both directions, then each endpoint whose row became empty. */
  method ErasePair(ghost e: Ego, ghost gone: set<(int, int)>, cur: Ego, u: int, v: int) returns (r: Ego)
    requires WellFormed(e) && u in e && v in e[u]
    requires cur == Without(e, gone)
    ensures r == Without(e, gone + {(u, v)})
  {
    r := cur[u := Row(cur, u) - {v}];
    r := r[v := Row(r, v) - {u}];
    if r[u] == map[] {
      r := r - {u};
    }
    if r[v] == map[] {
      r := r - {v};
    }
    ErasedIsWithout(e, gone, cur, u, v, r);
  }

  /** Nothing erased: a well-formed ego network has no empty row. */
  lemma WithoutNothing(e: Ego)
    requires WellFormed(e)
    ensures Without(e, {}) == e
  {
    forall a | a in e
      ensures KeptRow(e, {}, a) == e[a]
    {
    }
  }

  /**
   * Lines 383-399 for one ego network: erase every edge of value below `k`
   * and every node left without edges, then count the connected
   * components of what remains.
   */
  method NaiveCount(e: Ego, k: int) returns (count: nat)
    requires WellFormed(e)
    ensures count == |Components(Filtered(e, k))|
  {
    var toRemove := CollectLow(e, k);
    var cur := e;
    WithoutNothing(e);
    var i := 0;
    assert PairSet(toRemove[..i]) == {};
    while i < |toRemove|
      invariant 0 <= i <= |toRemove|
      invariant cur == Without(e, PairSet(toRemove[..i]))
    {
      var (u, v) := toRemove[i];
      assert toRemove[i] in Low(e, k);
      cur := ErasePair(e, PairSet(toRemove[..i]), cur, u, v);
      assert toRemove[..i + 1] == toRemove[..i] + [(u, v)];
      PairSetSnoc(toRemove[..i], (u, v));
      i := i + 1;
    }
    assert toRemove[..i] == toRemove;
    WithoutLow(e, k);
    FilteredSymmetric(e, k);
    count := NumConnectedComponent(cur);
  }
}
