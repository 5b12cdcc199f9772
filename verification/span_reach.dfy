/**
 * The TILL label index of the span-reachability project: the vertex order
 * it is built in (`TILL_REACH`'s constructor) and the query `SPAN_REACH`,
 * which answers from two labels. The label of a vertex x lists hubs w, each
 * with a slice of time intervals; x and y are reported span-reachable in
 * [t1, t2] when the label of one lists the other as a hub with an interval
 * inside the window, or both labels list a common hub with such intervals.
 */
module SpanReach {
  import opened Temporal
  import Intersection

  const IntMax: int := 2147483647
  const IntMin: int := -2147483648

  /**
   * A label `Lin[x]`: `hubs[j]` is (hub vertex, offset of its first interval
   * in `spans`); hub j owns `spans[hubs[j].1 .. Hi(lab, j))`.
   */
  datatype Label = Label(hubs: seq<(nat, nat)>, spans: seq<(int, int)>)

  /** Where the interval slice of hub `j` ends: the next hub's offset, or the end. */
  function Hi(lab: Label, j: nat): nat
    requires j < |lab.hubs|
  {
    if j + 1 == |lab.hubs| then |lab.spans| else lab.hubs[j + 1].1
  }

  /** Every offset lies within the interval list, so every slice does. */
  predicate Offsets(lab: Label)
  {
    forall j :: 0 <= j < |lab.hubs| ==> lab.hubs[j].1 <= |lab.spans|
  }

  /** Hubs name vertices and offsets are in range. */
  predicate LabelOk(lab: Label, n: int)
  {
    (forall j :: 0 <= j < |lab.hubs| ==> lab.hubs[j].0 < n) && Offsets(lab)
  }

  /** Some interval of hub `j`'s slice lies inside [t1, t2]. */
  ghost predicate SliceHit(lab: Label, j: nat, t1: int, t2: int)
    requires j < |lab.hubs|
  {
    exists i :: lab.hubs[j].1 <= i < Hi(lab, j) && i < |lab.spans| && t1 <= lab.spans[i].0 && lab.spans[i].1 <= t2
  }

  /** From position `from` on, the label lists hub `w` with an interval inside the window. */
  ghost predicate DirectHit(lab: Label, w: int, t1: int, t2: int, from: nat)
  {
    exists j :: from <= j < |lab.hubs| && lab.hubs[j].0 == w && SliceHit(lab, j, t1, t2)
  }

  /** Both labels list a common hub, each with an interval inside the window. */
  ghost predicate CommonHit(lu: Label, lv: Label, t1: int, t2: int)
  {
    exists j1, j2 :: 0 <= j1 < |lu.hubs| && 0 <= j2 < |lv.hubs| && lu.hubs[j1].0 == lv.hubs[j2].0
      && SliceHit(lu, j1, t1, t2) && SliceHit(lv, j2, t1, t2)
  }

  /** What the two labels of `u` and `v` certify for the window [t1, t2]. */
  ghost predicate Covered(lu: Label, lv: Label, u: int, v: int, t1: int, t2: int)
  {
    DirectHit(lu, v, t1, t2, 0) || DirectHit(lv, u, t1, t2, 0) || CommonHit(lu, lv, t1, t2)
  }

  /** `vertex_order[x]` read through `operator[]`: a missing key reads as 0. */
  function OrderOf(order: map<int, int>, x: int): int
  {
    if x in order then order[x] else 0
  }

  /** The hubs of a label appear in strictly increasing vertex order. */
  ghost predicate Ordered(order: map<int, int>, lab: Label)
  {
    forall j, k :: 0 <= j < k < |lab.hubs| ==> OrderOf(order, lab.hubs[j].0) < OrderOf(order, lab.hubs[k].0)
  }

  /** The constructor's comparator: higher degree first, then smaller id. */
  predicate Before(adj: seq<seq<Entry>>, a: int, b: int)
    requires 0 <= a < |adj| && 0 <= b < |adj|
  {
    |adj[a]| > |adj[b]| || (|adj[a]| == |adj[b]| && a < b)
  }

  /** The comparator is a strict total order on the vertices. */
  lemma BeforeOrder(adj: seq<seq<Entry>>, a: int, b: int, c: int)
    requires 0 <= a < |adj| && 0 <= b < |adj| && 0 <= c < |adj|
    ensures !Before(adj, a, a)
    ensures a != b ==> (Before(adj, a, b) <==> !Before(adj, b, a))
    ensures Before(adj, a, b) && Before(adj, b, c) ==> Before(adj, a, c)
  {
  }


  /**
   * The `sort` of `ordered_vertexs`: every vertex exactly once, in the
   * comparator's order.
   */
  method SortByDegree(adj: seq<seq<Entry>>) returns (ordered: seq<int>)
    ensures |ordered| == |adj| && Intersection.NoDup(ordered)
    ensures forall i :: 0 <= i < |ordered| ==> 0 <= ordered[i] < |adj|
    ensures forall x :: 0 <= x < |adj| ==> x in ordered
    ensures forall i, j :: 0 <= i < j < |ordered| ==> Before(adj, ordered[i], ordered[j])
  {
    ordered := [];
    var x := 0;
    while x < |adj|
      invariant 0 <= x <= |adj| && |ordered| == x
      invariant forall i :: 0 <= i < |ordered| ==> 0 <= ordered[i] < x
      invariant forall y :: 0 <= y < x ==> y in ordered
      invariant forall i, j :: 0 <= i < j < |ordered| ==> Before(adj, ordered[i], ordered[j])
    {
      var p := 0;
      while p < |ordered| && Before(adj, ordered[p], x)
        invariant 0 <= p <= |ordered|
        invariant forall i :: 0 <= i < p ==> Before(adj, ordered[i], x)
      {
        p := p + 1;
      }
      forall i | p <= i < |ordered|
        ensures Before(adj, x, ordered[i])
      {
        BeforeOrder(adj, x, ordered[p], ordered[i]);
      }
      var next := ordered[..p] + [x] + ordered[p..];
      forall i, j | 0 <= i < j < |next|
        ensures Before(adj, next[i], next[j])
      {
        if j < p {
          assert next[i] == ordered[i] && next[j] == ordered[j];
        } else if j == p {
          assert next[i] == ordered[i];
        } else if i < p {
          assert next[i] == ordered[i] && next[j] == ordered[j - 1];
          BeforeOrder(adj, ordered[i], x, ordered[j - 1]);
        } else if i > p {
          assert next[i] == ordered[i - 1] && next[j] == ordered[j - 1];
        }
      }
      forall y | 0 <= y < x + 1
        ensures y in next
      {
        if y < x {
          assert y in ordered;
          var i :| 0 <= i < |ordered| && ordered[i] == y;
          if i < p {
            assert next[i] == y;
          } else {
            assert next[i + 1] == y;
          }
        } else {
          assert next[p] == y;
        }
      }
      ordered := next;
      x := x + 1;
    }
    forall i, j | 0 <= i < j < |ordered|
      ensures ordered[i] != ordered[j]
    {
      BeforeOrder(adj, ordered[i], ordered[j], ordered[j]);
    }
  }

  /** `vertex_order`: the position of every vertex in `ordered_vertexs`. */
  method PositionMap(ordered: seq<int>) returns (order: map<int, int>)
    requires Intersection.NoDup(ordered)
    ensures order.Keys == set x | x in ordered
    ensures forall i :: 0 <= i < |ordered| ==> order[ordered[i]] == i
    ensures forall a, b :: a in order && b in order && order[a] == order[b] ==> a == b
  {
    order := map[];
    var i := 0;
    while i < |ordered|
      invariant 0 <= i <= |ordered|
      invariant order.Keys == set x | x in ordered[..i]
      invariant forall j :: 0 <= j < i ==> order[ordered[j]] == j
    {
      assert ordered[..i + 1] == ordered[..i] + [ordered[i]];
      order := order[ordered[i] := i];
      i := i + 1;
    }
    assert ordered[..i] == ordered;
    forall a, b | a in order && b in order && order[a] == order[b]
      ensures a == b
    {
      var j :| 0 <= j < |ordered| && ordered[j] == a;
      var k :| 0 <= k < |ordered| && ordered[k] == b;
    }
  }

  /** The smallest incident timestamp, starting from `INT_MAX`. */
  function MinTime(es: seq<Entry>): int
  {
    if es == [] then IntMax
    else
      var m := MinTime(es[..|es| - 1]);
      if es[|es| - 1].1 < m then es[|es| - 1].1 else m
  }

  /** The largest incident timestamp, starting from `INT_MIN`. */
  function MaxTime(es: seq<Entry>): int
  {
    if es == [] then IntMin
    else
      var m := MaxTime(es[..|es| - 1]);
      if es[|es| - 1].1 > m then es[|es| - 1].1 else m
  }

  /**
   * The neighbour test of `SPAN_REACH` rejects a vertex when its incident
   * timestamps all lie after the window, or all before it (the bounds
   * `INT_MAX` and `INT_MIN` stand in for an empty list).
   */
  ghost predicate Stale(es: seq<Entry>, t1: int, t2: int)
  {
    || (t2 < IntMax && forall k :: 0 <= k < |es| ==> es[k].1 > t2)
    || (t1 > IntMin && forall k :: 0 <= k < |es| ==> es[k].1 < t1)
  }

  lemma {:induction false} MinTimeAbove(es: seq<Entry>, t: int)
    ensures MinTime(es) > t <==> t < IntMax && forall k :: 0 <= k < |es| ==> es[k].1 > t
  {
    if es != [] {
      var p := es[..|es| - 1];
      MinTimeAbove(p, t);
      assert forall k :: 0 <= k < |p| ==> p[k] == es[k];
    }
  }

  lemma {:induction false} MaxTimeBelow(es: seq<Entry>, t: int)
    ensures MaxTime(es) < t <==> t > IntMin && forall k :: 0 <= k < |es| ==> es[k].1 < t
  {
    if es != [] {
      var p := es[..|es| - 1];
      MaxTimeBelow(p, t);
      assert forall k :: 0 <= k < |p| ==> p[k] == es[k];
    }
  }

  /** The two folds over one neighbour list. */
  method TimeBounds(es: seq<Entry>) returns (tmin: int, tmax: int)
    ensures tmin == MinTime(es) && tmax == MaxTime(es)
  {
    tmin, tmax := IntMax, IntMin;
    var k := 0;
    while k < |es|
      invariant 0 <= k <= |es|
      invariant tmin == MinTime(es[..k]) && tmax == MaxTime(es[..k])
    {
      assert es[..k + 1][..k] == es[..k];
      var (_, timestamp) := es[k];
      tmin := if timestamp < tmin then timestamp else tmin;
      tmax := if timestamp > tmax then timestamp else tmax;
      k := k + 1;
    }
    assert es[..k] == es;
  }

  /** The scan of one hub's interval slice, stopping at the first interval inside the window. */
  method ScanSlice(lab: Label, j: nat, t1: int, t2: int) returns (hit: bool)
    requires j < |lab.hubs| && Offsets(lab)
    ensures hit <==> SliceHit(lab, j, t1, t2)
  {
    var bg := lab.hubs[j].1;
    var ed := Hi(lab, j);
    var i := bg;
    while i < ed
      invariant bg <= i && (bg <= ed ==> i <= ed)
      invariant forall m :: bg <= m < i && m < |lab.spans| ==> !(t1 <= lab.spans[m].0 && lab.spans[m].1 <= t2)
    {
      if lab.spans[i].0 >= t1 && lab.spans[i].1 <= t2 {
        return true;
      }
      i := i + 1;
    }
    return false;
  }

  /** The tail scan once the other label is exhausted: is `w` a hub from `from` on, with a hit? */
  method ScanRest(lab: Label, from: nat, w: int, t1: int, t2: int) returns (hit: bool)
    requires from <= |lab.hubs| && Offsets(lab)
    ensures hit <==> DirectHit(lab, w, t1, t2, from)
  {
    var j := from;
    while j < |lab.hubs|
      invariant from <= j <= |lab.hubs|
      invariant forall m :: from <= m < j && lab.hubs[m].0 == w ==> !SliceHit(lab, m, t1, t2)
    {
      if lab.hubs[j].0 == w {
        hit := ScanSlice(lab, j, t1, t2);
        if hit {
          return;
        }
      }
      j := j + 1;
    }
    return false;
  }

  /**
   * What the merge walk has ruled out once it stands at (i1, i2): no hub
   * before i1 is a hit for `v`, none before i2 a hit for `u`, and no common
   * hub with a hit on both sides has a position already passed.
   */
  ghost predicate Passed(lu: Label, lv: Label, u: int, v: int, t1: int, t2: int, i1: nat, i2: nat)
  {
    && (forall j :: 0 <= j < i1 && j < |lu.hubs| && lu.hubs[j].0 == v ==> !SliceHit(lu, j, t1, t2))
    && (forall j :: 0 <= j < i2 && j < |lv.hubs| && lv.hubs[j].0 == u ==> !SliceHit(lv, j, t1, t2))
    && (forall j1, j2 ::
          (0 <= j1 < |lu.hubs| && 0 <= j2 < |lv.hubs| && (j1 < i1 || j2 < i2) && lu.hubs[j1].0 == lv.hubs[j2].0)
          ==> !(SliceHit(lu, j1, t1, t2) && SliceHit(lv, j2, t1, t2)))
  }

  /** Passing u's hub at i1: it is no hit for `v`, and it is no hit at all or ranks before v's hub at i2. */
  lemma PassFirst(order: map<int, int>, lu: Label, lv: Label, u: int, v: int, t1: int, t2: int, i1: nat, i2: nat)
    requires Ordered(order, lv) && Passed(lu, lv, u, v, t1, t2, i1, i2)
    requires i1 < |lu.hubs| && i2 < |lv.hubs|
    requires lu.hubs[i1].0 == v ==> !SliceHit(lu, i1, t1, t2)
    requires OrderOf(order, lu.hubs[i1].0) < OrderOf(order, lv.hubs[i2].0) || !SliceHit(lu, i1, t1, t2)
    ensures Passed(lu, lv, u, v, t1, t2, i1 + 1, i2)
  {
    if SliceHit(lu, i1, t1, t2) {
      forall j2 | i2 < j2 < |lv.hubs|
        ensures OrderOf(order, lu.hubs[i1].0) < OrderOf(order, lv.hubs[j2].0)
      {
        assert OrderOf(order, lv.hubs[i2].0) < OrderOf(order, lv.hubs[j2].0);
      }
    }
  }

  lemma PassSecond(order: map<int, int>, lu: Label, lv: Label, u: int, v: int, t1: int, t2: int, i1: nat, i2: nat)
    requires Ordered(order, lu) && Passed(lu, lv, u, v, t1, t2, i1, i2)
    requires i1 < |lu.hubs| && i2 < |lv.hubs|
    requires lv.hubs[i2].0 == u ==> !SliceHit(lv, i2, t1, t2)
    requires OrderOf(order, lv.hubs[i2].0) < OrderOf(order, lu.hubs[i1].0) || !SliceHit(lv, i2, t1, t2)
    ensures Passed(lu, lv, u, v, t1, t2, i1, i2 + 1)
  {
    if SliceHit(lv, i2, t1, t2) {
      forall j1 | i1 < j1 < |lu.hubs|
        ensures OrderOf(order, lv.hubs[i2].0) < OrderOf(order, lu.hubs[j1].0)
      {
        assert OrderOf(order, lu.hubs[i1].0) < OrderOf(order, lu.hubs[j1].0);
      }
    }
  }

  /** Passing two hubs of equal rank that are not both hits. */
  lemma PassBoth(order: map<int, int>, lu: Label, lv: Label, u: int, v: int, t1: int, t2: int, i1: nat, i2: nat)
    requires Ordered(order, lu) && Ordered(order, lv) && Passed(lu, lv, u, v, t1, t2, i1, i2)
    requires i1 < |lu.hubs| && i2 < |lv.hubs|
    requires lu.hubs[i1].0 != v && lv.hubs[i2].0 != u
    requires OrderOf(order, lu.hubs[i1].0) == OrderOf(order, lv.hubs[i2].0)
    requires !(SliceHit(lu, i1, t1, t2) && SliceHit(lv, i2, t1, t2))
    ensures Passed(lu, lv, u, v, t1, t2, i1 + 1, i2 + 1)
  {
    forall j1 | i1 < j1 < |lu.hubs|
      ensures OrderOf(order, lv.hubs[i2].0) < OrderOf(order, lu.hubs[j1].0)
    {
      assert OrderOf(order, lu.hubs[i1].0) < OrderOf(order, lu.hubs[j1].0);
    }
    forall j2 | i2 < j2 < |lv.hubs|
      ensures OrderOf(order, lu.hubs[i1].0) < OrderOf(order, lv.hubs[j2].0)
    {
      assert OrderOf(order, lv.hubs[i2].0) < OrderOf(order, lv.hubs[j2].0);
    }
  }

  /** With one label passed completely, only direct hits in the rest of the other remain. */
  lemma PassedEnd(lu: Label, lv: Label, u: int, v: int, t1: int, t2: int, i1: nat, i2: nat)
    requires Passed(lu, lv, u, v, t1, t2, i1, i2)
    requires i1 == |lu.hubs| || i2 == |lv.hubs|
    ensures Covered(lu, lv, u, v, t1, t2) <==>
      (i1 == |lu.hubs| && DirectHit(lv, u, t1, t2, i2)) || (i1 < |lu.hubs| && DirectHit(lu, v, t1, t2, i1))
  {
  }

  /** A direct hit found from some position on is a direct hit of the label. */
  lemma DirectHitFrom(lab: Label, w: int, t1: int, t2: int, from: nat)
    requires DirectHit(lab, w, t1, t2, from)
    ensures DirectHit(lab, w, t1, t2, 0)
  {
  }

  /** The merge walk's step in the case where both labels still have hubs left, as written. */
  datatype Step = Continue(i1: nat, i2: nat) | Stop(reached: bool)

  ghost function MergeStepAsWritten(order: map<int, int>, lu: Label, lv: Label, u: int, v: int,
                                    t1: int, t2: int, i1: nat, i2: nat): Step
    requires i1 < |lu.hubs| && i2 < |lv.hubs|
  {
    if lu.hubs[i1].0 == v then
      (if SliceHit(lu, i1, t1, t2) then Stop(true) else Continue(i1, i2))
    else if lv.hubs[i2].0 == u then
      (if SliceHit(lv, i2, t1, t2) then Stop(true) else Continue(i1, i2))
    else if OrderOf(order, lu.hubs[i1].0) < OrderOf(order, lv.hubs[i2].0) then Continue(i1 + 1, i2)
    else if OrderOf(order, lv.hubs[i2].0) < OrderOf(order, lu.hubs[i1].0) then Continue(i1, i2 + 1)
    else if SliceHit(lu, i1, t1, t2) && SliceHit(lv, i2, t1, t2) then Stop(true)
    else Continue(i1 + 1, i2 + 1)
  }

  /**
   * A query that passes both early guards and then never leaves the merge
   * walk: u = 0 lists v = 1 as a hub whose only interval [7, 9] is not
   * inside [0, 6], and the step leaves both positions where they are.
   */
  lemma AsWrittenStalls()
    ensures var adj: seq<seq<Entry>> := [[(1, 5)], [(0, 5)], []];
      var lu, lv := Label([(1, 0)], [(7, 9)]), Label([(2, 0)], [(4, 4)]);
      && Symmetric(adj) && LabelOk(lu, 3) && LabelOk(lv, 3)
      && !Stale(adj[0], 0, 6) && !Stale(adj[1], 0, 6)
      && MergeStepAsWritten(map[0 := 0, 1 := 1, 2 := 2], lu, lv, 0, 1, 0, 6, 0, 0) == Continue(0, 0)
  {
    var adj: seq<seq<Entry>> := [[(1, 5)], [(0, 5)], []];
    assert (0, 5) in adj[1] && (1, 5) in adj[0];
    var lu := Label([(1, 0)], [(7, 9)]);
    assert Hi(lu, 0) == 1;
    assert !SliceHit(lu, 0, 0, 6);
    assert adj[0][0].1 == 5 && adj[1][0].1 == 5;
  }

  /** Two hubs of the labels with the same rank are the same vertex. */
  ghost predicate Ranked(order: map<int, int>, lu: Label, lv: Label)
  {
    forall j1, j2 ::
      (0 <= j1 < |lu.hubs| && 0 <= j2 < |lv.hubs| && OrderOf(order, lu.hubs[j1].0) == OrderOf(order, lv.hubs[j2].0))
      ==> lu.hubs[j1].0 == lv.hubs[j2].0
  }

  /**
   * The merge walk of `SPAN_REACH` over the hub lists of `u` and `v`, with
   * a direct hub whose slice misses the window passed over. It reports only
   * what the labels cover and, when both hub lists ascend in rank, reports
   * everything they cover.
   */
  method MergeWalk(order: map<int, int>, lu: Label, lv: Label, u: int, v: int, t1: int, t2: int)
    returns (reached: bool)
    requires Offsets(lu) && Offsets(lv) && Ranked(order, lu, lv)
    ensures reached ==> Covered(lu, lv, u, v, t1, t2)
    ensures Ordered(order, lu) && Ordered(order, lv) ==> (reached <==> Covered(lu, lv, u, v, t1, t2))
  {
    ghost var sorted := Ordered(order, lu) && Ordered(order, lv);
    var i1, i2 := 0, 0;
    while i1 < |lu.hubs| || i2 < |lv.hubs|
      invariant 0 <= i1 <= |lu.hubs| && 0 <= i2 <= |lv.hubs|
      invariant sorted ==> Passed(lu, lv, u, v, t1, t2, i1, i2)
      decreases |lu.hubs| - i1 + |lv.hubs| - i2
    {
      if i1 == |lu.hubs| {
        reached := ScanRest(lv, i2, u, t1, t2);
        if reached {
          DirectHitFrom(lv, u, t1, t2, i2);
        }
        if sorted {
          PassedEnd(lu, lv, u, v, t1, t2, i1, i2);
        }
        return;
      } else if i2 == |lv.hubs| {
        reached := ScanRest(lu, i1, v, t1, t2);
        if reached {
          DirectHitFrom(lu, v, t1, t2, i1);
        }
        if sorted {
          PassedEnd(lu, lv, u, v, t1, t2, i1, i2);
        }
        return;
      } else {
        var h1, h2 := lu.hubs[i1].0, lv.hubs[i2].0;
        if h1 == v {
          var hit := ScanSlice(lu, i1, t1, t2);
          if hit {
            return true;
          }
          if sorted {
            PassFirst(order, lu, lv, u, v, t1, t2, i1, i2);
          }
          i1 := i1 + 1;
        } else if h2 == u {
          var hit := ScanSlice(lv, i2, t1, t2);
          if hit {
            return true;
          }
          if sorted {
            PassSecond(order, lu, lv, u, v, t1, t2, i1, i2);
          }
          i2 := i2 + 1;
        } else if OrderOf(order, h1) < OrderOf(order, h2) {
          if sorted {
            PassFirst(order, lu, lv, u, v, t1, t2, i1, i2);
          }
          i1 := i1 + 1;
        } else if OrderOf(order, h2) < OrderOf(order, h1) {
          if sorted {
            PassSecond(order, lu, lv, u, v, t1, t2, i1, i2);
          }
          i2 := i2 + 1;
        } else {
          var flag1 := ScanSlice(lu, i1, t1, t2);
          var flag2 := ScanSlice(lv, i2, t1, t2);
          if flag1 && flag2 {
            assert h1 == h2;
            return true;
          }
          if sorted {
            PassBoth(order, lu, lv, u, v, t1, t2, i1, i2);
          }
          i1, i2 := i1 + 1, i2 + 1;
        }
      }
    }
    if sorted {
      PassedEnd(lu, lv, u, v, t1, t2, i1, i2);
    }
    return false;
  }

  class TillReach {
    var graph: UndirectedGraph
    var tradeOff: int
    var orderedVertices: seq<int>
    var vertexOrder: map<int, int>
    var lin: seq<Label>

    /**
     * Every vertex has a distinct rank in `vertex_order`, and every label
     * is well formed over the graph's vertices.
     */
    ghost predicate Valid()
      reads this, graph
    {
      && graph.Valid()
      && |lin| == graph.vertexNum
      && (forall x :: 0 <= x < |lin| ==> x in vertexOrder)
      && (forall a, b :: a in vertexOrder && b in vertexOrder && vertexOrder[a] == vertexOrder[b] ==> a == b)
      && (forall x :: 0 <= x < |lin| ==> LabelOk(lin[x], |lin|))
    }

    /**
     * One empty label per vertex; the vertices ranked by the comparator,
     * and `vertex_order` the inverse of that ranking.
     */
    constructor (g: UndirectedGraph, tradeOff: int)
      requires g.Valid()
      ensures Valid() && graph == g && this.tradeOff == tradeOff
      ensures |lin| == g.vertexNum && forall x :: 0 <= x < |lin| ==> lin[x] == Label([], [])
      ensures |orderedVertices| == g.vertexNum && Intersection.NoDup(orderedVertices)
      ensures forall i :: 0 <= i < |orderedVertices| ==> 0 <= orderedVertices[i] < g.vertexNum
      ensures forall i, j :: 0 <= i < j < |orderedVertices| ==> Before(g.adjList, orderedVertices[i], orderedVertices[j])
      ensures forall i :: 0 <= i < |orderedVertices| ==> vertexOrder[orderedVertices[i]] == i
    {
      var ordered := SortByDegree(g.adjList);
      var order := PositionMap(ordered);
      graph := g;
      this.tradeOff := tradeOff;
      lin := seq(g.vertexNum, _ => Label([], []));
      orderedVertices := ordered;
      vertexOrder := order;
    }

    /**
     * `SPAN_REACH`, with the merge walk advancing past a direct hub whose
     * slice has no interval inside the window.
     */
    method SpanReach(u: int, v: int, t1: int, t2: int) returns (reached: bool)
      requires Valid()
      requires u == v || (0 <= u < |lin| && 0 <= v < |lin|)
      ensures u == v ==> reached
      ensures u != v && lin[u].hubs == [] && lin[v].hubs == [] ==> !reached
      ensures u != v && (Stale(graph.adjList[u], t1, t2) || Stale(graph.adjList[v], t1, t2)) ==> !reached
      ensures u != v && reached ==> Covered(lin[u], lin[v], u, v, t1, t2)
      ensures u != v && !Stale(graph.adjList[u], t1, t2) && !Stale(graph.adjList[v], t1, t2)
        && Ordered(vertexOrder, lin[u]) && Ordered(vertexOrder, lin[v])
        ==> (reached <==> Covered(lin[u], lin[v], u, v, t1, t2))
    {
      if u == v {
        return true;
      }
      var lu, lv := lin[u], lin[v];
      if |lu.hubs| == 0 && |lv.hubs| == 0 {
        PassedEnd(lu, lv, u, v, t1, t2, 0, 0);
        return false;
      }
      var uMin, uMax := TimeBounds(graph.adjList[u]);
      var vMin, vMax := TimeBounds(graph.adjList[v]);
      MinTimeAbove(graph.adjList[u], t2);
      MaxTimeBelow(graph.adjList[u], t1);
      MinTimeAbove(graph.adjList[v], t2);
      MaxTimeBelow(graph.adjList[v], t1);
      if uMin > t2 || uMax < t1 || vMin > t2 || vMax < t1 {
        return false;
      }
      RanksDistinct(lu, lv);
      reached := MergeWalk(vertexOrder, lu, lv, u, v, t1, t2);
    }

    /** Hub vertices are vertices, so equal ranks mean the same hub. */
    lemma RanksDistinct(lu: Label, lv: Label)
      requires Valid() && LabelOk(lu, |lin|) && LabelOk(lv, |lin|)
      ensures Ranked(vertexOrder, lu, lv)
    {
      forall j1, j2 | 0 <= j1 < |lu.hubs| && 0 <= j2 < |lv.hubs|
        && OrderOf(vertexOrder, lu.hubs[j1].0) == OrderOf(vertexOrder, lv.hubs[j2].0)
        ensures lu.hubs[j1].0 == lv.hubs[j2].0
      {
        assert lu.hubs[j1].0 in vertexOrder && lv.hubs[j2].0 in vertexOrder;
      }
    }
  }
}
