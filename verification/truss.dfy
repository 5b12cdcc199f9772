/**
 * Truss decomposition of one ego network (`compute_truss`).
 * Edges are peeled in ascending order of their current support; a peeled
 * edge receives trussness support + 2 and is finalized, and the edges that
 * formed a live triangle with it lose one unit of support unless they are
 * already at the current level. The peeled edges go to a queue keyed by
 * trussness that later drives the supergraph construction.
 */
module Truss {
  import opened Intersection
  import opened MapGraph
  import opened EgoNetwork

  /** A `tuple<int,int,int>` queue entry: edge (u, v) with u < v and its key. */
  datatype Entry = Entry(u: int, v: int, s: int)

  function Max(a: int, b: int): int
  {
    if a < b then b else a
  }

  /** Common neighbours of `a` and `b` whose edges to both are still unfinalized: the live triangles of (a, b). */
  function Live(e: Ego, a: int, b: int): set<int>
    requires a in e && b in e
  {
    set x | x in e[a] && x in e[b] && !e[a][x].finalized && !e[b][x].finalized
  }

  /** Common neighbours whose edges to `a` and `b` are unfinalized or already have trussness at least `t`. */
  function Kept(e: Ego, a: int, b: int, t: int): set<int>
    requires a in e && b in e
  {
    set x | x in e[a] && x in e[b]
      && (!e[a][x].finalized || e[a][x].value >= t) && (!e[b][x].finalized || e[b][x].value >= t)
  }

  /** Common neighbours whose edges to `a` and `b` both have value at least `t`. */
  function Strong(e: Ego, a: int, b: int, t: int): set<int>
    requires a in e && b in e
  {
    set x | x in e[a] && x in e[b] && e[a][x].value >= t && e[b][x].value >= t
  }

  /** The directed edges whose trussness is not final yet. */
  ghost function Unfinalized(e: Ego): set<(int, int)>
  {
    set a, b | a in e && b in e[a] && !e[a][b].finalized :: (a, b)
  }

  lemma {:induction false} SubsetCard(s: set<int>, t: set<int>)
    requires s <= t
    ensures |s| <= |t|
  {
    if s != {} {
      NonemptyHasMember(s);
      var x :| x in s;
      SubsetCard(s - {x}, t - {x});
    }
  }

  // ---------------------------------------------------------------------
  // Invariants of the peeling loop.

  /**
   * The peeling invariant at level `last` (the key of the last peeled edge):
   * an unfinalized edge's value is max(last, its live triangles), and at most
   * the triangles it keeps at the next trussness; a finalized edge's value t
   * is at most last + 2 and it keeps at least t - 2 triangles whose other
   * edges are unfinalized or have trussness at least t. Values never exceed
   * the initial support (plus 2 once finalized).
   */
  ghost predicate Levels(e0: Ego, e: Ego, last: int)
  {
    && SameShape(e0, e) && WellFormed(e) && last >= 0
    && (forall a, b :: Edge(e, a, b) && !e[a][b].finalized ==>
          && e[a][b].value == Max(last, |Live(e, a, b)|)
          && e[a][b].value <= |Kept(e, a, b, last + 2)|
          && e[a][b].value <= e0[a][b].value)
    && (forall a, b :: Edge(e, a, b) && e[a][b].finalized ==>
          && 2 <= e[a][b].value <= last + 2
          && |Kept(e, a, b, e[a][b].value)| >= e[a][b].value - 2
          && e[a][b].value <= e0[a][b].value + 2)
  }

  /** Support-queue entries name edges u < v, are not below the level, and
    * are not below the current value of an unfinalized edge. */
  ghost predicate QueueOk(e: Ego, q: seq<Entry>, last: int)
  {
    forall x :: x in q ==>
      && x.u < x.v && Edge(e, x.u, x.v) && x.s >= last
      && (!e[x.u][x.v].finalized ==> x.s >= e[x.u][x.v].value)
  }

  /** Every unfinalized edge u < v has an entry with its current value. */
  ghost predicate Pending(e: Ego, q: seq<Entry>)
  {
    forall a, b :: Edge(e, a, b) && a < b && !e[a][b].finalized ==> Entry(a, b, e[a][b].value) in q
  }

  /** The truss queue lists every finalized edge u < v once, with its trussness, in ascending order. */
  ghost predicate Ordered(e: Ego, tq: seq<Entry>)
  {
    && (forall x :: x in tq ==>
          x.u < x.v && Edge(e, x.u, x.v) && e[x.u][x.v].finalized && x.s == e[x.u][x.v].value)
    && (forall a, b :: Edge(e, a, b) && a < b && e[a][b].finalized ==> Entry(a, b, e[a][b].value) in tq)
    && (forall i, j :: 0 <= i < j < |tq| ==> tq[i].s <= tq[j].s && (tq[i].u, tq[i].v) != (tq[j].u, tq[j].v))
  }

  // ---------------------------------------------------------------------
  // One peeling step, described as a whole.

  /** Edge (a, b) is one of the edges (c, w) with c = u and w in `du`, or c = v and w in `dv`. */
  predicate Touched(u: int, v: int, du: set<int>, dv: set<int>, a: int, b: int)
  {
    (a == u && b in du) || (b == u && a in du) || (a == v && b in dv) || (b == v && a in dv)
  }

  /** The record of (a, b) after peeling (u, v) at key `s` and visiting the
    * common neighbours `du` (on u's side) and `dv` (on v's side). */
  function Expected(e: Ego, u: int, v: int, s: int, du: set<int>, dv: set<int>, a: int, b: int): EdgeInfo
    requires Edge(e, a, b)
  {
    if (a == u && b == v) || (a == v && b == u) then EdgeInfo(s + 2, true)
    else if Touched(u, v, du, dv, a, b) && e[a][b].value > s then e[a][b].(value := e[a][b].value - 1)
    else e[a][b]
  }

  ghost predicate AfterPop(e: Ego, e2: Ego, u: int, v: int, s: int, du: set<int>, dv: set<int>)
  {
    && SameShape(e, e2)
    && (forall a, b :: Edge(e, a, b) ==> e2[a][b] == Expected(e, u, v, s, du, dv, a, b))
  }

  /** Finalizing (u, v) starts the step. */
  lemma AfterPopStart(e: Ego, u: int, v: int, s: int)
    requires WellFormed(e) && Edge(e, u, v)
    ensures AfterPop(e, PutBoth(e, u, v, EdgeInfo(s + 2, true)), u, v, s, {}, {})
  {
    PutBothShape(e, u, v, EdgeInfo(s + 2, true));
  }

  /** Visiting common neighbour `w` on u's side, when (u, w) is already
    * at or below the level: nothing changes, but the step has visited it. */
  lemma KeepTouchU(e: Ego, e2: Ego, u: int, v: int, s: int, du: set<int>, dv: set<int>, w: int)
    requires WellFormed(e) && AfterPop(e, e2, u, v, s, du, dv) && u != v
    requires Edge(e, u, w) && w != u && w != v && w !in du
    requires e[u][w].value <= s
    ensures AfterPop(e, e2, u, v, s, du + {w}, dv)
  {
    forall a, b | Edge(e, a, b)
      ensures e2[a][b] == Expected(e, u, v, s, du + {w}, dv, a, b)
    {
      assert e2[a][b] == Expected(e, u, v, s, du, dv, a, b);
      if (a == u && b == w) || (a == w && b == u) {
        assert e[w][u] == e[u][w];
      }
    }
  }

  /** Visiting common neighbour `w` on u's side, when (u, w) is above
    * the level: (u, w) is still as before the step, and after its
    * decrement the step has visited it. */
  lemma DecrementTouchU(e: Ego, e2: Ego, u: int, v: int, s: int, du: set<int>, dv: set<int>, w: int)
    requires WellFormed(e) && AfterPop(e, e2, u, v, s, du, dv) && u != v
    requires Edge(e, u, w) && w != u && w != v && w !in du
    ensures Edge(e2, u, w) && Edge(e2, w, u) && e2[u][w] == e[u][w] && e2[w][u] == e[u][w]
    ensures e[u][w].value > s ==>
      AfterPop(e, PutBoth(e2, u, w, e2[u][w].(value := e2[u][w].value - 1)), u, v, s, du + {w}, dv)
  {
    assert Edge(e, w, u) && e[w][u] == e[u][w];
    assert e2[u][w] == Expected(e, u, v, s, du, dv, u, w);
    assert e2[w][u] == Expected(e, u, v, s, du, dv, w, u);
    if e[u][w].value > s {
      var info := e2[u][w].(value := e2[u][w].value - 1);
      var e3 := PutBoth(e2, u, w, info);
      PutBothShape(e2, u, w, info);
      SameShapeTrans(e, e2, e3);
      assert e3[u][w] == Expected(e, u, v, s, du + {w}, dv, u, w);
      assert e3[w][u] == Expected(e, u, v, s, du + {w}, dv, w, u) by {
        assert e[w][u] == e[u][w];
      }
      forall a, b | Edge(e, a, b) && !((a == u && b == w) || (a == w && b == u))
        ensures e3[a][b] == Expected(e, u, v, s, du + {w}, dv, a, b)
      {
        assert Edge(e2, a, b) && e3[a][b] == e2[a][b];
        assert e2[a][b] == Expected(e, u, v, s, du, dv, a, b);
      }
    }
  }

  /** Visiting common neighbour `w` on v's side, when (v, w) is already
    * at or below the level: nothing changes, but the step has visited it. */
  lemma KeepTouchV(e: Ego, e2: Ego, u: int, v: int, s: int, du: set<int>, dv: set<int>, w: int)
    requires WellFormed(e) && AfterPop(e, e2, u, v, s, du, dv) && u != v
    requires Edge(e, v, w) && w != u && w != v && w !in dv
    requires e[v][w].value <= s
    ensures AfterPop(e, e2, u, v, s, du, dv + {w})
  {
    forall a, b | Edge(e, a, b)
      ensures e2[a][b] == Expected(e, u, v, s, du, dv + {w}, a, b)
    {
      assert e2[a][b] == Expected(e, u, v, s, du, dv, a, b);
      if (a == v && b == w) || (a == w && b == v) {
        assert e[w][v] == e[v][w];
      }
    }
  }

  /** Visiting common neighbour `w` on v's side, when (v, w) is above
    * the level: (v, w) is still as before the step, and after its
    * decrement the step has visited it. */
  lemma DecrementTouchV(e: Ego, e2: Ego, u: int, v: int, s: int, du: set<int>, dv: set<int>, w: int)
    requires WellFormed(e) && AfterPop(e, e2, u, v, s, du, dv) && u != v
    requires Edge(e, v, w) && w != u && w != v && w !in dv
    ensures Edge(e2, v, w) && Edge(e2, w, v) && e2[v][w] == e[v][w] && e2[w][v] == e[v][w]
    ensures e[v][w].value > s ==>
      AfterPop(e, PutBoth(e2, v, w, e2[v][w].(value := e2[v][w].value - 1)), u, v, s, du, dv + {w})
  {
    assert Edge(e, w, v) && e[w][v] == e[v][w];
    assert e2[v][w] == Expected(e, u, v, s, du, dv, v, w);
    assert e2[w][v] == Expected(e, u, v, s, du, dv, w, v);
    if e[v][w].value > s {
      var info := e2[v][w].(value := e2[v][w].value - 1);
      var e3 := PutBoth(e2, v, w, info);
      PutBothShape(e2, v, w, info);
      SameShapeTrans(e, e2, e3);
      assert e3[v][w] == Expected(e, u, v, s, du, dv + {w}, v, w);
      assert e3[w][v] == Expected(e, u, v, s, du, dv + {w}, w, v) by {
        assert e[w][v] == e[v][w];
      }
      forall a, b | Edge(e, a, b) && !((a == v && b == w) || (a == w && b == v))
        ensures e3[a][b] == Expected(e, u, v, s, du, dv + {w}, a, b)
      {
        assert Edge(e2, a, b) && e3[a][b] == e2[a][b];
        assert e2[a][b] == Expected(e, u, v, s, du, dv, a, b);
      }
    }
  }

  /** Flags after the step: only (u, v) becomes finalized; finalized values stay; touched edges were unfinalized. */
  lemma FlagsAfter(e: Ego, e2: Ego, u: int, v: int, s: int, d: set<int>, a: int, b: int)
    requires WellFormed(e) && Edge(e, u, v) && d == Live(e, u, v)
    requires AfterPop(e, e2, u, v, s, d, d) && Edge(e, a, b)
    ensures Edge(e2, a, b)
    ensures e2[a][b].finalized == (e[a][b].finalized || (a == u && b == v) || (a == v && b == u))
    ensures e[a][b].finalized && !((a == u && b == v) || (a == v && b == u)) ==> e2[a][b] == e[a][b]
    ensures (a == u && b == v) || (a == v && b == u) ==> e2[a][b].value == s + 2
    ensures Touched(u, v, d, d, a, b) ==> !e[a][b].finalized
  {
    assert e2[a][b] == Expected(e, u, v, s, d, d, a, b);
    if a == u && b in d {
    } else if b == u && a in d {
      assert e[a][b] == e[b][a];
    } else if a == v && b in d {
    } else if b == v && a in d {
      assert e[a][b] == e[b][a];
    }
  }

  /** The live triangles an edge other than (u, v) keeps after the step. */
  lemma LiveAfterSet(e: Ego, e2: Ego, u: int, v: int, s: int, d: set<int>, a: int, b: int)
    requires WellFormed(e) && Edge(e, u, v) && d == Live(e, u, v)
    requires AfterPop(e, e2, u, v, s, d, d) && Edge(e, a, b) && !e2[a][b].finalized
    ensures b in e && b in e2
    ensures Live(e2, a, b) == Live(e, a, b) - ((if a == u || b == u then {v} else {}) + (if a == v || b == v then {u} else {}))
  {
    FlagsAfter(e, e2, u, v, s, d, a, b);
    var r: set<int> := (if a == u || b == u then {v} else {}) + (if a == v || b == v then {u} else {});
    forall x
      ensures x in Live(e2, a, b) <==> x in Live(e, a, b) - r
    {
      if x in e[a] && x in e[b] {
        FlagsAfter(e, e2, u, v, s, d, a, x);
        FlagsAfter(e, e2, u, v, s, d, b, x);
      }
    }
  }

  /** Live triangles after the step: an unfinalized edge loses exactly the
    * triangle through (u, v), which it had precisely when it was touched. */
  lemma LiveAfter(e: Ego, e2: Ego, u: int, v: int, s: int, d: set<int>, a: int, b: int)
    requires WellFormed(e) && Edge(e, u, v) && !e[u][v].finalized && d == Live(e, u, v)
    requires AfterPop(e, e2, u, v, s, d, d) && Edge(e, a, b) && !e2[a][b].finalized
    ensures b in e && b in e2
    ensures Touched(u, v, d, d, a, b) ==> |Live(e2, a, b)| == |Live(e, a, b)| - 1
    ensures !Touched(u, v, d, d, a, b) ==> Live(e2, a, b) == Live(e, a, b)
  {
    FlagsAfter(e, e2, u, v, s, d, a, b);
    LiveAfterSet(e, e2, u, v, s, d, a, b);
    assert !e[a][b].finalized && e[b][a] == e[a][b];
    if a == u {
      assert b in d <==> v in Live(e, a, b) by {
        if v in e[b] { assert e[b][v] == e[v][b]; }
      }
    } else if b == u {
      assert a in d <==> v in Live(e, a, b) by {
        if v in e[a] { assert e[a][v] == e[v][a]; }
      }
    } else if a == v {
      assert b in d <==> u in Live(e, a, b) by {
        if u in e[b] { assert e[b][u] == e[u][b]; }
        assert e[u][v] == e[v][u];
      }
    } else if b == v {
      assert a in d <==> u in Live(e, a, b) by {
        if u in e[a] { assert e[a][u] == e[u][a]; }
        assert e[u][v] == e[v][u];
      }
    }
  }

  /** Triangles kept at a trussness up to s + 2 are still kept after the step. */
  lemma KeptAfter(e: Ego, e2: Ego, u: int, v: int, s: int, d: set<int>, a: int, b: int, t: int)
    requires WellFormed(e) && Edge(e, u, v) && d == Live(e, u, v)
    requires AfterPop(e, e2, u, v, s, d, d) && Edge(e, a, b) && t <= s + 2
    ensures b in e && b in e2
    ensures Kept(e, a, b, t) <= Kept(e2, a, b, t)
  {
    forall x | x in Kept(e, a, b, t)
      ensures x in Kept(e2, a, b, t)
    {
      FlagsAfter(e, e2, u, v, s, d, a, x);
      FlagsAfter(e, e2, u, v, s, d, b, x);
    }
  }

  /** Live triangles before the step are kept at trussness s + 2 after it. */
  lemma LiveKept(e: Ego, e2: Ego, u: int, v: int, s: int, d: set<int>, a: int, b: int)
    requires WellFormed(e) && Edge(e, u, v) && d == Live(e, u, v)
    requires AfterPop(e, e2, u, v, s, d, d) && Edge(e, a, b)
    ensures b in e && b in e2
    ensures Live(e, a, b) <= Kept(e2, a, b, s + 2)
  {
    forall x | x in Live(e, a, b)
      ensures x in Kept(e2, a, b, s + 2)
    {
      FlagsAfter(e, e2, u, v, s, d, a, x);
      FlagsAfter(e, e2, u, v, s, d, b, x);
    }
  }

  /** The facts a peeling step starts from: (u, v) is an unfinalized edge whose
    * key `s` is the minimum over unfinalized edges and not below the level. */
  ghost predicate StepReady(e0: Ego, e: Ego, last: int, u: int, v: int, s: int, d: set<int>)
  {
    && Levels(e0, e, last)
    && Edge(e, u, v) && !e[u][v].finalized && s == e[u][v].value && last <= s
    && (forall a, b :: Edge(e, a, b) && !e[a][b].finalized ==> e[a][b].value >= s)
    && d == Live(e, u, v)
  }

  /** An edge still unfinalized after the step satisfies the invariant at level s. */
  lemma StepUnfinalized(e0: Ego, e: Ego, e2: Ego, last: int, u: int, v: int, s: int, d: set<int>, a: int, b: int)
    requires StepReady(e0, e, last, u, v, s, d) && AfterPop(e, e2, u, v, s, d, d)
    requires Edge(e, a, b) && !e2[a][b].finalized
    ensures b in e2
    ensures e2[a][b].value == Max(s, |Live(e2, a, b)|)
    ensures e2[a][b].value <= |Kept(e2, a, b, s + 2)|
    ensures e2[a][b].value <= e0[a][b].value
  {
    FlagsAfter(e, e2, u, v, s, d, a, b);
    LiveAfter(e, e2, u, v, s, d, a, b);
    LiveKept(e, e2, u, v, s, d, a, b);
    SubsetCard(Live(e, a, b), Kept(e2, a, b, s + 2));
    assert e2[a][b] == Expected(e, u, v, s, d, d, a, b);
    if s == last {
      KeptAfter(e, e2, u, v, s, d, a, b, last + 2);
      SubsetCard(Kept(e, a, b, last + 2), Kept(e2, a, b, s + 2));
    }
  }

  /** A finalized edge after the step satisfies the invariant at level s. */
  lemma StepFinalized(e0: Ego, e: Ego, e2: Ego, last: int, u: int, v: int, s: int, d: set<int>, a: int, b: int)
    requires StepReady(e0, e, last, u, v, s, d) && AfterPop(e, e2, u, v, s, d, d)
    requires Edge(e, a, b) && e2[a][b].finalized
    ensures b in e2
    ensures 2 <= e2[a][b].value <= s + 2
    ensures |Kept(e2, a, b, e2[a][b].value)| >= e2[a][b].value - 2
    ensures e2[a][b].value <= e0[a][b].value + 2
  {
    FlagsAfter(e, e2, u, v, s, d, a, b);
    if (a == u && b == v) || (a == v && b == u) {
      assert e[a][b] == e[u][v];
      LiveKept(e, e2, u, v, s, d, a, b);
      SubsetCard(Live(e, a, b), Kept(e2, a, b, s + 2));
      if |Live(e, a, b)| < s {
        KeptAfter(e, e2, u, v, s, d, a, b, last + 2);
        SubsetCard(Kept(e, a, b, last + 2), Kept(e2, a, b, s + 2));
      }
    } else {
      KeptAfter(e, e2, u, v, s, d, a, b, e[a][b].value);
    SubsetCard(Kept(e, a, b, e[a][b].value), Kept(e2, a, b, e[a][b].value));
    }
  }

  /** The step keeps records symmetric. */
  lemma StepWellFormed(e: Ego, e2: Ego, u: int, v: int, s: int, d: set<int>)
    requires WellFormed(e) && AfterPop(e, e2, u, v, s, d, d)
    ensures WellFormed(e2)
  {
    forall a, b | a in e2 && b in e2[a]
      ensures b in e2 && a in e2[b] && e2[b][a] == e2[a][b]
    {
      assert Edge(e, a, b) && Edge(e, b, a);
      assert e2[a][b] == Expected(e, u, v, s, d, d, a, b);
      assert e2[b][a] == Expected(e, u, v, s, d, d, b, a);
    }
  }

  /** One whole peeling step moves the invariant from level `last` to level `s`. */
  lemma LevelsStep(e0: Ego, e: Ego, e2: Ego, last: int, u: int, v: int, s: int, d: set<int>)
    requires StepReady(e0, e, last, u, v, s, d) && AfterPop(e, e2, u, v, s, d, d)
    ensures Levels(e0, e2, s)
  {
    SameShapeTrans(e0, e, e2);
    StepWellFormed(e, e2, u, v, s, d);
    forall a, b | Edge(e2, a, b) && !e2[a][b].finalized
      ensures && e2[a][b].value == Max(s, |Live(e2, a, b)|)
              && e2[a][b].value <= |Kept(e2, a, b, s + 2)|
              && e2[a][b].value <= e0[a][b].value
    {
      StepUnfinalized(e0, e, e2, last, u, v, s, d, a, b);
    }
    forall a, b | Edge(e2, a, b) && e2[a][b].finalized
      ensures && 2 <= e2[a][b].value <= s + 2
              && |Kept(e2, a, b, e2[a][b].value)| >= e2[a][b].value - 2
              && e2[a][b].value <= e0[a][b].value + 2
    {
      StepFinalized(e0, e, e2, last, u, v, s, d, a, b);
    }
  }

  // ---------------------------------------------------------------------
  // The queues.

  /** Removing position i keeps every other entry. */
  lemma RestMembers(q: seq<Entry>, i: int, y: Entry)
    requires 0 <= i < |q|
    ensures y in q[..i] + q[i + 1..] ==> y in q
    ensures y in q && y != q[i] ==> y in q[..i] + q[i + 1..]
  {
    if y in q && y != q[i] {
      var j :| 0 <= j < |q| && q[j] == y;
      if j < i {
        assert (q[..i] + q[i + 1..])[j] == y;
      } else {
        assert (q[..i] + q[i + 1..])[j - 1] == y;
      }
    }
    if y in q[..i] + q[i + 1..] {
      assert y in q[..i] || y in q[i + 1..];
    }
  }

  /** The popped entry of a finalized edge is stale: dropping it keeps the queue invariants. */
  lemma SkipStale(e: Ego, q: seq<Entry>, last: int, i: int)
    requires WellFormed(e) && QueueOk(e, q, last) && Pending(e, q)
    requires 0 <= i < |q| && e[q[i].u][q[i].v].finalized
    ensures QueueOk(e, q[..i] + q[i + 1..], last) && Pending(e, q[..i] + q[i + 1..])
  {
    var rest := q[..i] + q[i + 1..];
    forall x | x in rest
      ensures x.u < x.v && Edge(e, x.u, x.v) && x.s >= last
      ensures !e[x.u][x.v].finalized ==> x.s >= e[x.u][x.v].value
    {
      RestMembers(q, i, x);
    }
    forall a, b | Edge(e, a, b) && a < b && !e[a][b].finalized
      ensures Entry(a, b, e[a][b].value) in rest
    {
      RestMembers(q, i, Entry(a, b, e[a][b].value));
    }
  }

  /** A minimum entry of an unfinalized edge carries the edge's current value,
    * which is then the smallest value of any unfinalized edge. */
  lemma PoppedIsCurrent(e: Ego, q: seq<Entry>, last: int, i: int)
    requires WellFormed(e) && QueueOk(e, q, last) && Pending(e, q)
    requires 0 <= i < |q| && (forall y :: y in q ==> q[i].s <= y.s)
    requires !e[q[i].u][q[i].v].finalized
    ensures q[i].s == e[q[i].u][q[i].v].value && last <= q[i].s
    ensures forall a, b :: Edge(e, a, b) && !e[a][b].finalized ==> e[a][b].value >= q[i].s
  {
    var x := q[i];
    assert x in q;
    assert Entry(x.u, x.v, e[x.u][x.v].value) in q;
    forall a, b | Edge(e, a, b) && !e[a][b].finalized
      ensures e[a][b].value >= x.s
    {
      if a < b {
        assert Entry(a, b, e[a][b].value) in q;
      } else {
        assert e[b][a] == e[a][b] && a != b;
        assert Entry(b, a, e[b][a].value) in q;
      }
    }
  }

  /** After finalizing (u, v), the rest of the queue satisfies the invariants at level s. */
  lemma QueueAfterFinalize(e: Ego, q: seq<Entry>, last: int, i: int)
    requires WellFormed(e) && QueueOk(e, q, last) && Pending(e, q)
    requires 0 <= i < |q| && (forall y :: y in q ==> q[i].s <= y.s)
    requires !e[q[i].u][q[i].v].finalized
    ensures var x := q[i];
      var e1 := PutBoth(e, x.u, x.v, EdgeInfo(e[x.u][x.v].value + 2, true));
      QueueOk(e1, q[..i] + q[i + 1..], x.s) && Pending(e1, q[..i] + q[i + 1..])
  {
    var x: Entry := q[i];
    var e1: Ego := PutBoth(e, x.u, x.v, EdgeInfo(e[x.u][x.v].value + 2, true));
    var rest: seq<Entry> := q[..i] + q[i + 1..];
    assert Edge(e, x.u, x.v) && Edge(e, x.v, x.u);
    PutBothShape(e, x.u, x.v, EdgeInfo(e[x.u][x.v].value + 2, true));
    forall y | y in rest
      ensures y.u < y.v && Edge(e1, y.u, y.v) && y.s >= x.s
      ensures !e1[y.u][y.v].finalized ==> y.s >= e1[y.u][y.v].value
    {
      RestMembers(q, i, y);
    }
    forall a, b | Edge(e1, a, b) && a < b && !e1[a][b].finalized
      ensures Entry(a, b, e1[a][b].value) in rest
    {
      assert !((a == x.u && b == x.v) || (a == x.v && b == x.u));
      assert Edge(e, a, b) && e1[a][b] == e[a][b];
      RestMembers(q, i, Entry(a, b, e[a][b].value));
    }
  }

  /** Decrementing an unfinalized edge above the level and pushing its new value keeps the invariants. */
  lemma QueueDecrement(e: Ego, q: seq<Entry>, s: int, c: int, w: int)
    requires QueueOk(e, q, s) && Pending(e, q)
    requires Edge(e, c, w) && Edge(e, w, c) && c != w && e[w][c] == e[c][w]
    requires !e[c][w].finalized && e[c][w].value > s
    ensures var e' := PutBoth(e, c, w, e[c][w].(value := e[c][w].value - 1));
      var q' := q + [Entry(if c < w then c else w, if c < w then w else c, e'[c][w].value)];
      QueueOk(e', q', s) && Pending(e', q')
  {
    var info: EdgeInfo := e[c][w].(value := e[c][w].value - 1);
    var e': Ego := PutBoth(e, c, w, info);
    var q': seq<Entry> := q + [Entry(if c < w then c else w, if c < w then w else c, e'[c][w].value)];
    PutBothShape(e, c, w, info);
    forall y | y in q'
      ensures y.u < y.v && Edge(e', y.u, y.v) && y.s >= s
      ensures !e'[y.u][y.v].finalized ==> y.s >= e'[y.u][y.v].value
    {
      if y in q {
        assert Edge(e, y.u, y.v);
        if (y.u == c && y.v == w) || (y.u == w && y.v == c) {
          assert e[y.u][y.v] == e[c][w] && e'[y.u][y.v] == info;
        } else {
          assert e'[y.u][y.v] == e[y.u][y.v];
        }
      }
    }
    forall a, b | Edge(e', a, b) && a < b && !e'[a][b].finalized
      ensures Entry(a, b, e'[a][b].value) in q'
    {
      if (a == c && b == w) || (a == w && b == c) {
        assert q'[|q|] == Entry(a, b, e'[a][b].value);
      } else {
        assert Edge(e, a, b) && e'[a][b] == e[a][b];
        assert Entry(a, b, e[a][b].value) in q;
      }
    }
  }

  /** Appending the peeled edge keeps the truss queue ordered and complete. */
  lemma OrderedStep(e0: Ego, e: Ego, e2: Ego, tq: seq<Entry>, last: int, u: int, v: int, s: int, d: set<int>)
    requires StepReady(e0, e, last, u, v, s, d) && AfterPop(e, e2, u, v, s, d, d)
    requires u < v && Ordered(e, tq)
    ensures Ordered(e2, tq + [Entry(u, v, s + 2)])
  {
    var tq' := tq + [Entry(u, v, s + 2)];
    forall x | x in tq'
      ensures x.u < x.v && Edge(e2, x.u, x.v) && e2[x.u][x.v].finalized && x.s == e2[x.u][x.v].value
    {
      if x in tq {
        FlagsAfter(e, e2, u, v, s, d, x.u, x.v);
      } else {
        FlagsAfter(e, e2, u, v, s, d, u, v);
      }
    }
    forall a, b | Edge(e2, a, b) && a < b && e2[a][b].finalized
      ensures Entry(a, b, e2[a][b].value) in tq'
    {
      FlagsAfter(e, e2, u, v, s, d, a, b);
      if a == u && b == v {
        assert tq'[|tq|] == Entry(a, b, e2[a][b].value);
      } else {
        assert Entry(a, b, e[a][b].value) in tq;
      }
    }
    forall i, j | 0 <= i < j < |tq'|
      ensures tq'[i].s <= tq'[j].s && (tq'[i].u, tq'[i].v) != (tq'[j].u, tq'[j].v)
    {
      if j == |tq| {
        assert tq[i] in tq;
        assert Edge(e, tq[i].u, tq[i].v) && e[tq[i].u][tq[i].v].finalized;
      }
    }
  }

  /** Finalizing an edge strictly shrinks the set of unfinalized edges. */
  lemma UnfinalizedShrinks(e: Ego, e2: Ego, u: int, v: int, s: int, d: set<int>)
    requires WellFormed(e) && Edge(e, u, v) && !e[u][v].finalized && d == Live(e, u, v)
    requires AfterPop(e, e2, u, v, s, d, d)
    ensures Unfinalized(e2) < Unfinalized(e)
  {
    forall p | p in Unfinalized(e2)
      ensures p in Unfinalized(e)
    {
      var (a, b) := p;
      assert Edge(e, a, b);
      FlagsAfter(e, e2, u, v, s, d, a, b);
    }
    FlagsAfter(e, e2, u, v, s, d, u, v);
    assert (u, v) in Unfinalized(e) && (u, v) !in Unfinalized(e2);
  }

  /** Before peeling: supports are the live triangle counts and every edge is pending. */
  lemma LevelsInit(e0: Ego)
    requires WellFormed(e0)
    requires forall a, b :: Edge(e0, a, b) ==> e0[a][b] == EdgeInfo(Support(e0, a, b), false)
    ensures Levels(e0, e0, 0)
  {
    forall a, b | Edge(e0, a, b)
      ensures e0[a][b].value == Max(0, |Live(e0, a, b)|) && e0[a][b].value <= |Kept(e0, a, b, 2)|
    {
      assert b in e0;
      forall x | x in e0[a] && x in e0[b]
        ensures !e0[a][x].finalized && !e0[b][x].finalized
      {
        assert Edge(e0, a, x) && Edge(e0, b, x);
      }
      assert Live(e0, a, b) == e0[a].Keys * e0[b].Keys;
      assert Kept(e0, a, b, 2) == e0[a].Keys * e0[b].Keys;
    }
  }

  /** When nothing is pending, every edge is final and carries its certificate. */
  lemma PeelDone(e0: Ego, e: Ego, last: int)
    requires Levels(e0, e, last) && Pending(e, [])
    ensures forall a, b :: Edge(e, a, b) ==> e[a][b].finalized && 2 <= e[a][b].value <= e0[a][b].value + 2
    ensures forall a, b :: Edge(e, a, b) ==> |Strong(e, a, b, e[a][b].value)| >= e[a][b].value - 2
  {
    forall a, b | Edge(e, a, b)
      ensures e[a][b].finalized
    {
      assert a != b && e[b][a] == e[a][b];
      if a < b {
        assert Entry(a, b, e[a][b].value) !in [];
      } else {
        assert Entry(b, a, e[b][a].value) !in [];
      }
    }
    forall a, b | Edge(e, a, b)
      ensures |Strong(e, a, b, e[a][b].value)| >= e[a][b].value - 2
    {
      var t := e[a][b].value;
      assert b in e;
      forall x | x in e[a] && x in e[b]
        ensures e[a][x].finalized && e[b][x].finalized
      {
        assert Edge(e, a, x) && Edge(e, b, x);
      }
      assert Strong(e, a, b, t) == Kept(e, a, b, t);
    }
  }

  // ---------------------------------------------------------------------
  // The peeling procedure.

  /** The support queue of one ego network: one entry per edge u < v, keyed by its support. */
  method InitSupportQueue(e: Ego) returns (q: seq<Entry>)
    ensures forall x :: x in q ==> x.u < x.v && Edge(e, x.u, x.v) && x.s == e[x.u][x.v].value
    ensures forall a, b :: Edge(e, a, b) && a < b ==> Entry(a, b, e[a][b].value) in q
  {
    q := [];
    var todo := e.Keys;
    ghost var done: set<int> := {};
    while todo != {}
      invariant todo + done == e.Keys
      invariant forall x :: x in q ==> x.u < x.v && Edge(e, x.u, x.v) && x.s == e[x.u][x.v].value
      invariant forall a, b :: a in done && Edge(e, a, b) && a < b ==> Entry(a, b, e[a][b].value) in q
      decreases todo
    {
      NonemptyHasMember(todo);
      var u :| u in todo;
      var row := e[u];
      var todoV := row.Keys;
      ghost var doneV: set<int> := {};
      while todoV != {}
        invariant todoV + doneV == row.Keys
        invariant forall x :: x in q ==> x.u < x.v && Edge(e, x.u, x.v) && x.s == e[x.u][x.v].value
        invariant forall a, b :: a in done && Edge(e, a, b) && a < b ==> Entry(a, b, e[a][b].value) in q
        invariant forall b :: b in doneV && u < b ==> Entry(u, b, e[u][b].value) in q
        decreases todoV
      {
        NonemptyHasMember(todoV);
        var v :| v in todoV;
        if u < v {
          q := q + [Entry(u, v, row[v].value)];
        }
        todoV := todoV - {v};
        doneV := doneV + {v};
      }
      todo := todo - {u};
      done := done + {u};
    }
  }

  /** The neighbours of `u` whose edge to `u` is not finalized yet. */
  method UnfinalizedNeighbours(e: Ego, u: int) returns (nbrs: seq<int>)
    requires u in e
    ensures NoDup(nbrs)
    ensures forall x :: x in nbrs <==> x in e[u] && !e[u][x].finalized
  {
    nbrs := [];
    var todo := e[u].Keys;
    while todo != {}
      invariant todo <= e[u].Keys && NoDup(nbrs)
      invariant forall x :: x in nbrs ==> x !in todo
      invariant forall x :: x in nbrs <==> x in e[u] && x !in todo && !e[u][x].finalized
      decreases todo
    {
      NonemptyHasMember(todo);
      var x :| x in todo;
      if !e[u][x].finalized {
        nbrs := nbrs + [x];
      }
      todo := todo - {x};
    }
  }

  /** The position of an entry with the smallest key: the top of the min-heap. */
  method PopMin(q: seq<Entry>) returns (i: int)
    requires q != []
    ensures 0 <= i < |q|
    ensures forall y :: y in q ==> q[i].s <= y.s
  {
    i := 0;
    var j := 1;
    while j < |q|
      invariant 0 <= i < j <= |q|
      invariant forall k :: 0 <= k < j ==> q[i].s <= q[k].s
    {
      if q[j].s < q[i].s {
        i := j;
      }
      j := j + 1;
    }
  }

  /** A live common neighbour of (u, v) closes a triangle of two unfinalized edges. */
  lemma LiveMember(e: Ego, u: int, v: int, w: int)
    requires WellFormed(e) && Edge(e, u, v) && w in Live(e, u, v)
    ensures Edge(e, u, w) && Edge(e, v, w) && w != u && w != v
    ensures !e[u][w].finalized && !e[v][w].finalized
  {
  }

  /** Once (u, v) is finalized, the common unfinalized neighbours of u and v are exactly its live triangles. */
  lemma CommonIsLive(e: Ego, e1: Ego, u: int, v: int, s: int, nbrsU: seq<int>, nbrsV: seq<int>)
    requires WellFormed(e) && Edge(e, u, v) && u != v && e1 == PutBoth(e, u, v, EdgeInfo(s + 2, true))
    requires forall x :: x in nbrsU <==> x in e1[u] && !e1[u][x].finalized
    requires forall x :: x in nbrsV <==> x in e1[v] && !e1[v][x].finalized
    ensures Elems(Common(nbrsU, nbrsV)) == Live(e, u, v)
  {
    PutBothShape(e, u, v, EdgeInfo(s + 2, true));
    forall x
      ensures x in Elems(Common(nbrsU, nbrsV)) <==> x in Live(e, u, v)
    {
      CommonMembers(nbrsU, nbrsV, x);
      if x in e[u] && x in e[v] {
        assert x != v && x != u;
        assert e1[u][x] == e[u][x] && e1[v][x] == e[v][x];
      }
    }
  }

  /** The `ego[u][w]` half of visiting common neighbour `w`: decrement and re-queue (u, w) if it is above the level. */
  method LowerU(ghost e: Ego, e2: Ego, q2: seq<Entry>, u: int, v: int, s: int, ghost du: set<int>, ghost dv: set<int>, w: int)
    returns (e3: Ego, q3: seq<Entry>)
    requires WellFormed(e) && AfterPop(e, e2, u, v, s, du, dv) && u != v
    requires Edge(e, u, w) && w != u && w != v && w !in du && !e[u][w].finalized
    requires QueueOk(e2, q2, s) && Pending(e2, q2)
    ensures AfterPop(e, e3, u, v, s, du + {w}, dv)
    ensures QueueOk(e3, q3, s) && Pending(e3, q3)
  {
    DecrementTouchU(e, e2, u, v, s, du, dv, w);
    e3, q3 := e2, q2;
    if e2[u][w].value > s {
      QueueDecrement(e2, q2, s, u, w);
      e3 := PutBoth(e2, u, w, e2[u][w].(value := e2[u][w].value - 1));
      q3 := q2 + [Entry(if u < w then u else w, if u < w then w else u, e3[u][w].value)];
    } else {
      KeepTouchU(e, e2, u, v, s, du, dv, w);
    }
  }

  /** The `ego[v][w]` half of visiting common neighbour `w`. */
  method LowerV(ghost e: Ego, e2: Ego, q2: seq<Entry>, u: int, v: int, s: int, ghost du: set<int>, ghost dv: set<int>, w: int)
    returns (e3: Ego, q3: seq<Entry>)
    requires WellFormed(e) && AfterPop(e, e2, u, v, s, du, dv) && u != v
    requires Edge(e, v, w) && w != u && w != v && w !in dv && !e[v][w].finalized
    requires QueueOk(e2, q2, s) && Pending(e2, q2)
    ensures AfterPop(e, e3, u, v, s, du, dv + {w})
    ensures QueueOk(e3, q3, s) && Pending(e3, q3)
  {
    DecrementTouchV(e, e2, u, v, s, du, dv, w);
    e3, q3 := e2, q2;
    if e2[v][w].value > s {
      QueueDecrement(e2, q2, s, v, w);
      e3 := PutBoth(e2, v, w, e2[v][w].(value := e2[v][w].value - 1));
      q3 := q2 + [Entry(if v < w then v else w, if v < w then w else v, e3[v][w].value)];
    } else {
      KeepTouchV(e, e2, u, v, s, du, dv, w);
    }
  }

  /** Peeling the popped edge (u, v) at key `s`: finalize it with trussness s + 2, then
    * lower each edge to a common live neighbour that is still above the level. */
  method PeelEdge(e: Ego, q: seq<Entry>, u: int, v: int, s: int) returns (e2: Ego, q2: seq<Entry>)
    requires WellFormed(e) && Edge(e, u, v) && u < v && !e[u][v].finalized && e[u][v].value == s
    requires QueueOk(PutBoth(e, u, v, EdgeInfo(s + 2, true)), q, s)
    requires Pending(PutBoth(e, u, v, EdgeInfo(s + 2, true)), q)
    ensures AfterPop(e, e2, u, v, s, Live(e, u, v), Live(e, u, v))
    ensures QueueOk(e2, q2, s) && Pending(e2, q2)
  {
    e2 := PutBoth(e, u, v, EdgeInfo(e[u][v].value + 2, true));
    AfterPopStart(e, u, v, s);
    var nbrsU := UnfinalizedNeighbours(e2, u);
    var nbrsV := UnfinalizedNeighbours(e2, v);
    var common := FindIntersection(nbrsU, nbrsV);
    CommonNoDup(nbrsU, nbrsV);
    CommonIsLive(e, e2, u, v, s, nbrsU, nbrsV);
    q2 := q;
    var m := 0;
    ghost var d: set<int> := {};
    while m < |common|
      invariant 0 <= m <= |common|
      invariant d == Elems(common[..m])
      invariant AfterPop(e, e2, u, v, s, d, d)
      invariant QueueOk(e2, q2, s) && Pending(e2, q2)
    {
      var w := common[m];
      ElemsPrefixStep(common, m);
      LiveMember(e, u, v, w);
      e2, q2 := LowerU(e, e2, q2, u, v, s, d, d, w);
      e2, q2 := LowerV(e, e2, q2, u, v, s, d + {w}, d, w);
      d := d + {w};
      m := m + 1;
    }
    assert common[..m] == common;
  }

  /**
   * `compute_truss` on one ego network whose records hold (support, false):
   * pop the smallest key; a stale entry of a finalized edge is dropped,
   * otherwise the edge is peeled. On return every edge is finalized with
   * trussness t >= 2 and is certified: at least t - 2 triangles around it
   * have both other edges at trussness t or more. The truss queue lists
   * each edge once with its trussness, in the order the edges were peeled.
   */
  method PeelEgo(e0: Ego) returns (e: Ego, tq: seq<Entry>)
    requires WellFormed(e0)
    requires forall a, b :: Edge(e0, a, b) ==> e0[a][b] == EdgeInfo(Support(e0, a, b), false)
    ensures SameShape(e0, e) && WellFormed(e)
    ensures forall a, b :: Edge(e, a, b) ==> e[a][b].finalized && 2 <= e[a][b].value <= e0[a][b].value + 2
    ensures forall a, b :: Edge(e, a, b) ==> |Strong(e, a, b, e[a][b].value)| >= e[a][b].value - 2
    ensures Ordered(e, tq)
  {
    var q := InitSupportQueue(e0);
    e, tq := e0, [];
    ghost var last := 0;
    LevelsInit(e0);
    while q != []
      invariant Levels(e0, e, last) && QueueOk(e, q, last) && Pending(e, q) && Ordered(e, tq)
      decreases Unfinalized(e), |q|
    {
      var i := PopMin(q);
      var top := q[i];
      var rest := q[..i] + q[i + 1..];
      if e[top.u][top.v].finalized {
        SkipStale(e, q, last, i);
        q := rest;
      } else {
        PoppedIsCurrent(e, q, last, i);
        QueueAfterFinalize(e, q, last, i);
        var e2, q2 := PeelEdge(e, rest, top.u, top.v, top.s);
        ghost var d := Live(e, top.u, top.v);
        LevelsStep(e0, e, e2, last, top.u, top.v, top.s, d);
        OrderedStep(e0, e, e2, tq, last, top.u, top.v, top.s, d);
        UnfinalizedShrinks(e, e2, top.u, top.v, top.s, d);
        e, q, tq := e2, q2, tq + [Entry(top.u, top.v, top.s + 2)];
        last := top.s;
      }
    }
    PeelDone(e0, e, last);
  }
}
