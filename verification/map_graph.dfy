/**
 * Graphs stored as nested hash maps `node -> (neighbour -> payload)`, the
 * shape of both `super_adj_list` and an ego network, with walks,
 * reachability, and the two breadth-first searches that run over them:
 * `isConnected` and `Num_Connected_Component`.
 */
module MapGraph {

  type Adj<T> = map<int, map<int, T>>

  /** `b` is listed as a neighbour of `a`. */
  predicate Edge<T>(g: Adj<T>, a: int, b: int)
  {
    a in g && b in g[a]
  }

  /** Row `a` as `operator[]` reads it from a hash map: an absent row is empty. */
  function Row<T>(g: Adj<T>, a: int): map<int, T>
  {
    if a in g then g[a] else map[]
  }

  /** The two graphs list the same edges. */
  ghost predicate SameEdges<T>(g: Adj<T>, h: Adj<T>)
  {
    forall a, b :: Edge(g, a, b) <==> Edge(h, a, b)
  }

  /** Every listed neighbour is itself a node of the map. */
  predicate Closed<T>(g: Adj<T>)
  {
    forall a, b :: a in g && b in g[a] ==> b in g
  }

  /** The adjacency is undirected: every edge is listed in both directions. */
  predicate Symmetric<T>(g: Adj<T>)
  {
    forall a, b :: a in g && b in g[a] ==> b in g && a in g[b]
  }

  /** A set of nodes that no edge leaves. */
  ghost predicate ClosedSet<T>(g: Adj<T>, s: set<int>)
  {
    forall a, b :: a in s && Edge(g, a, b) ==> b in s
  }

  ghost predicate IsWalk<T>(g: Adj<T>, p: seq<int>)
  {
    |p| >= 1 && forall i :: 0 <= i < |p| - 1 ==> Edge(g, p[i], p[i + 1])
  }

  /** Some walk leads from `a` to `b` (zero steps allowed). */
  ghost predicate Reach<T>(g: Adj<T>, a: int, b: int)
  {
    exists p :: IsWalk(g, p) && p[0] == a && p[|p| - 1] == b
  }

  /** The nodes of `g` reachable from `x`. */
  ghost function ReachSet<T>(g: Adj<T>, x: int): set<int>
  {
    set y | y in g && Reach(g, x, y)
  }

  /** Nodes with at least one neighbour. */
  ghost function Nonisolated<T>(g: Adj<T>): set<int>
  {
    set x | x in g && |g[x]| != 0
  }

  /** The connected components of `g` that contain an edge. */
  ghost function Components<T>(g: Adj<T>): set<set<int>>
  {
    set x | x in Nonisolated(g) :: ReachSet(g, x)
  }

  lemma ReachRefl<T>(g: Adj<T>, a: int)
    ensures Reach(g, a, a)
  {
    assert IsWalk(g, [a]);
  }

  lemma ReachStep<T>(g: Adj<T>, a: int, b: int, c: int)
    requires Reach(g, a, b) && Edge(g, b, c)
    ensures Reach(g, a, c)
  {
    var p :| IsWalk(g, p) && p[0] == a && p[|p| - 1] == b;
    var p' := p + [c];
    forall i | 0 <= i < |p'| - 1
      ensures Edge(g, p'[i], p'[i + 1])
    {
      if i < |p| - 1 {
        assert p'[i] == p[i] && p'[i + 1] == p[i + 1];
      }
    }
    assert IsWalk(g, p') && p'[0] == a && p'[|p'| - 1] == c;
  }

  lemma ReachTrans<T>(g: Adj<T>, a: int, b: int, c: int)
    requires Reach(g, a, b) && Reach(g, b, c)
    ensures Reach(g, a, c)
  {
    var p :| IsWalk(g, p) && p[0] == a && p[|p| - 1] == b;
    var q :| IsWalk(g, q) && q[0] == b && q[|q| - 1] == c;
    var r := p + q[1..];
    forall i | 0 <= i < |r| - 1
      ensures Edge(g, r[i], r[i + 1])
    {
      if i < |p| - 1 {
        assert r[i] == p[i] && r[i + 1] == p[i + 1];
      } else {
        assert r[i] == q[i - |p| + 1] && r[i + 1] == q[i - |p| + 2];
      }
    }
    assert IsWalk(g, r) && r[0] == a && r[|r| - 1] == c;
  }

  function Reversed(p: seq<int>): (r: seq<int>)
    ensures |r| == |p| && forall i :: 0 <= i < |p| ==> r[i] == p[|p| - 1 - i]
  {
    seq(|p|, i requires 0 <= i < |p| => p[|p| - 1 - i])
  }

  lemma ReachSym<T>(g: Adj<T>, a: int, b: int)
    requires Symmetric(g) && Reach(g, a, b)
    ensures Reach(g, b, a)
  {
    var p :| IsWalk(g, p) && p[0] == a && p[|p| - 1] == b;
    var r := Reversed(p);
    forall i | 0 <= i < |r| - 1
      ensures Edge(g, r[i], r[i + 1])
    {
      assert Edge(g, p[|p| - 2 - i], p[|p| - 1 - i]);
    }
    assert IsWalk(g, r);
  }

  /** Reachability carries over to a graph that has every edge of the first. */
  lemma ReachMono<T>(g: Adj<T>, h: Adj<T>, a: int, b: int)
    requires forall x, y :: Edge(g, x, y) ==> Edge(h, x, y)
    requires Reach(g, a, b)
    ensures Reach(h, a, b)
  {
    var p :| IsWalk(g, p) && p[0] == a && p[|p| - 1] == b;
    assert IsWalk(h, p);
  }

  /** When the ends of every edge of `g` are connected in `h`, so are the ends of every walk. */
  lemma ReachThrough<T, U>(g: Adj<T>, h: Adj<U>, a: int, b: int)
    requires forall x, y :: Edge(g, x, y) ==> Reach(h, x, y)
    requires Reach(g, a, b)
    ensures Reach(h, a, b)
  {
    var p :| IsWalk(g, p) && p[0] == a && p[|p| - 1] == b;
    var i := 0;
    ReachRefl(h, a);
    while i < |p| - 1
      invariant 0 <= i < |p| && Reach(h, a, p[i])
    {
      assert Edge(g, p[i], p[i + 1]);
      ReachTrans(h, a, p[i], p[i + 1]);
      i := i + 1;
    }
  }

  /** When every edge of `g` maps through `f` onto a connected pair of `h`, every walk does. */
  lemma ReachLift<T, U>(g: Adj<T>, h: Adj<U>, f: map<int, int>, a: int, b: int)
    requires forall x, y :: Edge(g, x, y) ==> x in f && y in f && Reach(h, f[x], f[y])
    requires a in f && Reach(g, a, b)
    ensures b in f && Reach(h, f[a], f[b])
  {
    var p :| IsWalk(g, p) && p[0] == a && p[|p| - 1] == b;
    var i := 0;
    ReachRefl(h, f[a]);
    while i < |p| - 1
      invariant 0 <= i < |p| && p[i] in f && Reach(h, f[a], f[p[i]])
    {
      assert Edge(g, p[i], p[i + 1]);
      ReachTrans(h, f[a], f[p[i]], f[p[i + 1]]);
      i := i + 1;
    }
  }

  /** A walk that starts inside a closed set never leaves it. */
  lemma {:induction false} WalkStaysIn<T>(g: Adj<T>, s: set<int>, p: seq<int>, i: nat)
    requires IsWalk(g, p) && p[0] in s && ClosedSet(g, s) && i < |p|
    ensures p[i] in s
  {
    if i > 0 {
      WalkStaysIn(g, s, p, i - 1);
      assert Edge(g, p[i - 1], p[i]);
    }
  }

  lemma ClosedSetHoldsReach<T>(g: Adj<T>, s: set<int>, a: int, b: int)
    requires a in s && ClosedSet(g, s) && Reach(g, a, b)
    ensures b in s
  {
    var p :| IsWalk(g, p) && p[0] == a && p[|p| - 1] == b;
    WalkStaysIn(g, s, p, |p| - 1);
  }

  /** In an undirected graph, nodes reachable from each other have the same component. */
  lemma SameReachSet<T>(g: Adj<T>, a: int, b: int)
    requires Symmetric(g) && Reach(g, a, b)
    ensures ReachSet(g, a) == ReachSet(g, b)
  {
    forall y | y in ReachSet(g, b) ensures y in ReachSet(g, a) {
      ReachTrans(g, a, b, y);
    }
    forall y | y in ReachSet(g, a) ensures y in ReachSet(g, b) {
      ReachSym(g, a, b);
      ReachTrans(g, b, a, y);
    }
  }

  /** Two nodes have the same reach set exactly when one reaches the other. */
  lemma SameReachSetIff<T>(g: Adj<T>, a: int, b: int)
    requires Symmetric(g) && b in g
    ensures ReachSet(g, a) == ReachSet(g, b) <==> Reach(g, a, b)
  {
    if Reach(g, a, b) {
      SameReachSet(g, a, b);
    }
    if ReachSet(g, a) == ReachSet(g, b) {
      ReachRefl(g, b);
      assert b in ReachSet(g, b);
    }
  }

  lemma NonemptyHasMember(s: set<int>)
    requires s != {}
    ensures exists x :: x in s
  {
    if forall x :: x !in s {
    }
  }

  /**
   * `isConnected`: breadth-first search from `src` that answers true as soon
   * as `dst` is discovered as a fresh neighbour. Since `src` starts visited,
   * `src == dst` is never reported connected.
   */
  method IsConnected<T>(g: Adj<T>, src: int, dst: int) returns (connected: bool)
    ensures connected <==> src != dst && Reach(g, src, dst)
  {
    var visited := {src};
    var q := [src];
    ReachRefl(g, src);
    ghost var nodes := g.Keys + (set a, b | a in g && b in g[a] :: b) + {src};
    ghost var done: set<int> := {};
    while q != []
      invariant src in visited && visited <= nodes && done <= visited
      invariant forall x :: x in q ==> x in visited
      invariant forall x :: x in visited ==> x in done || x in q
      invariant forall x :: x in visited ==> Reach(g, src, x)
      invariant dst in visited <==> src == dst
      invariant forall x, y :: x in done && Edge(g, x, y) ==> y in visited
      decreases nodes - visited, |q|
    {
      var u := q[0];
      q := q[1..];
      if u !in g {
        done := done + {u};
        continue;
      }
      ghost var visited0, q0 := visited, q;
      ghost var grown, w := false, u;
      var rest := g[u].Keys;
      while rest != {}
        invariant rest <= g[u].Keys
        invariant visited0 <= visited <= nodes && done <= visited
        invariant !grown ==> visited == visited0 && q == q0
        invariant grown ==> w in visited && w !in visited0
        invariant src in visited && u in visited
        invariant forall x :: x in q0 ==> x in q
        invariant forall x :: x in q ==> x in visited
        invariant forall x :: x in visited ==> x in done || x in q || x == u
        invariant forall x :: x in visited ==> Reach(g, src, x)
        invariant dst in visited <==> src == dst
        invariant forall y :: y in g[u] && y !in rest ==> y in visited
        invariant forall x, y :: x in done && Edge(g, x, y) ==> y in visited
        decreases rest
      {
        NonemptyHasMember(rest);
        var nei :| nei in rest;
        rest := rest - {nei};
        if nei in visited {
          continue;
        }
        ReachStep(g, src, u, nei);
        if nei == dst {
          return true;
        }
        visited := visited + {nei};
        q := q + [nei];
        grown, w := true, nei;
      }
      done := done + {u};
    }
    if Reach(g, src, dst) {
      ClosedSetHoldsReach(g, visited, src, dst);
    }
    return false;
  }

  /** Bookkeeping of `NumConnectedComponent`: `found` lists whole components, exactly those met so far. */
  ghost predicate Labelled<T>(g: Adj<T>, found: set<set<int>>, visited: set<int>)
  {
    && visited <= g.Keys
    && found <= Components(g)
    && (forall c, y :: c in found && y in c ==> y in visited)
    && (forall x :: x in visited ==> ReachSet(g, x) in found)
    && ClosedSet(g, visited)
  }

  /**
   * `Num_Connected_Component`: breadth-first labelling over the nodes of an
   * undirected adjacency map, skipping nodes without neighbours; the count is
   * the number of components that contain an edge.
   */
  method NumConnectedComponent<T>(g: Adj<T>) returns (count: nat)
    requires Symmetric(g)
    ensures count == |Components(g)|
  {
    var visited: set<int> := {};
    count := 0;
    ghost var found: set<set<int>> := {};
    var todo := g.Keys;
    LabelledInit(g);
    while todo != {}
      invariant todo <= g.Keys
      invariant count == |found|
      invariant Labelled(g, found, visited)
      invariant forall x :: x in g && x !in todo && |g[x]| != 0 ==> x in visited
      decreases todo
    {
      NonemptyHasMember(todo);
      var node :| node in todo;
      todo := todo - {node};
      if |g[node]| == 0 {
        continue;
      }
      if node in visited {
        continue;
      }
      count := count + 1;
      ghost var visited0 := visited;
      visited := ExploreComponent(g, visited, node);
      LabelledStep(g, found, visited0, node, visited);
      found := found + {ReachSet(g, node)};
    }
    LabelledDone(g, found, visited);
  }

  lemma LabelledInit<T>(g: Adj<T>)
    ensures Labelled(g, {}, {})
  {
  }

  lemma LabelledStep<T>(g: Adj<T>, found: set<set<int>>, visited0: set<int>, node: int, visited: set<int>)
    requires Symmetric(g) && Labelled(g, found, visited0)
    requires node in g && node !in visited0
    requires visited == visited0 + ReachSet(g, node)
    requires ReachSet(g, node) in Components(g) && ClosedSet(g, visited)
    ensures ReachSet(g, node) !in found
    ensures Labelled(g, found + {ReachSet(g, node)}, visited)
  {
    ReachRefl(g, node);
    assert node in ReachSet(g, node);
    forall x | x in visited ensures ReachSet(g, x) in found + {ReachSet(g, node)} {
      if x !in visited0 {
        SameReachSet(g, node, x);
      }
    }
  }

  lemma LabelledDone<T>(g: Adj<T>, found: set<set<int>>, visited: set<int>)
    requires Labelled(g, found, visited)
    requires forall x :: x in g && |g[x]| != 0 ==> x in visited
    ensures found == Components(g)
  {
    forall c | c in Components(g) ensures c in found {
      var x :| x in Nonisolated(g) && c == ReachSet(g, x);
    }
  }

  /**
   * The breadth-first search inside `Num_Connected_Component`: starting from
   * an unvisited node, it visits exactly that node's component, using the
   * shared visited set (already a union of whole components).
   */
  method ExploreComponent<T>(g: Adj<T>, visited0: set<int>, node: int) returns (visited: set<int>)
    requires Symmetric(g) && node in g && |g[node]| != 0
    requires visited0 <= g.Keys && ClosedSet(g, visited0) && node !in visited0
    ensures visited == visited0 + ReachSet(g, node) && node in visited
    ensures ReachSet(g, node) in Components(g) && ClosedSet(g, visited)
  {
    var q := [node];
    visited := visited0 + {node};
    ReachRefl(g, node);
    ghost var done: set<int> := {};
    while q != []
      invariant visited0 <= visited <= g.Keys && node in visited
      invariant forall x :: x in done ==> x in visited && x !in visited0
      invariant forall x :: x in q ==> x in visited && x !in visited0
      invariant forall x :: x in visited && x !in visited0 ==> x in done || x in q
      invariant forall x :: x in visited && x !in visited0 ==> Reach(g, node, x)
      invariant forall x, y :: x in done && Edge(g, x, y) ==> y in visited
      decreases g.Keys - visited, |q|
    {
      var u := q[0];
      q := q[1..];
      ghost var visitedIn, qIn := visited, q;
      ghost var grown, w := false, u;
      var rest := g[u].Keys;
      while rest != {}
        invariant rest <= g[u].Keys
        invariant visitedIn <= visited <= g.Keys
        invariant !grown ==> visited == visitedIn && q == qIn
        invariant grown ==> w in visited && w !in visitedIn
        invariant u in visited && u !in visited0
        invariant forall x :: x in done ==> x in visited && x !in visited0
        invariant forall x :: x in qIn ==> x in q
        invariant forall x :: x in q ==> x in visited && x !in visited0
        invariant forall x :: x in visited && x !in visited0 ==> x in done || x in q || x == u
        invariant forall x :: x in visited && x !in visited0 ==> Reach(g, node, x)
        invariant forall y :: y in g[u] && y !in rest ==> y in visited
        invariant forall x, y :: x in done && Edge(g, x, y) ==> y in visited
        decreases rest
      {
        NonemptyHasMember(rest);
        var nei :| nei in rest;
        rest := rest - {nei};
        if nei !in visited {
          ReachStep(g, node, u, nei);
          visited := visited + {nei};
          q := q + [nei];
          grown, w := true, nei;
        }
      }
      done := done + {u};
    }
    ghost var comp := set x | x in visited && x !in visited0;
    ComponentExplored(g, visited0, comp, node);
    assert visited == visited0 + comp;
  }

  /**
   * After the inner search of `NumConnectedComponent`: the newly visited set
   * is exactly the component of the start node, and it was not found before.
   */
  lemma ComponentExplored<T>(g: Adj<T>, visited0: set<int>, comp: set<int>, node: int)
    requires Symmetric(g) && node in g && |g[node]| != 0
    requires ClosedSet(g, visited0) && node !in visited0 && node in comp
    requires forall x :: x in comp ==> x !in visited0
    requires comp <= g.Keys
    requires forall x :: x in comp ==> Reach(g, node, x)
    requires forall x, y :: x in comp && Edge(g, x, y) ==> y in comp + visited0
    ensures comp == ReachSet(g, node) && comp in Components(g)
    ensures ClosedSet(g, visited0 + comp)
  {
    assert ClosedSet(g, comp) by {
      forall x, y | x in comp && Edge(g, x, y) ensures y in comp {
        assert Edge(g, y, x);
        assert y in visited0 ==> x in visited0;
      }
    }
    forall y | y in ReachSet(g, node) ensures y in comp {
      ClosedSetHoldsReach(g, comp, node, y);
    }
    assert node in Nonisolated(g);
  }
}
