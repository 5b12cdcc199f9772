/**
 * Vector intersection helpers of the structural-diversity index:
 * `findintersection` keeps the elements of `b` that occur in `a`, in the
 * order of `b`; `findintersectionnum` counts them.
 */
module Intersection {

  /** No element occurs twice. */
  predicate NoDup(s: seq<int>)
  {
    forall i, j :: 0 <= i < j < |s| ==> s[i] != s[j]
  }

  /** Specification: the elements of `b` that occur in `a`, in `b`'s order. */
  function Common(a: seq<int>, b: seq<int>): seq<int>
  {
    if b == [] then []
    else Common(a, b[..|b| - 1]) + (if b[|b| - 1] in a then [b[|b| - 1]] else [])
  }

  /** The positions of `b` whose element occurs in `a`, ascending. */
  function Positions(a: seq<int>, b: seq<int>): seq<nat>
  {
    if b == [] then []
    else Positions(a, b[..|b| - 1]) + (if b[|b| - 1] in a then [|b| - 1] else [])
  }

  /** An element is kept exactly when it occurs in both inputs. */
  lemma {:induction false} CommonMembers(a: seq<int>, b: seq<int>, x: int)
    ensures x in Common(a, b) <==> x in a && x in b
  {
    if b != [] {
      var p := b[..|b| - 1];
      CommonMembers(a, p, x);
      assert b == p + [b[|b| - 1]];
    }
  }

  /** The kept elements are `b` read at strictly increasing positions, each holding an element of `a`. */
  lemma {:induction false} CommonInOrder(a: seq<int>, b: seq<int>)
    ensures var r, ps := Common(a, b), Positions(a, b);
      && |r| == |ps| <= |b|
      && (forall k :: 0 <= k < |ps| ==> ps[k] < |b| && b[ps[k]] == r[k] && r[k] in a)
      && (forall k, l :: 0 <= k < l < |ps| ==> ps[k] < ps[l])
      && (forall i :: 0 <= i < |b| && b[i] in a ==> i in ps)
  {
    if b != [] {
      var p := b[..|b| - 1];
      var n := |b| - 1;
      CommonInOrder(a, p);
      var r0, ps0 := Common(a, p), Positions(a, p);
      var r, ps := Common(a, b), Positions(a, b);
      if b[n] in a {
        assert r == r0 + [b[n]] && ps == ps0 + [n];
        forall k | 0 <= k < |ps|
          ensures ps[k] < |b| && b[ps[k]] == r[k] && r[k] in a
        {
          if k < |ps0| {
            assert ps[k] == ps0[k] && r[k] == r0[k] && b[ps0[k]] == p[ps0[k]];
          }
        }
      } else {
        assert r == r0 && ps == ps0;
        forall k | 0 <= k < |ps|
          ensures ps[k] < |b| && b[ps[k]] == r[k] && r[k] in a
        {
          assert b[ps0[k]] == p[ps0[k]];
        }
      }
    }
  }

  /** Without duplicates in `b`, there are none in the result either. */
  lemma {:induction false} CommonNoDup(a: seq<int>, b: seq<int>)
    requires NoDup(b)
    ensures NoDup(Common(a, b))
  {
    if b != [] {
      var p := b[..|b| - 1];
      CommonNoDup(a, p);
      CommonMembers(a, p, b[|b| - 1]);
    }
  }

  /** Dropping the last element keeps a sequence free of duplicates, and the
    * last element does not occur before it. */
  lemma NoDupPrefix(b: seq<int>)
    requires NoDup(b) && b != []
    ensures NoDup(b[..|b| - 1])
    ensures b[|b| - 1] !in b[..|b| - 1]
  {
    var p := b[..|b| - 1];
    forall i | 0 <= i < |p|
      ensures p[i] != b[|b| - 1]
    {
      assert p[i] == b[i];
    }
  }

  /** The elements of a sequence, as a set. */
  function Elems(s: seq<int>): set<int>
  {
    set x | x in s
  }

  lemma ElemsSnoc(p: seq<int>, x: int)
    ensures Elems(p + [x]) == Elems(p) + {x}
  {
    forall y
      ensures y in Elems(p + [x]) <==> y in Elems(p) + {x}
    {
      assert y in p + [x] <==> y in p || y == x;
    }
  }

  /** Walking a sequence without duplicates meets a new element at every step. */
  lemma ElemsPrefixStep(s: seq<int>, m: int)
    requires NoDup(s) && 0 <= m < |s|
    ensures Elems(s[..m + 1]) == Elems(s[..m]) + {s[m]}
    ensures s[m] !in Elems(s[..m])
  {
    assert s[..m + 1] == s[..m] + [s[m]];
    ElemsSnoc(s[..m], s[m]);
  }

  /** Without duplicates in `b`, the count is the size of the set intersection. */
  lemma {:induction false} CommonCount(a: seq<int>, b: seq<int>)
    requires NoDup(b)
    ensures |Common(a, b)| == |Elems(a) * Elems(b)|
  {
    if b == [] {
      assert Elems(b) == {};
    } else {
      var p := b[..|b| - 1];
      var last := b[|b| - 1];
      NoDupPrefix(b);
      CommonCount(a, p);
      var sa, sp := Elems(a), Elems(p);
      assert Elems(b) == sp + {last} by {
        assert b == p + [last];
        ElemsSnoc(p, last);
      }
      assert last !in sp;
      assert |Common(a, b)| == |Common(a, p)| + (if last in a then 1 else 0);
      if last in a {
        assert sa * (sp + {last}) == (sa * sp) + {last};
      } else {
        assert sa * (sp + {last}) == sa * sp;
      }
    }
  }

  /** `findintersection`: loop over `b`, keeping what the hashed copy of `a` contains. */
  method FindIntersection(a: seq<int>, b: seq<int>) returns (result: seq<int>)
    ensures result == Common(a, b)
  {
    var setA := Elems(a);
    result := [];
    var i := 0;
    while i < |b|
      invariant 0 <= i <= |b|
      invariant result == Common(a, b[..i])
    {
      assert b[..i + 1][..i] == b[..i];
      if b[i] in setA {
        result := result + [b[i]];
      }
      i := i + 1;
    }
    assert b[..|b|] == b;
  }

  /** `findintersectionnum`: the same loop, counting instead of collecting. */
  method FindIntersectionNum(a: seq<int>, b: seq<int>) returns (result: int)
    ensures result == |Common(a, b)|
  {
    var setA := Elems(a);
    result := 0;
    var i := 0;
    while i < |b|
      invariant 0 <= i <= |b|
      invariant result == |Common(a, b[..i])|
    {
      assert b[..i + 1][..i] == b[..i];
      if b[i] in setA {
        result := result + 1;
      }
      i := i + 1;
    }
    assert b[..|b|] == b;
  }
}
