/** A two-vertex mesh on which a matched destination is also on the
    plane: vertex `p` lies strictly beyond the plane on the negative side,
    vertex `q` lies within the tolerance of the plane and within the
    tolerance of the reflection of `p`, and one edge joins them. Vertex 0
    is matched to vertex 1, and since vertex 1 is on the plane, pinning
    appends its self entry after the match. */
module Scenarios {
  import opened Optional
  import opened Geometry
  import opened OrderedMap
  import opened Connectivity
  import opened MirrorMap
  import opened Transfer
  import Symmetry

  const Edges: Adjacency := [[1], [0]]

  /** The positions of the two vertices, matched in the `NEGATIVE`
      direction. */
  predicate OnPlanePartner(p: Vec3, q: Vec3, axis: Axis, tol: real)
  {
    && Get(p, axis) < -tol
    && Abs(Get(q, axis)) <= tol
    && SqDist(Reflect(p, axis), q) < tol * tol
  }

  /** For example `p = (-1.5, 0, 0)`, `q = (1, 0, 0)` on the X axis with
      tolerance 1: the squared gap is 0.25. */
  lemma Example()
    ensures OnPlanePartner(Vec3(-1.5, 0.0, 0.0), Vec3(1.0, 0.0, 0.0), X, 1.0)
  {
    ExampleSides();
    ExampleClose();
  }

  lemma ExampleSides()
    ensures Get(Vec3(-1.5, 0.0, 0.0), X) < -1.0 && Abs(Get(Vec3(1.0, 0.0, 0.0), X)) <= 1.0
  {
  }

  lemma ExampleClose()
    ensures SqDist(Reflect(Vec3(-1.5, 0.0, 0.0), X), Vec3(1.0, 0.0, 0.0)) < 1.0 * 1.0
  {
    ExampleImage();
    ExampleGap();
  }

  lemma ExampleImage()
    ensures Reflect(Vec3(-1.5, 0.0, 0.0), X) == Vec3(1.5, 0.0, 0.0)
  {
  }

  lemma ExampleGap()
    ensures SqDist(Vec3(1.5, 0.0, 0.0), Vec3(1.0, 0.0, 0.0)) == 0.25
  {
    assert Sub(Vec3(1.5, 0.0, 0.0), Vec3(1.0, 0.0, 0.0)) == Vec3(0.5, 0.0, 0.0);
    SqDistOf(Vec3(1.5, 0.0, 0.0), Vec3(1.0, 0.0, 0.0), Vec3(0.5, 0.0, 0.0));
  }

  lemma EdgesWellFormed()
    ensures WellFormed(Edges) && |Edges| == 2
  {
  }

  /** The neighbours each step pushes. */
  lemma Pushed()
    ensures Unvisited(Edges[0], {0}) == [1] && Unvisited(Edges[1], {0, 1}) == []
  {
    var nil: seq<nat> := [];
    assert Edges[0] == [1] && Edges[1] == [0];
    assert [1][1..] == nil && [0][1..] == nil;
  }

  lemma SearchFromOne()
    ensures WellFormed(Edges) && Explore(Edges, [1], {0}, [0]) == ({0, 1}, [0, 1])
  {
    EdgesWellFormed();
    var nil: seq<nat> := [];
    Pushed();
    ExploreStep(Edges, [1], {0}, [0]);
    assert [1][..0] + Unvisited(Edges[1], {0} + {1}) == nil && {0} + {1} == {0, 1} && [0] + [1] == [0, 1];
  }

  lemma SearchFromZero()
    ensures WellFormed(Edges) && Explore(Edges, [0], {}, []) == ({0, 1}, [0, 1])
  {
    EdgesWellFormed();
    var none: set<nat> := {};
    var nil: seq<nat> := [];
    var stack: seq<nat> := [0];
    Pushed();
    assert stack[|stack| - 1] == 0 && stack[..0] == nil;
    assert none + {0} == {0};
    assert nil + Unvisited(Edges[0], {0}) == [1];
    ExploreStep(Edges, stack, none, nil);
    assert nil + [0] == [0];
    SearchFromOne();
  }

  /** The DFS finds one component, in push order. */
  lemma OneComponent()
    ensures WellFormed(Edges) && Components(Edges) == [[0, 1]]
  {
    SearchFromZero();
    assert Sweep(Edges, 2, {0, 1}, [[0, 1]]) == [[0, 1]];
    assert Sweep(Edges, 1, {0, 1}, [[0, 1]]) == [[0, 1]];
  }

  lemma ScanZero(coords: seq<Vec3>, p: Vec3, q: Vec3, axis: Axis, tol: real)
    requires coords == [p, q]
    ensures InRange(coords, [0])
    ensures Scan(coords, Reflect(p, axis), 0, [0], {}, Best(None, tol * tol)) == Best(None, tol * tol)
  {
    var nil: seq<nat> := [];
    assert [0][..0] == nil;
  }

  /** A last candidate closer than the best so far becomes the best. */
  lemma ScanCloser(coords: seq<Vec3>, v: Vec3, i: nat, cands: seq<nat>, used: set<nat>, acc: Best)
    requires InRange(coords, cands) && cands != []
    requires var j := cands[|cands| - 1];
      Eligible(i, used, j) && SqDist(v, coords[j]) < Scan(coords, v, i, cands[..|cands| - 1], used, acc).d
    ensures var j := cands[|cands| - 1];
      Scan(coords, v, i, cands, used, acc) == Best(Some(j), SqDist(v, coords[j]))
  {
  }

  lemma ScanBoth(coords: seq<Vec3>, p: Vec3, q: Vec3, axis: Axis, tol: real)
    requires coords == [p, q] && OnPlanePartner(p, q, axis, tol)
    ensures InRange(coords, [0, 1])
    ensures Scan(coords, Reflect(p, axis), 0, [0, 1], {}, Best(None, tol * tol)) ==
      Best(Some(1), SqDist(Reflect(p, axis), q))
  {
    var cands: seq<nat> := [0, 1];
    var none: set<nat> := {};
    assert cands[..1] == [0] && cands[1] == 1 && coords[1] == q;
    ScanZero(coords, p, q, axis, tol);
    ScanCloser(coords, Reflect(p, axis), 0, cands, none, Best(None, tol * tol));
  }

  /** Vertex 0 finds vertex 1 inside its component. */
  lemma ZeroFindsOne(coords: seq<Vec3>, p: Vec3, q: Vec3, axis: Axis, tol: real)
    requires coords == [p, q] && OnPlanePartner(p, q, axis, tol)
    ensures InRange(coords, [0, 1]) && MatchOf(coords, [0, 1], 0, {}, axis, tol) == Some(1)
  {
    assert coords[0] == p;
    ScanBoth(coords, p, q, axis, tol);
  }

  /** A source vertex that finds a partner is recorded with it. */
  lemma VisitMatched(coords: seq<Vec3>, comp: seq<nat>, i: nat, st: MatchState, j: nat, axis: Axis, tol: real)
    requires i < |coords| && InRange(coords, comp)
    requires IsSource(coords[i], axis, Negative, tol) && MatchOf(coords, comp, i, st.used, axis, tol) == Some(j)
    ensures Visit(coords, comp, i, st, axis, Negative, tol) == MatchState(Put(st.m, i, j), st.used + {j})
  {
  }

  lemma PutIntoEmpty(m: Dict, k: nat, v: nat)
    requires m == []
    ensures Put(m, k, v) == [Pair(k, v)]
  {
    assert Keys(m) == {};
    assert m + [Pair(k, v)] == [Pair(k, v)];
  }

  lemma VisitZero(coords: seq<Vec3>, p: Vec3, q: Vec3, axis: Axis, tol: real)
    requires coords == [p, q] && OnPlanePartner(p, q, axis, tol)
    ensures InRange(coords, [0, 1])
    ensures Visit(coords, [0, 1], 0, MatchState([], {}), axis, Negative, tol) == MatchState([Pair(0, 1)], {1})
  {
    var none: set<nat> := {};
    ZeroFindsOne(coords, p, q, axis, tol);
    assert coords[0] == p && IsSource(p, axis, Negative, tol);
    VisitMatched(coords, [0, 1], 0, MatchState([], none), 1, axis, tol);
    PutIntoEmpty([], 0, 1);
    assert none + {1} == {1};
  }

  lemma VisitOne(coords: seq<Vec3>, p: Vec3, q: Vec3, axis: Axis, tol: real)
    requires coords == [p, q] && OnPlanePartner(p, q, axis, tol)
    ensures InRange(coords, [0, 1])
    ensures Visit(coords, [0, 1], 1, MatchState([Pair(0, 1)], {1}), axis, Negative, tol) == MatchState([Pair(0, 1)], {1})
  {
    MatchedPartnerOppositeSide(p, q, axis, Negative, tol);
    assert coords[1] == q && !IsSource(q, axis, Negative, tol);
  }

  /** One more vertex of the component loop. */
  lemma MatchInStep(coords: seq<Vec3>, comp: seq<nat>, n: nat, st: MatchState, axis: Axis, tol: real)
    requires 0 < n <= |comp| && InRange(coords, comp)
    ensures MatchIn(coords, comp, n, st, axis, Negative, tol) ==
      Visit(coords, comp, comp[n - 1], MatchIn(coords, comp, n - 1, st, axis, Negative, tol), axis, Negative, tol)
  {
  }

  lemma MatchingRecordsOne(coords: seq<Vec3>, p: Vec3, q: Vec3, axis: Axis, tol: real)
    requires coords == [p, q] && OnPlanePartner(p, q, axis, tol)
    ensures IndicesBelow(2, [[0, 1]])
    ensures MatchAll(coords, [[0, 1]], 1, axis, Negative, tol) == MatchState([Pair(0, 1)], {1})
  {
    var comp: seq<nat> := [0, 1];
    var empty := MatchState([], {});
    var one := MatchState([Pair(0, 1)], {1});
    VisitZero(coords, p, q, axis, tol);
    VisitOne(coords, p, q, axis, tol);
    assert comp[0] == 0 && comp[1] == 1;
    MatchInStep(coords, comp, 1, empty, axis, tol);
    assert MatchIn(coords, comp, 1, empty, axis, Negative, tol) == one;
    MatchInStep(coords, comp, 2, empty, axis, tol);
    assert MatchIn(coords, comp, 2, empty, axis, Negative, tol) == one;
  }

  /** Vertex 0 is off the plane and keeps its entry; vertex 1 is on it and
      is appended. */
  lemma PinBoth(coords: seq<Vec3>, p: Vec3, q: Vec3, axis: Axis, tol: real)
    requires coords == [p, q] && OnPlanePartner(p, q, axis, tol)
    ensures Pin(coords, 2, [Pair(0, 1)], axis, tol) == [Pair(0, 1), Pair(1, 1)]
  {
    var m: Dict := [Pair(0, 1)];
    assert coords[0] == p && coords[1] == q;
    assert !OnAxis(p, axis, tol) && OnAxis(q, axis, tol);
    assert Pin(coords, 1, m, axis, tol) == m;
    assert m[0].src == 0;
    assert 1 !in Keys(m);
  }

  /** `find_mirror_map` on this mesh: the match, then vertex 1's self
      entry. */
  lemma ScenarioMap(coords: seq<Vec3>, p: Vec3, q: Vec3, axis: Axis, tol: real)
    requires coords == [p, q] && OnPlanePartner(p, q, axis, tol)
    ensures WellFormed(Edges) && |Edges| == |coords|
    ensures FindMap(coords, Edges, axis, Negative, tol) == [Pair(0, 1), Pair(1, 1)]
  {
    EdgesWellFormed();
    OneComponent();
    MatchingRecordsOne(coords, p, q, axis, tol);
    PinBoth(coords, p, q, axis, tol);
  }

  /** Swapping on this mesh hands vertex 1 the delta of vertex 0 without
      the reflection. */
  lemma ScenarioSwap(coords: seq<Vec3>, p: Vec3, q: Vec3, axis: Axis, tol: real, t: seq<Vec3>, ref: seq<Vec3>)
    requires coords == [p, q] && OnPlanePartner(p, q, axis, tol) && |t| == 2 && |ref| == 2
    ensures WellFormed(Edges) && |Edges| == |coords|
    ensures ApplySwap(t, ref, FindMap(coords, Edges, axis, Negative, tol), axis)[1] == Add(ref[1], Sub(t[0], ref[0]))
  {
    ScenarioMap(coords, p, q, axis, tol);
    SwapReflectsTwice(t, ref, 0, 1, axis);
  }

  /** Symmetrizing on this mesh against its own positions gives vertex 1
      the mirrored delta of vertex 0: the second write at vertex 1 leaves
      it as it is. */
  lemma ScenarioSymmetrize(coords: seq<Vec3>, p: Vec3, q: Vec3, axis: Axis, tol: real, t: seq<Vec3>)
    requires coords == [p, q] && OnPlanePartner(p, q, axis, tol) && |t| == 2
    ensures WellFormed(Edges) && |Edges| == |coords|
    ensures ApplyMirror(t, coords, FindMap(coords, Edges, axis, Negative, tol), axis, tol)[1] ==
      Mirrored(t[0], p, q, axis, tol)
  {
    ScenarioMap(coords, p, q, axis, tol);
    assert FindMap(coords, Edges, axis, Negative, tol)[0] == Pair(0, 1);
    assert coords[0] == p && coords[1] == q;
    SymmetrizeOwnPositions(coords, Edges, t, Pair(0, 1), axis, Negative, tol);
  }

  /** A reference that passes the symmetry check but whose vertex 1 lies
      off the plane: `(-1.5, 0, 0)` and `(1.2, 0, 0)` with tolerance 1 on the
      X axis, a squared gap of 0.09. */
  lemma OffPlaneReference()
    ensures !OnAxis(Vec3(1.2, 0.0, 0.0), X, 1.0)
    ensures SqDist(Reflect(Vec3(-1.5, 0.0, 0.0), X), Vec3(1.2, 0.0, 0.0)) <= 1.0 * 1.0
  {
    ExampleImage();
    assert Sub(Vec3(1.5, 0.0, 0.0), Vec3(1.2, 0.0, 0.0)) == Vec3(0.3, 0.0, 0.0);
    SqDistOf(Vec3(1.5, 0.0, 0.0), Vec3(1.2, 0.0, 0.0), Vec3(0.3, 0.0, 0.0));
  }

  /** Against a reference whose vertex 1 lies off the plane, symmetrizing
      on this mesh hands vertex 1 the delta of vertex 0 without the
      reflection, and the operators' symmetry check still lets it through
      whenever the reference's two positions mirror each other within the
      tolerance. */
  lemma ScenarioSymmetrizeOffPlane(coords: seq<Vec3>, p: Vec3, q: Vec3, axis: Axis, tol: real, t: seq<Vec3>, ref: seq<Vec3>)
    requires coords == [p, q] && OnPlanePartner(p, q, axis, tol) && |t| == 2 && |ref| == 2
    requires !OnAxis(ref[1], axis, tol)
    ensures WellFormed(Edges) && |Edges| == |coords|
    ensures ApplyMirror(t, ref, FindMap(coords, Edges, axis, Negative, tol), axis, tol)[1] == Add(ref[1], Sub(t[0], ref[0]))
    ensures SqDist(Reflect(ref[0], axis), ref[1]) <= tol * tol ==> Symmetry.IsSymmetric(coords, Edges, ref, axis, tol) == Symmetry.Pass
  {
    ScenarioMap(coords, p, q, axis, tol);
    SymmetrizeReflectsTwice(t, ref, 0, 1, axis, tol);
    if SqDist(Reflect(ref[0], axis), ref[1]) <= tol * tol {
      DoubleEntryPasses(ref, axis, tol);
    }
  }

  /** The double-entry map passes the check against any two positions
      that mirror each other within the tolerance: its self entry is not
      inspected. */
  lemma DoubleEntryPasses(ref: seq<Vec3>, axis: Axis, tol: real)
    requires |ref| == 2 && SqDist(Reflect(ref[0], axis), ref[1]) <= tol * tol
    ensures Symmetry.Check(ref, [Pair(0, 1), Pair(1, 1)], axis, tol) == Symmetry.Pass
  {
    var m: Dict := [Pair(0, 1), Pair(1, 1)];
    forall e | e in m && e.src != e.dst
      ensures e.src < |ref| && e.dst < |ref| && SqDist(Reflect(ref[e.src], axis), ref[e.dst]) <= tol * tol
    {
      assert e == Pair(0, 1);
    }
    Symmetry.CheckPasses(ref, m, axis, tol);
  }
}
