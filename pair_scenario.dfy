/** The vector sums of the square scenario below. */
module SquareArithmetic {
  import opened Geometry

  lemma Displaced(p: Vec3, d: Vec3, q: Vec3)
    requires p == Vec3(-1.0, 0.0, 0.0) && d == Vec3(0.0, 0.0, 0.5) && q == Vec3(-1.0, 0.0, 0.5)
    ensures q == Add(p, d)
  {
  }

  lemma ReflectedUp(d: Vec3)
    requires d == Vec3(0.0, 0.0, 0.5)
    ensures Reflect(d, X) == d
  {
  }

  lemma Moved(p: Vec3, r: Vec3)
    requires p == Vec3(1.0, 0.0, 0.0) && r == Vec3(0.0, 0.0, 0.5)
    ensures Add(p, r) == Vec3(1.0, 0.0, 0.5)
  {
  }
}

/** A four-vertex mesh of two mirrored pairs: vertices 0 and 2 lie strictly
    beyond the plane on the negative side, vertices 1 and 3 are their exact
    reflections, and the edges 0-2 and 1-3 make each side a component of its
    own. No partner lies in a source's own component, so both matches come
    from the fallback search over the whole mesh, and no vertex is on the
    plane. */
module PairScenario {
  import opened Optional
  import opened Geometry
  import opened OrderedMap
  import opened Connectivity
  import opened MirrorMap
  import opened Transfer
  import opened Symmetry
  import opened Scenarios
  import SquareArithmetic

  const Sides: Adjacency := [[2], [3], [0], [1]]

  /** The positions of the mesh: `p1` and `p3` reflect `p0` and `p2`, the
      sources lie beyond the plane, and neither source is within `tol` of
      the reflection of the other. */
  predicate Layout(coords: seq<Vec3>, p0: Vec3, p1: Vec3, p2: Vec3, p3: Vec3, axis: Axis, tol: real)
  {
    && coords == [p0, p1, p2, p3]
    && p1 == Reflect(p0, axis) && p3 == Reflect(p2, axis)
    && tol > 0.0
    && Get(p0, axis) < -tol && Get(p2, axis) < -tol
    && SqDist(p1, p2) >= tol * tol && SqDist(p3, p0) >= tol * tol
  }

  lemma SidesWellFormed()
    ensures WellFormed(Sides) && |Sides| == 4
  {
  }

  /** Vertex 0 is visited first and pushes vertex 2 ... */
  lemma VisitZero()
    ensures WellFormed(Sides) && Explore(Sides, [0], {}, []) == Explore(Sides, [2], {0}, [0])
  {
    SidesWellFormed();
    var none: set<nat> := {};
    var nil: seq<nat> := [];
    var stack: seq<nat> := [0];
    assert Sides[0] == [2] && [2][1..] == nil;
    assert stack[|stack| - 1] == 0 && stack[..0] == nil && none + {0} == {0};
    assert nil + Unvisited(Sides[0], {0}) == [2];
    ExploreStep(Sides, stack, none, nil);
    assert nil + [0] == [0];
  }

  /** ... then vertex 2, whose only neighbour is visited. */
  lemma VisitTwo()
    ensures WellFormed(Sides) && Explore(Sides, [2], {0}, [0]) == ({0, 2}, [0, 2])
  {
    SidesWellFormed();
    var nil: seq<nat> := [];
    var stack: seq<nat> := [2];
    assert Sides[2] == [0] && [0][1..] == nil;
    assert stack[|stack| - 1] == 2 && stack[..0] == nil && {0} + {2} == {0, 2};
    assert nil + Unvisited(Sides[2], {0, 2}) == nil;
    ExploreStep(Sides, stack, {0}, [0]);
    assert [0] + [2] == [0, 2];
  }

  lemma SearchFromZero()
    ensures WellFormed(Sides) && Explore(Sides, [0], {}, []) == ({0, 2}, [0, 2])
  {
    VisitZero();
    VisitTwo();
  }

  /** Vertex 1 starts the second search and pushes vertex 3 ... */
  lemma VisitOne()
    ensures WellFormed(Sides) && Explore(Sides, [1], {0, 2}, []) == Explore(Sides, [3], {0, 1, 2}, [1])
  {
    SidesWellFormed();
    var nil: seq<nat> := [];
    var stack: seq<nat> := [1];
    assert Sides[1] == [3] && [3][1..] == nil;
    assert stack[|stack| - 1] == 1 && stack[..0] == nil && {0, 2} + {1} == {0, 1, 2};
    assert nil + Unvisited(Sides[1], {0, 1, 2}) == [3];
    ExploreStep(Sides, stack, {0, 2}, nil);
    assert nil + [1] == [1];
  }

  /** ... then vertex 3, whose only neighbour is visited. */
  lemma VisitThree()
    ensures WellFormed(Sides) && Explore(Sides, [3], {0, 1, 2}, [1]) == ({0, 1, 2, 3}, [1, 3])
  {
    SidesWellFormed();
    var nil: seq<nat> := [];
    var stack: seq<nat> := [3];
    assert Sides[3] == [1] && [1][1..] == nil;
    assert stack[|stack| - 1] == 3 && stack[..0] == nil && {0, 1, 2} + {3} == {0, 1, 2, 3};
    assert nil + Unvisited(Sides[3], {0, 1, 2, 3}) == nil;
    ExploreStep(Sides, stack, {0, 1, 2}, [1]);
    assert [1] + [3] == [1, 3];
  }

  lemma SearchFromOne()
    ensures WellFormed(Sides) && Explore(Sides, [1], {0, 2}, []) == ({0, 1, 2, 3}, [1, 3])
  {
    VisitOne();
    VisitThree();
  }

  /** The DFS finds the two sides as components, in vertex order. */
  lemma TwoComponents()
    ensures WellFormed(Sides) && Components(Sides) == [[0, 2], [1, 3]]
  {
    SearchFromZero();
    SearchFromOne();
    var all: set<nat> := {0, 1, 2, 3};
    var comps: seq<seq<nat>> := [[0, 2], [1, 3]];
    assert Sweep(Sides, 4, all, comps) == comps;
    assert Sweep(Sides, 3, all, comps) == comps;
    assert Sweep(Sides, 2, all, comps) == comps;
    assert [[0, 2]] + [[1, 3]] == comps;
    assert Sweep(Sides, 1, {0, 2}, [[0, 2]]) == comps;
  }

  /** `range(4)` */
  lemma IndicesFour()
    ensures Indices(4) == [0, 1, 2, 3]
  {
    assert Indices(1) == [0];
    assert Indices(2) == [0, 1];
    assert Indices(3) == [0, 1, 2];
  }

  /** One candidate more: it replaces the best so far exactly when it is
      eligible and strictly closer. */
  lemma ScanSnoc(coords: seq<Vec3>, v: Vec3, i: nat, cands: seq<nat>, j: nat, used: set<nat>, acc: Best)
    requires InRange(coords, cands) && j < |coords|
    ensures InRange(coords, cands + [j])
    ensures var prev := Scan(coords, v, i, cands, used, acc);
      Scan(coords, v, i, cands + [j], used, acc) ==
        if Eligible(i, used, j) && SqDist(v, coords[j]) < prev.d then Best(Some(j), SqDist(v, coords[j])) else prev
  {
    assert (cands + [j])[..|cands|] == cands;
  }

  /** The search starts from a positive bound. */
  lemma StartPositive(acc: Best, tol: real)
    requires tol > 0.0 && acc == Best(None, tol * tol)
    ensures acc.d > 0.0
  {
    calc {
      acc.d;
    ==
      tol * tol;
    >
      0.0 * tol;
    ==
      0.0;
    }
  }

  lemma SqDistSelf(v: Vec3)
    ensures SqDist(v, v) == 0.0
  {
    SubSelf(v);
    SqDistOf(v, v, Vec3(0.0, 0.0, 0.0));
  }

  /** Vertex 0 finds nothing in its component: vertex 2 is too far. */
  lemma ZeroLocal(coords: seq<Vec3>, p0: Vec3, p1: Vec3, p2: Vec3, p3: Vec3, axis: Axis, tol: real)
    requires Layout(coords, p0, p1, p2, p3, axis, tol)
    ensures InRange(coords, [0, 2])
    ensures Scan(coords, p1, 0, [0, 2], {}, Best(None, tol * tol)) == Best(None, tol * tol)
  {
    var nil: seq<nat> := [];
    var acc := Best(None, tol * tol);
    ScanSnoc(coords, p1, 0, nil, 0, {}, acc);
    assert nil + [0] == [0];
    ScanSnoc(coords, p1, 0, [0], 2, {}, acc);
    assert [0] + [2] == [0, 2] && coords[2] == p2;
  }

  /** The fallback search for vertex 0 takes vertex 1, at distance 0 ... */
  lemma ZeroTakesOne(coords: seq<Vec3>, p0: Vec3, p1: Vec3, p2: Vec3, p3: Vec3, axis: Axis, tol: real)
    requires Layout(coords, p0, p1, p2, p3, axis, tol)
    ensures InRange(coords, [0, 1])
    ensures Scan(coords, p1, 0, [0, 1], {}, Best(None, tol * tol)) == Best(Some(1), 0.0)
  {
    var nil: seq<nat> := [];
    var acc := Best(None, tol * tol);
    SqDistSelf(p1);
    StartPositive(acc, tol);
    ScanSnoc(coords, p1, 0, nil, 0, {}, acc);
    assert nil + [0] == [0];
    assert Scan(coords, p1, 0, [0], {}, acc) == acc;
    ScanSnoc(coords, p1, 0, [0], 1, {}, acc);
    assert [0] + [1] == [0, 1] && coords[1] == p1;
  }

  /** ... and keeps it: nothing is closer than distance 0. */
  lemma ZeroGlobal(coords: seq<Vec3>, p0: Vec3, p1: Vec3, p2: Vec3, p3: Vec3, axis: Axis, tol: real)
    requires Layout(coords, p0, p1, p2, p3, axis, tol)
    ensures InRange(coords, [0, 1, 2, 3])
    ensures Scan(coords, p1, 0, [0, 1, 2, 3], {}, Best(None, tol * tol)) == Best(Some(1), 0.0)
  {
    var acc := Best(None, tol * tol);
    var found := Best(Some(1), 0.0);
    ZeroTakesOne(coords, p0, p1, p2, p3, axis, tol);
    ScanSnoc(coords, p1, 0, [0, 1], 2, {}, acc);
    assert [0, 1] + [2] == [0, 1, 2];
    assert Scan(coords, p1, 0, [0, 1, 2], {}, acc) == found;
    ScanSnoc(coords, p1, 0, [0, 1, 2], 3, {}, acc);
    assert [0, 1, 2] + [3] == [0, 1, 2, 3];
  }

  /** Vertex 2 finds nothing in its component: vertex 0 is too far. */
  lemma TwoLocal(coords: seq<Vec3>, p0: Vec3, p1: Vec3, p2: Vec3, p3: Vec3, axis: Axis, tol: real)
    requires Layout(coords, p0, p1, p2, p3, axis, tol)
    ensures InRange(coords, [0, 2])
    ensures Scan(coords, p3, 2, [0, 2], {1}, Best(None, tol * tol)) == Best(None, tol * tol)
  {
    var nil: seq<nat> := [];
    var acc := Best(None, tol * tol);
    ScanSnoc(coords, p3, 2, nil, 0, {1}, acc);
    assert nil + [0] == [0] && coords[0] == p0;
    ScanSnoc(coords, p3, 2, [0], 2, {1}, acc);
    assert [0] + [2] == [0, 2];
  }

  /** Vertex 0 is too far from the reflection of vertex 2. */
  lemma TwoSkipsZero(coords: seq<Vec3>, p0: Vec3, p1: Vec3, p2: Vec3, p3: Vec3, axis: Axis, tol: real)
    requires Layout(coords, p0, p1, p2, p3, axis, tol)
    ensures InRange(coords, [0])
    ensures Scan(coords, p3, 2, [0], {1}, Best(None, tol * tol)) == Best(None, tol * tol)
  {
    var nil: seq<nat> := [];
    ScanSnoc(coords, p3, 2, nil, 0, {1}, Best(None, tol * tol));
    assert nil + [0] == [0] && coords[0] == p0;
  }

  /** The fallback search for vertex 2 passes over vertex 0, the used
      vertex 1 and itself ... */
  lemma TwoSkipsThree(coords: seq<Vec3>, p0: Vec3, p1: Vec3, p2: Vec3, p3: Vec3, axis: Axis, tol: real)
    requires Layout(coords, p0, p1, p2, p3, axis, tol)
    ensures InRange(coords, [0, 1, 2])
    ensures Scan(coords, p3, 2, [0, 1, 2], {1}, Best(None, tol * tol)) == Best(None, tol * tol)
  {
    var acc := Best(None, tol * tol);
    TwoSkipsZero(coords, p0, p1, p2, p3, axis, tol);
    ScanSnoc(coords, p3, 2, [0], 1, {1}, acc);
    assert [0] + [1] == [0, 1];
    ScanSnoc(coords, p3, 2, [0, 1], 2, {1}, acc);
    assert [0, 1] + [2] == [0, 1, 2];
  }

  /** ... and settles on vertex 3. */
  lemma TwoGlobal(coords: seq<Vec3>, p0: Vec3, p1: Vec3, p2: Vec3, p3: Vec3, axis: Axis, tol: real)
    requires Layout(coords, p0, p1, p2, p3, axis, tol)
    ensures InRange(coords, [0, 1, 2, 3])
    ensures Scan(coords, p3, 2, [0, 1, 2, 3], {1}, Best(None, tol * tol)) == Best(Some(3), 0.0)
  {
    var acc := Best(None, tol * tol);
    SqDistSelf(p3);
    StartPositive(acc, tol);
    TwoSkipsThree(coords, p0, p1, p2, p3, axis, tol);
    ScanSnoc(coords, p3, 2, [0, 1, 2], 3, {1}, acc);
    assert [0, 1, 2] + [3] == [0, 1, 2, 3] && coords[3] == p3;
  }

  lemma ZeroFindsOne(coords: seq<Vec3>, p0: Vec3, p1: Vec3, p2: Vec3, p3: Vec3, axis: Axis, tol: real)
    requires Layout(coords, p0, p1, p2, p3, axis, tol)
    ensures InRange(coords, [0, 2]) && MatchOf(coords, [0, 2], 0, {}, axis, tol) == Some(1)
  {
    assert coords[0] == p0;
    ZeroLocal(coords, p0, p1, p2, p3, axis, tol);
    ZeroGlobal(coords, p0, p1, p2, p3, axis, tol);
    IndicesFour();
  }

  lemma TwoFindsThree(coords: seq<Vec3>, p0: Vec3, p1: Vec3, p2: Vec3, p3: Vec3, axis: Axis, tol: real)
    requires Layout(coords, p0, p1, p2, p3, axis, tol)
    ensures InRange(coords, [0, 2]) && MatchOf(coords, [0, 2], 2, {1}, axis, tol) == Some(3)
  {
    assert coords[2] == p2;
    TwoLocal(coords, p0, p1, p2, p3, axis, tol);
    TwoGlobal(coords, p0, p1, p2, p3, axis, tol);
    IndicesFour();
  }

  /** Vertex 0 records its match with vertex 1 ... */
  lemma FirstSource(coords: seq<Vec3>, p0: Vec3, p1: Vec3, p2: Vec3, p3: Vec3, axis: Axis, tol: real)
    requires Layout(coords, p0, p1, p2, p3, axis, tol)
    ensures InRange(coords, [0, 2])
    ensures MatchIn(coords, [0, 2], 1, MatchState([], {}), axis, Negative, tol) == MatchState([Pair(0, 1)], {1})
  {
    var comp: seq<nat> := [0, 2];
    var none: set<nat> := {};
    var empty := MatchState([], none);
    assert comp[0] == 0 && coords[0] == p0;
    ZeroFindsOne(coords, p0, p1, p2, p3, axis, tol);
    VisitMatched(coords, comp, 0, empty, 1, axis, tol);
    PutIntoEmpty([], 0, 1);
    assert none + {1} == {1};
    MatchInStep(coords, comp, 1, empty, axis, tol);
  }

  /** ... and vertex 2 its match with vertex 3. */
  lemma SecondSource(coords: seq<Vec3>, p0: Vec3, p1: Vec3, p2: Vec3, p3: Vec3, axis: Axis, tol: real)
    requires Layout(coords, p0, p1, p2, p3, axis, tol)
    ensures InRange(coords, [0, 2])
    ensures Visit(coords, [0, 2], 2, MatchState([Pair(0, 1)], {1}), axis, Negative, tol) == MatchState([Pair(0, 1), Pair(2, 3)], {1, 3})
  {
    var comp: seq<nat> := [0, 2];
    var one := MatchState([Pair(0, 1)], {1});
    assert coords[2] == p2;
    TwoFindsThree(coords, p0, p1, p2, p3, axis, tol);
    VisitMatched(coords, comp, 2, one, 3, axis, tol);
    assert Keys([Pair(0, 1)]) == {0};
    assert [Pair(0, 1)] + [Pair(2, 3)] == [Pair(0, 1), Pair(2, 3)];
    assert {1} + {3} == {1, 3};
  }

  /** The negative side records both matches. */
  lemma NegativeSide(coords: seq<Vec3>, p0: Vec3, p1: Vec3, p2: Vec3, p3: Vec3, axis: Axis, tol: real)
    requires Layout(coords, p0, p1, p2, p3, axis, tol)
    ensures InRange(coords, [0, 2])
    ensures MatchIn(coords, [0, 2], 2, MatchState([], {}), axis, Negative, tol) == MatchState([Pair(0, 1), Pair(2, 3)], {1, 3})
  {
    var comp: seq<nat> := [0, 2];
    FirstSource(coords, p0, p1, p2, p3, axis, tol);
    SecondSource(coords, p0, p1, p2, p3, axis, tol);
    assert comp[1] == 2;
    MatchInStep(coords, comp, 2, MatchState([], {}), axis, tol);
  }

  /** The positive side holds no sources. */
  lemma PositiveSide(coords: seq<Vec3>, p0: Vec3, p1: Vec3, p2: Vec3, p3: Vec3, axis: Axis, tol: real, st: MatchState)
    requires Layout(coords, p0, p1, p2, p3, axis, tol)
    ensures InRange(coords, [1, 3])
    ensures MatchIn(coords, [1, 3], 2, st, axis, Negative, tol) == st
  {
    var comp: seq<nat> := [1, 3];
    assert comp[0] == 1 && comp[1] == 3 && coords[1] == p1 && coords[3] == p3;
    assert !IsSource(p1, axis, Negative, tol) && !IsSource(p3, axis, Negative, tol);
    MatchInStep(coords, comp, 1, st, axis, tol);
    MatchInStep(coords, comp, 2, st, axis, tol);
  }

  /** No vertex of the mesh is on the plane, so pinning adds nothing. */
  lemma {:induction false} PinNothing(coords: seq<Vec3>, n: nat, m: Dict, axis: Axis, tol: real)
    requires n <= |coords| && forall x :: 0 <= x < n ==> !OnAxis(coords[x], axis, tol)
    ensures Pin(coords, n, m, axis, tol) == m
  {
    if n > 0 {
      PinNothing(coords, n - 1, m, axis, tol);
    }
  }

  lemma NoneOnPlane(coords: seq<Vec3>, p0: Vec3, p1: Vec3, p2: Vec3, p3: Vec3, axis: Axis, tol: real)
    requires Layout(coords, p0, p1, p2, p3, axis, tol)
    ensures |coords| == 4 && forall x :: 0 <= x < 4 ==> !OnAxis(coords[x], axis, tol)
  {
    assert coords[0] == p0 && coords[1] == p1 && coords[2] == p2 && coords[3] == p3;
    assert !OnAxis(p0, axis, tol) && !OnAxis(p1, axis, tol) && !OnAxis(p2, axis, tol) && !OnAxis(p3, axis, tol);
  }

  /** The matching loops over the two components. */
  lemma PairsMatching(coords: seq<Vec3>, p0: Vec3, p1: Vec3, p2: Vec3, p3: Vec3, axis: Axis, tol: real)
    requires Layout(coords, p0, p1, p2, p3, axis, tol)
    ensures IndicesBelow(|coords|, [[0, 2], [1, 3]])
    ensures MatchAll(coords, [[0, 2], [1, 3]], 2, axis, Negative, tol) == MatchState([Pair(0, 1), Pair(2, 3)], {1, 3})
  {
    var comps: seq<seq<nat>> := [[0, 2], [1, 3]];
    var both := MatchState([Pair(0, 1), Pair(2, 3)], {1, 3});
    assert IndicesBelow(|coords|, comps);
    assert comps[0] == [0, 2] && comps[1] == [1, 3];
    NegativeSide(coords, p0, p1, p2, p3, axis, tol);
    assert MatchAll(coords, comps, 1, axis, Negative, tol) == both;
    PositiveSide(coords, p0, p1, p2, p3, axis, tol, both);
  }

  /** `find_mirror_map` with `NEGATIVE` on this mesh: `{0: 1, 2: 3}`, no
      self entries. */
  lemma PairsMap(coords: seq<Vec3>, p0: Vec3, p1: Vec3, p2: Vec3, p3: Vec3, axis: Axis, tol: real)
    requires Layout(coords, p0, p1, p2, p3, axis, tol)
    ensures WellFormed(Sides) && |Sides| == |coords|
    ensures FindMap(coords, Sides, axis, Negative, tol) == [Pair(0, 1), Pair(2, 3)]
  {
    SidesWellFormed();
    TwoComponents();
    PairsMatching(coords, p0, p1, p2, p3, axis, tol);
    NoneOnPlane(coords, p0, p1, p2, p3, axis, tol);
    PinNothing(coords, 4, [Pair(0, 1), Pair(2, 3)], axis, tol);
  }

  /** Symmetrizing against the mesh's own positions a key that displaces
      vertex 0 by `d` moves vertex 1 by the reflection of `d`, and the
      reference passes the symmetry check. */
  lemma PairsSymmetrize(coords: seq<Vec3>, p0: Vec3, p1: Vec3, p2: Vec3, p3: Vec3, axis: Axis, tol: real, t: seq<Vec3>, d: Vec3)
    requires Layout(coords, p0, p1, p2, p3, axis, tol) && |t| == 4 && t[0] == Add(p0, d)
    ensures WellFormed(Sides) && |Sides| == |coords|
    ensures IsSymmetric(coords, Sides, coords, axis, tol) == Pass
    ensures ApplyMirror(t, coords, FindMap(coords, Sides, axis, Negative, tol), axis, tol)[1] == Add(p1, Reflect(d, axis))
  {
    PairsMap(coords, p0, p1, p2, p3, axis, tol);
    MeshPositionsPass(coords, Sides, axis, tol);
    assert FindMap(coords, Sides, axis, Negative, tol)[0] == Pair(0, 1);
    assert coords[0] == p0 && coords[1] == p1;
    SymmetrizeOwnPositions(coords, Sides, t, Pair(0, 1), axis, Negative, tol);
    AddSub(p0, d);
    assert !OnAxis(p1, axis, tol);
  }

  /** The square `(-1,0,0), (1,0,0), (-1,1,0), (1,1,0)` on the X axis with
      tolerance `0.0001`. */
  lemma SquareLayout(coords: seq<Vec3>)
    requires coords == [Vec3(-1.0, 0.0, 0.0), Vec3(1.0, 0.0, 0.0), Vec3(-1.0, 1.0, 0.0), Vec3(1.0, 1.0, 0.0)]
    ensures Layout(coords, coords[0], coords[1], coords[2], coords[3], X, 0.0001)
  {
    assert Reflect(coords[0], X) == coords[1];
    assert Reflect(coords[2], X) == coords[3];
    assert Sub(coords[1], coords[2]) == Vec3(2.0, -1.0, 0.0);
    SqDistOf(coords[1], coords[2], Vec3(2.0, -1.0, 0.0));
    assert Sub(coords[3], coords[0]) == Vec3(2.0, 1.0, 0.0);
    SqDistOf(coords[3], coords[0], Vec3(2.0, 1.0, 0.0));
  }

  /** On the square, the map is `{0: 1, 2: 3}`, and a key moving vertex 0
      to `(-1, 0, 0.5)` symmetrizes vertex 1 to `(1, 0, 0.5)`. */
  lemma SquareScenario(coords: seq<Vec3>, t: seq<Vec3>)
    requires coords == [Vec3(-1.0, 0.0, 0.0), Vec3(1.0, 0.0, 0.0), Vec3(-1.0, 1.0, 0.0), Vec3(1.0, 1.0, 0.0)]
    requires t == coords[0 := Vec3(-1.0, 0.0, 0.5)]
    ensures WellFormed(Sides) && |Sides| == |coords|
    ensures FindMap(coords, Sides, X, Negative, 0.0001) == [Pair(0, 1), Pair(2, 3)]
    ensures IsSymmetric(coords, Sides, coords, X, 0.0001) == Pass
    ensures ApplyMirror(t, coords, FindMap(coords, Sides, X, Negative, 0.0001), X, 0.0001)[1] == Vec3(1.0, 0.0, 0.5)
  {
    SquareLayout(coords);
    var d := Vec3(0.0, 0.0, 0.5);
    SquareArithmetic.Displaced(coords[0], d, t[0]);
    PairsMap(coords, coords[0], coords[1], coords[2], coords[3], X, 0.0001);
    PairsSymmetrize(coords, coords[0], coords[1], coords[2], coords[3], X, 0.0001, t, d);
    SquareArithmetic.ReflectedUp(d);
    SquareArithmetic.Moved(coords[1], Reflect(d, X));
  }
}
