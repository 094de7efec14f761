/** `find_mirror_map`: pairs every vertex on the source side of the mirror
    plane with the nearest unused vertex near its reflection (its own
    component first, then the whole mesh), then maps every vertex on the
    plane to itself. Distances are compared squared: `dist < best_d` with
    both non-negative is `dist * dist < best_d * best_d`, so `Best.d` holds
    the square of the source's `best_d`. */
module MirrorMap {
  import opened Optional
  import opened Geometry
  import opened OrderedMap
  import opened Connectivity

  /** `best_j, best_d` of the candidate scans. */
  datatype Best = Best(j: Option<nat>, d: real)

  /** What the matching loop carries from vertex to vertex: `mirror_map`
      and `used`. */
  datatype MatchState = MatchState(m: Dict, used: set<nat>)

  /** Every candidate names a coordinate. */
  predicate InRange(coords: seq<Vec3>, cands: seq<nat>)
  {
    forall k :: 0 <= k < |cands| ==> cands[k] < |coords|
  }

  /** `if j == i or j in used: continue` lets `j` through. */
  predicate Eligible(i: nat, used: set<nat>, j: nat)
  {
    j != i && j !in used
  }

  /** `range(len(coords))`, the candidates of the fallback search. */
  function Indices(n: nat): (r: seq<nat>)
    ensures |r| == n && forall k :: 0 <= k < n ==> r[k] == k
  {
    if n == 0 then [] else Indices(n - 1) + [n - 1]
  }

  /** One candidate loop (`for j in comp` or `for j, test_co in
      enumerate(coords)`), started from `acc`: an eligible candidate closer
      to `p` than the best so far (strict `<`) replaces it. */
  function Scan(coords: seq<Vec3>, p: Vec3, i: nat, cands: seq<nat>, used: set<nat>, acc: Best): Best
    requires InRange(coords, cands)
  {
    if cands == [] then acc
    else
      var prev := Scan(coords, p, i, cands[..|cands| - 1], used, acc);
      var j := cands[|cands| - 1];
      if !Eligible(i, used, j) then prev
      else
        var d := SqDist(p, coords[j]);
        if d < prev.d then Best(Some(j), d) else prev
  }

  /** Some eligible candidate is strictly closer to `p` than `bound`. */
  predicate AnyCloser(coords: seq<Vec3>, p: Vec3, i: nat, cands: seq<nat>, used: set<nat>, bound: real)
    requires InRange(coords, cands)
  {
    exists q :: 0 <= q < |cands| && Eligible(i, used, cands[q]) && SqDist(p, coords[cands[q]]) < bound
  }

  /** Position `q` holds the first of the eligible candidates nearest to
      `p`, and it is strictly closer than `bound`. */
  predicate FirstNearest(coords: seq<Vec3>, p: Vec3, i: nat, cands: seq<nat>, used: set<nat>, bound: real, q: nat)
    requires InRange(coords, cands)
  {
    && q < |cands| && Eligible(i, used, cands[q])
    && SqDist(p, coords[cands[q]]) < bound
    && (forall k :: 0 <= k < q && Eligible(i, used, cands[k]) ==>
          SqDist(p, coords[cands[k]]) > SqDist(p, coords[cands[q]]))
    && (forall k :: 0 <= k < |cands| && Eligible(i, used, cands[k]) ==>
          SqDist(p, coords[cands[k]]) >= SqDist(p, coords[cands[q]]))
  }

  /** A scan keeps its starting value exactly when no eligible candidate
      beats it; otherwise it ends on the first nearest candidate. */
  lemma {:induction false} ScanFacts(coords: seq<Vec3>, p: Vec3, i: nat, cands: seq<nat>, used: set<nat>, acc: Best)
    requires InRange(coords, cands)
    ensures var r := Scan(coords, p, i, cands, used, acc);
      && r.d <= acc.d
      && (r == acc <==> !AnyCloser(coords, p, i, cands, used, acc.d))
      && (r != acc ==> exists q: nat :: FirstNearest(coords, p, i, cands, used, acc.d, q)
                                   && r == Best(Some(cands[q]), SqDist(p, coords[cands[q]])))
    decreases |cands|
  {
    if cands != [] {
      var pre := cands[..|cands| - 1];
      var j := cands[|cands| - 1];
      assert InRange(coords, pre);
      ScanFacts(coords, p, i, pre, used, acc);
      var prev := Scan(coords, p, i, pre, used, acc);
      var r := Scan(coords, p, i, cands, used, acc);
      assert forall k :: 0 <= k < |pre| ==> pre[k] == cands[k];
      if prev != acc {
        var q0: nat :| FirstNearest(coords, p, i, pre, used, acc.d, q0)
                  && prev == Best(Some(pre[q0]), SqDist(p, coords[pre[q0]]));
        assert AnyCloser(coords, p, i, cands, used, acc.d) by {
          assert Eligible(i, used, cands[q0]) && SqDist(p, coords[cands[q0]]) < acc.d;
        }
        if r == prev {
          assert FirstNearest(coords, p, i, cands, used, acc.d, q0);
        } else {
          assert FirstNearest(coords, p, i, cands, used, acc.d, |cands| - 1);
        }
      } else if r != prev {
        assert FirstNearest(coords, p, i, cands, used, acc.d, |cands| - 1);
      } else {
        forall q | 0 <= q < |cands| && Eligible(i, used, cands[q])
          ensures SqDist(p, coords[cands[q]]) >= acc.d
        {
          if q < |pre| {
            assert pre[q] == cands[q];
          }
        }
      }
    }
  }

  /** The search for vertex `i` within its component `comp`, falling back
      to every vertex when the component offers nothing within `tol`. */
  function MatchOf(coords: seq<Vec3>, comp: seq<nat>, i: nat, used: set<nat>, axis: Axis, tol: real): Option<nat>
    requires i < |coords| && InRange(coords, comp)
  {
    var p := Reflect(coords[i], axis);
    var local := Scan(coords, p, i, comp, used, Best(None, tol * tol));
    if local.j.Some? then local.j
    else Scan(coords, p, i, Indices(|coords|), used, local).j
  }

  /** `i` in `coords` paired with `j`: `j` is another vertex strictly within
      `tol` of the reflection of `i`. */
  predicate Close(coords: seq<Vec3>, i: nat, j: nat, axis: Axis, tol: real)
  {
    i < |coords| && j < |coords| && j != i && SqDist(Reflect(coords[i], axis), coords[j]) < tol * tol
  }

  /** A vertex is matched only to an unused vertex other than itself,
      strictly within `tol` of its reflection, and is matched whenever such
      a vertex exists anywhere in the mesh. */
  lemma MatchOfValid(coords: seq<Vec3>, comp: seq<nat>, i: nat, used: set<nat>, axis: Axis, tol: real)
    requires i < |coords| && InRange(coords, comp)
    ensures var r := MatchOf(coords, comp, i, used, axis, tol);
      && (r.Some? ==> r.value !in used && Close(coords, i, r.value, axis, tol))
      && (r.None? <==> !AnyCloser(coords, Reflect(coords[i], axis), i, Indices(|coords|), used, tol * tol))
  {
    var p := Reflect(coords[i], axis);
    var start := Best(None, tol * tol);
    var all := Indices(|coords|);
    ScanFacts(coords, p, i, comp, used, start);
    var local := Scan(coords, p, i, comp, used, start);
    if local.j.Some? {
      var q: nat :| FirstNearest(coords, p, i, comp, used, tol * tol, q) && local == Best(Some(comp[q]), SqDist(p, coords[comp[q]]));
      var j := comp[q];
      assert all[j] == j;
      assert AnyCloser(coords, p, i, all, used, tol * tol);
    } else {
      ScanFacts(coords, p, i, all, used, local);
      var global := Scan(coords, p, i, all, used, local);
      if global != local {
        var q: nat :| FirstNearest(coords, p, i, all, used, tol * tol, q) && global == Best(Some(all[q]), SqDist(p, coords[all[q]]));
        assert all[q] == q;
      }
    }
  }

  /** When some unused vertex of the component is within `tol`, the match
      is the first nearest one of the component. */
  lemma MatchOfPrefersComponent(coords: seq<Vec3>, comp: seq<nat>, i: nat, used: set<nat>, axis: Axis, tol: real)
    requires i < |coords| && InRange(coords, comp)
    requires AnyCloser(coords, Reflect(coords[i], axis), i, comp, used, tol * tol)
    ensures var r := MatchOf(coords, comp, i, used, axis, tol);
      exists q: nat :: FirstNearest(coords, Reflect(coords[i], axis), i, comp, used, tol * tol, q) && r == Some(comp[q])
  {
    ScanFacts(coords, Reflect(coords[i], axis), i, comp, used, Best(None, tol * tol));
  }

  /** Otherwise the match is the first nearest vertex of the whole mesh,
      if there is one. */
  lemma MatchOfFallsBack(coords: seq<Vec3>, comp: seq<nat>, i: nat, used: set<nat>, axis: Axis, tol: real)
    requires i < |coords| && InRange(coords, comp)
    requires !AnyCloser(coords, Reflect(coords[i], axis), i, comp, used, tol * tol)
    ensures var r := MatchOf(coords, comp, i, used, axis, tol);
      r.Some? ==> FirstNearest(coords, Reflect(coords[i], axis), i, Indices(|coords|), used, tol * tol, r.value)
  {
    var p := Reflect(coords[i], axis);
    var start := Best(None, tol * tol);
    var all := Indices(|coords|);
    ScanFacts(coords, p, i, comp, used, start);
    ScanFacts(coords, p, i, all, used, start);
    var global := Scan(coords, p, i, all, used, start);
    if global != start {
      var q: nat :| FirstNearest(coords, p, i, all, used, tol * tol, q) && global == Best(Some(all[q]), SqDist(p, coords[all[q]]));
      assert all[q] == q;
    }
  }

  /** The body of `for i in comp`: a vertex off the source side is skipped;
      a source vertex that finds a match records it and marks it used. */
  function Visit(coords: seq<Vec3>, comp: seq<nat>, i: nat, st: MatchState, axis: Axis, dir: Direction, tol: real): MatchState
    requires i < |coords| && InRange(coords, comp)
  {
    if !IsSource(coords[i], axis, dir, tol) then st
    else
      match MatchOf(coords, comp, i, st.used, axis, tol)
      case None => st
      case Some(j) => MatchState(Put(st.m, i, j), st.used + {j})
  }

  /** `for i in comp` over the first `n` vertices of the component. */
  function MatchIn(coords: seq<Vec3>, comp: seq<nat>, n: nat, st: MatchState, axis: Axis, dir: Direction, tol: real): MatchState
    requires n <= |comp| && InRange(coords, comp)
  {
    if n == 0 then st
    else Visit(coords, comp, comp[n - 1], MatchIn(coords, comp, n - 1, st, axis, dir, tol), axis, dir, tol)
  }

  /** `for comp in components` over the first `n` components. */
  function MatchAll(coords: seq<Vec3>, comps: seq<seq<nat>>, n: nat, axis: Axis, dir: Direction, tol: real): MatchState
    requires n <= |comps| && IndicesBelow(|coords|, comps)
  {
    if n == 0 then MatchState([], {})
    else
      var comp := comps[n - 1];
      assert InRange(coords, comp);
      MatchIn(coords, comp, |comp|, MatchAll(coords, comps, n - 1, axis, dir, tol), axis, dir, tol)
  }

  /** `for i, co in enumerate(coords)` over the first `n` vertices: every
      vertex on the plane is mapped to itself. */
  function Pin(coords: seq<Vec3>, n: nat, m: Dict, axis: Axis, tol: real): Dict
    requires n <= |coords|
  {
    if n == 0 then m
    else
      var prev := Pin(coords, n - 1, m, axis, tol);
      if OnAxis(coords[n - 1], axis, tol) then Put(prev, n - 1, n - 1) else prev
  }

  /** The map `find_mirror_map` returns for given components. */
  function MirrorMapFrom(coords: seq<Vec3>, comps: seq<seq<nat>>, axis: Axis, dir: Direction, tol: real): Dict
    requires IndicesBelow(|coords|, comps)
  {
    Pin(coords, |coords|, MatchAll(coords, comps, |comps|, axis, dir, tol).m, axis, tol)
  }

  /** The map `find_mirror_map` returns for a mesh. */
  function FindMap(coords: seq<Vec3>, adj: Adjacency, axis: Axis, dir: Direction, tol: real): Dict
    requires WellFormed(adj) && |adj| == |coords| && tol >= 0.0
  {
    ComponentsPartition(adj);
    MirrorMapFrom(coords, Components(adj), axis, dir, tol)
  }

  /** What the matching loop keeps true: keys are distinct; every entry is
      a source vertex paired with a used vertex strictly within `tol` of its
      reflection; no two entries share a destination. */
  predicate MatchInv(coords: seq<Vec3>, st: MatchState, axis: Axis, dir: Direction, tol: real)
  {
    && KeysDistinct(st.m)
    && (forall e :: e in st.m ==>
          && Close(coords, e.src, e.dst, axis, tol)
          && IsSource(coords[e.src], axis, dir, tol)
          && e.dst in st.used)
    && (forall e1, e2 :: e1 in st.m && e2 in st.m && e1.dst == e2.dst ==> e1 == e2)
  }

  lemma VisitKeeps(coords: seq<Vec3>, comp: seq<nat>, i: nat, st: MatchState, axis: Axis, dir: Direction, tol: real)
    requires i < |coords| && InRange(coords, comp)
    requires MatchInv(coords, st, axis, dir, tol)
    ensures MatchInv(coords, Visit(coords, comp, i, st, axis, dir, tol), axis, dir, tol)
  {
    if IsSource(coords[i], axis, dir, tol) {
      MatchOfValid(coords, comp, i, st.used, axis, tol);
    }
  }

  lemma {:induction false} MatchInKeeps(coords: seq<Vec3>, comp: seq<nat>, n: nat, st: MatchState, axis: Axis, dir: Direction, tol: real)
    requires n <= |comp| && InRange(coords, comp)
    requires MatchInv(coords, st, axis, dir, tol)
    ensures MatchInv(coords, MatchIn(coords, comp, n, st, axis, dir, tol), axis, dir, tol)
  {
    if n > 0 {
      MatchInKeeps(coords, comp, n - 1, st, axis, dir, tol);
      VisitKeeps(coords, comp, comp[n - 1], MatchIn(coords, comp, n - 1, st, axis, dir, tol), axis, dir, tol);
    }
  }

  lemma {:induction false} MatchAllKeeps(coords: seq<Vec3>, comps: seq<seq<nat>>, n: nat, axis: Axis, dir: Direction, tol: real)
    requires n <= |comps| && IndicesBelow(|coords|, comps)
    ensures MatchInv(coords, MatchAll(coords, comps, n, axis, dir, tol), axis, dir, tol)
  {
    if n > 0 {
      var comp := comps[n - 1];
      assert InRange(coords, comp);
      MatchAllKeeps(coords, comps, n - 1, axis, dir, tol);
      MatchInKeeps(coords, comp, |comp|, MatchAll(coords, comps, n - 1, axis, dir, tol), axis, dir, tol);
    }
  }

  /** Pinning maps every vertex on the plane to itself. */
  lemma {:induction false} PinSelf(coords: seq<Vec3>, n: nat, m: Dict, axis: Axis, tol: real)
    requires n <= |coords| && KeysDistinct(m)
    ensures var r := Pin(coords, n, m, axis, tol);
      && KeysDistinct(r)
      && (forall x :: 0 <= x < n && OnAxis(coords[x], axis, tol) ==> Pair(x, x) in r)
  {
    if n > 0 {
      PinSelf(coords, n - 1, m, axis, tol);
      var prev := Pin(coords, n - 1, m, axis, tol);
      if OnAxis(coords[n - 1], axis, tol) {
        var r := Put(prev, n - 1, n - 1);
        forall x | 0 <= x < n - 1 && OnAxis(coords[x], axis, tol) ensures Pair(x, x) in r {
          PutKeepsEntry(prev, n - 1, n - 1, Pair(x, x));
        }
      }
    }
  }

  /** Pinning keeps every entry whose key is off the plane. */
  lemma {:induction false} PinKeeps(coords: seq<Vec3>, n: nat, m: Dict, axis: Axis, tol: real)
    requires n <= |coords|
    ensures var r := Pin(coords, n, m, axis, tol);
      forall e :: e in m && (e.src >= n || !OnAxis(coords[e.src], axis, tol)) ==> e in r
  {
    if n > 0 {
      PinKeeps(coords, n - 1, m, axis, tol);
      var prev := Pin(coords, n - 1, m, axis, tol);
      if OnAxis(coords[n - 1], axis, tol) {
        var r := Put(prev, n - 1, n - 1);
        forall e | e in m && (e.src >= n || !OnAxis(coords[e.src], axis, tol))
          ensures e in r
        {
          assert e in prev;
          var p :| 0 <= p < |prev| && prev[p] == e;
          assert r[p] == e;
        }
      }
    }
  }

  /** Pinning adds nothing but self entries of vertices on the plane, which
      override the earlier entries of those vertices. */
  lemma {:induction false} PinOnly(coords: seq<Vec3>, n: nat, m: Dict, axis: Axis, tol: real)
    requires n <= |coords|
    ensures var r := Pin(coords, n, m, axis, tol);
      forall e :: e in r ==>
        (e in m && (e.src >= n || !OnAxis(coords[e.src], axis, tol)))
        || (e.src == e.dst && e.src < n && OnAxis(coords[e.src], axis, tol))
  {
    if n > 0 {
      PinOnly(coords, n - 1, m, axis, tol);
    }
  }

  /** The shape of every map `find_mirror_map` returns. */
  predicate MirrorShape(coords: seq<Vec3>, r: Dict, axis: Axis, dir: Direction, tol: real)
  {
    && KeysDistinct(r)
    // every vertex on the plane maps to itself, and self entries are exactly those
    && (forall x :: 0 <= x < |coords| && OnAxis(coords[x], axis, tol) ==> Pair(x, x) in r)
    && (forall e :: e in r ==> e.src < |coords| && e.dst < |coords|)
    && (forall e :: e in r ==> (e.src == e.dst <==> OnAxis(coords[e.src], axis, tol)))
    // every other entry is a match recorded by the matching loop
    && (forall e :: e in r && e.src != e.dst ==>
          Close(coords, e.src, e.dst, axis, tol) && IsSource(coords[e.src], axis, dir, tol))
    && (forall e1, e2 :: e1 in r && e2 in r && e1.src != e1.dst && e2.src != e2.dst && e1.dst == e2.dst ==> e1 == e2)
  }

  /** The returned map has the shape above, on any way of cutting the mesh
      into components. */
  lemma MirrorMapFacts(coords: seq<Vec3>, comps: seq<seq<nat>>, axis: Axis, dir: Direction, tol: real)
    requires IndicesBelow(|coords|, comps)
    ensures MirrorShape(coords, MirrorMapFrom(coords, comps, axis, dir, tol), axis, dir, tol)
  {
    var st := MatchAll(coords, comps, |comps|, axis, dir, tol);
    MatchAllKeeps(coords, comps, |comps|, axis, dir, tol);
    PinSelf(coords, |coords|, st.m, axis, tol);
    PinOnly(coords, |coords|, st.m, axis, tol);
    var r := MirrorMapFrom(coords, comps, axis, dir, tol);
    forall e | e in r ensures e.src == e.dst <==> OnAxis(coords[e.src], axis, tol) {
      if OnAxis(coords[e.src], axis, tol) {
        DistinctKeysUnique(r, e, Pair(e.src, e.src));
      }
    }
  }

  /** A matched source is never the destination of any entry, so the
      transfer never overwrites a vertex it still has to read; in
      particular no pair occurs in both orders. */
  lemma SourcesNotWritten(coords: seq<Vec3>, r: Dict, axis: Axis, dir: Direction, tol: real)
    requires tol >= 0.0 && MirrorShape(coords, r, axis, dir, tol)
    ensures forall e1, e2 :: e1 in r && e2 in r && e1.src != e1.dst ==> e2.dst != e1.src
  {
    forall e1, e2 | e1 in r && e2 in r && e1.src != e1.dst
      ensures e2.dst != e1.src
    {
      if e2.src == e2.dst {
        assert !OnAxis(coords[e1.src], axis, tol);
      } else {
        MatchedPartnerOppositeSide(coords[e2.src], coords[e2.dst], axis, dir, tol);
      }
    }
  }

  /** With `tol = 0` no two distinct vertices are ever paired: only the
      vertices exactly on the plane appear, each mapped to itself. */
  lemma ZeroTolerance(coords: seq<Vec3>, comps: seq<seq<nat>>, axis: Axis, dir: Direction)
    requires IndicesBelow(|coords|, comps)
    ensures var r := MirrorMapFrom(coords, comps, axis, dir, 0.0);
      forall e :: e in r ==> e.src == e.dst && e.src < |coords| && Get(coords[e.src], axis) == 0.0
  {
    MirrorMapFacts(coords, comps, axis, dir, 0.0);
  }

  /** The map of a mesh has the shape above. */
  lemma FindMapShape(coords: seq<Vec3>, adj: Adjacency, axis: Axis, dir: Direction, tol: real)
    requires WellFormed(adj) && |adj| == |coords| && tol >= 0.0
    ensures MirrorShape(coords, FindMap(coords, adj, axis, dir, tol), axis, dir, tol)
  {
    ComponentsPartition(adj);
    MirrorMapFacts(coords, Components(adj), axis, dir, tol);
  }

  /** Vertex `i` finds no match while nothing is used: it is off the
      source side, or no other vertex lies strictly within `tol` of its
      reflection. */
  predicate Unmatched(coords: seq<Vec3>, i: nat, axis: Axis, dir: Direction, tol: real)
    requires i < |coords|
  {
    || !IsSource(coords[i], axis, dir, tol)
    || forall j :: 0 <= j < |coords| && j != i ==> SqDist(Reflect(coords[i], axis), coords[j]) >= tol * tol
  }

  lemma VisitFromEmpty(coords: seq<Vec3>, comp: seq<nat>, i: nat, st: MatchState, axis: Axis, dir: Direction, tol: real)
    requires i < |coords| && InRange(coords, comp)
    ensures var r := Visit(coords, comp, i, st, axis, dir, tol);
      && (st.m != [] ==> r.m != [])
      && (st == MatchState([], {}) ==> (r.m == [] <==> Unmatched(coords, i, axis, dir, tol)) && (r.m == [] ==> r == st))
  {
    if IsSource(coords[i], axis, dir, tol) {
      MatchOfValid(coords, comp, i, st.used, axis, tol);
      var all := Indices(|coords|);
      if st == MatchState([], {}) && !Unmatched(coords, i, axis, dir, tol) {
        var j :| 0 <= j < |coords| && j != i && SqDist(Reflect(coords[i], axis), coords[j]) < tol * tol;
        assert all[j] == j;
      }
    }
  }

  lemma {:induction false} MatchInFromEmpty(coords: seq<Vec3>, comp: seq<nat>, n: nat, st: MatchState, axis: Axis, dir: Direction, tol: real)
    requires n <= |comp| && InRange(coords, comp)
    ensures var r := MatchIn(coords, comp, n, st, axis, dir, tol);
      && (st.m != [] ==> r.m != [])
      && (st == MatchState([], {}) ==>
            && (r.m == [] <==> forall k :: 0 <= k < n ==> Unmatched(coords, comp[k], axis, dir, tol))
            && (r.m == [] ==> r == st))
  {
    if n > 0 {
      MatchInFromEmpty(coords, comp, n - 1, st, axis, dir, tol);
      VisitFromEmpty(coords, comp, comp[n - 1], MatchIn(coords, comp, n - 1, st, axis, dir, tol), axis, dir, tol);
    }
  }

  /** The matching loop records nothing exactly when no listed vertex can
      be matched with nothing used. */
  lemma {:induction false} MatchAllEmpty(coords: seq<Vec3>, comps: seq<seq<nat>>, n: nat, axis: Axis, dir: Direction, tol: real)
    requires n <= |comps| && IndicesBelow(|coords|, comps)
    ensures var r := MatchAll(coords, comps, n, axis, dir, tol);
      && (r.m == [] <==> forall c, k :: 0 <= c < n && 0 <= k < |comps[c]| ==> Unmatched(coords, comps[c][k], axis, dir, tol))
      && (r.m == [] ==> r == MatchState([], {}))
  {
    if n > 0 {
      var comp := comps[n - 1];
      assert InRange(coords, comp);
      MatchAllEmpty(coords, comps, n - 1, axis, dir, tol);
      MatchInFromEmpty(coords, comp, |comp|, MatchAll(coords, comps, n - 1, axis, dir, tol), axis, dir, tol);
    }
  }

  /** Pinning leaves the map empty exactly when it was empty and no vertex
      is on the plane. */
  lemma {:induction false} PinEmpty(coords: seq<Vec3>, n: nat, m: Dict, axis: Axis, tol: real)
    requires n <= |coords|
    ensures Pin(coords, n, m, axis, tol) == [] <==> m == [] && forall x :: 0 <= x < n ==> !OnAxis(coords[x], axis, tol)
  {
    if n > 0 {
      PinEmpty(coords, n - 1, m, axis, tol);
    }
  }

  lemma {:induction false} FlattenHas(cs: seq<seq<nat>>, x: nat)
    requires x in Flatten(cs)
    ensures exists c, k :: 0 <= c < |cs| && 0 <= k < |cs[c]| && cs[c][k] == x
  {
    var pre := cs[..|cs| - 1];
    if x in Flatten(pre) {
      FlattenHas(pre, x);
      var c, k :| 0 <= c < |pre| && 0 <= k < |pre[c]| && pre[c][k] == x;
      assert cs[c] == pre[c];
    } else {
      var k :| 0 <= k < |cs[|cs| - 1]| && cs[|cs| - 1][k] == x;
    }
  }

  /** `find_mirror_map` returns an empty dict exactly when no vertex is on
      the plane and no source vertex has another vertex strictly within
      `tol` of its reflection. */
  lemma FindMapEmpty(coords: seq<Vec3>, adj: Adjacency, axis: Axis, dir: Direction, tol: real)
    requires WellFormed(adj) && |adj| == |coords| && tol >= 0.0
    ensures FindMap(coords, adj, axis, dir, tol) == [] <==>
      forall x :: 0 <= x < |coords| ==> !OnAxis(coords[x], axis, tol) && Unmatched(coords, x, axis, dir, tol)
  {
    ComponentsPartition(adj);
    var comps := Components(adj);
    MatchAllEmpty(coords, comps, |comps|, axis, dir, tol);
    PinEmpty(coords, |coords|, MatchAll(coords, comps, |comps|, axis, dir, tol).m, axis, tol);
    if MatchAll(coords, comps, |comps|, axis, dir, tol).m == [] {
      forall x | 0 <= x < |coords| ensures Unmatched(coords, x, axis, dir, tol) {
        FlattenHas(comps, x);
      }
    }
  }

  /** The candidate loops, as the source writes them. */
  method NearestUnused(coords: seq<Vec3>, p: Vec3, i: nat, cands: seq<nat>, used: set<nat>, start: Best) returns (best: Best)
    requires InRange(coords, cands)
    ensures best == Scan(coords, p, i, cands, used, start)
  {
    best := start;
    for k := 0 to |cands|
      invariant best == Scan(coords, p, i, cands[..k], used, start)
    {
      var j := cands[k];
      assert cands[..k + 1][..k] == cands[..k];
      if j == i || j in used {
        continue;
      }
      var dist := SqDist(p, coords[j]);
      if dist < best.d {
        best := Best(Some(j), dist);
      }
    }
    assert cands[..|cands|] == cands;
  }

  /** The matching loops `for comp in components: for i in comp`, as the
      source writes them. */
  method MatchComponents(coords: seq<Vec3>, components: seq<seq<nat>>, axis: Axis, dir: Direction, tol: real)
    returns (mirror: Dict, used: set<nat>)
    requires IndicesBelow(|coords|, components)
    ensures MatchState(mirror, used) == MatchAll(coords, components, |components|, axis, dir, tol)
  {
    mirror, used := [], {};
    for c := 0 to |components|
      invariant MatchState(mirror, used) == MatchAll(coords, components, c, axis, dir, tol)
    {
      var comp := components[c];
      assert InRange(coords, comp);
      ghost var before := MatchState(mirror, used);
      for k := 0 to |comp|
        invariant MatchState(mirror, used) == MatchIn(coords, comp, k, before, axis, dir, tol)
      {
        var i := comp[k];
        var co := coords[i];
        if dir == Negative && Get(co, axis) > -tol {
          continue;
        }
        if dir == Positive && Get(co, axis) < tol {
          continue;
        }
        var mirrored := Reflect(co, axis);
        var best := NearestUnused(coords, mirrored, i, comp, used, Best(None, tol * tol));
        if best.j.None? {
          best := NearestUnused(coords, mirrored, i, Indices(|coords|), used, best);
        }
        if best.j.Some? {
          mirror := Put(mirror, i, best.j.value);
          used := used + {best.j.value};
        }
      }
    }
  }

  /** `find_mirror_map`, as the source writes it. */
  method FindMirrorMap(coords: seq<Vec3>, adj: Adjacency, axis: Axis, dir: Direction, tol: real) returns (mirror: Dict)
    requires WellFormed(adj) && |adj| == |coords| && tol >= 0.0
    ensures mirror == FindMap(coords, adj, axis, dir, tol)
    ensures MirrorShape(coords, mirror, axis, dir, tol)
  {
    var components := ConnectedComponents(adj);
    var used;
    mirror, used := MatchComponents(coords, components, axis, dir, tol);
    ghost var matched := mirror;
    for i := 0 to |coords|
      invariant mirror == Pin(coords, i, matched, axis, tol)
    {
      if Abs(Get(coords[i], axis)) <= tol {
        mirror := Put(mirror, i, i);
      }
    }
    MirrorMapFacts(coords, components, axis, dir, tol);
  }
}
