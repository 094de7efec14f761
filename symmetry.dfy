/** `is_symmetric`: the reference key's positions checked against the
    mesh's mirror map. The map is always built in the `NEGATIVE` direction
    from the mesh's own vertex positions, while the distances are read from
    the reference key, so an index past the end of the key's data raises an
    `IndexError` that nothing catches. */
module Symmetry {
  import opened Geometry
  import opened OrderedMap
  import opened Connectivity
  import opened MirrorMap

  /** How the check ends: `True`, `False`, or with the uncaught
      `IndexError`. */
  datatype Verdict = Pass | Fail | IndexFault

  /** One iteration of `for i, j in mirror_map.items()`: a self pair is
      skipped; otherwise both positions are read (either read may raise) and
      the pair fails when the reflection of `base[i]` is farther than `tol`
      from `base[j]`. */
  function PairVerdict(base: seq<Vec3>, e: Pair, axis: Axis, tol: real): Verdict
  {
    if e.src == e.dst then Pass
    else if e.src >= |base| || e.dst >= |base| then IndexFault
    else if SqDist(Reflect(base[e.src], axis), base[e.dst]) > tol * tol then Fail
    else Pass
  }

  /** The loop over the map in order, ending at the first pair that does
      not pass. */
  function Check(base: seq<Vec3>, m: Dict, axis: Axis, tol: real): Verdict
  {
    if m == [] then Pass
    else if PairVerdict(base, m[0], axis, tol) != Pass then PairVerdict(base, m[0], axis, tol)
    else Check(base, m[1..], axis, tol)
  }

  /** `is_symmetric(obj, base_key, axis, tolerance)` for a mesh with
      positions `coords` and adjacency `adj`, and `base` the positions of
      `base_key`. */
  function IsSymmetric(coords: seq<Vec3>, adj: Adjacency, base: seq<Vec3>, axis: Axis, tol: real): Verdict
    requires WellFormed(adj) && |adj| == |coords| && tol >= 0.0
  {
    Check(base, FindMap(coords, adj, axis, Negative, tol), axis, tol)
  }

  /** Every pair with `i != j` names positions of `base`, and the
      reflection of `base[i]` lies within `tol` of `base[j]`. */
  predicate SymmetricUnder(base: seq<Vec3>, m: Dict, axis: Axis, tol: real)
  {
    forall e :: e in m && e.src != e.dst ==>
      e.src < |base| && e.dst < |base| && SqDist(Reflect(base[e.src], axis), base[e.dst]) <= tol * tol
  }

  /** Position `p` holds the first pair of `m` that does not pass. */
  predicate FirstOffender(base: seq<Vec3>, m: Dict, p: nat, axis: Axis, tol: real)
  {
    && p < |m| && PairVerdict(base, m[p], axis, tol) != Pass
    && forall q :: 0 <= q < p ==> PairVerdict(base, m[q], axis, tol) == Pass
  }

  lemma PairPasses(base: seq<Vec3>, e: Pair, axis: Axis, tol: real)
    ensures PairVerdict(base, e, axis, tol) == Pass <==>
      (e.src != e.dst ==> e.src < |base| && e.dst < |base| && SqDist(Reflect(base[e.src], axis), base[e.dst]) <= tol * tol)
  {
  }

  /** The check passes exactly when the map's pairs are symmetric under
      `base`. */
  lemma {:induction false} CheckPasses(base: seq<Vec3>, m: Dict, axis: Axis, tol: real)
    ensures Check(base, m, axis, tol) == Pass <==> SymmetricUnder(base, m, axis, tol)
  {
    if m != [] {
      CheckPasses(base, m[1..], axis, tol);
      PairPasses(base, m[0], axis, tol);
      assert forall e :: e in m <==> e == m[0] || e in m[1..];
    }
  }

  /** A check that does not pass ends with the verdict of the first pair
      that does not pass, and such a pair exists. */
  lemma {:induction false} CheckStopsAtFirst(base: seq<Vec3>, m: Dict, axis: Axis, tol: real)
    ensures Check(base, m, axis, tol) != Pass <==> exists p: nat :: FirstOffender(base, m, p, axis, tol)
    ensures forall p: nat :: FirstOffender(base, m, p, axis, tol) ==> Check(base, m, axis, tol) == PairVerdict(base, m[p], axis, tol)
  {
    if m != [] {
      CheckStopsAtFirst(base, m[1..], axis, tol);
      if PairVerdict(base, m[0], axis, tol) != Pass {
        assert FirstOffender(base, m, 0, axis, tol);
        forall p: nat | FirstOffender(base, m, p, axis, tol) ensures p == 0 {
        }
      } else {
        forall p: nat | FirstOffender(base, m[1..], p, axis, tol) ensures FirstOffender(base, m, p + 1, axis, tol) {
          forall q | 0 <= q < p + 1 ensures PairVerdict(base, m[q], axis, tol) == Pass {
            if q > 0 {
              assert m[q] == m[1..][q - 1];
            }
          }
        }
        forall p: nat | FirstOffender(base, m, p, axis, tol) ensures p > 0 && FirstOffender(base, m[1..], p - 1, axis, tol) {
          assert p != 0;
          forall q | 0 <= q < p - 1 ensures PairVerdict(base, m[1..][q], axis, tol) == Pass {
            assert m[1..][q] == m[q + 1];
          }
        }
      }
    }
  }

  /** A map built from a mesh names only its vertices, so the check never
      raises when the key holds a position for every vertex. */
  lemma NoFaultOnFullKey(coords: seq<Vec3>, adj: Adjacency, base: seq<Vec3>, axis: Axis, tol: real)
    requires WellFormed(adj) && |adj| == |coords| && tol >= 0.0 && |base| >= |coords|
    ensures IsSymmetric(coords, adj, base, axis, tol) != IndexFault
  {
    var m := FindMap(coords, adj, axis, Negative, tol);
    FindMapShape(coords, adj, axis, Negative, tol);
    CheckStopsAtFirst(base, m, axis, tol);
    forall p: nat | FirstOffender(base, m, p, axis, tol) ensures PairVerdict(base, m[p], axis, tol) != IndexFault {
      assert m[p] in m;
    }
  }

  /** Checked against the mesh's own positions the check always passes:
      every pair it inspects was matched as strictly within `tol`. */
  lemma MeshPositionsPass(coords: seq<Vec3>, adj: Adjacency, axis: Axis, tol: real)
    requires WellFormed(adj) && |adj| == |coords| && tol >= 0.0
    ensures IsSymmetric(coords, adj, coords, axis, tol) == Pass
  {
    var m := FindMap(coords, adj, axis, Negative, tol);
    FindMapShape(coords, adj, axis, Negative, tol);
    CheckPasses(coords, m, axis, tol);
  }

  /** `is_symmetric` as the v1.9 operators call it: it builds its own
      `NEGATIVE` map of the mesh and checks `base` against it. */
  method CheckSymmetry(coords: seq<Vec3>, adj: Adjacency, base: seq<Vec3>, axis: Axis, tol: real) returns (v: Verdict)
    requires WellFormed(adj) && |adj| == |coords| && tol >= 0.0
    ensures v == IsSymmetric(coords, adj, base, axis, tol)
    ensures v == Pass <==> SymmetricUnder(base, FindMap(coords, adj, axis, Negative, tol), axis, tol)
  {
    var m := FindMirrorMap(coords, adj, axis, Negative, tol);
    v := Check(base, m, axis, tol);
    CheckPasses(base, m, axis, tol);
  }
}
