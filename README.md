# Shape Key Mirror Plus, modelled in Dafny

Shape Key Mirror Plus is a Blender add-on that mirrors shape-key deltas
across an axis. A shape key is a named layer of per-vertex positions. Its
delta is the displacement from its relative key (the reference layer). The
add-on does two things:

1. It builds a *mirror map* from vertex to vertex (`find_mirror_map`):
   - An iterative depth-first search cuts the mesh into connected components.
   - Every vertex on the source side of the plane is paired with the nearest
     unused vertex strictly within the tolerance of its reflection. The search
     looks in the vertex's own component first, then in the whole mesh.
   - Finally, every vertex within the tolerance of the plane is mapped to
     itself.
2. Two operators use the map to rewrite the target shape key in place:
   - *Symmetrize* writes each destination with the mirrored delta of its
     source.
   - *Swap* exchanges the mirrored deltas of each pair.

   Version 1.9 runs `is_symmetric` on the reference key before either
   operator. Version 1.7 has only symmetrize: it skips the symmetry check and
   cancels on an empty map instead.

The model follows the source's own form:

- **Pure specification functions** that follow the Python loops one
  iteration at a time: `Explore`, `Sweep`, `Components`, `Scan`,
  `MatchOf`, `Visit`, `MatchAll`, `Pin`, `FindMap`, `Check`,
  `ApplyMirror` and `SwapAll`.
- **Imperative methods** written the way the source writes its loops. Each
  is proved equal to its function:
  - `SearchFrom`, `PushUnvisited` and `ConnectedComponents` for the
    depth-first search;
  - `NearestUnused`, `MatchComponents` and `FindMirrorMap` for the matching;
  - `CheckSymmetry` for `is_symmetric`;
  - `Symmetrize` and `Swap`, which rewrite an `array` in place.
- **The operators** as methods over a `ShapeKey` class. Each block holds a
  `data` array, and its `relativeKey` field points at the reference block.
- **Lemmas** state what the source promises of these functions.

Coordinates are exact `real` 3-vectors. Every comparison of `.length`
with the tolerance is a comparison of squared distance with `tol * tol`.
`SquaredAgrees` shows that the two agree, for `<` and for `>`, when the
length and the tolerance are non-negative; a length always is, and the
tolerance property has `min=0.0`. The Python dict is a sequence of
pairs with distinct keys. Assigning to an existing key replaces its entry
where it stands; assigning to a new key appends. This matters because the
transfer loops follow the map's order.

Behaviour of the code that the proofs make explicit:

- **Double entries for on-plane destinations.** A matched destination may
  itself lie within the tolerance of the plane, for example at `x = 0.5`
  with `tol = 1`. It then appears twice in the map: once as a destination
  and once as its own self entry, appended by the pinning loop.
  - `Scenarios.ScenarioMap` exhibits such a map.
  - Destinations are therefore unique only among the non-self entries
    (`MirrorShape`). One might expect a mirror map to send every
    vertex to a single partner; the code does not guarantee that.
- **Symmetrize tolerates the double entry only when the reference is on
  the plane there.** Then the self entry's write is pinned and changes
  nothing (`MirroredSelf`, `CrossEntryFinal`, `Scenarios.ScenarioSymmetrize`).
  When the reference's position at that vertex lies off the plane, the self
  entry reflects the delta just written back again, and the destination
  ends with the source's delta unmirrored, as with swap
  (`SymmetrizeReflectsTwice`). The symmetry check does not prevent this:
  it skips self entries, so with mesh positions `(-1.5, 0, 0)` and
  `(1, 0, 0)`, tolerance 1 and reference positions `(-1.5, 0, 0)` and
  `(1.2, 0, 0)` it passes (`Scenarios.ScenarioSymmetrizeOffPlane`,
  `Scenarios.OffPlaneReference`).
- **Swap does not.** It exchanges the self entry too, which reflects the
  delta it just wrote back again. The destination ends with the source's
  delta unmirrored (`SwapReflectsTwice`, `Scenarios.ScenarioSwap`).
  Swap's round trip therefore needs every index to be named by at most one
  entry (`Disjoint`). Swapping twice is a natural expectation, but on a
  map with such a double entry the code does not restore the key.
- **Symmetrize is idempotent** on a mirror map when the reference is on
  the plane wherever the mesh is (`SymmetrizeIdempotent`). A matched source
  is never written, so a second pass recomputes every destination from the
  same positions.
- **The reverse-pair skip never fires on a real mirror map.** A matched
  source is never any entry's destination (`SourcesNotWritten`). The skip
  is still modelled: on any map with distinct keys, the later of two
  entries that are each other's reverse changes nothing
  (`SwapSkipsReverse`), and no two such entries are both exchanged
  (`SwappedNoReverse`).
- **`is_symmetric` builds its own map.** It always uses the `NEGATIVE`
  direction, from the mesh's vertex positions. It reads the reference
  key's data at the map's indices, so a key shorter than the mesh raises
  an `IndexError` that nothing catches. The model names this verdict
  `IndexFault` and the operator outcome `Raised`.
- **The check always passes against the mesh's own positions**
  (`MeshPositionsPass`).
- **Order of checks in version 1.7.** It tests for an object with shape
  keys before reading the panel settings. The settings are plain values
  here, so the outcome is the same.

Files:

| file | contents |
|---|---|
| `geometry.dfy` | vectors, reflection, squared distance |
| `ordered_map.dfy` | `Option` and the insertion-ordered dict |
| `components.dfy` | the depth-first search |
| `mirror_map.dfy` | the matching and pinning |
| `symmetry.dfy` | `is_symmetric` |
| `transfer.dfy` | the two transfer loops |
| `scene.dfy` | shape key blocks and the common prechecks |
| `operators.dfy` | the version 1.9 operators |
| `operators_v17.dfy` | the version 1.7 operator |
| `scenarios.dfy` | the two-vertex example above |
| `pair_scenario.dfy` | a four-vertex mesh of two mirrored pairs, and the square `(-1,0,0), (1,0,0), (-1,1,0), (1,1,0)` as one instance of it |

Source cells below are relative to the repository root. The map algorithm
is the same in both copies of `find_mirror_map`, so one set of members
models both, and the table cites each copy.

## Model

| member | source | states |
|---|---|---|
| Geometry.Reflect | shape_key_mirror_plus.py:57-58 | the reflection negates the axis coordinate and keeps the other two |
| Geometry.ReflectInvolutive | shape_key_mirror_plus.py:202-206 | reflecting twice gives the vector back |
| Geometry.MatchedPartnerOppositeSide | shape_key_mirror_plus.py:52-66 | a vertex strictly within `tol` of a source's reflection lies strictly on the other side of the plane, so it is never a source itself |
| Geometry.SquaredAgrees | shape_key_mirror_plus.py:64-65 | for a non-negative length and tolerance, `dist < best_d` holds exactly when the squares compare the same way, and so does `>` (used for lines 72-73 and 99 too) |
| OrderedMap.Put | shape_key_mirror_plus.py:77 | `mirror_map[i] = j`: the key set gains `i`; an existing entry for `i` is replaced where it stands, otherwise `(i, j)` is appended; every other entry is kept; keys stay distinct |
| Connectivity.Explore | shape_key_mirror_plus.py:33-42 | the `while stack` loop of one component as a recursion: pop the top, skip a visited vertex, otherwise mark it, append it to `comp` and push its unvisited neighbours; `visited` only grows and stays inside the mesh (its properties are in `ComponentsPartition`) |
| Connectivity.Sweep | shape_key_mirror_plus.py:28-43 | the outer `for v in bm.verts` loop from a given vertex on: a visited vertex is skipped, otherwise its component is searched and appended (characterised by `ComponentsPartition`) |
| Connectivity.Components | shape_key_mirror_plus.py:25-43 | the `components` list, the sweep from vertex 0 with nothing visited (characterised by `ComponentsPartition`) |
| Connectivity.Unvisited | shape_key_mirror_plus.py:39-42 | the pushed neighbours are exactly the neighbours not yet visited |
| Connectivity.ComponentsPartition | shape_key_mirror_plus.py:25-43 | the components are non-empty; every vertex index lies in exactly one (their concatenation has no repeats and covers `0..n-1`); each is connected from its first vertex; on symmetric edges no edge leaves a component |
| Connectivity.SearchFrom | shape_key_mirror_plus.py:31-42 | the `while stack` loop computes the `visited` set and component of the depth-first specification |
| Connectivity.PushUnvisited | shape_key_mirror_plus.py:39-42 | the stack grows by the unvisited neighbours, in link order |
| Connectivity.ConnectedComponents | shape_key_mirror_plus.py:25-43 | the outer loop returns the specified components, and they form a partition as above (the version 1.7 copy, shape_key_mirror_plus/shape_key_mirror_plus.py:24-43, is the same loop) |
| MirrorMap.Scan | shape_key_mirror_plus.py:61-74 | one candidate loop, `for j in comp` or `for j, test_co in enumerate(coords)`, from a given best: used vertices and `i` itself are skipped and a strictly closer candidate replaces the best (characterised by `ScanFacts`) |
| MirrorMap.MatchOf | shape_key_mirror_plus.py:57-74 | the search for one source vertex: reflect it, scan its component from `(None, tolerance)`, and only when that finds nothing scan every vertex from the same best (characterised by `MatchOfValid`, `MatchOfPrefersComponent`, `MatchOfFallsBack`) |
| MirrorMap.Visit | shape_key_mirror_plus.py:50-78 | one iteration of `for i in comp`: a vertex off the source side is skipped, a match found is written with `mirror_map[i] = best_j` and marked used (characterised by `MatchAllKeeps`) |
| MirrorMap.MatchIn | shape_key_mirror_plus.py:50-78 | the `for i in comp` loop over the component in order (characterised by `MatchAllKeeps`) |
| MirrorMap.MatchAll | shape_key_mirror_plus.py:46-78 | the `for comp in components` loop from an empty map and empty `used` (characterised by `MatchAllKeeps`) |
| MirrorMap.Pin | shape_key_mirror_plus.py:80-82 | the pinning loop over the vertices in index order, writing `mirror_map[i] = i` for each vertex within the tolerance of the plane (characterised by `PinSelf`, `PinKeeps`, `PinOnly`) |
| MirrorMap.MirrorMapFrom | shape_key_mirror_plus.py:46-84 | the map returned for given components: matching followed by pinning (characterised by `MirrorMapFacts`) |
| MirrorMap.FindMap | shape_key_mirror_plus.py:16-84 | `find_mirror_map` of a mesh: its components, then matching and pinning (characterised by `FindMapShape`, `SourcesNotWritten`, `FindMapEmpty`) |
| MirrorMap.ScanFacts | shape_key_mirror_plus.py:60-74 | a candidate loop keeps its start value exactly when no eligible candidate is strictly closer; otherwise it ends on the first candidate at the minimal distance (ties go to the earlier candidate) |
| MirrorMap.MatchOfValid | shape_key_mirror_plus.py:57-78 | a match is an unused vertex other than the source, strictly within `tol` of the reflection; there is no match exactly when no such vertex exists in the whole mesh |
| MirrorMap.MatchOfPrefersComponent | shape_key_mirror_plus.py:60-66 | when some unused vertex of the own component is within `tol`, the match is the first nearest one of the component |
| MirrorMap.MatchOfFallsBack | shape_key_mirror_plus.py:68-74 | otherwise the match, if any, is the first nearest vertex of the whole mesh |
| MirrorMap.MatchAllKeeps | shape_key_mirror_plus.py:46-78 | after the matching loops every entry is a source-side vertex paired with a used vertex strictly within `tol`, keys are distinct and no two entries share a destination |
| MirrorMap.PinSelf | shape_key_mirror_plus.py:80-82 | after pinning every vertex within `tol` of the plane maps to itself |
| MirrorMap.PinKeeps | shape_key_mirror_plus.py:80-82 | pinning keeps every entry whose key is off the plane |
| MirrorMap.PinOnly | shape_key_mirror_plus.py:80-82 | pinning adds only self entries of on-plane vertices, which override those vertices' earlier entries |
| MirrorMap.MirrorMapFacts | shape_key_mirror_plus.py:46-84 | for any components, the returned map has distinct keys naming vertices; self entries are exactly the on-plane vertices; every other entry is a source-side match strictly within `tol`, and no two of those share a destination |
| MirrorMap.FindMapShape | shape_key_mirror_plus.py:16-84 | the map of a mesh has that shape |
| MirrorMap.SourcesNotWritten | shape_key_mirror_plus.py:46-84 | a matched source is never any entry's destination, so no pair occurs in both orders |
| MirrorMap.ZeroTolerance | shape_key_mirror_plus/shape_key_mirror_plus.py:60-84 | with `tol = 0` every entry is a self entry of a vertex with axis coordinate exactly 0 |
| MirrorMap.FindMapEmpty | shape_key_mirror_plus/shape_key_mirror_plus.py:45-86 | the map is empty exactly when no vertex is on the plane and no source-side vertex has another vertex strictly within `tol` of its reflection |
| MirrorMap.NearestUnused | shape_key_mirror_plus.py:61-74 | the candidate loop as written computes the specified scan |
| MirrorMap.MatchComponents | shape_key_mirror_plus.py:46-78 | the nested matching loops as written compute the specified `mirror_map` and `used` |
| MirrorMap.FindMirrorMap | shape_key_mirror_plus.py:16-84 | `find_mirror_map` as written returns the specified map, which has the mirror-map shape (the version 1.7 copy, shape_key_mirror_plus/shape_key_mirror_plus.py:15-86, differs only in comments) |
| Symmetry.PairVerdict | shape_key_mirror_plus.py:93-100 | one iteration over `mirror_map.items()`: a self pair passes, a read past the key's data raises, and the pair fails when the reflected position is farther than the tolerance (characterised by `PairPasses`) |
| Symmetry.Check | shape_key_mirror_plus.py:92-101 | the loop over the map's pairs in order, returning at the first pair that does not pass (characterised by `CheckPasses`, `CheckStopsAtFirst`) |
| Symmetry.IsSymmetric | shape_key_mirror_plus.py:86-101 | `is_symmetric`: the check of the key's positions along the mesh's `NEGATIVE` map (characterised by `NoFaultOnFullKey`, `MeshPositionsPass`) |
| Symmetry.PairPasses | shape_key_mirror_plus.py:92-100 | one pair passes exactly when it is a self pair, or both indices name key positions and the reflected `base[i]` is within `tol` of `base[j]` |
| Symmetry.CheckPasses | shape_key_mirror_plus.py:92-101 | the check returns `True` exactly when every non-self pair is symmetric under the key |
| Symmetry.CheckStopsAtFirst | shape_key_mirror_plus.py:92-101 | a check that does not pass has a first failing pair, and its verdict (`False` or the raised `IndexError`) is that pair's |
| Symmetry.NoFaultOnFullKey | shape_key_mirror_plus.py:86-101 | a key holding a position for every vertex never raises |
| Symmetry.MeshPositionsPass | shape_key_mirror_plus.py:86-101 | checked against the mesh's own positions the check passes |
| Symmetry.CheckSymmetry | shape_key_mirror_plus.py:86-101 | `is_symmetric` builds the `NEGATIVE` map and returns `Pass` exactly when its non-self pairs are symmetric under the key |
| Transfer.Mirrored | shape_key_mirror_plus.py:142-149 | the position one pair writes: `ref_dst` plus the source's displacement reflected, with the axis coordinate reset to the reference's when it is within the tolerance of the plane (characterised by `MirroredCoordinates`) |
| Transfer.ApplyMirror | shape_key_mirror_plus.py:138-153 | the symmetrize loop over the map in order: a pair in bounds overwrites its destination, reading the source as earlier pairs left it, and a pair out of bounds is skipped; the layer keeps its length (characterised by `ApplyMirrorFrame`, `CrossEntryFinal`, `SelfEntryFinal`) |
| Transfer.MirroredCoordinates | shape_key_mirror_plus.py:140-149 | the new position keeps the source delta on the two other axes and negates it on the mirror axis; the axis coordinate equals the reference's when the reference is on the plane |
| Transfer.Symmetrize | shape_key_mirror_plus.py:138-153 | the loop rewrites the target array to the specified symmetrize result, skipping out-of-range pairs (version 1.7 runs the same loop, shape_key_mirror_plus/shape_key_mirror_plus.py:123-139) |
| Transfer.ApplyMirrorFrame | shape_key_mirror_plus.py:138-153 | symmetrize changes only destinations of in-range pairs |
| Transfer.ApplyMirrorPinned | shape_key_mirror_plus.py:148-151 | every written vertex whose reference is on the plane ends with the reference's axis coordinate, whatever the order of the writes |
| Transfer.ApplyMirrorParallel | shape_key_mirror_plus.py:138-153 | when no vertex is written twice or read after a write, every destination ends as `ref[dst] + mirrored(target[src] - ref[src])` of the original target |
| Transfer.ApplyMirrorAliased | shape_key_mirror_plus.py:138-153 | symmetrizing a layer against itself (the Basis key) leaves it unchanged |
| Transfer.MirroredSelf | shape_key_mirror_plus.py:144-151 | a self entry at a vertex whose reference is on the plane, and whose axis coordinate already equals the reference's, leaves it unchanged |
| Transfer.CrossEntryFinal | shape_key_mirror_plus.py:138-153 | on a write-safe map each cross pair's destination ends as the mirror of its source's original position |
| Transfer.SelfEntryFinal | shape_key_mirror_plus.py:138-153 | on a write-safe map, a self entry no cross pair writes ends as its own reflected (and pinned) delta |
| Transfer.MirrorMapWriteSafe | shape_key_mirror_plus.py:80-82 | a mirror map is write-safe when the reference is on the plane wherever the mesh is |
| Transfer.SymmetrizeMirrorMap | shape_key_mirror_plus.py:135-153 | on a mirror map with such a reference, every cross destination ends as the mirror of its source and every other self entry as its own reflected delta |
| Transfer.SymmetrizeOwnPositions | shape_key_mirror_plus.py:135-153 | against the mesh's own positions, every cross destination of the mesh's map ends as the mirror of its source |
| Transfer.SymmetrizeReflectsTwice | shape_key_mirror_plus.py:138-153 | on a map with a cross entry and then a self entry at the same destination, whose reference position is off the plane, the destination ends with the source's delta unmirrored |
| Transfer.SwapAll | shape_key_mirror_plus.py:191-210 | the swap loop with its `swapped` set: a pair whose reverse was swapped is skipped, a pair in bounds is exchanged and recorded, and a pair out of bounds is skipped; the layer keeps its length (characterised by `SwappedFacts`, `SwapSkipsReverse`, `SwappedNoReverse`) |
| Transfer.ApplySwap | shape_key_mirror_plus.py:191-210 | the target layer the swap loop leaves (characterised by `ApplySwapFrame`, `ApplySwapParallel`, `ApplySwapInvolutive`) |
| Transfer.Exchange | shape_key_mirror_plus.py:197-206 | one swap writes `ref[src] + mirrored(delta_dst)` and `ref[dst] + mirrored(delta_src)`, both deltas read before either write, and changes nothing else |
| Transfer.Swap | shape_key_mirror_plus.py:191-210 | the loop rewrites the target array to the specified swap result, skipping reverse pairs and out-of-range pairs |
| Transfer.SwappedFacts | shape_key_mirror_plus.py:191-208 | `swapped` holds only processed in-range pairs of the map |
| Transfer.ApplySwapFrame | shape_key_mirror_plus.py:193-210 | swap changes only indices named by an in-range pair |
| Transfer.SwapSkipsReverse | shape_key_mirror_plus.py:193-195 | in any map with distinct keys, when two entries are each other's reverse and the earlier is in bounds, the earlier is in `swapped` by the time the later comes, and the later changes nothing |
| Transfer.SwappedGrows | shape_key_mirror_plus.py:191-208 | `swapped` never loses a pair as the loop goes on |
| Transfer.SwappedNoReverse | shape_key_mirror_plus.py:193-208 | in any map, no two different pairs that are each other's reverse are both exchanged |
| Transfer.SwapReflectsTwice | shape_key_mirror_plus.py:193-208 | a destination that is also a self entry ends with the source's delta unmirrored |
| Transfer.ApplySwapParallel | shape_key_mirror_plus.py:193-210 | when every index is named by at most one in-range pair, each pair is exchanged from the original target |
| Transfer.ApplySwapInvolutive | shape_key_mirror_plus.py:193-210 | for such maps, swapping twice restores the target |
| Transfer.ApplySwapAliased | shape_key_mirror_plus.py:193-210 | swapping a layer against itself leaves it unchanged |
| Transfer.SymmetrizeIdempotent | shape_key_mirror_plus.py:135-153 | on a mirror map, when the key holds a position for every vertex and the reference is on the plane wherever the mesh is, symmetrizing the result again changes nothing |
| Transfer.MirrorMapDisjoint | shape_key_mirror_plus.py:189-210 | a mirror map with no matched destination on the plane names every index at most once, so the two results above apply |
| Scene.FindKey | shape_key_mirror_plus.py:121-125 | `sk_name in key_blocks` holds exactly when some block has the name, and `key_blocks[sk_name]` is the first such block |
| Scene.Resolve | shape_key_mirror_plus.py:116-129 | the prechecks end with no shape keys, an unknown name or no relative key exactly in those situations, and otherwise yield the named block and its relative key (version 1.7 makes the same checks, shape_key_mirror_plus/shape_key_mirror_plus.py:95-114) |
| MirrorPlus.MirrorKey | shape_key_mirror_plus.py:108-155 | a failed precheck cancels with that reason and no write. Otherwise the reference's verdict decides: a raised `IndexError` or an asymmetric reference leaves the key as it was; a symmetric one finishes with the key symmetrized along the map of the chosen direction, and unchanged when the key is its own reference |
| MirrorPlus.SwapKey | shape_key_mirror_plus.py:162-212 | the same prechecks and verdicts, finishing with the key swapped along the map of the chosen direction |
| MirrorPlusV17.MirrorKey | shape_key_mirror_plus/shape_key_mirror_plus.py:93-141 | a failed precheck cancels with no write; an empty map cancels with no write; otherwise it finishes with the key symmetrized along the map |
| Scenarios.ScenarioMap | shape_key_mirror_plus.py:46-84 | on two joined vertices, one strictly beyond the plane and one on it within `tol` of its reflection, the map is the match followed by the second vertex's self entry |
| Scenarios.ScenarioSwap | shape_key_mirror_plus.py:193-208 | swapping on that mesh gives the second vertex the first vertex's delta without the reflection |
| Scenarios.ScenarioSymmetrize | shape_key_mirror_plus.py:138-153 | symmetrizing on that mesh against its own positions gives the second vertex the mirror of the first |
| Scenarios.ScenarioSymmetrizeOffPlane | shape_key_mirror_plus.py:131-153 | on that mesh, against a reference whose vertex 1 is off the plane, symmetrize hands vertex 1 the delta of vertex 0 unmirrored, and the symmetry check passes whenever the reference's two positions mirror each other within the tolerance |
| Scenarios.DoubleEntryPasses | shape_key_mirror_plus.py:92-101 | the map `{0: 1, 1: 1}` passes the check against any two positions that mirror each other within the tolerance, since its self entry is skipped |
| Scenarios.OffPlaneReference | shape_key_mirror_plus.py:99 | the reference `(-1.5, 0, 0)`, `(1.2, 0, 0)` with tolerance 1 has vertex 1 off the plane and a mirror gap within the tolerance |
| PairScenario.TwoComponents | shape_key_mirror_plus.py:25-43 | on the edges 0-2 and 1-3 the search finds the components `[0, 2]` and `[1, 3]`, in that order |
| PairScenario.PairsMap | shape_key_mirror_plus.py:46-84 | when vertices 1 and 3 are the exact reflections of the sources 0 and 2, each source's partner lies only in the other component; both come from the fallback search, and the map is `{0: 1, 2: 3}` with no self entries |
| PairScenario.PairsSymmetrize | shape_key_mirror_plus.py:131-153 | on that mesh the mesh's own positions pass the symmetry check, and a key that displaces vertex 0 by `d` symmetrizes vertex 1 to its position plus the reflection of `d` |
| PairScenario.SquareScenario | shape_key_mirror_plus.py:16-153 | on the square with tolerance `0.0001` on the X axis: the map is `{0: 1, 2: 3}`, the mesh positions are symmetric, and moving vertex 0 to `(-1, 0, 0.5)` symmetrizes vertex 1 to `(1, 0, 0.5)` |

## Left out

- Loading the mesh through `bmesh` and `bpy`. The vertex positions and the
  edge lists (`link_edges`) are inputs, and `ValidObject` only demands that
  edge indices name vertices.
- `mathutils.Vector`, the square root in `.length`, and IEEE float rounding.
  Coordinates are exact reals and distances are compared squared.
- A negative tolerance, which the panel property's `min=0.0` rules out.
  The operators, `FindMap`, `FindMirrorMap`, `IsSymmetric` and
  `CheckSymmetry` take `tol >= 0`. The squared comparisons would not agree
  with the source's `.length` comparisons for a negative tolerance. The
  lower-level functions over given components
  (`MirrorMapFrom`, `MatchAll`, `Scan`) and the transfers accept any
  tolerance. The transfers' on-plane test `abs(...) <= tolerance` is
  modelled exactly.
- The panel `draw` methods, `ShapeKeyMirrorProperties` with its
  `get_shape_keys` enum, the `report` message texts, `bl_info`, add-on
  registration and `__init__.py`. These are interface glue with no logic of
  the core.
- `is_symmetric`'s and the operators' property reads. The axis, direction
  and tolerance settings are a plain value.
- Undo and the operator's return sets, which are modelled as the `Outcome`
  datatype.
- In-place reads through live `.co` vectors. The transfer methods read the
  reference positions once, before any write. This is exact:
  - when the reference is another block, nothing writes it;
  - when it is the target itself, every write leaves its position unchanged
    (`ApplyMirrorAliased`, `ApplySwapAliased`).
- Transfer.ApplyMirrorParallel: holds only for maps on which no vertex is
  written twice. `SymmetrizeMirrorMap` and `CrossEntryFinal` cover the real
  mirror maps, including the double entries, when the reference is on the
  plane wherever the mesh is. Otherwise a double entry reflects twice
  (`SymmetrizeReflectsTwice`).
- Transfer.ApplySwapInvolutive: the round trip is stated only for maps
  that name each index at most once. The source's swap breaks it on
  on-plane destinations (`SwapReflectsTwice`).
- Transfer.SymmetrizeIdempotent: stated for mirror maps only, with a key
  holding a position for every vertex and a reference on the plane wherever
  the mesh is. A self entry whose reference lies off the plane reflects its
  displacement on every pass, so a second pass is not a no-op there.
