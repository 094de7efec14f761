/** What the operators read from the Blender context: the active mesh
    object, its shape key blocks and the panel's settings, and the checks
    every operator makes before it computes anything. */
module Scene {
  import opened Optional
  import opened Geometry
  import opened Connectivity

  /** A shape key block: its `name`, its per-vertex positions
      (`data[i].co`) and its `relative_key` (`null` for none). */
  class ShapeKey {
    const name: string
    const data: array<Vec3>
    var relativeKey: ShapeKey?

    constructor (name: string, data: array<Vec3>, relativeKey: ShapeKey?)
      ensures this.name == name && this.data == data && this.relativeKey == relativeKey
    {
      this.name := name;
      this.data := data;
      this.relativeKey := relativeKey;
    }
  }

  /** The active object: the mesh's vertex positions, its edges as
      adjacency lists (`link_edges`), and `shape_keys.key_blocks`, `None`
      when the mesh has no shape keys. */
  datatype MeshObject = MeshObject(coords: seq<Vec3>, adj: Adjacency, shapeKeys: Option<seq<ShapeKey>>)

  /** A mesh's adjacency lists come from its edges: there is one list per
      vertex and every index in them names a vertex. */
  predicate ValidObject(obj: Option<MeshObject>)
  {
    obj.Some? ==> WellFormed(obj.value.adj) && |obj.value.adj| == |obj.value.coords|
  }

  /** The panel's settings (`shape_key_mirror_props`); the tolerance
      property has `min=0.0`. */
  datatype Settings = Settings(shapeKey: string, axis: Axis, direction: Direction, tolerance: real)

  /** The reasons an operator reports an error and returns `CANCELLED`. */
  datatype Failure = NoShapeKeys | KeyNotFound | NoRelativeKey | NotSymmetric | NoSymmetricVertices

  /** `FINISHED`, `CANCELLED`, or an exception escaping `execute`. */
  datatype Outcome = Finished | Cancelled(why: Failure) | Raised

  /** `sk_name in key_blocks` and `key_blocks[sk_name]`: the position of
      the first block with that name. */
  function FindKey(blocks: seq<ShapeKey>, name: string): (r: Option<nat>)
    ensures r.Some? ==> r.value < |blocks| && blocks[r.value].name == name
    ensures r.Some? ==> forall k :: 0 <= k < r.value ==> blocks[k].name != name
    ensures r.None? <==> forall k :: 0 <= k < |blocks| ==> blocks[k].name != name
  {
    if blocks == [] then None
    else if blocks[0].name == name then Some(0)
    else
      match FindKey(blocks[1..], name)
      case None => None
      case Some(i) => Some(i + 1)
  }

  /** The shape key blocks, none when there are no shape keys. */
  function Blocks(obj: Option<MeshObject>): seq<ShapeKey>
  {
    if obj.Some? && obj.value.shapeKeys.Some? then obj.value.shapeKeys.value else []
  }

  /** The positions array of the block an operator writes. */
  function TargetArrays(obj: Option<MeshObject>, name: string): set<array<Vec3>>
  {
    match FindKey(Blocks(obj), name)
    case Some(i) => {Blocks(obj)[i].data}
    case None => {}
  }

  /** How the checks before the mirror map end: with the target block and
      its relative key, or with the reason to cancel. */
  datatype Lookup = Found(target: ShapeKey, reference: ShapeKey) | Missing(why: Failure)

  /** The checks common to all operators, in the order they are made: an
      object with shape keys, a block with the chosen name, and a relative
      key on that block. */
  function Resolve(obj: Option<MeshObject>, name: string): (r: Lookup)
    reads Blocks(obj)
    ensures r == Missing(NoShapeKeys) <==> obj.None? || obj.value.shapeKeys.None?
    ensures r == Missing(KeyNotFound) <==>
      && obj.Some? && obj.value.shapeKeys.Some?
      && forall k :: 0 <= k < |Blocks(obj)| ==> Blocks(obj)[k].name != name
    ensures r.Found? ==>
      && FindKey(Blocks(obj), name).Some?
      && r.target == Blocks(obj)[FindKey(Blocks(obj), name).value]
      && r.target.name == name && r.reference == r.target.relativeKey
      && TargetArrays(obj, name) == {r.target.data}
    ensures r == Missing(NoRelativeKey) <==>
      FindKey(Blocks(obj), name).Some? && Blocks(obj)[FindKey(Blocks(obj), name).value].relativeKey == null
    ensures r.Missing? ==> r.why == NoShapeKeys || r.why == KeyNotFound || r.why == NoRelativeKey
  {
    if obj.None? || obj.value.shapeKeys.None? then Missing(NoShapeKeys)
    else
      match FindKey(obj.value.shapeKeys.value, name)
      case None => Missing(KeyNotFound)
      case Some(i) =>
        var target := obj.value.shapeKeys.value[i];
        if target.relativeKey == null then Missing(NoRelativeKey) else Found(target, target.relativeKey)
  }
}
