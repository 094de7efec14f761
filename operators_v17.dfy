/** The symmetrize operator of version 1.7: no symmetry check, but it
    cancels when the mirror map comes out empty (see `FindMapEmpty` for
    exactly when that happens). */
module MirrorPlusV17 {
  import opened Optional
  import opened Geometry
  import opened MirrorMap
  import opened Transfer
  import opened Scene

  /** `OBJECT_OT_shape_key_mirror.execute` */
  method MirrorKey(obj: Option<MeshObject>, settings: Settings) returns (outcome: Outcome)
    requires ValidObject(obj) && settings.tolerance >= 0.0
    modifies TargetArrays(obj, settings.shapeKey)
    ensures var look := Resolve(obj, settings.shapeKey);
      look.Missing? ==> outcome == Cancelled(look.why) && unchanged(TargetArrays(obj, settings.shapeKey))
    ensures var look := Resolve(obj, settings.shapeKey);
      look.Found? ==>
        var o := obj.value;
        var m := FindMap(o.coords, o.adj, settings.axis, settings.direction, settings.tolerance);
        && (m == [] ==> outcome == Cancelled(NoSymmetricVertices) && unchanged(look.target.data))
        && (m != [] ==>
              && outcome == Finished
              && look.target.data[..] == ApplyMirror(old(look.target.data[..]), old(look.reference.data[..]), m, settings.axis, settings.tolerance)
              && (look.reference == look.target ==> look.target.data[..] == old(look.target.data[..])))
  {
    var look := Resolve(obj, settings.shapeKey);
    if look.Missing? {
      return Cancelled(look.why);
    }
    var target, reference := look.target, look.reference;
    var o := obj.value;
    var mirror := FindMirrorMap(o.coords, o.adj, settings.axis, settings.direction, settings.tolerance);
    if mirror == [] {
      return Cancelled(NoSymmetricVertices);
    }
    var refData := reference.data[..];
    Symmetrize(target.data, refData, mirror, settings.axis, settings.tolerance);
    if reference == target {
      ApplyMirrorAliased(refData, mirror, settings.axis, settings.tolerance);
    }
    return Finished;
  }
}
