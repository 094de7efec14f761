/** The two operators of version 1.9: `OBJECT_OT_shape_key_mirror`
    (symmetrize) and `OBJECT_OT_shape_key_swap`. Both refuse to run unless
    the target's relative key passes `is_symmetric`, then build the mirror
    map in the chosen direction and rewrite the target block in place.
    The reference positions are read once, before any write; when the
    reference is the target itself every write leaves the position it
    overwrites unchanged (`ApplyMirrorAliased`, `ApplySwapAliased`), so this
    is what the in-place reads compute as well. */
module MirrorPlus {
  import opened Optional
  import opened Geometry
  import opened MirrorMap
  import opened Transfer
  import opened Symmetry
  import opened Scene

  /** `OBJECT_OT_shape_key_mirror.execute` */
  method MirrorKey(obj: Option<MeshObject>, settings: Settings) returns (outcome: Outcome)
    requires ValidObject(obj) && settings.tolerance >= 0.0
    modifies TargetArrays(obj, settings.shapeKey)
    ensures var look := Resolve(obj, settings.shapeKey);
      look.Missing? ==> outcome == Cancelled(look.why) && unchanged(TargetArrays(obj, settings.shapeKey))
    ensures var look := Resolve(obj, settings.shapeKey);
      look.Found? ==>
        var o := obj.value;
        var verdict := IsSymmetric(o.coords, o.adj, old(look.reference.data[..]), settings.axis, settings.tolerance);
        var m := FindMap(o.coords, o.adj, settings.axis, settings.direction, settings.tolerance);
        && (verdict == IndexFault ==> outcome == Raised && unchanged(look.target.data))
        && (verdict == Fail ==> outcome == Cancelled(NotSymmetric) && unchanged(look.target.data))
        && (verdict == Pass ==>
              && outcome == Finished
              && look.target.data[..] == ApplyMirror(old(look.target.data[..]), old(look.reference.data[..]), m, settings.axis, settings.tolerance)
              && (look.reference == look.target ==> look.target.data[..] == old(look.target.data[..])))
  {
    var look := Resolve(obj, settings.shapeKey);
    if look.Missing? {
      return Cancelled(look.why);
    }
    var target, reference := look.target, look.reference;
    var refData := reference.data[..];
    var o := obj.value;
    var verdict := CheckSymmetry(o.coords, o.adj, refData, settings.axis, settings.tolerance);
    if verdict == IndexFault {
      return Raised;
    }
    if verdict == Fail {
      return Cancelled(NotSymmetric);
    }
    var mirror := FindMirrorMap(o.coords, o.adj, settings.axis, settings.direction, settings.tolerance);
    Symmetrize(target.data, refData, mirror, settings.axis, settings.tolerance);
    if reference == target {
      ApplyMirrorAliased(refData, mirror, settings.axis, settings.tolerance);
    }
    return Finished;
  }

  /** `OBJECT_OT_shape_key_swap.execute` */
  method SwapKey(obj: Option<MeshObject>, settings: Settings) returns (outcome: Outcome)
    requires ValidObject(obj) && settings.tolerance >= 0.0
    modifies TargetArrays(obj, settings.shapeKey)
    ensures var look := Resolve(obj, settings.shapeKey);
      look.Missing? ==> outcome == Cancelled(look.why) && unchanged(TargetArrays(obj, settings.shapeKey))
    ensures var look := Resolve(obj, settings.shapeKey);
      look.Found? ==>
        var o := obj.value;
        var verdict := IsSymmetric(o.coords, o.adj, old(look.reference.data[..]), settings.axis, settings.tolerance);
        var m := FindMap(o.coords, o.adj, settings.axis, settings.direction, settings.tolerance);
        && (verdict == IndexFault ==> outcome == Raised && unchanged(look.target.data))
        && (verdict == Fail ==> outcome == Cancelled(NotSymmetric) && unchanged(look.target.data))
        && (verdict == Pass ==>
              && outcome == Finished
              && look.target.data[..] == ApplySwap(old(look.target.data[..]), old(look.reference.data[..]), m, settings.axis)
              && (look.reference == look.target ==> look.target.data[..] == old(look.target.data[..])))
  {
    var look := Resolve(obj, settings.shapeKey);
    if look.Missing? {
      return Cancelled(look.why);
    }
    var target, reference := look.target, look.reference;
    var refData := reference.data[..];
    var o := obj.value;
    var verdict := CheckSymmetry(o.coords, o.adj, refData, settings.axis, settings.tolerance);
    if verdict == IndexFault {
      return Raised;
    }
    if verdict == Fail {
      return Cancelled(NotSymmetric);
    }
    var mirror := FindMirrorMap(o.coords, o.adj, settings.axis, settings.direction, settings.tolerance);
    Swap(target.data, refData, mirror, settings.axis);
    if reference == target {
      ApplySwapAliased(refData, mirror, settings.axis);
    }
    return Finished;
  }
}
