/** The clip store: keyframe curves grouped per bone, the path-to-bone
    table and the cached clip duration (`AnimationClip`). */
module Clip {
  import opened Common

  datatype Quat = Quat(x: real, y: real, z: real, w: real)
  datatype Vec3 = Vec3(x: real, y: real, z: real)

  /** Keyframe values of one animated attribute. For `Weights` every run of
      `target_count` consecutive values is one keyframe. */
  datatype Keyframes =
    | Rotation(rotations: seq<Quat>)
    | Translation(translations: seq<Vec3>)
    | Scale(scales: seq<Vec3>)
    | Weights(weights: seq<real>)

  /** One timestamp per keyframe (a data-provider contract, not checked). */
  datatype VariableCurve = VariableCurve(timestamps: seq<real>, keyframes: Keyframes)

  /** Names from the animation root down to the animated entity. */
  datatype EntityPath = EntityPath(parts: seq<Name>)

  function Max(a: real, b: real): real
  {
    if a >= b then a else b
  }

  /** The last timestamp of a curve, or 0 when it has none. */
  function LastTimestampOrZero(c: VariableCurve): real
  {
    if |c.timestamps| == 0 then 0.0 else c.timestamps[|c.timestamps| - 1]
  }

  /** The running maximum of `LastTimestampOrZero` over a bone's curves, from 0. */
  function BoneEnd(cs: seq<VariableCurve>): real
  {
    if cs == [] then 0.0 else Max(BoneEnd(cs[..|cs| - 1]), LastTimestampOrZero(cs[|cs| - 1]))
  }

  /** The running maximum of `BoneEnd` over all bones, from 0. */
  function ClipEnd(bones: seq<seq<VariableCurve>>): real
  {
    if bones == [] then 0.0 else Max(ClipEnd(bones[..|bones| - 1]), BoneEnd(bones[|bones| - 1]))
  }

  /** `BoneEnd` is the least value that is at least 0 and at least every
      curve's last timestamp. */
  lemma {:induction false} BoneEndIsMaximum(cs: seq<VariableCurve>)
    ensures BoneEnd(cs) >= 0.0
    ensures forall i | 0 <= i < |cs| :: LastTimestampOrZero(cs[i]) <= BoneEnd(cs)
    ensures BoneEnd(cs) == 0.0 || exists i | 0 <= i < |cs| :: BoneEnd(cs) == LastTimestampOrZero(cs[i])
  {
    if cs != [] {
      var init := cs[..|cs| - 1];
      BoneEndIsMaximum(init);
      if BoneEnd(cs) != 0.0 && BoneEnd(cs) != LastTimestampOrZero(cs[|cs| - 1]) {
        var i :| 0 <= i < |init| && BoneEnd(init) == LastTimestampOrZero(init[i]);
        assert cs[i] == init[i];
      }
      forall i | 0 <= i < |cs| ensures LastTimestampOrZero(cs[i]) <= BoneEnd(cs) {
        if i < |init| { assert cs[i] == init[i]; }
      }
    }
  }

  /** `ClipEnd` is the least value that is at least 0 and at least the last
      timestamp of every curve of every bone: the clip duration. */
  lemma {:induction false} ClipEndIsMaximum(bones: seq<seq<VariableCurve>>)
    ensures ClipEnd(bones) >= 0.0
    ensures forall b, i | 0 <= b < |bones| && 0 <= i < |bones[b]| ::
      LastTimestampOrZero(bones[b][i]) <= ClipEnd(bones)
    ensures ClipEnd(bones) == 0.0 ||
      exists b, i | 0 <= b < |bones| && 0 <= i < |bones[b]| :: ClipEnd(bones) == LastTimestampOrZero(bones[b][i])
  {
    if bones != [] {
      var init := bones[..|bones| - 1];
      var last := bones[|bones| - 1];
      ClipEndIsMaximum(init);
      BoneEndIsMaximum(last);
      if ClipEnd(bones) != 0.0 {
        if ClipEnd(bones) == BoneEnd(last) {
          var i :| 0 <= i < |last| && BoneEnd(last) == LastTimestampOrZero(last[i]);
          assert ClipEnd(bones) == LastTimestampOrZero(bones[|bones| - 1][i]);
        } else {
          var b, i :| 0 <= b < |init| && 0 <= i < |init[b]| && ClipEnd(init) == LastTimestampOrZero(init[b][i]);
          assert bones[b] == init[b];
        }
      }
      forall b, i | 0 <= b < |bones| && 0 <= i < |bones[b]|
        ensures LastTimestampOrZero(bones[b][i]) <= ClipEnd(bones)
      {
        if b < |init| { assert bones[b] == init[b]; }
      }
    }
  }

  /** Appending a curve to bone `b` raises the clip end to at least that
      curve's last timestamp and to nothing more. */
  lemma {:induction false} ClipEndAfterAppend(bones: seq<seq<VariableCurve>>, b: nat, c: VariableCurve)
    requires b < |bones|
    ensures ClipEnd(bones[b := bones[b] + [c]]) == Max(ClipEnd(bones), LastTimestampOrZero(c))
  {
    var bones' := bones[b := bones[b] + [c]];
    var init := bones[..|bones| - 1];
    assert bones[b] + [c] != [] && (bones[b] + [c])[..|bones[b]|] == bones[b];
    if b == |bones| - 1 {
      assert bones'[..|bones'| - 1] == init;
    } else {
      assert bones'[..|bones'| - 1] == init[b := init[b] + [c]];
      ClipEndAfterAppend(init, b, c);
    }
  }

  /** Adding a bone holding one curve raises the clip end the same way. */
  lemma ClipEndAfterNewBone(bones: seq<seq<VariableCurve>>, c: VariableCurve)
    ensures ClipEnd(bones + [[c]]) == Max(ClipEnd(bones), LastTimestampOrZero(c))
  {
    assert (bones + [[c]])[..|bones|] == bones;
    assert [c][..0] == [];
    assert BoneEnd([c]) == Max(0.0, LastTimestampOrZero(c));
    ClipEndIsMaximum(bones);
  }

  /** Every path names a distinct bone, every bone has a path and every
      bone has at least one curve. */
  ghost predicate BonesShaped(curves: seq<seq<VariableCurve>>, paths: map<EntityPath, nat>)
  {
    && |paths| == |curves|
    && (forall p | p in paths :: paths[p] < |curves|)
    && (forall p, q | p in paths && q in paths && p != q :: paths[p] != paths[q])
    && (forall b | 0 <= b < |curves| :: |curves[b]| > 0)
  }

  /** Appending a curve to an existing bone keeps the bones' shape. */
  lemma ShapedAfterAppend(curves: seq<seq<VariableCurve>>, paths: map<EntityPath, nat>, b: nat, c: VariableCurve)
    requires BonesShaped(curves, paths) && b < |curves|
    ensures BonesShaped(curves[b := curves[b] + [c]], paths)
  {
  }

  /** Opening a new bone for a new path keeps the bones' shape; the new
      bone's id is the old number of bones. */
  lemma ShapedAfterNewBone(curves: seq<seq<VariableCurve>>, paths: map<EntityPath, nat>, path: EntityPath, c: VariableCurve)
    requires BonesShaped(curves, paths) && path !in paths
    ensures BonesShaped(curves + [[c]], paths[path := |curves|])
  {
    var paths' := paths[path := |curves|];
    assert paths'.Keys == paths.Keys + {path};
    assert forall p | p in paths :: paths'[p] == paths[p] < |curves|;
  }

  /** `AnimationClip`: curves per bone id, the path of each bone, and the
      duration cached as the latest keyframe timestamp. */
  class AnimationClip {
    var curves: seq<seq<VariableCurve>>
    var paths: map<EntityPath, nat>
    var duration: real

    /** Every path names a distinct bone, every bone has a path and at least
        one curve, and the cached duration is the clip end. */
    ghost predicate Valid()
      reads this
    {
      && BonesShaped(curves, paths)
      && duration == ClipEnd(curves)
    }

    /** `AnimationClip::default()`. */
    constructor ()
      ensures Valid()
      ensures curves == [] && paths == map[] && duration == 0.0
    {
      curves := [];
      paths := map[];
      duration := 0.0;
    }

    /** All curves, indexed by bone id: entry `b` is what `GetCurves(b)`
        finds, and there is one entry per bone. */
    function Curves(): (r: seq<seq<VariableCurve>>)
      reads this
      ensures |r| == |curves|
      ensures forall b: nat | b < |r| :: GetCurves(b) == Some(r[b])
    {
      curves
    }

    /** The curves of a bone, or `None` for an id that names no bone. */
    function GetCurves(boneId: nat): (r: Option<seq<VariableCurve>>)
      reads this
      ensures r.Some? <==> boneId < |curves|
      ensures Valid() && r.Some? ==> |r.value| > 0
    {
      if boneId < |curves| then Some(curves[boneId]) else None
    }

    /** The curves of the bone a path names, or `None` for an unknown path. */
    function GetCurvesByPath(path: EntityPath): (r: Option<seq<VariableCurve>>)
      reads this
      ensures r.Some? ==> path in paths && r == GetCurves(paths[path])
      ensures Valid() ==> (r.Some? <==> path in paths)
    {
      if path in paths then GetCurves(paths[path]) else None
    }

    /** The clip's duration in seconds: never negative and not earlier than
        the last keyframe of any curve. */
    function Duration(): (r: real)
      reads this
      requires Valid()
      ensures r >= 0.0
      ensures forall b, i | 0 <= b < |curves| && 0 <= i < |curves[b]| ::
        LastTimestampOrZero(curves[b][i]) <= r
    {
      ClipEndIsMaximum(curves);
      duration
    }

    /** Whether every path of the clip starts at a root named `name`. Each
        path must have a first part, which the engine indexes unchecked. */
    function CompatibleWith(name: Name): (r: bool)
      reads this
      requires forall p | p in paths :: |p.parts| > 0
      ensures Valid() ==> (r <==> forall p | GetCurvesByPath(p).Some? :: p.parts[0] == name)
    {
      forall p | p in paths :: p.parts[0] == name
    }

    /** `add_curve_to_path`: append to the path's bone, or open a new bone
        whose id is the old number of bones; the duration grows to cover the
        curve. */
    method AddCurveToPath(path: EntityPath, curve: VariableCurve)
      requires Valid()
      modifies this
      ensures Valid()
      ensures duration == Max(old(duration), LastTimestampOrZero(curve))
      ensures path in old(paths) ==>
        && paths == old(paths)
        && curves == old(curves)[old(paths)[path] := old(curves)[old(paths)[path]] + [curve]]
      ensures path !in old(paths) ==>
        && paths == old(paths)[path := |old(curves)|]
        && curves == old(curves) + [[curve]]
      ensures path in old(paths) ==> GetCurvesByPath(path) == Some(old(curves)[old(paths)[path]] + [curve])
      ensures path !in old(paths) ==> GetCurvesByPath(path) == Some([curve])
      ensures forall q | q in old(paths) && q != path :: GetCurvesByPath(q) == old(GetCurvesByPath(q))
    {
      duration := Max(duration, LastTimestampOrZero(curve));
      if path in paths {
        var boneId := paths[path];
        ClipEndAfterAppend(curves, boneId, curve);
        ShapedAfterAppend(curves, paths, boneId, curve);
        curves := curves[boneId := curves[boneId] + [curve]];
        forall q | q in paths && q != path
          ensures GetCurvesByPath(q) == old(GetCurvesByPath(q))
        {
          assert paths[q] != boneId;
        }
      } else {
        var idx := |curves|;
        ClipEndAfterNewBone(curves, curve);
        ShapedAfterNewBone(curves, paths, path, curve);
        curves := curves + [[curve]];
        ghost var before := paths;
        paths := paths[path := idx];
        forall q | q in before && q != path
          ensures GetCurvesByPath(q) == old(GetCurvesByPath(q))
        {
          assert paths[q] == before[q] < idx;
        }
      }
    }
  }
}
