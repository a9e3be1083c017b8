/**
 * Bones and skeletons as the scene state holds them, and the rotation
 * reflection used by the mirror engine.
 */
module Skeletons {
  import opened Wrappers

  /**
   * A bone's rotation in quaternion form. The editor stores Euler angles and
   * converts through `THREE.Quaternion`; the conversion is not modelled.
   */
  datatype Quat = Quat(x: real, y: real, z: real, w: real)

  /** A bone position `{x, y, z}`. */
  datatype Vec3 = Vec3(x: real, y: real, z: real)

  /** One entry of a character's skeleton; `position` is absent on some bones. */
  datatype Bone = Bone(id: string, name: string, rotation: Quat, position: Option<Vec3>)

  /** A character's skeleton, keyed by bone name. */
  type Skeleton = map<string, Bone>

  /**
   * `keys` is what `Object.keys(m)` returns: every key of `m` exactly once,
   * in some order.
   */
  ghost predicate ListsKeys<V>(keys: seq<string>, m: map<string, V>)
  {
    && (forall k :: k in keys <==> k in m)
    && (forall i, j :: 0 <= i < j < |keys| ==> keys[i] != keys[j])
  }

  /** Reflection across the mirror plane: the quaternion's `x` and `w` change sign. */
  function MirrorRotation(q: Quat): (r: Quat)
  {
    Quat(-q.x, q.y, q.z, -q.w)
  }

  /** Reflecting twice gives back the original rotation, and no rotation but `r` reflects to `MirrorRotation(r)`. */
  lemma MirrorRotationInvolutive(q: Quat, q': Quat)
    ensures MirrorRotation(MirrorRotation(q)) == q
    ensures MirrorRotation(q) == MirrorRotation(q') ==> q == q'
  {
  }
}
