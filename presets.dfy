/**
 * Pose presets (`addNewPosePreset`): the name guard, the snapshot of the
 * current skeleton, the preset record, and the map of user presets handed to
 * `presetsStorage.savePosePresets`.
 */
module Presets {
  import opened Wrappers
  import opened Skeletons

  /** One bone of a preset's snapshot: only the rotation, the name and the id are kept. */
  datatype SnapshotBone = SnapshotBone(rotation: Quat, name: string, id: string)

  /** A snapshot, keyed like the skeleton it was taken from. */
  type Snapshot = map<string, SnapshotBone>

  /** A pose preset; `skeleton` is the record's `state.skeleton`. */
  datatype Preset = Preset(id: string, name: string, keywords: string, skeleton: Snapshot, priority: int)

  /** `state.presets.poses`: presets keyed by id. */
  type PoseStore = map<string, Preset>

  /** The snapshot entry of `bone`. */
  function SnapshotOf(bone: Bone): SnapshotBone
  {
    SnapshotBone(bone.rotation, bone.name, bone.id)
  }

  /**
   * The copy loop of `addNewPosePreset`: one entry per skeleton key, keeping
   * the bone's rotation, name and id and dropping its position.
   */
  method CaptureSnapshot(skeleton: Skeleton, keys: seq<string>) returns (snapshot: Snapshot)
    requires ListsKeys(keys, skeleton)
    ensures snapshot.Keys == skeleton.Keys
    ensures forall k :: k in snapshot ==>
      snapshot[k].rotation == skeleton[k].rotation && snapshot[k].name == skeleton[k].name && snapshot[k].id == skeleton[k].id
  {
    snapshot := map[];
    var i := 0;
    while i < |keys|
      invariant 0 <= i <= |keys|
      invariant forall k :: k in snapshot <==> k in keys[..i]
      invariant forall k :: k in snapshot ==> k in skeleton && snapshot[k] == SnapshotOf(skeleton[k])
    {
      var key := keys[i];
      var currentBone := skeleton[key];
      snapshot := snapshot[key := SnapshotBone(currentBone.rotation, currentBone.name, currentBone.id)];
      assert keys[..i + 1] == keys[..i] + [key];
      i := i + 1;
    }
    assert keys[..i] == keys;
  }

  /** `filter(pose => denylist.includes(pose.id) === false)`: the poses whose id is not on the denylist, in order. */
  function UserPoses(poses: seq<Preset>, denylist: seq<string>): (r: seq<Preset>)
    ensures forall p :: p in r <==> p in poses && p.id !in denylist
    ensures |r| <= |poses|
  {
    if poses == [] then []
    else
      var n := |poses| - 1;
      assert poses == poses[..n] + [poses[n]];
      var front := UserPoses(poses[..n], denylist);
      if poses[n].id in denylist then front else front + [poses[n]]
  }

  /**
   * The `reduce` that writes every pose under its own id, so that of two
   * poses with the same id the later one is kept.
   */
  function CollectById(poses: seq<Preset>): map<string, Preset>
  {
    if poses == [] then map[]
    else
      var n := |poses| - 1;
      CollectById(poses[..n])[poses[n].id := poses[n]]
  }

  /** The ids written are exactly the poses' ids, and each is written with a pose carrying it. */
  lemma {:induction false} CollectByIdSpec(poses: seq<Preset>)
    ensures forall id :: id in CollectById(poses) <==> exists i :: 0 <= i < |poses| && poses[i].id == id
    ensures forall id :: id in CollectById(poses) ==> CollectById(poses)[id].id == id && CollectById(poses)[id] in poses
  {
    if poses != [] {
      var n := |poses| - 1;
      var front := poses[..n];
      CollectByIdSpec(front);
      assert poses == front + [poses[n]];
      assert forall i :: 0 <= i < n ==> front[i] == poses[i];
    }
  }

  /** A pose that no later pose shares an id with is the one kept under its id. */
  lemma {:induction false} CollectLastWins(poses: seq<Preset>, i: int)
    requires 0 <= i < |poses|
    requires forall j :: i < j < |poses| ==> poses[j].id != poses[i].id
    ensures poses[i].id in CollectById(poses) && CollectById(poses)[poses[i].id] == poses[i]
  {
    var n := |poses| - 1;
    var front := poses[..n];
    assert CollectById(poses) == CollectById(front)[poses[n].id := poses[n]];
    if i < n {
      assert front[i] == poses[i];
      assert forall j :: i < j < n ==> front[j] == poses[j];
      CollectLastWins(front, i);
    }
  }

  /**
   * The map handed to `savePosePresets`: the user poses of the store's
   * values, keyed by id. No default id is a key, every non-default pose's id
   * is one, and each entry is a pose of the store filed under its own id.
   */
  function PersistedPoses(values: seq<Preset>, denylist: seq<string>): (r: map<string, Preset>)
    ensures forall id :: id in r ==> id !in denylist
    ensures forall p :: p in values && p.id !in denylist ==> p.id in r
    ensures forall id :: id in r ==> r[id].id == id && r[id] in values
  {
    var user := UserPoses(values, denylist);
    CollectByIdSpec(user);
    assert forall p :: p in values && p.id !in denylist ==> exists i :: 0 <= i < |user| && user[i] == p;
    CollectById(user)
  }

  /** `Object.values(store)` when `order` is `Object.keys(store)`. */
  function StoreValues(store: PoseStore, order: seq<string>): (r: seq<Preset>)
    requires forall k :: k in order ==> k in store
    ensures |r| == |order|
    ensures forall i :: 0 <= i < |order| ==> r[i] == store[order[i]]
  {
    seq(|order|, i requires 0 <= i < |order| => store[order[i]])
  }

  /** Every preset of the store is filed under its own id. */
  ghost predicate WellKeyed(store: PoseStore)
  {
    forall id :: id in store ==> store[id].id == id
  }

  /**
   * For a store whose presets are filed under their own ids, what is saved
   * is the store without the default ids, whatever order `Object.values`
   * lists it in.
   */
  lemma PersistedOfWellKeyedStore(store: PoseStore, order: seq<string>, denylist: seq<string>)
    requires ListsKeys(order, store)
    requires WellKeyed(store)
    ensures forall id :: id in PersistedPoses(StoreValues(store, order), denylist) <==> id in store && id !in denylist
    ensures forall id :: id in PersistedPoses(StoreValues(store, order), denylist) ==>
      PersistedPoses(StoreValues(store, order), denylist)[id] == store[id]
  {
    var values := StoreValues(store, order);
    var saved := PersistedPoses(values, denylist);
    forall id | id in store && id !in denylist
      ensures id in saved
    {
      var i :| 0 <= i < |order| && order[i] == id;
      assert values[i] == store[id];
    }
    forall id | id in saved
      ensures id in store && saved[id] == store[id]
    {
      var i :| 0 <= i < |values| && values[i] == saved[id];
      assert order[i] in order;
    }
  }

  /** The state `addNewPosePreset` leaves behind when the name is accepted. */
  datatype Created = Created(
    preset: Preset,                       // built and dispatched with `createPosePreset`
    poses: PoseStore,                     // `state.presets.poses` afterwards
    poseOrder: seq<string>,               // `Object.keys` of it
    selectedPresetId: string,             // the scene object's `posePresetId`
    persisted: map<string, Preset>)       // handed to `savePosePresets`

  /** Appending a key the store does not have yet keeps `order` listing the store's keys. */
  lemma ListsKeysAppend(store: PoseStore, order: seq<string>, id: string, preset: Preset)
    requires ListsKeys(order, store)
    requires id !in store
    ensures ListsKeys(order + [id], store[id := preset])
    ensures StoreValues(store[id := preset], order + [id]) == StoreValues(store, order) + [preset]
  {
    var order' := order + [id];
    forall i, j | 0 <= i < j < |order'|
      ensures order'[i] != order'[j]
    {
      if j < |order| {
        assert order'[i] == order[i] && order'[j] == order[j];
      } else {
        assert order'[i] in order;
      }
    }
    forall k | k in order'
      ensures k in store[id := preset]
    {
      if k != id {
        assert k in order;
      }
    }
    assert ListsKeys(order', store[id := preset]);
    forall i | 0 <= i < |order|
      ensures order[i] != id
    {
      assert order[i] in order;
    }
  }

  /**
   * Saving right after a preset is created under a fresh id: the new preset
   * comes last in `Object.values`, so it is saved under its id unless that id
   * is a default one.
   */
  lemma PersistedAfterCreate(poses: PoseStore, poseOrder: seq<string>, denylist: seq<string>, preset: Preset)
    requires ListsKeys(poseOrder, poses)
    requires preset.id !in poses
    ensures preset.id !in denylist ==>
      && preset.id in PersistedPoses(StoreValues(poses[preset.id := preset], poseOrder + [preset.id]), denylist)
      && PersistedPoses(StoreValues(poses[preset.id := preset], poseOrder + [preset.id]), denylist)[preset.id] == preset
  {
    if preset.id !in denylist {
      ListsKeysAppend(poses, poseOrder, preset.id, preset);
      var values := StoreValues(poses[preset.id := preset], poseOrder + [preset.id]);
      var front := StoreValues(poses, poseOrder);
      assert values[..|values| - 1] == front;
      var user := UserPoses(values, denylist);
      assert user == UserPoses(front, denylist) + [preset];
      CollectLastWins(user, |user| - 1);
    }
  }

  /** For a store filed by id, creating a preset under its own fresh id keeps it filed by id, so the saved map is the new store without the default ids. */
  lemma PersistedAfterCreateWellKeyed(poses: PoseStore, poseOrder: seq<string>, denylist: seq<string>, preset: Preset)
    requires ListsKeys(poseOrder, poses)
    requires preset.id !in poses
    ensures WellKeyed(poses) ==>
      var store := poses[preset.id := preset];
      var saved := PersistedPoses(StoreValues(store, poseOrder + [preset.id]), denylist);
      && (forall id :: id in saved <==> id in store && id !in denylist)
      && (forall id :: id in saved ==> saved[id] == store[id])
  {
    if WellKeyed(poses) {
      ListsKeysAppend(poses, poseOrder, preset.id, preset);
      PersistedOfWellKeyedStore(poses[preset.id := preset], poseOrder + [preset.id], denylist);
    }
  }

  /**
   * What happens once a preset is built: it is added to the store under its
   * id (`createPosePreset`) and appended to `Object.keys`, it becomes the
   * selected preset (`updateObject`), and the store's user presets are saved.
   * The saved map holds no default id and holds the new preset unless its id
   * is a default one; for a store filed by id it is exactly the new store
   * without the default ids.
   */
  function Commit(poses: PoseStore, poseOrder: seq<string>, denylist: seq<string>, preset: Preset): (c: Created)
    requires ListsKeys(poseOrder, poses)
    requires preset.id !in poses
    ensures c.preset == preset && c.selectedPresetId == preset.id
    ensures c.poses == poses[preset.id := preset] && c.poseOrder == poseOrder + [preset.id]
    ensures ListsKeys(c.poseOrder, c.poses)
    ensures c.persisted == PersistedPoses(StoreValues(c.poses, c.poseOrder), denylist)
    ensures forall id :: id in c.persisted ==> id !in denylist
    ensures preset.id !in denylist ==> preset.id in c.persisted && c.persisted[preset.id] == preset
    ensures WellKeyed(poses) ==> forall id :: id in c.persisted <==> id in c.poses && id !in denylist
    ensures WellKeyed(poses) ==> forall id :: id in c.persisted ==> c.persisted[id] == c.poses[id]
  {
    ListsKeysAppend(poses, poseOrder, preset.id, preset);
    PersistedAfterCreate(poses, poseOrder, denylist, preset);
    PersistedAfterCreateWellKeyed(poses, poseOrder, denylist, preset);
    var store := poses[preset.id := preset];
    var order := poseOrder + [preset.id];
    Created(preset, store, order, preset.id, PersistedPoses(StoreValues(store, order), denylist))
  }

  /**
   * `addNewPosePreset`: a name that is null, empty or a single space is
   * refused and nothing happens. Any other name yields a preset with the
   * fresh id, that name as name and keywords, priority 0 and a snapshot of
   * the skeleton, which is then committed.
   */
  method AddNewPosePreset(name: Option<string>, skeleton: Skeleton, boneKeys: seq<string>,
                          poses: PoseStore, poseOrder: seq<string>, denylist: seq<string>, freshId: string)
    returns (r: Option<Created>)
    requires ListsKeys(boneKeys, skeleton)
    requires ListsKeys(poseOrder, poses)
    requires freshId !in poses
    ensures r.None? <==> name.None? || name.value == "" || name.value == " "
    ensures r.Some? ==>
      && r.value.preset.id == freshId
      && r.value.preset.name == name.value
      && r.value.preset.keywords == name.value
      && r.value.preset.priority == 0
      && r.value.preset.skeleton.Keys == skeleton.Keys
      && forall k :: k in skeleton ==> r.value.preset.skeleton[k] == SnapshotOf(skeleton[k])
    ensures r.Some? ==> r.value == Commit(poses, poseOrder, denylist, r.value.preset)
  {
    if name.None? || name.value == "" || name.value == " " {
      return None;
    }
    var snapshot := CaptureSnapshot(skeleton, boneKeys);
    var newPreset := Preset(freshId, name.value, name.value, snapshot, 0);
    r := Some(Commit(poses, poseOrder, denylist, newPreset));
  }
}
