/**
 * The mirror engine (`mirrorSkeleton`): builds the list handed to
 * `updateCharacterIkSkeleton`, one entry per skeleton key, or throws before
 * anything is written.
 *
 * The engine is stated for any bone-name mapper `rename`; `MirrorSkeleton`
 * fixes it to `BoneNames.MirroredBoneName`, the renaming `mirrorSkeleton` uses.
 */
module Mirror {
  import opened Wrappers
  import opened Skeletons
  import opened BoneNames

  /** One entry of the list passed to `updateCharacterIkSkeleton`. */
  datatype MirroredBone = MirroredBone(id: string, name: string, rotation: Quat, position: Vec3)

  /** Why the loop of `mirrorSkeleton` throws a TypeError. */
  datatype MirrorError =
    | MissingCounterpart(key: string, counterpart: string)  // `originalSkeleton[boneName]` is undefined
    | MissingPosition(key: string)                          // `position` is undefined

  /**
   * `entry` is what the loop pushes for `key`: the counterpart's name and id,
   * the reflected rotation, and the bone's own position.
   */
  ghost predicate MirrorsBone(skeleton: Skeleton, rename: string -> string, key: string, entry: MirroredBone)
    requires key in skeleton
  {
    && entry.name == rename(key)
    && entry.name in skeleton
    && entry.id == skeleton[entry.name].id
    && entry.rotation == MirrorRotation(skeleton[key].rotation)
    && skeleton[key].position == Some(entry.position)
  }

  /** The work of one iteration: the entry for `key`, or the error it throws with. */
  function MirrorOne(skeleton: Skeleton, rename: string -> string, key: string): (r: Result<MirroredBone, MirrorError>)
    requires key in skeleton
    ensures r.Ok? <==> rename(key) in skeleton && skeleton[key].position.Some?
    ensures r.Ok? ==> MirrorsBone(skeleton, rename, key, r.value)
    ensures r.Err? ==> r.error == if rename(key) !in skeleton then MissingCounterpart(key, rename(key)) else MissingPosition(key)
  {
    var boneName := rename(key);
    if boneName !in skeleton then Err(MissingCounterpart(key, boneName))
    else if skeleton[key].position.None? then Err(MissingPosition(key))
    else Ok(MirroredBone(skeleton[boneName].id, boneName, MirrorRotation(skeleton[key].rotation), skeleton[key].position.value))
  }

  /** The iteration for `keys[i]` throws `e`, and every earlier one completes. */
  ghost predicate FirstFailure(skeleton: Skeleton, rename: string -> string, keys: seq<string>, i: int, e: MirrorError)
    requires forall k :: k in keys ==> k in skeleton
  {
    && 0 <= i < |keys|
    && MirrorOne(skeleton, rename, keys[i]) == Err(e)
    && forall j :: 0 <= j < i ==> MirrorOne(skeleton, rename, keys[j]).Ok?
  }

  /**
   * The whole loop over `keys`: the entries in key order, or the error of the
   * first key whose iteration throws.
   */
  function Mirrored(skeleton: Skeleton, rename: string -> string, keys: seq<string>): (r: Result<seq<MirroredBone>, MirrorError>)
    requires forall k :: k in keys ==> k in skeleton
    ensures r.Ok? ==> |r.value| == |keys|
  {
    if keys == [] then Ok([])
    else
      var n := |keys| - 1;
      match Mirrored(skeleton, rename, keys[..n])
      case Err(e) => Err(e)
      case Ok(entries) =>
        match MirrorOne(skeleton, rename, keys[n])
        case Err(e) => Err(e)
        case Ok(entry) => Ok(entries + [entry])
  }

  /**
   * The loop completes exactly when every iteration does, and then entry `i`
   * is the one built for `keys[i]`.
   */
  lemma {:induction false} MirroredOk(skeleton: Skeleton, rename: string -> string, keys: seq<string>)
    requires forall k :: k in keys ==> k in skeleton
    ensures Mirrored(skeleton, rename, keys).Ok? <==>
      forall i :: 0 <= i < |keys| ==> MirrorOne(skeleton, rename, keys[i]).Ok?
    ensures Mirrored(skeleton, rename, keys).Ok? ==>
      forall i :: 0 <= i < |keys| ==> Mirrored(skeleton, rename, keys).value[i] == MirrorOne(skeleton, rename, keys[i]).value
  {
    if keys != [] {
      var n := |keys| - 1;
      MirroredOk(skeleton, rename, keys[..n]);
      assert forall i :: 0 <= i < n ==> keys[..n][i] == keys[i];
    }
  }

  /** When the loop throws, it throws the error of the first failing iteration. */
  lemma {:induction false} MirroredErr(skeleton: Skeleton, rename: string -> string, keys: seq<string>)
    requires forall k :: k in keys ==> k in skeleton
    ensures Mirrored(skeleton, rename, keys).Err? ==>
      exists i :: FirstFailure(skeleton, rename, keys, i, Mirrored(skeleton, rename, keys).error)
  {
    if keys != [] {
      var n := |keys| - 1;
      MirroredErr(skeleton, rename, keys[..n]);
      MirroredOk(skeleton, rename, keys[..n]);
      assert forall i :: 0 <= i < n ==> keys[..n][i] == keys[i];
      var r := Mirrored(skeleton, rename, keys);
      if Mirrored(skeleton, rename, keys[..n]).Err? {
        var i :| FirstFailure(skeleton, rename, keys[..n], i, r.error);
        assert FirstFailure(skeleton, rename, keys, i, r.error);
      } else if r.Err? {
        assert FirstFailure(skeleton, rename, keys, n, r.error);
      }
    }
  }

  /** Once a prefix of the keys throws, the whole loop throws the same error. */
  lemma FirstErrorPersists(skeleton: Skeleton, rename: string -> string, keys: seq<string>, n: nat)
    requires forall k :: k in keys ==> k in skeleton
    requires n <= |keys|
    requires Mirrored(skeleton, rename, keys[..n]).Err?
    ensures Mirrored(skeleton, rename, keys) == Mirrored(skeleton, rename, keys[..n])
  {
    var e := Mirrored(skeleton, rename, keys[..n]).error;
    MirroredErr(skeleton, rename, keys[..n]);
    MirroredErr(skeleton, rename, keys);
    MirroredOk(skeleton, rename, keys);
    var i :| FirstFailure(skeleton, rename, keys[..n], i, e);
    assert forall j :: 0 <= j <= i ==> keys[..n][j] == keys[j];
    assert FirstFailure(skeleton, rename, keys, i, e);
    var r := Mirrored(skeleton, rename, keys);
    var i' :| FirstFailure(skeleton, rename, keys, i', r.error);
  }

  /** One more iteration of the loop. */
  lemma MirroredStep(skeleton: Skeleton, rename: string -> string, keys: seq<string>, i: nat)
    requires forall k :: k in keys ==> k in skeleton
    requires i < |keys|
    ensures Mirrored(skeleton, rename, keys[..i + 1]) ==
      match Mirrored(skeleton, rename, keys[..i])
      case Err(e) => Err(e)
      case Ok(entries) =>
        match MirrorOne(skeleton, rename, keys[i])
        case Err(e) => Err(e)
        case Ok(entry) => Ok(entries + [entry])
  {
    assert keys[..i + 1][..i] == keys[..i];
  }

  /**
   * What the loop computes: it completes exactly when every key's
   * counterpart exists and every bone has a position, and then entry `i`
   * mirrors `keys[i]`.
   */
  lemma MirroredMeaning(skeleton: Skeleton, rename: string -> string, keys: seq<string>)
    requires ListsKeys(keys, skeleton)
    ensures Mirrored(skeleton, rename, keys).Ok? <==>
      forall k :: k in skeleton ==> rename(k) in skeleton && skeleton[k].position.Some?
    ensures Mirrored(skeleton, rename, keys).Ok? ==>
      forall i :: 0 <= i < |keys| ==> MirrorsBone(skeleton, rename, keys[i], Mirrored(skeleton, rename, keys).value[i])
  {
    MirroredCompletes(skeleton, rename, keys);
    if Mirrored(skeleton, rename, keys).Ok? {
      forall i | 0 <= i < |keys|
        ensures MirrorsBone(skeleton, rename, keys[i], Mirrored(skeleton, rename, keys).value[i])
      {
        MirroredEntry(skeleton, rename, keys, i);
      }
    }
  }

  /** The completion half of `MirroredMeaning`. */
  lemma MirroredCompletes(skeleton: Skeleton, rename: string -> string, keys: seq<string>)
    requires ListsKeys(keys, skeleton)
    ensures Mirrored(skeleton, rename, keys).Ok? <==>
      forall k :: k in skeleton ==> rename(k) in skeleton && skeleton[k].position.Some?
  {
    MirroredOk(skeleton, rename, keys);
    if Mirrored(skeleton, rename, keys).Ok? {
      forall k | k in skeleton
        ensures rename(k) in skeleton && skeleton[k].position.Some?
      {
        var i :| 0 <= i < |keys| && keys[i] == k;
        assert MirrorOne(skeleton, rename, keys[i]).Ok?;
      }
    } else {
      var i :| 0 <= i < |keys| && !MirrorOne(skeleton, rename, keys[i]).Ok?;
      assert keys[i] in skeleton;
    }
  }

  /**
   * The loop of `mirrorSkeleton` with bone-name mapper `rename`: pushes one
   * entry per key, in key order, and throws at the first key whose
   * counterpart or position is missing, so that a list is produced only when
   * every key mirrored.
   */
  method MirrorWith(skeleton: Skeleton, rename: string -> string, keys: seq<string>)
    returns (r: Result<seq<MirroredBone>, MirrorError>)
    requires ListsKeys(keys, skeleton)
    ensures r == Mirrored(skeleton, rename, keys)
  {
    var oppositeSkeleton: seq<MirroredBone> := [];
    var i := 0;
    while i < |keys|
      invariant 0 <= i <= |keys|
      invariant Mirrored(skeleton, rename, keys[..i]) == Ok(oppositeSkeleton)
    {
      var key := keys[i];
      var boneRot := skeleton[key].rotation;
      var position := skeleton[key].position;
      var mirroredQuat := boneRot;
      mirroredQuat := mirroredQuat.(x := -mirroredQuat.x);
      mirroredQuat := mirroredQuat.(w := -mirroredQuat.w);
      var boneName := rename(key);
      MirroredStep(skeleton, rename, keys, i);
      if boneName !in skeleton {
        r := Err(MissingCounterpart(key, boneName));
        FirstErrorPersists(skeleton, rename, keys, i + 1);
        return;
      }
      if position.None? {
        r := Err(MissingPosition(key));
        FirstErrorPersists(skeleton, rename, keys, i + 1);
        return;
      }
      oppositeSkeleton := oppositeSkeleton + [MirroredBone(skeleton[boneName].id, boneName, mirroredQuat, position.value)];
      i := i + 1;
    }
    assert keys[..i] == keys;
    r := Ok(oppositeSkeleton);
  }

  /** `mirrorSkeleton`: the loop above with its renaming of "Left" and "Right" bones. */
  method MirrorSkeleton(skeleton: Skeleton, keys: seq<string>) returns (r: Result<seq<MirroredBone>, MirrorError>)
    requires ListsKeys(keys, skeleton)
    ensures r == Mirrored(skeleton, MirroredBoneName, keys)
    ensures r.Ok? <==> forall k :: k in skeleton ==> MirroredBoneName(k) in skeleton && skeleton[k].position.Some?
    ensures r.Ok? ==> |r.value| == |keys|
    ensures r.Ok? ==> forall i :: 0 <= i < |keys| ==> MirrorsBone(skeleton, MirroredBoneName, keys[i], r.value[i])
    ensures r.Err? ==> exists i :: FirstFailure(skeleton, MirroredBoneName, keys, i, r.error)
  {
    r := MirrorWith(skeleton, MirroredBoneName, keys);
    MirroredMeaning(skeleton, MirroredBoneName, keys);
    MirroredErr(skeleton, MirroredBoneName, keys);
  }

  /**
   * The skeleton an entry list describes when each entry is written back
   * under its own name, as `updateCharacterIkSkeleton` receives it; a later
   * entry with the same name overrides an earlier one.
   */
  function AsSkeleton(entries: seq<MirroredBone>): Skeleton
  {
    if entries == [] then map[]
    else
      var n := |entries| - 1;
      AsSkeleton(entries[..n])[entries[n].name := EntryBone(entries[n])]
  }

  /** The bone an entry writes back. */
  function EntryBone(entry: MirroredBone): Bone
  {
    Bone(entry.id, entry.name, entry.rotation, Some(entry.position))
  }

  /** No two entries carry the same name. */
  ghost predicate DistinctNames(entries: seq<MirroredBone>)
  {
    forall i, j :: 0 <= i < j < |entries| ==> entries[i].name != entries[j].name
  }

  /** Written back, entries with distinct names give exactly their names as bones, each bone that entry's. */
  lemma {:induction false} AsSkeletonLookup(entries: seq<MirroredBone>)
    requires DistinctNames(entries)
    ensures forall name :: name in AsSkeleton(entries) <==> exists i :: 0 <= i < |entries| && entries[i].name == name
    ensures forall i :: 0 <= i < |entries| ==> AsSkeleton(entries)[entries[i].name] == EntryBone(entries[i])
  {
    if entries != [] {
      var n := |entries| - 1;
      var front := entries[..n];
      assert forall i :: 0 <= i < n ==> front[i] == entries[i];
      AsSkeletonLookup(front);
      forall name | name in AsSkeleton(entries)
        ensures exists i :: 0 <= i < |entries| && entries[i].name == name
      {
        if name != entries[n].name {
          var i :| 0 <= i < n && front[i].name == name;
          assert entries[i].name == name;
        }
      }
    }
  }

  /** `rename` undoes itself on every name in `names`. */
  ghost predicate InvolutiveOn(rename: string -> string, names: set<string>)
  {
    forall k :: k in names ==> rename(rename(k)) == k
  }

  /**
   * When the loop completes and the renaming undoes itself on the bone
   * names, writing the list back gives a skeleton with the same bones in
   * which every bone keeps its id and takes the reflected rotation and the
   * position of its counterpart.
   */
  lemma MirrorAsSkeleton(skeleton: Skeleton, rename: string -> string, keys: seq<string>)
    requires ListsKeys(keys, skeleton)
    requires Mirrored(skeleton, rename, keys).Ok?
    requires InvolutiveOn(rename, skeleton.Keys)
    ensures AsSkeleton(Mirrored(skeleton, rename, keys).value).Keys == skeleton.Keys
    ensures forall n :: n in skeleton ==>
      && rename(n) in skeleton
      && AsSkeleton(Mirrored(skeleton, rename, keys).value)[n] ==
         Bone(skeleton[n].id, n, MirrorRotation(skeleton[rename(n)].rotation), skeleton[rename(n)].position)
  {
    var entries := Mirrored(skeleton, rename, keys).value;
    forall i | 0 <= i < |keys|
      ensures MirrorsBone(skeleton, rename, keys[i], entries[i])
    {
      MirroredEntry(skeleton, rename, keys, i);
    }
    SwappedSkeleton(skeleton, rename, keys, entries);
  }

  /** Writing back entries that mirror the keys one by one swaps every bone with its counterpart. */
  lemma SwappedSkeleton(skeleton: Skeleton, rename: string -> string, keys: seq<string>, entries: seq<MirroredBone>)
    requires ListsKeys(keys, skeleton)
    requires |entries| == |keys|
    requires forall i :: 0 <= i < |keys| ==> MirrorsBone(skeleton, rename, keys[i], entries[i])
    requires InvolutiveOn(rename, skeleton.Keys)
    ensures AsSkeleton(entries).Keys == skeleton.Keys
    ensures forall n :: n in skeleton ==>
      && rename(n) in skeleton
      && AsSkeleton(entries)[n] == Bone(skeleton[n].id, n, MirrorRotation(skeleton[rename(n)].rotation), skeleton[rename(n)].position)
  {
    forall i, j | 0 <= i < j < |entries|
      ensures entries[i].name != entries[j].name
    {
      assert keys[i] != keys[j];
      assert rename(rename(keys[i])) == keys[i] && rename(rename(keys[j])) == keys[j];
    }
    AsSkeletonLookup(entries);
    SwappedBones(skeleton, rename, keys, entries, AsSkeleton(entries));
    SwappedKeys(skeleton, rename, keys, entries, AsSkeleton(entries));
  }

  /** The values half of `SwappedSkeleton`, once the written-back skeleton `m` is known entry by entry. */
  lemma SwappedBones(skeleton: Skeleton, rename: string -> string, keys: seq<string>, entries: seq<MirroredBone>, m: Skeleton)
    requires ListsKeys(keys, skeleton)
    requires |entries| == |keys|
    requires forall i :: 0 <= i < |keys| ==> MirrorsBone(skeleton, rename, keys[i], entries[i])
    requires InvolutiveOn(rename, skeleton.Keys)
    requires forall i :: 0 <= i < |entries| ==> entries[i].name in m && m[entries[i].name] == EntryBone(entries[i])
    ensures forall n :: n in skeleton ==>
      && rename(n) in skeleton && n in m
      && m[n] == Bone(skeleton[n].id, n, MirrorRotation(skeleton[rename(n)].rotation), skeleton[rename(n)].position)
  {
    forall n | n in skeleton
      ensures rename(n) in skeleton && n in m
      ensures m[n] == Bone(skeleton[n].id, n, MirrorRotation(skeleton[rename(n)].rotation), skeleton[rename(n)].position)
    {
      assert rename(rename(n)) == n;
      var i :| 0 <= i < |keys| && keys[i] == rename(n);
      SwappedBone(skeleton, rename, keys, entries, m, i);
    }
  }

  /** The keys half of `SwappedSkeleton`: the entries' names are exactly the skeleton's keys. */
  lemma SwappedKeys(skeleton: Skeleton, rename: string -> string, keys: seq<string>, entries: seq<MirroredBone>, m: Skeleton)
    requires ListsKeys(keys, skeleton)
    requires |entries| == |keys|
    requires forall i :: 0 <= i < |keys| ==> MirrorsBone(skeleton, rename, keys[i], entries[i])
    requires forall name :: name in m <==> exists i :: 0 <= i < |entries| && entries[i].name == name
    requires forall n :: n in skeleton ==> n in m
    ensures m.Keys == skeleton.Keys
  {
    forall n | n in m
      ensures n in skeleton
    {
      var i :| 0 <= i < |entries| && entries[i].name == n;
      assert keys[i] in keys;
      assert MirrorsBone(skeleton, rename, keys[i], entries[i]);
    }
  }

  /** The bone written back from entry `i` is the counterpart of `keys[i]`, swapped. */
  lemma SwappedBone(skeleton: Skeleton, rename: string -> string, keys: seq<string>, entries: seq<MirroredBone>, m: Skeleton, i: int)
    requires 0 <= i < |keys| == |entries|
    requires keys[i] in skeleton
    requires MirrorsBone(skeleton, rename, keys[i], entries[i])
    requires rename(rename(keys[i])) == keys[i]
    requires entries[i].name in m && m[entries[i].name] == EntryBone(entries[i])
    ensures var n := rename(keys[i]);
      && n in skeleton && rename(n) in skeleton && n in m
      && m[n] == Bone(skeleton[n].id, n, MirrorRotation(skeleton[rename(n)].rotation), skeleton[rename(n)].position)
  {
  }

  /** Entry `i` of a completed loop is the one built for `keys[i]`. */
  lemma MirroredEntry(skeleton: Skeleton, rename: string -> string, keys: seq<string>, i: int)
    requires forall k :: k in keys ==> k in skeleton
    requires Mirrored(skeleton, rename, keys).Ok?
    requires 0 <= i < |keys|
    ensures MirrorsBone(skeleton, rename, keys[i], Mirrored(skeleton, rename, keys).value[i])
  {
    MirroredOk(skeleton, rename, keys);
  }

  /**
   * Mirroring twice gives back the pose: once the first mirror completes and
   * its list is written back, a second mirror over the new skeleton's keys
   * also completes, and writing its list back restores every bone's id,
   * rotation and position (the name becomes the bone's key).
   */
  lemma MirrorTwice(skeleton: Skeleton, rename: string -> string, keys: seq<string>, keys': seq<string>)
    requires ListsKeys(keys, skeleton)
    requires Mirrored(skeleton, rename, keys).Ok?
    requires InvolutiveOn(rename, skeleton.Keys)
    requires ListsKeys(keys', AsSkeleton(Mirrored(skeleton, rename, keys).value))
    ensures Mirrored(AsSkeleton(Mirrored(skeleton, rename, keys).value), rename, keys').Ok?
    ensures AsSkeleton(Mirrored(AsSkeleton(Mirrored(skeleton, rename, keys).value), rename, keys').value).Keys == skeleton.Keys
    ensures forall n :: n in skeleton ==>
      AsSkeleton(Mirrored(AsSkeleton(Mirrored(skeleton, rename, keys).value), rename, keys').value)[n] ==
        Bone(skeleton[n].id, n, skeleton[n].rotation, skeleton[n].position)
  {
    var once := AsSkeleton(Mirrored(skeleton, rename, keys).value);
    MirrorAsSkeleton(skeleton, rename, keys);
    MirroredMeaning(skeleton, rename, keys');
    forall k | k in once
      ensures rename(k) in once && once[k].position.Some?
    {
      MirroredMeaning(skeleton, rename, keys);
    }
    assert InvolutiveOn(rename, once.Keys);
    MirroredMeaning(once, rename, keys');
    MirrorAsSkeleton(once, rename, keys');
    forall n | n in skeleton
      ensures skeleton[n].position == once[rename(n)].position
    {
      MirroredMeaning(skeleton, rename, keys);
    }
    forall n | n in skeleton
      ensures MirrorRotation(once[rename(n)].rotation) == skeleton[n].rotation
    {
      MirrorRotationInvolutive(skeleton[n].rotation, skeleton[n].rotation);
    }
  }

  /** Every name is well sided: `MirroredBoneName` undoes itself on all of them. */
  lemma WellSidedInvolutive(names: set<string>)
    requires forall k :: k in names ==> WellSided(k)
    ensures InvolutiveOn(MirroredBoneName, names)
  {
    forall k | k in names
      ensures MirroredBoneName(MirroredBoneName(k)) == k
    {
      MirroredBoneNameInvolutive(k);
    }
  }

  /**
   * `mirrorSkeleton`, applied twice to a skeleton whose bone names are
   * well sided and whose first mirror completes, restores every bone.
   */
  lemma MirrorSkeletonTwice(skeleton: Skeleton, keys: seq<string>, keys': seq<string>)
    requires ListsKeys(keys, skeleton)
    requires forall k :: k in skeleton ==> WellSided(k)
    requires Mirrored(skeleton, MirroredBoneName, keys).Ok?
    requires ListsKeys(keys', AsSkeleton(Mirrored(skeleton, MirroredBoneName, keys).value))
    ensures Mirrored(AsSkeleton(Mirrored(skeleton, MirroredBoneName, keys).value), MirroredBoneName, keys').Ok?
    ensures AsSkeleton(Mirrored(AsSkeleton(Mirrored(skeleton, MirroredBoneName, keys).value), MirroredBoneName, keys').value).Keys == skeleton.Keys
    ensures forall n :: n in skeleton ==>
      AsSkeleton(Mirrored(AsSkeleton(Mirrored(skeleton, MirroredBoneName, keys).value), MirroredBoneName, keys').value)[n] ==
        Bone(skeleton[n].id, n, skeleton[n].rotation, skeleton[n].position)
  {
    WellSidedInvolutive(skeleton.Keys);
    MirrorTwice(skeleton, MirroredBoneName, keys, keys');
  }
}
