# Pose presets and skeleton mirroring

A Dafny model of the pose-preset editor of Shot Generator
(`PosePresetsEditor`, in `src/js/shot-generator/components/InspectedElement/PosePresetsInspector/index.js`),
taken out of its React and Redux shell. The model covers:

- **Bone names** (`BoneNames`, `Strings`): `limbsSide` and the renaming of
  `mirrorSkeleton`, which replaces the first "Left" of a key by "Right", or
  else the first "Right" by "Left". `Strings` models the two JavaScript
  string operations involved, `includes` and `replace` with a string pattern.
- **The mirror engine** (`Mirror`, `Skeletons`): the loop of `mirrorSkeleton`
  over `Object.keys` of the skeleton. For each bone it pushes an entry with
  the counterpart's name and id, the rotation with its quaternion `x` and `w`
  negated, and the bone's own position. It throws when a counterpart or a
  position is missing, and then `updateCharacterIkSkeleton` is never called.
  The loop is stated for any renaming and specialised to the editor's. The
  model also proves what happens when the list is written back under its
  names and the pose is mirrored twice.
- **Preset creation** (`Presets`): the name guard of `addNewPosePreset`, the
  snapshot loop, the preset record, adding and selecting the new preset, and
  the denylist `filter` and `reduce` that build the map given to
  `savePosePresets`.
- **The preset list and search** (`Search`): the two sorts, the
  `{value: name|keywords, id: index}` items given to the search list, and
  `saveFilteredPresets`.

Skeletons are `map<string, Bone>`, and `Object.keys` is a sequence that lists
every key once (`Skeletons.ListsKeys`). A rotation is an abstract quaternion.
Things that can be absent are `Option`, and a thrown error is a `Result.Err`.
The parts that change state step by step are methods with loops (the snapshot
copy, the mirror loop, the `saveFilteredPresets` push loop); the rest are
functions with lemmas.

Collaborators are parameters:
- The fresh UUID is `freshId`, required not to be a key of the store already.
- `Object.keys(defaultPosePresets)` is `denylist`.
- The comparators `comparePresetNames` and `comparePresetPriority` are
  arbitrary `(Preset, Preset) -> int` functions.

Behaviour of the code worth knowing:
- The name guard refuses only `null`, `''` and `' '`, so a name of two
  spaces is accepted (line 115).
- The snapshot keeps only `rotation`, `name` and `id` of each bone (lines
  127-130), not its position.
- The renaming is not an involution on every name: "RightLeft" goes to
  "RightRight" and then to "LeftRight"
  (`BoneNames.MirroredBoneNameNotInvolutive`). It is one on well-sided names,
  those with at most one side marker (`BoneNames.WellSided`). The
  double-mirror property is proved for skeletons whose keys are all well sided.
- The mirror engine throws on a bone with no `position` (line 218) as well as
  on a missing counterpart (line 215).

## Model

| member | source | states |
|---|---|---|
| Strings.IndexOfFromSpec | src/js/shot-generator/components/InspectedElement/PosePresetsInspector/index.js:182 | the search behind `includes`, from a start index, returns the first index at or after it where the pattern occurs, or nothing when no occurrence lies at or after it |
| Strings.IndexOfSpec | src/js/shot-generator/components/InspectedElement/PosePresetsInspector/index.js:209-211 | `indexOf` returns the first occurrence of the pattern, and reports none only when the pattern occurs nowhere |
| Strings.IncludesSpec | src/js/shot-generator/components/InspectedElement/PosePresetsInspector/index.js:182 | `includes` holds exactly when the pattern occurs somewhere in the string |
| Strings.IndexOfFirst | src/js/shot-generator/components/InspectedElement/PosePresetsInspector/index.js:209-211 | where the pattern first occurs at `i`, `indexOf` returns `i` |
| Strings.ReplaceFirstSpec | src/js/shot-generator/components/InspectedElement/PosePresetsInspector/index.js:211 | `replace` with a string pattern leaves a string without the pattern unchanged and otherwise replaces only the first occurrence |
| Skeletons.MirrorRotationInvolutive | src/js/shot-generator/components/InspectedElement/PosePresetsInspector/index.js:206-208 | negating the quaternion's `x` and `w` twice gives back the rotation, and distinct rotations reflect to distinct rotations |
| BoneNames.LimbsSideSpec | src/js/shot-generator/components/InspectedElement/PosePresetsInspector/index.js:180-190 | a name containing "Left" is on the left with "Right" opposite, even when "Right" occurs too; any other name is taken as right with "Left" opposite |
| BoneNames.MirroredBoneNameSpec | src/js/shot-generator/components/InspectedElement/PosePresetsInspector/index.js:209-212 | a key with neither marker keeps its name; a key with "Left" has its first "Left" replaced by "Right"; a key with only "Right" has its first "Right" replaced by "Left" |
| BoneNames.MarkerOccurrences | src/js/shot-generator/components/InspectedElement/PosePresetsInspector/index.js:209-212 | in a name made of an unsided prefix, one marker and an unsided suffix, that marker occurs exactly once and the other marker not at all |
| BoneNames.MirroredBoneNameSplit | src/js/shot-generator/components/InspectedElement/PosePresetsInspector/index.js:209-212 | such a name is renamed by swapping just its marker, and it is well sided |
| BoneNames.MirroredBoneNameInvolutive | src/js/shot-generator/components/InspectedElement/PosePresetsInspector/index.js:209-212 | on well-sided names the renaming is undone by applying it again, and keeps names well sided |
| BoneNames.MirroredBoneNameInjective | src/js/shot-generator/components/InspectedElement/PosePresetsInspector/index.js:209-212 | distinct well-sided names get distinct counterparts |
| BoneNames.MirroredBoneNameNotInvolutive | src/js/shot-generator/components/InspectedElement/PosePresetsInspector/index.js:209-212 | "RightLeft" is renamed to "RightRight" and then to "LeftRight", so the renaming is not an involution on every name |
| BoneNames.RenamesFirstLeft | src/js/shot-generator/components/InspectedElement/PosePresetsInspector/index.js:209-212 | "RightLeft" has its first "Left" replaced, giving "RightRight" |
| BoneNames.RenamesFirstRight | src/js/shot-generator/components/InspectedElement/PosePresetsInspector/index.js:209-212 | "RightRight" contains no "Left", so its first "Right" becomes "Left", giving "LeftRight" |
| Mirror.MirrorOne | src/js/shot-generator/components/InspectedElement/PosePresetsInspector/index.js:202-219 | one iteration: completes exactly when the counterpart is a key and the bone has a position, and then pushes the counterpart's name and id, the reflected rotation and the bone's own position; otherwise it throws for the missing counterpart first, else for the missing position |
| Mirror.Mirrored | src/js/shot-generator/components/InspectedElement/PosePresetsInspector/index.js:198-220 | a completed loop pushes one entry per key |
| Mirror.MirroredOk | src/js/shot-generator/components/InspectedElement/PosePresetsInspector/index.js:201-220 | the loop completes exactly when every iteration does, and entry `i` is the one built for `keys[i]` |
| Mirror.MirroredErr | src/js/shot-generator/components/InspectedElement/PosePresetsInspector/index.js:201-220 | a loop that throws, throws the error of the first failing key, every earlier key having completed |
| Mirror.FirstErrorPersists | src/js/shot-generator/components/InspectedElement/PosePresetsInspector/index.js:201-220 | once the loop has thrown on a prefix of the keys, the whole loop throws that same error |
| Mirror.MirroredCompletes | src/js/shot-generator/components/InspectedElement/PosePresetsInspector/index.js:198-220 | the loop completes exactly when every key's counterpart is a key and every bone has a position |
| Mirror.MirroredEntry | src/js/shot-generator/components/InspectedElement/PosePresetsInspector/index.js:214-219 | entry `i` of a completed loop mirrors `keys[i]` |
| Mirror.MirroredMeaning | src/js/shot-generator/components/InspectedElement/PosePresetsInspector/index.js:198-220 | completion exactly when every counterpart and position exists, and then entry `i` mirrors `keys[i]` |
| Mirror.MirrorWith | src/js/shot-generator/components/InspectedElement/PosePresetsInspector/index.js:198-220 | the index loop, with its in-place negation of `x` and `w`, computes the loop's result for any renaming |
| Mirror.MirrorSkeleton | src/js/shot-generator/components/InspectedElement/PosePresetsInspector/index.js:193-222 | `mirrorSkeleton`: a list is produced exactly when every key's counterpart exists and every bone has a position; it has one entry per key, in key order, each mirroring its key; otherwise the error is that of the first failing key and nothing is written |
| Mirror.AsSkeletonLookup | src/js/shot-generator/components/InspectedElement/PosePresetsInspector/index.js:221 | a list with distinct names, written back by name, gives exactly those names as bones, each the bone of its entry |
| Mirror.MirrorAsSkeleton | src/js/shot-generator/components/InspectedElement/PosePresetsInspector/index.js:214-221 | when the renaming undoes itself on the keys, the written-back list has the same keys, and each bone keeps its id and takes its counterpart's reflected rotation and position |
| Mirror.SwappedSkeleton | src/js/shot-generator/components/InspectedElement/PosePresetsInspector/index.js:214-221 | the same, for any list whose entries mirror the keys one by one |
| Mirror.SwappedBones | src/js/shot-generator/components/InspectedElement/PosePresetsInspector/index.js:214-219 | each bone of the written-back list is its counterpart's entry, swapped onto it |
| Mirror.SwappedKeys | src/js/shot-generator/components/InspectedElement/PosePresetsInspector/index.js:214-219 | the written-back list's names are exactly the skeleton's keys |
| Mirror.SwappedBone | src/js/shot-generator/components/InspectedElement/PosePresetsInspector/index.js:214-219 | the entry built for `keys[i]` lands on the counterpart of `keys[i]` |
| Mirror.MirrorTwice | src/js/shot-generator/components/InspectedElement/PosePresetsInspector/index.js:193-222 | mirroring twice with a self-undoing renaming completes and gives back every bone's id, rotation and position |
| Mirror.WellSidedInvolutive | src/js/shot-generator/components/InspectedElement/PosePresetsInspector/index.js:209-212 | on a set of well-sided names the renaming undoes itself |
| Mirror.MirrorSkeletonTwice | src/js/shot-generator/components/InspectedElement/PosePresetsInspector/index.js:193-222 | `mirrorSkeleton` applied twice to a skeleton with well-sided bone names whose first mirror completes gives back every bone |
| Presets.CaptureSnapshot | src/js/shot-generator/components/InspectedElement/PosePresetsInspector/index.js:122-131 | the snapshot has exactly the skeleton's keys, and each entry holds that bone's rotation, name and id and nothing else |
| Presets.UserPoses | src/js/shot-generator/components/InspectedElement/PosePresetsInspector/index.js:165-167 | a pose is kept exactly when it is among the values and its id is not on the denylist |
| Presets.CollectByIdSpec | src/js/shot-generator/components/InspectedElement/PosePresetsInspector/index.js:168-174 | the collected ids are exactly the poses' ids, and each is filed with a pose that has that id |
| Presets.CollectLastWins | src/js/shot-generator/components/InspectedElement/PosePresetsInspector/index.js:168-174 | a pose that no later pose shares its id with is the one filed under its id |
| Presets.PersistedPoses | src/js/shot-generator/components/InspectedElement/PosePresetsInspector/index.js:165-175 | the saved map has no default id as a key, has every non-default pose's id as a key, and files each entry, a pose of the store, under its own id |
| Presets.PersistedOfWellKeyedStore | src/js/shot-generator/components/InspectedElement/PosePresetsInspector/index.js:165-175 | for a store whose presets are filed under their own ids, the saved map is the store without the default ids, whatever the order of `Object.values` |
| Presets.ListsKeysAppend | src/js/shot-generator/components/InspectedElement/PosePresetsInspector/index.js:143-144 | adding a preset under a fresh id appends that id to `Object.keys` and the preset to `Object.values` |
| Presets.PersistedAfterCreate | src/js/shot-generator/components/InspectedElement/PosePresetsInspector/index.js:143-175 | right after creation, the new preset is saved under its own id unless that id is a default one |
| Presets.PersistedAfterCreateWellKeyed | src/js/shot-generator/components/InspectedElement/PosePresetsInspector/index.js:143-175 | right after creation in a store filed by id, the saved map is the new store without the default ids |
| Presets.Commit | src/js/shot-generator/components/InspectedElement/PosePresetsInspector/index.js:143-175 | the new preset is added under its id and selected, and the saved map has no default id, holds the new preset unless its id is a default one, and for a store filed by id is exactly the new store without the default ids |
| Presets.AddNewPosePreset | src/js/shot-generator/components/InspectedElement/PosePresetsInspector/index.js:114-179 | a null, empty or single-space name builds nothing; any other name builds a preset with the fresh id, that name as name and keywords, priority 0 and a snapshot of the skeleton, then commits it |
| Search.InsertSpec | src/js/shot-generator/components/InspectedElement/PosePresetsInspector/index.js:80 | inserting adds exactly one element, kept in front or after the old first element |
| Search.InsertSorted | src/js/shot-generator/components/InspectedElement/PosePresetsInspector/index.js:80 | with a consistent comparator, inserting keeps a sorted list sorted |
| Search.SortWithSpec | src/js/shot-generator/components/InspectedElement/PosePresetsInspector/index.js:80 | sorting permutes its input and, with a consistent comparator, sorts it |
| Search.RankPresetsSpec | src/js/shot-generator/components/InspectedElement/PosePresetsInspector/index.js:80 | the preset list is a permutation of the store's presets, ordered by the priority comparator when it is consistent |
| Search.SaveFilteredPresets | src/js/shot-generator/components/InspectedElement/PosePresetsInspector/index.js:99-105 | `saveFilteredPresets` returns, for each kept item in order, the preset its id points at, or nothing when the id is outside the list |
| Search.ResolveAllItems | src/js/shot-generator/components/InspectedElement/PosePresetsInspector/index.js:81-86 | keeping every search item shows every preset in list order |
| Search.ResolveKeptItems | src/js/shot-generator/components/InspectedElement/PosePresetsInspector/index.js:81-86 | every item drawn from the search list shows the preset at its index, whose name and keywords make up the item's text, in the order the search keeps them |

## Left out

- The React, Redux and JSX shell: the modal, grid, search list and posture components, and the hooks. It is interface code.
- The telemetry `request.post` with `machineIdSync` and the package version (lines 148-156): a network call and a foreign library.
- `presetsStorage.savePosePresets` (line 175): file I/O. The model computes the map it receives (`Presets.Commit`'s `persisted`).
- `undoGroupStart` and `undoGroupEnd` (lines 158, 161): undo bracketing with no effect on the values modelled.
- The Euler to quaternion conversions of `THREE` (lines 206, 213): floating-point trigonometry. Rotations are an abstract quaternion, and only the sign flip of `x` and `w` is modelled.
- `THREE.Math.generateUUID`, `shortId` and `onCreatePosePreset`'s default name (lines 107-112): randomness. The new id is the parameter `freshId`.
- The reducers `createPosePreset` and `updateCharacterIkSkeleton` are not part of this model. The model takes `createPosePreset` to file the preset under its id, appended last in `Object.keys` (true of JavaScript objects with non-numeric keys). It takes `updateCharacterIkSkeleton` to write each entry under its name (`Mirror.AsSkeleton`).
- The bodies of `comparePresetNames` and `comparePresetPriority`, and the fuzzy matcher of the search list: these are not part of this model. The sort is an insertion sort parameterised by the comparator.
- Search.SortWithSpec: states that the result is a permutation, sorted for a consistent comparator, but not that the sort is stable, which `Array.prototype.sort` is.
- Search.RankPresetsSpec: states that the list is ordered by priority, but not that presets of equal priority stay ordered by name, which needs stability and a comparator that is a total preorder.
- The `if(!posePresets) return` case of the `presets` memo (line 79), and `saveFilteredPresets` on a missing list: the model always has a list.
- `getPosePresetId` and the scene-object lookups through `withState` (lines 91-97, 118, 196): the skeleton and the store are parameters.
- `src/js/shot-generator-new/components/FileInput/index.js`: a file-dialog wrapper with no logic of its own.
