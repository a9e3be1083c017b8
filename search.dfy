/**
 * The preset list of the editor (the `presets` memo) and the search over it:
 * the presets sorted by name and then by priority, the `{value, id}` items
 * handed to the search list, and `saveFilteredPresets`, which turns the
 * items the search keeps back into presets.
 */
module Search {
  import opened Wrappers
  import opened Presets

  /** A comparator as `Array.prototype.sort` takes it: negative puts `a` first. */
  type Comparator = (Preset, Preset) -> int

  /** Puts `x` before the first element it does not sort after, as a stable sort does. */
  function Insert(x: Preset, s: seq<Preset>, cmp: Comparator): seq<Preset>
  {
    if s == [] then [x]
    else if cmp(x, s[0]) <= 0 then [x] + s
    else [s[0]] + Insert(x, s[1..], cmp)
  }

  /** `s.sort(cmp)`, as an insertion sort. */
  function SortWith(s: seq<Preset>, cmp: Comparator): seq<Preset>
  {
    if s == [] then [] else Insert(s[0], SortWith(s[1..], cmp), cmp)
  }

  /** Neighbours of `s` are in the order `cmp` asks for. */
  ghost predicate SortedBy(s: seq<Preset>, cmp: Comparator)
  {
    forall i :: 0 < i < |s| ==> cmp(s[i - 1], s[i]) <= 0
  }

  /**
   * `cmp` never puts `a` after `b` and `b` after `a`. This is enough for the
   * insertion sort below to sort; `Array.prototype.sort` also asks for
   * transitivity, without which its order is left to the implementation.
   */
  ghost predicate Consistent(cmp: Comparator)
  {
    forall a, b :: cmp(a, b) > 0 ==> cmp(b, a) < 0
  }

  /** Inserting adds exactly `x`, and the result starts with `x` or with the old first element. */
  lemma {:induction false} InsertSpec(x: Preset, s: seq<Preset>, cmp: Comparator)
    ensures multiset(Insert(x, s, cmp)) == multiset(s) + multiset{x}
    ensures |Insert(x, s, cmp)| == |s| + 1
    ensures Insert(x, s, cmp)[0] == x || (s != [] && Insert(x, s, cmp)[0] == s[0])
  {
    if s != [] {
      assert s == [s[0]] + s[1..];
      if cmp(x, s[0]) > 0 {
        InsertSpec(x, s[1..], cmp);
      }
    }
  }

  /** For a consistent comparator, inserting keeps a sorted sequence sorted. */
  lemma {:induction false} InsertSorted(x: Preset, s: seq<Preset>, cmp: Comparator)
    requires Consistent(cmp)
    requires SortedBy(s, cmp)
    ensures SortedBy(Insert(x, s, cmp), cmp)
  {
    if s != [] && cmp(x, s[0]) > 0 {
      var tail := s[1..];
      assert SortedBy(tail, cmp) by {
        forall i | 0 < i < |tail|
          ensures cmp(tail[i - 1], tail[i]) <= 0
        {
          assert tail[i - 1] == s[i] && tail[i] == s[i + 1];
        }
      }
      var rest := Insert(x, tail, cmp);
      InsertSpec(x, tail, cmp);
      InsertSorted(x, tail, cmp);
      var t := [s[0]] + rest;
      assert Insert(x, s, cmp) == t;
      forall i | 0 < i < |t|
        ensures cmp(t[i - 1], t[i]) <= 0
      {
        if i == 1 {
          if rest[0] == x {
            assert cmp(s[0], x) < 0;
          } else {
            assert rest[0] == s[1];
          }
        } else {
          assert t[i - 1] == rest[i - 2] && t[i] == rest[i - 1];
        }
      }
    }
  }

  /** Sorting rearranges its input and, for a consistent comparator, sorts it. */
  lemma {:induction false} SortWithSpec(s: seq<Preset>, cmp: Comparator)
    ensures multiset(SortWith(s, cmp)) == multiset(s)
    ensures |SortWith(s, cmp)| == |s|
    ensures Consistent(cmp) ==> SortedBy(SortWith(s, cmp), cmp)
  {
    if s != [] {
      SortWithSpec(s[1..], cmp);
      InsertSpec(s[0], SortWith(s[1..], cmp), cmp);
      if Consistent(cmp) {
        InsertSorted(s[0], SortWith(s[1..], cmp), cmp);
      }
      assert s == [s[0]] + s[1..];
    }
  }

  /** `Object.values(posePresets).sort(comparePresetNames).sort(comparePresetPriority)`. */
  function RankPresets(values: seq<Preset>, byName: Comparator, byPriority: Comparator): seq<Preset>
  {
    SortWith(SortWith(values, byName), byPriority)
  }

  /** The preset list holds the store's presets, rearranged, and is ordered by priority. */
  lemma RankPresetsSpec(values: seq<Preset>, byName: Comparator, byPriority: Comparator)
    ensures multiset(RankPresets(values, byName, byPriority)) == multiset(values)
    ensures Consistent(byPriority) ==> SortedBy(RankPresets(values, byName, byPriority), byPriority)
  {
    SortWithSpec(values, byName);
    SortWithSpec(SortWith(values, byName), byPriority);
  }

  /** One item of the search list. */
  datatype SearchItem = SearchItem(value: string, id: int)

  /** The text a preset is searched by. */
  function SearchText(p: Preset): string
  {
    p.name + "|" + p.keywords
  }

  /** The items handed to the search list: item `i` carries preset `i`'s text and the index `i`. */
  function SearchItems(presets: seq<Preset>): seq<SearchItem>
  {
    seq(|presets|, i requires 0 <= i < |presets| => SearchItem(SearchText(presets[i]), i))
  }

  /** `presets[id]`: undefined outside the list. */
  function PresetAt(presets: seq<Preset>, id: int): Option<Preset>
  {
    if 0 <= id < |presets| then Some(presets[id]) else None
  }

  /** The presets `saveFilteredPresets` shows for the items the search kept, in the search's order. */
  function Resolve(presets: seq<Preset>, filtered: seq<SearchItem>): seq<Option<Preset>>
  {
    seq(|filtered|, j requires 0 <= j < |filtered| => PresetAt(presets, filtered[j].id))
  }

  /** `saveFilteredPresets`: looks up, one by one and in order, the preset each kept item points at. */
  method SaveFilteredPresets(presets: seq<Preset>, filtered: seq<SearchItem>) returns (objects: seq<Option<Preset>>)
    ensures |objects| == |filtered|
    ensures forall j :: 0 <= j < |filtered| ==> objects[j] == PresetAt(presets, filtered[j].id)
    ensures objects == Resolve(presets, filtered)
  {
    objects := [];
    var i := 0;
    while i < |filtered|
      invariant 0 <= i <= |filtered|
      invariant |objects| == i
      invariant forall j :: 0 <= j < i ==> objects[j] == PresetAt(presets, filtered[j].id)
    {
      objects := objects + [PresetAt(presets, filtered[i].id)];
      i := i + 1;
    }
  }

  /** When the search keeps every item, every preset is shown, in list order. */
  lemma ResolveAllItems(presets: seq<Preset>)
    ensures |Resolve(presets, SearchItems(presets))| == |presets|
    ensures forall i :: 0 <= i < |presets| ==> Resolve(presets, SearchItems(presets))[i] == Some(presets[i])
  {
  }

  /**
   * Whatever items the search keeps and in whatever order, as long as each is
   * an item of the list, each one shows the preset whose text it carries.
   */
  lemma ResolveKeptItems(presets: seq<Preset>, filtered: seq<SearchItem>)
    requires forall j :: 0 <= j < |filtered| ==> filtered[j] in SearchItems(presets)
    ensures forall j :: 0 <= j < |filtered| ==>
      && Resolve(presets, filtered)[j].Some?
      && Resolve(presets, filtered)[j].value == presets[filtered[j].id]
      && SearchText(Resolve(presets, filtered)[j].value) == filtered[j].value
  {
    var items := SearchItems(presets);
    forall j | 0 <= j < |filtered|
      ensures 0 <= filtered[j].id < |presets| && SearchText(presets[filtered[j].id]) == filtered[j].value
    {
      var i :| 0 <= i < |items| && items[i] == filtered[j];
      assert items[i].id == i;
    }
  }
}
