/**
 * Which side of the body a bone is on, and the name of its counterpart on
 * the other side (`limbsSide` and the renaming inside `mirrorSkeleton`).
 */
module BoneNames {
  import opened Wrappers
  import opened Strings

  const LEFT: string := "Left"
  const RIGHT: string := "Right"

  /** The side a bone is on and the side opposite it. */
  datatype Sides = Sides(currentSide: string, oppositeSide: string)

  /** `limbsSide`: a name containing "Left" is on the left; every other name is taken to be on the right. */
  function LimbsSide(limbName: string): Sides
  {
    if Includes(limbName, LEFT) then Sides(LEFT, RIGHT) else Sides(RIGHT, LEFT)
  }

  /** "Left" anywhere in the name puts the bone on the left, even when "Right" occurs too. */
  lemma LimbsSideSpec(limbName: string)
    ensures (exists j: nat :: OccursAt(limbName, LEFT, j)) ==> LimbsSide(limbName) == Sides(LEFT, RIGHT)
    ensures (forall j: nat :: !OccursAt(limbName, LEFT, j)) ==> LimbsSide(limbName) == Sides(RIGHT, LEFT)
  {
    IncludesSpec(limbName, LEFT);
  }

  /**
   * The name a bone's mirrored pose is written to: a key mentioning neither
   * side keeps its name; otherwise the first occurrence of its current side
   * is replaced by the opposite side.
   */
  function MirroredBoneName(key: string): string
  {
    if Includes(key, LEFT) || Includes(key, RIGHT) then
      var sides := LimbsSide(key);
      ReplaceFirst(key, sides.currentSide, sides.oppositeSide)
    else
      key
  }

  /**
   * What the renaming does: a key mentioning neither side is left alone; a
   * key mentioning "Left" has its first "Left" replaced by "Right"; a key
   * mentioning only "Right" has its first "Right" replaced by "Left".
   */
  lemma MirroredBoneNameSpec(key: string)
    ensures (forall j: nat :: !OccursAt(key, LEFT, j) && !OccursAt(key, RIGHT, j)) ==> MirroredBoneName(key) == key
    ensures forall i: nat :: FirstOccurrence(key, LEFT, i) ==>
      MirroredBoneName(key) == key[..i] + RIGHT + key[i + |LEFT|..]
    ensures (forall j: nat :: !OccursAt(key, LEFT, j)) ==>
      forall i: nat :: FirstOccurrence(key, RIGHT, i) ==> MirroredBoneName(key) == key[..i] + LEFT + key[i + |RIGHT|..]
  {
    IncludesSpec(key, LEFT);
    IncludesSpec(key, RIGHT);
    ReplaceFirstSpec(key, LEFT, RIGHT);
    ReplaceFirstSpec(key, RIGHT, LEFT);
  }

  /** The other side marker. */
  function Opposite(marker: string): string
  {
    if marker == LEFT then RIGHT else LEFT
  }

  /** `s` mentions neither side. */
  predicate Unsided(s: string)
  {
    !Includes(s, LEFT) && !Includes(s, RIGHT)
  }

  /**
   * A bone name that mentions neither side, or mentions exactly one side
   * marker once with no other marker before or after it ("LeftArm",
   * "mixamorigRightHand", "Spine").
   */
  predicate WellSided(name: string)
  {
    match IndexOf(name, LEFT)
    case Some(i) => Unsided(name[..i]) && Unsided(name[i + |LEFT|..])
    case None =>
      match IndexOf(name, RIGHT)
      case Some(i) => Unsided(name[..i]) && Unsided(name[i + |RIGHT|..])
      case None => true
  }

  /** In `p + m + q` with `m` a side marker and `p`, `q` unsided, `m` is the only marker occurrence. */
  lemma MarkerOccurrences(p: string, m: string, q: string, sub: string)
    requires m == LEFT || m == RIGHT
    requires sub == LEFT || sub == RIGHT
    requires Unsided(p) && Unsided(q)
    ensures sub == m ==> FirstOccurrence(p + m + q, sub, |p|)
    ensures sub != m ==> forall j: nat :: !OccursAt(p + m + q, sub, j)
  {
    var t := p + m + q;
    IncludesSpec(p, sub);
    IncludesSpec(q, sub);
    forall j: nat
      ensures OccursAt(t, sub, j) ==> j == |p| && sub == m
    {
      OccurrenceLocation(p, m, q, sub, j);
      assert !OccursAt(p, sub, j);
      assert j >= |p| + |m| ==> !OccursAt(q, sub, j - |p| - |m|);
      assert t[|p|] == m[0];
      assert OccursAt(t, sub, j) ==> t[j..j + |sub|][0] == sub[0];
    }
    if sub == m {
      assert t[|p|..|p| + |m|] == m;
      assert OccursAt(t, sub, |p|);
    }
  }

  /** Renaming `p + m + q` swaps the one marker and leaves the rest alone; both names are well-sided. */
  lemma MirroredBoneNameSplit(p: string, m: string, q: string)
    requires m == LEFT || m == RIGHT
    requires Unsided(p) && Unsided(q)
    ensures MirroredBoneName(p + m + q) == p + Opposite(m) + q
    ensures WellSided(p + m + q)
  {
    var n := p + m + q;
    MarkerOccurrences(p, m, q, LEFT);
    MarkerOccurrences(p, m, q, RIGHT);
    assert n[..|p|] == p;
    assert n[|p| + |m|..] == q;
    MirroredBoneNameSpec(n);
    IndexOfSpec(n, LEFT);
    IndexOfSpec(n, RIGHT);
    if m == LEFT {
      assert IndexOf(n, LEFT) == Some(|p|);
    } else {
      assert IndexOf(n, LEFT) == None;
      assert IndexOf(n, RIGHT) == Some(|p|);
    }
  }

  /**
   * On well-sided names the renaming is an involution, and it keeps names
   * well-sided.
   */
  lemma MirroredBoneNameInvolutive(name: string)
    requires WellSided(name)
    ensures WellSided(MirroredBoneName(name))
    ensures MirroredBoneName(MirroredBoneName(name)) == name
  {
    IndexOfSpec(name, LEFT);
    IndexOfSpec(name, RIGHT);
    match IndexOf(name, LEFT) {
      case Some(i) =>
        var p, q := name[..i], name[i + |LEFT|..];
        assert name == p + LEFT + q;
        MirroredBoneNameSplit(p, LEFT, q);
        MirroredBoneNameSplit(p, RIGHT, q);
      case None =>
        match IndexOf(name, RIGHT) {
          case Some(i) =>
            var p, q := name[..i], name[i + |RIGHT|..];
            assert name == p + RIGHT + q;
            MirroredBoneNameSplit(p, RIGHT, q);
            MirroredBoneNameSplit(p, LEFT, q);
          case None =>
        }
    }
  }

  /** Distinct well-sided names are renamed to distinct names. */
  lemma MirroredBoneNameInjective(a: string, b: string)
    requires WellSided(a) && WellSided(b)
    requires a != b
    ensures MirroredBoneName(a) != MirroredBoneName(b)
  {
    MirroredBoneNameInvolutive(a);
    MirroredBoneNameInvolutive(b);
  }

  /**
   * Off well-sided names the renaming is not an involution: "RightLeft"
   * becomes "RightRight", which becomes "LeftRight".
   */
  lemma MirroredBoneNameNotInvolutive(name: string)
    requires name == "RightLeft"
    ensures MirroredBoneName(name) == "RightRight"
    ensures MirroredBoneName(MirroredBoneName(name)) == "LeftRight" != name
  {
    RenamesFirstLeft(name);
    RenamesFirstRight(MirroredBoneName(name));
  }

  /** "RightLeft" contains "Left", so its first "Left" is replaced. */
  lemma RenamesFirstLeft(s: string)
    requires s == "RightLeft"
    ensures MirroredBoneName(s) == "RightRight"
  {
    forall j: nat | j < 5
      ensures !OccursAt(s, LEFT, j)
    {
      OccursAtHead(s, LEFT, j);
    }
    assert s[5..9] == LEFT;
    assert FirstOccurrence(s, LEFT, 5);
    IndexOfFirst(s, LEFT, 5);
    assert s[..5] + RIGHT + s[9..] == "RightRight";
  }

  /** "RightRight" contains no "Left", so its first "Right" is replaced. */
  lemma RenamesFirstRight(t: string)
    requires t == "RightRight"
    ensures MirroredBoneName(t) == "LeftRight"
  {
    forall j: nat
      ensures !OccursAt(t, LEFT, j)
    {
      OccursAtHead(t, LEFT, j);
    }
    assert t[0..5] == RIGHT;
    assert FirstOccurrence(t, RIGHT, 0);
    IndexOfFirst(t, RIGHT, 0);
    IndexOfSpec(t, LEFT);
    assert t[..0] + LEFT + t[5..] == "LeftRight";
  }
}
