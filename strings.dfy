/**
 * The two JavaScript string operations the mirror engine relies on:
 * `String.prototype.includes` and `String.prototype.replace` with a string
 * pattern, which replaces only the FIRST occurrence.
 */
module Strings {
  import opened Wrappers

  /** `sub` occurs in `s` starting at index `i`. */
  predicate OccursAt(s: string, sub: string, i: nat)
  {
    i + |sub| <= |s| && s[i..i + |sub|] == sub
  }

  /** `i` is the first index at which `sub` occurs in `s`. */
  predicate FirstOccurrence(s: string, sub: string, i: nat)
  {
    OccursAt(s, sub, i) && forall j: nat :: j < i ==> !OccursAt(s, sub, j)
  }

  /** The first index at or after `from` at which `sub` occurs, if any. */
  function IndexOfFrom(s: string, sub: string, from: nat): (r: Option<nat>)
    ensures r.Some? ==> r.value + |sub| <= |s|
    decreases |s| - from
  {
    if from + |sub| > |s| then None
    else if s[from..from + |sub|] == sub then Some(from)
    else IndexOfFrom(s, sub, from + 1)
  }

  /** `s.indexOf(sub)`, with "not found" as None. */
  function IndexOf(s: string, sub: string): (r: Option<nat>)
    ensures r.Some? ==> r.value + |sub| <= |s|
  {
    IndexOfFrom(s, sub, 0)
  }

  /** `s.includes(sub)`. */
  function Includes(s: string, sub: string): bool
  {
    IndexOf(s, sub).Some?
  }

  /**
   * `s.replace(pattern, replacement)` for a string pattern: only the first
   * occurrence is replaced. JavaScript also expands `$&`, `$$`, `$``, `$'`
   * in the replacement; this is exact for replacements without `$`, such as
   * "Left" and "Right".
   */
  function ReplaceFirst(s: string, pattern: string, replacement: string): string
  {
    match IndexOf(s, pattern)
    case None => s
    case Some(i) => s[..i] + replacement + s[i + |pattern|..]
  }

  /** The search from `from` finds the first occurrence at or after `from`, or reports that there is none. */
  lemma {:induction false} IndexOfFromSpec(s: string, sub: string, from: nat)
    ensures IndexOfFrom(s, sub, from).Some? ==>
      var i := IndexOfFrom(s, sub, from).value;
      from <= i && OccursAt(s, sub, i) && forall j: nat :: from <= j < i ==> !OccursAt(s, sub, j)
    ensures IndexOfFrom(s, sub, from).None? ==> forall j: nat :: from <= j ==> !OccursAt(s, sub, j)
    decreases |s| - from
  {
    if from + |sub| <= |s| && s[from..from + |sub|] != sub {
      IndexOfFromSpec(s, sub, from + 1);
    }
  }

  /** `indexOf` returns the first occurrence, and "not found" only when there is none. */
  lemma IndexOfSpec(s: string, sub: string)
    ensures IndexOf(s, sub).Some? ==> FirstOccurrence(s, sub, IndexOf(s, sub).value)
    ensures IndexOf(s, sub).None? ==> forall j: nat :: !OccursAt(s, sub, j)
  {
    IndexOfFromSpec(s, sub, 0);
  }

  /** `indexOf` reports the first occurrence wherever there is one. */
  lemma IndexOfFirst(s: string, sub: string, i: nat)
    requires FirstOccurrence(s, sub, i)
    ensures IndexOf(s, sub) == Some(i)
  {
    IndexOfSpec(s, sub);
    if IndexOf(s, sub).Some? {
      var k := IndexOf(s, sub).value;
      assert !(k < i) && !(i < k);
    }
  }

  /** `includes` holds exactly when `sub` occurs somewhere in `s`. */
  lemma IncludesSpec(s: string, sub: string)
    ensures Includes(s, sub) <==> exists j: nat :: OccursAt(s, sub, j)
  {
    IndexOfSpec(s, sub);
  }

  /** `replace` leaves a string without the pattern alone, and otherwise rewrites exactly its first occurrence. */
  lemma ReplaceFirstSpec(s: string, pattern: string, replacement: string)
    ensures (forall j: nat :: !OccursAt(s, pattern, j)) ==> ReplaceFirst(s, pattern, replacement) == s
    ensures forall i: nat :: FirstOccurrence(s, pattern, i) ==>
      ReplaceFirst(s, pattern, replacement) == s[..i] + replacement + s[i + |pattern|..]
  {
    IndexOfSpec(s, pattern);
  }

  /** An occurrence of a non-empty `sub` starts with `sub`'s first character. */
  lemma OccursAtHead(s: string, sub: string, i: nat)
    ensures OccursAt(s, sub, i) && |sub| > 0 ==> s[i] == sub[0]
  {
    if OccursAt(s, sub, i) && |sub| > 0 {
      assert s[i..i + |sub|][0] == s[i];
    }
  }

  /**
   * Where an occurrence of `sub` can sit in `p + m + q` when no character of
   * `m` after its first equals the first character of `sub` and vice versa:
   * entirely inside `p`, exactly at the start of `m`, or entirely inside `q`.
   */
  lemma OccurrenceLocation(p: string, m: string, q: string, sub: string, j: nat)
    requires |sub| > 0 && |m| > 0
    requires forall k :: 1 <= k < |m| ==> m[k] != sub[0]
    requires forall k :: 1 <= k < |sub| ==> sub[k] != m[0]
    ensures OccursAt(p + m + q, sub, j) ==>
      OccursAt(p, sub, j) || j == |p| || (j >= |p| + |m| && OccursAt(q, sub, j - |p| - |m|))
  {
    var t := p + m + q;
    if OccursAt(t, sub, j) {
      assert t[j..j + |sub|] == sub;
      // an occurrence cannot straddle the start of `m`, nor start inside it
      assert forall k :: j <= k < j + |sub| ==> t[k] == sub[k - j];
      assert forall k :: |p| <= k < |p| + |m| ==> t[k] == m[k - |p|];
      assert |p| < |t| && t[|p|] == m[0];
      assert t[j] == sub[0];
      if j + |sub| <= |p| {
        assert t[j..j + |sub|] == p[j..j + |sub|];
      } else if j >= |p| + |m| {
        var d := j - |p| - |m|;
        assert t[j..j + |sub|] == q[d..d + |sub|];
      }
    }
  }
}
