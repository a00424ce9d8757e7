/** The backward string search that the path library was ported on top of. */
module V8 {
  import opened Wrappers

  /** `pattern` occurs in `subject` at (zero-based) position `i`. */
  ghost predicate OccursAt(subject: string, pattern: string, i: int) {
    0 <= i <= |subject| - |pattern| && subject[i..i + |pattern|] == pattern
  }

  /** `r` is the last occurrence that starts no later than `limit`, or -1 when there is none. */
  ghost predicate IsLastOccurrence(subject: string, pattern: string, limit: int, r: int) {
    && -1 <= r
    && (r != -1 ==> r <= limit && OccursAt(subject, pattern, r))
    && (forall i :: r < i <= limit ==> !OccursAt(subject, pattern, i))
  }

  /** Lua's `string.sub(s, i + 1, i + 1)`: the character at `i` as a string, or "" outside. */
  function CharAt(s: string, i: int): (r: string)
    requires 0 <= i
  {
    if i < |s| then [s[i]] else ""
  }

  lemma {:induction false} OccurrenceAgrees(subject: string, pattern: string, i: nat, j: nat)
    requires j < |pattern|
    ensures OccursAt(subject, pattern, i) ==> i + j < |subject| && subject[i + j] == pattern[j]
  {
    if OccursAt(subject, pattern, i) {
      assert subject[i..i + |pattern|][j] == subject[i + j];
    }
  }

  /** How far the pattern agrees with the text at a position where its first character is found. */
  method MatchRest(subject: string, pattern: string, i: nat) returns (j: int)
    requires CharAt(subject, i) == CharAt(pattern, 0)
    ensures j == |pattern| <==> pattern != "" && OccursAt(subject, pattern, i)
  {
    j := 1;
    while j < |pattern|
      invariant 1 <= j && (pattern != "" ==> j <= |pattern| && i + j <= |subject| && subject[i..i + j] == pattern[..j])
    {
      if CharAt(pattern, j) != CharAt(subject, i + j) {
        OccurrenceAgrees(subject, pattern, i, j);
        return;
      }
      assert subject[i..i + j + 1] == subject[i..i + j] + [subject[i + j]];
      j := j + 1;
    }
  }

  method StringMatchBackwards(subject: string, pattern: string, idx: int) returns (r: int)
    ensures pattern != "" ==> IsLastOccurrence(subject, pattern, idx, r)
    ensures pattern == "" ==> r == -1
  {
    var patternFirstChar := CharAt(pattern, 0);
    var i := idx;
    while i >= 0
      invariant -1 <= i || i == idx
      invariant i <= idx
      invariant pattern != "" ==> forall k :: i < k <= idx ==> !OccursAt(subject, pattern, k)
    {
      if CharAt(subject, i) == patternFirstChar {
        var j := MatchRest(subject, pattern, i);
        if j == |pattern| {
          return i;
        }
      } else if pattern != "" {
        OccurrenceAgrees(subject, pattern, i, 0);
      }
      i := i - 1;
    }
    return -1;
  }

  method StringLastIndexOf(sub: string, pat: string, index: int) returns (r: int)
    ensures pat != "" || index >= 0 ==> IsLastOccurrence(sub, pat, index, r)
    ensures pat == "" && index < 0 ==> r == index
  {
    var startIndex := index;
    if startIndex + |pat| > |sub| {
      startIndex := |sub| - |pat|;
    }
    if |pat| == 0 {
      return startIndex;
    }
    r := StringMatchBackwards(sub, pat, startIndex);
  }

  /** JavaScript's `sub.lastIndexOf(pat, position)`, position optional. */
  method StringPrototypeLastIndexOf(sub: string, pat: string, position: Option<int>) returns (r: int)
    ensures IsLastOccurrence(sub, pat,
              match position case None => |sub| case Some(p) => if p < 0 then 0 else p, r)
  {
    var index := |sub| - |pat|;
    if position.Some? {
      var p := position.value;
      if p < 0 {
        p := 0;
      }
      if p + |pat| < |sub| {
        index := p;
      }
    }
    if index < 0 {
      return -1;
    }
    r := StringLastIndexOf(sub, pat, index);
  }
}
