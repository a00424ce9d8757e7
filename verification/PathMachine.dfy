/** The one-pass character machine behind every normalizing path function. */
module PathMachine {
  import opened Wrappers
  import opened Sequences
  import opened Segments
  import V8

  /** How many dots the machine has counted in the current segment: -1 once another character was seen. */
  ghost function Dots(seg: string): (n: int)
    ensures -1 <= n <= |seg|
  {
    if seg == "" then 0
    else
      var n := Dots(seg[..|seg| - 1]);
      if seg[|seg| - 1] == '.' && n != -1 then n + 1 else -1
  }

  /** The counts that matter: one is ".", two is "..", any other belongs to neither. */
  lemma {:induction false} DotsMeaning(seg: string)
    ensures Dots(seg) == 0 <==> seg == ""
    ensures Dots(seg) == 1 <==> seg == "."
    ensures Dots(seg) == 2 <==> seg == ".."
  {
    if |seg| > 0 {
      DotsMeaning(seg[..|seg| - 1]);
      assert seg == seg[..|seg| - 1] + [seg[|seg| - 1]];
    }
  }

  /** Up to character `i` the machine has consumed the segments `done` and is inside the one after `lastSlash`. */
  ghost predicate Reading(path: string, i: int, lastSlash: int, dots: int, done: Segments, isSep: char -> bool) {
    && -1 <= lastSlash < i <= |path|
    && Split(path[..i], isSep) == done + [path[lastSlash + 1..i]]
    && dots == Dots(path[lastSlash + 1..i])
  }

  /** Reading one more character either ends the current segment or grows it. */
  lemma {:induction false} ReadCharacter(path: string, i: nat, lastSlash: int, dots: int, done: Segments,
                                         isSep: char -> bool)
    requires i < |path| && Reading(path, i, lastSlash, dots, done, isSep)
    ensures isSep(path[i]) ==> Reading(path, i + 1, i, 0, done + [path[lastSlash + 1..i]], isSep)
    ensures !isSep(path[i]) ==>
              Reading(path, i + 1, lastSlash, if path[i] == '.' && dots != -1 then dots + 1 else -1, done, isSep)
  {
    var s, seg := path[..i + 1], path[lastSlash + 1..i];
    assert s[..|s| - 1] == path[..i] && s[|s| - 1] == path[i];
    assert path[lastSlash + 1..i + 1] == seg + [path[i]];
    assert (seg + [path[i]])[..|seg|] == seg;
    assert path[i + 1..i + 1] == "";
  }

  /** At the end of the path, the segment being read is the last one. */
  lemma {:induction false} ReadAll(path: string, lastSlash: int, dots: int, done: Segments, allow: bool,
                                   isSep: char -> bool)
    requires Reading(path, |path|, lastSlash, dots, done, isSep)
    ensures done + [path[lastSlash + 1..|path|]] == Split(path, isSep)
    ensures path == "" || isSep(path[|path| - 1]) ==> Fold(Split(path, isSep), allow) == Fold(done, allow)
  {
    hide Split, Fold, Dots;
    var seg := path[lastSlash + 1..|path|];
    assert path[..|path|] == path;
    SplitIsPlain(path, isSep);
    assert Plain((done + [seg])[|done|], isSep);
    FoldSnoc(done, seg, allow);
  }

  /** What every stack the machine keeps looks like. */
  lemma {:induction false} KeptStack(path: string, done: Segments, seg: string, allow: bool, isSep: char -> bool)
    requires Split(path, isSep) == done + [seg] && !isSep('.')
    ensures Normal(Fold(done, allow), allow) && AllPlain(Fold(done, allow), isSep)
  {
    SplitIsPlain(path, isSep);
    assert forall k :: 0 <= k < |done| ==> done[k] == (done + [seg])[k];
    FoldNormal(done, allow);
    FoldPlain(done, allow, isSep);
  }

  lemma {:induction false} FoldSnoc(done: Segments, seg: string, allow: bool)
    ensures Fold(done + [seg], allow) == Push(Fold(done, allow), seg, allow)
  {
    assert (done + [seg])[..|done|] == done;
  }

  /** The length of the last segment, as `lastSegmentLength` tracks it. */
  ghost function LastLength(stack: Segments): (n: nat) {
    if stack == [] then 0 else |stack[|stack| - 1]|
  }

  /** `res` and `lastSegmentLength` describe this stack of segments. */
  ghost predicate Tracks(stack: Segments, sep: char, res: string, lastSegmentLength: int) {
    res == Join(stack, sep) && lastSegmentLength == LastLength(stack)
  }

  /** What the normalizing machine computes, at the level of segments. */
  ghost function Normalized(path: string, allowAboveRoot: bool, separator: char, isSep: char -> bool): (r: string) {
    Join(Fold(Split(path, isSep), allowAboveRoot), separator)
  }

  lemma {:induction false} OneCharacter(s: string, c: char, i: int)
    ensures V8.OccursAt(s, [c], i) <==> 0 <= i < |s| && s[i] == c
  {
    assert 0 <= i < |s| ==> s[i..i + 1] == [s[i]];
  }

  /** The last separator of a joined text is where its last segment begins. */
  lemma {:induction false} LastSeparator(stack: Segments, sep: char, isSep: char -> bool, r: int)
    requires stack != [] && AllPlain(stack, isSep) && isSep(sep)
    requires var s := Join(stack, sep); V8.IsLastOccurrence(s, [sep], |s|, r)
    ensures r == |Join(stack, sep)| - 1 - LastLength(stack)
    ensures if |stack| == 1 then r == -1 else r >= 0 && Join(stack, sep)[..r] == Join(stack[..|stack| - 1], sep)
  {
    var s, last := Join(stack, sep), stack[|stack| - 1];
    var before := |s| - 1 - |last|;
    assert s[before + 1..] == last;
    assert Plain(last, isSep);
    OneCharacter(s, sep, r);
    OneCharacter(s, sep, before);
    assert forall k :: before < k < |s| ==> s[k] == last[k - before - 1];
  }

  /** A short text is a single segment. */
  lemma {:induction false} ShortIsSingle(stack: Segments, allow: bool, sep: char)
    requires Normal(stack, allow)
    ensures stack == [] <==> Join(stack, sep) == ""
    ensures 0 < |Join(stack, sep)| <= 2 ==> |stack| == 1
  {
    if |stack| > 1 {
      assert stack[|stack| - 1] != "";
      ShortIsSingle(stack[..|stack| - 1], allow, sep);
    }
  }

  /** A kept last segment of length 2 that ends the text with two dots is "..". */
  lemma {:induction false} EndsWithDotDot(stack: Segments, sep: char)
    requires LastLength(stack) == 2
    requires var s := Join(stack, sep); |s| >= 2 && s[|s| - 1] == '.' && s[|s| - 2] == '.'
    ensures stack[|stack| - 1] == ".."
  {
    var s, last := Join(stack, sep), stack[|stack| - 1];
    assert s[|s| - 2..] == last;
    assert last[0] == s[|s| - 2] && last[1] == s[|s| - 1];
  }

  /** ".." after a name: the text is cut back to the previous separator, or emptied. */
  method DropLastSegment(res: string, separator: char, isSep: char -> bool, ghost stack: Segments)
    returns (res': string, lastSegmentLength: int)
    requires isSep(separator) && AllPlain(stack, isSep) && stack != []
    requires res == Join(stack, separator)
    ensures Tracks(stack[..|stack| - 1], separator, res', lastSegmentLength)
  {
    var lastSlashIndex := V8.StringPrototypeLastIndexOf(res, [separator], None);
    LastSeparator(stack, separator, isSep, lastSlashIndex);
    if lastSlashIndex == -1 {
      res' := "";
      lastSegmentLength := 0;
    } else {
      res' := Slice(res, 0, lastSlashIndex);
      var previous := V8.StringPrototypeLastIndexOf(res', [separator], None);
      LastSeparator(stack[..|stack| - 1], separator, isSep, previous);
      lastSegmentLength := |res'| - 1 - previous;
    }
  }

  /** A ".." segment: drops the last name kept, else is kept itself or ignored. */
  method StepBack(res: string, lastSegmentLength: int, allowAboveRoot: bool, separator: char, isSep: char -> bool,
                  ghost stack: Segments)
    returns (res': string, lastSegmentLength': int)
    requires isSep(separator) && AllPlain(stack, isSep) && Normal(stack, allowAboveRoot)
    requires Tracks(stack, separator, res, lastSegmentLength)
    ensures Tracks(Push(stack, "..", allowAboveRoot), separator, res', lastSegmentLength')
  {
    res', lastSegmentLength' := res, lastSegmentLength;
    ShortIsSingle(stack, allowAboveRoot, separator);
    if |res| < 2 || lastSegmentLength != 2 || res[|res| - 1] != '.' || res[|res| - 2] != '.' {
      if |res| > 2 {
        res', lastSegmentLength' := DropLastSegment(res, separator, isSep, stack);
        return;
      } else if |res| != 0 {
        res' := "";
        lastSegmentLength' := 0;
        return;
      }
    } else {
      EndsWithDotDot(stack, separator);
    }
    if allowAboveRoot {
      res' := res + (if |res| > 0 then [separator] + ".." else "..");
      lastSegmentLength' := 2;
    }
  }

  /** Any other segment is appended, behind a separator unless it is the first. */
  method AppendSegment(res: string, seg: string, separator: char, ghost stack: Segments)
    returns (res': string)
    requires res == Join(stack, separator) && (res == "" ==> stack == [])
    ensures res' == Join(stack + [seg], separator)
  {
    if |res| > 0 {
      res' := res + [separator] + seg;
      assert (stack + [seg])[..|stack|] == stack;
    } else {
      res' := seg;
    }
  }

  /** What the machine does when it meets the separator that ends the segment it was reading. */
  method EndSegment(path: string, i: nat, lastSlash: int, dots: int, res: string, lastSegmentLength: int,
                    allowAboveRoot: bool, separator: char, isSep: char -> bool, ghost done: Segments)
    returns (res': string, lastSegmentLength': int)
    requires isSep(separator) && !isSep('.')
    requires Reading(path, i, lastSlash, dots, done, isSep)
    requires Tracks(Fold(done, allowAboveRoot), separator, res, lastSegmentLength)
    ensures Tracks(Fold(done + [path[lastSlash + 1..i]], allowAboveRoot), separator, res', lastSegmentLength')
  {
    ghost var seg, stack := path[lastSlash + 1..i], Fold(done, allowAboveRoot);
    res', lastSegmentLength' := res, lastSegmentLength;
    DotsMeaning(seg);
    FoldSnoc(done, seg, allowAboveRoot);
    KeptStack(path[..i], done, seg, allowAboveRoot, isSep);
    if lastSlash == i - 1 || dots == 1 {
      // empty and "." segments leave everything as it is
    } else if dots == 2 {
      res', lastSegmentLength' := StepBack(res, lastSegmentLength, allowAboveRoot, separator, isSep, stack);
    } else {
      ShortIsSingle(stack, allowAboveRoot, separator);
      res' := AppendSegment(res, Slice(path, lastSlash + 1, i), separator, stack);
      lastSegmentLength' := i - lastSlash - 1;
    }
  }

  /** One pass over the characters computes what splitting into segments, folding and joining computes. */
  method NormalizeString(path: string, allowAboveRoot: bool, separator: char, isSep: char -> bool) returns (res: string)
    requires isSep('/') && isSep(separator) && !isSep('.')
    ensures res == Normalized(path, allowAboveRoot, separator, isSep)
  {
    res := "";
    var lastSegmentLength := 0;
    var lastSlash := -1;
    var dots := 0;
    var code := 0 as char;

    ghost var done: Segments := [];  // the segments consumed so far
    var i := 0;
    while i <= |path|
      invariant 0 <= i <= |path| + 1
      invariant 0 < i <= |path| ==> code == path[i - 1]
      invariant i <= |path| ==> Reading(path, i, lastSlash, dots, done, isSep)
      invariant i == |path| + 1 ==> done == Split(path, isSep)
      invariant Tracks(Fold(done, allowAboveRoot), separator, res, lastSegmentLength)
    {
      if i < |path| {
        code := path[i];
        ReadCharacter(path, i, lastSlash, dots, done, isSep);
      } else {
        ReadAll(path, lastSlash, dots, done, allowAboveRoot, isSep);
        if isSep(code) {
          break;
        }
        code := '/';
      }

      if isSep(code) {
        res, lastSegmentLength := EndSegment(path, i, lastSlash, dots, res, lastSegmentLength,
                                             allowAboveRoot, separator, isSep, done);
        done := done + [path[lastSlash + 1..i]];
        lastSlash := i;
        dots := 0;
      } else if code == '.' && dots != -1 {
        dots := dots + 1;
      } else {
        dots := -1;
      }
      i := i + 1;
    }
  }
}
