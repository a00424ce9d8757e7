/** `posix.dirname`, `posix.basename` and `posix.extname`: backward scans over the characters of a path. */
module PosixNames {
  import opened Wrappers
  import opened Sequences
  import opened Segments
  import opened PathMeaning
  import opened PosixResolve

  // ---- The last segment of a path

  /** Where the text path[..k] ends when its trailing separators are left out. */
  ghost function EndBefore(path: string, k: nat): (e: nat)
    requires k <= |path|
    ensures e <= k
  {
    if k == 0 then 0 else if path[k - 1] == '/' then EndBefore(path, k - 1) else k
  }

  /** Where the segment that ends at position k starts. */
  ghost function StartBefore(path: string, k: nat): (s: nat)
    requires k <= |path|
    ensures s <= k
  {
    if k == 0 || path[k - 1] == '/' then k else StartBefore(path, k - 1)
  }

  ghost function BaseEnd(path: string): (e: nat)
    ensures e <= |path|
  {
    EndBefore(path, |path|)
  }

  ghost function BaseStart(path: string): (s: nat)
    ensures s <= BaseEnd(path)
  {
    StartBefore(path, BaseEnd(path))
  }

  /** The last segment that is not empty, or "" in a path that has none. */
  ghost function BaseOf(path: string): (r: string) {
    path[BaseStart(path)..BaseEnd(path)]
  }

  lemma {:induction false} EndBeforeFacts(path: string, k: nat)
    requires k <= |path|
    ensures var e := EndBefore(path, k); (e == 0 || path[e - 1] != '/') && forall i :: e <= i < k ==> path[i] == '/'
  {
    if k > 0 { EndBeforeFacts(path, k - 1); }
  }

  lemma {:induction false} StartBeforeFacts(path: string, k: nat)
    requires k <= |path|
    ensures var s := StartBefore(path, k); (s == 0 || path[s - 1] == '/') && forall i :: s <= i < k ==> path[i] != '/'
    ensures k > 0 && path[k - 1] != '/' ==> StartBefore(path, k) < k
  {
    if k > 0 { StartBeforeFacts(path, k - 1); }
  }

  /** What the base name is: a separator-free piece, between a separator (or the start) and only separators. */
  lemma {:induction false} BaseIsLastSegment(path: string)
    ensures Plain(BaseOf(path), IsSeparator)
    ensures BaseStart(path) == 0 || path[BaseStart(path) - 1] == '/'
    ensures forall i :: BaseEnd(path) <= i < |path| ==> path[i] == '/'
    ensures BaseOf(path) == "" <==> BaseEnd(path) == 0
  {
    EndBeforeFacts(path, |path|);
    StartBeforeFacts(path, BaseEnd(path));
  }

  // ---- dirname

  ghost function DirnameOf(path: string): (r: string) {
    var start := BaseStart(path);
    if path == "" then "."
    else if start <= 1 then if IsAbsolute(path) then "/" else "."
    else if start == 2 && IsAbsolute(path) then "//"
    else path[..start - 1]
  }

  method Dirname(path: string) returns (r: string)
    ensures r == DirnameOf(path)
  {
    if |path| == 0 {
      return ".";
    }
    var hasRoot := path[0] == '/';
    var endIndex := -1;
    var matchedSlash := true;
    var i := |path| - 1;
    while i >= 1
      invariant 0 <= i < |path| && endIndex == -1
      invariant matchedSlash ==> BaseEnd(path) == EndBefore(path, i + 1)
      invariant !matchedSlash ==> BaseStart(path) == StartBefore(path, i + 1)
    {
      if path[i] == '/' {
        if !matchedSlash {
          endIndex := i;
          break;
        }
      } else {
        matchedSlash := false;
      }
      i := i - 1;
    }
    if endIndex == -1 {
      return if hasRoot then "/" else ".";
    }
    if hasRoot && endIndex == 1 {
      return "//";
    }
    return Slice(path, 0, endIndex);
  }

  lemma {:induction false} StepsWithoutTrailing(path: string, e: nat)
    requires e <= |path| && forall i :: e <= i < |path| ==> path[i] == '/'
    ensures Steps(path) == Steps(path[..e])
  {
    if e == |path| {
      assert path[..e] == path;
    } else {
      var init := path[..|path| - 1];
      assert path == init + ['/'] + "";
      assert init[..e] == path[..e];
      StepsWithoutTrailing(init, e);
      StepsAt(init, "");
      NoSteps();
    }
  }

  /** The part before the base name, without the separator between them. */
  lemma {:induction false} StepsBeforeBase(path: string)
    requires BaseStart(path) > 0
    ensures Steps(DirnameOf(path)) == Steps(path[..BaseStart(path) - 1])
  {
    hide Steps;
    BaseIsLastSegment(path);
    NoSteps();
    StepsAt("/", "");
    assert "/" + ['/'] + "" == "//";
    assert path[..0] == "" && (|path| >= 1 && IsAbsolute(path) ==> path[..1] == "/");
  }

  /** A path is its directory name, then its base name. */
  lemma {:induction false} DirnameThenBasename(path: string)
    ensures Steps(path) == Steps(DirnameOf(path)) + Steps(BaseOf(path))
    ensures IsAbsolute(DirnameOf(path)) == IsAbsolute(path) && !IsAbsolute(BaseOf(path))
  {
    hide Steps;
    var s, e, base := BaseStart(path), BaseEnd(path), BaseOf(path);
    BaseIsLastSegment(path);
    StepsWithoutTrailing(path, e);
    assert !IsAbsolute(base);
    if s == 0 {
      NoSteps();
      assert path[..e] == base;
      assert IsAbsolute(path) ==> base == "";
    } else {
      StepsBeforeBase(path);
      assert path[..e] == path[..s - 1] + ['/'] + base;
      StepsAt(path[..s - 1], base);
    }
  }

  /** Resolving the two parts resolves the whole, from every directory. */
  lemma {:induction false} ResolveDirnameBasename(dir: Segments, path: string)
    ensures CdAll(dir, [DirnameOf(path), BaseOf(path)]) == Cd(dir, path)
  {
    var d, b := DirnameOf(path), BaseOf(path);
    var from := if IsAbsolute(path) then [] else dir;
    DirnameThenBasename(path);
    WalkEssential(from, Split(path, IsSeparator));
    WalkEssential(from, Split(d, IsSeparator));
    WalkEssential(Cd(dir, d), Split(b, IsSeparator));
    WalkAppend(from, Steps(d), Steps(b));
    assert CdAll(dir, [d, b]) == CdAll(Cd(dir, d), [b]) == Cd(Cd(dir, d), b);
  }

  /** The text comes back: directory name, one separator, base name, and separators; except where the text before the
      base name is too short for that. */
  lemma {:induction false} DirnameText(path: string)
    ensures var before := path[..BaseStart(path)];
            if |before| <= 1 then DirnameOf(path) == if IsAbsolute(path) then "/" else "."
            else if before == "//" then DirnameOf(path) == "//"
            else && path == DirnameOf(path) + "/" + BaseOf(path) + path[BaseEnd(path)..]
                 && forall i :: BaseEnd(path) <= i < |path| ==> path[i] == '/'
  {
    var s, e := BaseStart(path), BaseEnd(path);
    BaseIsLastSegment(path);
    if s >= 2 {
      assert path[..s] == path[..s - 1] + "/";
      assert s == 2 ==> path[..s] == [path[0], path[1]];
      assert path == path[..s - 1] + "/" + path[s..e] + path[e..];
    }
  }

  // ---- extname

  /** The last dot of s[..k], or -1. */
  ghost function LastDot(s: string, k: nat): (d: int)
    requires k <= |s|
    ensures -1 <= d < k && (d >= 0 ==> s[d] == '.') && forall i :: d < i < k ==> s[i] != '.'
  {
    if k == 0 then -1 else if s[k - 1] == '.' then k - 1 else LastDot(s, k - 1)
  }

  /** From the last dot on, unless that dot comes first or the name is "..". */
  ghost function ExtensionOf(base: string): (r: string) {
    var d := LastDot(base, |base|);
    if d <= 0 || base == ".." then "" else base[d..]
  }

  /** There is an extension exactly when a dot follows the first character, except in ".."; it starts with its
      only dot and is a proper suffix of the name. */
  lemma {:induction false} ExtensionMeaning(base: string)
    ensures var ext := ExtensionOf(base);
            && (ext != "" <==> base != ".." && exists i :: 0 < i < |base| && base[i] == '.')
            && (ext != "" ==> ext[0] == '.' && '.' !in ext[1..] && |ext| < |base| && IsSuffix(ext, base))
  {
    var ext, d := ExtensionOf(base), LastDot(base, |base|);
    if ext != "" {
      assert base[|base| - |ext|..] == ext;
      assert forall i :: 0 < i < |ext| ==> ext[i] == base[d + i];
    }
  }

  method Extname(path: string) returns (r: string)
    ensures r == ExtensionOf(BaseOf(path))
  {
    var startDot := -1;
    var startPart := 0;
    var endIndex := -1;
    var matchedSlash := true;
    var preDotState := 0;
    var i := |path| - 1;
    while i >= 0
      invariant -1 <= i < |path|
      invariant startPart == 0
      invariant matchedSlash <==> endIndex == -1
      invariant matchedSlash ==> BaseEnd(path) == EndBefore(path, i + 1) && startDot == -1 && preDotState == 0
      invariant !matchedSlash ==> i + 1 < endIndex == BaseEnd(path) && BaseStart(path) == StartBefore(path, i + 1)
      invariant !matchedSlash ==> DotState(path, i + 1, endIndex, startDot, preDotState)
    {
      var code := path[i];
      if code == '/' {
        if !matchedSlash {
          startPart := i + 1;
          break;
        }
      } else {
        if endIndex == -1 {
          matchedSlash := false;
          endIndex := i + 1;
        }
        if code == '.' {
          if startDot == -1 {
            startDot := i;
          } else if preDotState != 1 {
            preDotState := 1;
          }
        } else if startDot != -1 {
          preDotState := -1;
        }
      }
      i := i - 1;
    }
    if endIndex == -1 {
      assert BaseOf(path) == "";
      return "";
    }
    assert startPart == BaseStart(path);
    DotStateMeaning(path, startPart, endIndex, startDot, preDotState);
    if startDot == -1 || endIndex == -1 || preDotState == 0
       || (preDotState == 1 && startDot == endIndex - 1 && startDot == startPart + 1) {
      return "";
    }
    return Slice(path, startDot, endIndex);
  }

  /** What `startDot` and `preDotState` say about the part path[k..end] of the base name read so far. */
  ghost predicate DotState(path: string, k: int, end: int, startDot: int, preDotState: int) {
    && 0 <= k < end <= |path| && -1 <= startDot < end
    && (startDot == -1 ==> preDotState == 0 && forall i :: k <= i < end ==> path[i] != '.')
    && (startDot != -1 ==>
          && k <= startDot && path[startDot] == '.' && (forall i :: startDot < i < end ==> path[i] != '.')
          && preDotState == if k == startDot then 0 else if path[k] == '.' then 1 else -1)
  }

  lemma {:induction false} DotStateMeaning(path: string, start: int, end: int, startDot: int, preDotState: int)
    requires DotState(path, start, end, startDot, preDotState)
    ensures var base := path[start..end];
            ExtensionOf(base) ==
              if startDot == -1 || preDotState == 0
                 || (preDotState == 1 && startDot == end - 1 && startDot == start + 1)
              then "" else path[startDot..end]
  {
    var base := path[start..end];
    var d := LastDot(base, |base|);
    assert forall i :: start <= i < end ==> path[i] == base[i - start];
    assert startDot != -1 ==> d == startDot - start;
    assert startDot != -1 ==> base[startDot - start..] == path[startDot..end];
    assert |base| == 2 ==> base == [base[0], base[1]];
  }

  // ---- basename

  ghost predicate IsSuffix(a: string, b: string) {
    |a| <= |b| && b[|b| - |a|..] == a
  }

  /** The base name, without `ext` if it ends in it. Where `ext` goes on to the left of the whole
      base name, trailing separators of the path are left on. */
  ghost function BasenameOf(path: string, ext: string): (r: string) {
    var base := BaseOf(path);
    if ext == "" || |ext| > |path| then base
    else if ext == path then ""
    else if IsSuffix(ext, base) && ext != base then base[..|base| - |ext|]
    else if IsSuffix(base, ext) && ext != base then path[BaseStart(path)..]
    else base
  }

  /** What `extIdx` and `endIndex` say when the part `cur` of the base name, which ends at `end`, has been read. */
  ghost predicate MatchState(cur: string, ext: string, end: int, extIdx: int, endIndex: int) {
    && -1 <= extIdx < |ext|
    && if extIdx >= 0 then IsSuffix(cur, ext) && extIdx == |ext| - 1 - |cur| && endIndex == -1
       else if endIndex == end then !IsSuffix(cur, ext) && !IsSuffix(ext, cur)
       else IsSuffix(ext, cur) && endIndex == end - |ext|
  }

  /** Texts extended to the left: one is the suffix of the other as before, if the new character fits. */
  lemma {:induction false} SuffixGrows(c: char, cur: string, ext: string)
    ensures IsSuffix(ext, cur) ==> IsSuffix(ext, [c] + cur)
    ensures IsSuffix([c] + cur, ext) <==> IsSuffix(cur, ext) && |cur| < |ext| && ext[|ext| - 1 - |cur|] == c
    ensures IsSuffix(ext, [c] + cur) ==> IsSuffix(ext, cur) || ext == [c] + cur
  {
    var more := [c] + cur;
    if |ext| <= |cur| {
      assert more[|more| - |ext|..] == cur[|cur| - |ext|..];
    } else {
      var k := |ext| - 1 - |cur|;
      assert ext[k..] == [ext[k]] + ext[k + 1..];
      assert more[0..] == more && more[1..] == cur;
    }
  }

  lemma {:induction false} MatchCharacter(c: char, cur: string, ext: string, end: int, extIdx: int, endIndex: int)
    requires MatchState(cur, ext, end, extIdx, endIndex) && ext != ""
    ensures extIdx == -1 ==> MatchState([c] + cur, ext, end, -1, endIndex)
    ensures extIdx >= 0 && c != ext[extIdx] ==> MatchState([c] + cur, ext, end, -1, end)
    ensures extIdx >= 0 && c == ext[extIdx] ==>
              MatchState([c] + cur, ext, end, extIdx - 1, if extIdx == 0 then end - 1 - |cur| else -1)
  {
    SuffixGrows(c, cur, ext);
    assert ext[0..] == ext && ([c] + cur)[0..] == [c] + cur;
    assert ([c] + cur)[|cur| + 1 - |cur|..] == cur;
  }

  lemma {:induction false} SuffixBothWays(a: string, b: string)
    requires IsSuffix(a, b) && IsSuffix(b, a)
    ensures a == b
  {
    assert b[0..] == b;
  }

  /** What the two comparisons after the loop make of it. */
  lemma {:induction false} MatchOutcome(path: string, ext: string, extIdx: int, endIndex: int)
    requires 0 < |ext| <= |path| && ext != path
    requires BaseEnd(path) > 0 && MatchState(BaseOf(path), ext, BaseEnd(path), extIdx, endIndex)
    ensures endIndex == -1 || BaseStart(path) <= endIndex <= BaseEnd(path)
    ensures BasenameOf(path, ext) ==
              path[BaseStart(path)..if endIndex == BaseStart(path) then BaseEnd(path)
                                    else if endIndex == -1 then |path| else endIndex]
  {
    var s, e, base := BaseStart(path), BaseEnd(path), BaseOf(path);
    BaseIsLastSegment(path);
    if IsSuffix(ext, base) {
      if IsSuffix(base, ext) { SuffixBothWays(base, ext); }
      assert base[..|base| - |ext|] == path[s..e - |ext|];
      assert |base| == |ext| ==> base[0..] == base;
    }
  }

  lemma {:induction false} NoExtensionToTry(path: string, ext: string)
    ensures ext == "" || |ext| > |path| ==> BasenameOf(path, ext) == BaseOf(path)
    ensures ext == path != "" ==> BasenameOf(path, ext) == ""
  {
  }

  method Basename(path: string, ext: Option<string>) returns (r: string)
    ensures r == BasenameOf(path, if ext.Some? then ext.value else "")
  {
    hide BasenameOf;
    NoExtensionToTry(path, if ext.Some? then ext.value else "");
    if ext.Some? && 0 < |ext.value| <= |path| {
      if ext.value == path {
        return "";
      }
      r := StripExtension(path, ext.value);
      return;
    }
    var start := 0;
    var endIndex := -1;
    var matchedSlash := true;
    var i := |path| - 1;
    while i >= 0
      invariant -1 <= i < |path| && start == 0
      invariant matchedSlash <==> endIndex == -1
      invariant matchedSlash ==> BaseEnd(path) == EndBefore(path, i + 1)
      invariant !matchedSlash ==> endIndex == BaseEnd(path) && BaseStart(path) == StartBefore(path, i + 1)
    {
      if path[i] == '/' {
        if !matchedSlash {
          start := i + 1;
          break;
        }
      } else if endIndex == -1 {
        matchedSlash := false;
        endIndex := i + 1;
      }
      i := i - 1;
    }
    if endIndex == -1 {
      assert BaseOf(path) == "";
      return "";
    }
    return Slice(path, start, endIndex);
  }

  /** What one more character of the base name does to the two indices of the comparison with the extension. */
  method TryCharacter(code: char, i: int, ext: string, end: int, extIdx: int, endIndex: int, ghost cur: string)
    returns (extIdx': int, endIndex': int)
    requires ext != "" && MatchState(cur, ext, end, extIdx, endIndex) && i == end - |cur| - 1
    ensures MatchState([code] + cur, ext, end, extIdx', endIndex')
  {
    MatchCharacter(code, cur, ext, end, extIdx, endIndex);
    extIdx', endIndex' := extIdx, endIndex;
    if extIdx >= 0 {
      if code == ext[extIdx] {
        extIdx' := extIdx - 1;
        if extIdx' == -1 {
          endIndex' := i;
        }
      } else {
        extIdx' := -1;
        endIndex' := end;
      }
    }
  }

  lemma {:induction false} NothingMatched(ext: string, end: int)
    requires ext != ""
    ensures MatchState("", ext, end, |ext| - 1, -1)
  {
    assert ext[|ext|..] == "";
  }

  /** The state after the base name has been read from its end down to position k. */
  ghost predicate ReadingBase(path: string, ext: string, k: int, end: int, extIdx: int, endIndex: int) {
    && 0 <= k < end == BaseEnd(path) && BaseStart(path) == StartBefore(path, k)
    && MatchState(path[k..end], ext, end, extIdx, endIndex)
  }

  /** Where the base name starts and ends (-1: there is none), and where the comparison says it should end. */
  method ReadBase(path: string, ext: string)
    returns (start: int, firstNonSlashEnd: int, endIndex: int, ghost extIdx: int)
    requires ext != ""
    ensures firstNonSlashEnd == -1 ==> BaseEnd(path) == 0 && start == 0 && endIndex == -1
    ensures firstNonSlashEnd != -1 ==>
              && start == BaseStart(path) && firstNonSlashEnd == BaseEnd(path) > 0
              && MatchState(BaseOf(path), ext, BaseEnd(path), extIdx, endIndex)
  {
    hide MatchState, IsSuffix;
    start, firstNonSlashEnd, endIndex := 0, -1, -1;
    var matchedSlash := true;
    var index := |ext| - 1;
    extIdx := index;
    var i := |path| - 1;
    while i >= 0
      invariant -1 <= i < |path| && start == 0 && extIdx == index
      invariant matchedSlash <==> firstNonSlashEnd == -1
      invariant matchedSlash ==> BaseEnd(path) == EndBefore(path, i + 1) && index == |ext| - 1 && endIndex == -1
      invariant !matchedSlash ==> ReadingBase(path, ext, i + 1, firstNonSlashEnd, index, endIndex)
    {
      var code := path[i];
      if code == '/' {
        if !matchedSlash {
          start := i + 1;
          break;
        }
      } else {
        if firstNonSlashEnd == -1 {
          matchedSlash := false;
          firstNonSlashEnd := i + 1;
          NothingMatched(ext, i + 1);
          assert path[i + 1..i + 1] == "";
        }
        ghost var cur := path[i + 1..firstNonSlashEnd];
        index, endIndex := TryCharacter(code, i, ext, firstNonSlashEnd, index, endIndex, cur);
        extIdx := index;
        assert path[i..firstNonSlashEnd] == [code] + cur;
      }
      i := i - 1;
    }
  }

  /** The branch of `basename` that is given an extension to try. */
  method StripExtension(path: string, ext: string) returns (r: string)
    requires 0 < |ext| <= |path| && ext != path
    ensures r == BasenameOf(path, ext)
  {
    hide BasenameOf, MatchState, IsSuffix, EndBefore, StartBefore;
    var start, firstNonSlashEnd, endIndex;
    ghost var extIdx;
    start, firstNonSlashEnd, endIndex, extIdx := ReadBase(path, ext);
    if firstNonSlashEnd == -1 {
      OnlySeparators(path, ext);
    } else {
      MatchOutcome(path, ext, extIdx, endIndex);
    }
    if start == endIndex {
      endIndex := firstNonSlashEnd;
    } else if endIndex == -1 {
      endIndex := |path|;
    }
    return Slice(path, start, endIndex);
  }

  lemma {:induction false} OnlySeparators(path: string, ext: string)
    requires BaseEnd(path) == 0 && 0 < |ext| <= |path| && ext != path
    ensures BasenameOf(path, ext) == path[0..|path|]
  {
    assert ext[|ext|..] == "";
  }

  /** What is cut off is the extension: exactly if the base name ends in it and is more than that, and the extension
      is not the whole path. Otherwise the base name stays, unless the extension is the whole path; and separators
      that follow it stay only as `BasenameKeepsSeparators` says. */
  lemma {:induction false} BasenameMeaning(path: string, ext: string)
    ensures var r, base := BasenameOf(path, ext), BaseOf(path);
            if ext != "" && ext == path then r == ""
            else if ext != "" && IsSuffix(ext, base) && ext != base then r + ext == base
            else r == base || r == base + path[BaseEnd(path)..]
    ensures ext == "" ==> BasenameOf(path, ext) == BaseOf(path)
  {
    var s, e, base := BaseStart(path), BaseEnd(path), BaseOf(path);
    assert path[s..] == base + path[e..];
    if IsSuffix(ext, base) {
      assert base[..|base| - |ext|] + base[|base| - |ext|..] == base;
    }
  }

  /** Splitting off the extension and putting it back gives the base name. */
  lemma {:induction false} ExtensionRoundTrip(path: string)
    ensures var ext := ExtensionOf(BaseOf(path));
            BasenameOf(path, ext) + ext == BaseOf(path)
  {
    var base := BaseOf(path);
    var ext := ExtensionOf(base);
    if ext != "" {
      var d := LastDot(base, |base|);
      assert base[|base| - |ext|..] == ext;
      assert base == base[..d] + base[d..];
      assert |ext| < |base| <= |path|;
    }
  }

  /** A base name can come back with separators in it: exactly when the path ends in one and the
      extension, no longer than the path, goes on to the left of the whole base name. */
  lemma {:induction false} BasenameKeepsSeparators(path: string, ext: string)
    ensures !Plain(BasenameOf(path, ext), IsSeparator) <==>
              && BaseEnd(path) < |path| && 0 < |ext| <= |path| && ext != path
              && IsSuffix(BaseOf(path), ext) && ext != BaseOf(path)
  {
    var s, e, base := BaseStart(path), BaseEnd(path), BaseOf(path);
    BaseIsLastSegment(path);
    var whole := path[s..];
    if e < |path| {
      assert whole[e - s] == path[e] == '/';
    } else {
      assert whole == base;
    }
    if IsSuffix(ext, base) && IsSuffix(base, ext) { SuffixBothWays(ext, base); }
  }

  lemma {:induction false} BasenameKeepsSeparatorsExample()
    ensures BasenameOf("a/", "ba") == "a/" && BaseOf("a/") == "a"
  {
    assert BaseEnd("a/") == 1 by { assert EndBefore("a/", 1) == 1; }
    assert BaseStart("a/") == 0 by { assert StartBefore("a/", 0) == 0; }
    assert "ba"[1..] == "a" && "a/"[0..1] == "a" && "a/"[0..] == "a/";
  }

  /** `resolve(dirname(p), basename(p))` and `resolve(p)` are the same path. */
  method ResolveParts(path: string, cwd: string) returns (parts: string, whole: string)
    requires IsAbsolute(cwd)
    ensures parts == whole == PathOf(Target(cwd, [path]))
  {
    var dir := Dirname(path);
    var base := Basename(path, None);
    var r := Resolve([dir, base], cwd);
    parts := r.value;
    r := Resolve([path], cwd);
    whole := r.value;
    ResolveDirnameBasename(Cd([], cwd), path);
    assert CdAll(Cd([], cwd), [path]) == Cd(Cd([], cwd), path);
  }

  /** `basename(p, extname(p)) .. extname(p)` is `basename(p)`. */
  method JoinExtension(path: string) returns (joined: string, base: string)
    ensures joined == base == BaseOf(path)
  {
    var ext := Extname(path);
    var stem := Basename(path, Some(ext));
    ExtensionRoundTrip(path);
    joined := stem + ext;
    base := Basename(path, None);
  }
}
