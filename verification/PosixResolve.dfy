/** `posix.normalize` and `posix.resolve`. The working directory is a parameter. */
module PosixResolve {
  import opened Wrappers
  import opened Sequences
  import opened Segments
  import opened PathMachine
  import opened PathMeaning

  // ---- normalize

  ghost predicate HasTrailingSeparator(path: string) {
    |path| > 0 && path[|path| - 1] == '/'
  }

  ghost function NormalizedPath(path: string): (r: string) {
    if path == "" then "."
    else
      var kept := Normalized(path, !IsAbsolute(path), '/', IsSeparator);
      if kept != "" then
        (if IsAbsolute(path) then "/" else "") + kept + (if HasTrailingSeparator(path) then "/" else "")
      else if IsAbsolute(path) then "/"
      else if HasTrailingSeparator(path) then "./"
      else "."
  }

  method Normalize(path: string) returns (r: string)
    ensures r == NormalizedPath(path)
  {
    if |path| == 0 {
      return ".";
    }
    var isAbsolute := path[0] == '/';
    var trailingSeparator := path[|path| - 1] == '/';
    var kept := NormalizeString(path, !isAbsolute, '/', IsSeparator);
    if |kept| == 0 {
      if isAbsolute {
        return "/";
      }
      return if trailingSeparator then "./" else ".";
    }
    if trailingSeparator {
      kept := kept + "/";
    }
    return if isAbsolute then "/" + kept else kept;
  }

  /** What survives normalizing, as segments. */
  ghost function Kept(path: string): (r: Segments) {
    Fold(Split(path, IsSeparator), !IsAbsolute(path))
  }

  lemma {:induction false} KeptIsNormal(path: string)
    ensures Normal(Kept(path), !IsAbsolute(path)) && Normal(Kept(path), true)
    ensures AllPlain(Kept(path), IsSeparator)
  {
    SplitIsPlain(path, IsSeparator);
    FoldNormal(Split(path, IsSeparator), !IsAbsolute(path));
    FoldPlain(Split(path, IsSeparator), !IsAbsolute(path), IsSeparator);
  }

  /** The shape of a normalized path: its steps, whether it is absolute, whether it ends in a separator. */
  lemma {:induction false} NormalizedShape(path: string)
    ensures Steps(NormalizedPath(path)) == Kept(path)
    ensures IsAbsolute(NormalizedPath(path)) == IsAbsolute(path)
    ensures HasTrailingSeparator(NormalizedPath(path)) <==> HasTrailingSeparator(path) || NormalizedPath(path) == "/"
    ensures NormalizedPath(path) == "/" <==> IsAbsolute(path) && Kept(path) == []
  {
    hide Steps;
    var kept := Kept(path);
    KeptIsNormal(path);
    ShortIsSingle(kept, true, '/');
    if path == "" {
      assert kept == [] by { FoldSnoc([], "", true); }
      NoSteps();
    } else if kept == [] {
      NoSteps();
      StepsAt(".", "");
      assert "." + ['/'] + "" == "./";
    } else {
      JoinEnds(kept, '/', IsSeparator);
      StepsOfText(kept, if IsAbsolute(path) then "/" else "", if HasTrailingSeparator(path) then "/" else "");
    }
  }

  /** Normalizing a normalized path changes nothing. */
  lemma {:induction false} NormalizeIdempotent(path: string)
    ensures NormalizedPath(NormalizedPath(path)) == NormalizedPath(path)
  {
    var again := NormalizedPath(path);
    NormalizedShape(path);
    KeptIsNormal(path);
    FoldIdempotent(Kept(path), !IsAbsolute(path));
    FoldEssential(Split(again, IsSeparator), !IsAbsolute(path));
    assert Kept(again) == Kept(path);
    ShortIsSingle(Kept(path), true, '/');
  }

  /** From every directory, a path and its normalized form lead to the same place. */
  lemma {:induction false} NormalizeKeepsMeaning(dir: Segments, path: string)
    ensures Cd(dir, NormalizedPath(path)) == Cd(dir, path)
  {
    var segs := Split(path, IsSeparator);
    var from := if IsAbsolute(path) then [] else dir;
    NormalizedShape(path);
    WalkEssential(from, Split(NormalizedPath(path), IsSeparator));
    if IsAbsolute(path) {
      FoldIsWalkFromRoot(segs);
      FoldNormal(segs, false);
      WalkNames([], Kept(path));
    } else {
      FoldKeepsWalk(dir, segs);
    }
  }

  /** The text, piece by piece: the kept segments and nothing else, behind a separator in an absolute path and before
      one where there was one; and where nothing is kept, "/", "./" or ".". */
  lemma {:induction false} NormalizedPieces(path: string)
    ensures Kept(path) != [] ==>
              Split(NormalizedPath(path), IsSeparator)
              == (if IsAbsolute(path) then [""] else []) + Kept(path)
                 + (if HasTrailingSeparator(path) then [""] else [])
    ensures Kept(path) == [] ==>
              NormalizedPath(path)
              == if IsAbsolute(path) then "/" else if HasTrailingSeparator(path) then "./" else "."
  {
    KeptIsNormal(path);
    ShortIsSingle(Kept(path), true, '/');
    NothingKept();
    if Kept(path) != [] {
      SplitAround(Kept(path), IsAbsolute(path), HasTrailingSeparator(path));
    }
  }

  lemma {:induction false} NothingKept()
    ensures Kept("") == []
  {
    FoldSnoc([], "", true);
  }

  lemma {:induction false} SplitAround(ss: Segments, lead: bool, trail: bool)
    requires ss != [] && AllPlain(ss, IsSeparator)
    ensures Split((if lead then "/" else "") + Join(ss, '/') + (if trail then "/" else ""), IsSeparator)
         == (if lead then [""] else []) + ss + (if trail then [""] else [])
  {
    hide Split;
    var s := Join(ss, '/');
    var front := (if lead then "/" else "") + s;
    SplitPlain("", IsSeparator);
    SplitJoin(ss, '/', IsSeparator);
    SplitAt("", '/', s, IsSeparator);
    assert front == if lead then "" + ['/'] + s else s;
    SplitAt(front, '/', "", IsSeparator);
    assert front + "/" == front + ['/'] + "" && front + "" == front;
  }

  /** Normalizing decides meaning: two paths have the same normalized text if and only if they are both absolute or
      both relative, both have a trailing separator or neither has (or they name the root), and they lead to the
      same place from every directory. */
  lemma {:induction false} NormalizeDecidesMeaning(p: string, q: string)
    ensures NormalizedPath(p) == NormalizedPath(q) <==>
              && IsAbsolute(p) == IsAbsolute(q)
              && (HasTrailingSeparator(p) == HasTrailingSeparator(q) || NormalizedPath(p) == "/")
              && forall dir :: Cd(dir, p) == Cd(dir, q)
  {
    hide Split, Fold, Walk;
    NormalizedShape(p);
    NormalizedShape(q);
    if NormalizedPath(p) == NormalizedPath(q) {
      forall dir
        ensures Cd(dir, p) == Cd(dir, q)
      {
        NormalizeKeepsMeaning(dir, p);
        NormalizeKeepsMeaning(dir, q);
      }
    } else if IsAbsolute(p) == IsAbsolute(q) && forall dir :: Cd(dir, p) == Cd(dir, q) {
      SameMeaningSameKept(p, q);
      if HasTrailingSeparator(p) == HasTrailingSeparator(q) {
        SameText(p, q);
      }
    }
  }

  lemma {:induction false} SameMeaningSameKept(p: string, q: string)
    requires IsAbsolute(p) == IsAbsolute(q) && forall dir :: Cd(dir, p) == Cd(dir, q)
    ensures Kept(p) == Kept(q)
  {
    var sp, sq := Split(p, IsSeparator), Split(q, IsSeparator);
    if IsAbsolute(p) {
      FoldIsWalkFromRoot(sp);
      FoldIsWalkFromRoot(sq);
      assert Cd([], p) == Cd([], q);
    } else {
      KeptIsNormal(p);
      KeptIsNormal(q);
      forall dir
        ensures Walk(dir, Kept(p)) == Walk(dir, Kept(q))
      {
        FoldKeepsWalk(dir, sp);
        FoldKeepsWalk(dir, sq);
        assert Cd(dir, p) == Cd(dir, q);
      }
      NormalIsUnique(Kept(p), Kept(q));
    }
  }

  lemma {:induction false} SameText(p: string, q: string)
    requires Kept(p) == Kept(q) && IsAbsolute(p) == IsAbsolute(q)
    requires HasTrailingSeparator(p) == HasTrailingSeparator(q)
    ensures NormalizedPath(p) == NormalizedPath(q)
  {
    NothingKept();
  }

  // ---- resolve

  /** The steps that count: those from the last absolute path on, or all of them. */
  ghost function Trail(paths: seq<string>): (r: Segments) {
    if paths == [] then []
    else
      var last := paths[|paths| - 1];
      if IsAbsolute(last) then Steps(last) else Trail(paths[..|paths| - 1]) + Steps(last)
  }

  ghost predicate AnyAbsolute(paths: seq<string>) {
    paths != [] && (IsAbsolute(paths[|paths| - 1]) || AnyAbsolute(paths[..|paths| - 1]))
  }

  /** The text `resolve` makes of the working directory and the arguments. */
  ghost function Resolution(paths: seq<string>): (r: string) {
    var kept := Join(Fold(Trail(paths), !AnyAbsolute(paths)), '/');
    if AnyAbsolute(paths) then "/" + kept else if kept == "" then "." else kept
  }

  /** Walking backwards, everything from path `i` on has been put into `resolvedPath`. */
  ghost predicate Gathered(paths: seq<string>, i: int, resolvedPath: string, resolvedAbsolute: bool) {
    && 0 <= i <= |paths|
    && Trail(paths) == (if resolvedAbsolute then [] else Trail(paths[..i])) + Steps(resolvedPath)
    && AnyAbsolute(paths) == (resolvedAbsolute || AnyAbsolute(paths[..i]))
  }

  lemma {:induction false} GatherNothing(paths: seq<string>)
    ensures Gathered(paths, |paths|, "", false)
  {
    NoSteps();
    assert paths[..|paths|] == paths;
  }

  lemma {:induction false} GatherOne(paths: seq<string>, i: nat, resolvedPath: string)
    requires i < |paths| && Gathered(paths, i + 1, resolvedPath, false)
    ensures paths[i] == "" ==> Gathered(paths, i, resolvedPath, false)
    ensures paths[i] != "" ==> Gathered(paths, i, paths[i] + ['/'] + resolvedPath, IsAbsolute(paths[i]))
  {
    hide Steps;
    NoSteps();
    assert paths[..i + 1][i] == paths[i] && paths[..i + 1][..i] == paths[..i];
    StepsAt(paths[i], resolvedPath);
    Assoc(Trail(paths[..i]), Steps(paths[i]), Steps(resolvedPath));
  }

  lemma {:induction false} GatherAll(paths: seq<string>, i: int, resolvedPath: string, resolvedAbsolute: bool)
    requires Gathered(paths, i, resolvedPath, resolvedAbsolute) && (i == 0 || resolvedAbsolute)
    ensures var kept := Normalized(resolvedPath, !resolvedAbsolute, '/', IsSeparator);
            Resolution(paths) == if resolvedAbsolute then "/" + kept else if |kept| > 0 then kept else "."
  {
    assert Trail(paths) == Steps(resolvedPath);
    FoldEssential(Split(resolvedPath, IsSeparator), !resolvedAbsolute);
  }

  /** The loop that puts the arguments together from the last one back, up to an absolute one. */
  method Gather(args: seq<string>, cwd: string) returns (resolvedPath: string, resolvedAbsolute: bool)
    ensures var kept := Normalized(resolvedPath, !resolvedAbsolute, '/', IsSeparator);
            Resolution([cwd] + args) == if resolvedAbsolute then "/" + kept else if |kept| > 0 then kept else "."
  {
    hide Trail, AnyAbsolute, Gathered, Normalized, Resolution;
    ghost var paths := [cwd] + args;
    resolvedPath := "";
    resolvedAbsolute := false;
    var i := |args|;
    GatherNothing(paths);
    while i >= 0 && !resolvedAbsolute
      invariant -1 <= i <= |args|
      invariant Gathered(paths, i + 1, resolvedPath, resolvedAbsolute)
    {
      var path := if i > 0 then args[i - 1] else cwd;
      GatherOne(paths, i, resolvedPath);
      if |path| != 0 {
        resolvedPath := path + ['/'] + resolvedPath;
        resolvedAbsolute := path[0] == '/';
      }
      i := i - 1;
    }
    GatherAll(paths, i + 1, resolvedPath, resolvedAbsolute);
  }

  method Resolve(args: seq<string>, cwd: string) returns (r: Result<string, string>)
    ensures args == [] <==> r.Err?
    ensures args != [] ==> r.value == Resolution([cwd] + args)
    ensures args != [] && IsAbsolute(cwd) ==> r.value == PathOf(Target(cwd, args))
  {
    hide Normalized, Resolution, PathOf, Target;
    if |args| == 0 {
      return Err("Usage: resolve(path1, [path2, ..., pathN])");
    }
    var resolvedPath, resolvedAbsolute := Gather(args, cwd);
    resolvedPath := NormalizeString(resolvedPath, !resolvedAbsolute, '/', IsSeparator);
    if IsAbsolute(cwd) {
      ResolutionIsCd(cwd, args);
    }
    return Ok(if resolvedAbsolute then "/" + resolvedPath else if |resolvedPath| > 0 then resolvedPath else ".");
  }

  lemma {:induction false} TrailIsCdAll(cwd: string, args: seq<string>)
    requires IsAbsolute(cwd)
    ensures AnyAbsolute([cwd] + args) && Walk([], Trail([cwd] + args)) == Target(cwd, args)
  {
    hide Split, Essential, Walk;
    var paths := [cwd] + args;
    var init, last := paths[..|paths| - 1], paths[|paths| - 1];
    WalkEssential([], Split(last, IsSeparator));
    if args == [] {
      assert last == cwd;
    } else {
      assert init == [cwd] + args[..|args| - 1];
      TrailIsCdAll(cwd, args[..|args| - 1]);
      CdAllAppend(Cd([], cwd), args[..|args| - 1], [last]);
      assert args == args[..|args| - 1] + [last];
      var before := Target(cwd, args[..|args| - 1]);
      assert CdAll(before, [last]) == Cd(before, last);
      WalkEssential(before, Split(last, IsSeparator));
      WalkAppend([], Trail(init), Steps(last));
    }
  }

  /** Resolving is changing directory: from the working directory through the arguments, in order. */
  lemma {:induction false} ResolutionIsCd(cwd: string, args: seq<string>)
    requires IsAbsolute(cwd)
    ensures Resolution([cwd] + args) == PathOf(Target(cwd, args))
  {
    TrailIsCdAll(cwd, args);
    FoldIsWalkFromRoot(Trail([cwd] + args));
  }

  /** A resolved path is absolute and already normalized. */
  lemma {:induction false} ResolvedIsCanonical(cwd: string, args: seq<string>)
    ensures IsAbsolute(PathOf(Target(cwd, args)))
    ensures NormalizedPath(PathOf(Target(cwd, args))) == PathOf(Target(cwd, args))
  {
    var dir := Target(cwd, args);
    var path := PathOf(dir);
    TargetIsDirectory(cwd, args);
    CdPathOf([], dir);
    FoldIsWalkFromRoot(Split(path, IsSeparator));
    ShortIsSingle(dir, true, '/');
    if dir != [] {
      JoinEnds(dir, '/', IsSeparator);
    }
  }

  /** Resolving in two steps is resolving in one. */
  lemma {:induction false} ResolveInTwoSteps(cwd: string, first: seq<string>, rest: seq<string>)
    ensures Target(cwd, [PathOf(Target(cwd, first))] + rest) == Target(cwd, first + rest)
  {
    var start, mid := Cd([], cwd), Target(cwd, first);
    TargetIsDirectory(cwd, first);
    CdPathOf(start, mid);
    CdAllAppend(start, first, rest);
    assert ([PathOf(mid)] + rest)[1..] == rest;
  }

  // ---- resolve, when even the working directory is relative

  lemma {:induction false} StepsArePlain(ss: Segments)
    requires AllPlain(ss, IsSeparator)
    ensures AllPlain(Essential(ss), IsSeparator)
  {
    if ss != [] { StepsArePlain(ss[..|ss| - 1]); }
  }

  lemma {:induction false} TrailIsPlain(paths: seq<string>)
    ensures AllPlain(Trail(paths), IsSeparator)
  {
    if paths != [] {
      SplitIsPlain(paths[|paths| - 1], IsSeparator);
      StepsArePlain(Split(paths[|paths| - 1], IsSeparator));
      TrailIsPlain(paths[..|paths| - 1]);
    }
  }

  /** The steps that are gathered lead where the paths lead, one after the other. */
  lemma {:induction false} TrailLeads(dir: Segments, paths: seq<string>)
    ensures Walk(if AnyAbsolute(paths) then [] else dir, Trail(paths)) == CdAll(dir, paths)
  {
    hide Split, Essential, Walk;
    if paths == [] {
      WalkNowhere(dir);
    } else {
      var init, last := paths[..|paths| - 1], paths[|paths| - 1];
      var before := CdAll(dir, init);
      TrailLeads(dir, init);
      assert paths == init + [last];
      CdAllAppend(dir, init, [last]);
      assert CdAll(before, [last]) == Cd(before, last);
      WalkEssential(if IsAbsolute(last) then [] else before, Split(last, IsSeparator));
      WalkAppend(if AnyAbsolute(init) then [] else dir, Trail(init), Steps(last));
    }
  }

  lemma {:induction false} WalkNowhere(dir: Segments)
    ensures Walk(dir, []) == dir
  {
  }

  /** What is left of the steps, as `resolve` folds them. */
  ghost function Gist(paths: seq<string>): (r: Segments) {
    Fold(Trail(paths), !AnyAbsolute(paths))
  }

  lemma {:induction false} GistIsNormal(paths: seq<string>)
    ensures Normal(Gist(paths), !AnyAbsolute(paths)) && Normal(Gist(paths), true) && AllPlain(Gist(paths), IsSeparator)
  {
    TrailIsPlain(paths);
    FoldNormal(Trail(paths), !AnyAbsolute(paths));
    FoldPlain(Trail(paths), !AnyAbsolute(paths), IsSeparator);
  }

  lemma {:induction false} GistLeads(dir: Segments, paths: seq<string>)
    ensures Walk(if AnyAbsolute(paths) then [] else dir, Gist(paths)) == CdAll(dir, paths)
  {
    TrailLeads(dir, paths);
    GistIsNormal(paths);
    if AnyAbsolute(paths) {
      FoldIsWalkFromRoot(Trail(paths));
      WalkNames([], Gist(paths));
    } else {
      FoldKeepsWalk(dir, Trail(paths));
    }
  }

  /** Whatever the paths are, the result is normalized and leads, from every directory, where they lead in turn. */
  lemma {:induction false} ResolutionLeads(dir: Segments, paths: seq<string>)
    ensures Cd(dir, Resolution(paths)) == CdAll(dir, paths)
    ensures IsAbsolute(Resolution(paths)) == AnyAbsolute(paths)
    ensures NormalizedPath(Resolution(paths)) == Resolution(paths)
    ensures HasTrailingSeparator(Resolution(paths)) ==> Resolution(paths) == "/"
  {
    hide Steps, Fold, Trail, Walk;
    GistLeads(dir, paths);
    ResolutionShape(paths);
    var r := Resolution(paths);
    WalkEssential(if AnyAbsolute(paths) then [] else dir, Split(r, IsSeparator));
    GistIsNormal(paths);
    FoldIdempotent(Gist(paths), !AnyAbsolute(paths));
    FoldEssential(Split(r, IsSeparator), !AnyAbsolute(paths));
    ShortIsSingle(Gist(paths), true, '/');
  }

  lemma {:induction false} ResolutionShape(paths: seq<string>)
    ensures var r := Resolution(paths);
            && r != "" && IsAbsolute(r) == AnyAbsolute(paths) && (HasTrailingSeparator(r) ==> r == "/")
            && Essential(Split(r, IsSeparator)) == Gist(paths)
  {
    var gist := Gist(paths);
    GistIsNormal(paths);
    ShortIsSingle(gist, true, '/');
    NoSteps();
    StepsOfText(gist, if AnyAbsolute(paths) then "/" else "", "");
    assert "/" + Join(gist, '/') + "" == "/" + Join(gist, '/') && "" + Join(gist, '/') + "" == Join(gist, '/');
    if gist != [] {
      JoinEnds(gist, '/', IsSeparator);
    }
  }
}
