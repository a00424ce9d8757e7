/**
  What POSIX paths mean.

  A directory is the list of names that leads to it from the root; following a path from a
  directory leads to a directory. The laws of the path functions are stated in these terms.
 */
module PathMeaning {
  import opened Segments
  import opened PathMachine

  predicate IsSeparator(c: char) {
    c == '/'
  }

  predicate IsAbsolute(path: string) {
    |path| > 0 && path[0] == '/'
  }

  // ---- Meaning

  /** The segments that do something: neither empty nor ".". */
  ghost function Essential(ss: Segments): (r: Segments) {
    if ss == [] then []
    else
      var init, last := Essential(ss[..|ss| - 1]), ss[|ss| - 1];
      if last == "" || last == "." then init else init + [last]
  }

  ghost function Steps(path: string): (r: Segments) {
    Essential(Split(path, IsSeparator))
  }

  /** A directory as its names from the root, each of which could be an entry of a file system. */
  ghost predicate IsDirectory(dir: Segments) {
    AllNames(dir) && AllPlain(dir, IsSeparator)
  }

  /** The canonical text of a directory. */
  ghost function PathOf(dir: Segments): (s: string) {
    "/" + Join(dir, '/')
  }

  /** Where following `path` from the directory `dir` leads. */
  ghost function Cd(dir: Segments, path: string): (r: Segments) {
    Walk(if IsAbsolute(path) then [] else dir, Split(path, IsSeparator))
  }

  /** Changing directory through each of the paths in turn. */
  ghost function CdAll(dir: Segments, paths: seq<string>): (r: Segments)
    decreases |paths|
  {
    if paths == [] then dir else CdAll(Cd(dir, paths[0]), paths[1..])
  }

  /** The directory that `resolve` names: change to the working directory, then through the arguments. */
  ghost function Target(cwd: string, paths: seq<string>): (r: Segments) {
    CdAll(Cd([], cwd), paths)
  }

  lemma {:induction false} EssentialAppend(a: Segments, b: Segments)
    ensures Essential(a + b) == Essential(a) + Essential(b)
    decreases |b|
  {
    if b == [] {
      assert a + b == a;
    } else {
      assert (a + b)[..|a + b| - 1] == a + b[..|b| - 1];
      EssentialAppend(a, b[..|b| - 1]);
    }
  }

  lemma {:induction false} EssentialNormal(ss: Segments)
    requires Normal(ss, true)
    ensures Essential(ss) == ss
  {
    if ss != [] {
      NormalTake(ss, true, |ss| - 1);
      EssentialNormal(ss[..|ss| - 1]);
    }
  }

  /** Empty and "." segments make no difference to normalizing. */
  lemma {:induction false} FoldEssential(ss: Segments, allow: bool)
    ensures Fold(Essential(ss), allow) == Fold(ss, allow)
  {
    if ss != [] {
      FoldEssential(ss[..|ss| - 1], allow);
      var last := ss[|ss| - 1];
      if last != "" && last != "." {
        FoldSnoc(Essential(ss[..|ss| - 1]), last, allow);
      }
    }
  }

  /** Empty and "." segments make no difference to walking. */
  lemma {:induction false} WalkEssential(dir: Segments, ss: Segments)
    ensures Walk(dir, Essential(ss)) == Walk(dir, ss)
  {
    if ss != [] {
      var init, last := ss[..|ss| - 1], ss[|ss| - 1];
      WalkEssential(dir, init);
      WalkLast(dir, ss);
      if last != "" && last != "." {
        WalkAppend(dir, Essential(init), [last]);
      }
    }
  }

  /** Following a path from a directory leads to a directory. */
  lemma {:induction false} CdIsDirectory(dir: Segments, path: string)
    requires IsDirectory(dir)
    ensures IsDirectory(Cd(dir, path))
  {
    var from := if IsAbsolute(path) then [] else dir;
    SplitIsPlain(path, IsSeparator);
    WalkStaysInNames(from, Split(path, IsSeparator));
    WalkPlain(from, Split(path, IsSeparator), IsSeparator);
  }

  lemma {:induction false} CdAllIsDirectory(dir: Segments, paths: seq<string>)
    requires IsDirectory(dir)
    ensures IsDirectory(CdAll(dir, paths))
    decreases |paths|
  {
    if paths != [] {
      CdIsDirectory(dir, paths[0]);
      CdAllIsDirectory(Cd(dir, paths[0]), paths[1..]);
    }
  }

  lemma {:induction false} TargetIsDirectory(cwd: string, paths: seq<string>)
    ensures IsDirectory(Target(cwd, paths))
  {
    CdIsDirectory([], cwd);
    CdAllIsDirectory(Cd([], cwd), paths);
  }

  lemma {:induction false} CdAllAppend(dir: Segments, a: seq<string>, b: seq<string>)
    ensures CdAll(dir, a + b) == CdAll(CdAll(dir, a), b)
    decreases |a|
  {
    if a == [] {
      assert a + b == b;
    } else {
      assert (a + b)[0] == a[0] && (a + b)[1..] == a[1..] + b;
      CdAllAppend(Cd(dir, a[0]), a[1..], b);
    }
  }

  /** A separator in the middle of a path separates its steps. */
  lemma {:induction false} StepsAt(a: string, b: string)
    ensures Steps(a + ['/'] + b) == Steps(a) + Steps(b)
  {
    SplitAt(a, '/', b, IsSeparator);
    EssentialAppend(Split(a, IsSeparator), Split(b, IsSeparator));
  }

  lemma {:induction false} NoSteps()
    ensures Steps("") == [] && Steps("/") == [] && Steps(".") == []
  {
    assert Essential([]) == [];
    assert [""][..0] == [] && ["."][..0] == [];
    assert Split("", IsSeparator) == [""];
    SplitPlain(".", IsSeparator);
    StepsAt("", "");
    assert "" + ['/'] + "" == "/";
  }

  lemma {:induction false} StepsOfJoin(ss: Segments)
    requires Normal(ss, true) && AllPlain(ss, IsSeparator)
    ensures Steps(Join(ss, '/')) == ss
  {
    if ss == [] {
      NoSteps();
    } else {
      EssentialNormal(ss);
      SplitJoin(ss, '/', IsSeparator);
    }
  }

  /** A normal list of segments reads back from its text, with or without separators around it. */
  lemma {:induction false} StepsOfText(ss: Segments, lead: string, trail: string)
    requires Normal(ss, true) && AllPlain(ss, IsSeparator)
    requires (lead == "" || lead == "/") && (trail == "" || trail == "/")
    ensures Steps(lead + Join(ss, '/') + trail) == ss
  {
    hide Steps;
    var s := Join(ss, '/');
    StepsOfJoin(ss);
    NoSteps();
    assert Steps(lead + s) == ss by {
      StepsAt("", s);
      assert lead + s == if lead == "" then s else "" + ['/'] + s;
    }
    StepsAt(lead + s, "");
    assert lead + s + trail == if trail == "" then lead + s else (lead + s) + ['/'] + "";
  }

  lemma {:induction false} NamesAreNormal(dir: Segments, allow: bool)
    requires AllNames(dir)
    ensures Normal(dir, allow)
  {
  }

  /** The canonical text of a directory leads to that directory, from anywhere. */
  lemma {:induction false} CdPathOf(from: Segments, dir: Segments)
    requires IsDirectory(dir)
    ensures Cd(from, PathOf(dir)) == dir
  {
    NamesAreNormal(dir, true);
    StepsOfText(dir, "/", "");
    assert PathOf(dir) == "/" + Join(dir, '/') + "";
    WalkEssential([], Split(PathOf(dir), IsSeparator));
    WalkNames([], dir);
  }

  /** Different directories have different texts. */
  lemma {:induction false} PathOfInjective(a: Segments, b: Segments)
    requires IsDirectory(a) && IsDirectory(b) && PathOf(a) == PathOf(b)
    ensures a == b
  {
    CdPathOf([], a);
    CdPathOf([], b);
  }
}
