/**
  Paths as lists of segments: the level at which the path library's promises are stated.

  `Split` and `Join` go between characters and segments. `Fold` is the stack discipline that
  "normalizing" stands for, and `Walk` is the meaning of a path: what changing directory along
  it does, starting from a given directory.
 */
module Segments {
  import opened Sequences

  type Segments = seq<string>

  /** No character of `s` is a separator. */
  ghost predicate Plain(s: string, isSep: char -> bool) {
    forall i :: 0 <= i < |s| ==> !isSep(s[i])
  }

  ghost predicate AllPlain(ss: Segments, isSep: char -> bool) {
    forall i :: 0 <= i < |ss| ==> Plain(ss[i], isSep)
  }

  /** The maximal separator-free pieces of `s`, empty ones included. */
  ghost function Split(s: string, isSep: char -> bool): (r: Segments)
    ensures |r| >= 1
  {
    if s == [] then [""]
    else
      var r, c := Split(s[..|s| - 1], isSep), s[|s| - 1];
      if isSep(c) then r + [""] else r[|r| - 1 := r[|r| - 1] + [c]]
  }

  /** The segments with the separator character `sep` between neighbours. */
  ghost function Join(ss: Segments, sep: char): (s: string) {
    if |ss| == 0 then ""
    else if |ss| == 1 then ss[0]
    else Join(ss[..|ss| - 1], sep) + [sep] + ss[|ss| - 1]
  }

  /** One step of normalizing: what a segment does to the stack of segments kept so far. */
  ghost function Push(stack: Segments, seg: string, allowAboveRoot: bool): (r: Segments) {
    if seg == "" || seg == "." then stack
    else if seg != ".." then stack + [seg]
    else if stack != [] && stack[|stack| - 1] != ".." then stack[..|stack| - 1]
    else if allowAboveRoot then stack + [".."]
    else stack
  }

  ghost function Fold(segs: Segments, allowAboveRoot: bool): (r: Segments) {
    if segs == [] then []
    else Push(Fold(segs[..|segs| - 1], allowAboveRoot), segs[|segs| - 1], allowAboveRoot)
  }

  /** Changing directory by one segment; the root is its own parent. */
  ghost function Step(dir: Segments, seg: string): (r: Segments) {
    if seg == "" || seg == "." then dir
    else if seg == ".." then if dir == [] then [] else dir[..|dir| - 1]
    else dir + [seg]
  }

  /** Changing directory along a list of segments. */
  ghost function Walk(dir: Segments, segs: Segments): (r: Segments)
    decreases |segs|
  {
    if segs == [] then dir else Walk(Step(dir, segs[0]), segs[1..])
  }

  /** A real directory entry name. */
  ghost predicate IsName(seg: string) {
    seg != "" && seg != "." && seg != ".."
  }

  /** A list of real names: a directory, counted from the root. */
  ghost predicate AllNames(ss: Segments) {
    forall i :: 0 <= i < |ss| ==> IsName(ss[i])
  }

  /** Names, after some ".." that are there only if climbing above the root is allowed. */
  ghost predicate Normal(ss: Segments, allowAboveRoot: bool) {
    && (forall i :: 0 <= i < |ss| ==> ss[i] != "" && ss[i] != ".")
    && (forall i, j :: 0 <= i <= j < |ss| && ss[j] == ".." ==> ss[i] == ".." && allowAboveRoot)
  }

  lemma {:induction false} NormalTake(ss: Segments, allow: bool, k: nat)
    requires Normal(ss, allow) && k <= |ss|
    ensures Normal(ss[..k], allow)
  {
  }

  /** Normalizing leaves only names, behind ".." if climbing above the root is allowed. */
  lemma {:induction false} FoldNormal(segs: Segments, allow: bool)
    ensures Normal(Fold(segs, allow), allow)
  {
    if segs != [] {
      FoldNormal(segs[..|segs| - 1], allow);
    }
  }

  /** Normalizing never puts a separator into a segment. */
  lemma {:induction false} FoldPlain(segs: Segments, allow: bool, isSep: char -> bool)
    requires AllPlain(segs, isSep) && !isSep('.')
    ensures AllPlain(Fold(segs, allow), isSep)
  {
    if segs != [] {
      FoldPlain(segs[..|segs| - 1], allow, isSep);
    }
  }

  /** Normal lists are fixed points of normalizing. */
  lemma {:induction false} FoldIdempotent(ss: Segments, allow: bool)
    requires Normal(ss, allow)
    ensures Fold(ss, allow) == ss
  {
    if ss != [] {
      var init := ss[..|ss| - 1];
      NormalTake(ss, allow, |ss| - 1);
      FoldIdempotent(init, allow);
      assert ss == init + [ss[|ss| - 1]];
    }
  }

  lemma {:induction false} WalkAppend(dir: Segments, a: Segments, b: Segments)
    ensures Walk(dir, a + b) == Walk(Walk(dir, a), b)
    decreases |a|
  {
    if a == [] {
      assert a + b == b;
    } else {
      assert (a + b)[0] == a[0] && (a + b)[1..] == a[1..] + b;
      WalkAppend(Step(dir, a[0]), a[1..], b);
    }
  }

  lemma {:induction false} WalkLast(dir: Segments, ss: Segments)
    requires ss != []
    ensures Walk(dir, ss) == Step(Walk(dir, ss[..|ss| - 1]), ss[|ss| - 1])
  {
    assert ss == ss[..|ss| - 1] + [ss[|ss| - 1]];
    WalkAppend(dir, ss[..|ss| - 1], [ss[|ss| - 1]]);
  }

  lemma {:induction false} WalkNames(dir: Segments, ss: Segments)
    requires AllNames(ss)
    ensures Walk(dir, ss) == dir + ss
    decreases |ss|
  {
    if ss != [] {
      WalkNames(dir + [ss[0]], ss[1..]);
      assert dir + [ss[0]] + ss[1..] == dir + ss;
    }
  }

  /** Walking never invents a segment that is not a name. */
  lemma {:induction false} WalkStaysInNames(dir: Segments, segs: Segments)
    requires AllNames(dir)
    ensures AllNames(Walk(dir, segs))
    decreases |segs|
  {
    if segs != [] {
      WalkStaysInNames(Step(dir, segs[0]), segs[1..]);
    }
  }

  lemma {:induction false} WalkPlain(dir: Segments, segs: Segments, isSep: char -> bool)
    requires AllPlain(dir, isSep) && AllPlain(segs, isSep)
    ensures AllPlain(Walk(dir, segs), isSep)
    decreases |segs|
  {
    if segs != [] {
      WalkPlain(Step(dir, segs[0]), segs[1..], isSep);
    }
  }

  /** Normalizing without climbing above the root is walking from the root. */
  lemma {:induction false} FoldIsWalkFromRoot(segs: Segments)
    ensures Fold(segs, false) == Walk([], segs)
  {
    if segs != [] {
      FoldIsWalkFromRoot(segs[..|segs| - 1]);
      WalkLast([], segs);
      FoldNormal(segs[..|segs| - 1], false);
    }
  }

  /** Normalizing keeps the meaning of a relative path, from every starting directory. */
  lemma {:induction false} FoldKeepsWalk(dir: Segments, segs: Segments)
    ensures Walk(dir, Fold(segs, true)) == Walk(dir, segs)
  {
    if segs != [] {
      var init, seg := segs[..|segs| - 1], segs[|segs| - 1];
      FoldKeepsWalk(dir, init);
      WalkLast(dir, segs);
      FoldNormal(init, true);
      PushKeepsWalk(dir, Fold(init, true), seg);
    }
  }

  lemma {:induction false} PushKeepsWalk(dir: Segments, stack: Segments, seg: string)
    requires Normal(stack, true)
    ensures Walk(dir, Push(stack, seg, true)) == Step(Walk(dir, stack), seg)
  {
    var r := Push(stack, seg, true);
    if r == stack + [seg] {
      WalkLast(dir, r);
      assert r[..|r| - 1] == stack;
    } else if r != stack {
      WalkLast(dir, stack);
    }
  }

  // ---- Normal lists are determined by where they lead

  /** A normal list is some "..", then names: n of them. */
  lemma {:induction false} CountUps(ss: Segments) returns (n: nat)
    requires Normal(ss, true)
    ensures n <= |ss| && (forall i :: 0 <= i < n ==> ss[i] == "..") && AllNames(ss[n..])
  {
    n := 0;
    while n < |ss| && ss[n] == ".."
      invariant 0 <= n <= |ss| && forall i :: 0 <= i < n ==> ss[i] == ".."
    {
      n := n + 1;
    }
    assert forall i :: n <= i < |ss| ==> IsName(ss[i]);
  }

  lemma {:induction false} WalkUpwards(dir: Segments, ss: Segments)
    requires |ss| <= |dir| && forall i :: 0 <= i < |ss| ==> ss[i] == ".."
    ensures Walk(dir, ss) == dir[..|dir| - |ss|]
    decreases |ss|
  {
    if ss != [] {
      WalkUpwards(dir[..|dir| - 1], ss[1..]);
    }
  }

  /** From deep enough, a normal list leaves as many directories as it has ".." and then follows its names. */
  lemma {:induction false} WalkNormal(dir: Segments, ss: Segments, n: nat)
    requires n <= |ss| && n <= |dir| && (forall i :: 0 <= i < n ==> ss[i] == "..") && AllNames(ss[n..])
    ensures Walk(dir, ss) == dir[..|dir| - n] + ss[n..]
  {
    assert ss == ss[..n] + ss[n..];
    WalkAppend(dir, ss[..n], ss[n..]);
    WalkUpwards(dir, ss[..n]);
    WalkNames(dir[..|dir| - n], ss[n..]);
  }

  lemma {:induction false} FindsAgain(a: Segments, b: Segments, n: nat, m: nat, name: string)
    requires n < m && n <= |a| && (forall i :: 0 <= i < n ==> a[i] == "..") && AllNames(a[n..])
    requires m <= |b| && (forall i :: 0 <= i < m ==> b[i] == "..") && AllNames(b[m..])
    requires forall dir :: Walk(dir, a) == Walk(dir, b)
    ensures |b| > m && b[m] == name
  {
    hide Walk, IsName;
    var dir := seq(m, i => name);
    WalkNormal(dir, a, n);
    WalkNormal(dir, b, m);
    assert (dir[..m - n] + a[n..])[0] == name;
    assert dir[..0] + b[m..] == b[m..];
    assert Walk(dir, a) == Walk(dir, b);
  }

  /** A list that climbs higher would have to find the name of the directory again, whatever it is. */
  lemma {:induction false} SameClimb(a: Segments, b: Segments, n: nat, m: nat)
    requires n <= |a| && (forall i :: 0 <= i < n ==> a[i] == "..") && AllNames(a[n..])
    requires m <= |b| && (forall i :: 0 <= i < m ==> b[i] == "..") && AllNames(b[m..])
    requires forall dir :: Walk(dir, a) == Walk(dir, b)
    ensures n >= m
  {
    if n < m {
      FindsAgain(a, b, n, m, "x");
      FindsAgain(a, b, n, m, "y");
    }
  }

  lemma {:induction false} SameNames(a: Segments, b: Segments, n: nat)
    requires n <= |a| && (forall i :: 0 <= i < n ==> a[i] == "..") && AllNames(a[n..])
    requires n <= |b| && (forall i :: 0 <= i < n ==> b[i] == "..") && AllNames(b[n..])
    requires forall dir :: Walk(dir, a) == Walk(dir, b)
    ensures a == b
  {
    hide Walk, IsName;
    var dir := seq(n, i => "x");
    WalkNormal(dir, a, n);
    WalkNormal(dir, b, n);
    assert Walk(dir, a) == Walk(dir, b);
    assert dir[..0] + a[n..] == a[n..] && dir[..0] + b[n..] == b[n..];
    EqualParts(a, b, n);
  }

  /** Normal lists that lead to the same place from every directory are equal. */
  lemma {:induction false} NormalIsUnique(a: Segments, b: Segments)
    requires Normal(a, true) && Normal(b, true) && forall dir :: Walk(dir, a) == Walk(dir, b)
    ensures a == b
  {
    hide Walk, Normal, IsName;
    var n := CountUps(a);
    var m := CountUps(b);
    SameClimb(a, b, n, m);
    SameClimb(b, a, m, n);
    SameNames(a, b, n);
  }

  // ---- Characters and segments

  lemma {:induction false} SplitIsPlain(s: string, isSep: char -> bool)
    ensures AllPlain(Split(s, isSep), isSep)
  {
    if s != [] {
      SplitIsPlain(s[..|s| - 1], isSep);
    }
  }

  lemma {:induction false} SplitPlain(s: string, isSep: char -> bool)
    requires Plain(s, isSep)
    ensures Split(s, isSep) == [s]
  {
    if s != [] {
      SplitPlain(s[..|s| - 1], isSep);
      assert s[..|s| - 1] + [s[|s| - 1]] == s;
    }
  }

  lemma {:induction false} SplitSnoc(s: string, c: char, isSep: char -> bool)
    ensures var r := Split(s, isSep);
            Split(s + [c], isSep) == if isSep(c) then r + [""] else r[|r| - 1 := r[|r| - 1] + [c]]
  {
    assert (s + [c])[..|s|] == s;
  }

  /** What one more character does to a list of pieces, it does to the end of it. */
  lemma {:induction false} ExtendLast(a: Segments, b: Segments, c: char)
    requires b != []
    ensures a + b + [""] == a + (b + [""])
    ensures (a + b)[|a + b| - 1 := (a + b)[|a + b| - 1] + [c]] == a + b[|b| - 1 := b[|b| - 1] + [c]]
  {
  }

  /** A separator cuts: the pieces of a path are those left of it, then those right of it. */
  lemma {:induction false} SplitAt(a: string, c: char, b: string, isSep: char -> bool)
    requires isSep(c)
    ensures Split(a + [c] + b, isSep) == Split(a, isSep) + Split(b, isSep)
    decreases |b|
  {
    if b == [] {
      assert a + [c] + b == a + [c];
      SplitSnoc(a, c, isSep);
    } else {
      hide Split;
      var init, d := b[..|b| - 1], b[|b| - 1];
      assert b == init + [d] && a + [c] + b == a + [c] + init + [d];
      SplitAt(a, c, init, isSep);
      SplitSnoc(a + [c] + init, d, isSep);
      SplitSnoc(init, d, isSep);
      ExtendLast(Split(a, isSep), Split(init, isSep), d);
    }
  }

  /** `Split` undoes `Join`. */
  lemma {:induction false} SplitJoin(ss: Segments, sep: char, isSep: char -> bool)
    requires ss != [] && AllPlain(ss, isSep) && isSep(sep)
    ensures Split(Join(ss, sep), isSep) == ss
    decreases |ss|
  {
    SplitPlain(ss[|ss| - 1], isSep);
    if |ss| > 1 {
      SplitJoin(ss[..|ss| - 1], sep, isSep);
      SplitAt(Join(ss[..|ss| - 1], sep), sep, ss[|ss| - 1], isSep);
    }
  }

  lemma {:induction false} JoinInjective(a: Segments, b: Segments, sep: char, isSep: char -> bool)
    requires a != [] && b != [] && AllPlain(a, isSep) && AllPlain(b, isSep) && isSep(sep)
    requires Join(a, sep) == Join(b, sep)
    ensures a == b
  {
    SplitJoin(a, sep, isSep);
    SplitJoin(b, sep, isSep);
  }

  lemma {:induction false} JoinAppend(a: Segments, b: Segments, sep: char)
    requires a != [] && b != []
    ensures Join(a + b, sep) == Join(a, sep) + ([sep] + Join(b, sep))
    decreases |b|
  {
    var init, last := b[..|b| - 1], b[|b| - 1];
    assert (a + b)[..|a + b| - 1] == a + init;
    if |b| > 1 {
      JoinAppend(a, init, sep);
      Assoc(Join(a, sep), [sep] + Join(init, sep), [sep] + last);
    } else {
      assert a + init == a;
    }
  }

  /** A nonempty list of nonempty segments joins to a text that neither starts nor ends with a separator. */
  lemma {:induction false} JoinEnds(ss: Segments, sep: char, isSep: char -> bool)
    requires ss != [] && AllPlain(ss, isSep) && forall i :: 0 <= i < |ss| ==> ss[i] != ""
    ensures var s := Join(ss, sep); s != "" && !isSep(s[0]) && !isSep(s[|s| - 1])
    decreases |ss|
  {
    assert ss[0] != "" && ss[|ss| - 1] != "";
    if |ss| > 1 {
      JoinEnds(ss[..|ss| - 1], sep, isSep);
    }
  }
}
