/** `posix.relative`, and why it undoes `posix.resolve`. */
module PosixRelative {
  import opened Wrappers
  import opened Segments
  import opened PathMeaning
  import opened PosixResolve

  // ---- What a relative path is, at the level of segments

  ghost function CommonPrefix(a: Segments, b: Segments): (n: nat)
    ensures n <= |a| && n <= |b|
  {
    if a == [] || b == [] || a[0] != b[0] then 0 else 1 + CommonPrefix(a[1..], b[1..])
  }

  ghost function Ups(n: nat): (r: Segments)
    ensures |r| == n
  {
    if n == 0 then [] else Ups(n - 1) + [".."]
  }

  /** One ".." per segment of `from` beyond the common prefix, then the rest of `to`. */
  ghost function RelativeSteps(from: Segments, to: Segments): (r: Segments) {
    var common := CommonPrefix(from, to);
    Ups(|from| - common) + to[common..]
  }

  /** `CommonPrefix` is common, and the longest such. */
  lemma {:induction false} CommonPrefixIsLongest(a: Segments, b: Segments)
    ensures var n := CommonPrefix(a, b);
            a[..n] == b[..n] && (n < |a| && n < |b| ==> a[n] != b[n])
  {
    var n := CommonPrefix(a, b);
    if n > 0 {
      CommonPrefixIsLongest(a[1..], b[1..]);
      assert a[..n] == [a[0]] + a[1..][..n - 1] && b[..n] == [b[0]] + b[1..][..n - 1];
    }
  }

  lemma {:induction false} UpsAreUps(n: nat)
    ensures forall i :: 0 <= i < n ==> Ups(n)[i] == ".."
  {
    if n > 0 { UpsAreUps(n - 1); }
  }

  /** There is only one longest common prefix. */
  lemma {:induction false} CommonPrefixUnique(a: Segments, b: Segments, n: nat)
    requires n <= |a| && n <= |b| && a[..n] == b[..n]
    requires n < |a| && n < |b| ==> a[n] != b[n]
    ensures CommonPrefix(a, b) == n
  {
    if n > 0 {
      assert a[0] == a[..n][0] && b[0] == b[..n][0];
      assert a[1..][..n - 1] == a[..n][1..] && b[1..][..n - 1] == b[..n][1..];
      CommonPrefixUnique(a[1..], b[1..], n - 1);
    }
  }

  lemma {:induction false} WalkUps(dir: Segments, n: nat)
    requires n <= |dir|
    ensures Walk(dir, Ups(n)) == dir[..|dir| - n]
  {
    if n > 0 {
      WalkUps(dir, n - 1);
      WalkLast(dir, Ups(n));
    }
  }

  /** The relative steps lead from the one directory to the other. */
  lemma {:induction false} RelativeStepsLead(from: Segments, to: Segments)
    requires AllNames(to)
    ensures Walk(from, RelativeSteps(from, to)) == to
  {
    hide Walk, Ups;
    var common := CommonPrefix(from, to);
    CommonPrefixIsLongest(from, to);
    WalkAppend(from, Ups(|from| - common), to[common..]);
    WalkUps(from, |from| - common);
    assert from[..common] == to[..common];
    WalkNames(to[..common], to[common..]);
    assert to[..common] + to[common..] == to;
  }

  // ---- No way is shorter

  /** How many steps apart two directories are. */
  ghost function Distance(a: Segments, b: Segments): (n: nat) {
    |a| - CommonPrefix(a, b) + (|b| - CommonPrefix(a, b))
  }

  lemma {:induction false} DistanceUp(dir: Segments, to: Segments)
    requires dir != []
    ensures Distance(dir[..|dir| - 1], to) + 1 >= Distance(dir, to)
  {
    var up, n := dir[..|dir| - 1], CommonPrefix(dir, to);
    CommonPrefixIsLongest(dir, to);
    if n < |dir| {
      assert up[..n] == dir[..n];
      CommonPrefixUnique(up, to, n);
    } else {
      assert up[..n - 1] == dir[..n][..n - 1] && to[..n - 1] == to[..n][..n - 1];
      CommonPrefixUnique(up, to, n - 1);
    }
  }

  lemma {:induction false} DistanceDown(dir: Segments, name: string, to: Segments)
    ensures Distance(dir + [name], to) + 1 >= Distance(dir, to)
  {
    var down, n := dir + [name], CommonPrefix(dir, to);
    CommonPrefixIsLongest(dir, to);
    if n == |dir| && n < |to| && to[n] == name {
      assert to[..n + 1] == to[..n] + [name] && down[..n + 1] == dir[..n] + [name];
      CommonPrefixUnique(down, to, n + 1);
    } else {
      assert down[..n] == dir[..n];
      CommonPrefixUnique(down, to, n);
    }
  }

  /** No list of steps that leads from the one directory to the other is shorter than the relative one. */
  lemma {:induction false} RelativeIsShortest(from: Segments, to: Segments, steps: Segments)
    requires Walk(from, steps) == to
    ensures |RelativeSteps(from, to)| == Distance(from, to) <= |steps|
    decreases |steps|
  {
    hide Distance, CommonPrefix;
    DistanceIsLength(from, to);
    if steps == [] {
      NothingToWalk(from);
    } else {
      var next := Step(from, steps[0]);
      RelativeIsShortest(next, to, steps[1..]);
      if next != from {
        if next == from + [steps[0]] { DistanceDown(from, steps[0], to); } else { DistanceUp(from, to); }
      }
    }
  }

  lemma {:induction false} DistanceIsLength(from: Segments, to: Segments)
    ensures |RelativeSteps(from, to)| == Distance(from, to)
  {
  }

  /** They are normal, so their text reads back. */
  lemma {:induction false} RelativeStepsText(from: Segments, to: Segments)
    requires IsDirectory(to)
    ensures var r := RelativeSteps(from, to);
            Steps(Join(r, '/')) == r && !IsAbsolute(Join(r, '/'))
  {
    var r := RelativeSteps(from, to);
    var common := CommonPrefix(from, to);
    assert Normal(r, true) && AllPlain(r, IsSeparator) by {
      UpsAreUps(|from| - common);
      forall i | 0 <= i < |r|
        ensures r[i] == (if i < |from| - common then ".." else to[i - (|from| - common) + common])
      {
      }
    }
    StepsOfJoin(r);
    if r != [] {
      JoinEnds(r, '/', IsSeparator);
    }
  }

  /** Following the relative path from `from` arrives where `to` resolves to, whatever the working directory. */
  lemma {:induction false} ResolveAfterRelative(cwd: string, from: string, to: string)
    ensures var relative := Join(RelativeSteps(Target(cwd, [from]), Target(cwd, [to])), '/');
            Target(cwd, [from, relative]) == Target(cwd, [to])
  {
    var f, t := Target(cwd, [from]), Target(cwd, [to]);
    var relative := Join(RelativeSteps(f, t), '/');
    TargetIsDirectory(cwd, [to]);
    RelativeStepsText(f, t);
    RelativeStepsLead(f, t);
    WalkEssential(f, Split(relative, IsSeparator));
    CdAllAppend(Cd([], cwd), [from], [relative]);
    assert [from] + [relative] == [from, relative];
    assert CdAll(f, [relative]) == Cd(f, relative);
  }

  /** From one directory, files that resolve differently have different relative paths. */
  lemma {:induction false} RelativeInjective(cwd: string, from: string, a: string, b: string)
    requires var f := Target(cwd, [from]);
             Join(RelativeSteps(f, Target(cwd, [a])), '/') == Join(RelativeSteps(f, Target(cwd, [b])), '/')
    ensures Target(cwd, [a]) == Target(cwd, [b])
  {
    ResolveAfterRelative(cwd, from, a);
    ResolveAfterRelative(cwd, from, b);
  }

  // ---- From characters to segments

  lemma {:induction false} SuffixSnoc(ss: Segments, k: nat)
    requires k < |ss|
    ensures ss[k..] == ss[..|ss| - 1][k..] + [ss[|ss| - 1]]
  {
  }

  /** Where the separators of a joined text are: before its last segment, or in the text before that. */
  lemma {:induction false} SeparatorBeforeLast(ss: Segments, p: nat)
    requires AllPlain(ss, IsSeparator) && p < |Join(ss, '/')| && Join(ss, '/')[p] == '/'
    ensures |ss| > 1 && p <= |Join(ss[..|ss| - 1], '/')|
  {
    var s, last := Join(ss, '/'), ss[|ss| - 1];
    var n := |s| - |last|;
    assert Plain(last, IsSeparator);
    assert s[n..] == last;
    assert forall q :: n <= q < |s| ==> s[q] == last[q - n];
  }

  /** A separator inside a joined text lies between two of its segments. */
  lemma {:induction false} Cut(ss: Segments, p: nat) returns (k: nat)
    requires AllPlain(ss, IsSeparator) && p < |Join(ss, '/')| && Join(ss, '/')[p] == '/'
    ensures 0 < k < |ss| && Join(ss, '/')[..p] == Join(ss[..k], '/') && Join(ss, '/')[p + 1..] == Join(ss[k..], '/')
    decreases |ss|
  {
    SeparatorBeforeLast(ss, p);
    var init, last := ss[..|ss| - 1], ss[|ss| - 1];
    var before := Join(init, '/');
    if p == |before| {
      k := |ss| - 1;
    } else {
      k := Cut(init, p);
      assert init[..k] == ss[..k];
      SuffixSnoc(ss, k);
      assert (before + ['/'] + last)[p + 1..] == before[p + 1..] + ['/'] + last;
    }
  }

  ghost function CountSeparators(s: string): (n: nat) {
    if s == "" then 0 else CountSeparators(s[..|s| - 1]) + if s[|s| - 1] == '/' then 1 else 0
  }

  lemma {:induction false} CountAppend(a: string, b: string)
    ensures CountSeparators(a + b) == CountSeparators(a) + CountSeparators(b)
    decreases |b|
  {
    if b == "" {
      assert a + b == a;
    } else {
      assert (a + b)[..|a + b| - 1] == a + b[..|b| - 1];
      CountAppend(a, b[..|b| - 1]);
    }
  }

  lemma {:induction false} CountPlain(s: string)
    requires Plain(s, IsSeparator)
    ensures CountSeparators(s) == 0
  {
    if s != "" {
      assert !IsSeparator(s[|s| - 1]);
      CountPlain(s[..|s| - 1]);
    }
  }

  /** A joined text has one separator less than it has segments. */
  lemma {:induction false} CountJoin(ss: Segments)
    requires ss != [] && AllPlain(ss, IsSeparator)
    ensures CountSeparators(Join(ss, '/')) == |ss| - 1
    decreases |ss|
  {
    CountPlain(ss[|ss| - 1]);
    if |ss| > 1 {
      CountJoin(ss[..|ss| - 1]);
      CountAppend(Join(ss[..|ss| - 1], '/') + ['/'], ss[|ss| - 1]);
      CountAppend(Join(ss[..|ss| - 1], '/'), ['/']);
      assert CountSeparators(['/'][..0]) == 0;
    }
  }

  /** `i` is where the texts first differ or the shorter ends, `sep` the last separator before it (or -1). */
  ghost predicate Diverge(g: string, t: string, i: int, sep: int) {
    && 0 <= i <= |g| && i <= |t| && g[..i] == t[..i]
    && (i < |g| && i < |t| ==> g[i] != t[i])
    && -1 <= sep < i && (sep >= 0 ==> g[sep] == '/')
    && (forall k :: sep < k < i ==> g[k] != '/')
  }

  /** One text is the other, continued by a separator: so one directory is above the other. */
  lemma {:induction false} BaseDirectory(base: Segments, dir: Segments)
    requires IsDirectory(base) && IsDirectory(dir)
    requires var b, d := Join(base, '/'), Join(dir, '/'); |b| < |d| && d[..|b|] == b && d[|b|] == '/'
    ensures CommonPrefix(base, dir) == CommonPrefix(dir, base) == |base| < |dir|
    ensures Join(dir, '/')[|Join(base, '/')| + 1..] == Join(dir[|base|..], '/')
  {
    var b, d := Join(base, '/'), Join(dir, '/');
    NamesAreNormal(dir, true);
    JoinEnds(dir, '/', IsSeparator);
    var k := Cut(dir, |b|);
    assert base != [];
    JoinInjective(base, dir[..k], '/', IsSeparator);
    assert dir[..k][..|base|] == base[..|base|];
    CommonPrefixUnique(base, dir, |base|);
    CommonPrefixUnique(dir, base, |base|);
  }

  /** Up to a common separator, both directories have the same segments. */
  lemma {:induction false} CommonSegments(f: Segments, t: Segments, i: int, sep: int) returns (k: nat)
    requires IsDirectory(f) && IsDirectory(t) && f != [] && t != []
    requires Diverge(Join(f, '/'), Join(t, '/'), i, sep)
    ensures k < |f| && k < |t| && f[..k] == t[..k]
    ensures Join(f, '/')[sep + 1..] == Join(f[k..], '/') && Join(t, '/')[sep + 1..] == Join(t[k..], '/')
  {
    var g, h := Join(f, '/'), Join(t, '/');
    if sep == -1 {
      k := 0;
      assert g[0..] == g && h[0..] == h && f[0..] == f && t[0..] == t;
    } else {
      assert g[..i][sep] == g[sep] && h[..i][sep] == h[sep];
      assert g[..i][..sep] == g[..sep] && h[..i][..sep] == h[..sep];
      k := Cut(f, sep);
      var k' := Cut(t, sep);
      JoinInjective(f[..k], t[..k'], '/', IsSeparator);
    }
  }

  /** The text starts with this segment: it ends there or goes on with a separator. */
  ghost predicate StartsWithSegment(s: string, seg: string) {
    |seg| <= |s| && s[..|seg|] == seg && (|s| > |seg| ==> s[|seg|] == '/')
  }

  lemma {:induction false} JoinFirst(ss: Segments)
    requires ss != []
    ensures StartsWithSegment(Join(ss, '/'), ss[0])
  {
    if |ss| > 1 {
      JoinAppend([ss[0]], ss[1..], '/');
      assert [ss[0]] + ss[1..] == ss;
    }
  }

  /** Texts with another segment in common part only where one of them runs into a separator of the other. */
  lemma {:induction false} SharedSegment(g: string, h: string, i: int, sep: int, seg: string)
    requires Diverge(g, h, i, sep)
    requires StartsWithSegment(g[sep + 1..], seg) && StartsWithSegment(h[sep + 1..], seg)
    ensures g == h || (i == |g| < |h| && h[i] == '/') || (i == |h| < |g| && g[i] == '/')
  {
    var p := sep + 1 + |seg|;
    forall q | sep < q < p
      ensures g[q] == h[q]
    {
      assert g[q] == g[sep + 1..][..|seg|][q - sep - 1] && h[q] == h[sep + 1..][..|seg|][q - sep - 1];
    }
    assert i >= p;
    assert |g| > p ==> g[p] == g[sep + 1..][|seg|] == '/';
    assert |h| > p ==> h[p] == h[sep + 1..][|seg|] == '/';
    assert |g| == p || |h| == p;
    if |g| == |h| {
      assert g[..i] == g && h[..i] == h;
    }
  }

  /** Past the last common separator the directories part, unless one text runs into a separator of the other. */
  lemma {:induction false} SegmentsPart(f: Segments, t: Segments, i: int, sep: int, k: nat)
    requires IsDirectory(f) && IsDirectory(t) && k < |f| && k < |t| && f != t
    requires Diverge(Join(f, '/'), Join(t, '/'), i, sep)
    requires Join(f, '/')[sep + 1..] == Join(f[k..], '/') && Join(t, '/')[sep + 1..] == Join(t[k..], '/')
    requires var g, h := Join(f, '/'), Join(t, '/');
             !(i == |g| < |h| && h[i] == '/') && !(i == |h| < |g| && g[i] == '/')
    ensures f[k] != t[k]
  {
    JoinFirst(f[k..]);
    JoinFirst(t[k..]);
    if f[k] == t[k] {
      SharedSegment(Join(f, '/'), Join(t, '/'), i, sep, f[k]);
      JoinInjective(f, t, '/', IsSeparator);
    }
  }

  // ---- The code

  /** `stringPrototypeCharCodeAt`: nothing beyond the end. */
  function CodeAt(s: string, i: nat): (r: Option<char>) {
    if i < |s| then Some(s[i]) else None
  }

  /** The loop that walks both texts from the root for as long as they agree. */
  method LongestCommonPath(from: string, to: string) returns (i: int, lastCommonSep: int)
    requires IsAbsolute(from) && IsAbsolute(to) && from != to
    ensures Diverge(from[1..], to[1..], i, lastCommonSep)
  {
    var fromLen, toLen := |from| - 1, |to| - 1;
    var length := if fromLen < toLen then fromLen else toLen;
    ghost var g, h := from[1..], to[1..];
    assert from == [from[0]] + g && to == [to[0]] + h;
    lastCommonSep := -1;
    i := 0;
    var l := 0;
    while l <= length
      invariant 0 <= l <= length && i <= l
      invariant g[..l] == h[..l]
      invariant -1 <= lastCommonSep < l && (lastCommonSep >= 0 ==> g[lastCommonSep] == '/')
      invariant forall k :: lastCommonSep < k < l ==> g[k] != '/'
      decreases length - l
    {
      i := l;
      var fromCode := CodeAt(from, 1 + l);
      if fromCode != CodeAt(to, 1 + l) {
        break;
      } else if fromCode == Some('/') {
        lastCommonSep := l;
      }
      assert l < length by {
        assert g[..fromLen] == g && h[..toLen] == h;
      }
      assert g[..l + 1] == g[..l] + [g[l]] && h[..l + 1] == h[..l] + [h[l]];
      l := l + 1;
    }
  }

  lemma {:induction false} NoUps()
    ensures Join(Ups(0), '/') == ""
  {
  }

  lemma {:induction false} OneMoreUp(n: nat, out: string)
    requires out == Join(Ups(n), '/') && (n > 0 ==> out != "")
    ensures Join(Ups(n + 1), '/') == out + (if out == "" then ".." else "/..")
  {
    assert Ups(n + 1)[..n] == Ups(n);
  }

  /** The loop that writes the climb, one ".." for each segment it finds behind `start`. */
  method ClimbOut(from: string, start: nat) returns (out: string)
    requires start <= |from|
    ensures out == ClimbText(from, start)
  {
    hide Join;
    NoUps();
    out := "";
    ghost var n := 0;
    var index := start;
    while index <= |from|
      invariant start <= index <= |from| + 1
      invariant index <= |from| ==> n == CountSeparators(from[start..index])
      invariant index > |from| ==> n == CountSeparators(from[start..]) + 1
      invariant out == Join(Ups(n), '/') && (n > 0 ==> out != "")
    {
      assert index < |from| ==> from[start..index + 1][..index - start] == from[start..index];
      assert from[start..] == from[start..|from|];
      if index == |from| || from[index] == '/' {
        OneMoreUp(n, out);
        out := out + (if |out| == 0 then ".." else "/..");
        n := n + 1;
      }
      index := index + 1;
    }
  }

  lemma {:induction false} NothingToWalk(f: Segments)
    ensures RelativeSteps(f, f) == []
  {
    CommonPrefixUnique(f, f, |f|);
  }

  lemma {:induction false} EmptyText(dir: Segments)
    requires IsDirectory(dir)
    ensures Join(dir, '/') == "" <==> dir == []
    ensures dir != [] ==> Join(dir, '/')[0] != '/'
  {
    if dir != [] { JoinEnds(dir, '/', IsSeparator); }
  }

  /** The text `h` goes on below `g`: `g` is the root, or is followed by a separator in `h`. */
  ghost predicate Below(g: string, h: string) {
    |g| < |h| && (g == "" || (h[..|g|] == g && h[|g|] == '/'))
  }

  /** How the code recognizes that one text is below the other. */
  lemma {:induction false} DivergeBelow(g: string, h: string, i: int, sep: int)
    requires Diverge(g, h, i, sep)
    ensures Below(g, h) <==> i == |g| < |h| && (i == 0 || h[i] == '/')
    ensures Below(h, g) <==> i == |h| < |g| && (i == 0 || g[i] == '/')
  {
    assert g[..|g|] == g && h[..|h|] == h;
    assert i < |g| <= |h| ==> h[..|g|][i] == h[i];
    assert i < |h| <= |g| ==> g[..|h|][i] == g[i];
  }

  /** `to` lies below `from`: what of it goes beyond `from` is the relative path. */
  lemma {:induction false} ToIsBelow(f: Segments, t: Segments)
    requires IsDirectory(f) && IsDirectory(t) && Below(Join(f, '/'), Join(t, '/'))
    ensures Join(RelativeSteps(f, t), '/') == PathOf(t)[if f == [] then 1 else |PathOf(f)| + 1..]
  {
    EmptyText(f);
    if f == [] {
      assert Ups(0) + t[0..] == t;
    } else {
      BaseDirectory(f, t);
      assert Ups(0) + t[|f|..] == t[|f|..];
    }
  }

  /** Climbing out of the part of `from` behind position `start`, as the code writes it. */
  ghost function ClimbText(from: string, start: nat): (r: string)
    requires start <= |from|
  {
    Join(Ups(CountSeparators(from[start..]) + 1), '/')
  }

  lemma {:induction false} DropRoot(dir: Segments, k: nat)
    requires k <= |Join(dir, '/')|
    ensures PathOf(dir)[k + 1..] == Join(dir, '/')[k..]
  {
  }

  /** `to` is above `from`: the relative steps only climb. */
  lemma {:induction false} OnlyUps(f: Segments, t: Segments)
    requires CommonPrefix(f, t) == |t|
    ensures RelativeSteps(f, t) == Ups(|f| - |t|)
  {
  }

  lemma {:induction false} CountBehindFirst(g: string)
    requires g != "" && g[0] != '/'
    ensures CountSeparators(g[1..]) == CountSeparators(g)
  {
    CountAppend(g[..1], g[1..]);
    assert g[..1] + g[1..] == g;
    CountPlain(g[..1]);
  }

  /** From anywhere to the root: one climb per segment. */
  lemma {:induction false} ToIsRoot(f: Segments)
    requires IsDirectory(f) && f != []
    ensures |PathOf(f)| >= 2 && Join(RelativeSteps(f, []), '/') == ClimbText(PathOf(f), 2)
  {
    hide Join, Ups, CountSeparators, RelativeSteps;
    EmptyText(f);
    DropRoot(f, 1);
    CountJoin(f);
    CountBehindFirst(Join(f, '/'));
    OnlyUps(f, []);
  }

  /** `from` lies below `to`, which is not the root: one climb per segment in between. */
  lemma {:induction false} ToIsAbove(f: Segments, t: Segments)
    requires IsDirectory(f) && IsDirectory(t) && t != [] && Below(Join(t, '/'), Join(f, '/'))
    ensures |PathOf(t)| + 1 <= |PathOf(f)| && Join(RelativeSteps(f, t), '/') == ClimbText(PathOf(f), |PathOf(t)| + 1)
  {
    hide Join, Ups, CountSeparators, RelativeSteps, ClimbText;
    EmptyText(t);
    BaseDirectory(t, f);
    OnlyUps(f, t);
    ClimbTextOf(f, |t|, |Join(t, '/')|);
  }

  /** Neither directory is above the other: they part at a segment, just after the last common separator. */
  lemma {:induction false} PartingPoint(f: Segments, t: Segments, i: int, sep: int) returns (k: nat)
    requires IsDirectory(f) && IsDirectory(t) && f != t
    requires Diverge(Join(f, '/'), Join(t, '/'), i, sep)
    requires !Below(Join(f, '/'), Join(t, '/')) && !Below(Join(t, '/'), Join(f, '/'))
    ensures k < |f| && k < |t| && CommonPrefix(f, t) == k
    ensures Join(f, '/')[sep + 1..] == Join(f[k..], '/') && Join(t, '/')[sep + 1..] == Join(t[k..], '/')
  {
    EmptyText(f);
    EmptyText(t);
    DivergeBelow(Join(f, '/'), Join(t, '/'), i, sep);
    k := CommonSegments(f, t, i, sep);
    SegmentsPart(f, t, i, sep, k);
    CommonPrefixUnique(f, t, k);
  }

  lemma {:induction false} ClimbTextOf(f: Segments, k: nat, sep: int)
    requires -1 <= sep < |Join(f, '/')| && k < |f| && AllPlain(f, IsSeparator)
    requires Join(f, '/')[sep + 1..] == Join(f[k..], '/')
    ensures ClimbText(PathOf(f), sep + 2) == Join(Ups(|f| - k), '/')
  {
    DropRoot(f, sep + 1);
    CountJoin(f[k..]);
  }

  lemma {:induction false} FollowTextOf(t: Segments, k: nat, sep: int)
    requires -1 <= sep < |Join(t, '/')| && k < |t| && PathOf(t)[sep + 1] == '/'
    requires Join(t, '/')[sep + 1..] == Join(t[k..], '/')
    ensures PathOf(t)[sep + 1..] == ['/'] + Join(t[k..], '/')
  {
    DropRoot(t, sep + 1);
    var to := PathOf(t);
    assert to[sep + 1..] == [to[sep + 1]] + to[sep + 2..];
  }

  lemma {:induction false} RelativeText(f: Segments, t: Segments)
    requires CommonPrefix(f, t) < |f| && CommonPrefix(f, t) < |t|
    ensures var k := CommonPrefix(f, t);
            Join(RelativeSteps(f, t), '/') == Join(Ups(|f| - k), '/') + (['/'] + Join(t[k..], '/'))
  {
    var k := CommonPrefix(f, t);
    JoinAppend(Ups(|f| - k), t[k..], '/');
  }

  /** The part of `to` after the common path starts with a separator. */
  lemma {:induction false} CommonSeparator(t: Segments, g: string, i: int, sep: int)
    requires Diverge(g, Join(t, '/'), i, sep)
    ensures sep + 2 <= |PathOf(t)| && PathOf(t)[sep + 1] == '/'
  {
    var h := Join(t, '/');
    assert sep >= 0 ==> g[..i][sep] == h[..i][sep];
  }

  /** Climb out of what is left of `from`, then follow what is left of `to`. */
  lemma {:induction false} PartedText(f: Segments, t: Segments, k: nat, sep: int)
    requires -1 <= sep < |Join(f, '/')| && sep < |Join(t, '/')| && PathOf(t)[sep + 1] == '/'
    requires AllPlain(f, IsSeparator) && k == CommonPrefix(f, t) && k < |f| && k < |t|
    requires Join(f, '/')[sep + 1..] == Join(f[k..], '/') && Join(t, '/')[sep + 1..] == Join(t[k..], '/')
    ensures Join(RelativeSteps(f, t), '/') == ClimbText(PathOf(f), sep + 2) + PathOf(t)[sep + 1..]
  {
    ClimbTextOf(f, k, sep);
    FollowTextOf(t, k, sep);
    RelativeText(f, t);
  }

  lemma {:induction false} SideBySide(f: Segments, t: Segments, i: int, sep: int)
    requires IsDirectory(f) && IsDirectory(t) && f != t
    requires Diverge(Join(f, '/'), Join(t, '/'), i, sep)
    requires !Below(Join(f, '/'), Join(t, '/')) && !Below(Join(t, '/'), Join(f, '/'))
    ensures sep + 2 <= |PathOf(f)| && sep + 1 <= |PathOf(t)|
    ensures Join(RelativeSteps(f, t), '/') == ClimbText(PathOf(f), sep + 2) + PathOf(t)[sep + 1..]
  {
    var k := PartingPoint(f, t, i, sep);
    CommonSeparator(t, Join(f, '/'), i, sep);
    PartedText(f, t, k, sep);
  }

  /** `from` lies below `to`, the root or not: the climb is the whole way. */
  lemma {:induction false} OnlyClimbing(f: Segments, t: Segments)
    requires IsDirectory(f) && IsDirectory(t) && Below(Join(t, '/'), Join(f, '/'))
    ensures |PathOf(t)| + 1 <= |PathOf(f)|
    ensures Join(RelativeSteps(f, t), '/') == ClimbText(PathOf(f), |PathOf(t)| + 1) + PathOf(t)[|PathOf(t)|..]
  {
    EmptyText(f);
    EmptyText(t);
    if t == [] { ToIsRoot(f); } else { ToIsAbove(f, t); }
    assert PathOf(t)[|PathOf(t)|..] == "";
  }

  /** Where `relative` cuts the two texts, once it has compared them. */
  ghost function SettledSeparator(g: string, h: string, sep: int): (r: int) {
    if Below(h, g) then |h| else sep
  }

  /** The last lines of `relative`: climb out of what is left of `from`, then follow what is left of `to`. */
  lemma {:induction false} ClimbAndFollow(f: Segments, t: Segments, from: string, to: string,
                                          i: int, sep: int, settled: int)
    requires IsDirectory(f) && IsDirectory(t) && f != t && from == PathOf(f) && to == PathOf(t)
    requires Diverge(Join(f, '/'), Join(t, '/'), i, sep) && !Below(Join(f, '/'), Join(t, '/'))
    requires settled == SettledSeparator(Join(f, '/'), Join(t, '/'), sep)
    ensures -1 <= settled && settled + 2 <= |from| && settled + 1 <= |to|
    ensures Join(RelativeSteps(f, t), '/') == ClimbText(from, 1 + settled + 1) + to[1 + settled..]
  {
    if Below(Join(t, '/'), Join(f, '/')) {
      OnlyClimbing(f, t);
    } else {
      SideBySide(f, t, i, sep);
    }
  }

  /** Compares the texts; answers at once if `to` is below `from`, else says where to cut them. */
  method Compare(from: string, to: string, ghost g: string, ghost h: string)
    returns (r: Option<string>, lastCommonSep: int, ghost i: int, ghost sep: int)
    requires from == "/" + g && to == "/" + h && g != h && (h == "" || h[0] != '/')
    ensures Diverge(g, h, i, sep)
    ensures r.Some? <==> Below(g, h)
    ensures r.Some? ==> r.value == to[if g == "" then 1 else |from| + 1..]
    ensures r.None? ==> lastCommonSep == SettledSeparator(g, h, sep)
  {
    assert from[1..] == g && to[1..] == h;
    var fromLen, toLen := |from| - 1, |to| - 1;
    var length := if fromLen < toLen then fromLen else toLen;
    var end;
    end, lastCommonSep := LongestCommonPath(from, to);
    i, sep := end, lastCommonSep;
    DivergeBelow(g, h, i, sep);
    if end == length {
      if toLen > length {
        if CodeAt(to, 1 + end) == Some('/') {
          r := Some(to[1 + end + 1..]);
          return;
        }
        if end == 0 {
          r := Some(to[1 + end..]);
          return;
        }
      } else if fromLen > length {
        if CodeAt(from, 1 + end) == Some('/') {
          lastCommonSep := end;
        } else if end == 0 {
          lastCommonSep := 0;
        }
      }
    }
    r := None;
  }

  /** The relative path is the text of the relative steps between the two resolved directories. */
  method Relative(from: string, to: string, cwd: string) returns (r: string)
    requires IsAbsolute(cwd)
    ensures r == Join(RelativeSteps(Target(cwd, [from]), Target(cwd, [to])), '/')
  {
    ghost var f, t := Target(cwd, [from]), Target(cwd, [to]);
    if from == to {
      NothingToWalk(f);
      return "";
    }
    var resolvedFrom := Resolve([from], cwd);
    var resolvedTo := Resolve([to], cwd);
    TargetIsDirectory(cwd, [from]);
    TargetIsDirectory(cwd, [to]);
    r := RelativeBetween(resolvedFrom.value, resolvedTo.value, f, t);
  }

  /** The part of `relative` that works on the two resolved texts. */
  method RelativeBetween(from: string, to: string, ghost f: Segments, ghost t: Segments) returns (r: string)
    requires IsDirectory(f) && IsDirectory(t) && from == PathOf(f) && to == PathOf(t)
    ensures r == Join(RelativeSteps(f, t), '/')
  {
    if from == to {
      PathOfInjective(f, t);
      NothingToWalk(f);
      return "";
    }
    EmptyText(f);
    EmptyText(t);
    ghost var i, sep;
    var answer, lastCommonSep;
    answer, lastCommonSep, i, sep := Compare(from, to, Join(f, '/'), Join(t, '/'));
    if answer.Some? {
      ToIsBelow(f, t);
      return answer.value;
    }
    ClimbAndFollow(f, t, from, to, i, sep, lastCommonSep);
    var out := ClimbOut(from, 1 + lastCommonSep + 1);
    r := out + to[1 + lastCommonSep..];
  }

  /** `resolve(from, relative(from, to))` and `resolve(to)` are the same path. */
  method ResolveBothWays(from: string, to: string, cwd: string) returns (there: string, direct: string)
    requires IsAbsolute(cwd)
    ensures there == direct == PathOf(Target(cwd, [to]))
  {
    var relative := Relative(from, to, cwd);
    var r := Resolve([from, relative], cwd);
    there := r.value;
    r := Resolve([to], cwd);
    direct := r.value;
    ResolveAfterRelative(cwd, from, to);
  }
}
