/** Facts about sequences that several modules share. */
module Sequences {

  ghost predicate Distinct<T>(s: seq<T>) {
    forall i, j :: 0 <= i < j < |s| ==> s[i] != s[j]
  }

  lemma {:induction false} Assoc<T>(a: seq<T>, b: seq<T>, c: seq<T>)
    ensures a + b + c == a + (b + c)
  {
  }

  lemma {:induction false} EqualParts<T>(a: seq<T>, b: seq<T>, n: nat)
    requires n <= |a| && n <= |b| && (forall i :: 0 <= i < n ==> a[i] == b[i]) && a[n..] == b[n..]
    ensures a == b
  {
    assert a[..n] == b[..n];
    assert a == a[..n] + a[n..] && b == b[..n] + b[n..];
  }

  /** Lua's `string.sub(s, i + 1, j)` for non-negative bounds: clipped, never failing. */
  function Slice<T>(s: seq<T>, i: nat, j: nat): (r: seq<T>)
    ensures i <= j <= |s| ==> r == s[i..j]
    ensures i <= |s| <= j ==> r == s[i..]
    ensures i >= j || i >= |s| ==> r == []
  {
    var hi := if j < |s| then j else |s|;
    if i < hi then s[i..hi] else []
  }
}
