/** With sorted keys, the encoding does not depend on the order in which tables are enumerated. */
module JsonOrder {
  import opened Wrappers
  import opened Sequences
  import opened JsonModel
  import opened JsonTables

  // ---- The order of keys

  /** The part of a key that strcmp looks at. */
  ghost function CString(s: string): (r: string) {
    if s == "" || s[0] == NUL then "" else [s[0]] + CString(s[1..])
  }

  /** Up to position k the two texts agree; there the first one ends, or has the smaller character. */
  ghost predicate LessAt(a: string, b: string, k: nat) {
    k <= |a| && k < |b| && a[..k] == b[..k] && (k == |a| || a[k] < b[k])
  }

  /** What strcmp computes: the order of the dictionary, on the texts up to their first NUL. */
  lemma {:induction false} LessIsDictionaryOrder(a: string, b: string)
    ensures Less(a, b) <==> exists k :: LessAt(CString(a), CString(b), k)
    decreases |a|
  {
    var x, y := CString(a), CString(b);
    CStringHead(a);
    CStringHead(b);
    if x == "" || y == "" || x[0] != y[0] {
      if Less(a, b) {
        assert LessAt(x, y, 0);
      }
      if k :| LessAt(x, y, k) {
        DifferAtStart(x, y, k);
      }
    } else {
      LessIsDictionaryOrder(a[1..], b[1..]);
      if k :| LessAt(CString(a[1..]), CString(b[1..]), k) {
        LaterByOne(x[0], CString(a[1..]), CString(b[1..]), k);
        assert x == [x[0]] + x[1..] && y == [y[0]] + y[1..];
      }
      if k :| LessAt(x, y, k) {
        DifferLater(x, y, k);
      }
    }
  }

  lemma {:induction false} CStringHead(s: string)
    ensures CString(s) == "" <==> s == "" || s[0] == NUL
    ensures CString(s) != "" ==> CString(s)[0] == s[0] && CString(s)[1..] == CString(s[1..])
  {
  }

  lemma {:induction false} AgreeBefore(x: string, y: string, k: nat, i: nat)
    requires LessAt(x, y, k) && i < k
    ensures x[i] == y[i]
  {
    assert x[..k][i] == y[..k][i];
  }

  lemma {:induction false} DifferAtStart(x: string, y: string, k: nat)
    requires LessAt(x, y, k) && (x == "" || y == "" || x[0] != y[0])
    ensures k == 0
  {
    if k > 0 {
      AgreeBefore(x, y, k, 0);
    }
  }

  lemma {:induction false} LaterByOne(c: char, x: string, y: string, k: nat)
    requires LessAt(x, y, k)
    ensures LessAt([c] + x, [c] + y, k + 1)
  {
    assert ([c] + x)[..k + 1] == [c] + x[..k] && ([c] + y)[..k + 1] == [c] + y[..k];
  }

  lemma {:induction false} DifferLater(x: string, y: string, k: nat)
    requires LessAt(x, y, k) && x != "" && y != "" && x[0] == y[0]
    ensures k > 0 && LessAt(x[1..], y[1..], k - 1)
  {
    assert k > 0;
    assert x[1..][..k - 1] == x[..k][1..] && y[1..][..k - 1] == y[..k][1..];
  }

  lemma {:induction false} LessIsOrder(a: string, b: string, c: string)
    ensures !(Less(a, b) && Less(b, a))
    ensures Less(a, b) || Less(b, a) || CString(a) == CString(b)
    ensures !Less(b, a) && !Less(c, b) ==> !Less(c, a)
    ensures CString(a) == CString(b) ==> !Less(a, b) && !Less(b, a)
    ensures CString(a) == CString(b) ==> Less(a, c) == Less(b, c) && Less(c, a) == Less(c, b)
    decreases |a| + |b| + |c|
  {
    var a', b', c' := if a == "" then a else a[1..], if b == "" then b else b[1..], if c == "" then c else c[1..];
    assert a != "" && a[0] != NUL ==> CString(a)[0] == a[0] && CString(a)[1..] == CString(a');
    assert b != "" && b[0] != NUL ==> CString(b)[0] == b[0] && CString(b)[1..] == CString(b');
    if a != "" || b != "" || c != "" {
      LessIsOrder(a', b', c');
    }
  }

  /** No two different keys look the same to strcmp. */
  ghost predicate NoTwins(keys: seq<string>) {
    forall a, b :: a in keys && b in keys && CString(a) == CString(b) ==> a == b
  }

  // ---- A sorting exists: insertion sort

  ghost function Insert(key: string, keys: seq<string>): (r: seq<string>) {
    if keys == [] || !Less(key, keys[|keys| - 1]) then keys + [key]
    else Insert(key, keys[..|keys| - 1]) + [keys[|keys| - 1]]
  }

  ghost function Sort(keys: seq<string>): (r: seq<string>) {
    if keys == [] then [] else Insert(keys[|keys| - 1], Sort(keys[..|keys| - 1]))
  }

  lemma {:induction false} InsertIsPermutation(key: string, keys: seq<string>)
    ensures multiset(Insert(key, keys)) == multiset(keys) + multiset{key}
    decreases |keys|
  {
    if keys != [] {
      InsertIsPermutation(key, keys[..|keys| - 1]);
      assert keys == keys[..|keys| - 1] + [keys[|keys| - 1]];
    }
  }

  lemma {:induction false} SortIsPermutation(keys: seq<string>)
    ensures multiset(Sort(keys)) == multiset(keys)
  {
    hide Insert;
    if keys != [] {
      SortIsPermutation(keys[..|keys| - 1]);
      InsertIsPermutation(keys[|keys| - 1], Sort(keys[..|keys| - 1]));
      assert keys == keys[..|keys| - 1] + [keys[|keys| - 1]];
    }
  }

  lemma {:induction false} InsertSorted(key: string, keys: seq<string>)
    requires Sorted(keys)
    ensures Sorted(Insert(key, keys))
    decreases |keys|
  {
    LessIsOrder(key, key, key);
    if keys != [] {
      var init, last := keys[..|keys| - 1], keys[|keys| - 1];
      LessIsOrder(key, last, last);
      if Less(key, last) {
        InsertSorted(key, init);
        var more := Insert(key, init);
        forall i | 0 <= i < |more|
          ensures !Less(last, more[i])
        {
          InsertedIsOldOrNew(key, init, more[i]);
        }
      } else {
        forall i | 0 <= i < |keys|
          ensures !Less(key, keys[i])
        {
          LessIsOrder(keys[i], last, key);
        }
      }
    }
  }

  lemma {:induction false} InsertedIsOldOrNew(key: string, keys: seq<string>, k: string)
    requires k in Insert(key, keys)
    ensures k == key || k in keys
  {
    InsertIsPermutation(key, keys);
    assert k in multiset(Insert(key, keys));
  }

  lemma {:induction false} SortSorts(keys: seq<string>)
    ensures IsSorting(keys, Sort(keys))
  {
    SortIsPermutation(keys);
    if keys != [] {
      SortSorts(keys[..|keys| - 1]);
      InsertSorted(keys[|keys| - 1], Sort(keys[..|keys| - 1]));
    }
  }

  lemma {:induction false} DropLast(s: seq<string>)
    requires s != []
    ensures multiset(s[..|s| - 1]) == multiset(s) - multiset{s[|s| - 1]}
    ensures Sorted(s) ==> Sorted(s[..|s| - 1])
    ensures NoTwins(s) ==> NoTwins(s[..|s| - 1])
  {
    hide Less, CString;
    assert s == s[..|s| - 1] + [s[|s| - 1]];
  }

  /** The last key is the greatest, up to twins. */
  lemma {:induction false} SameLast(a: seq<string>, b: seq<string>)
    requires Sorted(a) && Sorted(b) && multiset(a) == multiset(b) && NoTwins(a) && a != [] && b != []
    ensures a[|a| - 1] == b[|b| - 1]
  {
    var x, y := a[|a| - 1], b[|b| - 1];
    assert x in multiset(b) && y in multiset(a);
    assert x in b && y in a;
    assert !Less(x, y) && !Less(y, x);
    LessIsOrder(x, y, y);
  }

  /** Without twins there is only one sorting. */
  lemma {:induction false} SortedIsUnique(a: seq<string>, b: seq<string>)
    requires Sorted(a) && Sorted(b) && multiset(a) == multiset(b) && NoTwins(a)
    ensures a == b
    decreases |a|
  {
    hide Sorted, NoTwins;
    assert |multiset(a)| == |multiset(b)|;
    if a != [] {
      SameLast(a, b);
      DropLast(a);
      DropLast(b);
      SortedIsUnique(a[..|a| - 1], b[..|b| - 1]);
      assert a == a[..|a| - 1] + [a[|a| - 1]] && b == b[..|b| - 1] + [b[|b| - 1]];
    }
  }

  /** Sorting is determined by the keys exactly when no two of them agree up to their first NUL. */
  lemma {:induction false} SortIsDetermined(keys: seq<string>)
    requires Distinct(keys)
    ensures (forall out :: IsSorting(keys, out) ==> out == Sort(keys)) <==> NoTwins(keys)
  {
    SortSorts(keys);
    PermutationKeepsKeys(keys, Sort(keys));
    if NoTwins(keys) {
      forall out | IsSorting(keys, out)
        ensures out == Sort(keys)
      {
        SortedIsUnique(Sort(keys), out);
      }
    } else {
      var a, b :| a in keys && b in keys && CString(a) == CString(b) && a != b;
      var out := SwapTwins(Sort(keys), a, b);
      assert IsSorting(keys, out);
    }
  }

  lemma {:induction false} SwapIsPermutation(s: seq<string>, p: nat, q: nat)
    requires p < |s| && q < |s|
    ensures multiset(s[p := s[q]][q := s[p]]) == multiset(s)
  {
  }

  lemma {:induction false} SwapTwins(s: seq<string>, a: string, b: string) returns (out: seq<string>)
    requires Sorted(s) && a in s && b in s && CString(a) == CString(b) && a != b
    ensures IsSorting(s, out) && out != s
  {
    var p :| 0 <= p < |s| && s[p] == a;
    var q :| 0 <= q < |s| && s[q] == b;
    out := s[p := b][q := a];
    assert out[p] == b;
    SwapIsPermutation(s, p, q);
    assert forall i :: 0 <= i < |s| ==> CString(out[i]) == CString(s[i]);
    TwinsKeepOrder(s, out);
  }

  /** Keys that look the same to strcmp are sorted the same. */
  lemma {:induction false} TwinsKeepOrder(s: seq<string>, out: seq<string>)
    requires Sorted(s) && |out| == |s| && forall i :: 0 <= i < |s| ==> CString(out[i]) == CString(s[i])
    ensures Sorted(out)
  {
    hide Less, CString;
    forall i, j | 0 <= i <= j < |out|
      ensures !Less(out[j], out[i])
    {
      LessIsOrder(s[j], out[j], out[i]);
      LessIsOrder(s[i], out[i], s[j]);
    }
  }

  /** Two keys that differ only behind a NUL byte come out in either order. */
  lemma {:induction false} TwinsExample()
    ensures var a, b := ['a', NUL, 'x'], ['a', NUL, 'y'];
            IsSorting([a, b], [a, b]) && IsSorting([a, b], [b, a]) && a != b
  {
    var a, b := ['a', NUL, 'x'], ['a', NUL, 'y'];
    assert a[1..] == [NUL, 'x'] && b[1..] == [NUL, 'y'];
    assert CString(a) == "a" && CString(b) == "a" by {
      assert CString(a[1..]) == "" && CString(b[1..]) == "";
    }
    LessIsOrder(a, b, a);
    LessIsOrder(a, a, a);
    LessIsOrder(b, b, b);
    assert multiset([a, b]) == multiset([b, a]);
  }

  // ---- Independence of the enumeration order

  /** The same options, possibly with a different implementation of `std::sort`. */
  ghost predicate SameOptions(c: Config, c': Config) {
    c.sortKeys == c'.sortKeys && c.maxDepth == c'.maxDepth && c.slots == c'.slots
  }

  /** No object reached from `v` has two string keys that agree up to a NUL byte. */
  ghost predicate NoTwinKeysFrom(h: Heap, v: Value) {
    forall id :: Reaches(h, v, id) && !h(id).isArray ==> NoTwins(StringKeys(h(id).entries))
  }

  lemma {:induction false} SameKeys(t: Table, t': Table)
    requires SameTable(t, t') && DistinctKeys(t.entries) && DistinctKeys(t'.entries)
    ensures multiset(StringKeys(t.entries)) == multiset(StringKeys(t'.entries))
  {
    var ks, ks' := StringKeys(t.entries), StringKeys(t'.entries);
    KeysOfEntries(t.entries);
    KeysOfEntries(t'.entries);
    KeysAreDistinct(t.entries);
    KeysAreDistinct(t'.entries);
    assert forall e :: e in multiset(t.entries) <==> e in t.entries;
    assert forall e :: e in multiset(t'.entries) <==> e in t'.entries;
    forall k
      ensures multiset(ks)[k] == multiset(ks')[k]
    {
      DistinctMultiplicity(ks, k);
      DistinctMultiplicity(ks', k);
    }
  }

  lemma {:induction false} SameLookup(t: Table, t': Table, k: string)
    requires SameTable(t, t') && DistinctKeys(t.entries) && DistinctKeys(t'.entries) && k in StringKeys(t.entries)
    ensures Lookup(t.entries, k) == Lookup(t'.entries, k)
  {
    KeysOfEntries(t.entries);
    var e :| e in t.entries && e.key == StringKey(k);
    assert e in multiset(t'.entries);
    LookupFinds(t.entries, e);
    LookupFinds(t'.entries, e);
  }

  lemma {:induction false} SameSortedChildren(t: Table, t': Table, c: Config, c': Config)
    requires SameTable(t, t') && DistinctKeys(t.entries) && DistinctKeys(t'.entries)
    requires c.sortKeys && c'.sortKeys && SortsKeys(c) && SortsKeys(c')
    requires !t.isArray ==> NoTwins(StringKeys(t.entries))
    ensures Children(t, c) == Children(t', c')
  {
    if !t.isArray {
      var sorted, sorted' := c.sort(StringKeys(t.entries)), c'.sort(StringKeys(t'.entries));
      SameKeys(t, t');
      SortedKeys(t, c);
      SortedKeys(t', c');
      SortedIsUnique(sorted, sorted');
      forall i | 0 <= i < |sorted|
        ensures Lookup(t.entries, sorted[i]) == Lookup(t'.entries, sorted[i])
      {
        assert sorted[i] in sorted;
        SameLookup(t, t', sorted[i]);
      }
    }
  }

  lemma {:induction false} ItemsAgree(h: Heap, h': Heap, c: Config, c': Config, cs: seq<Child>, depth: int, height: int)
    requires forall i :: 0 <= i < |cs| ==>
               Denote(h, c, cs[i].value, depth, height) == Denote(h', c', cs[i].value, depth, height)
    ensures DenoteItems(h, c, cs, depth, height) == DenoteItems(h', c', cs, depth, height)
    decreases |cs|
  {
    if cs != [] {
      var init := cs[..|cs| - 1];
      assert forall i :: 0 <= i < |init| ==> init[i] == cs[i];
      ItemsAgree(h, h', c, c', init, depth, height);
    }
  }

  /** Tables of one kind whose items agree have the same outcome. */
  lemma {:induction false} TablesAgree(h: Heap, h': Heap, c: Config, c': Config, id: nat, depth: int, height: int)
    requires SameTable(h(id), h'(id)) && SameOptions(c, c')
    requires var height' := ChildHeight(h(id), c, height);
             DenoteItems(h, c, Children(h(id), c), depth + 1, height')
             == DenoteItems(h', c', Children(h'(id), c'), depth + 1, height')
    ensures Denote(h, c, TableRef(id), depth, height) == Denote(h', c', TableRef(id), depth, height)
  {
  }

  /** With sorted keys, the whole outcome (event stream or error) is the same for every enumeration order
      of every table at every depth, and for every implementation of the sort. */
  lemma {:induction false} SortedOrderIndependent(h: Heap, h': Heap, c: Config, c': Config, v: Value,
                                                  depth: int, height: int)
    requires c.sortKeys && SameOptions(c, c') && SortsKeys(c) && SortsKeys(c')
    requires SameHeap(h, h') && IsLuaHeap(h) && IsLuaHeap(h') && NoTwinKeysFrom(h, v)
    ensures Denote(h, c, v, depth, height) == Denote(h', c', v, depth, height)
    decreases Rank(c, depth)
  {
    if v.TableRef? && depth + 1 <= c.maxDepth {
      hide Denote, DenoteItems, Children, Reaches, Nested, NoTwins, SortsKeys;
      var t, t' := h(v.id), h'(v.id);
      var cs, height' := Children(t, c), ChildHeight(t, c, height);
      assert SameTable(t, t');
      ReachesThrough(h, v.id);
      SameSortedChildren(t, t', c, c');
      forall i | 0 <= i < |cs|
        ensures Denote(h, c, cs[i].value, depth + 1, height') == Denote(h', c', cs[i].value, depth + 1, height')
      {
        ChildrenAreNested(t, c, cs[i].value);
        SortedOrderIndependent(h, h', c, c', cs[i].value, depth + 1, height');
      }
      ItemsAgree(h, h', c, c', cs, depth + 1, height');
      TablesAgree(h, h', c, c', v.id, depth, height);
    }
  }

  // ---- The condition is exact

  /** Equal outcomes of an encoded table come from equal children, in the same order, with equal outcomes. */
  lemma {:induction false} SameOutcomeSameChildren(h: Heap, c: Config, c': Config, id: nat, depth: int, height: int)
    requires c.sortKeys && SameOptions(c, c')
    requires Denote(h, c, TableRef(id), depth, height).Ok?
    requires Denote(h, c, TableRef(id), depth, height) == Denote(h, c', TableRef(id), depth, height)
    ensures var cs, cs', height' := Children(h(id), c), Children(h(id), c'), ChildHeight(h(id), c, height);
            && |cs| == |cs'|
            && (forall i :: 0 <= i < |cs| ==> cs[i].key == cs'[i].key)
            && (forall i :: 0 <= i < |cs| ==> Denote(h, c, cs[i].value, depth + 1, height').Ok?)
            && (forall i :: 0 <= i < |cs| ==>
                  Denote(h, c, cs[i].value, depth + 1, height') == Denote(h, c', cs'[i].value, depth + 1, height'))
  {
    hide Children, Denote, DenoteItems;
    var cs, cs', height' := Children(h(id), c), Children(h(id), c'), ChildHeight(h(id), c, height);
    TableOutcome(h, c, id, depth, height);
    TableOutcome(h, c', id, depth, height);
    ItemsOfChildren(h, c, cs, depth + 1, height');
    ItemsOfChildren(h, c', cs', depth + 1, height');
  }

  /** Children that have the same keys are the same. */
  lemma {:induction false} SameKeysSameChildren(t: Table, c: Config, c': Config)
    requires c.sortKeys && c'.sortKeys && |Children(t, c)| == |Children(t, c')|
    requires forall i :: 0 <= i < |Children(t, c)| ==> Children(t, c)[i].key == Children(t, c')[i].key
    ensures Children(t, c) == Children(t, c')
    ensures !t.isArray ==> c.sort(StringKeys(t.entries)) == c'.sort(StringKeys(t.entries))
  {
    if !t.isArray {
      var cs, sorted, sorted' := Children(t, c), c.sort(StringKeys(t.entries)), c'.sort(StringKeys(t.entries));
      forall i | 0 <= i < |cs|
        ensures sorted[i] == sorted'[i]
      {
        assert cs[i].key == Some(sorted[i]) && Children(t, c')[i].key == Some(sorted'[i]);
      }
    }
  }

  /** Two sorts with the same outcome sort the keys of every object reached the same way. */
  lemma {:induction false} SameOutcomeSameSort(h: Heap, c: Config, c': Config, v: Value, ids: seq<nat>,
                                               depth: int, height: int)
    requires IsLuaHeap(h) && c.sortKeys && SameOptions(c, c') && SortsKeys(c) && SortsKeys(c')
    requires Denote(h, c, v, depth, height).Ok? && Denote(h, c, v, depth, height) == Denote(h, c', v, depth, height)
    requires Chain(h, v, ids) && !h(ids[|ids| - 1]).isArray
    ensures var keys := StringKeys(h(ids[|ids| - 1]).entries); c.sort(keys) == c'.sort(keys)
    decreases |ids|
  {
    hide Children, Denote, DenoteItems, SortsKeys, Nested;
    var t, height' := h(ids[0]), ChildHeight(h(ids[0]), c, height);
    SameOutcomeSameChildren(h, c, c', ids[0], depth, height);
    SameKeysSameChildren(t, c, c');
    if |ids| > 1 {
      ChildrenAreNested(t, c, TableRef(ids[1]));
      SameOutcomeSameSort(h, c, c', TableRef(ids[1]), ids[1..], depth + 1, height');
    }
  }

  /** A sort that differs only on the given keys, where twins are swapped. */
  lemma {:induction false} OtherSort(c: Config, keys: seq<string>) returns (c': Config)
    requires c.sortKeys && SortsKeys(c) && !NoTwins(keys)
    ensures SameOptions(c, c') && SortsKeys(c') && c'.sort(keys) != c.sort(keys)
  {
    var a, b :| a in keys && b in keys && CString(a) == CString(b) && a != b;
    assert IsSorting(keys, c.sort(keys));
    PermutationKeepsKeys(keys, c.sort(keys));
    var out := SwapTwins(c.sort(keys), a, b);
    c' := c.(sort := other => if other == keys then out else c.sort(other));
    forall other
      ensures IsSorting(other, c'.sort(other))
    {
      assert IsSorting(other, c.sort(other));
    }
  }

  /** Every sort gives the outcome that this one gives. */
  ghost predicate SortDoesNotMatter(h: Heap, c: Config, v: Value, depth: int, height: int) {
    forall c' :: SameOptions(c, c') && SortsKeys(c') ==>
      Denote(h, c', v, depth, height) == Denote(h, c, v, depth, height)
  }

  /** Where encoding with sorted keys succeeds, its result is determined by the tables if and only if no object
      reached has two keys that agree up to a NUL byte. */
  lemma {:induction false} DeterminedExactly(h: Heap, c: Config, v: Value, depth: int, height: int)
    requires IsLuaHeap(h) && c.sortKeys && SortsKeys(c) && Denote(h, c, v, depth, height).Ok?
    ensures SortDoesNotMatter(h, c, v, depth, height) <==> NoTwinKeysFrom(h, v)
  {
    hide Denote, NoTwins, SortsKeys;
    if NoTwinKeysFrom(h, v) {
      forall c' | SameOptions(c, c') && SortsKeys(c')
        ensures Denote(h, c', v, depth, height) == Denote(h, c, v, depth, height)
      {
        SortedOrderIndependent(h, h, c, c', v, depth, height);
      }
    }
    if SortDoesNotMatter(h, c, v, depth, height) {
      forall id | Reaches(h, v, id) && !h(id).isArray
        ensures NoTwins(StringKeys(h(id).entries))
      {
        if !NoTwins(StringKeys(h(id).entries)) {
          var ids :| Chain(h, v, ids) && ids[|ids| - 1] == id;
          var c' := OtherSort(c, StringKeys(h(id).entries));
          SameOutcomeSameSort(h, c, c', v, ids, depth, height);
        }
      }
    }
  }
}
