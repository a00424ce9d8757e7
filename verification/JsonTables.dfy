/** Tables, what is nested in them, and how the encoder's children relate to that. */
module JsonTables {
  import opened Wrappers
  import opened Sequences
  import opened JsonModel

  /** A Lua table has at most one entry per key. */
  ghost predicate DistinctKeys(entries: seq<Entry>) {
    forall i, j :: 0 <= i < j < |entries| ==> entries[i].key != entries[j].key
  }

  ghost predicate IsLuaHeap(h: Heap) {
    forall id :: DistinctKeys(h(id).entries)
  }

  /** `v` is a value of the table that takes part in the encoding. */
  ghost predicate Nested(t: Table, v: Value) {
    if t.isArray then v in t.elements
    else exists e :: e in t.entries && e.key.StringKey? && e.value == v
  }

  /** The same table, possibly enumerated in a different order. */
  ghost predicate SameTable(t: Table, t': Table) {
    && t.isArray == t'.isArray && t.elements == t'.elements
    && multiset(t.entries) == multiset(t'.entries)
  }

  ghost predicate SameHeap(h: Heap, h': Heap) {
    forall id :: SameTable(h(id), h'(id))
  }

  lemma {:induction false} SameEntries(t: Table, t': Table)
    requires SameTable(t, t')
    ensures forall e :: e in t.entries <==> e in t'.entries
  {
    assert forall e :: e in multiset(t.entries) <==> e in t.entries;
    assert forall e :: e in multiset(t'.entries) <==> e in t'.entries;
  }

  // ---- Chains of nested tables

  /** Tables ids[0], ids[1], ... each nested in the one before, starting with the table `v`. */
  ghost predicate Chain(h: Heap, v: Value, ids: seq<nat>)
    decreases |ids|
  {
    && ids != [] && v == TableRef(ids[0])
    && (|ids| > 1 ==> Nested(h(ids[0]), TableRef(ids[1])) && Chain(h, TableRef(ids[1]), ids[1..]))
  }

  /** The table `id` is `v`, or is nested in it at some depth. */
  ghost predicate Reaches(h: Heap, v: Value, id: nat) {
    exists ids :: Chain(h, v, ids) && ids[|ids| - 1] == id
  }

  /** A chain goes on through a nested table. */
  lemma {:induction false} ChainThrough(h: Heap, id: nat, v: Value, ids: seq<nat>)
    requires Nested(h(id), v) && Chain(h, v, ids)
    ensures Chain(h, TableRef(id), [id] + ids)
  {
    assert ([id] + ids)[1..] == ids;
  }

  /** A table reaches itself, and whatever is reached from a table nested in it. */
  lemma {:induction false} ReachesThrough(h: Heap, id: nat)
    ensures Reaches(h, TableRef(id), id)
    ensures forall v, id' :: Nested(h(id), v) && Reaches(h, v, id') ==> Reaches(h, TableRef(id), id')
  {
    assert Chain(h, TableRef(id), [id]);
    forall v, id' | Nested(h(id), v) && Reaches(h, v, id')
      ensures Reaches(h, TableRef(id), id')
    {
      var ids :| Chain(h, v, ids) && ids[|ids| - 1] == id';
      ChainThrough(h, id, v, ids);
      assert ([id] + ids)[|[id] + ids| - 1] == id';
    }
  }

  // ---- Entries and keys

  lemma {:induction false} KeysOfEntries(entries: seq<Entry>)
    ensures forall k :: k in StringKeys(entries) <==> exists e :: e in entries && e.key == StringKey(k)
    ensures |StringKeys(entries)| == |Members(entries)|
    ensures forall i :: 0 <= i < |Members(entries)| ==> Members(entries)[i].key == Some(StringKeys(entries)[i])
  {
    if entries != [] {
      var init, last := entries[..|entries| - 1], entries[|entries| - 1];
      KeysOfEntries(init);
      assert entries == init + [last];
      assert forall e :: e in entries <==> e in init || e == last;
    }
  }

  lemma {:induction false} MembersOfEntries(entries: seq<Entry>)
    ensures forall k, v :: Child(Some(k), v) in Members(entries) <==> Entry(StringKey(k), v) in entries
  {
    if entries != [] {
      var init, last := entries[..|entries| - 1], entries[|entries| - 1];
      MembersOfEntries(init);
      assert entries == init + [last];
      assert last.key.StringKey? ==> last == Entry(StringKey(last.key.s), last.value);
    }
  }

  lemma {:induction false} LookupFinds(entries: seq<Entry>, e: Entry)
    requires DistinctKeys(entries) && e in entries && e.key.StringKey?
    ensures Lookup(entries, e.key.s) == e.value
  {
    if entries[0] != e {
      assert e in entries[1..];
      assert entries[0].key != e.key;
      LookupFinds(entries[1..], e);
    }
  }

  lemma {:induction false} KeysAreDistinct(entries: seq<Entry>)
    requires DistinctKeys(entries)
    ensures Distinct(StringKeys(entries))
  {
    if entries != [] {
      var init, last := entries[..|entries| - 1], entries[|entries| - 1];
      KeysAreDistinct(init);
      KeysOfEntries(init);
      assert forall e :: e in init ==> e.key != last.key;
    }
  }

  // ---- Permutations of keys

  lemma {:induction false} PermutationKeepsKeys(keys: seq<string>, out: seq<string>)
    requires multiset(out) == multiset(keys)
    ensures |out| == |keys| && forall k :: k in out <==> k in keys
  {
    assert |multiset(out)| == |multiset(keys)|;
    forall k
      ensures k in out <==> k in keys
    {
      assert k in multiset(out) <==> k in multiset(keys);
    }
  }

  lemma {:induction false} DistinctMultiplicity(keys: seq<string>, k: string)
    requires Distinct(keys)
    ensures multiset(keys)[k] == if k in keys then 1 else 0
    decreases |keys|
  {
    if keys != [] {
      DistinctMultiplicity(keys[..|keys| - 1], k);
      assert keys == keys[..|keys| - 1] + [keys[|keys| - 1]];
    }
  }

  lemma {:induction false} DistinctPermutation(a: seq<string>, b: seq<string>)
    requires Distinct(a) && multiset(a) == multiset(b)
    ensures Distinct(b)
  {
    forall i, j | 0 <= i < j < |b|
      ensures b[i] != b[j]
    {
      DistinctMultiplicity(a, b[i]);
      assert b == b[..i] + [b[i]] + b[i + 1..j] + [b[j]] + b[j + 1..];
    }
  }

  // ---- Children: the entries with string keys, whatever the order

  lemma {:induction false} SortedKeys(t: Table, c: Config)
    requires SortsKeys(c) && c.sortKeys
    ensures var keys, sorted := StringKeys(t.entries), c.sort(StringKeys(t.entries));
            && IsSorting(keys, sorted) && |sorted| == |keys|
            && (forall k :: k in sorted <==> k in keys)
  {
    PermutationKeepsKeys(StringKeys(t.entries), c.sort(StringKeys(t.entries)));
  }

  /** Every child of an object is one of its entries. */
  lemma {:induction false} EntryOfChild(t: Table, c: Config, i: nat) returns (e: Entry)
    requires DistinctKeys(t.entries) && SortsKeys(c) && !t.isArray && i < |Children(t, c)|
    ensures e in t.entries && e.key.StringKey? && Children(t, c)[i] == Child(Some(e.key.s), e.value)
  {
    KeysOfEntries(t.entries);
    var child := Children(t, c)[i];
    if c.sortKeys {
      SortedKeys(t, c);
      var k := c.sort(StringKeys(t.entries))[i];
      assert k in StringKeys(t.entries);
      e :| e in t.entries && e.key == StringKey(k);
      LookupFinds(t.entries, e);
    } else {
      MembersOfEntries(t.entries);
      MembersHaveKeys(t.entries);
      e := Entry(StringKey(child.key.value), child.value);
      assert Child(Some(child.key.value), child.value) in Members(t.entries);
    }
  }

  /** Every entry with a string key is a child. */
  lemma {:induction false} ChildOfEntry(t: Table, c: Config, e: Entry) returns (i: nat)
    requires DistinctKeys(t.entries) && SortsKeys(c) && !t.isArray && e in t.entries && e.key.StringKey?
    ensures i < |Children(t, c)| && Children(t, c)[i] == Child(Some(e.key.s), e.value)
  {
    KeysOfEntries(t.entries);
    if c.sortKeys {
      SortedKeys(t, c);
      var sorted := c.sort(StringKeys(t.entries));
      assert e.key.s in sorted;
      i :| 0 <= i < |sorted| && sorted[i] == e.key.s;
      LookupFinds(t.entries, e);
    } else {
      MembersOfEntries(t.entries);
      assert e == Entry(StringKey(e.key.s), e.value);
      i :| 0 <= i < |Members(t.entries)| && Members(t.entries)[i] == Child(Some(e.key.s), e.value);
    }
  }

  lemma {:induction false} ChildKeysDistinct(t: Table, c: Config)
    requires DistinctKeys(t.entries) && SortsKeys(c) && !t.isArray
    ensures forall i, j :: 0 <= i < j < |Children(t, c)| ==> Children(t, c)[i].key != Children(t, c)[j].key
  {
    var ks := StringKeys(t.entries);
    KeysOfEntries(t.entries);
    KeysAreDistinct(t.entries);
    if c.sortKeys {
      SortedKeys(t, c);
      DistinctPermutation(ks, c.sort(ks));
    }
  }

  /** The children of a table are the values nested in it, sorted or not. */
  lemma {:induction false} ChildrenAreNested(t: Table, c: Config, v: Value)
    requires DistinctKeys(t.entries) && SortsKeys(c)
    ensures Nested(t, v) <==> exists i :: 0 <= i < |Children(t, c)| && Children(t, c)[i].value == v
  {
    var cs := Children(t, c);
    if t.isArray {
      assert forall i :: 0 <= i < |cs| ==> cs[i].value == t.elements[i];
    } else {
      if Nested(t, v) {
        var e :| e in t.entries && e.key.StringKey? && e.value == v;
        var i := ChildOfEntry(t, c, e);
        assert cs[i].value == v;
      }
      if i :| 0 <= i < |cs| && cs[i].value == v {
        var e := EntryOfChild(t, c, i);
      }
    }
  }

  /** If a table is encoded, so is everything nested in it. */
  lemma {:induction false} NestedIsEncoded(h: Heap, c: Config, id: nat, u: Value, depth: int, height: int)
    requires IsLuaHeap(h) && SortsKeys(c) && Denote(h, c, TableRef(id), depth, height).Ok? && Nested(h(id), u)
    ensures depth + 1 <= c.maxDepth && Denote(h, c, u, depth + 1, ChildHeight(h(id), c, height)).Ok?
  {
    hide Children, Nested, Denote, DenoteItems, SortsKeys;
    TableOutcome(h, c, id, depth, height);
    ChildrenAreNested(h(id), c, u);
    ItemsOfChildren(h, c, Children(h(id), c), depth + 1, ChildHeight(h(id), c, height));
  }

  // ---- The order of an object's keys

  /** How many of the first i entries have a string key. */
  ghost function StringsBefore(entries: seq<Entry>, i: nat): (n: nat)
    requires i <= |entries|
  {
    if i == 0 then 0 else StringsBefore(entries, i - 1) + if entries[i - 1].key.StringKey? then 1 else 0
  }

  lemma {:induction false} StringsBeforePrefix(entries: seq<Entry>, i: nat)
    requires i < |entries|
    ensures StringsBefore(entries[..|entries| - 1], i) == StringsBefore(entries, i)
    decreases i
  {
    if i > 0 { StringsBeforePrefix(entries, i - 1); }
  }

  /** Members come in the order of the entries, with nothing in between. */
  lemma {:induction false} MembersInOrder(entries: seq<Entry>, i: nat)
    requires i < |entries|
    ensures |Members(entries)| == StringsBefore(entries, |entries|)
    ensures entries[i].key.StringKey? ==>
              && StringsBefore(entries, i) < |Members(entries)|
              && Members(entries)[StringsBefore(entries, i)] == Child(Some(entries[i].key.s), entries[i].value)
    decreases |entries|
  {
    var init := entries[..|entries| - 1];
    StringsBeforePrefix(entries, |init|);
    StringsBeforePrefix(entries, i);
    if init != [] {
      MembersInOrder(init, if i < |init| then i else 0);
    }
  }

  /** The keys of an encoded object are in dictionary order if they are sorted, else in the order of the table. */
  lemma {:induction false} KeysInOrder(h: Heap, c: Config, id: nat, items: seq<Item>, depth: int, height: int)
    requires SortsKeys(c) && !h(id).isArray && Denote(h, c, TableRef(id), depth, height) == Ok(Node(Object, items))
    ensures var entries := h(id).entries;
            && (c.sortKeys ==> forall i, j :: 0 <= i <= j < |items| ==>
                  items[i].key.Some? && items[j].key.Some? && !Less(items[j].key.value, items[i].key.value))
            && (!c.sortKeys ==> forall i :: 0 <= i < |entries| && entries[i].key.StringKey? ==>
                  StringsBefore(entries, i) < |items| && items[StringsBefore(entries, i)].key == Some(entries[i].key.s))
  {
    hide Less, Denote, DenoteItems, StringsBefore;
    var cs, height' := Children(h(id), c), ChildHeight(h(id), c, height);
    TableOutcome(h, c, id, depth, height);
    ItemsOfChildren(h, c, cs, depth + 1, height');
    if c.sortKeys {
      SortedKeys(h(id), c);
    } else {
      forall i | 0 <= i < |h(id).entries|
        ensures h(id).entries[i].key.StringKey? ==>
                  && StringsBefore(h(id).entries, i) < |cs|
                  && cs[StringsBefore(h(id).entries, i)].key == Some(h(id).entries[i].key.s)
      {
        MembersInOrder(h(id).entries, i);
      }
    }
  }
}
