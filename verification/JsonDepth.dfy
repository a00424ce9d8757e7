/** The depth limit: encoding any heap, cyclic or not, ends, and fails exactly on nesting that is too deep. */
module JsonDepth {
  import opened Wrappers
  import opened JsonModel
  import opened JsonTables

  /** Some chain of nested tables that starts with `v` has more than `n` tables. */
  ghost predicate NestedDeeperThan(h: Heap, v: Value, n: int) {
    exists ids :: Chain(h, v, ids) && |ids| > n
  }

  ghost predicate Encodable(v: Value) {
    v != Opaque && v != NonFinite
  }

  /** The value itself, and everything in the tables reached from it, can be encoded. */
  ghost predicate LeavesEncodable(h: Heap, v: Value) {
    Encodable(v) && forall id, u :: Reaches(h, v, id) && Nested(h(id), u) ==> Encodable(u)
  }

  /** Enough Lua stack for the deepest table that is allowed. */
  ghost predicate EnoughSlots(c: Config, depth: int, height: int) {
    depth < c.maxDepth ==> height + 2 * (c.maxDepth - depth) + 2 <= c.slots
  }

  ghost predicate OkOrTooDeep<T>(r: Result<T, Error>) {
    r.Ok? || r == Err(TooDeep)
  }

  lemma {:induction false} ItemsTooDeep(h: Heap, c: Config, cs: seq<Child>, depth: int, height: int)
    requires forall i :: 0 <= i < |cs| ==> OkOrTooDeep(Denote(h, c, cs[i].value, depth, height))
    ensures OkOrTooDeep(DenoteItems(h, c, cs, depth, height))
    ensures DenoteItems(h, c, cs, depth, height).Err? <==>
              exists i :: 0 <= i < |cs| && Denote(h, c, cs[i].value, depth, height).Err?
    decreases |cs|
  {
    if cs != [] {
      var init := cs[..|cs| - 1];
      assert forall i :: 0 <= i < |init| ==> init[i] == cs[i];
      ItemsTooDeep(h, c, init, depth, height);
      assert cs[|cs| - 1] == cs[|cs| - 1];
    }
  }

  /** A chain goes on through a nested table. */
  lemma {:induction false} DeeperThroughChild(h: Heap, id: nat, n: int)
    requires n >= 1
    ensures NestedDeeperThan(h, TableRef(id), n) <==>
              exists v :: Nested(h(id), v) && NestedDeeperThan(h, v, n - 1)
  {
    if NestedDeeperThan(h, TableRef(id), n) {
      var ids :| Chain(h, TableRef(id), ids) && |ids| > n;
      assert Chain(h, TableRef(ids[1]), ids[1..]) && |ids[1..]| > n - 1;
      assert NestedDeeperThan(h, TableRef(ids[1]), n - 1);
    }
    if v :| Nested(h(id), v) && NestedDeeperThan(h, v, n - 1) {
      var ids :| Chain(h, v, ids) && |ids| > n - 1;
      ChainThrough(h, id, v, ids);
      assert |[id] + ids| > n;
    }
  }

  lemma {:induction false} OneTableIsAChain(h: Heap, id: nat, n: int)
    requires n < 1
    ensures NestedDeeperThan(h, TableRef(id), n)
  {
    assert Chain(h, TableRef(id), [id]) && |[id]| > n;
  }

  /** If the children of a table fail exactly on chains longer than n - 1, the table does on chains longer than n. */
  lemma {:induction false} ChildrenDecide(h: Heap, c: Config, id: nat, depth: int, height: int, n: int)
    requires DistinctKeys(h(id).entries) && SortsKeys(c) && n >= 1
    requires forall v :: Nested(h(id), v) ==>
               && OkOrTooDeep(Denote(h, c, v, depth, height))
               && (Denote(h, c, v, depth, height).Err? <==> NestedDeeperThan(h, v, n - 1))
    ensures var r := DenoteItems(h, c, Children(h(id), c), depth, height);
            OkOrTooDeep(r) && (r.Err? <==> NestedDeeperThan(h, TableRef(id), n))
  {
    hide Denote, DenoteItems, Children, NestedDeeperThan, Nested;
    var cs := Children(h(id), c);
    DeeperThroughChild(h, id, n);
    forall i | 0 <= i < |cs|
      ensures Nested(h(id), cs[i].value)
    {
      ChildrenAreNested(h(id), c, cs[i].value);
    }
    ItemsTooDeep(h, c, cs, depth, height);
    if v :| Nested(h(id), v) && NestedDeeperThan(h, v, n - 1) {
      ChildrenAreNested(h(id), c, v);
    }
  }

  /** With encodable leaves and enough stack, "nested too depth" is raised exactly when some chain of
      nested tables is longer than the depth that is left; otherwise there is no error at all. */
  lemma {:induction false} TooDeepExactly(h: Heap, c: Config, v: Value, depth: int, height: int)
    requires IsLuaHeap(h) && SortsKeys(c) && LeavesEncodable(h, v) && EnoughSlots(c, depth, height)
    ensures OkOrTooDeep(Denote(h, c, v, depth, height))
    ensures Denote(h, c, v, depth, height).Err? <==> NestedDeeperThan(h, v, c.maxDepth - depth)
    decreases Rank(c, depth)
  {
    if v.TableRef? {
      if depth + 1 > c.maxDepth {
        OneTableIsAChain(h, v.id, c.maxDepth - depth);
      } else {
        hide Children, NestedDeeperThan, Nested, Reaches;
        var height' := ChildHeight(h(v.id), c, height);
        ReachesThrough(h, v.id);
        forall u | Nested(h(v.id), u)
          ensures OkOrTooDeep(Denote(h, c, u, depth + 1, height'))
          ensures Denote(h, c, u, depth + 1, height').Err? <==> NestedDeeperThan(h, u, c.maxDepth - depth - 1)
        {
          TooDeepExactly(h, c, u, depth + 1, height');
        }
        ChildrenDecide(h, c, v.id, depth + 1, height', c.maxDepth - depth);
      }
    }
  }

  /** Whatever else is in the tables and however small the stack, a chain that is too long is an error. */
  lemma {:induction false} TooDeepIsError(h: Heap, c: Config, v: Value, depth: int, height: int)
    requires IsLuaHeap(h) && SortsKeys(c) && NestedDeeperThan(h, v, c.maxDepth - depth)
    ensures Denote(h, c, v, depth, height).Err?
    decreases Rank(c, depth)
  {
    if depth + 1 <= c.maxDepth {
      hide Nested, Denote, SortsKeys;
      DeeperThroughChild(h, v.id, c.maxDepth - depth);
      var u :| Nested(h(v.id), u) && NestedDeeperThan(h, u, c.maxDepth - depth - 1);
      TooDeepIsError(h, c, u, depth + 1, ChildHeight(h(v.id), c, height));
      if Denote(h, c, v, depth, height).Ok? {
        NestedIsEncoded(h, c, v.id, u, depth, height);
      }
    }
  }

  // ---- Cycles

  /** What is nested in the last table of a chain continues the chain. */
  lemma {:induction false} ChainAppend(h: Heap, v: Value, a: seq<nat>, b: seq<nat>)
    requires Chain(h, v, a) && b != [] && Nested(h(a[|a| - 1]), TableRef(b[0])) && Chain(h, TableRef(b[0]), b)
    ensures Chain(h, v, a + b)
    decreases |a|
  {
    assert (a + b)[1..] == a[1..] + b;
    if |a| > 1 {
      ChainAppend(h, TableRef(a[1]), a[1..], b);
    } else {
      assert a[1..] + b == b;
    }
  }

  /** A chain that comes back to one of its own tables can be made as long as one likes. */
  lemma {:induction false} CycleIsDeep(h: Heap, v: Value, ids: seq<nat>, i: nat, n: int)
    requires Chain(h, v, ids) && i < |ids| && Nested(h(ids[|ids| - 1]), TableRef(ids[i]))
    ensures NestedDeeperThan(h, v, n)
    decreases |ids|, if n < 0 then 0 else n
  {
    if i > 0 {
      CycleIsDeep(h, TableRef(ids[1]), ids[1..], i - 1, n - 1);
      var longer :| Chain(h, TableRef(ids[1]), longer) && |longer| > n - 1;
      ChainThrough(h, ids[0], TableRef(ids[1]), longer);
      assert |[ids[0]] + longer| > n;
    } else if n < 1 {
      OneTableIsAChain(h, ids[0], n);
    } else {
      CycleIsDeep(h, v, ids, 0, n - 1);
      var longer :| Chain(h, v, longer) && |longer| > n - 1;
      ChainAppend(h, v, ids, longer);
      assert |ids + longer| > n;
    }
  }

  /** A value from which a cycle can be reached is never encoded, whatever the depth limit. */
  lemma {:induction false} CyclicIsNeverEncoded(h: Heap, c: Config, v: Value, ids: seq<nat>, i: nat,
                                                depth: int, height: int)
    requires IsLuaHeap(h) && SortsKeys(c)
    requires Chain(h, v, ids) && i < |ids| && Nested(h(ids[|ids| - 1]), TableRef(ids[i]))
    ensures Denote(h, c, v, depth, height).Err?
  {
    CycleIsDeep(h, v, ids, i, c.maxDepth - depth);
    TooDeepIsError(h, c, v, depth, height);
  }
}
