/** The encoder: a recursive walk that pushes and pops the Lua stack and appends to the writer. */
module JsonEncoder {
  import opened Wrappers
  import opened Sequences
  import opened JsonModel
  import opened JsonTables
  import opened JsonDepth
  import opened JsonMeaning

  /** A slot of the Lua stack. During enumeration it holds keys, nil before the first one. */
  datatype Slot = Val(value: Value) | KeySlot(key: Key) | NilKey

  class Encoder {
    const heap: Heap
    const config: Config
    var stack: seq<Slot>
    var events: seq<Event>

    constructor (heap: Heap, config: Config, stack: seq<Slot>)
      ensures this.heap == heap && this.config == config && this.stack == stack && events == []
    {
      this.heap, this.config, this.stack := heap, config, stack;
      events := [];
    }

    /** The call did what `r` says: raised the error, or wrote the events and left the stack as it was. */
    ghost predicate Did(r: Result<Json, Error>, outcome: Result<(), Error>, stack0: seq<Slot>, events0: seq<Event>)
      reads this
    {
      match r
      case Err(e) => outcome == Err(e)
      case Ok(j) => outcome == Ok(()) && stack == stack0 && events == events0 + Flatten(j)
    }

    method Write(e: Event)
      modifies this`events
      ensures events == old(events) + [e]
    {
      events := events + [e];
    }

    method Push(slot: Slot)
      modifies this`stack
      ensures stack == old(stack) + [slot]
    {
      stack := stack + [slot];
    }

    method Pop(n: nat)
      requires n <= |stack|
      modifies this`stack
      ensures stack == old(stack[..|stack| - n])
    {
      stack := stack[..|stack| - n];
    }

    /** Encodes the value in stack slot `idx`. */
    method EncodeValue(idx: nat, depth: int) returns (outcome: Result<(), Error>)
      requires idx < |stack| && stack[idx].Val?
      modifies this`stack, this`events
      ensures Did(Denote(heap, config, old(stack)[idx].value, depth, |old(stack)|), outcome, old(stack), old(events))
      decreases Rank(config, depth), 0, 0
    {
      match stack[idx].value {
        case Boolean(b) => Write(Emit(SBool(b)));
        case Integer(i) => Write(Emit(SInt(i)));
        case Double(x) => Write(Emit(SDouble(x)));
        case NonFinite => return Err(DoubleError);
        case String(s) => Write(Emit(SString(s)));
        case TableRef(id) =>
          outcome := EncodeTable(id, depth + 1);
          return;
        case Nil => Write(Emit(SNull));
        case NullPointer => Write(Emit(SNull));
        case Stringable(s) =>
          Push(Val(String(s)));
          Write(Emit(SString(stack[|stack| - 1].value.s)));
          Pop(1);
        case Opaque => return Err(NotEncodable);
      }
      return Ok(());
    }

    /** The whole promise: what is written reads back as a tree that says what the value is, and the stack is as it
        was. If what is nested in the value can be encoded and the stack is large enough, the only error is
        excessive depth, raised exactly on chains of tables longer than the limit. */
    method Encode(idx: nat) returns (outcome: Result<(), Error>, ghost j: Json)
      requires idx < |stack| && stack[idx].Val? && events == []
      requires IsLuaHeap(heap) && SortsKeys(config)
      modifies this`stack, this`events
      ensures outcome.Ok? ==>
                && stack == old(stack) && Parse(events) == Some((j, []))
                && Represents(heap, old(stack)[idx].value, MeaningOf(j))
      ensures LeavesEncodable(heap, old(stack)[idx].value) && EnoughSlots(config, 0, |old(stack)|) ==>
                outcome == if NestedDeeperThan(heap, old(stack)[idx].value, config.maxDepth)
                           then Err(TooDeep) else Ok(())
    {
      hide Denote, Represents, MeaningOf, LeavesEncodable, EnoughSlots, NestedDeeperThan, SortsKeys;
      ghost var v, height := stack[idx].value, |stack|;
      ghost var r := Denote(heap, config, v, 0, height);
      j := if r.Ok? then r.value else Leaf(SNull);
      if r.Ok? {
        EventsRebuildValue(heap, config, v, 0, height, []);
        EncodingRepresents(heap, config, v, 0, height);
        assert Flatten(j) + [] == Flatten(j) && [] + Flatten(j) == Flatten(j);
      }
      if LeavesEncodable(heap, v) && EnoughSlots(config, 0, height) {
        TooDeepExactly(heap, config, v, 0, height);
      }
      outcome := EncodeValue(idx, 0);
    }

    method EncodeTable(id: nat, depth: int) returns (outcome: Result<(), Error>)
      modifies this`stack, this`events
      ensures Did(DenoteTable(heap, config, heap(id), depth, |old(stack)|), outcome, old(stack), old(events))
      decreases if depth <= config.maxDepth then Rank(config, depth) + 1 else 0, -1, 0
    {
      if depth > config.maxDepth {
        return Err(TooDeep);
      }
      if |stack| + 4 > config.slots {
        return Err(StackOverflow);
      }
      if heap(id).isArray {
        outcome := EncodeArray(id, depth);
        return;
      }
      if !config.sortKeys {
        outcome := EncodeObject(id, depth);
        return;
      }
      var keys := CollectKeys(id);
      outcome := EncodeSorted(id, depth, keys);
    }

    /** The string keys of a table, in enumeration order. */
    method CollectKeys(id: nat) returns (keys: seq<string>)
      modifies this`stack
      ensures keys == StringKeys(heap(id).entries) && stack == old(stack)
    {
      var entries := heap(id).entries;
      keys := [];
      Push(NilKey);
      var k := 0;
      while k < |entries|
        invariant 0 <= k <= |entries| && keys == StringKeys(entries[..k])
        invariant |stack| == |old(stack)| + 1 && stack[..|old(stack)|] == old(stack)
      {
        assert entries[..k + 1][..k] == entries[..k];
        Pop(1);
        Push(KeySlot(entries[k].key));
        Push(Val(entries[k].value));
        if stack[|stack| - 2].key.StringKey? {
          keys := keys + [stack[|stack| - 2].key.s];
        }
        Pop(1);
        k := k + 1;
      }
      assert entries[..k] == entries;
      Pop(1);
    }

    /** After the children cs[..n]: their items are written, and the stack is `base`. */
    ghost predicate Progress(cs: seq<Child>, n: nat, depth: int, height: int, items: seq<Item>,
                             before: seq<Event>, kind: Kind)
      reads this`events
    {
      && n <= |cs| && DenoteItems(heap, config, cs[..n], depth, height) == Ok(items)
      && events == before + [Start(kind)] + FlattenItems(items)
    }

    /** Encodes the next child, which is on top of the stack, behind its key if it has one. */
    method EncodeChild(ghost cs: seq<Child>, ghost n: nat, depth: int, key: Option<string>,
                       ghost items: seq<Item>, ghost before: seq<Event>, ghost kind: Kind)
      returns (outcome: Result<(), Error>, ghost items': seq<Item>)
      requires n < |cs| && |stack| > 0 && stack[|stack| - 1] == Val(cs[n].value) && key == cs[n].key
      requires Progress(cs, n, depth, |stack|, items, before, kind)
      modifies this`stack, this`events
      ensures outcome.Err? ==> DenoteItems(heap, config, cs, depth, |old(stack)|) == Err(outcome.error)
      ensures outcome.Ok? ==> stack == old(stack) && Progress(cs, n + 1, depth, |old(stack)|, items', before, kind)
      decreases Rank(config, depth), 1, 0
    {
      items' := items;
      assert cs[..n + 1][..n] == cs[..n];
      ghost var start := events;
      if key.Some? {
        Write(KeyEvent(key.value));
      }
      ghost var r := Denote(heap, config, cs[n].value, depth, |stack|);
      outcome := EncodeValue(|stack| - 1, depth);
      if outcome.Err? {
        FirstError(heap, config, cs, n + 1, depth, |old(stack)|);
      } else {
        items' := items + [Item(key, r.value)];
        FlattenSnoc(items, Item(key, r.value));
        Assoc(before + [Start(kind)], FlattenItems(items), FlattenItem(Item(key, r.value)));
        if key.Some? {
          Assoc(start, [KeyEvent(key.value)], Flatten(r.value));
        } else {
          assert FlattenItem(Item(key, r.value)) == Flatten(r.value);
        }
      }
    }

    /** Before the first child, only the start marker is written. */
    lemma {:induction false} Started(cs: seq<Child>, depth: int, height: int, before: seq<Event>, kind: Kind)
      requires events == before + [Start(kind)]
      ensures Progress(cs, 0, depth, height, [], before, kind)
    {
    }

    /** When all children are through, the end marker completes the value. */
    lemma {:induction false} Finished(cs: seq<Child>, depth: int, height: int, items: seq<Item>,
                                      before: seq<Event>, kind: Kind)
      requires Progress(cs, |cs|, depth, height, items, before, kind)
      ensures DenoteItems(heap, config, cs, depth, height) == Ok(items)
      ensures events + [End(kind)] == before + Flatten(Node(kind, items))
    {
      assert cs[..|cs|] == cs;
      Assoc(before, [Start(kind)], FlattenItems(items));
      Assoc(before, [Start(kind)] + FlattenItems(items), [End(kind)]);
    }

    method EncodeArray(id: nat, depth: int) returns (outcome: Result<(), Error>)
      requires heap(id).isArray && depth <= config.maxDepth && |stack| + 4 <= config.slots
      modifies this`stack, this`events
      ensures Did(DenoteTable(heap, config, heap(id), depth, |old(stack)|), outcome, old(stack), old(events))
      decreases Rank(config, depth), 2, 0
    {
      ghost var cs := Children(heap(id), config);
      ghost var items: seq<Item> := [];
      Write(Start(Array));
      var max := |heap(id).elements|;
      var n := 0;
      while n < max
        invariant 0 <= n <= max == |cs| && stack == old(stack)
        invariant Progress(cs, n, depth, |old(stack)| + 1, items, old(events), Array)
      {
        Push(Val(heap(id).elements[n]));
        outcome, items := EncodeChild(cs, n, depth, None, items, old(events), Array);
        if outcome.Err? {
          return;
        }
        Pop(1);
        n := n + 1;
      }
      Finished(cs, depth, |old(stack)| + 1, items, old(events), Array);
      Write(End(Array));
      return Ok(());
    }

    method EncodeObject(id: nat, depth: int) returns (outcome: Result<(), Error>)
      requires !heap(id).isArray && !config.sortKeys && depth <= config.maxDepth && |stack| + 4 <= config.slots
      modifies this`stack, this`events
      ensures Did(DenoteTable(heap, config, heap(id), depth, |old(stack)|), outcome, old(stack), old(events))
      decreases Rank(config, depth), 2, 0
    {
      hide Lookup, StringKeys, Less, Parse, Members, FlattenItems, Flatten, DenoteItems, Denote;
      var entries := heap(id).entries;
      ghost var cs := Children(heap(id), config);
      ghost var items: seq<Item> := [];
      Write(Start(Object));
      Push(NilKey);
      ghost var base := old(stack);
      var k := 0;
      Started(cs, depth, |base| + 2, old(events), Object);
      NoMembers(entries);
      while k < |entries|
        invariant 0 <= k <= |entries| && |stack| == |base| + 1 && stack[..|base|] == base
        invariant |Members(entries[..k])| <= |cs| && cs[..|Members(entries[..k])|] == Members(entries[..k])
        invariant Progress(cs, |Members(entries[..k])|, depth, |base| + 2, items, old(events), Object)
      {
        MembersPrefix(entries, k);
        // lua_next replaces the key by the next key and its value
        Pop(1);
        Push(KeySlot(entries[k].key));
        Push(Val(entries[k].value));
        if stack[|stack| - 2].key.StringKey? {
          var key := stack[|stack| - 2].key.s;
          outcome, items := EncodeChild(cs, |Members(entries[..k])|, depth, Some(key), items, old(events), Object);
          if outcome.Err? {
            return;
          }
        }
        Pop(1);
        k := k + 1;
      }
      assert entries[..k] == entries;
      Pop(1);
      Finished(cs, depth, |base| + 2, items, old(events), Object);
      Write(End(Object));
      return Ok(());
    }

    method EncodeSorted(id: nat, depth: int, keys: seq<string>) returns (outcome: Result<(), Error>)
      requires !heap(id).isArray && config.sortKeys && depth <= config.maxDepth && |stack| + 4 <= config.slots
      requires keys == StringKeys(heap(id).entries)
      modifies this`stack, this`events
      ensures Did(DenoteTable(heap, config, heap(id), depth, |old(stack)|), outcome, old(stack), old(events))
      decreases Rank(config, depth), 2, 0
    {
      hide Lookup, StringKeys, Less, Parse, Members, FlattenItems, Flatten, DenoteItems, Denote;
      ghost var cs := Children(heap(id), config);
      ghost var items: seq<Item> := [];
      Write(Start(Object));
      Started(cs, depth, |old(stack)| + 1, old(events), Object);
      var sorted := config.sort(keys);
      var i := 0;
      while i < |sorted|
        invariant 0 <= i <= |sorted| == |cs| && stack == old(stack)
        invariant Progress(cs, i, depth, |old(stack)| + 1, items, old(events), Object)
      {
        // lua_gettable replaces the key by its value
        Push(Val(String(sorted[i])));
        Pop(1);
        Push(Val(Lookup(heap(id).entries, sorted[i])));
        outcome, items := EncodeChild(cs, i, depth, Some(sorted[i]), items, old(events), Object);
        if outcome.Err? {
          return;
        }
        Pop(1);
        i := i + 1;
      }
      Finished(cs, depth, |old(stack)| + 1, items, old(events), Object);
      Write(End(Object));
      return Ok(());
    }
  }

  lemma {:induction false} MembersMonotone(entries: seq<Entry>, k: nat)
    requires k <= |entries|
    ensures var n := |Members(entries[..k])|;
            n <= |Members(entries)| && Members(entries)[..n] == Members(entries[..k])
    decreases |entries|
  {
    if k < |entries| {
      assert entries[..|entries| - 1][..k] == entries[..k];
      MembersMonotone(entries[..|entries| - 1], k);
    } else {
      assert entries[..k] == entries;
    }
  }

  lemma {:induction false} NoMembers(entries: seq<Entry>)
    ensures Members(entries[..0]) == []
  {
  }

  /** What the next entry adds to the members. */
  lemma {:induction false} MembersPrefix(entries: seq<Entry>, k: nat)
    requires k < |entries|
    ensures var n, all := |Members(entries[..k])|, Members(entries);
            if entries[k].key.StringKey?
            then && n < |all| && all[n] == Child(Some(entries[k].key.s), entries[k].value)
                 && |Members(entries[..k + 1])| == n + 1 && all[..n + 1] == Members(entries[..k + 1])
            else Members(entries[..k + 1]) == Members(entries[..k])
  {
    assert entries[..k + 1][..k] == entries[..k];
    MembersMonotone(entries, k + 1);
  }
}
