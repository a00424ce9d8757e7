/** What a Lua value means as JSON, with objects as maps: every encoding of it has that meaning. */
module JsonMeaning {
  import opened Wrappers
  import opened JsonModel
  import opened JsonTables
  import JsonDepth

  datatype Meaning = MLeaf(scalar: Scalar) | MArray(elements: seq<Meaning>) | MObject(members: map<string, Meaning>)

  ghost function KeyOf(item: Item): (k: string) {
    if item.key.Some? then item.key.value else ""
  }

  ghost function MeaningOf(j: Json): (m: Meaning)
    decreases j, 0
  {
    match j
    case Leaf(s) => MLeaf(s)
    case Node(Array, items) => MArray(ElementsOf(items))
    case Node(Object, items) => MObject(MapOf(items))
  }

  ghost function MeaningOfItem(item: Item): (m: Meaning)
    decreases item, 1
  {
    MeaningOf(item.value)
  }

  ghost function ElementsOf(items: seq<Item>): (r: seq<Meaning>)
    ensures |r| == |items|
    decreases items
  {
    if items == [] then [] else [MeaningOfItem(items[0])] + ElementsOf(items[1..])
  }

  ghost function MapOf(items: seq<Item>): (r: map<string, Meaning>)
    decreases items
  {
    if items == [] then map[] else map[KeyOf(items[0]) := MeaningOfItem(items[0])] + MapOf(items[1..])
  }

  ghost predicate DistinctItems(items: seq<Item>) {
    forall i, j :: 0 <= i < j < |items| ==> KeyOf(items[i]) != KeyOf(items[j])
  }

  /** Every key maps to the meaning of its item. */
  lemma {:induction false} MapOfItems(items: seq<Item>, k: string)
    ensures k in MapOf(items) <==> exists i :: 0 <= i < |items| && KeyOf(items[i]) == k
    ensures DistinctItems(items) ==>
              forall i :: 0 <= i < |items| && KeyOf(items[i]) == k ==> MapOf(items)[k] == MeaningOf(items[i].value)
    decreases items
  {
    if items != [] {
      var rest := items[1..];
      MapOfItems(rest, k);
      assert forall i :: 0 < i < |items| ==> items[i] == rest[i - 1];
    }
  }

  lemma {:induction false} ElementsOfItems(items: seq<Item>, i: nat)
    requires i < |items|
    ensures ElementsOf(items)[i] == MeaningOf(items[i].value)
    decreases i
  {
    if i > 0 { ElementsOfItems(items[1..], i - 1); }
  }

  // ---- What a Lua value means, said without the encoder

  ghost function ScalarOf(v: Value): (r: Option<Scalar>) {
    match v
    case Nil => Some(SNull)
    case NullPointer => Some(SNull)
    case Boolean(b) => Some(SBool(b))
    case Integer(i) => Some(SInt(i))
    case Double(x) => Some(SDouble(x))
    case String(s) => Some(SString(s))
    case Stringable(s) => Some(SString(s))
    case _ => None
  }

  /** Arrays have the elements in order; objects have exactly the string keys, each with its own value. */
  ghost predicate Represents(h: Heap, v: Value, m: Meaning)
    decreases m
  {
    match m
    case MLeaf(s) => ScalarOf(v) == Some(s)
    case MArray(ms) =>
      && v.TableRef? && h(v.id).isArray && |ms| == |h(v.id).elements|
      && (forall i :: 0 <= i < |ms| ==> Represents(h, h(v.id).elements[i], ms[i]))
    case MObject(mm) =>
      && v.TableRef? && !h(v.id).isArray
      && (forall k :: k in mm ==> exists e :: e in h(v.id).entries && e.key == StringKey(k))
      && (forall e :: e in h(v.id).entries && e.key.StringKey? ==>
            e.key.s in mm && Represents(h, e.value, mm[e.key.s]))
  }

  /** A Lua value has at most one meaning. */
  lemma {:induction false} MeaningIsUnique(h: Heap, v: Value, m: Meaning, m': Meaning)
    requires Represents(h, v, m) && Represents(h, v, m')
    ensures m == m'
    decreases m
  {
    match m
    case MLeaf(_) =>
    case MArray(ms) =>
      forall i | 0 <= i < |ms|
        ensures ms[i] == m'.elements[i]
      {
        MeaningIsUnique(h, h(v.id).elements[i], ms[i], m'.elements[i]);
      }
      assert ms == m'.elements;
    case MObject(mm) =>
      forall k | k in mm
        ensures k in m'.members && mm[k] == m'.members[k]
      {
        var e :| e in h(v.id).entries && e.key == StringKey(k);
        MeaningIsUnique(h, e.value, mm[k], m'.members[k]);
      }
      assert mm == m'.members;
  }

  /** The items written for an object say what its entries say. */
  lemma {:induction false} ObjectRepresents(h: Heap, c: Config, id: nat, items: seq<Item>)
    requires IsLuaHeap(h) && SortsKeys(c) && !h(id).isArray
    requires |items| == |Children(h(id), c)|
    requires forall i :: 0 <= i < |items| ==>
               && items[i].key == Children(h(id), c)[i].key
               && Represents(h, Children(h(id), c)[i].value, MeaningOf(items[i].value))
    ensures Represents(h, TableRef(id), MObject(MapOf(items)))
  {
    var t, mm, cs := h(id), MapOf(items), Children(h(id), c);
    ChildKeysDistinct(t, c);
    ChildrenHaveKeys(t, c);
    forall k | k in mm
      ensures exists e :: e in t.entries && e.key == StringKey(k)
    {
      MapOfItems(items, k);
      var i :| 0 <= i < |items| && KeyOf(items[i]) == k;
      var e := EntryOfChild(t, c, i);
      assert e.key == StringKey(k);
    }
    forall e | e in t.entries && e.key.StringKey?
      ensures e.key.s in mm && Represents(h, e.value, mm[e.key.s])
    {
      var i := ChildOfEntry(t, c, e);
      MapOfItems(items, e.key.s);
      assert KeyOf(items[i]) == e.key.s;
    }
  }

  lemma {:induction false} ArrayRepresents(h: Heap, c: Config, id: nat, items: seq<Item>)
    requires h(id).isArray && |items| == |Children(h(id), c)|
    requires forall i :: 0 <= i < |items| ==> Represents(h, Children(h(id), c)[i].value, MeaningOf(items[i].value))
    ensures Represents(h, TableRef(id), MArray(ElementsOf(items)))
  {
    forall i | 0 <= i < |items|
      ensures Represents(h, h(id).elements[i], ElementsOf(items)[i])
    {
      ElementsOfItems(items, i);
    }
  }

  /** What is encoded, with sorted keys or not and whatever the sort, means what the Lua value means. */
  lemma {:induction false} EncodingRepresents(h: Heap, c: Config, v: Value, depth: int, height: int)
    requires IsLuaHeap(h) && SortsKeys(c) && Denote(h, c, v, depth, height).Ok?
    ensures Represents(h, v, MeaningOf(Denote(h, c, v, depth, height).value))
    decreases Rank(c, depth)
  {
    if v.TableRef? {
      TableOutcome(h, c, v.id, depth, height);
      hide Children, Denote, Represents;
      var cs, height' := Children(h(v.id), c), ChildHeight(h(v.id), c, height);
      ItemsOfChildren(h, c, cs, depth + 1, height');
      var items := DenoteItems(h, c, cs, depth + 1, height').value;
      forall i | 0 <= i < |cs|
        ensures Represents(h, cs[i].value, MeaningOf(items[i].value))
      {
        EncodingRepresents(h, c, cs[i].value, depth + 1, height');
      }
      if h(v.id).isArray {
        ArrayRepresents(h, c, v.id, items);
      } else {
        ObjectRepresents(h, c, v.id, items);
      }
    }
  }

  /** The meaning does not depend on enumeration order. */
  lemma {:induction false} SameHeapSameMeaning(h: Heap, h': Heap, v: Value, m: Meaning)
    requires SameHeap(h, h') && Represents(h, v, m)
    ensures Represents(h', v, m)
    decreases m
  {
    if v.TableRef? {
      assert SameTable(h(v.id), h'(v.id));
      SameEntries(h(v.id), h'(v.id));
    }
    match m
    case MLeaf(_) =>
    case MArray(ms) =>
      forall i | 0 <= i < |ms|
        ensures Represents(h', h'(v.id).elements[i], ms[i])
      {
        SameHeapSameMeaning(h, h', h(v.id).elements[i], ms[i]);
      }
    case MObject(mm) =>
      forall e | e in h'(v.id).entries && e.key.StringKey?
        ensures e.key.s in mm && Represents(h', e.value, mm[e.key.s])
      {
        SameHeapSameMeaning(h, h', e.value, mm[e.key.s]);
      }
  }

  /** Two encodings of a value mean the same, whatever the options, the sort and the enumeration order behind them. */
  lemma {:induction false} EncodingsMeanTheSame(h: Heap, h': Heap, c: Config, c': Config, v: Value,
                                                depth: int, height: int, depth': int, height': int)
    requires IsLuaHeap(h) && IsLuaHeap(h') && SameHeap(h, h') && SortsKeys(c) && SortsKeys(c')
    requires Denote(h, c, v, depth, height).Ok? && Denote(h', c', v, depth', height').Ok?
    ensures MeaningOf(Denote(h, c, v, depth, height).value) == MeaningOf(Denote(h', c', v, depth', height').value)
  {
    hide Denote, MeaningOf;
    var m, m' := MeaningOf(Denote(h, c, v, depth, height).value), MeaningOf(Denote(h', c', v, depth', height').value);
    EncodingRepresents(h, c, v, depth, height);
    EncodingRepresents(h', c', v, depth', height');
    SameHeapSameMeaning(h, h', v, m);
    MeaningIsUnique(h', v, m, m');
  }

  /** With encodable leaves and enough stack, sorting the keys changes neither the meaning nor whether there is one. */
  lemma {:induction false} SortingKeepsOutcome(h: Heap, c: Config, v: Value, depth: int, height: int)
    requires IsLuaHeap(h) && c.sortKeys && SortsKeys(c) && JsonDepth.LeavesEncodable(h, v)
    requires JsonDepth.EnoughSlots(c, depth, height)
    ensures var sorted, unsorted := Denote(h, c, v, depth, height), Denote(h, c.(sortKeys := false), v, depth, height);
            if sorted.Ok? then unsorted.Ok? && MeaningOf(sorted.value) == MeaningOf(unsorted.value)
            else unsorted == Err(sorted.error)
  {
    JsonDepth.TooDeepExactly(h, c, v, depth, height);
    JsonDepth.TooDeepExactly(h, c.(sortKeys := false), v, depth, height);
    if Denote(h, c, v, depth, height).Ok? {
      EncodingsMeanTheSame(h, h, c, c.(sortKeys := false), v, depth, height, depth, height);
    }
  }
}
