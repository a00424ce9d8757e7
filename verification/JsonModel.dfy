/**
  JSON encoding of Lua values: the table heap, the JSON text as writer events, and what encoding means.

  A heap maps table ids to contents and may be cyclic. Whether a table counts as an array is
  decided outside the encoder and recorded with the table.
 */
module JsonModel {
  import opened Wrappers
  import opened Sequences

  // ---- Lua values

  datatype Value =
    | Nil
    | NullPointer
    | Boolean(b: bool)
    | Integer(i: int)
    | Double(x: real)
    | NonFinite
    | String(s: string)
    | Stringable(text: string)  // any other type, with a __tostring metamethod
    | Opaque                    // any other type, without one
    | TableRef(id: nat)

  datatype Key = StringKey(s: string) | OtherKey(n: int)

  datatype Entry = Entry(key: Key, value: Value)

  /** A table: what `rawgeti` finds at 1..rawlen, and what `lua_next` enumerates, in its order. */
  datatype Table = Table(isArray: bool, elements: seq<Value>, entries: seq<Entry>)

  type Heap = nat -> Table

  /** The encoder's options, the size of the Lua stack, and the `std::sort` of the C++ library. */
  datatype Config = Config(sortKeys: bool, maxDepth: int, slots: int, sort: seq<string> -> seq<string>)

  datatype Error = TooDeep | StackOverflow | DoubleError | NotEncodable

  // ---- JSON, as a tree and as writer events

  datatype Scalar = SNull | SBool(b: bool) | SInt(i: int) | SDouble(x: real) | SString(s: string)

  datatype Kind = Array | Object

  datatype Json = Leaf(scalar: Scalar) | Node(kind: Kind, items: seq<Item>)

  datatype Item = Item(key: Option<string>, value: Json)

  datatype Event = Emit(scalar: Scalar) | KeyEvent(key: string) | Start(kind: Kind) | End(kind: Kind)

  ghost function Flatten(j: Json): (r: seq<Event>)
    ensures r != []
    decreases j, 0
  {
    match j
    case Leaf(s) => [Emit(s)]
    case Node(kind, items) => [Start(kind)] + FlattenItems(items) + [End(kind)]
  }

  ghost function FlattenItem(item: Item): (r: seq<Event>)
    decreases item
  {
    (if item.key.Some? then [KeyEvent(item.key.value)] else []) + Flatten(item.value)
  }

  ghost function FlattenItems(items: seq<Item>): (r: seq<Event>)
    decreases items
  {
    if items == [] then [] else FlattenItem(items[0]) + FlattenItems(items[1..])
  }

  /** Keys are there in objects and only there. */
  ghost predicate Proper(j: Json)
    decreases j, 0
  {
    j.Leaf? || ProperItems(j.kind, j.items)
  }

  ghost predicate ProperItems(kind: Kind, items: seq<Item>)
    decreases items, 1
  {
    forall i :: 0 <= i < |items| ==> ProperItem(kind, items[i])
  }

  ghost predicate ProperItem(kind: Kind, item: Item)
    decreases item, 1
  {
    (item.key.Some? <==> kind == Object) && Proper(item.value)
  }

  // ---- Reading the events back

  ghost function Parse(es: seq<Event>): (r: Option<(Json, seq<Event>)>)
    ensures r.Some? ==> |r.value.1| < |es|
    decreases |es|, 0
  {
    if es == [] then None
    else match es[0]
      case Emit(s) => Some((Leaf(s), es[1..]))
      case Start(kind) =>
        (match ParseItems(kind, es[1..])
         case None => None
         case Some((items, rest)) => Some((Node(kind, items), rest)))
      case _ => None
  }

  /** Items up to the end marker, which must be of the given kind. */
  ghost function ParseItems(kind: Kind, es: seq<Event>): (r: Option<(seq<Item>, seq<Event>)>)
    ensures r.Some? ==> |r.value.1| < |es|
    decreases |es|, 1
  {
    if es == [] then None
    else if es[0] == End(kind) then Some(([], es[1..]))
    else if kind == Object && !es[0].KeyEvent? then None
    else
      var key := if kind == Object then Some(es[0].key) else None;
      match Parse(if kind == Object then es[1..] else es)
      case None => None
      case Some((value, rest)) =>
        match ParseItems(kind, rest)
        case None => None
        case Some((items, rest')) => Some(([Item(key, value)] + items, rest'))
  }

  /** The event stream of a value is balanced, and rebuilds the value whatever follows it. */
  lemma {:induction false} ParseFlatten(j: Json, rest: seq<Event>)
    requires Proper(j)
    ensures Parse(Flatten(j) + rest) == Some((j, rest))
    decreases j, 0
  {
    var es := Flatten(j) + rest;
    if j.Leaf? {
      assert es[1..] == rest;
    } else {
      Assoc([Start(j.kind)], FlattenItems(j.items), [End(j.kind)]);
      Assoc([Start(j.kind)], FlattenItems(j.items) + [End(j.kind)], rest);
      Assoc(FlattenItems(j.items), [End(j.kind)], rest);
      assert es[1..] == FlattenItems(j.items) + ([End(j.kind)] + rest);
      ParseFlattenItems(j.kind, j.items, rest);
    }
  }

  lemma {:induction false} ParseFlattenItem(item: Item, rest: seq<Event>)
    requires Proper(item.value)
    ensures Parse(Flatten(item.value) + rest) == Some((item.value, rest))
    decreases item, 1
  {
    ParseFlatten(item.value, rest);
  }

  lemma {:induction false} ParseFlattenItems(kind: Kind, items: seq<Item>, rest: seq<Event>)
    requires ProperItems(kind, items)
    ensures ParseItems(kind, FlattenItems(items) + ([End(kind)] + rest)) == Some((items, rest))
    decreases items, 1
  {
    var tail := [End(kind)] + rest;
    var es := FlattenItems(items) + tail;
    if items == [] {
      assert es == tail && tail[1..] == rest;
    } else {
      var item := items[0];
      var more := FlattenItems(items[1..]) + tail;
      Assoc(FlattenItem(item), FlattenItems(items[1..]), tail);
      FlattenStartsProperly(item.value);
      assert ProperItem(kind, item);
      ParseFlattenItem(item, more);
      ParseFlattenItems(kind, items[1..], rest);
      if kind == Object {
        Assoc([KeyEvent(item.key.value)], Flatten(item.value), more);
        assert es[1..] == Flatten(item.value) + more;
      } else {
        assert FlattenItem(item) == Flatten(item.value);
      }
      assert [item] + items[1..] == items;
    }
  }

  lemma {:induction false} FlattenStartsProperly(j: Json)
    ensures !Flatten(j)[0].End? && !Flatten(j)[0].KeyEvent?
  {
  }

  lemma {:induction false} FlattenSnoc(items: seq<Item>, item: Item)
    ensures FlattenItems(items + [item]) == FlattenItems(items) + FlattenItem(item)
    decreases |items|
  {
    if items == [] {
      assert FlattenItems([item]) == FlattenItem(item) + FlattenItems([item][1..]);
    } else {
      assert (items + [item])[1..] == items[1..] + [item];
      FlattenSnoc(items[1..], item);
      Assoc(FlattenItem(items[0]), FlattenItems(items[1..]), FlattenItem(item));
    }
  }

  // ---- What encoding a Lua value means

  /** A child of a table that takes part in the encoding: with its key, or as an array element. */
  datatype Child = Child(key: Option<string>, value: Value)

  ghost function Elements(values: seq<Value>): (r: seq<Child>)
    ensures |r| == |values| && forall i :: 0 <= i < |r| ==> r[i] == Child(None, values[i])
  {
    seq(|values|, i requires 0 <= i < |values| => Child(None, values[i]))
  }

  /** Only string keys are encoded; the others are skipped. */
  ghost function Members(entries: seq<Entry>): (r: seq<Child>) {
    if entries == [] then []
    else
      var init, last := Members(entries[..|entries| - 1]), entries[|entries| - 1];
      if last.key.StringKey? then init + [Child(Some(last.key.s), last.value)] else init
  }

  ghost function StringKeys(entries: seq<Entry>): (r: seq<string>) {
    if entries == [] then []
    else
      var init, last := StringKeys(entries[..|entries| - 1]), entries[|entries| - 1];
      if last.key.StringKey? then init + [last.key.s] else init
  }

  /** `lua_gettable` with a string key. */
  function Lookup(entries: seq<Entry>, key: string): (v: Value) {
    if entries == [] then Nil
    else if entries[0].key == StringKey(key) then entries[0].value
    else Lookup(entries[1..], key)
  }

  const NUL := 0 as char

  /** `Key::operator<`: strcmp, which stops at a NUL byte. */
  predicate Less(a: string, b: string) {
    if b == "" || b[0] == NUL then false
    else if a == "" || a[0] == NUL then true
    else if a[0] != b[0] then a[0] < b[0]
    else Less(a[1..], b[1..])
  }

  ghost predicate Sorted(keys: seq<string>) {
    forall i, j :: 0 <= i <= j < |keys| ==> !Less(keys[j], keys[i])
  }

  /** What `std::sort` may do: any permutation that is in order. */
  ghost predicate IsSorting(keys: seq<string>, out: seq<string>) {
    multiset(out) == multiset(keys) && Sorted(out)
  }

  /** All that is known about `std::sort`. */
  ghost predicate SortsKeys(c: Config) {
    c.sortKeys ==> forall keys :: IsSorting(keys, c.sort(keys))
  }

  ghost function SortedMembers(entries: seq<Entry>, keys: seq<string>): (r: seq<Child>)
    ensures |r| == |keys| && forall i :: 0 <= i < |r| ==> r[i] == Child(Some(keys[i]), Lookup(entries, keys[i]))
  {
    seq(|keys|, i requires 0 <= i < |keys| => Child(Some(keys[i]), Lookup(entries, keys[i])))
  }

  ghost function Children(t: Table, c: Config): (r: seq<Child>) {
    if t.isArray then Elements(t.elements)
    else if c.sortKeys then SortedMembers(t.entries, c.sort(StringKeys(t.entries)))
    else Members(t.entries)
  }

  /** How many Lua stack slots are in use when a child of the table is encoded. */
  ghost function ChildHeight(t: Table, c: Config, height: int): (r: int) {
    height + if t.isArray || c.sortKeys then 1 else 2
  }

  ghost function Rank(c: Config, depth: int): (r: nat) {
    if depth <= c.maxDepth then c.maxDepth - depth else 0
  }

  /** The JSON value that a Lua value is encoded as, or the error that is raised first. */
  ghost function Denote(h: Heap, c: Config, v: Value, depth: int, height: int): (r: Result<Json, Error>)
    decreases Rank(c, depth), 0, 0
  {
    match v
    case Nil => Ok(Leaf(SNull))
    case NullPointer => Ok(Leaf(SNull))
    case Boolean(b) => Ok(Leaf(SBool(b)))
    case Integer(i) => Ok(Leaf(SInt(i)))
    case Double(x) => Ok(Leaf(SDouble(x)))
    case NonFinite => Err(DoubleError)
    case String(s) => Ok(Leaf(SString(s)))
    case Stringable(s) => Ok(Leaf(SString(s)))
    case Opaque => Err(NotEncodable)
    case TableRef(id) => DenoteTable(h, c, h(id), depth + 1, height)
  }

  ghost function DenoteTable(h: Heap, c: Config, t: Table, depth: int, height: int): (r: Result<Json, Error>)
    decreases if depth <= c.maxDepth then Rank(c, depth) + 1 else 0, -1, 0
  {
    if depth > c.maxDepth then Err(TooDeep)
    else if height + 4 > c.slots then Err(StackOverflow)
    else
      match DenoteItems(h, c, Children(t, c), depth, ChildHeight(t, c, height))
      case Err(e) => Err(e)
      case Ok(items) => Ok(Node(if t.isArray then Array else Object, items))
  }

  ghost function DenoteItems(h: Heap, c: Config, cs: seq<Child>, depth: int, height: int): (r: Result<seq<Item>, Error>)
    decreases Rank(c, depth), 1, |cs|
  {
    if cs == [] then Ok([])
    else
      match DenoteItems(h, c, cs[..|cs| - 1], depth, height)
      case Err(e) => Err(e)
      case Ok(items) =>
        match Denote(h, c, cs[|cs| - 1].value, depth, height)
        case Err(e) => Err(e)
        case Ok(j) => Ok(items + [Item(cs[|cs| - 1].key, j)])
  }

  /** The first error is the one that is raised. */
  lemma {:induction false} FirstError(h: Heap, c: Config, cs: seq<Child>, n: nat, depth: int, height: int)
    requires n <= |cs| && DenoteItems(h, c, cs[..n], depth, height).Err?
    ensures DenoteItems(h, c, cs, depth, height) == DenoteItems(h, c, cs[..n], depth, height)
    decreases |cs|
  {
    if n < |cs| {
      assert cs[..|cs| - 1][..n] == cs[..n];
      FirstError(h, c, cs[..|cs| - 1], n, depth, height);
    } else {
      assert cs[..n] == cs;
    }
  }

  /** Without an error, there is one item per child, and it is the child's. */
  lemma {:induction false} ItemsOfChildren(h: Heap, c: Config, cs: seq<Child>, depth: int, height: int)
    requires DenoteItems(h, c, cs, depth, height).Ok?
    ensures var items := DenoteItems(h, c, cs, depth, height).value;
            |items| == |cs| && forall i :: 0 <= i < |cs| ==>
              items[i].key == cs[i].key && Denote(h, c, cs[i].value, depth, height) == Ok(items[i].value)
    decreases |cs|
  {
    if cs != [] {
      ItemsOfChildren(h, c, cs[..|cs| - 1], depth, height);
    }
  }

  /** A table is encoded only if the depth limit allows it and all of its children are. */
  lemma {:induction false} TableOutcome(h: Heap, c: Config, id: nat, depth: int, height: int)
    requires Denote(h, c, TableRef(id), depth, height).Ok?
    ensures depth + 1 <= c.maxDepth
    ensures var r := DenoteItems(h, c, Children(h(id), c), depth + 1, ChildHeight(h(id), c, height));
            r.Ok? && Denote(h, c, TableRef(id), depth, height)
                  == Ok(Node(if h(id).isArray then Array else Object, r.value))
  {
  }

  lemma {:induction false} MembersHaveKeys(entries: seq<Entry>)
    ensures forall i :: 0 <= i < |Members(entries)| ==> Members(entries)[i].key.Some?
  {
    if entries != [] { MembersHaveKeys(entries[..|entries| - 1]); }
  }

  lemma {:induction false} ChildrenHaveKeys(t: Table, c: Config)
    ensures forall i :: 0 <= i < |Children(t, c)| ==> (Children(t, c)[i].key.Some? <==> !t.isArray)
  {
    MembersHaveKeys(t.entries);
  }

  /** What is encoded is proper JSON: objects have string keys, arrays have none. */
  lemma {:induction false} DenoteIsProper(h: Heap, c: Config, v: Value, depth: int, height: int)
    requires Denote(h, c, v, depth, height).Ok?
    ensures Proper(Denote(h, c, v, depth, height).value)
    decreases Rank(c, depth)
  {
    if v.TableRef? {
      var t := h(v.id);
      var cs, height' := Children(t, c), ChildHeight(t, c, height);
      ItemsOfChildren(h, c, cs, depth + 1, height');
      ChildrenHaveKeys(t, c);
      forall i | 0 <= i < |cs|
        ensures ProperItem(if t.isArray then Array else Object,
                           Item(cs[i].key, Denote(h, c, cs[i].value, depth + 1, height').value))
      {
        DenoteIsProper(h, c, cs[i].value, depth + 1, height');
      }
    }
  }

  /** The events of an encoded value rebuild it, and nothing is left over. */
  lemma {:induction false} EventsRebuildValue(h: Heap, c: Config, v: Value, depth: int, height: int, rest: seq<Event>)
    requires Denote(h, c, v, depth, height).Ok?
    ensures var j := Denote(h, c, v, depth, height).value;
            Proper(j) && Parse(Flatten(j) + rest) == Some((j, rest))
  {
    DenoteIsProper(h, c, v, depth, height);
    ParseFlatten(Denote(h, c, v, depth, height).value, rest);
  }
}
