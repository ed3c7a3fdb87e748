/** Dotted-path updates as the C code makes them: in place, on objects that hold other objects. */
module NestedObjects {
  import opened Assoc
  import opened Bytes
  import opened DotPath
  import opened Json
  import opened Wrappers

  /** What a member holds: an object, or any other value. */
  datatype Cell = Leaf(value: Value) | Nested(node: ObjectNode)

  /** The objects that a cell is made of. */
  ghost function CellRepr(c: Cell): set<ObjectNode>
    reads if c.Nested? then {c.node} else {}
  {
    if c.Nested? then c.node.repr else {}
  }

  ghost function CellValue(c: Cell): Value
    reads if c.Nested? then {c.node} else {}
  {
    if c.Nested? then Object(c.node.members) else c.value
  }

  ghost predicate CellValid(c: Cell)
    reads if c.Nested? then {c.node} + c.node.repr else {}
  {
    if c.Nested? then c.node.Valid() else !c.value.Object?
  }

  /** An element put at position `ix`, or behind the last one. */
  function Placed<T>(s: seq<T>, ix: nat, x: T): (r: seq<T>)
    ensures |r| == if ix < |s| then |s| else |s| + 1
  {
    if ix < |s| then s[ix := x] else s + [x]
  }

  lemma RemovedAt<T>(s: seq<T>, ix: nat)
    requires ix < |s|
    ensures |RemoveAt(s, ix)| == |s| - 1
    ensures forall i :: 0 <= i < |s| - 1 ==> RemoveAt(s, ix)[i] == s[if i == ix then |s| - 1 else i]
  {
  }

  lemma SameFind<V, W>(a: seq<Entry<bytes, V>>, b: seq<Entry<bytes, W>>, name: bytes)
    requires |a| == |b| && forall i :: 0 <= i < |a| ==> a[i].name == b[i].name
    ensures Find(a, name) == Find(b, name)
  {
    FindIs(b, name, Find(a, name));
  }

  /** An object; a member is found as ObjectTable finds it, so the items stand for the table. */
  class ObjectNode {
    var items: seq<Entry<bytes, Cell>>
    /** The members as values, and the objects that this one is made of. */
    ghost var members: Members
    ghost var repr: set<ObjectNode>

    /** A cell of an object made of the objects `whole`, and the value it stands for. */
    ghost predicate Holds(whole: set<ObjectNode>, e: Entry<bytes, Cell>, m: Entry<bytes, Value>)
      requires this in whole
      reads whole
      decreases whole, 0
    {
      && m.name == e.name
      && match e.value
         case Leaf(v) => !v.Object? && m.value == v
         case Nested(o) =>
             && o in whole && o in o.repr && o.repr <= whole && this !in o.repr && o.Valid()
             && m.value == Object(o.members)
    }

    /** The objects held by different members have nothing in common, and none of them holds this one. */
    ghost predicate Valid()
      reads this, repr
      decreases repr, 1
    {
      && this in repr
      && |members| == |items|
      && (forall i :: 0 <= i < |items| ==> Holds(repr, items[i], members[i]))
      && Apart(repr, items)
    }

    constructor ()
      ensures Valid() && fresh(repr) && members == []
    {
      items, members, repr := [], [], {this};
    }

    /** `json_object_set_value`. */
    method SetValue(name: bytes, value: Cell, owned: bool) returns (ok: bool)
      requires Valid() && CellValid(value) && (owned || CellRepr(value) !! repr)
      modifies this
      ensures Valid() && repr == old(repr) + if ok then CellRepr(value) else {}
      ensures ok == !owned
      ensures members == if ok then Set(old(members), name, CellValue(value)) else old(members)
    {
      if owned {
        return false;
      }
      SameFind(items, members, name);
      var ix := Find(items, name);
      Replace(ix, Entry(name, value));
      return true;
    }

    /** `json_object_add`. */
    method AddValue(name: bytes, value: Cell) returns (ok: bool)
      requires Valid() && CellValid(value) && CellRepr(value) !! repr
      modifies this
      ensures Valid() && repr == old(repr) + if ok then CellRepr(value) else {}
      ensures ok == !Contains(old(members), name)
      ensures members == if ok then old(members) + [Entry(name, CellValue(value))] else old(members)
    {
      SameFind(items, members, name);
      if Contains(items, name) {
        return false;
      }
      Replace(|items|, Entry(name, value));
      return true;
    }

    /** Puts an entry at position `ix`, or behind the last one. */
    method Replace(ix: nat, e: Entry<bytes, Cell>)
      requires Valid() && ix <= |items| && CellValid(e.value) && CellRepr(e.value) !! repr
      modifies this
      ensures Valid() && repr == old(repr) + CellRepr(e.value)
      ensures var m := Entry(e.name, CellValue(e.value));
              members == Placed(old(members), ix, m)
    {
      ghost var ms := Placed(members, ix, Entry(e.name, CellValue(e.value)));
      ghost var whole := repr + CellRepr(e.value);
      var longer := Placed(items, ix, e);
      StaysApart(ix, e);
      HoldsMore(ix, e);
      hide Apart, Placed;
      members := ms;
      items := longer;
      repr := whole;
      forall i | 0 <= i < |items|
        ensures Holds(whole, items[i], members[i])
      {
        assert old(Holds(whole, longer[i], ms[i]));
      }
      assert Apart(whole, items);
    }

    lemma StaysApart(ix: nat, e: Entry<bytes, Cell>)
      requires Valid() && ix <= |items| && CellValid(e.value) && CellRepr(e.value) !! repr
      ensures Apart(repr + CellRepr(e.value), Placed(items, ix, e))
    {
      forall i | 0 <= i < |items|
        ensures CellRepr(items[i].value) <= repr
      {
        assert Holds(repr, items[i], members[i]);
      }
    }

    lemma HoldsMore(ix: nat, e: Entry<bytes, Cell>)
      requires Valid() && ix <= |items| && CellValid(e.value) && CellRepr(e.value) !! repr
      ensures var ms := Placed(members, ix, Entry(e.name, CellValue(e.value)));
              forall i :: 0 <= i < |Placed(items, ix, e)| ==>
                Holds(repr + CellRepr(e.value), Placed(items, ix, e)[i], ms[i])
    {
      hide Apart;
      forall i | 0 <= i < |Placed(items, ix, e)| && i != ix
        ensures Holds(repr + CellRepr(e.value), items[i], members[i])
      {
        assert Holds(repr, items[i], members[i]);
      }
    }

    lemma SiblingsAreApart(ix: nat)
      requires Valid() && ix < |items| && items[ix].value.Nested?
      ensures forall i :: 0 <= i < |items| && i != ix ==>
                && CellRepr(items[i].value) !! items[ix].value.node.repr
                && (items[i].value.Nested? ==> items[i].value.node !in items[ix].value.node.repr)
      ensures var node := items[ix].value.node;
              && node in repr && node.repr <= repr && this !in node.repr && node.Valid()
              && members[ix] == Entry(items[ix].name, Object(node.members))
      ensures forall i, j :: 0 <= i < j < |items| && i != ix && j != ix ==>
          CellRepr(items[i].value) !! CellRepr(items[j].value)
    {
      assert Holds(repr, items[ix], members[ix]);
      forall i | 0 <= i < |items| && i != ix
        ensures CellRepr(items[i].value) !! items[ix].value.node.repr
        ensures items[i].value.Nested? ==> items[i].value.node in CellRepr(items[i].value)
      {
        assert Holds(repr, items[i], members[i]);
        assert CellRepr(items[i].value) !! CellRepr(items[ix].value);
      }
    }

    /** The ghost state after the object held by member `ix` changed. */
    ghost method TakeOver(ix: nat)
      requires this in repr && ix < |items| == |members|
      requires items[ix].name == members[ix].name && items[ix].value.Nested?
      requires items[ix].value.node.Valid() && this !in items[ix].value.node.repr
      requires forall i :: 0 <= i < |items| && i != ix ==> Holds(repr, items[i], members[i])
      requires forall i :: 0 <= i < |items| && i != ix ==> CellRepr(items[i].value) !! items[ix].value.node.repr
      requires forall i, j :: 0 <= i < j < |items| && i != ix && j != ix ==>
          CellRepr(items[i].value) !! CellRepr(items[j].value)
      modifies this`members, this`repr
      ensures Valid() && repr == old(repr) + items[ix].value.node.repr
      ensures members == old(members)[ix := Entry(items[ix].name, Object(items[ix].value.node.members))]
    {
      ghost var node := items[ix].value.node;
      members := members[ix := Entry(items[ix].name, Object(node.members))];
      repr := repr + node.repr;
      forall i | 0 <= i < |items|
        ensures Holds(repr, items[i], members[i])
      {
        if i != ix {
          assert old(Holds(repr, items[i], members[i]));
        }
      }
      assert Apart(repr, items);
    }

    /** The recursive call of `json_object_dotset_value` on the object held by member `ix`. */
    method SetInside(ix: nat, rest: bytes, value: Cell, owned: bool) returns (ok: bool)
      requires Valid() && ix < |items| && items[ix].value.Nested?
      requires CellValid(value) && (owned || CellRepr(value) !! repr)
      modifies repr
      ensures Valid() && old(repr) <= repr && fresh(repr - old(repr) - if owned then {} else CellRepr(value))
      ensures old(members[ix].value.Object?)
      ensures var (nested, done) := DotSet(old(members[ix].value.members), rest, old(CellValue(value)), owned);
              ok == done && members == old(members)[ix := Entry(old(members[ix].name), Object(nested))]
      decreases |rest|, 1
    {
      hide Apart;
      SiblingsAreApart(ix);
      var node := items[ix].value.node;
      ok := node.DotSetValue(rest, value, owned);
      forall i | 0 <= i < |items| && i != ix
        ensures Holds(repr, items[i], members[i]) && CellRepr(items[i].value) == old(CellRepr(items[i].value))
      {
        assert old(Holds(repr, items[i], members[i]));
      }
      TakeOver(ix);
    }

    /** `json_object_dotset_value`. */
    method DotSetValue(name: bytes, value: Cell, owned: bool) returns (ok: bool)
      requires Valid() && CellValid(value) && (owned || CellRepr(value) !! repr)
      modifies repr
      ensures Valid() && old(repr) <= repr && fresh(repr - old(repr) - if owned then {} else CellRepr(value))
      ensures (members, ok) == DotSet(old(members), name, old(CellValue(value)), owned)
      decreases |name|, 0
    {
      hide Apart, HasDot, Head;
      if !HasDot(name) {
        ok := SetValue(name, value, owned);
        return;
      }
      SameFind(items, members, Head(name));
      var ix := Find(items, Head(name));
      if ix < |items| {
        assert Holds(repr, items[ix], members[ix]);
        if items[ix].value.Leaf? {
          return false;
        }
        ok := SetInside(ix, Tail(name), value, owned);
        return;
      }
      ok := CreateInside(Head(name), Tail(name), value, owned);
    }

    /** A new object behind the last member, with the rest of the path set in it. */
    method CreateInside(head: bytes, rest: bytes, value: Cell, owned: bool) returns (ok: bool)
      requires Valid() && CellValid(value) && (owned || CellRepr(value) !! repr)
      modifies this
      ensures Valid() && old(repr) <= repr && fresh(repr - old(repr) - if owned then {} else CellRepr(value))
      ensures var (nested, done) := DotSet([], rest, old(CellValue(value)), owned);
              && ok == done
              && members == if ok then old(members) + [Entry(head, Object(nested))] else old(members)
      decreases |rest|, 1
    {
      hide Apart, DotSet;
      var created := new ObjectNode();
      ok := created.DotSetValue(rest, value, owned);
      if ok {
        Replace(|items|, Entry(head, Nested(created)));
      }
    }

    method Shorten(ix: nat)
      requires Valid() && ix < |items|
      modifies this
      ensures Valid() && repr == old(repr) && members == RemoveAt(old(members), ix)
    {
      RemovalStaysApart(ix);
      hide Apart, RemoveAt;
      ghost var ms := RemoveAt(members, ix);
      var fewer := RemoveAt(items, ix);
      assert forall i :: 0 <= i < |fewer| ==> Holds(repr, fewer[i], ms[i]);
      members := ms;
      items := fewer;
      forall i | 0 <= i < |items|
        ensures Holds(repr, items[i], members[i])
      {
        assert old(Holds(repr, fewer[i], ms[i]));
      }
    }

    /** `json_object_remove_internal`. */
    method RemoveValue(name: bytes) returns (ok: bool)
      requires Valid()
      modifies this
      ensures Valid() && repr == old(repr)
      ensures (members, ok) == match Remove(old(members), name) case Some(fewer) => (fewer, true)
          case None => (old(members), false)
    {
      SameFind(items, members, name);
      var ix := Find(items, name);
      if ix == |items| {
        return false;
      }
      Shorten(ix);
      return true;
    }

    lemma RemovalStaysApart(ix: nat)
      requires Valid() && ix < |items|
      ensures Apart(repr, RemoveAt(items, ix)) && |RemoveAt(members, ix)| == |RemoveAt(items, ix)|
      ensures forall i :: 0 <= i < |RemoveAt(items, ix)| ==>
                Holds(repr, RemoveAt(items, ix)[i], RemoveAt(members, ix)[i])
    {
      RemovedAt(items, ix);
      RemovedAt(members, ix);
      forall i | 0 <= i < |items|
        ensures items[i].value.Nested? ==> items[i].value.node in repr
      {
        assert Holds(repr, items[i], members[i]);
      }
    }

    /** The recursive call of `json_object_dotremove_internal` on the object held by member `ix`. */
    method RemoveInside(ix: nat, rest: bytes) returns (ok: bool)
      requires Valid() && ix < |items| && items[ix].value.Nested?
      modifies repr
      ensures Valid() && repr == old(repr)
      ensures old(members[ix].value.Object?)
      ensures var (nested, done) := DotRemove(old(members[ix].value.members), rest);
              ok == done && members == old(members)[ix := Entry(old(members[ix].name), Object(nested))]
      decreases |rest|, 1
    {
      hide Apart;
      SiblingsAreApart(ix);
      var node := items[ix].value.node;
      ok := node.DotRemoveValue(rest);
      forall i | 0 <= i < |items| && i != ix
        ensures Holds(repr, items[i], members[i]) && CellRepr(items[i].value) == old(CellRepr(items[i].value))
      {
        assert old(Holds(repr, items[i], members[i]));
      }
      TakeOver(ix);
    }

    /** `json_object_dotremove_internal`. */
    method DotRemoveValue(name: bytes) returns (ok: bool)
      requires Valid()
      modifies repr
      ensures Valid() && repr == old(repr)
      ensures (members, ok) == DotRemove(old(members), name)
      decreases |name|, 0
    {
      hide Apart, HasDot, Head;
      if !HasDot(name) {
        ok := RemoveValue(name);
        return;
      }
      SameFind(items, members, Head(name));
      var ix := Find(items, Head(name));
      if ix == |items| {
        return false;
      }
      assert Holds(repr, items[ix], members[ix]);
      if items[ix].value.Leaf? {
        return false;
      }
      ok := RemoveInside(ix, Tail(name));
    }
  }

  /** `json_object_dotget_value`; the C code passes NULL on when a segment leads to no object. */
  method DotGetValue(obj: ObjectNode?, name: bytes) returns (value: Option<Cell>)
    requires obj != null ==> obj.Valid()
    ensures DotGet(if obj == null then None else Some(obj.members), name) ==
            match value case None => None case Some(c) => Some(CellValue(c))
    decreases |name|
  {
    if obj == null {
      EmptyHasNothing(name);
      return None;
    }
    var segment := if HasDot(name) then Head(name) else name;
    SameFind(obj.items, obj.members, segment);
    var ix := Find(obj.items, segment);
    if ix < |obj.items| {
      assert obj.Holds(obj.repr, obj.items[ix], obj.members[ix]);
    }
    var found := if ix < |obj.items| then Some(obj.items[ix].value) else None;
    if !HasDot(name) {
      return found;
    }
    var next: ObjectNode? := if found.Some? && found.value.Nested? then found.value.node else null;
    value := DotGetValue(next, Tail(name));
  }

  ghost predicate Apart(whole: set<ObjectNode>, items: seq<Entry<bytes, Cell>>)
    reads whole
  {
    && (forall i :: 0 <= i < |items| && items[i].value.Nested? ==> items[i].value.node in whole)
    && (forall i, j :: 0 <= i < j < |items| ==> CellRepr(items[i].value) !! CellRepr(items[j].value))
  }

  /** `json_value_deep_copy` of an object: the copy has the same members in the same order, and is made of new objects
      only, so that no update of the one is seen in the other. */
  method DeepCopy(obj: ObjectNode) returns (copy: ObjectNode?)
    requires obj.Valid()
    ensures copy != null ==> copy.Valid() && fresh(copy.repr) && copy.members == obj.members
    ensures WellNamed(Object(obj.members)) ==> copy != null
    decreases obj.repr
  {
    hide WellNamed, Distinct, Apart;
    copy := new ObjectNode();
    var i := 0;
    while i < |obj.items|
      invariant 0 <= i <= |obj.items|
      invariant copy != null && copy.Valid() && fresh(copy.repr) && copy.members == obj.members[..i]
    {
      MemberIsNew(obj.members, i);
      var next := CopyCell(obj, i);
      if next.None? {
        return null;
      }
      var ok := copy.AddValue(obj.items[i].name, next.value);
      if !ok {
        return null;
      }
      assert obj.members[..i] + [obj.members[i]] == obj.members[..i + 1];
      i := i + 1;
    }
    assert obj.members[..i] == obj.members;
  }

  lemma MemberIsNew(members: Members, i: nat)
    requires i < |members|
    ensures WellNamed(Object(members)) ==> WellNamed(members[i].value) && !Contains(members[..i], members[i].name)
  {
    if WellNamed(Object(members)) {
      PrefixLacksNext(members, i);
    }
  }

  /** The copy of one member's value; a value that is no object does not change, so it is its own copy. */
  method CopyCell(obj: ObjectNode, i: nat) returns (copied: Option<Cell>)
    requires obj.Valid() && i < |obj.items|
    ensures copied.Some? ==> CellValid(copied.value) && fresh(CellRepr(copied.value))
    ensures copied.Some? ==> Entry(obj.items[i].name, CellValue(copied.value)) == obj.members[i]
    ensures WellNamed(obj.members[i].value) ==> copied.Some?
    decreases obj.repr, 0
  {
    assert obj.Holds(obj.repr, obj.items[i], obj.members[i]);
    match obj.items[i].value {
      case Leaf(_) => return Some(obj.items[i].value);
      case Nested(node) =>
        var copy := DeepCopy(node);
        if copy == null {
          return None;
        }
        return Some(Nested(copy));
    }
  }
}
