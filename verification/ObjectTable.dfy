/** The JSON object: insertion-ordered item arrays indexed by an open-addressed cell table. */
module ObjectTable {
  import opened Assoc
  import opened Bytes
  import opened Probing
  import opened Wrappers

  const STARTING_CAPACITY: nat := 16

  ghost function Zip<K, V>(names: seq<K>, values: seq<V>): (s: seq<Entry<K, V>>)
    requires |names| == |values|
    ensures |s| == |names|
    ensures forall i :: 0 <= i < |s| ==> s[i] == Entry(names[i], values[i])
  {
    seq(|names|, i requires 0 <= i < |names| => Entry(names[i], values[i]))
  }

  class JsonObject<V(0)> {
    /** `hash_string`; nothing is assumed of it, so all collisions are covered. */
    const hash: bytes -> nat
    var cells: array<int>
    var hashes: array<nat>
    var names: array<bytes>
    var values: array<V>
    var cellIxs: array<nat>
    var count: nat
    var itemCapacity: nat
    var cellCapacity: nat

    ghost function Repr(): set<object>
      reads this
    {
      {this, cells, hashes, names, values, cellIxs}
    }

    ghost predicate Shape()
      reads this, cells, hashes, names, values, cellIxs
    {
      && hashes != cellIxs
      && cells as object !in {hashes as object, names, values, cellIxs}
      && names as object !in {hashes as object, values, cellIxs}
      && values as object !in {hashes as object, cellIxs}
      && cells.Length == cellCapacity
      && names.Length == values.Length == hashes.Length == cellIxs.Length == itemCapacity
      && count <= itemCapacity
      && itemCapacity == cellCapacity * 7 / 10
      && (cellCapacity == 0 || (PowerOfTwo(cellCapacity) && cellCapacity >= STARTING_CAPACITY))
    }

    ghost predicate Valid()
      reads this, cells, hashes, names, values, cellIxs
    {
      && Shape()
      && (cellCapacity > 0 ==> Linked(cells[..], cellIxs[..count], hashes[..count]))
      && (forall i :: 0 <= i < count ==> hashes[i] == hash(names[i]))
      && Distinct(Items())
    }

    /** The members in order. */
    ghost function Items(): (s: seq<Entry<bytes, V>>)
      requires Shape()
      reads this, cells, hashes, names, values, cellIxs
      ensures |s| == count
      ensures forall i :: 0 <= i < count ==> s[i] == Entry(names[i], values[i])
    {
      Zip(names[..count], values[..count])
    }

    /** `json_object_init`. */
    constructor Init(hash: bytes -> nat, capacity: nat)
      requires capacity == 0 || (PowerOfTwo(capacity) && capacity >= STARTING_CAPACITY)
      ensures Valid() && fresh(Repr())
      ensures this.hash == hash && cellCapacity == capacity && Items() == []
    {
      var emptyCells := NewCells(capacity);
      this.hash := hash;
      cells := emptyCells;
      names := new bytes[capacity * 7 / 10];
      values := new V[capacity * 7 / 10];
      cellIxs := new nat[capacity * 7 / 10];
      hashes := new nat[capacity * 7 / 10];
      count := 0;
      cellCapacity := capacity;
      itemCapacity := capacity * 7 / 10;
      new;
      hide Linked, Zip, PowerOfTwo;
      if capacity > 0 {
        EmptyIsLinked(cells[..]);
      }
      assert Items() == [];
    }

    /** `json_object_get_cell_ix`: the cell of `key`, or else the cell where it would go. */
    method GetCellIx(key: bytes, h: nat) returns (cellIx: int, found: bool)
      requires Valid() && h == hash(key)
      ensures found <==> Contains(Items(), key)
      ensures found ==> 0 <= cellIx < cellCapacity && cells[cellIx] == Find(Items(), key)
      ensures !found && cellCapacity > 0 ==>
                && 0 <= cellIx < cellCapacity && cells[cellIx] == INVALID
                && forall c :: 0 <= c < cellCapacity && Between(Mask(h, cellCapacity), c, cellIx) ==>
                     cells[c] != INVALID
      ensures cellCapacity == 0 ==> cellIx == INVALID
    {
      hide Zip, Distinct, PowerOfTwo;
      if cellCapacity == 0 {
        return INVALID, false;
      }
      ghost var e := EmptyCell(cells[..], cellIxs[..count]);
      var home := Mask(h, cellCapacity);
      var i := 0;
      while i < cellCapacity
        invariant 0 <= i <= Distance(home, e, cellCapacity)
        invariant forall d :: 0 <= d < i ==>
                    var c := cells[Step(home, d, cellCapacity)]; c != INVALID && names[c] != key
      {
        MaskIsStep(home, i, cellCapacity);
        var ix := Mask(home + i, cellCapacity);
        var cell := cells[ix];
        if cell == INVALID {
          ProbeEndsAbsent(key, h, i);
          return ix, false;
        }
        if h == hashes[cell] && names[cell] == key {
          FindUnique(Items(), cell);
          return ix, true;
        }
        i := i + 1;
      }
      assert false;
    }

    /** An empty cell at the end of an unsuccessful probe proves the key absent. */
    lemma ProbeEndsAbsent(key: bytes, h: nat, i: nat)
      requires Valid() && h == hash(key) && i < cellCapacity
      requires cells[Step(Mask(h, cellCapacity), i, cellCapacity)] == INVALID
      requires forall d :: 0 <= d < i ==>
                 var c := cells[Step(Mask(h, cellCapacity), d, cellCapacity)]; c != INVALID && names[c] != key
      ensures !Contains(Items(), key)
      ensures forall c :: 0 <= c < cellCapacity && Between(Mask(h, cellCapacity), c, Step(Mask(h, cellCapacity), i,
          cellCapacity))
                ==> cells[c] != INVALID
    {
      var home := Mask(h, cellCapacity);
      var stop := Step(home, i, cellCapacity);
      forall c | 0 <= c < cellCapacity && Between(home, c, stop)
        ensures cells[c] != INVALID
      {
        assert Distance(home, c, cellCapacity) < i;
      }
      forall t | 0 <= t < count && hashes[t] == h
        ensures names[t] != key
      {
        var c := cellIxs[..count][t];
        assert cells[..][c] == t && hashes[..count][t] == h;
        assert !Between(home, stop, c) by { assert cells[..][stop] == INVALID; }
        assert Distance(home, c, cellCapacity) < i;
      }
    }

    /** `json_object_getn_value`. */
    method GetValue(key: bytes) returns (value: Option<V>)
      requires Valid()
      ensures value == Get(Items(), key)
    {
      var cellIx, found := GetCellIx(key, hash(key));
      if !found {
        return None;
      }
      var itemIx := cells[cellIx];
      return Some(values[itemIx]);
    }

    /** `json_object_grow_and_rehash`.  The inner additions never grow the new object again: that is
        what the termination measures of Add and GrowAndRehash say. */
    method GrowAndRehash()
      requires Valid() && count >= itemCapacity
      modifies this
      ensures Valid() && fresh(Repr() - {this})
      ensures Items() == old(Items()) && count < itemCapacity
      ensures cellCapacity == if old(cellCapacity) == 0 then STARTING_CAPACITY else 2 * old(cellCapacity)
      decreases 2
    {
      hide Linked, Contains, Distinct, Zip;
      var newCapacity := if cellCapacity * 2 > STARTING_CAPACITY then cellCapacity * 2 else STARTING_CAPACITY;
      var grown := new JsonObject<V>.Init(hash, newCapacity);
      grown.AddAllOf(this);
      CopyFrom(grown);
    }

    /** The loop of `json_object_grow_and_rehash`: every item of `source` is added, in order. */
    method AddAllOf(source: JsonObject<V>)
      requires Valid() && Items() == []
      requires source.Valid() && source.hash == hash && source.count <= itemCapacity
      requires Repr() !! source.Repr()
      modifies Repr()
      ensures Valid() && Repr() == old(Repr()) && cellCapacity == old(cellCapacity)
      ensures Items() == source.Items()
      decreases 1
    {
      hide Linked, Contains, Distinct, Zip;
      ghost var items := source.Items();
      var i := 0;
      while i < source.count
        invariant 0 <= i <= source.count
        invariant Valid() && Repr() == old(Repr()) && cellCapacity == old(cellCapacity)
        invariant Items() == items[..i]
      {
        var key := source.names[i];
        var value := source.values[i];
        assert items[i] == Entry(key, value) && items[..i] + [items[i]] == items[..i + 1];
        PrefixLacksNext(items, i);
        var ok := Add(key, value);
        i := i + 1;
      }
    }

    /** The structure assignment that ends `json_object_grow_and_rehash`. */
    method CopyFrom(other: JsonObject<V>)
      requires other != this && this !in other.Repr() && other.Valid() && other.hash == hash
      modifies this
      ensures Valid() && Items() == old(other.Items())
      ensures Repr() == {this} + (other.Repr() - {other})
      ensures cellCapacity == other.cellCapacity && itemCapacity == other.itemCapacity && count == other.count
    {
      hide Shape, Valid, Items;
      cells, hashes, names, values, cellIxs := other.cells, other.hashes, other.names, other.values, other.cellIxs;
      count, itemCapacity, cellCapacity := other.count, other.itemCapacity, other.cellCapacity;
      SameTable(other);
    }

    lemma SameTable(other: JsonObject<V>)
      requires other.Valid() && other.hash == hash
      requires cells == other.cells && hashes == other.hashes && cellIxs == other.cellIxs
      requires names == other.names && values == other.values
      requires count == other.count && itemCapacity == other.itemCapacity && cellCapacity == other.cellCapacity
      ensures Valid() && Items() == other.Items()
    {
      hide Linked, PowerOfTwo, Distinct, Zip;
    }

    /** `json_object_add`. */
    method Add(name: bytes, value: V) returns (ok: bool)
      requires Valid()
      modifies Repr()
      ensures Valid() && fresh(Repr() - old(Repr()))
      ensures ok == !Contains(old(Items()), name)
      ensures Items() == if ok then old(Items()) + [Entry(name, value)] else old(Items())
      ensures old(count < itemCapacity) ==> Repr() == old(Repr()) && cellCapacity == old(cellCapacity)
      decreases if count < itemCapacity then 0 else 3
    {
      hide Linked, Contains, Distinct, Zip;
      var h := hash(name);
      var cellIx, found := GetCellIx(name, h);
      if found {
        return false;
      }
      if count >= itemCapacity {
        GrowAndRehash();
        cellIx, found := GetCellIx(name, h);
      }
      Append(name, value, cellIx, h);
      return true;
    }

    /** The common tail of `json_object_add` and `json_object_set_value`. */
    method Append(name: bytes, value: V, cellIx: int, h: nat)
      requires Valid() && count < itemCapacity && h == hash(name) && !Contains(Items(), name)
      requires 0 <= cellIx < cellCapacity && cells[cellIx] == INVALID
      requires forall c :: 0 <= c < cellCapacity && Between(Mask(h, cellCapacity), c, cellIx) ==> cells[c] != INVALID
      modifies Repr()
      ensures Valid() && Repr() == old(Repr()) && cellCapacity == old(cellCapacity)
      ensures Items() == old(Items()) + [Entry(name, value)]
    {
      hide Linked, PowerOfTwo, Between, Zip;
      InsertKeepsLinked(cells[..], cellIxs[..count], hashes[..count], cellIx, h);
      ghost var before := Items();
      names[count] := name;
      cells[cellIx] := count;
      values[count] := value;
      cellIxs[count] := cellIx;
      hashes[count] := h;
      count := count + 1;
      assert cells[..] == old(cells[..])[cellIx := old(count)];
      assert cellIxs[..count] == old(cellIxs[..count]) + [cellIx];
      assert hashes[..count] == old(hashes[..count]) + [h];
      assert Items() == before + [Entry(name, value)];
    }

    /** `json_object_set_value`; `owned` tells that the value already has a parent. */
    method SetValue(name: bytes, value: V, owned: bool) returns (ok: bool)
      requires Valid()
      modifies Repr()
      ensures Valid() && fresh(Repr() - old(Repr()))
      ensures ok == !owned
      ensures Items() == if ok then Set(old(Items()), name, value) else old(Items())
    {
      hide Linked, Distinct, Zip;
      if owned {
        return false;
      }
      var h := hash(name);
      var cellIx, found := GetCellIx(name, h);
      if found {
        Overwrite(cells[cellIx], value);
        return true;
      }
      if count >= itemCapacity {
        GrowAndRehash();
        cellIx, found := GetCellIx(name, h);
      }
      Append(name, value, cellIx, h);
      return true;
    }

    method Overwrite(itemIx: nat, value: V)
      requires Valid() && itemIx < count
      modifies values
      ensures Valid()
      ensures Items() == old(Items())[itemIx := Entry(names[itemIx], value)]
    {
      values[itemIx] := value;
    }

    /** `json_object_remove_internal`: the last item moves into the hole, then the probe run behind the
        freed cell is shifted back. */
    method RemoveInternal(name: bytes) returns (ok: bool)
      requires Valid()
      modifies Repr()
      ensures Valid() && Repr() == old(Repr()) && cellCapacity == old(cellCapacity)
      ensures ok == Contains(old(Items()), name)
      ensures Items() == if ok then Remove(old(Items()), name).value else old(Items())
    {
      hide Zip, PowerOfTwo, RemoveAt, Inverse, Reachable;
      var h := hash(name);
      var cell, found := GetCellIx(name, h);
      if !found {
        return false;
      }
      var itemIx := cells[cell];
      ghost var e := MoveLastInto(cell, itemIx);
      RemoveLaw(old(Items()), name, name);
      ShiftBack(cells, cellIxs, hashes, count, cell, e);
      return true;
    }

    /** The last item takes the place of item `itemIx`; the cell of the removed item keeps a stale index. */
    method MoveLastInto(cell: nat, itemIx: nat) returns (ghost e: nat)
      requires Valid() && cell < cellCapacity && cells[cell] == itemIx
      modifies this`count, cells, hashes, names, values, cellIxs
      ensures Shape() && count == old(count) - 1 && count < cellCapacity && e < cellCapacity
      ensures Items() == RemoveAt(old(Items()), itemIx)
      ensures forall i :: 0 <= i < count ==> hashes[i] == hash(names[i])
      ensures Shifting(cells[..], cellIxs[..count], hashes[..count], e, cell, cell)
    {
      hide Linked, Shifting, Distinct, Zip, RemoveAt;
      LinkedCell(cells[..], cellIxs[..count], hashes[..count], cell);
      ZipRemoveAt(names[..count], values[..count], itemIx);
      e := MoveIndex(cells, cellIxs, hashes, count, itemIx);
      MoveEntry(names, values, count, itemIx);
      count := count - 1;
    }

    /** `json_object_clear`. */
    method Clear()
      requires Valid()
      modifies Repr()
      ensures Valid() && Repr() == old(Repr()) && Items() == []
    {
      var i := 0;
      while i < count
        invariant 0 <= i <= count
        modifies names
      {
        names[i] := [];
        i := i + 1;
      }
      count := 0;
      i := 0;
      while i < cellCapacity
        invariant 0 <= i <= cellCapacity
        invariant forall c :: 0 <= c < i ==> cells[c] == INVALID
        modifies cells
      {
        cells[i] := INVALID;
        i := i + 1;
      }
    }
  }

  /** The loop of `json_object_init`. */
  method NewCells(capacity: nat) returns (cells: array<int>)
    ensures fresh(cells) && cells.Length == capacity
    ensures forall c :: 0 <= c < capacity ==> cells[c] == INVALID
  {
    cells := new int[capacity];
    var i := 0;
    while i < capacity
      invariant 0 <= i <= capacity
      invariant forall c :: 0 <= c < i ==> cells[c] == INVALID
    {
      cells[i] := INVALID;
      i := i + 1;
    }
  }

  lemma ZipRemoveAt<K, V>(names: seq<K>, values: seq<V>, ix: nat)
    requires ix < |names| == |values|
    ensures |RemoveAt(names, ix)| == |RemoveAt(values, ix)|
    ensures Zip(RemoveAt(names, ix), RemoveAt(values, ix)) == RemoveAt(Zip(names, values), ix)
  {
  }

  /** The part of the move that concerns the name and the value. */
  method MoveEntry<V>(names: array<bytes>, values: array<V>, count: nat, itemIx: nat)
    requires names as object != values
    requires itemIx < count <= names.Length && count <= values.Length
    modifies names, values
    ensures names[..count - 1] == old(RemoveAt(names[..count], itemIx))
    ensures values[..count - 1] == old(RemoveAt(values[..count], itemIx))
    ensures forall i :: 0 <= i < count - 1 ==> names[i] == old(names[if i == itemIx then count - 1 else i])
  {
    var lastItemIx := count - 1;
    if itemIx < lastItemIx {
      names[itemIx] := names[lastItemIx];
      values[itemIx] := values[lastItemIx];
    }
  }

  /** The part of the move that concerns the cell table. */
  method MoveIndex(cells: array<int>, cellIxs: array<nat>, hashes: array<nat>, count: nat,
      itemIx: nat) returns (ghost e: nat)
    requires cells as object !in {cellIxs as object, hashes} && cellIxs != hashes
    requires itemIx < count <= cellIxs.Length && count <= hashes.Length
    requires Linked(cells[..], cellIxs[..count], hashes[..count])
    modifies cells, cellIxs, hashes
    ensures e < cells.Length
    ensures forall i :: 0 <= i < count - 1 ==> hashes[i] == old(hashes[if i == itemIx then count - 1 else i])
    ensures Shifting(cells[..], cellIxs[..count - 1], hashes[..count - 1], e,
                     old(cellIxs[itemIx]), old(cellIxs[itemIx]))
  {
    ghost var cs, xs, hs := cells[..], cellIxs[..count], hashes[..count];
    e := EmptyCell(cs, xs);
    var lastItemIx := count - 1;
    LinkedItem(cs, xs, hs, lastItemIx);
    hide Linked, Shifting, Inverse;
    if itemIx < lastItemIx {
      cellIxs[itemIx] := cellIxs[lastItemIx];
      hashes[itemIx] := hashes[lastItemIx];
      cells[cellIxs[itemIx]] := itemIx;
    }
    ShiftStarts(cs, xs, hs, itemIx, e, cells[..], cellIxs[..lastItemIx], hashes[..lastItemIx]);
  }

  method MoveCell(cells: array<int>, cellIxs: array<nat>, count: nat, i: nat, j: nat)
    requires cells as object != cellIxs && count <= cellIxs.Length
    requires i < cells.Length && j < cells.Length && 0 <= cells[j] < count
    modifies cells, cellIxs
    ensures cells[..] == old(cells[..])[i := old(cells[j])]
    ensures cellIxs[..count] == old(cellIxs[..count])[old(cells[j]) := i]
  {
    cellIxs[cells[j]] := i;
    cells[i] := cells[j];
  }

  /** One round of the shift loop: the hole is cell `i`, and the cells up to `before` are scanned. */
  method ShiftRound(cells: array<int>, cellIxs: array<nat>, hashes: array<nat>, count: nat, i: nat, before: nat,
                    ghost e: nat)
      returns (hole: nat, j: nat, ends: bool)
    requires cells as object !in {cellIxs as object, hashes} && cellIxs != hashes
    requires e < cells.Length && i < cells.Length && before < cells.Length
    requires count < cells.Length && count <= cellIxs.Length && count <= hashes.Length
    requires Shifting(cells[..], cellIxs[..count], hashes[..count], e, i, before)
    modifies cells, cellIxs
    ensures hole < cells.Length && j < cells.Length
    ensures ends ==> Linked(cells[..][hole := INVALID], cellIxs[..count], hashes[..count])
    ensures !ends ==>
              && Shifting(cells[..], cellIxs[..count], hashes[..count], e, hole, j)
              && Distance(e, j, cells.Length) == Distance(e, before, cells.Length) + 1
  {
    ghost var cs, xs, hs := cells[..], cellIxs[..count], hashes[..count];
    ShiftingFacts(cs, xs, hs, e, i, before);
    hide Linked, Shifting, Distance, Step, Mask;
    var capacity := cells.Length;
    hole, ends := i, false;
    MaskIsStep(before, 1, capacity);
    ScanFacts(cs, xs, hs, e, i, before);
    j := Mask(before + 1, capacity);
    if cells[j] == INVALID {
      ShiftEnds(cs, xs, hs, e, i, before);
      return i, j, true;
    }
    var k := Mask(hashes[cells[j]], capacity);
    assert k == Mask(hs[cs[j]], |cs|);
    if (j > i && (k <= i || k > j)) || (j < i && k <= i && k > j) {
      ShiftMoves(cs, xs, hs, e, i, before, j);
      MoveCell(cells, cellIxs, count, i, j);
      hole := j;
    } else {
      ShiftSkips(cs, xs, hs, e, i, before, j);
    }
  }

  /** The backward shift of `json_object_remove_internal`: from the freed cell to the end of its probe run,
      every item whose home does not lie behind the hole moves into the hole. */
  method ShiftBack(cells: array<int>, cellIxs: array<nat>, hashes: array<nat>, count: nat, cell: nat, ghost e: nat)
    requires cells as object !in {cellIxs as object, hashes} && cellIxs != hashes
    requires e < cells.Length && cell < cells.Length
    requires count < cells.Length && count <= cellIxs.Length && count <= hashes.Length
    requires Shifting(cells[..], cellIxs[..count], hashes[..count], e, cell, cell)
    modifies cells, cellIxs
    ensures Linked(cells[..], cellIxs[..count], hashes[..count])
  {
    ShiftingFacts(cells[..], cellIxs[..count], hashes[..count], e, cell, cell);
    hide Linked, Shifting, Distance, Step, Mask;
    var capacity := cells.Length;
    var i: nat, j: nat, x := cell, cell, 0;
    var ends := false;
    while x < capacity - 1 && !ends
      invariant 0 <= x && i < capacity && j < capacity
      invariant ends ==> Linked(cells[..][i := INVALID], cellIxs[..count], hashes[..count])
      invariant !ends ==>
                  && Shifting(cells[..], cellIxs[..count], hashes[..count], e, i, j)
                  && Distance(e, j, capacity) == Distance(e, cell, capacity) + x
    {
      i, j, ends := ShiftRound(cells, cellIxs, hashes, count, i, j, e);
      x := x + 1;
    }
    ghost var cs := cells[..];
    cells[i] := INVALID;
    assert cells[..] == cs[i := INVALID];
  }

  lemma ShiftingFacts(cells: seq<int>, ixs: seq<nat>, hs: seq<nat>, e: nat, i: nat, j: nat)
    requires Shifting(cells, ixs, hs, e, i, j)
    ensures |ixs| == |hs| && |cells| >= 2 && Distance(e, i, |cells|) >= 1
    ensures forall c: nat :: c < |cells| ==> Distance(e, c, |cells|) < |cells|
  {
  }

  method ApplyOperation<V(0)>(table: JsonObject<V>, op: Operation<bytes, V>) returns (ok: bool)
    requires table.Valid()
    modifies table.Repr()
    ensures table.Valid() && fresh(table.Repr() - old(table.Repr()))
    ensures (table.Items(), ok) == Apply(old(table.Items()), op)
  {
    hide Linked, Distinct, Zip, Set, RemoveAt;
    ok := true;
    match op {
      case OpAdd(name, value) => ok := table.Add(name, value);
      case OpSet(name, value) => ok := table.SetValue(name, value, false);
      case OpRemove(name) => ok := table.RemoveInternal(name);
      case OpClear => table.Clear();
    }
  }

  /** Any run of calls on a new object: its entries, their order, and the success of every call are those of the
      plain list, so its lookups are those of the finite map that the same run builds. */
  method RunOperations<V(0)>(hash: bytes -> nat, ops: seq<Operation<bytes, V>>) returns (table: JsonObject<V>,
      oks: seq<bool>)
    ensures fresh(table) && table.Valid()
    ensures table.Items() == Run(ops).0 && oks == Run(ops).1
    ensures ToMap(table.Items()) == MapRun(ops).0 && oks == MapRun(ops).1
  {
    hide JsonObject.Shape, Linked, Apply, Distinct, ToMap, MapRun;
    table := new JsonObject<V>.Init(hash, 0);
    oks := [];
    assert ops[..0] == [];
    while |oks| < |ops|
      invariant |oks| <= |ops| && fresh(table.Repr()) && table.Valid()
      invariant Run(ops[..|oks|]) == (table.Items(), oks)
      decreases |ops| - |oks|
    {
      var n := |oks|;
      assert ops[..n + 1][..n] == ops[..n];
      var ok := ApplyOperation(table, ops[n]);
      oks := oks + [ok];
    }
    assert ops[..|oks|] == ops;
    RunRefinesMap(ops);
  }
}
