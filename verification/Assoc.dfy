/** Insertion-ordered association lists: the plain reference behaviour of a JSON object.
    The hash index of ObjectTable is proved to act on its items exactly as these functions do,
    and the operations on value trees use them as the meaning of an object. */
module Assoc {
  import opened Wrappers

  datatype Entry<+K, +V> = Entry(name: K, value: V)

  /** The position of the first entry called `name`, or the length when there is none. */
  function Find<K(==), V>(items: seq<Entry<K, V>>, name: K): (ix: nat)
    ensures ix <= |items|
    ensures ix < |items| ==> items[ix].name == name
    ensures forall j :: 0 <= j < ix ==> items[j].name != name
  {
    if items == [] then 0
    else if items[0].name == name then 0
    else
      var rest := Find(items[1..], name);
      assert forall j :: 0 < j <= rest && j < |items| ==> items[j] == items[1..][j - 1];
      1 + rest
  }

  predicate Contains<K(==), V>(items: seq<Entry<K, V>>, name: K) {
    Find(items, name) < |items|
  }

  predicate Distinct<K(==), V>(items: seq<Entry<K, V>>) {
    forall i, j :: 0 <= i < j < |items| ==> items[i].name != items[j].name
  }

  function Get<K(==), V>(items: seq<Entry<K, V>>, name: K): Option<V> {
    var ix := Find(items, name);
    if ix < |items| then Some(items[ix].value) else None
  }

  /** `json_object_add`: refuses a name that is already present. */
  function Add<K(==), V>(items: seq<Entry<K, V>>, name: K, value: V): Option<seq<Entry<K, V>>> {
    if Contains(items, name) then None else Some(items + [Entry(name, value)])
  }

  /** `json_object_set_value`: overwrites in place or appends. */
  function Set<K(==), V>(items: seq<Entry<K, V>>, name: K, value: V): seq<Entry<K, V>> {
    var ix := Find(items, name);
    if ix < |items| then items[ix := Entry(name, value)] else items + [Entry(name, value)]
  }

  /** `json_object_remove`: the last entry moves into the hole. */
  function Remove<K(==), V>(items: seq<Entry<K, V>>, name: K): Option<seq<Entry<K, V>>> {
    var ix := Find(items, name);
    if ix < |items| then Some(RemoveAt(items, ix)) else None
  }

  function RemoveAt<T>(items: seq<T>, ix: nat): (r: seq<T>)
    requires ix < |items|
  {
    var last := |items| - 1;
    if ix < last then items[ix := items[last]][..last] else items[..last]
  }

  /** Index by index: setting keeps every entry in its place, names included, and writes one value; a new name comes
      last. */
  lemma SetInPlace<K, V>(items: seq<Entry<K, V>>, name: K, value: V, i: nat)
    requires Distinct(items)
    ensures var r := Set(items, name, value);
            && |r| == |items| + (if exists k :: 0 <= k < |items| && items[k].name == name then 0 else 1)
            && (i < |items| ==> r[i] == if items[i].name == name then Entry(name, value) else items[i])
            && (i == |items| < |r| ==> r[i] == Entry(name, value))
  {
  }

  /** Index by index: removing takes the last entry into the hole and leaves the others where they are. */
  lemma RemoveAtMoves<T>(items: seq<T>, ix: nat, i: nat)
    requires ix < |items|
    ensures var r := RemoveAt(items, ix);
            && |r| == |items| - 1
            && (i < |r| ==> r[i] == if i == ix then items[|items| - 1] else items[i])
  {
  }

  /** Removing by name is removing where the name is; a name that is nowhere is not removed. */
  lemma RemoveFinds<K, V>(items: seq<Entry<K, V>>, name: K, ix: nat)
    requires Distinct(items)
    ensures ix < |items| && items[ix].name == name ==> Remove(items, name) == Some(RemoveAt(items, ix))
    ensures Remove(items, name) == None <==> forall k :: 0 <= k < |items| ==> items[k].name != name
  {
  }

  /** The finite map an association list stands for. */
  function ToMap<K(==), V>(items: seq<Entry<K, V>>): map<K, V> {
    if items == [] then map[] else ToMap(items[1..])[items[0].name := items[0].value]
  }

  lemma FindUnique<K, V>(items: seq<Entry<K, V>>, ix: nat)
    requires Distinct(items) && ix < |items|
    ensures Find(items, items[ix].name) == ix
  {
    if Find(items, items[ix].name) < ix {
      assert false;
    }
  }

  /** No earlier entry carries the name of entry `ix`. */
  lemma PrefixLacksNext<K, V>(items: seq<Entry<K, V>>, ix: nat)
    requires Distinct(items) && ix < |items|
    ensures !Contains(items[..ix], items[ix].name)
  {
    forall j | 0 <= j < ix
      ensures items[..ix][j].name != items[ix].name
    {
      assert items[..ix][j] == items[j];
    }
  }

  lemma {:induction false} GetIsMapLookup<K, V>(items: seq<Entry<K, V>>, name: K)
    ensures Contains(items, name) <==> name in ToMap(items)
    ensures Get(items, name) == if name in ToMap(items) then Some(ToMap(items)[name]) else None
  {
    if items != [] {
      GetIsMapLookup(items[1..], name);
    }
  }

  lemma FindIs<K, V>(items: seq<Entry<K, V>>, name: K, ix: nat)
    requires ix <= |items|
    requires ix < |items| ==> items[ix].name == name
    requires forall j :: 0 <= j < ix ==> items[j].name != name
    ensures Find(items, name) == ix
  {
  }

  /** Adding a new name keeps the names distinct, and changes the lookup of that name only. */
  lemma AddLaw<K, V>(items: seq<Entry<K, V>>, name: K, value: V, k: K)
    requires Distinct(items) && !Contains(items, name)
    ensures Distinct(Add(items, name, value).value)
    ensures Get(Add(items, name, value).value, k) == if k == name then Some(value) else Get(items, k)
  {
    var after := items + [Entry(name, value)];
    if k == name {
      FindIs(after, k, |items|);
    } else {
      var ix := Find(items, k);
      FindIs(after, k, if ix < |items| then ix else |after|);
    }
  }

  /** Setting a name keeps the names distinct, and changes the lookup of that name only. */
  lemma SetLaw<K, V>(items: seq<Entry<K, V>>, name: K, value: V, k: K)
    requires Distinct(items)
    ensures Distinct(Set(items, name, value))
    ensures Get(Set(items, name, value), k) == if k == name then Some(value) else Get(items, k)
  {
    var ix := Find(items, name);
    if ix == |items| {
      AddLaw(items, name, value, k);
    } else {
      var after := items[ix := Entry(name, value)];
      if k == name {
        FindIs(after, k, ix);
      } else {
        FindIs(after, k, Find(items, k));
      }
    }
  }

  lemma DistinctNames<K, V>(items: seq<Entry<K, V>>, i: nat, j: nat)
    requires Distinct(items) && i < |items| && j < |items| && i != j
    ensures items[i].name != items[j].name
  {
  }

  /** Removing a name keeps the names distinct, and makes just that name absent. */
  lemma RemoveLaw<K, V>(items: seq<Entry<K, V>>, name: K, k: K)
    requires Distinct(items) && Contains(items, name)
    ensures Distinct(Remove(items, name).value)
    ensures Get(Remove(items, name).value, k) == if k == name then None else Get(items, k)
  {
    var ix, last := Find(items, name), |items| - 1;
    var after := RemoveAt(items, ix);
    assert forall j :: 0 <= j < |after| ==> after[j] == items[if j == ix then last else j];
    var f := Find(items, k);
    if k == name {
      forall j | 0 <= j < |after|
        ensures after[j].name != name
      {
        var origin := if j == ix then last else j;
        assert after[j] == items[origin] && origin != ix;
        DistinctNames(items, ix, origin);
      }
      FindIs(after, k, |after|);
    } else if f == |items| {
      FindIs(after, k, |after|);
    } else {
      FindUnique(after, if f == last then ix else f);
    }
  }

  /** Pigeonhole: distinct names that all occur in `ns` are no more than its entries. */
  lemma {:induction false} NamesFit<K, V, W>(ms: seq<Entry<K, V>>, ns: seq<Entry<K, W>>)
    requires Distinct(ms)
    requires forall i :: 0 <= i < |ms| ==> Contains(ns, ms[i].name)
    ensures |ms| <= |ns|
    decreases |ms|
  {
    if ms != [] {
      var last := |ms| - 1;
      var at := Find(ns, ms[last].name);
      forall i | 0 <= i < last
        ensures Contains(ns[..at] + ns[at + 1..], ms[..last][i].name)
      {
        assert ms[i].name != ms[last].name;
        StillContained(ns, at, Find(ns, ms[i].name));
      }
      NamesFit(ms[..last], ns[..at] + ns[at + 1..]);
    }
  }

  lemma StillContained<K, V>(ns: seq<Entry<K, V>>, at: nat, ix: nat)
    requires at < |ns| && ix < |ns| && ns[ix].name != ns[at].name
    ensures Contains(ns[..at] + ns[at + 1..], ns[ix].name)
  {
    var fewer := ns[..at] + ns[at + 1..];
    assert fewer[if ix < at then ix else ix - 1] == ns[ix];
  }

  /** Distinct names that all occur in a list of the same length are all the names of that list. */
  lemma SameNames<K, V, W>(ms: seq<Entry<K, V>>, ns: seq<Entry<K, W>>, name: K, value: V)
    requires Distinct(ms) && |ms| == |ns| && Contains(ns, name)
    requires forall i :: 0 <= i < |ms| ==> Contains(ns, ms[i].name)
    ensures Contains(ms, name)
  {
    if !Contains(ms, name) {
      AddLaw(ms, name, value, name);
      NamesFit(ms + [Entry(name, value)], ns);
    }
  }

  /** One call on a JSON object. */
  datatype Operation<+K, +V> =
    | OpAdd(name: K, value: V)
    | OpSet(name: K, value: V)
    | OpRemove(name: K)
    | OpClear

  /** What a call does to the entries, and whether it reports success. */
  function Apply<K(==), V>(items: seq<Entry<K, V>>, op: Operation<K, V>): (seq<Entry<K, V>>, bool) {
    match op
    case OpAdd(name, value) =>
      (match Add(items, name, value) case Some(after) => (after, true) case None => (items, false))
    case OpSet(name, value) => (Set(items, name, value), true)
    case OpRemove(name) =>
      (match Remove(items, name) case Some(after) => (after, true) case None => (items, false))
    case OpClear => ([], true)
  }

  /** What the same call means on a finite map. */
  function MapApply<K, V>(m: map<K, V>, op: Operation<K, V>): (map<K, V>, bool) {
    match op
    case OpAdd(name, value) => if name in m then (m, false) else (m[name := value], true)
    case OpSet(name, value) => (m[name := value], true)
    case OpRemove(name) => if name in m then (m - {name}, true) else (m, false)
    case OpClear => (map[], true)
  }

  function Run<K(==), V>(ops: seq<Operation<K, V>>): (seq<Entry<K, V>>, seq<bool>) {
    if ops == [] then ([], [])
    else
      var (items, oks) := Run(ops[..|ops| - 1]);
      var (after, ok) := Apply(items, ops[|ops| - 1]);
      (after, oks + [ok])
  }

  function MapRun<K, V>(ops: seq<Operation<K, V>>): (map<K, V>, seq<bool>) {
    if ops == [] then (map[], [])
    else
      var (m, oks) := MapRun(ops[..|ops| - 1]);
      var (after, ok) := MapApply(m, ops[|ops| - 1]);
      (after, oks + [ok])
  }

  /** Over every run of add, set, remove and clear the entries stand for the finite map that the
      same run builds, and every call reports success exactly when the map operation does. */
  lemma {:induction false} RunRefinesMap<K, V>(ops: seq<Operation<K, V>>)
    ensures Distinct(Run(ops).0)
    ensures ToMap(Run(ops).0) == MapRun(ops).0
    ensures Run(ops).1 == MapRun(ops).1
  {
    if ops != [] {
      RunRefinesMap(ops[..|ops| - 1]);
      ApplyRefinesMap(Run(ops[..|ops| - 1]).0, ops[|ops| - 1]);
    }
  }

  lemma ApplyRefinesMap<K, V>(items: seq<Entry<K, V>>, op: Operation<K, V>)
    requires Distinct(items)
    ensures Distinct(Apply(items, op).0)
    ensures ToMap(Apply(items, op).0) == MapApply(ToMap(items), op).0
    ensures Apply(items, op).1 == MapApply(ToMap(items), op).1
  {
    if op.OpClear? {
      return;
    }
    ApplyLookup(items, op, op.name);
    forall k
      ensures Get(Apply(items, op).0, k) ==
              if k in MapApply(ToMap(items), op).0 then Some(MapApply(ToMap(items), op).0[k]) else None
    {
      ApplyLookup(items, op, k);
    }
    LookupsDetermineMap(Apply(items, op).0, MapApply(ToMap(items), op).0);
  }

  lemma LookupsDetermineMap<K, V>(items: seq<Entry<K, V>>, m: map<K, V>)
    requires forall k :: Get(items, k) == if k in m then Some(m[k]) else None
    ensures ToMap(items) == m
  {
    forall k | k in ToMap(items)
      ensures k in m
    {
      GetIsMapLookup(items, k);
    }
    forall k | k in m
      ensures k in ToMap(items) && ToMap(items)[k] == m[k]
    {
      GetIsMapLookup(items, k);
    }
  }

  lemma ApplyLookup<K, V>(items: seq<Entry<K, V>>, op: Operation<K, V>, k: K)
    requires Distinct(items)
    ensures Distinct(Apply(items, op).0)
    ensures var m := MapApply(ToMap(items), op).0;
            Get(Apply(items, op).0, k) == if k in m then Some(m[k]) else None
    ensures Apply(items, op).1 == MapApply(ToMap(items), op).1
  {
    GetIsMapLookup(items, k);
    if !op.OpClear? {
      GetIsMapLookup(items, op.name);
    }
    match op
    case OpAdd(name, value) => if !Contains(items, name) { AddLaw(items, name, value, k); }
    case OpSet(name, value) => SetLaw(items, name, value, k);
    case OpRemove(name) => if Contains(items, name) { RemoveLaw(items, name, k); }
    case OpClear =>
  }
}
