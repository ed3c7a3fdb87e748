/** `json_value_equals` and `json_value_deep_copy`. */
module Equality {
  import opened Assoc
  import opened Bytes
  import opened Json
  import opened Wrappers

  predicate Close(x: real, y: real) {
    -0.000001 < x - y < 0.000001
  }

  /** The relation that `json_value_equals` decides.  For objects it looks only at the keys of the left operand. */
  predicate Equals(a: Value, b: Value)
    decreases a
  {
    match (a, b)
    case (Null, Null) => true
    case (Boolean(x), Boolean(y)) => x == y
    case (Number(x), Number(y)) => Close(x, y)
    case (String(s), String(t)) => s == t
    case (Array(xs), Array(ys)) => |xs| == |ys| && forall i :: 0 <= i < |xs| ==> Equals(xs[i], ys[i])
    case (Object(ms), Object(ns)) =>
      |ms| == |ns| && forall i :: 0 <= i < |ms| ==> EqualAt(a, ms, ns, i)
    case _ => false
  }

  /** The comparison made for the i-th key of the left operand: both values are looked up by name. */
  predicate EqualAt(a: Value, ms: Members, ns: Members, i: nat)
    requires a == Object(ms) && i < |ms|
    decreases a, 0
  {
    var left, right := Find(ms, ms[i].name), Find(ns, ms[i].name);
    left < |ms| && right < |ns| && Equals(ms[left].value, ns[right].value)
  }

  /** `json_value_equals`. */
  method JsonValueEquals(a: Value, b: Value) returns (equal: bool)
    ensures equal == Equals(a, b)
    decreases a
  {
    match a
    case Array(xs) =>
      if !b.Array? || |xs| != |b.items| {
        return false;
      }
      var i := 0;
      while i < |xs|
        invariant 0 <= i <= |xs|
        invariant forall k :: 0 <= k < i ==> Equals(xs[k], b.items[k])
      {
        var same := JsonValueEquals(xs[i], b.items[i]);
        if !same {
          return false;
        }
        i := i + 1;
      }
      return true;
    case Object(ms) =>
      if !b.Object? || |ms| != |b.members| {
        return false;
      }
      var i := 0;
      while i < |ms|
        invariant 0 <= i <= |ms|
        invariant forall k :: 0 <= k < i ==> EqualAt(a, ms, b.members, k)
      {
        var key := ms[i].name;
        var left, right := Find(ms, key), Find(b.members, key);
        if right == |b.members| {
          assert !EqualAt(a, ms, b.members, i);
          return false;
        }
        var same := JsonValueEquals(ms[left].value, b.members[right].value);
        if !same {
          assert !EqualAt(a, ms, b.members, i);
          return false;
        }
        i := i + 1;
      }
      return true;
    case String(s) => return b.String? && s == b.chars;
    case Boolean(x) => return b.Boolean? && x == b.flag;
    case Number(x) => return b.Number? && Close(x, b.number);
    case Null => return b.Null?;
  }

  lemma {:induction false} EqualsReflexive(v: Value)
    requires WellNamed(v)
    ensures Equals(v, v)
    decreases v
  {
    match v
    case Array(items) =>
      forall i | 0 <= i < |items|
        ensures Equals(items[i], items[i])
      {
        EqualsReflexive(items[i]);
      }
    case Object(members) =>
      forall i | 0 <= i < |members|
        ensures EqualAt(v, members, members, i)
      {
        FindUnique(members, i);
        EqualsReflexive(members[i].value);
      }
    case _ =>
  }

  /** Equality is symmetric, although the comparison of objects walks the keys of the left operand only. */
  lemma {:induction false} EqualsSymmetric(a: Value, b: Value)
    requires WellNamed(a) && WellNamed(b) && Equals(a, b)
    ensures Equals(b, a)
    decreases a
  {
    match (a, b)
    case (Array(xs), Array(ys)) =>
      forall i | 0 <= i < |xs|
        ensures Equals(ys[i], xs[i])
      {
        EqualsSymmetric(xs[i], ys[i]);
      }
    case (Object(ms), Object(ns)) =>
      forall i | 0 <= i < |ns|
        ensures EqualAt(b, ns, ms, i)
      {
        FindUnique(ns, i);
        forall k | 0 <= k < |ms|
          ensures Contains(ns, ms[k].name)
        {
          assert EqualAt(a, ms, ns, k);
        }
        SameNames(ms, ns, ns[i].name, a);
        var left := Find(ms, ns[i].name);
        assert EqualAt(a, ms, ns, left);
        EqualsSymmetric(ms[left].value, ns[i].value);
      }
    case _ =>
  }

  /** Equal objects have the same names, whatever their order. */
  lemma EqualObjectsShareNames(ms: Members, ns: Members, name: bytes)
    requires Distinct(ms) && Distinct(ns) && Equals(Object(ms), Object(ns))
    ensures Contains(ms, name) <==> Contains(ns, name)
  {
    forall k | 0 <= k < |ms|
      ensures Contains(ns, ms[k].name)
    {
      assert EqualAt(Object(ms), ms, ns, k);
    }
    if Contains(ns, name) {
      SameNames(ms, ns, name, Null);
    }
    if Contains(ms, name) {
      assert EqualAt(Object(ms), ms, ns, Find(ms, name));
    }
  }

  /** Equality is not transitive: numbers are compared with a tolerance. */
  lemma EqualsNotTransitive() returns (a: Value, b: Value, c: Value)
    ensures WellNamed(a) && WellNamed(b) && WellNamed(c)
    ensures Equals(a, b) && Equals(b, c) && !Equals(a, c)
  {
    a, b, c := Number(0.0), Number(0.0000006), Number(0.0000012);
  }

  /** Corresponding numbers of two values are exactly equal. */
  predicate SameNumbers(a: Value, b: Value)
    decreases a
  {
    match (a, b)
    case (Number(x), Number(y)) => x == y
    case (Array(xs), Array(ys)) => |xs| == |ys| && forall i :: 0 <= i < |xs| ==> SameNumbers(xs[i], ys[i])
    case (Object(ms), Object(ns)) =>
      forall i :: 0 <= i < |ms| && Contains(ns, ms[i].name) ==> SameNumbers(ms[i].value, ns[Find(ns, ms[i].name)].value)
    case _ => true
  }

  /** Whatever equals `b` equals `a` as well, when no tolerance is used up between `a` and `b` ... */
  lemma {:induction false} EqualsComposes(a: Value, b: Value, c: Value)
    requires WellNamed(a) && WellNamed(b) && WellNamed(c)
    requires Equals(a, b) && SameNumbers(a, b) && Equals(b, c)
    ensures Equals(a, c)
    decreases a
  {
    match a
    case Array(xs) =>
      forall i | 0 <= i < |xs|
        ensures Equals(xs[i], c.items[i])
      {
        EqualsComposes(xs[i], b.items[i], c.items[i]);
      }
    case Object(ms) =>
      forall i | 0 <= i < |ms|
        ensures EqualAt(a, ms, c.members, i)
      {
        assert EqualAt(a, ms, b.members, i);
        FindUnique(ms, i);
        var j := Find(b.members, ms[i].name);
        assert EqualAt(b, b.members, c.members, j);
        FindUnique(b.members, j);
        EqualsComposes(ms[i].value, b.members[j].value, c.members[Find(c.members, ms[i].name)].value);
      }
    case _ =>
  }

  /** ... and only then: otherwise a number of `b`, moved by the tolerance away from the one of `a`, separates them. */
  lemma {:induction false} Separates(a: Value, b: Value) returns (c: Value)
    requires WellNamed(a) && WellNamed(b) && Equals(a, b) && !SameNumbers(a, b)
    ensures WellNamed(c) && Equals(b, c) && !Equals(a, c)
    decreases a
  {
    match a
    case Number(x) =>
      c := Number(if x < b.number then x + 0.000001 else x - 0.000001);
    case Array(xs) =>
      var i :| 0 <= i < |xs| && !SameNumbers(xs[i], b.items[i]);
      var inner := Separates(xs[i], b.items[i]);
      c := Array(b.items[i := inner]);
      forall k | 0 <= k < |xs|
        ensures Equals(b.items[k], c.items[k])
      {
        EqualsReflexive(b.items[k]);
      }
    case Object(ms) =>
      var i :| 0 <= i < |ms| && Contains(b.members, ms[i].name)
               && !SameNumbers(ms[i].value, b.members[Find(b.members, ms[i].name)].value);
      var j := Find(b.members, ms[i].name);
      FindUnique(ms, i);
      assert EqualAt(a, ms, b.members, i);
      var inner := Separates(ms[i].value, b.members[j].value);
      c := Object(b.members[j := Entry(ms[i].name, inner)]);
      OneMemberChanged(b.members, j, inner);
      FindUnique(c.members, j);
      assert !EqualAt(a, ms, c.members, i);
  }

  lemma OneMemberChanged(ns: Members, j: nat, inner: Value)
    requires WellNamed(Object(ns)) && j < |ns| && WellNamed(inner) && Equals(ns[j].value, inner)
    ensures var c := Object(ns[j := Entry(ns[j].name, inner)]); WellNamed(c) && Equals(Object(ns), c)
  {
    var cs := ns[j := Entry(ns[j].name, inner)];
    assert Distinct(cs);
    forall k | 0 <= k < |ns|
      ensures EqualAt(Object(ns), ns, cs, k)
    {
      FindUnique(ns, k);
      FindUnique(cs, k);
      EqualsReflexive(ns[k].value);
    }
  }

  /** Exactly when equality with `a` follows from equality with `b`. */
  lemma TransitiveExactly(a: Value, b: Value)
    requires WellNamed(a) && WellNamed(b) && Equals(a, b)
    ensures SameNumbers(a, b) <==> forall c :: WellNamed(c) && Equals(b, c) ==> Equals(a, c)
  {
    hide WellNamed, Equals, SameNumbers;
    if SameNumbers(a, b) {
      forall c | WellNamed(c) && Equals(b, c)
        ensures Equals(a, c)
      {
        EqualsComposes(a, b, c);
      }
    } else {
      var c := Separates(a, b);
    }
  }

  // ---------- what equality means ----------

  datatype Step = Index(i: nat) | Name(name: bytes)

  /** Where a path of indices and names leads. */
  function Follow(v: Value, path: seq<Step>): Option<Value>
    decreases |path|
  {
    if path == [] then Some(v)
    else match Inside(v, path[0]) case None => None case Some(w) => Follow(w, path[1..])
  }

  function Inside(v: Value, step: Step): Option<Value> {
    match step
    case Index(i) => if v.Array? && i < |v.items| then Some(v.items[i]) else None
    case Name(name) => if v.Object? then Get(v.members, name) else None
  }

  /** What is compared in one place: leaves byte for byte, but for numbers, and containers by their length or by the
      names in them. */
  ghost predicate Alike(a: Value, b: Value) {
    || (a.Null? && b.Null?)
    || (a.Boolean? && b.Boolean? && a.flag == b.flag)
    || (a.Number? && b.Number? && a.number < b.number + 0.000001 && b.number < a.number + 0.000001)
    || (a.String? && b.String? && a.chars == b.chars)
    || (a.Array? && b.Array? && |a.items| == |b.items|)
    || (a.Object? && b.Object? && forall name :: Contains(a.members, name) <==> Contains(b.members, name))
  }

  ghost predicate AlikeAt(a: Value, b: Value, path: seq<Step>) {
    match (Follow(a, path), Follow(b, path))
    case (None, None) => true
    case (Some(x), Some(y)) => Alike(x, y)
    case _ => false
  }

  lemma InsideEqual(a: Value, b: Value, step: Step)
    requires WellNamed(a) && WellNamed(b) && Equals(a, b)
    ensures match (Inside(a, step), Inside(b, step))
            case (None, None) => true
            case (Some(x), Some(y)) => WellNamed(x) && WellNamed(y) && Equals(x, y)
            case _ => false
  {
    if a.Object? && step.Name? {
      var ms, ns := a.members, b.members;
      EqualObjectsShareNames(ms, ns, step.name);
      var i := Find(ms, step.name);
      if i < |ms| {
        assert EqualAt(a, ms, ns, i);
        assert WellNamed(ms[i].value) && WellNamed(ns[Find(ns, step.name)].value);
      }
    }
  }

  lemma {:induction false} EqualAreAlike(a: Value, b: Value, path: seq<Step>)
    requires WellNamed(a) && WellNamed(b) && Equals(a, b)
    ensures AlikeAt(a, b, path)
    decreases |path|
  {
    if path == [] {
      if a.Object? {
        forall name
          ensures Contains(a.members, name) <==> Contains(b.members, name)
        {
          EqualObjectsShareNames(a.members, b.members, name);
        }
      }
    } else {
      InsideEqual(a, b, path[0]);
      if Inside(a, path[0]).Some? {
        EqualAreAlike(Inside(a, path[0]).value, Inside(b, path[0]).value, path[1..]);
      }
    }
  }

  lemma InsideAlike(a: Value, b: Value, step: Step)
    requires forall path :: AlikeAt(a, b, path)
    requires Inside(a, step).Some? && Inside(b, step).Some?
    ensures forall path :: AlikeAt(Inside(a, step).value, Inside(b, step).value, path)
  {
    forall path: seq<Step>
      ensures AlikeAt(Inside(a, step).value, Inside(b, step).value, path)
    {
      assert AlikeAt(a, b, [step] + path);
      assert ([step] + path)[1..] == path;
    }
  }

  lemma {:induction false} AlikeAreEqual(a: Value, b: Value)
    requires WellNamed(a) && WellNamed(b) && forall path :: AlikeAt(a, b, path)
    ensures Equals(a, b)
    decreases a
  {
    hide AlikeAt;
    AlikeHere(a, b);
    match a
    case Array(xs) =>
      forall i | 0 <= i < |xs|
        ensures Equals(xs[i], b.items[i])
      {
        InsideAlike(a, b, Index(i));
        AlikeAreEqual(xs[i], b.items[i]);
      }
    case Object(ms) =>
      var ns := b.members;
      NamesFit(ms, ns);
      NamesFit(ns, ms);
      forall i | 0 <= i < |ms|
        ensures EqualAt(a, ms, ns, i)
      {
        FindUnique(ms, i);
        InsideAlike(a, b, Name(ms[i].name));
        var j := Find(ns, ms[i].name);
        assert WellNamed(ns[j].value);
        AlikeAreEqual(ms[i].value, ns[j].value);
      }
    case _ =>
  }

  lemma AlikeHere(a: Value, b: Value)
    requires WellNamed(a) && WellNamed(b) && forall path :: AlikeAt(a, b, path)
    ensures Alike(a, b)
    ensures a.Object? ==> forall i :: 0 <= i < |a.members| ==> Contains(b.members, a.members[i].name)
    ensures a.Object? ==> forall i :: 0 <= i < |b.members| ==> Contains(a.members, b.members[i].name)
  {
    assert AlikeAt(a, b, []);
    if a.Object? {
      forall i | 0 <= i < |a.members|
        ensures Contains(a.members, a.members[i].name)
      {
        FindUnique(a.members, i);
      }
      forall i | 0 <= i < |b.members|
        ensures Contains(b.members, b.members[i].name)
      {
        FindUnique(b.members, i);
      }
    }
  }

  /** Two values are equal just when every path leads to nothing in both, or in both to alike values. */
  lemma EqualsByPaths(a: Value, b: Value)
    requires WellNamed(a) && WellNamed(b)
    ensures Equals(a, b) <==> forall path :: AlikeAt(a, b, path)
  {
    hide Equals, AlikeAt, WellNamed;
    if Equals(a, b) {
      forall path: seq<Step>
        ensures AlikeAt(a, b, path)
      {
        EqualAreAlike(a, b, path);
      }
    }
    if forall path :: AlikeAt(a, b, path) {
      AlikeAreEqual(a, b);
    }
  }

  /** The nesting depth of a value is the length of the longest path into it. */
  lemma {:induction false} PathsAreShort(v: Value, path: seq<Step>)
    requires Follow(v, path).Some?
    ensures |path| <= Depth(v)
    decreases |path|
  {
    hide Depth;
    if path != [] {
      InsideIsShallow(v, path[0]);
      PathsAreShort(Inside(v, path[0]).value, path[1..]);
    }
  }

  lemma InsideIsShallow(v: Value, step: Step)
    requires Inside(v, step).Some?
    ensures Depth(Inside(v, step).value) < Depth(v)
  {
    hide ItemsDepth, MembersDepth;
    match step
    case Index(i) => ItemIsShallow(v.items, i);
    case Name(name) => MemberIsShallow(v.members, Find(v.members, name));
  }

  lemma {:induction false} ItemIsShallow(items: seq<Value>, i: nat)
    requires i < |items|
    ensures Depth(items[i]) <= ItemsDepth(items)
    decreases |items|
  {
    if i > 0 {
      ItemIsShallow(items[1..], i - 1);
    }
  }

  lemma {:induction false} MemberIsShallow(members: Members, i: nat)
    requires i < |members|
    ensures Depth(members[i].value) <= MembersDepth(members)
    decreases |members|
  {
    if i > 0 {
      MemberIsShallow(members[1..], i - 1);
    }
  }

  lemma {:induction false} DeepestItem(items: seq<Value>) returns (i: nat)
    requires items != []
    ensures i < |items| && Depth(items[i]) == ItemsDepth(items)
    decreases |items|
  {
    i := 0;
    if |items| > 1 && Depth(items[0]) <= ItemsDepth(items[1..]) {
      i := DeepestItem(items[1..]);
      i := i + 1;
    }
  }

  lemma {:induction false} DeepestMember(members: Members) returns (i: nat)
    requires members != []
    ensures i < |members| && Depth(members[i].value) == MembersDepth(members)
    decreases |members|
  {
    i := 0;
    if |members| > 1 && Depth(members[0].value) <= MembersDepth(members[1..]) {
      i := DeepestMember(members[1..]);
      i := i + 1;
    }
  }

  lemma {:induction false} DeepestPath(v: Value) returns (path: seq<Step>)
    requires WellNamed(v)
    ensures Follow(v, path).Some? && |path| == Depth(v)
    decreases v
  {
    hide ItemsDepth, MembersDepth;
    path := [];
    if v.Array? && v.items != [] {
      var i := DeepestItem(v.items);
      var rest := DeepestPath(v.items[i]);
      path := [Index(i)] + rest;
      assert path[1..] == rest;
    } else if v.Object? && v.members != [] {
      var i := DeepestMember(v.members);
      FindUnique(v.members, i);
      var rest := DeepestPath(v.members[i].value);
      path := [Name(v.members[i].name)] + rest;
      assert path[1..] == rest;
    }
  }

  lemma DepthIsLongestPath(v: Value)
    requires WellNamed(v)
    ensures forall path :: Follow(v, path).Some? ==> |path| <= Depth(v)
    ensures exists path :: Follow(v, path).Some? && |path| == Depth(v)
  {
    hide Follow, Depth;
    forall path | Follow(v, path).Some?
      ensures |path| <= Depth(v)
    {
      PathsAreShort(v, path);
    }
    var deepest := DeepestPath(v);
  }

  // ---------- equality without the tolerance ----------

  /** A value without the order of its members. */
  datatype Tree = Leaf(v: Value) | Branch(items: seq<Tree>) | Dictionary(members: map<bytes, Tree>)

  function Unordered(v: Value): Tree
    decreases v, 1
  {
    match v
    case Array(items) => Branch(UnorderedItems(items))
    case Object(members) => Dictionary(UnorderedMembers(members))
    case _ => Leaf(v)
  }

  function UnorderedItems(items: seq<Value>): (trees: seq<Tree>)
    ensures |trees| == |items|
    decreases items, 0
  {
    if items == [] then [] else [Unordered(items[0])] + UnorderedItems(items[1..])
  }

  function UnorderedMembers(members: Members): map<bytes, Tree>
    decreases members, 0
  {
    if members == [] then map[]
    else UnorderedMembers(members[1..])[members[0].name := UnorderedMember(members[0])]
  }

  function UnorderedMember(member: Entry<bytes, Value>): Tree
    decreases member, 2
  {
    Unordered(member.value)
  }

  lemma {:induction false} UnorderedItemAt(items: seq<Value>, i: nat)
    requires i < |items|
    ensures UnorderedItems(items)[i] == Unordered(items[i])
    decreases |items|
  {
    if i > 0 {
      UnorderedItemAt(items[1..], i - 1);
    }
  }

  lemma {:induction false} UnorderedMemberAt(members: Members, name: bytes)
    ensures name in UnorderedMembers(members) <==> Contains(members, name)
    ensures Contains(members, name) ==>
              UnorderedMembers(members)[name] == Unordered(members[Find(members, name)].value)
    decreases |members|
  {
    if members != [] {
      UnorderedMemberAt(members[1..], name);
    }
  }

  /** Equality of values with the same numbers is sameness up to the order of members. */
  lemma {:induction false} EqualsUpToOrder(a: Value, b: Value)
    requires WellNamed(a) && WellNamed(b)
    ensures Equals(a, b) && SameNumbers(a, b) <==> Unordered(a) == Unordered(b)
    decreases a
  {
    match (a, b)
    case (Array(xs), Array(ys)) => ItemsUpToOrder(a, xs, ys);
    case (Object(ms), Object(ns)) => MembersUpToOrder(a, ms, ns);
    case _ =>
  }

  lemma {:induction false} ItemsUpToOrder(a: Value, xs: seq<Value>, ys: seq<Value>)
    requires a == Array(xs) && WellNamed(a) && WellNamed(Array(ys))
    ensures Equals(a, Array(ys)) && SameNumbers(a, Array(ys)) <==> Unordered(a) == Unordered(Array(ys))
    decreases a, 0
  {
    hide Unordered, UnorderedItems, WellNamed;
    assert Unordered(a) == Branch(UnorderedItems(xs)) by { UnorderedArray(xs); }
    UnorderedArray(ys);
    EachItem(xs);
    EachItem(ys);
    if |xs| == |ys| {
      forall i | 0 <= i < |xs|
        ensures UnorderedItems(xs)[i] == UnorderedItems(ys)[i] <==> Equals(xs[i], ys[i]) && SameNumbers(xs[i], ys[i])
      {
        UnorderedItemAt(xs, i);
        UnorderedItemAt(ys, i);
        EqualsUpToOrder(xs[i], ys[i]);
      }
    }
  }

  lemma UnorderedArray(xs: seq<Value>)
    ensures Unordered(Array(xs)) == Branch(UnorderedItems(xs))
  {
  }

  lemma EachItem(xs: seq<Value>)
    requires WellNamed(Array(xs))
    ensures forall i :: 0 <= i < |xs| ==> WellNamed(xs[i])
  {
  }

  lemma {:induction false} MembersUpToOrder(a: Value, ms: Members, ns: Members)
    requires a == Object(ms) && WellNamed(a) && WellNamed(Object(ns))
    ensures Equals(a, Object(ns)) && SameNumbers(a, Object(ns)) <==> Unordered(a) == Unordered(Object(ns))
    decreases a, 0
  {
    hide Unordered, UnorderedMembers;
    var u, w := UnorderedMembers(ms), UnorderedMembers(ns);
    UnorderedObject(ms);
    UnorderedObject(ns);
    forall name
      ensures name in u <==> Contains(ms, name)
      ensures name in w <==> Contains(ns, name)
    {
      UnorderedMemberAt(ms, name);
      UnorderedMemberAt(ns, name);
    }
    forall i | 0 <= i < |ms| && Contains(ns, ms[i].name)
      ensures ms[i].name in u && ms[i].name in w
      ensures var value := ns[Find(ns, ms[i].name)].value;
              u[ms[i].name] == w[ms[i].name] <==> Equals(ms[i].value, value) && SameNumbers(ms[i].value, value)
    {
      var name, j := ms[i].name, Find(ns, ms[i].name);
      FindUnique(ms, i);
      UnorderedMemberAt(ms, name);
      UnorderedMemberAt(ns, name);
      assert WellNamed(ns[j].value);
      EqualsUpToOrder(ms[i].value, ns[j].value);
    }
    if Equals(a, Object(ns)) && SameNumbers(a, Object(ns)) {
      SameDictionary(a, ms, ns);
    }
    if u == w {
      DictionaryIsEqual(a, ms, ns);
    }
  }

  lemma UnorderedObject(ms: Members)
    ensures Unordered(Object(ms)) == Dictionary(UnorderedMembers(ms))
  {
  }

  lemma EachMemberDistinct(ms: Members)
    requires WellNamed(Object(ms))
    ensures Distinct(ms)
  {
  }

  lemma SameUnderName(a: Value, ms: Members, ns: Members, name: bytes)
    requires a == Object(ms) && WellNamed(a) && WellNamed(Object(ns)) && Contains(ms, name)
    requires Equals(a, Object(ns)) && SameNumbers(a, Object(ns))
    ensures Contains(ns, name)
    ensures var x, y := ms[Find(ms, name)].value, ns[Find(ns, name)].value; Equals(x, y) && SameNumbers(x, y)
  {
    assert EqualAt(a, ms, ns, Find(ms, name));
  }

  lemma SameDictionary(a: Value, ms: Members, ns: Members)
    requires a == Object(ms) && WellNamed(a) && WellNamed(Object(ns))
    requires Equals(a, Object(ns)) && SameNumbers(a, Object(ns))
    requires var u, w := UnorderedMembers(ms), UnorderedMembers(ns);
             && (forall name :: name in u <==> Contains(ms, name))
             && (forall name :: name in w <==> Contains(ns, name))
             && forall i :: 0 <= i < |ms| && Contains(ns, ms[i].name) ==>
                  var value := ns[Find(ns, ms[i].name)].value;
                  Equals(ms[i].value, value) && SameNumbers(ms[i].value, value) ==> u[ms[i].name] == w[ms[i].name]
    ensures UnorderedMembers(ms) == UnorderedMembers(ns)
  {
    hide UnorderedMembers, Equals, SameNumbers, WellNamed;
    var u, w := UnorderedMembers(ms), UnorderedMembers(ns);
    EachMemberDistinct(ms);
    EachMemberDistinct(ns);
    forall name | name in u
      ensures name in w && u[name] == w[name]
    {
      SameUnderName(a, ms, ns, name);
      assert ms[Find(ms, name)].name == name;
    }
    forall name | name in w
      ensures name in u
    {
      EqualObjectsShareNames(ms, ns, name);
    }
  }

  lemma DictionaryIsEqual(a: Value, ms: Members, ns: Members)
    requires a == Object(ms) && WellNamed(a) && WellNamed(Object(ns))
    requires UnorderedMembers(ms) == UnorderedMembers(ns)
    requires var u, w := UnorderedMembers(ms), UnorderedMembers(ns);
             && (forall name :: name in u <==> Contains(ms, name))
             && (forall name :: name in w <==> Contains(ns, name))
             && forall i :: 0 <= i < |ms| && Contains(ns, ms[i].name) ==>
                  var value := ns[Find(ns, ms[i].name)].value;
                  u[ms[i].name] == w[ms[i].name] ==> Equals(ms[i].value, value) && SameNumbers(ms[i].value, value)
    ensures Equals(a, Object(ns)) && SameNumbers(a, Object(ns))
  {
    hide UnorderedMembers;
    forall i | 0 <= i < |ms|
      ensures Contains(ns, ms[i].name)
    {
      FindUnique(ms, i);
      assert ms[i].name in UnorderedMembers(ms);
    }
    forall i | 0 <= i < |ns|
      ensures Contains(ms, ns[i].name)
    {
      FindUnique(ns, i);
      assert ns[i].name in UnorderedMembers(ns);
    }
    NamesFit(ms, ns);
    NamesFit(ns, ms);
    forall i | 0 <= i < |ms|
      ensures EqualAt(a, ms, ns, i)
    {
      FindUnique(ms, i);
    }
  }

  predicate HoldsObject(v: Value)
    decreases v
  {
    match v
    case Array(items) => exists i :: 0 <= i < |items| && HoldsObject(items[i])
    case Object(_) => true
    case _ => false
  }

  /** Without objects there is no order to differ in. */
  lemma {:induction false} EqualsIsSameness(a: Value, b: Value)
    requires Equals(a, b) && SameNumbers(a, b) && !HoldsObject(a)
    ensures a == b
    decreases a
  {
    if a.Array? {
      forall i | 0 <= i < |a.items|
        ensures a.items[i] == b.items[i]
      {
        EqualsIsSameness(a.items[i], b.items[i]);
      }
    }
  }

  /** `json_value_deep_copy`: the copy is the value itself, member order included. */
  method JsonValueDeepCopy(v: Value) returns (copy: Option<Value>)
    ensures WellNamed(v) ==> copy == Some(v)
    decreases v
  {
    match v
    case Array(items) =>
      var copied: seq<Value> := [];
      var i := 0;
      while i < |items|
        invariant 0 <= i <= |items|
        invariant WellNamed(v) ==> copied == items[..i]
      {
        var item := JsonValueDeepCopy(items[i]);
        if item.None? {
          return None;
        }
        copied := copied + [item.value];
        i := i + 1;
      }
      assert items[..|items|] == items;
      return Some(Array(copied));
    case Object(members) =>
      var copied: Members := [];
      var i := 0;
      while i < |members|
        invariant 0 <= i <= |members|
        invariant WellNamed(v) ==> copied == members[..i]
      {
        var key := members[i].name;
        var at := Find(members, key);
        if WellNamed(v) {
          FindUnique(members, i);
          PrefixLacksNext(members, i);
        }
        var value := JsonValueDeepCopy(members[at].value);
        if value.None? {
          return None;
        }
        var added := Add(copied, key, value.value);
        if added.None? {
          return None;
        }
        copied := added.value;
        i := i + 1;
      }
      assert members[..|members|] == members;
      return Some(Object(copied));
    case _ => return Some(v);
  }
}
