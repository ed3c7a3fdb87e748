/** `json_validate`. */
module Schema {
  import opened Assoc
  import opened Bytes
  import opened Json
  import opened Wrappers

  /** The relation the header describes: null matches everything; the first element of a non-empty array schema
      matches all elements; every member of an object schema matches the member of the same name; other values
      match by type. */
  ghost predicate Matches(schema: Value, value: Value)
    decreases schema
  {
    match (schema, value)
    case (Null, _) => true
    case (Array(ss), Array(vs)) => ss == [] || forall i :: 0 <= i < |vs| ==> Matches(ss[0], vs[i])
    case (Object(ss), Object(vs)) =>
      forall i :: 0 <= i < |ss| ==>
        Contains(vs, ss[i].name) && Matches(ss[i].value, vs[Find(vs, ss[i].name)].value)
    case (String(_), String(_)) => true
    case (Number(_), Number(_)) => true
    case (Boolean(_), Boolean(_)) => true
    case _ => false
  }

  predicate SameType(a: Value, b: Value) {
    match (a, b)
    case (Null, Null) => true
    case (Array(_), Array(_)) => true
    case (Object(_), Object(_)) => true
    case (String(_), String(_)) => true
    case (Number(_), Number(_)) => true
    case (Boolean(_), Boolean(_)) => true
    case _ => false
  }

  /** `json_validate`: the member counts it compares first decide nothing that the names would not. */
  method JsonValidate(schema: Value, value: Value) returns (ok: bool)
    requires WellNamed(schema) && WellNamed(value)
    ensures ok == Matches(schema, value)
    decreases schema, 0
  {
    if !SameType(schema, value) && !schema.Null? {
      return false;
    }
    match schema
    case Array(ss) =>
      if |ss| == 0 {
        return true;
      }
      ok := JsonValidateItems(ss[0], value.items);
    case Object(ss) =>
      var vs := value.members;
      if |ss| == 0 {
        return true;
      } else if |vs| < |ss| {
        if Matches(schema, value) {
          NamesFit(ss, vs);
        }
        return false;
      }
      ok := JsonValidateMembers(ss, vs);
    case _ => return true;
  }

  /** The array loop of `json_validate`. */
  method JsonValidateItems(schema: Value, vs: seq<Value>) returns (ok: bool)
    requires WellNamed(schema) && forall i :: 0 <= i < |vs| ==> WellNamed(vs[i])
    ensures ok == forall i :: 0 <= i < |vs| ==> Matches(schema, vs[i])
    decreases schema, 1
  {
    hide Matches, WellNamed;
    var i := 0;
    while i < |vs|
      invariant 0 <= i <= |vs|
      invariant forall k :: 0 <= k < i ==> Matches(schema, vs[k])
    {
      var valid := JsonValidate(schema, vs[i]);
      if !valid {
        return false;
      }
      i := i + 1;
    }
    return true;
  }

  /** The object loop of `json_validate`. */
  method JsonValidateMembers(ss: Members, vs: Members) returns (ok: bool)
    requires WellNamed(Object(ss)) && WellNamed(Object(vs))
    ensures ok == forall i :: 0 <= i < |ss| ==>
                    Contains(vs, ss[i].name) && Matches(ss[i].value, vs[Find(vs, ss[i].name)].value)
    decreases ss
  {
    hide Matches;
    var i := 0;
    while i < |ss|
      invariant 0 <= i <= |ss|
      invariant forall k :: 0 <= k < i ==>
                  Contains(vs, ss[k].name) && Matches(ss[k].value, vs[Find(vs, ss[k].name)].value)
    {
      var key := ss[i].name;
      FindUnique(ss, i);
      var schemaIx, valueIx := Find(ss, key), Find(vs, key);
      if valueIx == |vs| {
        return false;
      }
      var valid := JsonValidate(ss[schemaIx].value, vs[valueIx].value);
      if !valid {
        return false;
      }
      i := i + 1;
    }
    return true;
  }

  /** A value that a schema accepts. */
  function Instance(schema: Value): (v: Value)
    decreases schema, 1
  {
    match schema
    case Array(_) => Array([])
    case Object(ss) => Object(Instances(ss))
    case _ => schema
  }

  function Instances(ss: Members): (vs: Members)
    ensures |vs| == |ss|
    decreases ss, 0
  {
    if ss == [] then [] else [InstanceMember(ss[0])] + Instances(ss[1..])
  }

  function InstanceMember(s: Entry<bytes, Value>): (v: Entry<bytes, Value>)
    decreases s, 2
  {
    Entry(s.name, Instance(s.value))
  }

  lemma {:induction false} InstancesAt(ss: Members, i: nat)
    requires i < |ss|
    ensures Instances(ss)[i] == InstanceMember(ss[i])
    decreases |ss|
  {
    if i > 0 {
      InstancesAt(ss[1..], i - 1);
    }
  }

  lemma {:induction false} InstanceMatches(schema: Value)
    requires WellNamed(schema)
    ensures WellNamed(Instance(schema)) && Matches(schema, Instance(schema))
    decreases schema
  {
    if schema.Object? {
      var ss := schema.members;
      var vs := Instances(ss);
      forall i | 0 <= i < |ss|
        ensures vs[i].name == ss[i].name && WellNamed(vs[i].value) && Matches(ss[i].value, vs[i].value)
      {
        InstancesAt(ss, i);
        InstanceMatches(ss[i].value);
      }
      assert Distinct(vs);
      forall i | 0 <= i < |ss|
        ensures Contains(vs, ss[i].name) && Matches(ss[i].value, vs[Find(vs, ss[i].name)].value)
      {
        FindUnique(vs, i);
      }
    }
  }

  /** Where schema `a` has a non-empty array schema and `b` an empty one, the element schema of `a` is null. */
  ghost predicate Composable(a: Value, b: Value)
    decreases a
  {
    match (a, b)
    case (Array(xs), Array(ys)) =>
      xs == [] || (if ys == [] then xs[0].Null? else Composable(xs[0], ys[0]))
    case (Object(xs), Object(ys)) =>
      forall i :: 0 <= i < |xs| && Contains(ys, xs[i].name) ==> Composable(xs[i].value, ys[Find(ys, xs[i].name)].value)
    case _ => true
  }

  /** Validation composes for composable schemas ... */
  lemma {:induction false} MatchesComposes(a: Value, b: Value, c: Value)
    requires WellNamed(a) && WellNamed(b) && WellNamed(c)
    requires Matches(a, b) && Matches(b, c) && Composable(a, b)
    ensures Matches(a, c)
    decreases a
  {
    match (a, b, c)
    case (Array(xs), Array(ys), Array(zs)) =>
      if xs != [] {
        forall i | 0 <= i < |zs|
          ensures Matches(xs[0], zs[i])
        {
          if ys != [] {
            MatchesComposes(xs[0], ys[0], zs[i]);
          }
        }
      }
    case (Object(xs), Object(ys), Object(zs)) =>
      forall i | 0 <= i < |xs|
        ensures Contains(zs, xs[i].name) && Matches(xs[i].value, zs[Find(zs, xs[i].name)].value)
      {
        var j := Find(ys, xs[i].name);
        assert Contains(zs, ys[j].name);
        MatchesComposes(xs[i].value, ys[j].value, zs[Find(zs, ys[j].name)].value);
      }
    case _ =>
  }

  /** ... and for no others: then some value passes `b` but not `a`. */
  lemma {:induction false} Counterexample(a: Value, b: Value) returns (c: Value)
    requires WellNamed(a) && WellNamed(b) && Matches(a, b) && !Composable(a, b)
    ensures WellNamed(c) && Matches(b, c) && !Matches(a, c)
    decreases a
  {
    if a.Array? {
      if b.items == [] {
        c := Array([Null]);
        assert !Matches(a.items[0], c.items[0]);
      } else {
        var inner := Counterexample(a.items[0], b.items[0]);
        c := Array([inner]);
        assert !Matches(a.items[0], c.items[0]);
      }
    } else {
      var xs, ys := a.members, b.members;
      var i :| 0 <= i < |xs| && Contains(ys, xs[i].name) && !Composable(xs[i].value, ys[Find(ys, xs[i].name)].value);
      var j := Find(ys, xs[i].name);
      var inner := Counterexample(xs[i].value, ys[j].value);
      c := WithMember(ys, j, inner);
      FindUnique(c.members, j);
      assert !Matches(xs[i].value, c.members[Find(c.members, xs[i].name)].value);
    }
  }

  /** The instance of an object schema with one member replaced by another acceptable value. */
  lemma WithMember(ys: Members, j: nat, inner: Value) returns (c: Value)
    requires WellNamed(Object(ys)) && j < |ys| && WellNamed(inner) && Matches(ys[j].value, inner)
    ensures WellNamed(c) && c.Object? && |c.members| == |ys| && c.members[j] == Entry(ys[j].name, inner)
    ensures Matches(Object(ys), c)
  {
    InstanceMatches(Object(ys));
    var vs := Instances(ys)[j := Entry(ys[j].name, inner)];
    c := Object(vs);
    forall i | 0 <= i < |ys|
      ensures vs[i].name == ys[i].name && Matches(ys[i].value, vs[i].value) && WellNamed(vs[i].value)
      ensures NulFree(vs[i].name)
    {
      InstancesAt(ys, i);
      InstanceMatches(ys[i].value);
    }
    assert Distinct(vs);
    forall i | 0 <= i < |ys|
      ensures Contains(vs, ys[i].name) && Matches(ys[i].value, vs[Find(vs, ys[i].name)].value)
    {
      FindUnique(vs, i);
    }
  }

  /** Schema validation composes exactly for composable schemas. */
  lemma ComposesExactly(a: Value, b: Value)
    requires WellNamed(a) && WellNamed(b) && Matches(a, b)
    ensures Composable(a, b) <==> forall c :: WellNamed(c) && Matches(b, c) ==> Matches(a, c)
  {
    if Composable(a, b) {
      forall c | WellNamed(c) && Matches(b, c)
        ensures Matches(a, c)
      {
        MatchesComposes(a, b, c);
      }
    } else {
      var c := Counterexample(a, b);
    }
  }

  ghost predicate NoEmptyArray(v: Value)
    decreases v
  {
    match v
    case Array(items) => items != [] && forall i :: 0 <= i < |items| ==> NoEmptyArray(items[i])
    case Object(members) => forall i :: 0 <= i < |members| ==> NoEmptyArray(members[i].value)
    case _ => true
  }

  /** In particular it composes when the middle schema holds no empty array. */
  lemma {:induction false} NoEmptyArrayComposes(a: Value, b: Value)
    requires NoEmptyArray(b)
    ensures Composable(a, b)
    decreases a
  {
    match (a, b)
    case (Array(xs), Array(ys)) =>
      if xs != [] {
        NoEmptyArrayComposes(xs[0], ys[0]);
      }
    case (Object(xs), Object(ys)) =>
      forall i | 0 <= i < |xs| && Contains(ys, xs[i].name)
        ensures Composable(xs[i].value, ys[Find(ys, xs[i].name)].value)
      {
        NoEmptyArrayComposes(xs[i].value, ys[Find(ys, xs[i].name)].value);
      }
    case _ =>
  }

  /** An empty array in the middle breaks composition: [0] accepts [], which accepts [""], which [0] refuses. */
  lemma EmptyArrayBreaksComposition() returns (a: Value, b: Value, c: Value)
    ensures Matches(a, b) && Matches(b, c) && !Matches(a, c)
  {
    a, b, c := Array([Number(0.0)]), Array([]), Array([String([])]);
    assert !Matches(a.items[0], c.items[0]);
  }

  // ---------- what a schema asks for ----------

  /** A way into a schema or a value: to the elements of an array, or to the member of a name. */
  datatype Step = Element | Member(name: bytes)

  /** The schema for what lies behind the steps, if there is one. */
  function SchemaBehind(schema: Value, steps: seq<Step>): Option<Value>
    decreases |steps|
  {
    if steps == [] then Some(schema)
    else
      match steps[0]
      case Element => if schema.Array? && schema.items != [] then SchemaBehind(schema.items[0], steps[1..]) else None
      case Member(name) =>
        if schema.Object? && Contains(schema.members, name)
        then SchemaBehind(schema.members[Find(schema.members, name)].value, steps[1..]) else None
  }

  /** The steps lead from the value to `w`; to any of its elements where they enter an array. */
  ghost predicate Leads(value: Value, steps: seq<Step>, w: Value)
    decreases |steps|
  {
    if steps == [] then w == value
    else
      match steps[0]
      case Element => value.Array? && exists i :: 0 <= i < |value.items| && Leads(value.items[i], steps[1..], w)
      case Member(name) =>
        && value.Object? && Contains(value.members, name)
        && Leads(value.members[Find(value.members, name)].value, steps[1..], w)
  }

  /** What a schema asks of the value in its own place: nothing when it is null, otherwise the same kind, and of an
      object that it has all the members named. */
  ghost predicate Admits(schema: Value, w: Value) {
    || schema.Null?
    || (schema.Boolean? && w.Boolean?)
    || (schema.Number? && w.Number?)
    || (schema.String? && w.String?)
    || (schema.Array? && w.Array?)
    || (schema.Object? && w.Object? && forall name :: Contains(schema.members, name) ==> Contains(w.members, name))
  }

  ghost predicate AdmitsBehind(schema: Value, value: Value, steps: seq<Step>, w: Value) {
    SchemaBehind(schema, steps).Some? && Leads(value, steps, w) ==> Admits(SchemaBehind(schema, steps).value, w)
  }

  lemma {:induction false} MatchingIsAdmitted(schema: Value, value: Value, steps: seq<Step>, w: Value)
    requires WellNamed(schema) && Matches(schema, value)
    ensures AdmitsBehind(schema, value, steps, w)
    decreases |steps|
  {
    if SchemaBehind(schema, steps).Some? && Leads(value, steps, w) {
      if steps == [] {
        AdmittedHere(schema, value);
      } else if steps[0].Element? {
        var i :| 0 <= i < |value.items| && Leads(value.items[i], steps[1..], w);
        assert WellNamed(schema.items[0]);
        MatchingIsAdmitted(schema.items[0], value.items[i], steps[1..], w);
      } else {
        var i := Find(schema.members, steps[0].name);
        assert WellNamed(schema.members[i].value);
        var j := Find(value.members, steps[0].name);
        MatchingIsAdmitted(schema.members[i].value, value.members[j].value, steps[1..], w);
      }
    }
  }

  lemma AdmittedHere(schema: Value, value: Value)
    requires Matches(schema, value)
    ensures Admits(schema, value)
  {
    if schema.Object? {
      forall name | Contains(schema.members, name)
        ensures Contains(value.members, name)
      {
        assert schema.members[Find(schema.members, name)].name == name;
      }
    }
  }

  lemma AdmitsInside(schema: Value, value: Value, step: Step, s: Value, v: Value)
    requires forall steps, w :: AdmitsBehind(schema, value, steps, w)
    requires match step
             case Element =>
               schema.Array? && schema.items != [] && s == schema.items[0] && value.Array? && v in value.items
             case Member(name) =>
               && schema.Object? && value.Object? && Contains(schema.members, name) && Contains(value.members, name)
               && s == schema.members[Find(schema.members, name)].value
               && v == value.members[Find(value.members, name)].value
    ensures forall steps, w :: AdmitsBehind(s, v, steps, w)
  {
    forall steps: seq<Step>, w: Value
      ensures AdmitsBehind(s, v, steps, w)
    {
      var longer := [step] + steps;
      assert longer[1..] == steps;
      assert AdmitsBehind(schema, value, longer, w);
      if Leads(v, steps, w) {
        assert Leads(value, longer, w);
      }
    }
  }

  lemma {:induction false} AdmittedMatches(schema: Value, value: Value)
    requires WellNamed(schema) && forall steps, w :: AdmitsBehind(schema, value, steps, w)
    ensures Matches(schema, value)
    decreases schema
  {
    hide AdmitsBehind;
    HereAdmitted(schema, value);
    match schema
    case Array(ss) =>
      forall i | ss != [] && 0 <= i < |value.items|
        ensures Matches(ss[0], value.items[i])
      {
        AdmitsInside(schema, value, Element, ss[0], value.items[i]);
        AdmittedMatches(ss[0], value.items[i]);
      }
    case Object(ss) =>
      var vs := value.members;
      forall i | 0 <= i < |ss|
        ensures Contains(vs, ss[i].name) && Matches(ss[i].value, vs[Find(vs, ss[i].name)].value)
      {
        FindUnique(ss, i);
        assert Contains(ss, ss[i].name);
        AdmitsInside(schema, value, Member(ss[i].name), ss[i].value, vs[Find(vs, ss[i].name)].value);
        AdmittedMatches(ss[i].value, vs[Find(vs, ss[i].name)].value);
      }
    case _ =>
  }

  lemma HereAdmitted(schema: Value, value: Value)
    requires forall steps, w :: AdmitsBehind(schema, value, steps, w)
    ensures Admits(schema, value)
  {
    assert AdmitsBehind(schema, value, [], value);
  }

  /** A value matches a schema just when everything in it that the schema speaks of is admitted in its own place. */
  lemma MatchesExactly(schema: Value, value: Value)
    requires WellNamed(schema)
    ensures Matches(schema, value) <==> forall steps, w :: AdmitsBehind(schema, value, steps, w)
  {
    hide Matches, AdmitsBehind, WellNamed;
    if Matches(schema, value) {
      forall steps: seq<Step>, w: Value
        ensures AdmitsBehind(schema, value, steps, w)
      {
        MatchingIsAdmitted(schema, value, steps, w);
      }
    }
    if forall steps, w :: AdmitsBehind(schema, value, steps, w) {
      AdmittedMatches(schema, value);
    }
  }
}
