/** Dotted-path access to nested objects.  The C code updates the nested objects in place; here an update
    returns the changed members and whether it reported success. */
module DotPath {
  import opened Assoc
  import opened Bytes
  import opened Json
  import opened Wrappers

  const DOT: byte := 0x2E

  /** `strchr(name, '.')` as an index; the length when there is no dot. */
  function DotPos(name: bytes): (d: nat)
    ensures d <= |name|
    ensures d < |name| ==> name[d] == DOT
  {
    if name == [] then 0 else if name[0] == DOT then 0 else 1 + DotPos(name[1..])
  }

  predicate HasDot(name: bytes) {
    DotPos(name) < |name|
  }

  function Head(name: bytes): bytes {
    name[..DotPos(name)]
  }

  function Tail(name: bytes): (r: bytes)
    requires HasDot(name)
    ensures |r| < |name|
  {
    name[DotPos(name) + 1..]
  }

  /** The segments of a path. */
  function Segments(name: bytes): (s: seq<bytes>)
    ensures s != [] && s[0] == Head(name)
    ensures |s| > 1 <==> HasDot(name)
    decreases |name|
  {
    if HasDot(name) then [Head(name)] + Segments(Tail(name)) else [Head(name)]
  }

  function AsObject(v: Option<Value>): Option<Members> {
    if v.Some? && v.value.Object? then Some(v.value.members) else None
  }

  /** `json_object_getn_value`, also for a NULL object. */
  function GetIn(obj: Option<Members>, name: bytes): Option<Value> {
    match obj case None => None case Some(members) => Get(members, name)
  }

  /** `json_object_dotget_value`. */
  function DotGet(obj: Option<Members>, name: bytes): Option<Value>
    decreases |name|
  {
    if !HasDot(name) then GetIn(obj, name)
    else DotGet(AsObject(GetIn(obj, Head(name))), Tail(name))
  }

  /** `json_object_dotset_value`; `owned` tells that the value already has a parent. */
  function DotSet(members: Members, name: bytes, value: Value, owned: bool): (Members, bool)
    decreases |name|
  {
    if !HasDot(name) then
      if owned then (members, false) else (Set(members, name, value), true)
    else match Get(members, Head(name))
      case Some(existing) =>
        if !existing.Object? then (members, false)
        else
          var (nested, ok) := DotSet(existing.members, Tail(name), value, owned);
          (Set(members, Head(name), Object(nested)), ok)
      case None =>
        var (nested, ok) := DotSet([], Tail(name), value, owned);
        if !ok then (members, false)
        else match Add(members, Head(name), Object(nested))
          case Some(extended) => (extended, true)
          case None => (members, false)
  }

  /** `json_object_dotremove_internal`. */
  function DotRemove(members: Members, name: bytes): (Members, bool)
    decreases |name|
  {
    if !HasDot(name) then
      match Remove(members, name) case Some(fewer) => (fewer, true) case None => (members, false)
    else match Get(members, Head(name))
      case Some(existing) =>
        if !existing.Object? then (members, false)
        else
          var (nested, ok) := DotRemove(existing.members, Tail(name));
          (Set(members, Head(name), Object(nested)), ok)
      case None => (members, false)
  }

  lemma NoDotIsHead(name: bytes)
    requires !HasDot(name)
    ensures Head(name) == name && Segments(name) == [name]
  {
  }

  /** The members of a well-named object at a name that holds an object are well named. */
  lemma NestedWellNamed(members: Members, name: bytes)
    requires WellNamed(Object(members)) && AsObject(Get(members, name)).Some?
    ensures WellNamed(Object(AsObject(Get(members, name)).value))
  {
    var ix := Find(members, name);
    assert WellNamed(members[ix].value);
  }

  /** Neither path leads through the other. */
  predicate Unrelated(p: bytes, q: bytes) {
    !(Segments(p) <= Segments(q)) && !(Segments(q) <= Segments(p))
  }

  lemma UnrelatedStep(p: bytes, q: bytes)
    requires Unrelated(p, q) && Head(p) == Head(q)
    ensures HasDot(p) && HasDot(q) && Unrelated(Tail(p), Tail(q))
  {
    PrefixStep(p, q);
    PrefixStep(q, p);
  }

  /** One path is a segment prefix of another with the same head when it ends there or its rest is a prefix of
      the other's rest. */
  lemma PrefixStep(p: bytes, q: bytes)
    requires Head(p) == Head(q)
    ensures (!HasDot(p) || (HasDot(q) && Segments(Tail(p)) <= Segments(Tail(q)))) ==> Segments(p) <= Segments(q)
  {
    if !HasDot(p) {
      assert Segments(p) == Segments(q)[..1];
    } else if HasDot(q) {
      var a, b := Segments(Tail(p)), Segments(Tail(q));
      if a <= b {
        assert ([Head(p)] + b)[..|a| + 1] == [Head(p)] + a;
      }
    }
  }

  lemma HeadHasNoDot(name: bytes)
    ensures !HasDot(Head(name))
    ensures HasDot(name) ==> name == Join(Head(name), Tail(name))
  {
    FirstDot(name);
    assert forall k :: 0 <= k < |Head(name)| ==> Head(name)[k] != DOT;
  }

  lemma {:induction false} FirstDot(name: bytes)
    ensures forall k :: 0 <= k < DotPos(name) ==> name[k] != DOT
    decreases |name|
  {
    if name != [] && name[0] != DOT {
      FirstDot(name[1..]);
      assert forall k :: 0 < k <= DotPos(name[1..]) && k < |name| ==> name[k] == name[1..][k - 1];
    }
  }

  /** `p` followed by a dot and `r`. */
  function Join(p: bytes, r: bytes): bytes {
    p + ([DOT] + r)
  }

  /** The segments spell the path. */
  function Spell(segments: seq<bytes>): bytes
    requires segments != []
  {
    if |segments| == 1 then segments[0] else Join(segments[0], Spell(segments[1..]))
  }

  lemma {:induction false} SegmentsSpellPath(name: bytes)
    ensures Spell(Segments(name)) == name
    ensures forall i :: 0 <= i < |Segments(name)| ==> !HasDot(Segments(name)[i])
    decreases |name|
  {
    HeadHasNoDot(name);
    if HasDot(name) {
      SegmentsSpellPath(Tail(name));
      assert Segments(name)[1..] == Segments(Tail(name));
    } else {
      NoDotIsHead(name);
    }
  }

  lemma {:induction false} DotPosPrefix(p: bytes, r: bytes)
    ensures DotPos(Join(p, r)) == DotPos(p)
    decreases |p|
  {
    if p == [] {
      assert Join(p, r) == [DOT] + r;
    } else if p[0] != DOT {
      assert Join(p, r)[1..] == Join(p[1..], r);
      DotPosPrefix(p[1..], r);
    }
  }

  lemma JoinStep(p: bytes, r: bytes)
    ensures HasDot(Join(p, r)) && Head(Join(p, r)) == Head(p)
    ensures Tail(Join(p, r)) == if HasDot(p) then Join(Tail(p), r) else r
  {
    DotPosPrefix(p, r);
    var d := DotPos(p);
    assert Join(p, r)[..d] == p[..d];
    if d < |p| {
      assert Join(p, r)[d + 1..] == p[d + 1..] + ([DOT] + r);
    } else {
      assert Join(p, r)[d] == DOT && Join(p, r)[d + 1..] == r;
    }
  }

  /** Looking up an extended path looks up the extension in the object that the path leads to. */
  lemma {:induction false} JoinLooksInside(obj: Option<Members>, p: bytes, r: bytes)
    ensures DotGet(obj, Join(p, r)) == DotGet(AsObject(DotGet(obj, p)), r)
    decreases |p|
  {
    JoinStep(p, r);
    if HasDot(p) {
      JoinLooksInside(AsObject(GetIn(obj, Head(p))), Tail(p), r);
    } else {
      NoDotIsHead(p);
    }
  }

  // ----- dotset -----

  /** A successful dotset makes dotget of that path return the value. */
  lemma {:induction false} SetThenGet(members: Members, name: bytes, value: Value, owned: bool)
    requires WellNamed(Object(members)) && DotSet(members, name, value, owned).1
    ensures DotGet(Some(DotSet(members, name, value, owned).0), name) == Some(value)
    decreases |name|
  {
    if !HasDot(name) {
      SetLaw(members, name, value, name);
    } else {
      var head := Head(name);
      match Get(members, head)
      case Some(existing) =>
        NestedWellNamed(members, head);
        SetThenGet(existing.members, Tail(name), value, owned);
        SetLaw(members, head, Object(DotSet(existing.members, Tail(name), value, owned).0), head);
      case None =>
        SetThenGet([], Tail(name), value, owned);
        AddLaw(members, head, Object(DotSet([], Tail(name), value, owned).0), head);
    }
  }

  /** ... and leaves every unrelated path as it was. */
  lemma {:induction false} SetFrame(members: Members, name: bytes, value: Value, owned: bool, q: bytes)
    requires WellNamed(Object(members)) && Unrelated(name, q)
    ensures DotGet(Some(DotSet(members, name, value, owned).0), q) == DotGet(Some(members), q)
    decreases |name|
  {
    var head := Head(name);
    var after := DotSet(members, name, value, owned).0;
    if head == Head(q) {
      UnrelatedStep(name, q);
      match Get(members, head)
      case Some(existing) =>
        if existing.Object? {
          NestedWellNamed(members, head);
          SetFrame(existing.members, Tail(name), value, owned, Tail(q));
          SetLaw(members, head, Object(DotSet(existing.members, Tail(name), value, owned).0), head);
        }
      case None =>
        SetFrame([], Tail(name), value, owned, Tail(q));
        EmptyHasNothing(Tail(q));
        if after != members {
          AddLaw(members, head, Object(DotSet([], Tail(name), value, owned).0), head);
        }
    } else {
      SetKeepsOthers(members, name, value, owned, Head(q));
      if !HasDot(q) {
        NoDotIsHead(q);
      }
    }
  }

  lemma {:induction false} EmptyHasNothing(name: bytes)
    ensures DotGet(Some([]), name) == None && DotGet(None, name) == None
    decreases |name|
  {
    if HasDot(name) {
      EmptyHasNothing(Tail(name));
    }
  }

  lemma SetKeepsOthers(members: Members, name: bytes, value: Value, owned: bool, k: bytes)
    requires WellNamed(Object(members)) && k != Head(name)
    ensures Get(DotSet(members, name, value, owned).0, k) == Get(members, k)
  {
    var head := Head(name);
    if !HasDot(name) {
      NoDotIsHead(name);
      SetLaw(members, name, value, k);
    } else {
      match Get(members, head)
      case Some(existing) =>
        if existing.Object? {
          SetLaw(members, head, Object(DotSet(existing.members, Tail(name), value, owned).0), k);
        }
      case None =>
        AddLaw(members, head, Object(DotSet([], Tail(name), value, owned).0), k);
    }
  }

  /** A failed dotset changes nothing. */
  lemma {:induction false} FailedSetChangesNothing(members: Members, name: bytes, value: Value, owned: bool)
    requires !DotSet(members, name, value, owned).1
    ensures DotSet(members, name, value, owned).0 == members
    decreases |name|
  {
    if HasDot(name) {
      var ix := Find(members, Head(name));
      if ix < |members| && members[ix].value.Object? {
        FailedSetChangesNothing(members[ix].value.members, Tail(name), value, owned);
        assert members[ix := Entry(Head(name), members[ix].value)] == members;
      }
    }
  }

  /** A proper prefix of the path leads to something other than an object. */
  ghost predicate Blocked(members: Members, name: bytes) {
    exists q: bytes, r: bytes :: name == Join(q, r) && LeadsToNonObject(members, q)
  }

  predicate LeadsToNonObject(members: Members, q: bytes) {
    DotGet(Some(members), q).Some? && AsObject(DotGet(Some(members), q)).None?
  }

  /** Blocked, by the first segment: either it holds a non-object or the rest of the path is blocked inside. */
  ghost predicate BlockedByStep(members: Members, name: bytes) {
    HasDot(name) &&
    match Get(members, Head(name))
    case None => false
    case Some(existing) => !existing.Object? || Blocked(existing.members, Tail(name))
  }

  lemma BlockedDown(members: Members, name: bytes, q: bytes, r: bytes)
    requires name == Join(q, r) && LeadsToNonObject(members, q)
    ensures BlockedByStep(members, name)
  {
    hide Join, HasDot, Head, Tail, Get;
    JoinStep(q, r);
    if HasDot(q) {
      EmptyHasNothing(Tail(q));
      assert Get(members, Head(q)).Some?;
      var existing := Get(members, Head(q)).value;
      if existing.Object? {
        assert LeadsToNonObject(existing.members, Tail(q));
      }
    } else {
      NoDotIsHead(q);
    }
  }

  lemma BlockedUp(members: Members, name: bytes)
    requires BlockedByStep(members, name)
    ensures Blocked(members, name)
  {
    hide Join, HasDot, Head, Tail, Get;
    HeadHasNoDot(name);
    NoDotIsHead(Head(name));
    var existing := Get(members, Head(name)).value;
    if !existing.Object? {
      assert LeadsToNonObject(members, Head(name));
    } else {
      var q: bytes, r: bytes :| Tail(name) == Join(q, r) && LeadsToNonObject(existing.members, q);
      JoinLooksInside(Some(members), Head(name), q);
      JoinTwice(Head(name), q, r);
      assert LeadsToNonObject(members, Join(Head(name), q));
    }
  }

  lemma JoinTwice(a: bytes, b: bytes, c: bytes)
    ensures Join(Join(a, b), c) == Join(a, Join(b, c))
  {
  }

  lemma BlockedStep(members: Members, name: bytes)
    ensures Blocked(members, name) <==> BlockedByStep(members, name)
  {
    if Blocked(members, name) {
      var q: bytes, r: bytes :| name == Join(q, r) && LeadsToNonObject(members, q);
      BlockedDown(members, name, q, r);
    }
    if BlockedByStep(members, name) {
      BlockedUp(members, name);
    }
  }

  /** A dotset fails exactly when the value is owned already or a proper prefix of the path leads to something
      other than an object. */
  lemma {:induction false} SetFailsExactly(members: Members, name: bytes, value: Value, owned: bool)
    ensures DotSet(members, name, value, owned).1 <==> !owned && !Blocked(members, name)
    decreases |name|
  {
    BlockedStep(members, name);
    if HasDot(name) {
      match Get(members, Head(name))
      case Some(existing) =>
        if existing.Object? {
          SetFailsExactly(existing.members, Tail(name), value, owned);
        }
      case None =>
        SetFailsExactly([], Tail(name), value, owned);
        BlockedStep([], Tail(name));
    }
  }

  // ----- dotremove -----

  /** A dotremove succeeds exactly when the path leads to a value, and then makes it absent. */
  lemma {:induction false} RemoveThenGet(members: Members, name: bytes)
    requires WellNamed(Object(members))
    ensures DotRemove(members, name).1 <==> DotGet(Some(members), name).Some?
    ensures DotRemove(members, name).1 ==> DotGet(Some(DotRemove(members, name).0), name) == None
    decreases |name|
  {
    if !HasDot(name) {
      if Contains(members, name) {
        RemoveLaw(members, name, name);
      }
    } else {
      var head := Head(name);
      match Get(members, head)
      case Some(existing) =>
        EmptyHasNothing(Tail(name));
        if existing.Object? {
          NestedWellNamed(members, head);
          RemoveThenGet(existing.members, Tail(name));
          SetLaw(members, head, Object(DotRemove(existing.members, Tail(name)).0), head);
        }
      case None => EmptyHasNothing(Tail(name));
    }
  }

  /** ... and leaves every unrelated path as it was. */
  lemma {:induction false} RemoveFrame(members: Members, name: bytes, q: bytes)
    requires WellNamed(Object(members)) && Unrelated(name, q)
    ensures DotGet(Some(DotRemove(members, name).0), q) == DotGet(Some(members), q)
    decreases |name|
  {
    var head := Head(name);
    if head == Head(q) {
      UnrelatedStep(name, q);
      match Get(members, head)
      case Some(existing) =>
        if existing.Object? {
          NestedWellNamed(members, head);
          RemoveFrame(existing.members, Tail(name), Tail(q));
          SetLaw(members, head, Object(DotRemove(existing.members, Tail(name)).0), head);
        }
      case None =>
    } else {
      RemoveKeepsOthers(members, name, Head(q));
      if !HasDot(q) {
        NoDotIsHead(q);
      }
    }
  }

  lemma RemoveKeepsOthers(members: Members, name: bytes, k: bytes)
    requires WellNamed(Object(members)) && k != Head(name)
    ensures Get(DotRemove(members, name).0, k) == Get(members, k)
  {
    var head := Head(name);
    if !HasDot(name) {
      NoDotIsHead(name);
      if Contains(members, name) {
        RemoveLaw(members, name, k);
      }
    } else {
      match Get(members, head)
      case Some(existing) =>
        if existing.Object? {
          SetLaw(members, head, Object(DotRemove(existing.members, Tail(name)).0), k);
        }
      case None =>
    }
  }

  /** A failed dotremove changes nothing. */
  lemma {:induction false} FailedRemoveChangesNothing(members: Members, name: bytes)
    requires !DotRemove(members, name).1
    ensures DotRemove(members, name).0 == members
    decreases |name|
  {
    if HasDot(name) {
      var ix := Find(members, Head(name));
      if ix < |members| && members[ix].value.Object? {
        FailedRemoveChangesNothing(members[ix].value.members, Tail(name));
        assert members[ix := Entry(Head(name), members[ix].value)] == members;
      }
    }
  }

  // ----- Paths through the changed one -----

  /** Paths that extend a set path lead into the new value. */
  lemma SetThenGetInside(members: Members, name: bytes, value: Value, owned: bool, r: bytes)
    requires WellNamed(Object(members)) && DotSet(members, name, value, owned).1
    ensures DotGet(Some(DotSet(members, name, value, owned).0), Join(name, r)) == DotGet(AsObject(Some(value)), r)
  {
    SetThenGet(members, name, value, owned);
    JoinLooksInside(Some(DotSet(members, name, value, owned).0), name, r);
  }

  /** Paths that extend a removed path lead nowhere. */
  lemma RemoveThenGetInside(members: Members, name: bytes, r: bytes)
    requires WellNamed(Object(members)) && DotRemove(members, name).1
    ensures DotGet(Some(DotRemove(members, name).0), Join(name, r)) == None
  {
    RemoveThenGet(members, name);
    JoinLooksInside(Some(DotRemove(members, name).0), name, r);
    EmptyHasNothing(r);
  }

  /** Both updates keep the names of every nested object distinct. */
  lemma {:induction false} SetKeepsWellNamed(members: Members, name: bytes, value: Value, owned: bool)
    requires WellNamed(Object(members)) && WellNamed(value) && NulFree(name)
    ensures WellNamed(Object(DotSet(members, name, value, owned).0))
    decreases |name|
  {
    if !HasDot(name) {
      SetMemberWellNamed(members, name, value);
    } else {
      var head := Head(name);
      match Get(members, head)
      case Some(existing) =>
        if existing.Object? {
          NestedWellNamed(members, head);
          SetKeepsWellNamed(existing.members, Tail(name), value, owned);
          SetMemberWellNamed(members, head, Object(DotSet(existing.members, Tail(name), value, owned).0));
        }
      case None =>
        SetKeepsWellNamed([], Tail(name), value, owned);
        SetMemberWellNamed(members, head, Object(DotSet([], Tail(name), value, owned).0));
    }
  }

  lemma SetMemberWellNamed(members: Members, name: bytes, value: Value)
    requires WellNamed(Object(members)) && WellNamed(value) && NulFree(name)
    ensures WellNamed(Object(Set(members, name, value)))
    ensures !Contains(members, name) ==> Add(members, name, value) == Some(Set(members, name, value))
  {
    SetLaw(members, name, value, name);
  }

  lemma {:induction false} RemoveKeepsWellNamed(members: Members, name: bytes)
    requires WellNamed(Object(members)) && NulFree(name)
    ensures WellNamed(Object(DotRemove(members, name).0))
    decreases |name|
  {
    if !HasDot(name) {
      if Contains(members, name) {
        RemoveLaw(members, name, name);
      }
    } else {
      var head := Head(name);
      match Get(members, head)
      case Some(existing) =>
        if existing.Object? {
          NestedWellNamed(members, head);
          RemoveKeepsWellNamed(existing.members, Tail(name));
          SetMemberWellNamed(members, head, Object(DotRemove(existing.members, Tail(name)).0));
        }
      case None =>
    }
  }

  // ---------- the order of members ----------

  /** Index by index: a dotset keeps every member in its place and changes at most the one that the path enters, which
      comes last when it is new; inside that one it goes on with the rest of the path. */
  lemma DotSetInPlace(members: Members, name: bytes, value: Value, i: nat)
    requires Distinct(members) && DotSet(members, name, value, false).1
    ensures var r := DotSet(members, name, value, false).0;
            var inside := if HasDot(name)
                          then Object(DotSet(Within(members, Head(name)), Tail(name), value, false).0) else value;
            && |r| == |members| + (if Contains(members, Head(name)) then 0 else 1)
            && (i < |members| ==>
                  r[i] == if members[i].name == Head(name) then Entry(Head(name), inside) else members[i])
            && (i == |members| < |r| ==> r[i] == Entry(Head(name), inside))
  {
    hide DotPos, Contains;
    if !HasDot(name) {
      NoDotIsHead(name);
    }
    FoundInPlace(members, Head(name), i);
  }

  /** The members inside the one of that name; none when there is no object. */
  function Within(members: Members, name: bytes): Members {
    match AsObject(Get(members, name)) case Some(nested) => nested case None => []
  }

  lemma FoundInPlace(members: Members, name: bytes, i: nat)
    requires Distinct(members)
    ensures i < |members| && members[i].name == name ==> Find(members, name) == i && Contains(members, name)
    ensures Contains(members, name) <==> exists k :: 0 <= k < |members| && members[k].name == name
  {
    if i < |members| && members[i].name == name {
      FindUnique(members, i);
    }
  }

  /** Index by index: a dotremove through an object keeps every member in its place and changes at most the one that the
      path enters; at its end the last member moves into the hole. */
  lemma DotRemoveInPlace(members: Members, name: bytes, i: nat)
    requires Distinct(members) && DotRemove(members, name).1
    ensures var r := DotRemove(members, name).0;
            if !HasDot(name) then
              && |r| == |members| - 1
              && (i < |r| ==> r[i] == if members[i].name == name then members[|members| - 1] else members[i])
            else
              && |r| == |members|
              && (i < |members| ==>
                    r[i] == if members[i].name != Head(name) then members[i]
                            else Entry(Head(name), Object(DotRemove(Within(members, Head(name)), Tail(name)).0)))
  {
    hide DotPos, Contains;
    if !HasDot(name) {
      NoDotIsHead(name);
    }
    FoundInPlace(members, Head(name), i);
  }
}
