/**
 The field-level operation log: what one commit logs, how logged operations are replayed on a base object, and
 how two branches that touched disjoint keys are merged by replaying both logs.
 */
module FieldMerge {
  import opened Basics
  import opened Knowledge
  import opened VersionCodec

  // ---------------------------------------------------------------------
  // Equality as the diff sees it
  // ---------------------------------------------------------------------

  // Two values are equal to the host language exactly when these agree: True equals 1, and a read-only
  // mapping equals the mapping it wraps; a tuple never equals a list.
  function Canon(v: Value): Value
    decreases v
  {
    match v
    case Bool(b) => Int(if b then 1 else 0)
    case Dict(entries) => Dict(map k | k in entries :: Canon(entries[k]))
    case Proxy(entries) => Dict(map k | k in entries :: Canon(entries[k]))
    case List(items) => List(seq(|items|, i requires 0 <= i < |items| => Canon(items[i])))
    case Tuple(items) => Tuple(seq(|items|, i requires 0 <= i < |items| => Canon(items[i])))
    case _ => v
  }

  predicate PyEq(v: Value, w: Value) {
    Canon(v) == Canon(w)
  }

  // None for an absent key, which is not the same as a key that holds Null.
  function Lookup(m: Structure, key: string): Option<Value> {
    if key in m then Some(m[key]) else None
  }

  predicate Alike(v: Option<Value>, w: Option<Value>) {
    match (v, w)
    case (Some(x), Some(y)) => PyEq(x, y)
    case (None, None) => true
    case _ => false
  }

  predicate StructuresEqual(s: Structure, t: Structure) {
    s.Keys == t.Keys && forall k :: k in s ==> PyEq(s[k], t[k])
  }

  /**
   Host equality, shape by shape: truth values are the numbers 0 and 1, any mappings compare by their entries, a
   tuple is never a list.
   */
  lemma HostEquality(v: Value, w: Value)
    ensures v == w ==> PyEq(v, w)
    ensures v.Null? || v.Str? ==> (PyEq(v, w) <==> v == w)
    ensures v.Int? ==> (PyEq(v, w) <==> w == v || (w.Bool? && v.n == (if w.b then 1 else 0)))
    ensures v.Bool? ==> (PyEq(v, w) <==> w == v || (w.Int? && w.n == (if v.b then 1 else 0)))
    ensures v.Dict? || v.Proxy? ==>
              (PyEq(v, w) <==> && (w.Dict? || w.Proxy?) && v.entries.Keys == w.entries.Keys
                               && forall k :: k in v.entries ==> PyEq(v.entries[k], w.entries[k]))
    ensures v.List? ==> (PyEq(v, w) <==> w.List? && PyEqAll(v.items, w.items))
    ensures v.Tuple? ==> (PyEq(v, w) <==> w.Tuple? && PyEqAll(v.items, w.items))
  {
    if (v.Dict? || v.Proxy?) && (w.Dict? || w.Proxy?) { MappingsEqual(v, w); }
    if (v.List? && w.List?) || (v.Tuple? && w.Tuple?) { ItemsEqual(v, w); }
  }

  predicate PyEqAll(a: seq<Value>, b: seq<Value>) {
    |a| == |b| && forall i :: 0 <= i < |a| ==> PyEq(a[i], b[i])
  }

  lemma MappingsEqual(v: Value, w: Value)
    requires (v.Dict? || v.Proxy?) && (w.Dict? || w.Proxy?)
    ensures PyEq(v, w) <==> v.entries.Keys == w.entries.Keys && forall k :: k in v.entries ==>
              PyEq(v.entries[k], w.entries[k])
  {
    CanonEntries(v);
    CanonEntries(w);
    SameEntriesIff(Canon(v).entries, Canon(w).entries);
  }

  lemma CanonEntries(v: Value)
    requires v.Dict? || v.Proxy?
    ensures var r := Canon(v);
            r.Dict? && r.entries.Keys == v.entries.Keys
            && forall k :: k in v.entries ==> r.entries[k] == Canon(v.entries[k])
  {
  }

  lemma ItemsEqual(v: Value, w: Value)
    requires (v.List? && w.List?) || (v.Tuple? && w.Tuple?)
    ensures PyEq(v, w) <==> PyEqAll(v.items, w.items)
  {
    var a, b := Canon(v).items, Canon(w).items;
    assert forall i :: 0 <= i < |a| ==> a[i] == Canon(v.items[i]);
    assert forall i :: 0 <= i < |b| ==> b[i] == Canon(w.items[i]);
    if PyEqAll(v.items, w.items) {
      forall i | 0 <= i < |a| ensures a[i] == b[i] { assert PyEq(v.items[i], w.items[i]); }
      assert a == b;
    }
    if a == b {
      forall i | 0 <= i < |v.items| ensures PyEq(v.items[i], w.items[i]) { assert a[i] == b[i]; }
    }
  }

  // ---------------------------------------------------------------------
  // The field-granular diff
  // ---------------------------------------------------------------------

  datatype FieldOp =
    | SetField(objectId: string, key: string, value: Value)
    | DeleteField(objectId: string, key: string)
    | AddedObject(objectId: string)
    | AddedRelation(objectId: string)
    | RemovedObject(objectId: string)
    | RemovedRelation(objectId: string)

  // Some fixed order in which sets are walked.
  type Walk = set<string> -> seq<string>

  ghost predicate WalkLaw(sorted: Walk) {
    forall s :: Lists(sorted(s), s)
  }

  ghost predicate Lists(xs: seq<string>, s: set<string>) {
    (forall x :: x in xs <==> x in s) && NoRepeats(xs)
  }

  ghost function SomeOrder(s: set<string>): (xs: seq<string>)
    ensures Lists(xs, s)
    decreases s
  {
    if s == {} then []
    else
      var x := AnyOf(s);
      var rest := SomeOrder(s - {x});
      assert Lists([x] + rest, s) by { PrependKeepsListing(x, rest, s); }
      [x] + rest
  }

  lemma PrependKeepsListing(x: string, rest: seq<string>, s: set<string>)
    requires x in s && Lists(rest, s - {x})
    ensures Lists([x] + rest, s)
  {
    var xs := [x] + rest;
    forall i, j | 0 <= i < j < |xs| ensures xs[i] != xs[j] {
      assert xs[j] == rest[j - 1] && rest[j - 1] in rest;
      if i > 0 { assert xs[i] == rest[i - 1]; }
    }
  }

  /** The law can be met. */
  lemma SomeWalkIsLawful()
    ensures WalkLaw((s: set<string>) => SomeOrder(s))
  {
    ghost var walk: Walk := (s: set<string>) => SomeOrder(s);
    forall s: set<string> ensures Lists(walk(s), s) {}
  }

  function Fields(item: Item): Structure {
    match item case Object(obj) => obj.structure case Relation(rel) => rel.structure
  }

  function KeyOp(id: string, key: string, s: Structure, t: Structure): seq<FieldOp> {
    if key !in t then [DeleteField(id, key)]
    else if key !in s || !PyEq(s[key], t[key]) then [SetField(id, key, t[key])]
    else []
  }

  function KeyOps(id: string, keys: seq<string>, s: Structure, t: Structure): seq<FieldOp>
    decreases |keys|
  {
    if keys == [] then [] else KeyOp(id, keys[0], s, t) + KeyOps(id, keys[1..], s, t)
  }

  // Content changes of one identity that both sides have; a relation is replaced as a whole.
  function ItemOps(sorted: Walk, id: string, x: Item, y: Item): seq<FieldOp> {
    if StructuresEqual(Fields(x), Fields(y)) then []
    else if x.Relation? || y.Relation? then [RemovedRelation(id), AddedRelation(id)]
    else KeyOps(id, sorted(Fields(x).Keys + Fields(y).Keys), Fields(x), Fields(y))
  }

  function RemoveOps(ids: seq<string>, s: KS): seq<FieldOp>
    requires forall id :: id in ids ==> id in s
    decreases |ids|
  {
    if ids == [] then []
    else [if s[ids[0]].Relation? then RemovedRelation(ids[0]) else RemovedObject(ids[0])] + RemoveOps(ids[1..], s)
  }

  function AddOps(ids: seq<string>, t: KS): seq<FieldOp>
    requires forall id :: id in ids ==> id in t
    decreases |ids|
  {
    if ids == [] then []
    else [if t[ids[0]].Relation? then AddedRelation(ids[0]) else AddedObject(ids[0])] + AddOps(ids[1..], t)
  }

  function CommonOps(sorted: Walk, ids: seq<string>, s: KS, t: KS): seq<FieldOp>
    requires forall id :: id in ids ==> id in s && id in t
    decreases |ids|
  {
    if ids == [] then [] else ItemOps(sorted, ids[0], s[ids[0]], t[ids[0]]) + CommonOps(sorted, ids[1..], s, t)
  }

  lemma WalksList(sorted: Walk, s: KS, t: KS)
    requires WalkLaw(sorted)
    ensures forall id :: id in sorted(s.Keys - t.Keys) ==> id in s
    ensures forall id :: id in sorted(t.Keys - s.Keys) ==> id in t
    ensures forall id :: id in sorted(s.Keys * t.Keys) ==> id in s && id in t
  {
    assert Lists(sorted(s.Keys - t.Keys), s.Keys - t.Keys);
    assert Lists(sorted(t.Keys - s.Keys), t.Keys - s.Keys);
    assert Lists(sorted(s.Keys * t.Keys), s.Keys * t.Keys);
  }

  ghost function FieldDiff(sorted: Walk, s: KS, t: KS): seq<FieldOp>
    requires WalkLaw(sorted)
  {
    WalksList(sorted, s, t);
    RemoveOps(sorted(s.Keys - t.Keys), s) + AddOps(sorted(t.Keys - s.Keys), t) +
      CommonOps(sorted, sorted(s.Keys * t.Keys), s, t)
  }

  method ComputeFieldDiff(sorted: Walk, s: KS, t: KS) returns (ops: seq<FieldOp>)
    requires WalkLaw(sorted)
    ensures ops == FieldDiff(sorted, s, t)
  {
    WalksList(sorted, s, t);
    var removed := ListRemoved(sorted(s.Keys - t.Keys), s, []);
    assert removed == RemoveOps(sorted(s.Keys - t.Keys), s);
    var replaced := ListAdded(sorted(t.Keys - s.Keys), t, removed);
    ops := ListChanged(sorted, sorted(s.Keys * t.Keys), s, t, replaced);
  }

  method ListRemoved(ids: seq<string>, s: KS, before: seq<FieldOp>) returns (ops: seq<FieldOp>)
    requires forall id :: id in ids ==> id in s
    ensures ops == before + RemoveOps(ids, s)
  {
    ops := before;
    for i := 0 to |ids|
      invariant ops + RemoveOps(ids[i..], s) == before + RemoveOps(ids, s)
    {
      assert ids[i..][1..] == ids[i + 1..];
      var op := if s[ids[i]].Relation? then RemovedRelation(ids[i]) else RemovedObject(ids[i]);
      Reassociate(ops, [op], RemoveOps(ids[i + 1..], s));
      ops := ops + [op];
    }
  }

  method ListAdded(ids: seq<string>, t: KS, before: seq<FieldOp>) returns (ops: seq<FieldOp>)
    requires forall id :: id in ids ==> id in t
    ensures ops == before + AddOps(ids, t)
  {
    ops := before;
    for i := 0 to |ids|
      invariant ops + AddOps(ids[i..], t) == before + AddOps(ids, t)
    {
      assert ids[i..][1..] == ids[i + 1..];
      var op := if t[ids[i]].Relation? then AddedRelation(ids[i]) else AddedObject(ids[i]);
      Reassociate(ops, [op], AddOps(ids[i + 1..], t));
      ops := ops + [op];
    }
  }

  method ListChanged(sorted: Walk, ids: seq<string>, s: KS, t: KS, before: seq<FieldOp>) returns (ops: seq<FieldOp>)
    requires forall id :: id in ids ==> id in s && id in t
    ensures ops == before + CommonOps(sorted, ids, s, t)
  {
    ops := before;
    for i := 0 to |ids|
      invariant ops + CommonOps(sorted, ids[i..], s, t) == before + CommonOps(sorted, ids, s, t)
    {
      assert ids[i..][1..] == ids[i + 1..];
      var here := ComputeItemOps(sorted, ids[i], s[ids[i]], t[ids[i]]);
      Reassociate(ops, here, CommonOps(sorted, ids[i + 1..], s, t));
      ops := ops + here;
    }
  }

  method ComputeItemOps(sorted: Walk, id: string, x: Item, y: Item) returns (ops: seq<FieldOp>)
    ensures ops == ItemOps(sorted, id, x, y)
  {
    if StructuresEqual(Fields(x), Fields(y)) { return []; }
    if x.Relation? || y.Relation? { return [RemovedRelation(id), AddedRelation(id)]; }
    ops := [];
    var source, target := Fields(x), Fields(y);
    var keys := sorted(source.Keys + target.Keys);
    for i := 0 to |keys|
      invariant ops + KeyOps(id, keys[i..], source, target) == KeyOps(id, keys, source, target)
    {
      assert keys[i..][1..] == keys[i + 1..];
      var here := [];
      if keys[i] !in target {
        here := [DeleteField(id, keys[i])];
      } else if keys[i] !in source || !PyEq(source[keys[i]], target[keys[i]]) {
        here := [SetField(id, keys[i], target[keys[i]])];
      }
      Reassociate(ops, here, KeyOps(id, keys[i + 1..], source, target));
      ops := ops + here;
    }
  }

  // The operations logged for one object.
  function OpsOf(ops: seq<FieldOp>, id: string): seq<FieldOp>
    decreases |ops|
  {
    if ops == [] then [] else (if ops[0].objectId == id then [ops[0]] else []) + OpsOf(ops[1..], id)
  }

  lemma {:induction false} OpsOfConcat(a: seq<FieldOp>, b: seq<FieldOp>, id: string)
    ensures OpsOf(a + b, id) == OpsOf(a, id) + OpsOf(b, id)
    decreases |a|
  {
    if a == [] {
      assert a + b == b;
    } else {
      OpsOfConcat(a[1..], b, id);
      assert (a + b)[1..] == a[1..] + b;
      Reassociate(if a[0].objectId == id then [a[0]] else [], OpsOf(a[1..], id), OpsOf(b, id));
    }
  }

  predicate AllOf(ops: seq<FieldOp>, id: string) {
    forall i :: 0 <= i < |ops| ==> ops[i].objectId == id
  }

  predicate NoneOf(ops: seq<FieldOp>, id: string) {
    forall i :: 0 <= i < |ops| ==> ops[i].objectId != id
  }

  lemma {:induction false} OpsOfAllOrNone(ops: seq<FieldOp>, id: string)
    ensures AllOf(ops, id) ==> OpsOf(ops, id) == ops
    ensures NoneOf(ops, id) ==> OpsOf(ops, id) == []
    decreases |ops|
  {
    if ops != [] {
      assert forall i :: 0 <= i < |ops| - 1 ==> ops[1..][i] == ops[i + 1];
      OpsOfAllOrNone(ops[1..], id);
    }
  }

  lemma {:induction false} KeyOpsNameTheirObject(id: string, keys: seq<string>, s: Structure, t: Structure)
    ensures AllOf(KeyOps(id, keys, s, t), id)
    decreases |keys|
  {
    if keys != [] { KeyOpsNameTheirObject(id, keys[1..], s, t); }
  }

  lemma {:induction false} RemoveOpsSpare(ids: seq<string>, s: KS, id: string)
    requires (forall x :: x in ids ==> x in s) && id !in ids
    ensures NoneOf(RemoveOps(ids, s), id)
    decreases |ids|
  {
    if ids != [] { RemoveOpsSpare(ids[1..], s, id); }
  }

  lemma {:induction false} AddOpsSpare(ids: seq<string>, t: KS, id: string)
    requires (forall x :: x in ids ==> x in t) && id !in ids
    ensures NoneOf(AddOps(ids, t), id)
    decreases |ids|
  {
    if ids != [] { AddOpsSpare(ids[1..], t, id); }
  }

  lemma ItemOpsOf(sorted: Walk, id: string, x: Item, y: Item, other: string)
    ensures OpsOf(ItemOps(sorted, id, x, y), other) == if other == id then ItemOps(sorted, id, x, y) else []
  {
    KeyOpsNameTheirObject(id, sorted(Fields(x).Keys + Fields(y).Keys), Fields(x), Fields(y));
    assert AllOf(ItemOps(sorted, id, x, y), id);
    OpsOfAllOrNone(ItemOps(sorted, id, x, y), other);
  }

  lemma {:induction false} CommonOpsOf(sorted: Walk, ids: seq<string>, s: KS, t: KS, id: string)
    requires (forall x :: x in ids ==> x in s && x in t) && NoRepeats(ids)
    ensures OpsOf(CommonOps(sorted, ids, s, t), id) == if id in ids then ItemOps(sorted, id, s[id], t[id]) else []
    decreases |ids|
  {
    if ids != [] {
      var head := ids[0];
      assert forall i :: 0 <= i < |ids| - 1 ==> ids[1..][i] == ids[i + 1];
      CommonOpsOf(sorted, ids[1..], s, t, id);
      var here, rest := ItemOps(sorted, head, s[head], t[head]), CommonOps(sorted, ids[1..], s, t);
      ItemOpsOf(sorted, head, s[head], t[head], id);
      OpsOfConcat(here, rest, id);
      if id == head {
        assert id !in ids[1..] && here + [] == here;
      } else {
        assert id in ids <==> id in ids[1..];
        assert [] + OpsOf(rest, id) == OpsOf(rest, id);
      }
    }
  }

  /** For an identity present on both sides, a commit logs exactly that identity's own operations, once. */
  lemma DiffOfOneItem(sorted: Walk, s: KS, t: KS, id: string)
    requires WalkLaw(sorted) && id in s && id in t
    ensures OpsOf(FieldDiff(sorted, s, t), id) == ItemOps(sorted, id, s[id], t[id])
  {
    var removed, added, common := sorted(s.Keys - t.Keys), sorted(t.Keys - s.Keys), sorted(s.Keys * t.Keys);
    assert Lists(removed, s.Keys - t.Keys) && Lists(added, t.Keys - s.Keys) && Lists(common, s.Keys * t.Keys);
    RemoveOpsSpare(removed, s, id);
    AddOpsSpare(added, t, id);
    OpsOfAllOrNone(RemoveOps(removed, s), id);
    OpsOfAllOrNone(AddOps(added, t), id);
    CommonOpsOf(sorted, common, s, t, id);
    OpsOfConcat(RemoveOps(removed, s), AddOps(added, t), id);
    OpsOfConcat(RemoveOps(removed, s) + AddOps(added, t), CommonOps(sorted, common, s, t), id);
  }

  // ---------------------------------------------------------------------
  // Replaying field operations
  // ---------------------------------------------------------------------

  function ApplyField(m: Structure, op: FieldOp): Structure {
    match op
    case SetField(_, key, value) => m[key := value]
    case DeleteField(_, key) => m - {key}
    case _ => m
  }

  function Replay(m: Structure, ops: seq<FieldOp>): Structure
    decreases |ops|
  {
    if ops == [] then m else Replay(ApplyField(m, ops[0]), ops[1..])
  }

  predicate IsFieldOp(op: FieldOp) {
    op.SetField? || op.DeleteField?
  }

  predicate Touches(ops: seq<FieldOp>, key: string) {
    exists i :: 0 <= i < |ops| && IsFieldOp(ops[i]) && ops[i].key == key
  }

  lemma {:induction false} ReplayConcat(m: Structure, a: seq<FieldOp>, b: seq<FieldOp>)
    ensures Replay(m, a + b) == Replay(Replay(m, a), b)
    decreases |a|
  {
    if a == [] {
      assert a + b == b;
    } else {
      assert (a + b)[1..] == a[1..] + b;
      ReplayConcat(ApplyField(m, a[0]), a[1..], b);
    }
  }

  // What a replay leaves at one key depends on that key alone.
  lemma {:induction false} ReplayIsLocal(m: Structure, n: Structure, ops: seq<FieldOp>, key: string)
    ensures !Touches(ops, key) ==> Lookup(Replay(m, ops), key) == Lookup(m, key)
    ensures Touches(ops, key) || Lookup(m, key) == Lookup(n, key) ==>
              Lookup(Replay(m, ops), key) == Lookup(Replay(n, ops), key)
    decreases |ops|
  {
    if ops != [] {
      var rest := ops[1..];
      ReplayIsLocal(ApplyField(m, ops[0]), ApplyField(n, ops[0]), rest, key);
      if Touches(ops, key) && !(IsFieldOp(ops[0]) && ops[0].key == key) {
        var i :| 0 <= i < |ops| && IsFieldOp(ops[i]) && ops[i].key == key;
        assert rest[i - 1] == ops[i];
      }
      if Touches(rest, key) {
        var i :| 0 <= i < |rest| && IsFieldOp(rest[i]) && rest[i].key == key;
        assert ops[i + 1] == rest[i];
      }
    }
  }

  // One commit's operations, replayed on any structure: changed keys get the target's value, all others stay.
  lemma {:induction false} KeyOpsAt(id: string, keys: seq<string>, s: Structure, t: Structure, m: Structure,
                                    key: string)
    requires NoRepeats(keys)
    requires forall k :: k in keys ==> k in s || k in t
    ensures Lookup(Replay(m, KeyOps(id, keys, s, t)), key) ==
            if key in keys && !Alike(Lookup(s, key), Lookup(t, key)) then Lookup(t, key) else Lookup(m, key)
    decreases |keys|
  {
    if keys != [] {
      var head, rest := KeyOp(id, keys[0], s, t), KeyOps(id, keys[1..], s, t);
      assert forall i :: 0 <= i < |keys| - 1 ==> keys[1..][i] == keys[i + 1];
      assert keys[0] in keys;
      KeyOpsAt(id, keys[1..], s, t, Replay(m, head), key);
      ReplayConcat(m, head, rest);
      assert head != [] ==> head[1..] == [] && Replay(m, head) == ApplyField(m, head[0]);
      assert key == keys[0] ==> key !in keys[1..];
    }
  }

  lemma ItemOpsAt(sorted: Walk, id: string, x: Item, y: Item, m: Structure, key: string)
    requires WalkLaw(sorted) && x.Object? && y.Object?
    ensures Lookup(Replay(m, ItemOps(sorted, id, x, y)), key) ==
            if !Alike(Lookup(Fields(x), key), Lookup(Fields(y), key)) then Lookup(Fields(y), key) else Lookup(m, key)
  {
    var keys := Fields(x).Keys + Fields(y).Keys;
    assert Lists(sorted(keys), keys);
    if !StructuresEqual(Fields(x), Fields(y)) {
      KeyOpsAt(id, sorted(keys), Fields(x), Fields(y), m, key);
    }
  }

  lemma {:induction false} RemoveOpsOf(ids: seq<string>, s: KS, id: string)
    requires (forall x :: x in ids ==> x in s) && NoRepeats(ids)
    ensures OpsOf(RemoveOps(ids, s), id) ==
            if id in ids then [if s[id].Relation? then RemovedRelation(id) else RemovedObject(id)] else []
    decreases |ids|
  {
    if ids != [] {
      assert forall i :: 0 <= i < |ids| - 1 ==> ids[1..][i] == ids[i + 1];
      RemoveOpsOf(ids[1..], s, id);
      assert id == ids[0] ==> id !in ids[1..];
    }
  }

  lemma {:induction false} AddOpsOf(ids: seq<string>, t: KS, id: string)
    requires (forall x :: x in ids ==> x in t) && NoRepeats(ids)
    ensures OpsOf(AddOps(ids, t), id) ==
            if id in ids then [if t[id].Relation? then AddedRelation(id) else AddedObject(id)] else []
    decreases |ids|
  {
    if ids != [] {
      assert forall i :: 0 <= i < |ids| - 1 ==> ids[1..][i] == ids[i + 1];
      AddOpsOf(ids[1..], t, id);
      assert id == ids[0] ==> id !in ids[1..];
    }
  }

  lemma DiffByPresence(sorted: Walk, s: KS, t: KS, id: string)
    requires WalkLaw(sorted)
    ensures OpsOf(FieldDiff(sorted, s, t), id) ==
            if id in s && id in t then ItemOps(sorted, id, s[id], t[id])
            else if id in s then [if s[id].Relation? then RemovedRelation(id) else RemovedObject(id)]
            else if id in t then [if t[id].Relation? then AddedRelation(id) else AddedObject(id)]
            else []
  {
    var removed, added, common := sorted(s.Keys - t.Keys), sorted(t.Keys - s.Keys), sorted(s.Keys * t.Keys);
    assert Lists(removed, s.Keys - t.Keys) && Lists(added, t.Keys - s.Keys) && Lists(common, s.Keys * t.Keys);
    RemoveOpsOf(removed, s, id);
    AddOpsOf(added, t, id);
    CommonOpsOf(sorted, common, s, t, id);
    ThreeLoops(sorted, s, t, id);
  }

  lemma ThreeLoops(sorted: Walk, s: KS, t: KS, id: string)
    requires WalkLaw(sorted)
    ensures var removed, added, common := sorted(s.Keys - t.Keys), sorted(t.Keys - s.Keys), sorted(s.Keys * t.Keys);
            && Lists(removed, s.Keys - t.Keys) && Lists(added, t.Keys - s.Keys) && Lists(common, s.Keys * t.Keys)
            && OpsOf(FieldDiff(sorted, s, t), id) ==
               OpsOf(RemoveOps(removed, s), id) + OpsOf(AddOps(added, t), id)
               + OpsOf(CommonOps(sorted, common, s, t), id)
  {
    var removed, added, common := sorted(s.Keys - t.Keys), sorted(t.Keys - s.Keys), sorted(s.Keys * t.Keys);
    OpsOfConcat(RemoveOps(removed, s), AddOps(added, t), id);
    OpsOfConcat(RemoveOps(removed, s) + AddOps(added, t), CommonOps(sorted, common, s, t), id);
  }

  /**
   What a commit logs for an identity, whichever states have it: a removal or an addition of its kind for one on a
   single side, nothing for equal structures, a remove and an add where a relation is involved, and only field
   operations between two plain objects.
   */
  lemma DiffOfIdentity(sorted: Walk, s: KS, t: KS, id: string)
    requires WalkLaw(sorted)
    ensures var ops := OpsOf(FieldDiff(sorted, s, t), id);
            && (id !in s && id !in t ==> ops == [])
            && (id in s && id !in t ==> ops == [if s[id].Relation? then RemovedRelation(id) else RemovedObject(id)])
            && (id !in s && id in t ==> ops == [if t[id].Relation? then AddedRelation(id) else AddedObject(id)])
            && (id in s && id in t && StructuresEqual(Fields(s[id]), Fields(t[id])) ==> ops == [])
            && (id in s && id in t && !StructuresEqual(Fields(s[id]), Fields(t[id])) ==>
                  if s[id].Relation? || t[id].Relation? then ops == [RemovedRelation(id), AddedRelation(id)]
                  else ops != [] && forall i :: 0 <= i < |ops| ==> ops[i].SetField? || ops[i].DeleteField?)
  {
    DiffByPresence(sorted, s, t, id);
    if id in s && id in t && s[id].Object? && t[id].Object? {
      if OpsOf(FieldDiff(sorted, s, t), id) == [] { UnloggedKeysAreAlike(sorted, id, s[id], t[id]); }
      KeyOpsSetOrDelete(id, sorted(Fields(s[id]).Keys + Fields(t[id]).Keys), Fields(s[id]), Fields(t[id]));
    }
  }

  lemma {:induction false} KeyOpsSetOrDelete(id: string, keys: seq<string>, s: Structure, t: Structure)
    ensures forall i :: 0 <= i < |KeyOps(id, keys, s, t)| ==> IsFieldOp(KeyOps(id, keys, s, t)[i])
    decreases |keys|
  {
    if keys != [] { KeyOpsSetOrDelete(id, keys[1..], s, t); }
  }

  lemma UnloggedKeysAreAlike(sorted: Walk, id: string, x: Item, y: Item)
    requires WalkLaw(sorted) && ItemOps(sorted, id, x, y) == []
    ensures StructuresEqual(Fields(x), Fields(y))
  {
    if !StructuresEqual(Fields(x), Fields(y)) {
      forall key ensures Alike(Lookup(Fields(x), key), Lookup(Fields(y), key)) {
        ItemOpsAt(sorted, id, x, y, Fields(x), key);
      }
      assert forall key :: key in Fields(x) <==> Lookup(Fields(x), key).Some?;
      assert forall key :: key in Fields(y) <==> Lookup(Fields(y), key).Some?;
      assert Fields(x).Keys == Fields(y).Keys;
    }
  }

  /**
   A commit logs nothing for an identity that both states have exactly when its structures compare equal. So
   changes of kind, name, participants and relation type alone go unlogged, and so does an object that
   becomes a relation of equal structure, or the other way round.
   */
  lemma UnloggedIff(sorted: Walk, s: KS, t: KS, id: string)
    requires WalkLaw(sorted) && id in s && id in t
    ensures OpsOf(FieldDiff(sorted, s, t), id) == [] <==> StructuresEqual(Fields(s[id]), Fields(t[id]))
  {
    DiffOfOneItem(sorted, s, t, id);
    if OpsOf(FieldDiff(sorted, s, t), id) == [] { UnloggedKeysAreAlike(sorted, id, s[id], t[id]); }
  }

  // ---------------------------------------------------------------------
  // Synthesizing a merged object
  // ---------------------------------------------------------------------

  datatype MergeError = NoBase | WrongObject | UnsupportedOp | NotAnObject
  datatype Synthesized = Merged(item: Item) | Failed(error: MergeError)

  // The first operation in log order that the replay refuses.
  function Refusal(id: string, ops: seq<FieldOp>): Option<MergeError>
    decreases |ops|
  {
    if ops == [] then None
    else if ops[0].objectId != id then Some(WrongObject)
    else if !IsFieldOp(ops[0]) then Some(UnsupportedOp)
    else Refusal(id, ops[1..])
  }

  function FreezeFields(m: Structure): Structure {
    map k | k in m :: Freeze(m[k])
  }

  // The identity comes from the base; the core freezes the new structure.
  function Synthesize(id: string, base: Option<Item>, ops: seq<FieldOp>): Synthesized {
    if base.None? then Failed(NoBase)
    else if Refusal(id, ops).Some? then Failed(Refusal(id, ops).value)
    else if base.value.Relation? then Failed(NotAnObject)
    else Merged(Object(base.value.obj.(structure := FreezeFields(Replay(base.value.obj.structure, ops)))))
  }

  method SynthesizeMerge(id: string, base: Option<Item>, ops: seq<FieldOp>) returns (r: Synthesized)
    ensures r == Synthesize(id, base, ops)
  {
    if base.None? { return Failed(NoBase); }
    var structure := Fields(base.value);
    for i := 0 to |ops|
      invariant Refusal(id, ops[i..]) == Refusal(id, ops)
      invariant Replay(structure, ops[i..]) == Replay(Fields(base.value), ops)
    {
      assert ops[i..][1..] == ops[i + 1..];
      if ops[i].objectId != id { return Failed(WrongObject); }
      match ops[i]
      case DeleteField(_, key) => structure := structure - {key};
      case SetField(_, key, value) => structure := structure[key := value];
      case _ => return Failed(UnsupportedOp);
    }
    if base.value.Relation? { return Failed(NotAnObject); }
    r := Merged(Object(base.value.obj.(structure := FreezeFields(structure))));
  }

  lemma {:induction false} NothingRefusedIff(id: string, ops: seq<FieldOp>)
    ensures Refusal(id, ops).None? <==>
            forall i :: 0 <= i < |ops| ==> ops[i].objectId == id && (ops[i].SetField? || ops[i].DeleteField?)
    decreases |ops|
  {
    if ops != [] {
      NothingRefusedIff(id, ops[1..]);
      assert forall i :: 1 <= i < |ops| ==> ops[i] == ops[1..][i - 1];
    }
  }

  /**
   A merge is synthesized exactly for a plain base object and operations that all set or delete fields of it. It
   keeps the base's kind and name.
   */
  lemma SynthesizesIff(id: string, base: Option<Item>, ops: seq<FieldOp>)
    ensures Synthesize(id, base, ops).Merged? <==>
            && base.Some? && base.value.Object?
            && forall i :: 0 <= i < |ops| ==> ops[i].objectId == id && (ops[i].SetField? || ops[i].DeleteField?)
    ensures base.None? ==> Synthesize(id, base, ops) == Failed(NoBase)
    ensures Synthesize(id, base, ops).Merged? ==>
              var item := Synthesize(id, base, ops).item;
              item.Object? && item.obj.kind == base.value.obj.kind && item.obj.name == base.value.obj.name
  {
    NothingRefusedIff(id, ops);
  }

  // ---------------------------------------------------------------------
  // The log thaws values, the replay freezes them again
  // ---------------------------------------------------------------------

  function ThawOp(op: FieldOp): FieldOp {
    if op.SetField? then op.(value := Thaw(op.value)) else op
  }

  function FreezeOp(op: FieldOp): FieldOp {
    if op.SetField? then op.(value := Freeze(op.value)) else op
  }

  function ThawOps(ops: seq<FieldOp>): seq<FieldOp> {
    seq(|ops|, i requires 0 <= i < |ops| => ThawOp(ops[i]))
  }

  function FreezeOps(ops: seq<FieldOp>): seq<FieldOp> {
    seq(|ops|, i requires 0 <= i < |ops| => FreezeOp(ops[i]))
  }

  predicate FrozenFields(m: Structure) {
    forall k :: k in m ==> IsFrozen(m[k])
  }

  predicate FrozenOps(ops: seq<FieldOp>) {
    forall i :: 0 <= i < |ops| && ops[i].SetField? ==> IsFrozen(ops[i].value)
  }

  lemma {:induction false} FreezingCommutes(m: Structure, ops: seq<FieldOp>)
    ensures FreezeFields(Replay(m, ops)) == Replay(FreezeFields(m), FreezeOps(ops))
    decreases |ops|
  {
    if ops != [] {
      FreezingCommutes(ApplyField(m, ops[0]), ops[1..]);
      assert FreezeOps(ops)[1..] == FreezeOps(ops[1..]);
      assert FreezeFields(ApplyField(m, ops[0])) == ApplyField(FreezeFields(m), FreezeOps(ops)[0]);
    }
  }

  lemma FrozenFieldsStay(m: Structure)
    requires FrozenFields(m)
    ensures FreezeFields(m) == m
  {
    forall k | k in m ensures Freeze(m[k]) == m[k] { FrozenIsFixed(m[k]); }
  }

  lemma {:induction false} FrozenIsFixed(v: Value)
    requires IsFrozen(v)
    ensures Freeze(v) == v
    decreases v
  {
    match v
    case Proxy(entries) =>
      forall k | k in entries ensures Freeze(entries[k]) == entries[k] { FrozenIsFixed(entries[k]); }
    case Tuple(items) => forall i | 0 <= i < |items| ensures Freeze(items[i]) == items[i] { FrozenIsFixed(items[i]); }
    case _ =>
  }

  lemma {:induction false} RefusalIgnoresValues(id: string, ops: seq<FieldOp>)
    ensures Refusal(id, ThawOps(ops)) == Refusal(id, ops)
    decreases |ops|
  {
    if ops != [] {
      RefusalIgnoresValues(id, ops[1..]);
      assert ThawOps(ops)[1..] == ThawOps(ops[1..]);
    }
  }

  /** Passing through the log's JSON changes nothing about what frozen operations merge to. */
  lemma LoggedOpsMergeAlike(id: string, base: Item, ops: seq<FieldOp>)
    requires base.Object? && FrozenFields(base.obj.structure) && FrozenOps(ops) && Refusal(id, ops).None?
    ensures Synthesize(id, Some(base), ThawOps(ops)) ==
            Merged(Object(base.obj.(structure := Replay(base.obj.structure, ops))))
  {
    RefusalIgnoresValues(id, ops);
    FreezingCommutes(base.obj.structure, ThawOps(ops));
    FrozenFieldsStay(base.obj.structure);
    forall i | 0 <= i < |ops| ensures FreezeOps(ThawOps(ops))[i] == ops[i] {
      if ops[i].SetField? { FrozenComesBack(ops[i].value); }
    }
    assert FreezeOps(ThawOps(ops)) == ops;
  }

  // ---------------------------------------------------------------------
  // Branches: several commits each
  // ---------------------------------------------------------------------

  // The identity is a plain object of frozen fields in every state of the branch.
  ghost predicate PlainThroughout(states: seq<KS>, id: string) {
    states != [] && forall i :: 0 <= i < |states| ==> IsPlainObject(states[i], id)
  }

  predicate IsPlainObject(ks: KS, id: string) {
    id in ks && ks[id].Object? && FrozenFields(ks[id].obj.structure)
  }

  // A key changed to a different value that compares equal: the diff does not see it.
  ghost predicate SilentChange(s: Structure, t: Structure, key: string) {
    Alike(Lookup(s, key), Lookup(t, key)) && Lookup(s, key) != Lookup(t, key)
  }

  ghost predicate NoSilentChange(states: seq<KS>, id: string, key: string)
    requires PlainThroughout(states, id)
  {
    forall i :: 0 < i < |states| ==> !SilentChange(Fields(states[i - 1][id]), Fields(states[i][id]), key)
  }

  // Everything the branch's commits logged for the identity, oldest first.
  ghost function BranchLog(sorted: Walk, states: seq<KS>, id: string): seq<FieldOp>
    requires WalkLaw(sorted)
    decreases |states|
  {
    if |states| <= 1 then []
    else OpsOf(FieldDiff(sorted, states[0], states[1]), id) + BranchLog(sorted, states[1..], id)
  }

  function Last(states: seq<KS>): KS
    requires states != []
  {
    states[|states| - 1]
  }

  lemma {:induction false} BranchLogIsClean(sorted: Walk, states: seq<KS>, id: string)
    requires WalkLaw(sorted) && PlainThroughout(states, id)
    ensures Refusal(id, BranchLog(sorted, states, id)).None? && FrozenOps(BranchLog(sorted, states, id))
    decreases |states|
  {
    if |states| > 1 {
      assert IsPlainObject(states[0], id) && IsPlainObject(states[1], id);
      assert forall i :: 0 <= i < |states| - 1 ==> states[1..][i] == states[i + 1];
      DiffOfOneItem(sorted, states[0], states[1], id);
      var x, y := states[0][id], states[1][id];
      KeyOpsAreClean(id, sorted(Fields(x).Keys + Fields(y).Keys), Fields(x), Fields(y));
      BranchLogIsClean(sorted, states[1..], id);
      CleanConcat(id, ItemOps(sorted, id, x, y), BranchLog(sorted, states[1..], id));
    }
  }

  lemma {:induction false} KeyOpsAreClean(id: string, keys: seq<string>, s: Structure, t: Structure)
    requires FrozenFields(t)
    ensures Refusal(id, KeyOps(id, keys, s, t)).None? && FrozenOps(KeyOps(id, keys, s, t))
    decreases |keys|
  {
    if keys != [] {
      KeyOpsAreClean(id, keys[1..], s, t);
      CleanConcat(id, KeyOp(id, keys[0], s, t), KeyOps(id, keys[1..], s, t));
    }
  }

  lemma {:induction false} CleanConcat(id: string, a: seq<FieldOp>, b: seq<FieldOp>)
    requires Refusal(id, a).None? && Refusal(id, b).None? && FrozenOps(a) && FrozenOps(b)
    ensures Refusal(id, a + b).None? && FrozenOps(a + b)
    decreases |a|
  {
    if a == [] {
      assert a + b == b;
    } else {
      assert (a + b)[1..] == a[1..] + b;
      assert forall i :: 0 <= i < |a| - 1 ==> a[1..][i] == a[i + 1];
      CleanConcat(id, a[1..], b);
    }
  }

  lemma TailOfBranch(states: seq<KS>, id: string)
    requires PlainThroughout(states, id) && |states| > 1
    ensures IsPlainObject(states[0], id) && IsPlainObject(states[1], id)
    ensures PlainThroughout(states[1..], id) && Last(states[1..]) == Last(states)
    ensures forall key :: NoSilentChange(states, id, key) ==>
              !SilentChange(Fields(states[0][id]), Fields(states[1][id]), key) && NoSilentChange(states[1..], id, key)
  {
    var rest := states[1..];
    assert forall i :: 0 <= i < |rest| ==> rest[i] == states[i + 1];
    forall key | NoSilentChange(states, id, key)
      ensures !SilentChange(Fields(states[0][id]), Fields(states[1][id]), key) && NoSilentChange(rest, id, key)
    {
      forall i | 0 < i < |rest| ensures !SilentChange(Fields(rest[i - 1][id]), Fields(rest[i][id]), key) {
        assert rest[i - 1] == states[i] && rest[i] == states[i + 1];
      }
    }
  }

  // Replaying a branch's log on any structure that agrees with its start at a key reaches its end at that key.
  lemma {:induction false} BranchReplayAt(sorted: Walk, states: seq<KS>, id: string, m: Structure, key: string)
    requires WalkLaw(sorted) && PlainThroughout(states, id)
    requires Alike(Lookup(m, key), Lookup(Fields(states[0][id]), key))
    ensures Alike(Lookup(Replay(m, BranchLog(sorted, states, id)), key), Lookup(Fields(Last(states)[id]), key))
    ensures NoSilentChange(states, id, key) && Lookup(m, key) == Lookup(Fields(states[0][id]), key) ==>
              Lookup(Replay(m, BranchLog(sorted, states, id)), key) == Lookup(Fields(Last(states)[id]), key)
    decreases |states|
  {
    if |states| > 1 {
      TailOfBranch(states, id);
      var x, y := states[0][id], states[1][id];
      var next := Replay(m, ItemOps(sorted, id, x, y));
      CommitReplayAt(sorted, states, id, m, key);
      BranchReplayAt(sorted, states[1..], id, next, key);
    }
  }

  lemma CommitReplayAt(sorted: Walk, states: seq<KS>, id: string, m: Structure, key: string)
    requires WalkLaw(sorted) && PlainThroughout(states, id) && |states| > 1
    requires Alike(Lookup(m, key), Lookup(Fields(states[0][id]), key))
    ensures var x, y := Fields(states[0][id]), Fields(states[1][id]);
            var next := Replay(m, ItemOps(sorted, id, states[0][id], states[1][id]));
            && Alike(Lookup(next, key), Lookup(y, key))
            && (!SilentChange(x, y, key) && Lookup(m, key) == Lookup(x, key) ==> Lookup(next, key) == Lookup(y, key))
            && Replay(m, BranchLog(sorted, states, id)) == Replay(next, BranchLog(sorted, states[1..], id))
  {
    TailOfBranch(states, id);
    DiffOfOneItem(sorted, states[0], states[1], id);
    ItemOpsAt(sorted, id, states[0][id], states[1][id], m, key);
    ReplayConcat(m, ItemOps(sorted, id, states[0][id], states[1][id]), BranchLog(sorted, states[1..], id));
  }

  lemma StructuresByKey(s: Structure, t: Structure)
    requires forall key :: Lookup(s, key) == Lookup(t, key)
    ensures s == t
  {
    assert forall key :: key in s <==> Lookup(s, key).Some?;
    assert forall key :: key in t <==> Lookup(t, key).Some?;
    forall key | key in s ensures key in t && s[key] == t[key] { assert Lookup(s, key) == Lookup(t, key); }
    forall key | key in t ensures key in s { assert Lookup(s, key) == Lookup(t, key); }
  }

  /**
   Replaying one commit's logged operations on the object before it gives the object after it, field by field, up
   to values that compare equal; and gives exactly its fields when and only when no key changed silently. Kind
   and name stay those of the base: the log does not carry them.
   */
  lemma DiffReplayIff(sorted: Walk, s: KS, t: KS, id: string)
    requires WalkLaw(sorted) && IsPlainObject(s, id) && IsPlainObject(t, id)
    ensures var r := Synthesize(id, Some(s[id]), ThawOps(OpsOf(FieldDiff(sorted, s, t), id)));
            && r.Merged? && r.item.Object? && r.item.obj.kind == s[id].obj.kind && r.item.obj.name == s[id].obj.name
            && (forall key :: Alike(Lookup(r.item.obj.structure, key), Lookup(t[id].obj.structure, key)))
            && (r.item.obj.structure == t[id].obj.structure <==>
                  forall key :: !SilentChange(s[id].obj.structure, t[id].obj.structure, key))
  {
    var states := [s, t];
    var ops := OpsOf(FieldDiff(sorted, s, t), id);
    assert states[1..] == [t] && BranchLog(sorted, states, id) == ops + [] == ops;
    BranchLogIsClean(sorted, states, id);
    LoggedOpsMergeAlike(id, s[id], ops);
    var before, after := s[id].obj.structure, t[id].obj.structure;
    var result := Replay(before, ops);
    DiffOfOneItem(sorted, s, t, id);
    forall key
      ensures Alike(Lookup(result, key), Lookup(after, key))
      ensures Lookup(result, key) == Lookup(after, key) <==> !SilentChange(before, after, key)
    {
      ItemOpsAt(sorted, id, s[id], t[id], before, key);
    }
    if forall key :: !SilentChange(before, after, key) {
      StructuresByKey(result, after);
    }
  }

  ghost predicate DisjointKeys(a: seq<FieldOp>, b: seq<FieldOp>) {
    forall key :: !(Touches(a, key) && Touches(b, key))
  }

  // Two logs on disjoint keys: each decides its own keys, nobody the rest, in either order.
  lemma DisjointReplayAt(m: Structure, a: seq<FieldOp>, b: seq<FieldOp>, key: string)
    requires DisjointKeys(a, b)
    ensures Lookup(Replay(m, a + b), key) ==
            if Touches(a, key) then Lookup(Replay(m, a), key)
            else if Touches(b, key) then Lookup(Replay(m, b), key)
            else Lookup(m, key)
  {
    ReplayConcat(m, a, b);
    ReplayIsLocal(m, m, a, key);
    ReplayIsLocal(Replay(m, a), m, b, key);
  }

  lemma DisjointReplaysCommute(m: Structure, a: seq<FieldOp>, b: seq<FieldOp>)
    requires DisjointKeys(a, b)
    ensures Replay(m, a + b) == Replay(m, b + a)
  {
    forall key ensures Lookup(Replay(m, a + b), key) == Lookup(Replay(m, b + a), key) {
      DisjointReplayAt(m, a, b, key);
      DisjointReplayAt(m, b, a, key);
    }
    StructuresByKey(Replay(m, a + b), Replay(m, b + a));
  }

  // What the merged object must hold at a key.
  ghost predicate MergesAt(result: Structure, base: Structure, ours: seq<KS>, theirs: seq<KS>, id: string,
                           a: seq<FieldOp>, b: seq<FieldOp>, key: string)
    requires PlainThroughout(ours, id) && PlainThroughout(theirs, id)
  {
    && (Touches(a, key) ==> Alike(Lookup(result, key), Lookup(Fields(Last(ours)[id]), key)))
    && (Touches(a, key) && NoSilentChange(ours, id, key) ==> Lookup(result, key) == Lookup(Fields(Last(ours)[id]), key))
    && (Touches(b, key) ==> Alike(Lookup(result, key), Lookup(Fields(Last(theirs)[id]), key)))
    && (Touches(b, key) && NoSilentChange(theirs, id, key) ==>
          Lookup(result, key) == Lookup(Fields(Last(theirs)[id]), key))
    && (!Touches(a, key) && !Touches(b, key) ==> Lookup(result, key) == Lookup(base, key))
  }

  /**
   Two branches of any number of commits that touched disjoint keys of an object merge, by replaying both logs on
   the base, to each branch's final value on its own keys and to the base value elsewhere. Which log is replayed
   first does not matter.
   */
  lemma DisjointBranchesMerge(sorted: Walk, ours: seq<KS>, theirs: seq<KS>, id: string)
    requires WalkLaw(sorted) && PlainThroughout(ours, id) && PlainThroughout(theirs, id) && ours[0] == theirs[0]
    requires DisjointKeys(BranchLog(sorted, ours, id), BranchLog(sorted, theirs, id))
    ensures var a, b := BranchLog(sorted, ours, id), BranchLog(sorted, theirs, id);
            var base := ours[0][id];
            var r := Synthesize(id, Some(base), ThawOps(a + b));
            && r.Merged? && r.item.Object?
            && r == Synthesize(id, Some(base), ThawOps(b + a))
            && forall key :: MergesAt(r.item.obj.structure, base.obj.structure, ours, theirs, id, a, b, key)
  {
    var a, b := BranchLog(sorted, ours, id), BranchLog(sorted, theirs, id);
    var base := ours[0][id];
    assert IsPlainObject(ours[0], id);
    BranchLogIsClean(sorted, ours, id);
    BranchLogIsClean(sorted, theirs, id);
    CleanConcat(id, a, b);
    CleanConcat(id, b, a);
    LoggedOpsMergeAlike(id, base, a + b);
    LoggedOpsMergeAlike(id, base, b + a);
    DisjointReplaysCommute(base.obj.structure, a, b);
    forall key ensures MergesAt(Replay(base.obj.structure, a + b), base.obj.structure, ours, theirs, id, a, b, key) {
      DisjointReplayAt(base.obj.structure, a, b, key);
      BranchReplayAt(sorted, ours, id, base.obj.structure, key);
      BranchReplayAt(sorted, theirs, id, base.obj.structure, key);
    }
  }
}
