/**
 Versions on their way to storage and back: frozen structures thawed to plain JSON values, patches encoded
 operator by operator, rows written one a version and read back in no particular order. The JSON text itself
 is not modelled; a plain value stands for its text.
 */
module VersionCodec {
  import opened Basics
  import opened Knowledge
  import Session

  type Version = Session.Version

  // ---------------------------------------------------------------------
  // Freezing and thawing
  // ---------------------------------------------------------------------

  function Thaw(v: Value): Value
    decreases v
  {
    match v
    case Dict(entries) => Dict(map k | k in entries :: Thaw(entries[k]))
    case Proxy(entries) => Dict(map k | k in entries :: Thaw(entries[k]))
    case List(items) => List(seq(|items|, i requires 0 <= i < |items| => Thaw(items[i])))
    case Tuple(items) => List(seq(|items|, i requires 0 <= i < |items| => Thaw(items[i])))
    case _ => v
  }

  function Freeze(v: Value): Value
    decreases v
  {
    match v
    case Dict(entries) => Proxy(map k | k in entries :: Freeze(entries[k]))
    case Proxy(entries) => Proxy(map k | k in entries :: Freeze(entries[k]))
    case List(items) => Tuple(seq(|items|, i requires 0 <= i < |items| => Freeze(items[i])))
    case Tuple(items) => Tuple(seq(|items|, i requires 0 <= i < |items| => Freeze(items[i])))
    case _ => v
  }

  // Frozen all the way down, as the core builds every structure.
  predicate IsFrozen(v: Value)
    decreases v
  {
    match v
    case Dict(_) => false
    case List(_) => false
    case Proxy(entries) => forall k :: k in entries ==> IsFrozen(entries[k])
    case Tuple(items) => forall i :: 0 <= i < |items| ==> IsFrozen(items[i])
    case _ => true
  }

  // Nothing in it that the JSON encoder refuses.
  predicate IsPlain(v: Value)
    decreases v
  {
    match v
    case Proxy(_) => false
    case Tuple(_) => false
    case Dict(entries) => forall k :: k in entries ==> IsPlain(entries[k])
    case List(items) => forall i :: 0 <= i < |items| ==> IsPlain(items[i])
    case _ => true
  }

  /** Thawing always yields a plain value, at every depth. */
  lemma {:induction false} ThawIsPlain(v: Value)
    ensures IsPlain(Thaw(v))
    decreases v
  {
    match v
    case Dict(entries) => forall k | k in entries ensures IsPlain(Thaw(entries[k])) { ThawIsPlain(entries[k]); }
    case Proxy(entries) => forall k | k in entries ensures IsPlain(Thaw(entries[k])) { ThawIsPlain(entries[k]); }
    case List(items) => forall i | 0 <= i < |items| ensures IsPlain(Thaw(items[i])) { ThawIsPlain(items[i]); }
    case Tuple(items) => forall i | 0 <= i < |items| ensures IsPlain(Thaw(items[i])) { ThawIsPlain(items[i]); }
    case _ =>
  }

  lemma {:induction false} FreezeIsFrozen(v: Value)
    ensures IsFrozen(Freeze(v))
    decreases v
  {
    match v
    case Dict(entries) => forall k | k in entries ensures IsFrozen(Freeze(entries[k])) { FreezeIsFrozen(entries[k]); }
    case Proxy(entries) => forall k | k in entries ensures IsFrozen(Freeze(entries[k])) { FreezeIsFrozen(entries[k]); }
    case List(items) => forall i | 0 <= i < |items| ensures IsFrozen(Freeze(items[i])) { FreezeIsFrozen(items[i]); }
    case Tuple(items) => forall i | 0 <= i < |items| ensures IsFrozen(Freeze(items[i])) { FreezeIsFrozen(items[i]); }
    case _ =>
  }

  lemma {:induction false} FrozenComesBack(v: Value)
    requires IsFrozen(v)
    ensures Freeze(Thaw(v)) == v
    decreases v
  {
    match v
    case Proxy(entries) =>
      forall k | k in entries ensures Freeze(Thaw(entries[k])) == entries[k] { FrozenComesBack(entries[k]); }
    case Tuple(items) =>
      forall i | 0 <= i < |items| ensures Freeze(Thaw(items[i])) == items[i] { FrozenComesBack(items[i]); }
    case _ =>
  }

  /** A value survives thawing and freezing again exactly when it was frozen all the way down. */
  lemma {:induction false} FreezeThawIff(v: Value)
    ensures Freeze(Thaw(v)) == v <==> IsFrozen(v)
  {
    FreezeIsFrozen(Thaw(v));
    if IsFrozen(v) { FrozenComesBack(v); }
  }

  /** Thawing forgets only what was frozen: freezing afterwards gives what freezing the value itself gives. */
  lemma {:induction false} ThawKeepsContent(v: Value)
    ensures Freeze(Thaw(v)) == Freeze(v)
    decreases v
  {
    if v.Dict? || v.Proxy? {
      var thawed := Thaw(v);
      assert thawed.Dict? && thawed.entries.Keys == v.entries.Keys;
      forall k | k in v.entries ensures Freeze(thawed.entries[k]) == Freeze(v.entries[k]) {
        ThawKeepsContent(v.entries[k]);
      }
      SameFrozenEntries(thawed, v);
    } else if v.List? || v.Tuple? {
      var thawed := Thaw(v);
      assert thawed.List? && |thawed.items| == |v.items|;
      forall i | 0 <= i < |v.items| ensures Freeze(thawed.items[i]) == Freeze(v.items[i]) {
        ThawKeepsContent(v.items[i]);
      }
      SameFrozenItems(thawed, v);
    }
  }

  lemma SameFrozenEntries(v: Value, w: Value)
    requires (v.Dict? || v.Proxy?) && (w.Dict? || w.Proxy?) && v.entries.Keys == w.entries.Keys
    requires forall k :: k in v.entries ==> Freeze(v.entries[k]) == Freeze(w.entries[k])
    ensures Freeze(v) == Freeze(w)
  {
    FrozenEntries(v);
    FrozenEntries(w);
    SameEntriesIff(Freeze(v).entries, Freeze(w).entries);
  }

  lemma FrozenEntries(v: Value)
    requires v.Dict? || v.Proxy?
    ensures var r := Freeze(v);
            r.Proxy? && r.entries.Keys == v.entries.Keys
            && forall k :: k in v.entries ==> r.entries[k] == Freeze(v.entries[k])
  {
  }

  lemma SameFrozenItems(v: Value, w: Value)
    requires (v.List? || v.Tuple?) && (w.List? || w.Tuple?) && |v.items| == |w.items|
    requires forall i :: 0 <= i < |v.items| ==> Freeze(v.items[i]) == Freeze(w.items[i])
    ensures Freeze(v) == Freeze(w)
  {
  }

  // ---------------------------------------------------------------------
  // Operators
  // ---------------------------------------------------------------------

  datatype Identity = Identity(id: string, kind: string, name: string)

  // One encoded operator; None is a missing key.
  datatype Record = Record(
    opType: string,
    identity: Option<Identity>,
    participants: Option<seq<string>>,
    relationType: Option<string>,
    structure: Option<Value>,
    objectId: Option<string>,
    relationId: Option<string>)

  datatype Error = UnknownType | MissingKey | NotAMapping | DuplicateId
  type Result<T> = Basics.Result<T, Error>

  function Encode(op: Operator): Record {
    match op
    case AddObject(id, obj) =>
      Record("add_object", Some(Identity(id, obj.kind, obj.name)), None, None,
             Some(Thaw(Proxy(obj.structure))), None, None)
    case AddRelation(id, rel) =>
      Record("add_relation", Some(Identity(id, rel.kind, rel.name)), Some(rel.participants), Some(rel.relationType),
             Some(Thaw(Proxy(rel.structure))), None, None)
    case RemoveObject(id) => Record("remove_object", None, None, None, None, Some(id), None)
    case RemoveRelation(id) => Record("remove_relation", None, None, None, None, None, Some(id))
  }

  // The core freezes the structure it is given; a missing one is empty.
  function FrozenStructure(structure: Option<Value>): Result<Structure> {
    if structure.None? then Ok(map[])
    else match Freeze(structure.value) case Proxy(entries) => Ok(entries) case _ => Err(NotAMapping)
  }

  function Decode(r: Record): Result<Operator> {
    if r.opType == "add_object" then
      if r.identity.None? then Err(MissingKey)
      else
        var structure := FrozenStructure(r.structure);
        if structure.Err? then Err(structure.error)
        else Ok(AddObject(r.identity.value.id,
                          ObjectData(r.identity.value.kind, r.identity.value.name, structure.value)))
    else if r.opType == "add_relation" then
      if r.identity.None? || r.participants.None? || r.relationType.None? then Err(MissingKey)
      else
        var structure := FrozenStructure(r.structure);
        if structure.Err? then Err(structure.error)
        else Ok(AddRelation(r.identity.value.id,
                            RelationData(r.identity.value.kind, r.identity.value.name, r.participants.value,
                                         r.relationType.value, structure.value)))
    else if r.opType == "remove_object" then
      if r.objectId.None? then Err(MissingKey) else Ok(RemoveObject(r.objectId.value))
    else if r.opType == "remove_relation" then
      if r.relationId.None? then Err(MissingKey) else Ok(RemoveRelation(r.relationId.value))
    else Err(UnknownType)
  }

  predicate FrozenOperator(op: Operator) {
    match op
    case AddObject(_, obj) => IsFrozen(Proxy(obj.structure))
    case AddRelation(_, rel) => IsFrozen(Proxy(rel.structure))
    case _ => true
  }

  /** An operator survives encoding and decoding exactly when its structure is frozen. */
  lemma OperatorRoundTripIff(op: Operator)
    ensures Decode(Encode(op)).Ok?
    ensures Decode(Encode(op)) == Ok(op) <==> FrozenOperator(op)
  {
    match op
    case AddObject(_, obj) => FreezeThawIff(Proxy(obj.structure));
    case AddRelation(_, rel) => FreezeThawIff(Proxy(rel.structure));
    case _ =>
  }

  // What the JSON encoder is given of a record: its structure, if it has one, is a plain mapping.
  predicate PlainRecord(r: Record) {
    r.structure.Some? ==> r.structure.value.Dict? && IsPlain(r.structure.value)
  }

  /**
   Every operator, frozen or not, is encoded as a record the JSON encoder takes, and decodes to an operator of its
   kind under its id with the frozen structure.
   */
  lemma EncodedIsPlain(op: Operator)
    ensures PlainRecord(Encode(op)) && (Encode(op).structure.Some? <==> op.AddObject? || op.AddRelation?)
    ensures var back := Decode(Encode(op));
            && back.Ok? && back.value.id == op.id && FrozenOperator(back.value)
            && (op.AddObject? ==> back.value.AddObject?
                                  && back.value.obj == op.obj.(structure := back.value.obj.structure)
                                  && Proxy(back.value.obj.structure) == Freeze(Proxy(op.obj.structure)))
            && (op.AddRelation? ==> back.value.AddRelation?
                                    && back.value.rel == op.rel.(structure := back.value.rel.structure)
                                    && Proxy(back.value.rel.structure) == Freeze(Proxy(op.rel.structure)))
            && (op.RemoveObject? <==> back.value.RemoveObject?) && (op.RemoveRelation? <==> back.value.RemoveRelation?)
  {
    match op
    case AddObject(_, obj) =>
      ThawIsPlain(Proxy(obj.structure));
      ThawKeepsContent(Proxy(obj.structure));
      FreezeIsFrozen(Proxy(obj.structure));
    case AddRelation(_, rel) =>
      ThawIsPlain(Proxy(rel.structure));
      ThawKeepsContent(Proxy(rel.structure));
      FreezeIsFrozen(Proxy(rel.structure));
    case _ =>
  }

  predicate MappingOrNone(structure: Option<Value>) {
    structure.Some? ==> structure.value.Dict? || structure.value.Proxy?
  }

  predicate HasItsKeys(r: Record) {
    || (r.opType == "add_object" && r.identity.Some?)
    || (r.opType == "add_relation" && r.identity.Some? && r.participants.Some? && r.relationType.Some?)
    || (r.opType == "remove_object" && r.objectId.Some?)
    || (r.opType == "remove_relation" && r.relationId.Some?)
  }

  /**
   Which records decode, written by this program or not: those of a known type with the keys of that type and, for
   an addition, a structure that is missing or a mapping. What is added is frozen, and empty if it was missing.
   */
  lemma DecodesIff(r: Record)
    ensures Decode(r).Ok? <==> HasItsKeys(r) && (r.identity.Some? && r.opType in {"add_object", "add_relation"} ==>
                                                   MappingOrNone(r.structure))
    ensures Decode(r).Ok? ==> FrozenOperator(Decode(r).value)
    ensures Decode(r).Ok? && r.opType == "add_object" && r.structure.None? ==>
              Decode(r).value ==
              AddObject(r.identity.value.id, ObjectData(r.identity.value.kind, r.identity.value.name, map[]))
    ensures Decode(r) == Err(UnknownType) <==>
              r.opType !in {"add_object", "add_relation", "remove_object", "remove_relation"}
  {
    if r.structure.Some? { FreezeIsFrozen(r.structure.value); }
  }

  function EncodeAll(ops: Patch): seq<Record> {
    seq(|ops|, i requires 0 <= i < |ops| => Encode(ops[i]))
  }

  // Fails on the first record that cannot be decoded.
  function DecodeAll(records: seq<Record>): Result<Patch>
    decreases |records|
  {
    if records == [] then Ok([])
    else
      var first := Decode(records[0]);
      if first.Err? then Err(first.error)
      else
        var rest := DecodeAll(records[1..]);
        if rest.Err? then rest else Ok([first.value] + rest.value)
  }

  predicate FrozenPatch(ops: Patch) {
    forall i :: 0 <= i < |ops| ==> FrozenOperator(ops[i])
  }

  /** A whole patch, the empty one included, round-trips exactly when every operator in it is frozen. */
  lemma {:induction false} PatchRoundTripIff(ops: Patch)
    ensures DecodeAll(EncodeAll(ops)).Ok? && |DecodeAll(EncodeAll(ops)).value| == |ops|
    ensures DecodeAll(EncodeAll(ops)) == Ok(ops) <==> FrozenPatch(ops)
    decreases |ops|
  {
    if ops != [] {
      OperatorRoundTripIff(ops[0]);
      PatchRoundTripIff(ops[1..]);
      assert EncodeAll(ops)[1..] == EncodeAll(ops[1..]);
      assert FrozenPatch(ops) <==> FrozenOperator(ops[0]) && FrozenPatch(ops[1..]) by {
        assert forall i :: 1 <= i < |ops| ==> ops[i] == ops[1..][i - 1];
      }
      var d := Decode(Encode(ops[0])).value;
      var rest := DecodeAll(EncodeAll(ops[1..])).value;
      assert ([d] + rest == ops) <==> d == ops[0] && rest == ops[1..] by {
        assert ([d] + rest)[0] == d && ([d] + rest)[1..] == rest;
        assert ops == [ops[0]] + ops[1..];
      }
    }
  }

  method SerializeOperators(ops: Patch) returns (records: seq<Record>)
    ensures records == EncodeAll(ops)
    ensures FrozenPatch(ops) ==> DecodeAll(records) == Ok(ops)
    ensures |records| == |ops| && forall r :: r in records ==> PlainRecord(r)
  {
    forall op: Operator ensures PlainRecord(Encode(op)) { EncodedIsPlain(op); }
    records := [];
    for i := 0 to |ops|
      invariant records == EncodeAll(ops)[..i]
    {
      records := records + [Encode(ops[i])];
    }
    PatchRoundTripIff(ops);
  }

  function Continued(ops: Patch, rest: Result<Patch>): Result<Patch> {
    if rest.Err? then rest else Ok(ops + rest.value)
  }

  method DeserializeOperators(records: seq<Record>) returns (r: Result<Patch>)
    ensures r == DecodeAll(records)
    ensures r.Ok? <==> forall i :: 0 <= i < |records| ==> Decode(records[i]).Ok?
  {
    var ops: Patch := [];
    assert records[0..] == records;
    ContinuedUnit(ops, DecodeAll(records));
    for i := 0 to |records|
      invariant forall k :: 0 <= k < i ==> Decode(records[k]).Ok?
      invariant DecodeAll(records) == Continued(ops, DecodeAll(records[i..]))
    {
      assert records[i..][1..] == records[i + 1..];
      var op := Decode(records[i]);
      if op.Err? { return Err(op.error); }
      ghost var rest := DecodeAll(records[i + 1..]);
      if rest.Ok? { Reassociate(ops, [op.value], rest.value); }
      ops := ops + [op.value];
    }
    ContinuedUnit(ops, Ok([]));
    return Ok(ops);
  }

  lemma ContinuedUnit(ops: Patch, rest: Result<Patch>)
    ensures Continued([], rest) == rest && Continued(ops, Ok([])) == Ok(ops)
  {
    assert rest.Ok? ==> [] + rest.value == rest.value;
    assert ops + [] == ops;
  }

  // ---------------------------------------------------------------------
  // Version rows
  // ---------------------------------------------------------------------

  datatype Row<Text> = Row(id: string, structure: Option<Text>, patch: Option<seq<Record>>,
                           stateHash: Option<string>, createdAt: int)

  // The core's canonical text of a structure; texts are compared and tested for emptiness, never looked into.
  datatype Canonical<!Text> = Canonical(serialize: KS -> Text, parse: Text -> KS, empty: Text -> bool)

  predicate FrozenItem(item: Item) {
    match item case Object(obj) => IsFrozen(Proxy(obj.structure)) case Relation(rel) => IsFrozen(Proxy(rel.structure))
  }

  // A structure as the core builds it.
  predicate FrozenState(ks: KS) {
    forall id :: id in ks ==> FrozenItem(ks[id])
  }

  ghost predicate CanonicalLaw<Text(!new)>(c: Canonical<Text>) {
    && (forall ks :: FrozenState(ks) ==> !c.empty(c.serialize(ks)) && c.parse(c.serialize(ks)) == ks)
    && (forall text :: FrozenState(c.parse(text)))
  }

  /** The law can be met: a text may be the structure itself. */
  lemma SomeCanonicalTextIsLawful()
    ensures CanonicalLaw(Canonical(
              (ks: KS) => ks, (text: KS) => if FrozenState(text) then text else map[], (text: KS) => false))
  {
  }

  function EncodeVersion<Text(!new)>(c: Canonical<Text>, v: Version): Row<Text> {
    if v.state.Some? then Row(v.id, Some(c.serialize(v.state.value)), None, v.stateHash, v.createdAt)
    else Row(v.id, None, if v.patch.Some? then Some(EncodeAll(v.patch.value)) else None, v.stateHash, v.createdAt)
  }

  // An empty text is no structure; an empty patch is a patch.
  function DecodeVersion<Text(!new)>(c: Canonical<Text>, row: Row<Text>): Result<Version> {
    var hasState := row.structure.Some? && !c.empty(row.structure.value);
    var state := if hasState then Some(c.parse(row.structure.value)) else None;
    if row.patch.None? then Ok(Session.Version(row.id, state, None, row.stateHash, row.createdAt))
    else
      var patch := DecodeAll(row.patch.value);
      if patch.Err? then Err(patch.error)
      else Ok(Session.Version(row.id, state, Some(patch.value), row.stateHash, row.createdAt))
  }

  // A snapshot of a frozen state without a patch, or a delta of frozen operators.
  predicate Storable(v: Version) {
    && (v.state.Some? ==> v.patch.None? && FrozenState(v.state.value))
    && (v.patch.Some? ==> FrozenPatch(v.patch.value))
  }

  /**
   A version comes back from its row exactly when it is a frozen snapshot without a patch or a delta of frozen
   operators.
   */
  lemma VersionRoundTripIff<Text(!new)>(c: Canonical<Text>, v: Version)
    requires CanonicalLaw(c)
    ensures DecodeVersion(c, EncodeVersion(c, v)) == Ok(v) <==> Storable(v)
  {
    if v.state.None? && v.patch.Some? {
      PatchRoundTripIff(v.patch.value);
    } else if v.state.Some? {
      assert FrozenState(c.parse(c.serialize(v.state.value)));
    }
  }

  lemma {:induction false} DecodeAllIff(records: seq<Record>)
    ensures DecodeAll(records).Ok? <==> forall i :: 0 <= i < |records| ==> Decode(records[i]).Ok?
    decreases |records|
  {
    if records != [] {
      DecodeAllIff(records[1..]);
      assert forall i :: 1 <= i < |records| ==> records[i] == records[1..][i - 1];
    }
  }

  /** A row decodes exactly when every record of its patch does; an empty text is no structure. */
  lemma RowDecodesIff<Text(!new)>(c: Canonical<Text>, row: Row<Text>)
    ensures var r := DecodeVersion(c, row);
            && (r.Ok? <==> row.patch.None? || forall i :: 0 <= i < |row.patch.value| ==> Decode(row.patch.value[i]).Ok?)
            && (r.Ok? ==> r.value.id == row.id && r.value.stateHash == row.stateHash
                          && r.value.createdAt == row.createdAt)
            && (r.Ok? ==> (r.value.state.None? <==> row.structure.None? || c.empty(row.structure.value)))
            && (r.Ok? ==> (r.value.patch.None? <==> row.patch.None?))
  {
    if row.patch.Some? { DecodeAllIff(row.patch.value); }
  }

  // ---------------------------------------------------------------------
  // Reading back in creation order
  // ---------------------------------------------------------------------

  predicate NotLater(v: Version, w: Version) {
    v.createdAt <= w.createdAt
  }

  predicate Chronological(vs: seq<Version>) {
    forall i, j :: 0 <= i < j < |vs| ==> NotLater(vs[i], vs[j])
  }

  predicate StrictlyChronological(vs: seq<Version>) {
    forall i, j :: 0 <= i < j < |vs| ==> vs[i].createdAt < vs[j].createdAt
  }

  // Behind everything that is not later: the sort is stable.
  function InsertByTime(sorted: seq<Version>, v: Version): seq<Version>
    decreases |sorted|
  {
    if sorted != [] && v.createdAt < sorted[|sorted| - 1].createdAt
    then InsertByTime(sorted[..|sorted| - 1], v) + [sorted[|sorted| - 1]]
    else sorted + [v]
  }

  function SortByTime(vs: seq<Version>): seq<Version>
    decreases |vs|
  {
    if vs == [] then [] else InsertByTime(SortByTime(vs[..|vs| - 1]), vs[|vs| - 1])
  }

  lemma {:induction false} InsertIsSorted(sorted: seq<Version>, v: Version)
    requires Chronological(sorted)
    ensures Chronological(InsertByTime(sorted, v))
    ensures forall w :: w in InsertByTime(sorted, v) <==> w in sorted || w == v
    ensures |InsertByTime(sorted, v)| == |sorted| + 1
    decreases |sorted|
  {
    if sorted != [] && v.createdAt < sorted[|sorted| - 1].createdAt {
      var init, last := sorted[..|sorted| - 1], sorted[|sorted| - 1];
      InsertIsSorted(init, v);
      var before := InsertByTime(init, v);
      assert sorted == init + [last];
      forall i | 0 <= i < |before| ensures NotLater(before[i], last) {
        assert before[i] in before;
        if before[i] != v {
          var k :| 0 <= k < |init| && init[k] == before[i];
          assert NotLater(sorted[k], sorted[|sorted| - 1]);
        }
      }
    } else if sorted != [] {
      forall i | 0 <= i < |sorted| ensures NotLater(sorted[i], v) {
        assert i < |sorted| - 1 ==> NotLater(sorted[i], sorted[|sorted| - 1]);
      }
    }
  }

  lemma {:induction false} SortSorts(vs: seq<Version>)
    ensures Chronological(SortByTime(vs)) && |SortByTime(vs)| == |vs|
    ensures forall v :: v in SortByTime(vs) <==> v in vs
    decreases |vs|
  {
    if vs != [] {
      var init, last := vs[..|vs| - 1], vs[|vs| - 1];
      SortSorts(init);
      InsertIsSorted(SortByTime(init), last);
      assert vs == init + [last];
    }
  }

  lemma LatestGoesLast(sorted: seq<Version>, v: Version)
    requires sorted == [] || NotLater(sorted[|sorted| - 1], v)
    ensures InsertByTime(sorted, v) == sorted + [v]
  {
  }

  lemma PrefixStaysSorted(vs: seq<Version>, n: nat)
    requires Chronological(vs) && n <= |vs|
    ensures Chronological(vs[..n])
  {
    forall i, j | 0 <= i < j < n ensures NotLater(vs[..n][i], vs[..n][j]) {
      assert vs[..n][i] == vs[i] && vs[..n][j] == vs[j];
    }
  }

  lemma {:induction false} SortedStays(vs: seq<Version>)
    requires Chronological(vs)
    ensures SortByTime(vs) == vs
    decreases |vs|
  {
    if vs != [] {
      var init, last := vs[..|vs| - 1], vs[|vs| - 1];
      PrefixStaysSorted(vs, |vs| - 1);
      SortedStays(init);
      if init != [] { assert NotLater(vs[|vs| - 2], vs[|vs| - 1]); }
      LatestGoesLast(init, last);
      assert vs == init + [last];
    }
  }

  predicate DistinctIds(vs: seq<Version>) {
    forall i, j :: 0 <= i < j < |vs| ==> vs[i].id != vs[j].id
  }

  // The same versions in any order: what an unordered query may return.
  predicate SameRows(vs: seq<Version>, ws: seq<Version>) {
    |vs| == |ws| && DistinctIds(vs) && DistinctIds(ws) && SameMembers(vs, ws)
  }

  predicate SameMembers(vs: seq<Version>, ws: seq<Version>) {
    (forall v :: v in vs ==> v in ws) && (forall w :: w in ws ==> w in vs)
  }

  lemma {:induction false} OneChronology(vs: seq<Version>, ws: seq<Version>)
    requires StrictlyChronological(vs) && Chronological(ws) && |vs| == |ws|
    requires SameMembers(vs, ws)
    ensures vs == ws
    decreases |vs|
  {
    if vs != [] {
      var n := |vs| - 1;
      LastIsLatest(vs, ws);
      assert vs == vs[..n] + [vs[n]] && ws == ws[..n] + [ws[n]];
      DropLast(vs, ws);
      assert forall i :: 0 <= i < n ==> vs[..n][i] == vs[i] && ws[..n][i] == ws[i];
      OneChronology(vs[..n], ws[..n]);
    }
  }

  lemma LastIsLatest(vs: seq<Version>, ws: seq<Version>)
    requires StrictlyChronological(vs) && Chronological(ws) && |vs| == |ws| > 0
    requires SameMembers(vs, ws)
    ensures vs[|vs| - 1] == ws[|ws| - 1]
  {
    var n := |vs| - 1;
    assert vs[n] in ws && ws[n] in vs;
    var i :| 0 <= i <= n && ws[i] == vs[n];
    var j :| 0 <= j <= n && vs[j] == ws[n];
    assert vs[j].createdAt <= vs[n].createdAt;
    assert NotLater(ws[i], ws[n]) || i == n;
  }

  // Without the shared last element the members still agree; the equal lengths rule out a second copy of it.
  lemma DropLast(vs: seq<Version>, ws: seq<Version>)
    requires StrictlyChronological(vs) && Chronological(ws) && |vs| == |ws| > 0
    requires SameMembers(vs, ws)
    requires vs[|vs| - 1] == ws[|ws| - 1]
    ensures SameMembers(vs[..|vs| - 1], ws[..|ws| - 1])
  {
    var n := |vs| - 1;
    NoSecondCopy(vs, ws);
    assert vs == vs[..n] + [vs[n]] && ws == ws[..n] + [ws[n]];
    forall v ensures v in vs[..n] <==> v in ws[..n] {
      if v in vs[..n] {
        var i :| 0 <= i < n && vs[i] == v;
        assert vs[i].createdAt < vs[n].createdAt;
        assert v in ws && v != ws[n];
      }
      if v in ws[..n] {
        assert v in vs && v != vs[n];
      }
    }
  }

  lemma NoSecondCopy(vs: seq<Version>, ws: seq<Version>)
    requires StrictlyChronological(vs) && |vs| == |ws| > 0
    requires SameMembers(vs, ws)
    ensures ws[|ws| - 1] !in ws[..|ws| - 1]
  {
    var n := |vs| - 1;
    var members := set v | v in vs;
    DistinctCount(vs);
    if ws[n] in ws[..n] {
      assert ws == ws[..n] + [ws[n]];
      assert (set v | v in ws[..n]) == members;
      CountAtMost(ws[..n]);
    }
  }

  lemma {:induction false} DistinctCount(vs: seq<Version>)
    requires StrictlyChronological(vs)
    ensures |(set v | v in vs)| == |vs|
    decreases |vs|
  {
    if vs != [] {
      var n := |vs| - 1;
      assert forall i :: 0 <= i < n ==> vs[..n][i] == vs[i];
      DistinctCount(vs[..n]);
      assert vs == vs[..n] + [vs[n]];
      assert vs[n] !in vs[..n];
      assert (set v | v in vs) == (set v | v in vs[..n]) + {vs[n]};
    }
  }

  lemma {:induction false} CountAtMost(vs: seq<Version>)
    ensures |(set v | v in vs)| <= |vs|
    decreases |vs|
  {
    if vs != [] {
      var n := |vs| - 1;
      CountAtMost(vs[..n]);
      assert vs == vs[..n] + [vs[n]];
      assert (set v | v in vs) == (set v | v in vs[..n]) + {vs[n]};
    }
  }

  /**
   Whatever order the rows come back in, sorting by creation time restores the history, exactly when no two of
   its versions were created at the same instant and none before an earlier one.
   */
  lemma ReloadRestoresIff(history: seq<Version>)
    requires DistinctIds(history)
    ensures (forall rows :: SameRows(history, rows) ==> SortByTime(rows) == history) <==> StrictlyChronological(history)
  {
    if StrictlyChronological(history) {
      forall rows | SameRows(history, rows) ensures SortByTime(rows) == history {
        SortSorts(rows);
        assert forall v :: v in history <==> v in SortByTime(rows);
        OneChronology(history, SortByTime(rows));
      }
    } else {
      SortSorts(history);
      if Chronological(history) {
        var i, j :| 0 <= i < j < |history| && history[i].createdAt >= history[j].createdAt;
        var k := TiedNeighbours(history, i, j);
        var rows := history[k := history[k + 1]][k + 1 := history[k]];
        assert NotLater(history[k], history[k + 1]);
        SwapIsSame(history, k);
        SortedStays(rows);
        assert rows[k].id != history[k].id;
      } else {
        assert SameRows(history, history);
      }
    }
  }

  lemma {:induction false} TiedNeighbours(vs: seq<Version>, i: nat, j: nat) returns (k: nat)
    requires i < j < |vs| && vs[i].createdAt >= vs[j].createdAt
    ensures k + 1 < |vs| && vs[k].createdAt >= vs[k + 1].createdAt
    decreases j - i
  {
    if vs[i].createdAt >= vs[i + 1].createdAt { k := i; } else { k := TiedNeighbours(vs, i + 1, j); }
  }

  lemma SwapIsSame(vs: seq<Version>, k: nat)
    requires DistinctIds(vs) && Chronological(vs) && k + 1 < |vs| && vs[k].createdAt == vs[k + 1].createdAt
    ensures var rows := vs[k := vs[k + 1]][k + 1 := vs[k]]; SameRows(vs, rows) && Chronological(rows)
  {
    var rows := vs[k := vs[k + 1]][k + 1 := vs[k]];
    forall i, j | 0 <= i < j < |vs| ensures rows[i].id != rows[j].id && NotLater(rows[i], rows[j]) {
      var i' := if i == k then k + 1 else if i == k + 1 then k else i;
      var j' := if j == k then k + 1 else if j == k + 1 then k else j;
      assert rows[i] == vs[i'] && rows[j] == vs[j'];
      assert i' < j' ==> NotLater(vs[i'], vs[j']) && vs[i'].id != vs[j'].id;
      assert j' < i' ==> i == k && j == k + 1;
    }
    forall v | v in vs ensures v in rows {
      var i :| 0 <= i < |vs| && vs[i] == v;
      assert rows[if i == k then k + 1 else if i == k + 1 then k else i] == v;
    }
  }

  // ---------------------------------------------------------------------
  // The versions table
  // ---------------------------------------------------------------------

  type Rows<Text> = map<string, Row<Text>>

  // A second row under one id is refused.
  function Saved<Text(!new)>(c: Canonical<Text>, rows: Rows<Text>, v: Version): Rows<Text> {
    if v.id in rows then rows else rows[v.id := EncodeVersion(c, v)]
  }

  // The table after saving the versions one by one.
  function SavedAll<Text(!new)>(c: Canonical<Text>, history: seq<Version>): Rows<Text>
    decreases |history|
  {
    if history == [] then map[] else Saved(c, SavedAll(c, history[..|history| - 1]), history[|history| - 1])
  }

  // An order the query may return the rows in.
  ghost predicate Enumerates<Text>(order: seq<string>, rows: Rows<Text>) {
    NoRepeats(order) && (forall id :: id in order ==> id in rows) && (forall id :: id in rows ==> id in order)
  }

  function RowsIn<Text>(rows: Rows<Text>, order: seq<string>): seq<Row<Text>>
    requires forall id :: id in order ==> id in rows
  {
    seq(|order|, i requires 0 <= i < |order| => rows[order[i]])
  }

  // Fails on the first row that cannot be decoded.
  function DecodeRows<Text(!new)>(c: Canonical<Text>, rows: seq<Row<Text>>): Result<seq<Version>>
    decreases |rows|
  {
    if rows == [] then Ok([])
    else
      var init := DecodeRows(c, rows[..|rows| - 1]);
      if init.Err? then init
      else
        var last := DecodeVersion(c, rows[|rows| - 1]);
        if last.Err? then Err(last.error) else Ok(init.value + [last.value])
  }

  function Loaded<Text(!new)>(c: Canonical<Text>, rows: seq<Row<Text>>): Result<seq<Version>> {
    var versions := DecodeRows(c, rows);
    if versions.Err? then versions else Ok(SortByTime(versions.value))
  }

  class VersionTable<Text(!new)> {
    const canonical: Canonical<Text>
    var rows: Rows<Text>

    constructor (canonical: Canonical<Text>)
      ensures this.canonical == canonical && rows == map[]
    {
      this.canonical, rows := canonical, map[];
    }

    method SaveVersion(v: Version) returns (r: Result<()>)
      modifies this`rows
      ensures r == if v.id in old(rows) then Err(DuplicateId) else Ok(())
      ensures rows == Saved(canonical, old(rows), v)
    {
      if v.id in rows { return Err(DuplicateId); }
      var structure: Option<Text> := None;
      var patch: Option<seq<Record>> := None;
      if v.state.Some? {
        structure := Some(canonical.serialize(v.state.value));
      } else if v.patch.Some? {
        var records := SerializeOperators(v.patch.value);
        patch := Some(records);
      }
      rows := rows[v.id := Row(v.id, structure, patch, v.stateHash, v.createdAt)];
      return Ok(());
    }

    /** Reads the rows in the order the query returns them, decodes each, and sorts by creation time. */
    method LoadVersions(order: seq<string>) returns (r: Result<seq<Version>>)
      requires Enumerates(order, rows)
      ensures r == Loaded(canonical, RowsIn(rows, order))
    {
      var versions: seq<Version> := [];
      ghost var found := RowsIn(rows, order);
      for i := 0 to |order|
        invariant DecodeRows(canonical, found[..i]) == Ok(versions)
      {
        assert found[..i + 1][..i] == found[..i] && found[..i + 1][i] == rows[order[i]];
        var version := DecodeVersion(canonical, rows[order[i]]);
        if version.Err? {
          DecodingStops(canonical, found, i + 1);
          return Err(version.error);
        }
        versions := versions + [version.value];
      }
      assert found[..|order|] == found;
      return Ok(SortByTime(versions));
    }
  }

  // A failure in the first rows is the result of all rows.
  lemma {:induction false} DecodingStops<Text(!new)>(c: Canonical<Text>, rows: seq<Row<Text>>, n: nat)
    requires n <= |rows| && DecodeRows(c, rows[..n]).Err?
    ensures DecodeRows(c, rows) == DecodeRows(c, rows[..n])
    decreases |rows|
  {
    if n == |rows| {
      assert rows[..n] == rows;
    } else {
      assert rows[..|rows| - 1][..n] == rows[..n];
      DecodingStops(c, rows[..|rows| - 1], n);
    }
  }

  // ---------------------------------------------------------------------
  // Saving a history and reading it back
  // ---------------------------------------------------------------------

  // The table holds exactly the versions of the history.
  ghost predicate Holds<Text(!new)>(c: Canonical<Text>, rows: Rows<Text>, history: seq<Version>) {
    && (forall id :: id in rows ==> exists v :: v in history && v.id == id)
    && (forall v :: v in history ==> v.id in rows && rows[v.id] == EncodeVersion(c, v))
  }

  lemma SaveExtends<Text(!new)>(c: Canonical<Text>, rows: Rows<Text>, history: seq<Version>, v: Version)
    requires Holds(c, rows, history) && forall w :: w in history ==> w.id != v.id
    ensures Holds(c, Saved(c, rows, v), history + [v])
  {
    var all, next := history + [v], Saved(c, rows, v);
    forall id | id in next ensures exists w :: w in all && w.id == id {
      if id == v.id {
        assert v in all;
      } else {
        var w :| w in history && w.id == id;
        assert w in all;
      }
    }
  }

  lemma LastIdIsNew(vs: seq<Version>, n: nat)
    requires DistinctIds(vs) && |vs| == n + 1
    ensures DistinctIds(vs[..n]) && forall w :: w in vs[..n] ==> w.id != vs[n].id
    ensures vs[..n] + [vs[n]] == vs
  {
    assert forall i :: 0 <= i < n ==> vs[..n][i] == vs[i];
    forall w | w in vs[..n] ensures w.id != vs[n].id {
      var i :| 0 <= i < n && vs[..n][i] == w;
      assert vs[i].id != vs[n].id;
    }
  }

  lemma {:induction false} SavedAllHolds<Text(!new)>(c: Canonical<Text>, history: seq<Version>)
    requires DistinctIds(history)
    ensures Holds(c, SavedAll(c, history), history)
    decreases |history|
  {
    if history == [] {
      assert SavedAll(c, history) == map[];
    } else {
      var n := |history| - 1;
      var init, last := history[..n], history[n];
      LastIdIsNew(history, n);
      SavedAllHolds(c, init);
      SaveExtends(c, SavedAll(c, init), init, last);
      assert SavedAll(c, history) == Saved(c, SavedAll(c, init), last);
    }
  }

  // Every stored row decodes to the version it was saved from.
  lemma RowDecodes<Text(!new)>(c: Canonical<Text>, rows: Rows<Text>, history: seq<Version>, id: string)
    requires CanonicalLaw(c) && Holds(c, rows, history) && id in rows && forall v :: v in history ==> Storable(v)
    ensures var r := DecodeVersion(c, rows[id]); r.Ok? && r.value in history && r.value.id == id
  {
    var v :| v in history && v.id == id;
    VersionRoundTripIff(c, v);
  }

  lemma {:induction false} RowsDecode<Text(!new)>(
      c: Canonical<Text>, rows: Rows<Text>, history: seq<Version>, order: seq<string>)
    requires CanonicalLaw(c) && Holds(c, rows, history) && forall v :: v in history ==> Storable(v)
    requires forall id :: id in order ==> id in rows
    ensures var r := DecodeRows(c, RowsIn(rows, order));
            && r.Ok? && |r.value| == |order|
            && forall k :: 0 <= k < |order| ==> r.value[k] in history && r.value[k].id == order[k]
    decreases |order|
  {
    if order != [] {
      var n := |order| - 1;
      RowsDecode(c, rows, history, order[..n]);
      assert RowsIn(rows, order)[..n] == RowsIn(rows, order[..n]);
      RowDecodes(c, rows, history, order[n]);
    }
  }

  lemma DecodedRowsAreTheHistory<Text(!new)>(
      c: Canonical<Text>, rows: Rows<Text>, history: seq<Version>, order: seq<string>)
    requires CanonicalLaw(c) && Holds(c, rows, history) && forall v :: v in history ==> Storable(v)
    requires DistinctIds(history) && Enumerates(order, rows)
    ensures var r := DecodeRows(c, RowsIn(rows, order)); r.Ok? && SameRows(history, r.value)
  {
    RowsDecode(c, rows, history, order);
    var versions := DecodeRows(c, RowsIn(rows, order)).value;
    forall v | v in history ensures v in versions {
      var k :| 0 <= k < |order| && order[k] == v.id;
      IdsIdentify(history, v, versions[k]);
    }
    assert SameMembers(history, versions);
    SameCount(history, versions);
  }

  lemma IdsIdentify(vs: seq<Version>, v: Version, w: Version)
    requires DistinctIds(vs) && v in vs && w in vs && v.id == w.id
    ensures v == w
  {
    var i :| 0 <= i < |vs| && vs[i] == v;
    var j :| 0 <= j < |vs| && vs[j] == w;
    assert i == j;
  }

  lemma SameCount(vs: seq<Version>, ws: seq<Version>)
    requires DistinctIds(vs) && DistinctIds(ws) && SameMembers(vs, ws)
    ensures |vs| == |ws|
  {
    DistinctIdsCount(vs);
    DistinctIdsCount(ws);
    assert (set v | v in vs) == (set v | v in ws);
  }

  lemma {:induction false} DistinctIdsCount(vs: seq<Version>)
    requires DistinctIds(vs)
    ensures |(set v | v in vs)| == |vs|
    decreases |vs|
  {
    if vs != [] {
      var n := |vs| - 1;
      assert forall i :: 0 <= i < n ==> vs[..n][i] == vs[i];
      DistinctIdsCount(vs[..n]);
      assert vs == vs[..n] + [vs[n]];
      assert vs[n] !in vs[..n];
      assert (set v | v in vs) == (set v | v in vs[..n]) + {vs[n]};
    }
  }

  /**
   Whatever order the rows come back in, a stored history of storable versions is read back complete and in
   chronological order, and exactly as it was when its creation times strictly increase.
   */
  lemma ReloadedHistory<Text(!new)>(c: Canonical<Text>, rows: Rows<Text>, history: seq<Version>, order: seq<string>)
    requires CanonicalLaw(c) && Holds(c, rows, history) && forall v :: v in history ==> Storable(v)
    requires DistinctIds(history) && Enumerates(order, rows)
    ensures var r := Loaded(c, RowsIn(rows, order));
            && r.Ok? && SameRows(history, r.value) && Chronological(r.value)
            && (StrictlyChronological(history) ==> r.value == history)
  {
    DecodedRowsAreTheHistory(c, rows, history, order);
    var versions := DecodeRows(c, RowsIn(rows, order)).value;
    SortSorts(versions);
    SortedRowsAreSame(history, versions);
    ReloadRestoresIff(history);
  }

  lemma SortedRowsAreSame(history: seq<Version>, versions: seq<Version>)
    requires SameRows(history, versions)
    ensures SameRows(history, SortByTime(versions))
  {
    SortSorts(versions);
    SortKeepsIdsApart(versions);
  }

  lemma {:induction false} SortKeepsIdsApart(vs: seq<Version>)
    requires DistinctIds(vs)
    ensures DistinctIds(SortByTime(vs))
    decreases |vs|
  {
    if vs != [] {
      var init, last := vs[..|vs| - 1], vs[|vs| - 1];
      assert forall i :: 0 <= i < |init| ==> init[i] == vs[i];
      SortKeepsIdsApart(init);
      SortSorts(init);
      forall v | v in SortByTime(init) ensures v.id != last.id {
        assert v in init;
        var i :| 0 <= i < |init| && init[i] == v;
        assert vs[i].id != vs[|vs| - 1].id;
      }
      InsertKeepsIdsApart(SortByTime(init), last);
    }
  }

  lemma {:induction false} InsertKeepsIdsApart(sorted: seq<Version>, v: Version)
    requires DistinctIds(sorted) && Chronological(sorted) && forall w :: w in sorted ==> w.id != v.id
    ensures DistinctIds(InsertByTime(sorted, v))
    decreases |sorted|
  {
    if sorted != [] && v.createdAt < sorted[|sorted| - 1].createdAt {
      var init, last := sorted[..|sorted| - 1], sorted[|sorted| - 1];
      assert sorted == init + [last];
      assert forall i :: 0 <= i < |init| ==> init[i] == sorted[i];
      InsertKeepsIdsApart(init, v);
      InsertIsSorted(init, v);
      var before := InsertByTime(init, v);
      forall i | 0 <= i < |before| ensures before[i].id != last.id {
        assert before[i] in before;
        if before[i] != v {
          var k :| 0 <= k < |init| && init[k] == before[i];
          assert sorted[k].id != sorted[|sorted| - 1].id;
        }
      }
    }
  }

  // ---------------------------------------------------------------------
  // What a reload means for reconstruction
  // ---------------------------------------------------------------------

  // Between structures as the core builds them, diffs hold frozen structures.
  ghost predicate FrozenDiffs(core: Session.Core) {
    forall s, t :: FrozenState(s) && FrozenState(t) ==> FrozenPatch(core.diff(s, t))
  }

  lemma {:induction false} DiffOverIsFrozen(s: KS, t: KS, ids: set<string>)
    requires FrozenState(t)
    ensures FrozenPatch(DiffOver(s, t, ids))
    decreases ids
  {
    if ids != {} {
      DiffOverIsFrozen(s, t, ids - {AnyOf(ids)});
    }
  }

  /**
   What is assumed of the core can be met all at once: remove-then-add pairs are lawful diffs and keep frozen
   structures frozen.
   */
  lemma PairwiseDiffIsLawfulAndFrozen(hash: KS -> Option<string>, validate: KS -> bool)
    ensures var core := Session.Core((s: KS, t: KS) => Diff(s, t), hash, validate);
            Session.DiffLaw(core) && FrozenDiffs(core)
  {
    Session.PairwiseDiffMeetsTheLaw(hash, validate);
    forall s: KS, t: KS | FrozenState(s) && FrozenState(t) ensures FrozenPatch(Diff(s, t)) {
      DiffOverIsFrozen(s, t, Differing(s, t));
    }
  }

  /** Histories that the version manager records from frozen states can be stored. */
  lemma RecordedHistoriesAreStorable(core: Session.Core, interval: nat, history: seq<Version>, committed: seq<KS>)
    requires Session.Records(core, interval, history, committed) && FrozenDiffs(core)
    requires forall i :: 0 <= i < |committed| ==> FrozenState(committed[i])
    ensures DistinctIds(history) && forall v :: v in history ==> Storable(v)
  {
    forall i | 0 <= i < |history| ensures Storable(history[i]) {
      assert Session.VersionFits(core, interval, history, committed, i);
    }
  }

  /**
   End to end. Save every version of a recorded history and load the rows in any order: each version reconstructs
   to the state committed as it exactly when it did before, that is, when every delta since its snapshot is
   replayable.
   */
  lemma SavedVersionsReconstructIff<Text(!new)>(
      c: Canonical<Text>, core: Session.Core, interval: nat, history: seq<Version>, committed: seq<KS>,
      order: seq<string>, i: nat)
    requires CanonicalLaw(c) && Session.DiffLaw(core) && FrozenDiffs(core)
    requires Session.Records(core, interval, history, committed) && i < |history|
    requires forall k :: 0 <= k < |committed| ==> FrozenState(committed[k])
    requires StrictlyChronological(history) && Enumerates(order, SavedAll(c, history))
    ensures var loaded := Loaded(c, RowsIn(SavedAll(c, history), order));
            && loaded == Ok(history)
            && (Session.VersionState(Some(core), loaded.value, history[i].id) == Ok(committed[i]) <==>
                Session.Replayable(interval, committed, i))
  {
    RecordedHistoriesAreStorable(core, interval, history, committed);
    SavedAllHolds(c, history);
    ReloadedHistory(c, SavedAll(c, history), history, order);
    Session.VersionReconstructsIff(core, interval, history, committed, i);
  }
}
