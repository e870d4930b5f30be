/**
 The operation log as a table, and the merge fast path that reads it: which conflicts between two branches it
 resolves by itself, and what it resolves them to.
 */
module OperationLog {
  import opened Basics
  import opened Knowledge
  import opened FieldMerge

  datatype Row = Row(session: string, version: string, op: FieldOp)

  // The rows one commit appends; values are stored thawed.
  function RowsFor(session: string, version: string, ops: seq<FieldOp>): seq<Row> {
    seq(|ops|, i requires 0 <= i < |ops| => Row(session, version, ThawOp(ops[i])))
  }

  // An absent filter matches everything.
  predicate Selects(row: Row, session: string, objectId: Option<string>, version: Option<string>) {
    && row.session == session
    && (objectId.None? || objectId.value == row.op.objectId)
    && (version.None? || version.value == row.version)
  }

  function Selected(rows: seq<Row>, session: string, objectId: Option<string>, version: Option<string>): seq<Row>
    decreases |rows|
  {
    if rows == [] then []
    else
      var rest := Selected(rows[1..], session, objectId, version);
      if Selects(rows[0], session, objectId, version) then [rows[0]] + rest else rest
  }

  lemma SelectedStep(rows: seq<Row>, i: nat, session: string, objectId: Option<string>, version: Option<string>,
                     before: seq<Row>)
    requires i < |rows|
    ensures before + Selected(rows[i..], session, objectId, version) ==
            (if Selects(rows[i], session, objectId, version) then before + [rows[i]] else before)
            + Selected(rows[i + 1..], session, objectId, version)
  {
    assert rows[i..][1..] == rows[i + 1..];
    var rest := Selected(rows[i + 1..], session, objectId, version);
    if Selects(rows[i], session, objectId, version) {
      Reassociate(before, [rows[i]], rest);
    } else {
      assert Selected(rows[i..], session, objectId, version) == rest;
    }
  }

  class OperationLogTable {
    var rows: seq<Row>   // by ascending row id

    constructor ()
      ensures rows == []
    {
      rows := [];
    }

    method RecordOperations(session: string, version: string, ops: seq<FieldOp>)
      modifies this
      ensures rows == old(rows) + RowsFor(session, version, ops)
    {
      var added := [];
      for i := 0 to |ops|
        invariant rows == old(rows)
        invariant added == RowsFor(session, version, ops)[..i]
      {
        added := added + [Row(session, version, ThawOp(ops[i]))];
      }
      rows := rows + added;
    }

    method ListOperations(session: string, objectId: Option<string>, version: Option<string>) returns (found: seq<Row>)
      ensures found == Selected(rows, session, objectId, version)
    {
      found := [];
      assert rows[0..] == rows;
      for i := 0 to |rows|
        invariant found + Selected(rows[i..], session, objectId, version) == Selected(rows, session, objectId, version)
      {
        SelectedStep(rows, i, session, objectId, version, found);
        if Selects(rows[i], session, objectId, version) {
          found := found + [rows[i]];
        }
      }
    }
  }

  // ---------------------------------------------------------------------
  // The fast path
  // ---------------------------------------------------------------------

  // One side of a merge: its session, the version ids of its history, and where it forked from.
  datatype Side = Side(session: string, versions: seq<string>, parent: Option<string>)

  datatype Conflict = Conflict(objectId: string, base: Option<Item>)

  function IndexOf(xs: seq<string>, x: string): nat
    requires x in xs
    ensures IndexOf(xs, x) < |xs| && xs[IndexOf(xs, x)] == x
    decreases |xs|
  {
    if xs[0] == x then 0 else IndexOf(xs[1..], x) + 1
  }

  function AsSet(xs: seq<string>): set<string> {
    set x | x in xs
  }

  // The versions after the base, or all of them for a branch that forked from it; None when neither applies.
  function VersionsSince(side: Side, base: string): Option<set<string>> {
    if base in side.versions then Some(AsSet(side.versions[IndexOf(side.versions, base) + 1..]))
    else if side.parent == Some(base) then Some(AsSet(side.versions))
    else None
  }

  function OpsIn(rows: seq<Row>, versions: set<string>): seq<FieldOp>
    decreases |rows|
  {
    if rows == [] then [] else (if rows[0].version in versions then [rows[0].op] else []) + OpsIn(rows[1..], versions)
  }

  // What one side logged for an object in the given versions.
  function SideOps(rows: seq<Row>, session: string, objectId: string, versions: set<string>): seq<FieldOp> {
    OpsIn(Selected(rows, session, Some(objectId), None), versions)
  }

  predicate AllFieldOps(ops: seq<FieldOp>) {
    forall i :: 0 <= i < |ops| ==> IsFieldOp(ops[i])
  }

  function KeysOf(ops: seq<FieldOp>): set<string>
    requires AllFieldOps(ops)
  {
    set i | 0 <= i < |ops| :: ops[i].key
  }

  function Resolution(c: Conflict, ours: seq<FieldOp>, theirs: seq<FieldOp>): Option<Item> {
    if c.base.None? then None
    else if ours == [] && theirs == [] then None
    else if !AllFieldOps(ours + theirs) then None
    else if !AllFieldOps(ours) || !AllFieldOps(theirs) || KeysOf(ours) * KeysOf(theirs) != {} then None
    else match Synthesize(c.objectId, c.base, ours + theirs) case Merged(item) => Some(item) case Failed(_) => None
  }

  // Conflicts in order; a later one for the same object overrides.
  function Resolutions(rows: seq<Row>, ours: (string, set<string>), theirs: (string, set<string>),
                       conflicts: seq<Conflict>): map<string, Item>
    decreases |conflicts|
  {
    if conflicts == [] then map[]
    else
      var c := conflicts[|conflicts| - 1];
      var before := Resolutions(rows, ours, theirs, conflicts[..|conflicts| - 1]);
      var r := Resolution(c, SideOps(rows, ours.0, c.objectId, ours.1), SideOps(rows, theirs.0, c.objectId, theirs.1));
      if r.Some? then before[c.objectId := r.value] else before
  }

  // Neither one of the side's versions nor the one it forked from.
  predicate Unrelated(side: Side, base: string) {
    base !in side.versions && side.parent != Some(base)
  }

  function FieldLevel(rows: seq<Row>, supported: bool, base: Option<string>, ours: Side, theirs: Side,
                      conflicts: seq<Conflict>): map<string, Item> {
    if base.None? || !supported then map[]
    else
      var a, b := VersionsSince(ours, base.value), VersionsSince(theirs, base.value);
      if a.None? || b.None? then map[]
      else Resolutions(rows, (ours.session, a.value), (theirs.session, b.value), conflicts)
  }

  method FieldLevelResolutions(log: OperationLogTable, supported: bool, base: Option<string>, ours: Side, theirs: Side,
                               conflicts: seq<Conflict>)
    returns (resolutions: map<string, Item>)
    ensures resolutions == FieldLevel(log.rows, supported, base, ours, theirs, conflicts)
    ensures !supported || base.None? ==> resolutions == map[]
    ensures base.Some? && (Unrelated(ours, base.value) || Unrelated(theirs, base.value)) ==> resolutions == map[]
  {
    if base.None? || !supported { return map[]; }
    var a, b := VersionsSince(ours, base.value), VersionsSince(theirs, base.value);
    if a.None? || b.None? { return map[]; }
    resolutions := map[];
    for i := 0 to |conflicts|
      invariant resolutions == Resolutions(log.rows, (ours.session, a.value), (theirs.session, b.value), conflicts[..i])
    {
      assert conflicts[..i + 1][..i] == conflicts[..i];
      var c := conflicts[i];
      if c.base.None? { continue; }
      var aOps := OpsLogged(log, ours.session, c.objectId, a.value);
      var bOps := OpsLogged(log, theirs.session, c.objectId, b.value);
      if aOps == [] && bOps == [] { continue; }
      if !AllFieldOps(aOps + bOps) { continue; }
      SplitFieldOps(aOps, bOps);
      if KeysOf(aOps) * KeysOf(bOps) != {} { continue; }
      var r := SynthesizeMerge(c.objectId, c.base, aOps + bOps);
      if r.Merged? {
        resolutions := resolutions[c.objectId := r.item];
      }
    }
    assert conflicts[..|conflicts|] == conflicts;
  }

  lemma SplitFieldOps(a: seq<FieldOp>, b: seq<FieldOp>)
    ensures AllFieldOps(a + b) <==> AllFieldOps(a) && AllFieldOps(b)
  {
    assert forall i :: 0 <= i < |b| ==> b[i] == (a + b)[|a| + i];
    assert forall i :: 0 <= i < |a| ==> a[i] == (a + b)[i];
  }

  method OpsLogged(log: OperationLogTable, session: string, objectId: string, versions: set<string>)
    returns (ops: seq<FieldOp>)
    ensures ops == SideOps(log.rows, session, objectId, versions)
  {
    var found := log.ListOperations(session, Some(objectId), None);
    ops := [];
    assert found[0..] == found;
    for i := 0 to |found|
      invariant ops + OpsIn(found[i..], versions) == OpsIn(found, versions)
    {
      OpsInStep(found, i, versions, ops);
      if found[i].version in versions {
        ops := ops + [found[i].op];
      }
    }
  }

  lemma OpsInStep(rows: seq<Row>, i: nat, versions: set<string>, before: seq<FieldOp>)
    requires i < |rows|
    ensures before + OpsIn(rows[i..], versions) ==
            (if rows[i].version in versions then before + [rows[i].op] else before) + OpsIn(rows[i + 1..], versions)
  {
    assert rows[i..][1..] == rows[i + 1..];
    if rows[i].version in versions {
      Reassociate(before, [rows[i].op], OpsIn(rows[i + 1..], versions));
    } else {
      assert OpsIn(rows[i..], versions) == OpsIn(rows[i + 1..], versions);
    }
  }

  // This conflict is about the object and can be resolved.
  predicate Resolvable(rows: seq<Row>, ours: (string, set<string>), theirs: (string, set<string>), c: Conflict,
                       id: string) {
    c.objectId == id && Resolution(c, SideOps(rows, ours.0, id, ours.1), SideOps(rows, theirs.0, id, theirs.1)).Some?
  }

  /** An object is resolved exactly when one of the conflicts about it can be, and then as one of them is. */
  lemma {:induction false} ResolvedIff(rows: seq<Row>, ours: (string, set<string>), theirs: (string, set<string>),
                                       conflicts: seq<Conflict>, id: string)
    ensures var r := Resolutions(rows, ours, theirs, conflicts);
            && (id in r <==> exists c :: c in conflicts && Resolvable(rows, ours, theirs, c, id))
            && (id in r ==> exists c :: c in conflicts && ResolvesTo(rows, ours, theirs, c, id, r[id]))
    decreases |conflicts|
  {
    if conflicts != [] {
      var n := |conflicts| - 1;
      var r, before := Resolutions(rows, ours, theirs, conflicts), Resolutions(rows, ours, theirs, conflicts[..n]);
      ResolvedIff(rows, ours, theirs, conflicts[..n], id);
      assert conflicts == conflicts[..n] + [conflicts[n]] && conflicts[n] in conflicts;
      assert id in r <==> id in before || Resolvable(rows, ours, theirs, conflicts[n], id);
      if Resolvable(rows, ours, theirs, conflicts[n], id) {
        assert ResolvesTo(rows, ours, theirs, conflicts[n], id, r[id]);
      } else if id in before {
        var c :| c in conflicts[..n] && ResolvesTo(rows, ours, theirs, c, id, before[id]);
        assert c in conflicts && r[id] == before[id];
      }
    }
  }

  predicate ResolvesTo(rows: seq<Row>, ours: (string, set<string>), theirs: (string, set<string>),
                       c: Conflict, id: string, item: Item) {
    var r := Resolution(c, SideOps(rows, ours.0, id, ours.1), SideOps(rows, theirs.0, id, theirs.1));
    c.objectId == id && r == Some(item)
  }

  // ---------------------------------------------------------------------
  // Which conflicts are resolved, read off the rows
  // ---------------------------------------------------------------------

  // The side logged this operation for the object in one of its versions.
  ghost predicate Logged(rows: seq<Row>, side: (string, set<string>), id: string, op: FieldOp) {
    exists row :: row in rows && row.session == side.0 && row.version in side.1 && row.op == op && op.objectId == id
  }

  lemma {:induction false} OpsInMembers(rows: seq<Row>, versions: set<string>, op: FieldOp)
    ensures op in OpsIn(rows, versions) <==> exists row :: row in rows && row.version in versions && row.op == op
    decreases |rows|
  {
    if rows != [] {
      OpsInMembers(rows[1..], versions, op);
      assert rows == [rows[0]] + rows[1..] && rows[0] in rows;
      if rows[0].version in versions && rows[0].op == op { assert op in OpsIn(rows, versions); }
    }
  }

  /** The query finds a row as often as it is stored if it passes the filters, and never otherwise. */
  lemma {:induction false} SelectedExactly(rows: seq<Row>, session: string, objectId: Option<string>,
                                           version: Option<string>, row: Row)
    ensures multiset(Selected(rows, session, objectId, version))[row] ==
            if row.session == session && (objectId.None? || row.op.objectId == objectId.value)
               && (version.None? || row.version == version.value)
            then multiset(rows)[row] else 0
    decreases |rows|
  {
    if rows != [] {
      SelectedExactly(rows[1..], session, objectId, version, row);
      assert rows == [rows[0]] + rows[1..];
    }
  }

  lemma {:induction false} SelectedConcatRows(a: seq<Row>, b: seq<Row>, session: string, objectId: Option<string>,
                                              version: Option<string>)
    ensures Selected(a + b, session, objectId, version) ==
            Selected(a, session, objectId, version) + Selected(b, session, objectId, version)
    decreases |a|
  {
    if a == [] {
      assert a + b == b;
    } else {
      SelectedConcatRows(a[1..], b, session, objectId, version);
      assert (a + b)[1..] == a[1..] + b;
      Reassociate([a[0]], Selected(a[1..], session, objectId, version), Selected(b, session, objectId, version));
    }
  }

  lemma SideOpsMembers(rows: seq<Row>, side: (string, set<string>), id: string, op: FieldOp)
    ensures op in SideOps(rows, side.0, id, side.1) <==> Logged(rows, side, id, op)
  {
    var found := Selected(rows, side.0, Some(id), None);
    OpsInMembers(found, side.1, op);
    if row :| row in found && row.version in side.1 && row.op == op {
      SelectedExactly(rows, side.0, Some(id), None, row);
      assert row in multiset(found) && row in multiset(rows);
    }
    if Logged(rows, side, id, op) {
      var row :| row in rows && row.session == side.0 && row.version in side.1 && row.op == op && op.objectId == id;
      SelectedExactly(rows, side.0, Some(id), None, row);
      assert row in multiset(rows) && row in multiset(found);
    }
  }

  ghost predicate LoggedAnything(rows: seq<Row>, side: (string, set<string>), id: string) {
    exists op :: Logged(rows, side, id, op)
  }

  ghost predicate LoggedFieldsOnly(rows: seq<Row>, side: (string, set<string>), id: string) {
    forall op :: Logged(rows, side, id, op) ==> op.SetField? || op.DeleteField?
  }

  ghost predicate LoggedKey(rows: seq<Row>, side: (string, set<string>), id: string, key: string) {
    exists op :: Logged(rows, side, id, op) && (op.SetField? || op.DeleteField?) && op.key == key
  }

  lemma SideFacts(rows: seq<Row>, side: (string, set<string>), id: string)
    ensures var ops := SideOps(rows, side.0, id, side.1);
            && (ops != [] <==> LoggedAnything(rows, side, id))
            && (AllFieldOps(ops) <==> LoggedFieldsOnly(rows, side, id))
            && (forall i :: 0 <= i < |ops| ==> ops[i].objectId == id)
            && (AllFieldOps(ops) ==> forall key :: key in KeysOf(ops) <==> LoggedKey(rows, side, id, key))
  {
    var ops := SideOps(rows, side.0, id, side.1);
    forall op ensures op in ops <==> Logged(rows, side, id, op) { SideOpsMembers(rows, side, id, op); }
    if ops != [] { assert ops[0] in ops; }
    forall i | 0 <= i < |ops| ensures Logged(rows, side, id, ops[i]) { assert ops[i] in ops; }
    if AllFieldOps(ops) {
      forall key ensures key in KeysOf(ops) <==> LoggedKey(rows, side, id, key) {
        if LoggedKey(rows, side, id, key) {
          var op :| Logged(rows, side, id, op) && (op.SetField? || op.DeleteField?) && op.key == key;
          assert op in ops;
        }
        if key in KeysOf(ops) {
          var i :| 0 <= i < |ops| && ops[i].key == key;
          assert IsFieldOp(ops[i]) && Logged(rows, side, id, ops[i]);
        }
      }
    }
  }

  lemma ResolvableIff(rows: seq<Row>, ours: (string, set<string>), theirs: (string, set<string>), c: Conflict,
                      id: string)
    ensures Resolvable(rows, ours, theirs, c, id) <==>
            && c.objectId == id && c.base.Some? && c.base.value.Object?
            && (LoggedAnything(rows, ours, id) || LoggedAnything(rows, theirs, id))
            && LoggedFieldsOnly(rows, ours, id) && LoggedFieldsOnly(rows, theirs, id)
            && (forall key :: !(LoggedKey(rows, ours, id, key) && LoggedKey(rows, theirs, id, key)))
  {
    var a, b := SideOps(rows, ours.0, id, ours.1), SideOps(rows, theirs.0, id, theirs.1);
    SideFacts(rows, ours, id);
    SideFacts(rows, theirs, id);
    SplitFieldOps(a, b);
    SynthesizesIff(id, c.base, a + b);
    if AllFieldOps(a) && AllFieldOps(b) {
      assert KeysOf(a) * KeysOf(b) == {} <==> forall key :: !(key in KeysOf(a) && key in KeysOf(b)) by {
        if key :| key in KeysOf(a) && key in KeysOf(b) { assert key in KeysOf(a) * KeysOf(b); }
      }
      assert forall i :: 0 <= i < |a + b| ==> IsFieldOp((a + b)[i]);
    }
  }

  /**
   For any two histories and any rows: an object is resolved exactly when some conflict about it has a plain base
   object, a side logged something for it, every operation logged for it on either side sets or deletes a field, and no
   key was touched on both sides.
   */
  lemma ResolvedExactly(rows: seq<Row>, ours: (string, set<string>), theirs: (string, set<string>),
                        conflicts: seq<Conflict>, id: string)
    ensures id in Resolutions(rows, ours, theirs, conflicts) <==>
            && (exists c :: c in conflicts && c.objectId == id && c.base.Some? && c.base.value.Object?)
            && (LoggedAnything(rows, ours, id) || LoggedAnything(rows, theirs, id))
            && LoggedFieldsOnly(rows, ours, id) && LoggedFieldsOnly(rows, theirs, id)
            && (forall key :: !(LoggedKey(rows, ours, id, key) && LoggedKey(rows, theirs, id, key)))
  {
    ResolvedIff(rows, ours, theirs, conflicts, id);
    forall c ensures Resolvable(rows, ours, theirs, c, id) <==>
            && c.objectId == id && c.base.Some? && c.base.value.Object?
            && (LoggedAnything(rows, ours, id) || LoggedAnything(rows, theirs, id))
            && LoggedFieldsOnly(rows, ours, id) && LoggedFieldsOnly(rows, theirs, id)
            && (forall key :: !(LoggedKey(rows, ours, id, key) && LoggedKey(rows, theirs, id, key)))
    {
      ResolvableIff(rows, ours, theirs, c, id);
    }
  }

  // ---------------------------------------------------------------------
  // Logs of whole runs
  // ---------------------------------------------------------------------

  // A commit of some session: its version and the states before and after.
  datatype Commit = Commit(session: string, version: string, before: KS, after: KS)

  // The table after these commits, of any sessions in any interleaving.
  ghost function LogOf(sorted: Walk, commits: seq<Commit>): seq<Row>
    requires WalkLaw(sorted)
    decreases |commits|
  {
    if commits == [] then []
    else
      var c := commits[0];
      RowsFor(c.session, c.version, FieldDiff(sorted, c.before, c.after)) + LogOf(sorted, commits[1..])
  }

  function CommitsOf(commits: seq<Commit>, session: string, versions: set<string>): seq<Commit>
    decreases |commits|
  {
    if commits == [] then []
    else
      var rest := CommitsOf(commits[1..], session, versions);
      if commits[0].session == session && commits[0].version in versions then [commits[0]] + rest else rest
  }

  // The commits take the branch from state to state.
  ghost predicate IsBranch(commits: seq<Commit>, states: seq<KS>) {
    && |states| == |commits| + 1
    && forall i :: 0 <= i < |commits| ==> commits[i].before == states[i] && commits[i].after == states[i + 1]
  }

  lemma {:induction false} SelectedConcat(a: seq<Row>, b: seq<Row>, session: string, id: string, versions: set<string>)
    ensures SideOps(a + b, session, id, versions) ==
              SideOps(a, session, id, versions) + SideOps(b, session, id, versions)
    decreases |a|
  {
    if a == [] {
      assert a + b == b;
    } else {
      SelectedConcat(a[1..], b, session, id, versions);
      assert (a + b)[1..] == a[1..] + b;
      SideOpsStep(a, session, id, versions);
      SideOpsStep(a + b, session, id, versions);
      var head := if Selects(a[0], session, Some(id), None) && a[0].version in versions then [a[0].op] else [];
      Reassociate(head, SideOps(a[1..], session, id, versions), SideOps(b, session, id, versions));
    }
  }

  lemma SideOpsStep(rows: seq<Row>, session: string, id: string, versions: set<string>)
    requires rows != []
    ensures SideOps(rows, session, id, versions) ==
            (if Selects(rows[0], session, Some(id), None) && rows[0].version in versions then [rows[0].op] else [])
            + SideOps(rows[1..], session, id, versions)
  {
    if Selects(rows[0], session, Some(id), None) {
      var rest := Selected(rows[1..], session, Some(id), None);
      assert ([rows[0]] + rest)[1..] == rest;
    } else {
      assert Selected(rows, session, Some(id), None) == Selected(rows[1..], session, Some(id), None);
    }
  }

  // Of one commit's rows, those for the object, in order; none if the commit is another session's or not in the set.
  lemma {:induction false} SideOpsOfCommit(session: string, version: string, ops: seq<FieldOp>, wanted: string,
                                           id: string, versions: set<string>)
    ensures SideOps(RowsFor(session, version, ops), wanted, id, versions) ==
            if session == wanted && version in versions then ThawOps(OpsOf(ops, id)) else []
    decreases |ops|
  {
    if ops != [] {
      var rows := RowsFor(session, version, ops);
      SideOpsOfCommit(session, version, ops[1..], wanted, id, versions);
      assert rows[1..] == RowsFor(session, version, ops[1..]);
      SideOpsStep(rows, wanted, id, versions);
      if session == wanted && version in versions {
        ThawedOpsStep(ops, id);
      } else {
        assert !(Selects(rows[0], wanted, Some(id), None) && rows[0].version in versions);
      }
    }
  }

  lemma ThawConcat(a: seq<FieldOp>, b: seq<FieldOp>)
    ensures ThawOps(a + b) == ThawOps(a) + ThawOps(b)
  {
  }

  lemma ThawedOpsStep(ops: seq<FieldOp>, id: string)
    requires ops != []
    ensures ThawOps(OpsOf(ops, id)) ==
            (if ops[0].objectId == id then [ThawOp(ops[0])] else []) + ThawOps(OpsOf(ops[1..], id))
  {
    ThawConcat(if ops[0].objectId == id then [ops[0]] else [], OpsOf(ops[1..], id));
    assert ThawOps([ops[0]]) == [ThawOp(ops[0])];
  }

  lemma {:induction false} SideOpsOfLog(sorted: Walk, commits: seq<Commit>, session: string, id: string,
                                        versions: set<string>)
    requires WalkLaw(sorted)
    ensures SideOps(LogOf(sorted, commits), session, id, versions) ==
            SideOps(LogOf(sorted, CommitsOf(commits, session, versions)), session, id, versions)
    decreases |commits|
  {
    if commits != [] {
      var c, rest := commits[0], CommitsOf(commits[1..], session, versions);
      var rows := RowsFor(c.session, c.version, FieldDiff(sorted, c.before, c.after));
      SideOpsOfLog(sorted, commits[1..], session, id, versions);
      SelectedConcat(rows, LogOf(sorted, commits[1..]), session, id, versions);
      SideOpsOfCommit(c.session, c.version, FieldDiff(sorted, c.before, c.after), session, id, versions);
      if c.session == session && c.version in versions {
        assert ([c] + rest)[1..] == rest && CommitsOf(commits, session, versions) == [c] + rest;
        assert LogOf(sorted, [c] + rest) == rows + LogOf(sorted, rest);
        SelectedConcat(rows, LogOf(sorted, rest), session, id, versions);
      } else {
        assert CommitsOf(commits, session, versions) == rest;
      }
    }
  }

  lemma {:induction false} BranchOps(sorted: Walk, commits: seq<Commit>, states: seq<KS>, session: string, id: string,
                                     versions: set<string>)
    requires WalkLaw(sorted) && IsBranch(commits, states)
    requires forall i :: 0 <= i < |commits| ==> commits[i].session == session && commits[i].version in versions
    ensures SideOps(LogOf(sorted, commits), session, id, versions) == ThawOps(BranchLog(sorted, states, id))
    decreases |commits|
  {
    if commits != [] {
      var c, rest := commits[0], commits[1..];
      var diff := FieldDiff(sorted, c.before, c.after);
      TailIsBranch(commits, states);
      assert forall i :: 0 <= i < |rest| ==> rest[i] == commits[i + 1];
      BranchOps(sorted, rest, states[1..], session, id, versions);
      SelectedConcat(RowsFor(c.session, c.version, diff), LogOf(sorted, rest), session, id, versions);
      SideOpsOfCommit(c.session, c.version, diff, session, id, versions);
      ThawConcat(OpsOf(diff, id), BranchLog(sorted, states[1..], id));
      assert BranchLog(sorted, states, id) == OpsOf(diff, id) + BranchLog(sorted, states[1..], id);
    }
  }

  lemma TailIsBranch(commits: seq<Commit>, states: seq<KS>)
    requires IsBranch(commits, states) && commits != []
    ensures IsBranch(commits[1..], states[1..])
    ensures commits[0].before == states[0] && commits[0].after == states[1]
  {
    var rest, tail := commits[1..], states[1..];
    forall i | 0 <= i < |rest| ensures rest[i].before == tail[i] && rest[i].after == tail[i + 1] {
      assert rest[i] == commits[i + 1];
    }
  }

  lemma {:induction false} ChosenCommitsMatch(commits: seq<Commit>, session: string, versions: set<string>)
    ensures forall i :: 0 <= i < |CommitsOf(commits, session, versions)| ==>
              && CommitsOf(commits, session, versions)[i].session == session
              && CommitsOf(commits, session, versions)[i].version in versions
    decreases |commits|
  {
    if commits != [] { ChosenCommitsMatch(commits[1..], session, versions); }
  }

  /**
   Every commit since the base is in the log, so what the fast path reads for a side is everything that side's
   commits did to the object, whatever other sessions logged in between.
   */
  lemma SideOpsAreBranchLog(sorted: Walk, commits: seq<Commit>, states: seq<KS>, session: string, id: string,
                            versions: set<string>)
    requires WalkLaw(sorted) && IsBranch(CommitsOf(commits, session, versions), states)
    ensures SideOps(LogOf(sorted, commits), session, id, versions) == ThawOps(BranchLog(sorted, states, id))
  {
    SideOpsOfLog(sorted, commits, session, id, versions);
    ChosenCommitsMatch(commits, session, versions);
    BranchOps(sorted, CommitsOf(commits, session, versions), states, session, id, versions);
  }

  lemma KeysAreTouched(ops: seq<FieldOp>, key: string)
    requires AllFieldOps(ThawOps(ops))
    ensures key in KeysOf(ThawOps(ops)) <==> Touches(ops, key)
  {
    if Touches(ops, key) {
      var i :| 0 <= i < |ops| && IsFieldOp(ops[i]) && ops[i].key == key;
      assert ThawOps(ops)[i].key == key;
    }
    if key in KeysOf(ThawOps(ops)) {
      var i :| 0 <= i < |ops| && ThawOps(ops)[i].key == key;
      assert IsFieldOp(ThawOps(ops)[i]) && IsFieldOp(ops[i]) && ops[i].key == key;
    }
  }

  /**
   The fast path end to end. Two branches of a base, each with any number of commits, all logged, the object plain
   throughout: its conflict is resolved exactly when some commit touched it and no key was touched by both
   branches, and then the resolution has each branch's final value on its own keys and the base value elsewhere.
   */
  lemma FastPathMergesBranches(sorted: Walk, commits: seq<Commit>, ours: seq<KS>, theirs: seq<KS>,
                               a: (string, set<string>), b: (string, set<string>), id: string)
    requires WalkLaw(sorted)
    requires IsBranch(CommitsOf(commits, a.0, a.1), ours) && IsBranch(CommitsOf(commits, b.0, b.1), theirs)
    requires PlainThroughout(ours, id) && PlainThroughout(theirs, id) && ours[0] == theirs[0]
    ensures var rows := LogOf(sorted, commits);
            var aLog, bLog := BranchLog(sorted, ours, id), BranchLog(sorted, theirs, id);
            var c := Conflict(id, Some(ours[0][id]));
            var r := Resolution(c, SideOps(rows, a.0, id, a.1), SideOps(rows, b.0, id, b.1));
            && (r.Some? <==> (aLog != [] || bLog != []) && DisjointKeys(aLog, bLog))
            && (r.Some? ==> r.value.Object?)
            && (r.Some? ==> (forall key ::
                  MergesAt(r.value.obj.structure, ours[0][id].obj.structure, ours, theirs, id, aLog, bLog, key)))
  {
    var aLog, bLog := BranchLog(sorted, ours, id), BranchLog(sorted, theirs, id);
    SideOpsAreBranchLog(sorted, commits, ours, a.0, id, a.1);
    SideOpsAreBranchLog(sorted, commits, theirs, b.0, id, b.1);
    CleanBranchesAreFieldOps(sorted, ours, id);
    CleanBranchesAreFieldOps(sorted, theirs, id);
    SplitFieldOps(ThawOps(aLog), ThawOps(bLog));
    ThawConcat(aLog, bLog);
    DisjointIff(aLog, bLog);
    if DisjointKeys(aLog, bLog) {
      DisjointBranchesMerge(sorted, ours, theirs, id);
    }
  }

  lemma DisjointIff(a: seq<FieldOp>, b: seq<FieldOp>)
    requires AllFieldOps(ThawOps(a)) && AllFieldOps(ThawOps(b))
    ensures KeysOf(ThawOps(a)) * KeysOf(ThawOps(b)) == {} <==> DisjointKeys(a, b)
  {
    forall key
      ensures key in KeysOf(ThawOps(a)) <==> Touches(a, key)
      ensures key in KeysOf(ThawOps(b)) <==> Touches(b, key)
    {
      KeysAreTouched(a, key);
      KeysAreTouched(b, key);
    }
    if key :| Touches(a, key) && Touches(b, key) {
      assert key in KeysOf(ThawOps(a)) * KeysOf(ThawOps(b));
    }
  }

  lemma CleanBranchesAreFieldOps(sorted: Walk, states: seq<KS>, id: string)
    requires WalkLaw(sorted) && PlainThroughout(states, id)
    ensures AllFieldOps(ThawOps(BranchLog(sorted, states, id)))
  {
    BranchLogIsClean(sorted, states, id);
    NoRefusalMeansFieldOps(id, BranchLog(sorted, states, id));
  }

  lemma {:induction false} NoRefusalMeansFieldOps(id: string, ops: seq<FieldOp>)
    requires Refusal(id, ops).None?
    ensures AllFieldOps(ThawOps(ops))
    decreases |ops|
  {
    if ops != [] {
      NoRefusalMeansFieldOps(id, ops[1..]);
      assert forall i :: 0 < i < |ops| ==> ThawOps(ops)[i] == ThawOps(ops[1..])[i - 1];
    }
  }

  // ---------------------------------------------------------------------
  // Which commits a session's history selects
  // ---------------------------------------------------------------------

  // All commits of a session, oldest first.
  function SessionCommits(commits: seq<Commit>, session: string): seq<Commit>
    decreases |commits|
  {
    if commits == [] then []
    else (if commits[0].session == session then [commits[0]] else []) + SessionCommits(commits[1..], session)
  }

  function VersionsOf(commits: seq<Commit>): seq<string> {
    seq(|commits|, i requires 0 <= i < |commits| => commits[i].version)
  }

  // Where the versions after the base begin in the side's history; None if the base is not in its past.
  function StartAfter(side: Side, base: string): Option<nat> {
    if base in side.versions then Some(IndexOf(side.versions, base) + 1)
    else if side.parent == Some(base) then Some(0)
    else None
  }

  // The side's history is its own commits, and `states` are its states from the base on.
  ghost predicate SideFits(commits: seq<Commit>, side: Side, base: string, states: seq<KS>) {
    var own := SessionCommits(commits, side.session);
    var start := StartAfter(side, base);
    && side.versions == VersionsOf(own) && NoRepeats(side.versions)
    && start.Some? && IsBranch(own[start.value..], states)
  }

  lemma {:induction false} ChosenFromOwn(commits: seq<Commit>, session: string, versions: set<string>)
    ensures CommitsOf(commits, session, versions) == CommitsOf(SessionCommits(commits, session), session, versions)
    decreases |commits|
  {
    if commits != [] {
      var c, rest := commits[0], SessionCommits(commits[1..], session);
      ChosenFromOwn(commits[1..], session, versions);
      if c.session == session {
        assert ([c] + rest)[1..] == rest && SessionCommits(commits, session) == [c] + rest;
      } else {
        assert SessionCommits(commits, session) == rest;
        assert CommitsOf(commits, session, versions) == CommitsOf(commits[1..], session, versions);
      }
    }
  }

  lemma {:induction false} OwnCommitsAreOwn(commits: seq<Commit>, session: string)
    ensures forall c :: c in SessionCommits(commits, session) ==> c.session == session
    decreases |commits|
  {
    if commits != [] { OwnCommitsAreOwn(commits[1..], session); }
  }

  lemma {:induction false} AllChosen(commits: seq<Commit>, session: string, versions: set<string>)
    requires forall c :: c in commits ==> c.session == session && c.version in versions
    ensures CommitsOf(commits, session, versions) == commits
    decreases |commits|
  {
    if commits != [] {
      AllChosen(commits[1..], session, versions);
      assert commits == [commits[0]] + commits[1..];
    }
  }

  // With distinct versions, the versions from an index on choose the commits from that index on.
  lemma {:induction false} SuffixIsChosen(own: seq<Commit>, session: string, start: nat)
    requires start <= |own| && NoRepeats(VersionsOf(own)) && forall c :: c in own ==> c.session == session
    ensures CommitsOf(own, session, AsSet(VersionsOf(own)[start..])) == own[start..]
    decreases |own|
  {
    var chosen := AsSet(VersionsOf(own)[start..]);
    if start == 0 {
      assert forall i :: 0 <= i < |own| ==> VersionsOf(own)[i] == own[i].version;
      forall c | c in own ensures c.version in chosen {
        var i :| 0 <= i < |own| && own[i] == c;
        assert VersionsOf(own)[0..][i] == c.version;
      }
      AllChosen(own, session, chosen);
    } else {
      var rest := own[1..];
      assert VersionsOf(rest) == VersionsOf(own)[1..];
      assert VersionsOf(rest)[start - 1..] == VersionsOf(own)[start..];
      assert NoRepeats(VersionsOf(rest)) by { TailHasNoRepeats(VersionsOf(own)); }
      SuffixIsChosen(rest, session, start - 1);
      FirstIsNotInSuffix(VersionsOf(own), start);
      assert own[0].version == VersionsOf(own)[0];
      assert CommitsOf(own, session, chosen) == CommitsOf(rest, session, chosen);
    }
  }

  lemma TailHasNoRepeats(xs: seq<string>)
    requires NoRepeats(xs) && xs != []
    ensures NoRepeats(xs[1..])
  {
    assert forall i :: 0 <= i < |xs| - 1 ==> xs[1..][i] == xs[i + 1];
  }

  lemma FirstIsNotInSuffix(xs: seq<string>, start: nat)
    requires NoRepeats(xs) && 0 < start <= |xs|
    ensures xs[0] !in AsSet(xs[start..])
  {
    assert forall i :: start <= i < |xs| ==> xs[i] != xs[0];
  }

  /** The version ids after the base choose from the log exactly the commits of the branch since the base. */
  lemma HistorySelectsBranch(commits: seq<Commit>, side: Side, base: string, states: seq<KS>)
    requires SideFits(commits, side, base, states)
    ensures VersionsSince(side, base).Some?
    ensures IsBranch(CommitsOf(commits, side.session, VersionsSince(side, base).value), states)
  {
    var own := SessionCommits(commits, side.session);
    var start := StartAfter(side, base).value;
    OwnCommitsAreOwn(commits, side.session);
    ChosenFromOwn(commits, side.session, VersionsSince(side, base).value);
    assert side.versions[0..] == side.versions;
    SuffixIsChosen(own, side.session, start);
  }

  // When all conflicts about an identity name one base, that one conflict decides.
  lemma SameBaseDecides(rows: seq<Row>, ours: (string, set<string>), theirs: (string, set<string>),
                        conflicts: seq<Conflict>, id: string, base: Option<Item>)
    requires Conflict(id, base) in conflicts
    requires forall c :: c in conflicts && c.objectId == id ==> c.base == base
    ensures Resolvable(rows, ours, theirs, Conflict(id, base), id) <==>
              exists c :: c in conflicts && Resolvable(rows, ours, theirs, c, id)
  {
  }

  /**
   From the two histories on. Both sides logged every commit since the base, the object is plain throughout, and
   the merge reports a conflict about it: the fast path resolves it exactly when some commit touched it and no key
   was touched on both sides, and then to each branch's final value on its own keys and the base value elsewhere.
   */
  lemma HistoriesMerge(sorted: Walk, commits: seq<Commit>, base: string, ours: Side, theirs: Side,
                       a: seq<KS>, b: seq<KS>, conflicts: seq<Conflict>, id: string)
    requires WalkLaw(sorted) && SideFits(commits, ours, base, a) && SideFits(commits, theirs, base, b)
    requires PlainThroughout(a, id) && PlainThroughout(b, id) && a[0] == b[0]
    requires Conflict(id, Some(a[0][id])) in conflicts
    requires forall c :: c in conflicts && c.objectId == id ==> c.base == Some(a[0][id])
    ensures var aLog, bLog := BranchLog(sorted, a, id), BranchLog(sorted, b, id);
            var r := FieldLevel(LogOf(sorted, commits), true, Some(base), ours, theirs, conflicts);
            && (id in r <==> (aLog != [] || bLog != []) && DisjointKeys(aLog, bLog))
            && (id in r ==> r[id].Object?)
            && (id in r ==> (forall key ::
                  MergesAt(r[id].obj.structure, a[0][id].obj.structure, a, b, id, aLog, bLog, key)))
  {
    HistorySelectsBranch(commits, ours, base, a);
    HistorySelectsBranch(commits, theirs, base, b);
    var ourSide := (ours.session, VersionsSince(ours, base).value);
    var theirSide := (theirs.session, VersionsSince(theirs, base).value);
    var rows := LogOf(sorted, commits);
    ResolvedIff(rows, ourSide, theirSide, conflicts, id);
    FastPathMergesBranches(sorted, commits, a, b, ourSide, theirSide, id);
    SameBaseDecides(rows, ourSide, theirSide, conflicts, id, Some(a[0][id]));
  }

  // ---------------------------------------------------------------------
  // Identities that a branch replaced
  // ---------------------------------------------------------------------

  // The commit removed the identity, added it, or changed it with a relation on either side.
  predicate Replaces(c: Commit, id: string) {
    || (id in c.before && id !in c.after)
    || (id !in c.before && id in c.after)
    || (id in c.before && id in c.after && (c.before[id].Relation? || c.after[id].Relation?)
        && !StructuresEqual(Fields(c.before[id]), Fields(c.after[id])))
  }

  lemma {:induction false} OpsOfAreIn(ops: seq<FieldOp>, id: string, op: FieldOp)
    requires op in OpsOf(ops, id)
    ensures op in ops && op.objectId == id
    decreases |ops|
  {
    if ops[0].objectId != id || op != ops[0] { OpsOfAreIn(ops[1..], id, op); }
  }

  lemma {:induction false} CommitRowsAreLogged(sorted: Walk, commits: seq<Commit>, c: Commit, op: FieldOp)
    requires WalkLaw(sorted) && c in commits && op in FieldDiff(sorted, c.before, c.after)
    ensures Row(c.session, c.version, ThawOp(op)) in LogOf(sorted, commits)
    decreases |commits|
  {
    if commits[0] == c {
      var ops := FieldDiff(sorted, c.before, c.after);
      var i :| 0 <= i < |ops| && ops[i] == op;
      assert RowsFor(c.session, c.version, ops)[i] == Row(c.session, c.version, ThawOp(op));
    } else {
      CommitRowsAreLogged(sorted, commits[1..], c, op);
    }
  }

  lemma ReplacingIsLogged(sorted: Walk, commits: seq<Commit>, side: (string, set<string>), id: string, c: Commit)
    requires WalkLaw(sorted) && c in commits && c.session == side.0 && c.version in side.1 && Replaces(c, id)
    ensures !LoggedFieldsOnly(LogOf(sorted, commits), side, id)
  {
    DiffOfIdentity(sorted, c.before, c.after, id);
    var ops := OpsOf(FieldDiff(sorted, c.before, c.after), id);
    var op := ops[0];
    assert op in ops && !IsFieldOp(op);
    OpsOfAreIn(FieldDiff(sorted, c.before, c.after), id, op);
    CommitRowsAreLogged(sorted, commits, c, op);
    assert Logged(LogOf(sorted, commits), side, id, ThawOp(op));
  }

  /**
   An identity that either branch removed, added or replaced since the base, or changed as a relation, is never
   resolved by itself: the conflict stays with the caller, whatever the other branch did.
   */
  lemma ReplacedIsNeverResolved(sorted: Walk, commits: seq<Commit>, supported: bool, base: Option<string>, ours: Side,
                                theirs: Side, conflicts: seq<Conflict>, id: string, c: Commit, side: Side)
    requires WalkLaw(sorted) && c in commits && (side == ours || side == theirs) && c.session == side.session
    requires base.Some? && VersionsSince(side, base.value).Some? && c.version in VersionsSince(side, base.value).value
    requires Replaces(c, id)
    ensures id !in FieldLevel(LogOf(sorted, commits), supported, base, ours, theirs, conflicts)
  {
    var a, b := VersionsSince(ours, base.value), VersionsSince(theirs, base.value);
    if supported && a.Some? && b.Some? {
      ReplacingIsLogged(sorted, commits, (side.session, VersionsSince(side, base.value).value), id, c);
      ResolvedExactly(LogOf(sorted, commits), (ours.session, a.value), (theirs.session, b.value), conflicts, id);
    }
  }
}
