/**
 Knowledge structures and the operators that change them. A structure maps an identity to an object or a
 relation; both kinds live in one id space. `Evolve` applies a patch operator by operator and fails on the
 first operator that does not fit, as a live edit does.
 */
module Knowledge {
  import opened Basics

  // Structure values as they occur in memory: a frozen value uses Proxy and Tuple for its containers,
  // a plain one Dict and List.
  datatype Value =
    | Null
    | Bool(b: bool)
    | Int(n: int)
    | Str(s: string)
    | Dict(entries: map<string, Value>)
    | Proxy(entries: map<string, Value>)
    | List(items: seq<Value>)
    | Tuple(items: seq<Value>)

  type Structure = map<string, Value>

  datatype ObjectData = ObjectData(kind: string, name: string, structure: Structure)
  datatype RelationData = RelationData(kind: string, name: string, participants: seq<string>, relationType: string,
                                       structure: Structure)
  datatype Item = Object(obj: ObjectData) | Relation(rel: RelationData)

  type KS = map<string, Item>

  lemma SameEntriesIff(a: Structure, b: Structure)
    ensures a == b <==> a.Keys == b.Keys && forall k :: k in a ==> a[k] == b[k]
  {
  }

  datatype Operator =
    | AddObject(id: string, obj: ObjectData)
    | AddRelation(id: string, rel: RelationData)
    | RemoveObject(id: string)
    | RemoveRelation(id: string)

  type Patch = seq<Operator>

  function Apply(ks: KS, op: Operator): Option<KS> {
    match op
    case AddObject(id, obj) => if id in ks then None else Some(ks[id := Object(obj)])
    case AddRelation(id, rel) => if id in ks then None else Some(ks[id := Relation(rel)])
    case RemoveObject(id) => if id in ks && ks[id].Object? then Some(ks - {id}) else None
    case RemoveRelation(id) => if id in ks && ks[id].Relation? then Some(ks - {id}) else None
  }

  function Evolve(ks: KS, patch: Patch): Option<KS>
    decreases |patch|
  {
    if patch == [] then Some(ks)
    else
      var next := Apply(ks, patch[0]);
      if next.None? then None else Evolve(next.value, patch[1..])
  }

  // What the operators so far make of one id: the last one about it decides.
  function ItemAfter(ks: KS, patch: Patch, id: string): Option<Item>
    decreases |patch|
  {
    if patch == [] then (if id in ks then Some(ks[id]) else None)
    else
      var n := |patch| - 1;
      if patch[n].id != id then ItemAfter(ks, patch[..n], id)
      else match patch[n]
        case AddObject(_, obj) => Some(Object(obj))
        case AddRelation(_, rel) => Some(Relation(rel))
        case _ => None
  }

  // An operator adds what is not there, and removes what is there in its own kind.
  predicate Fits(op: Operator, present: Option<Item>) {
    match op
    case AddObject(_, _) => present.None?
    case AddRelation(_, _) => present.None?
    case RemoveObject(_) => present.Some? && present.value.Object?
    case RemoveRelation(_) => present.Some? && present.value.Relation?
  }

  predicate FitsAt(ks: KS, patch: Patch, k: int)
    requires 0 <= k < |patch|
  {
    Fits(patch[k], ItemAfter(ks, patch[..k], patch[k].id))
  }

  predicate FitsThroughout(ks: KS, patch: Patch) {
    forall k :: 0 <= k < |patch| ==> FitsAt(ks, patch, k)
  }

  lemma {:induction false} EvolveSplits(ks: KS, patch: Patch)
    requires patch != []
    ensures var n := |patch| - 1;
            var before := Evolve(ks, patch[..n]);
            Evolve(ks, patch) == if before.None? then None else Apply(before.value, patch[n])
    decreases |patch|
  {
    var n := |patch| - 1;
    if n > 0 {
      assert patch[..n][1..] == patch[1..][..n - 1];
      var next := Apply(ks, patch[0]);
      if next.Some? { EvolveSplits(next.value, patch[1..]); }
    }
  }

  /** A patch applies exactly when every operator fits what the earlier ones left under its id. */
  lemma {:induction false} EvolveSucceedsIff(ks: KS, patch: Patch)
    ensures Evolve(ks, patch).Some? <==> FitsThroughout(ks, patch)
    ensures Evolve(ks, patch).Some? ==> forall id ::
              ItemAfter(ks, patch, id) ==
              if id in Evolve(ks, patch).value then Some(Evolve(ks, patch).value[id]) else None
    decreases |patch|
  {
    if patch != [] {
      var n := |patch| - 1;
      EvolveSplits(ks, patch);
      EvolveSucceedsIff(ks, patch[..n]);
      FitsPrefix(ks, patch);
    }
  }

  lemma FitsPrefix(ks: KS, patch: Patch)
    requires patch != []
    ensures var n := |patch| - 1;
            FitsThroughout(ks, patch) <==> FitsThroughout(ks, patch[..n]) && FitsAt(ks, patch, n)
  {
    var n := |patch| - 1;
    forall k | 0 <= k < n ensures FitsAt(ks, patch, k) <==> FitsAt(ks, patch[..n], k) {
      assert patch[..n][..k] == patch[..k] && patch[..n][k] == patch[k];
    }
  }

  // ---------------------------------------------------------------------
  // De-duplication before a replay
  // ---------------------------------------------------------------------

  // What the filter believes present after an operator it lets through.
  function Noted(existing: set<string>, op: Operator): set<string> {
    match op
    case RemoveObject(id) => existing - {id}
    case AddObject(id, _) => existing + {id}
    case _ => existing
  }

  // `existing` starts as all ids of the state; only object operators move it.
  function DedupeFrom(existing: set<string>, patch: Patch): Patch
    decreases |patch|
  {
    if patch == [] then []
    else
      var op, rest := patch[0], patch[1..];
      if op.AddObject? && op.id in existing then DedupeFrom(existing, rest)
      else [op] + DedupeFrom(Noted(existing, op), rest)
  }

  function Dedupe(ks: KS, patch: Patch): Patch {
    DedupeFrom(ks.Keys, patch)
  }

  predicate HasAddObject(patch: Patch) {
    exists i :: 0 <= i < |patch| && patch[i].AddObject?
  }

  lemma {:induction false} NothingToDedupe(existing: set<string>, patch: Patch)
    requires !HasAddObject(patch)
    ensures DedupeFrom(existing, patch) == patch
    decreases |patch|
  {
    if patch != [] {
      assert !patch[0].AddObject?;
      assert !HasAddObject(patch[1..]);
      NothingToDedupe(Noted(existing, patch[0]), patch[1..]);
    }
  }

  /** The replay filter's early exit and its loop agree with the one-line definition. */
  method DedupeReplayedAddObjects(ks: KS, patch: Patch) returns (filtered: Patch)
    ensures filtered == Dedupe(ks, patch)
  {
    if !HasAddObject(patch) {
      NothingToDedupe(ks.Keys, patch);
      return patch;
    }
    var existing := ks.Keys;
    filtered := [];
    for i := 0 to |patch|
      invariant filtered + DedupeFrom(existing, patch[i..]) == Dedupe(ks, patch)
    {
      var op := patch[i];
      assert patch[i..][1..] == patch[i + 1..];
      if op.AddObject? && op.id in existing {
        // Logged as a no-op or as a conflict, and dropped.
      } else {
        existing := Noted(existing, op);
        Reassociate(filtered, [op], DedupeFrom(existing, patch[i + 1..]));
        filtered := filtered + [op];
      }
    }
  }

  /** De-duplicating again changes nothing, for any state and patch. */
  lemma {:induction false} DedupeIdempotent(existing: set<string>, patch: Patch)
    ensures DedupeFrom(existing, DedupeFrom(existing, patch)) == DedupeFrom(existing, patch)
    decreases |patch|
  {
    if patch != [] {
      var op, rest := patch[0], patch[1..];
      var next := Noted(existing, op);
      if op.AddObject? && op.id in existing {
        DedupeIdempotent(existing, rest);
      } else {
        DedupeIdempotent(next, rest);
        assert ([op] + DedupeFrom(next, rest))[1..] == DedupeFrom(next, rest);
      }
    }
  }

  // The ids present after a patch, whether or not its operators would be accepted.
  function PresentAfter(ids: set<string>, patch: Patch): set<string>
    decreases |patch|
  {
    if patch == [] then ids
    else PresentAfter(PresentNext(ids, patch[0]), patch[1..])
  }

  // Somewhere the de-duplicated patch adds an object id that is present at that point.
  ghost predicate Collides(present: set<string>, existing: set<string>, patch: Patch) {
    exists k :: CollidesAt(present, DedupeFrom(existing, patch), k)
  }

  predicate CollidesAt(present: set<string>, d: Patch, k: int) {
    0 <= k < |d| && d[k].AddObject? && d[k].id in PresentAfter(present, d[..k])
  }

  // What the filter believes present after a patch; a dropped add changes nothing about that.
  function Believed(existing: set<string>, patch: Patch): set<string>
    decreases |patch|
  {
    if patch == [] then existing else Believed(Noted(existing, patch[0]), patch[1..])
  }

  predicate Untouched(patch: Patch, from: int, to: int, id: string)
    requires 0 <= from && to <= |patch|
  {
    forall i :: from <= i < to ==> patch[i].id != id
  }

  // A relation is added under an id that the filter does not believe present, and the next operator about that
  // id adds an object.
  predicate SlipsAt(existing: set<string>, patch: Patch, i: int, j: int) {
    && 0 <= i < j < |patch| && patch[i].AddRelation? && patch[j].AddObject? && patch[i].id == patch[j].id
    && patch[i].id !in Believed(existing, patch[..i]) && Untouched(patch, i + 1, j, patch[i].id)
  }

  ghost predicate Slips(existing: set<string>, patch: Patch) {
    exists i, j :: SlipsAt(existing, patch, i, j)
  }

  // The first operator about one of the pending ids adds an object.
  predicate HitsAt(pending: set<string>, patch: Patch, j: int) {
    0 <= j < |patch| && patch[j].AddObject? && patch[j].id in pending && Untouched(patch, 0, j, patch[j].id)
  }

  ghost predicate Hits(pending: set<string>, patch: Patch) {
    exists j :: HitsAt(pending, patch, j)
  }

  lemma HitsStep(pending: set<string>, patch: Patch)
    requires patch != []
    ensures Hits(pending, patch) <==>
            (patch[0].AddObject? && patch[0].id in pending) || Hits(pending - {patch[0].id}, patch[1..])
  {
    var rest := patch[1..];
    if j :| HitsAt(pending, patch, j) {
      if j > 0 {
        assert patch[0].id != patch[j].id;
        assert HitsAt(pending - {patch[0].id}, rest, j - 1);
      }
    }
    if patch[0].AddObject? && patch[0].id in pending { assert HitsAt(pending, patch, 0); }
    if j :| HitsAt(pending - {patch[0].id}, rest, j) {
      assert forall i :: 1 <= i <= j + 1 ==> patch[i] == rest[i - 1];
      assert HitsAt(pending, patch, j + 1);
    }
  }

  lemma HitsUnion(a: set<string>, b: set<string>, patch: Patch)
    ensures Hits(a + b, patch) <==> Hits(a, patch) || Hits(b, patch)
  {
    if j :| HitsAt(a + b, patch, j) { assert HitsAt(a, patch, j) || HitsAt(b, patch, j); }
    if j :| HitsAt(a, patch, j) { assert HitsAt(a + b, patch, j); }
    if j :| HitsAt(b, patch, j) { assert HitsAt(a + b, patch, j); }
  }

  lemma SlipsTail(existing: set<string>, patch: Patch, i: nat, j: nat)
    requires patch != []
    ensures SlipsAt(existing, patch, i + 1, j + 1) <==> SlipsAt(Noted(existing, patch[0]), patch[1..], i, j)
  {
    var rest := patch[1..];
    if i < j < |rest| {
      assert patch[..i + 1][1..] == rest[..i];
      assert forall k :: 1 <= k <= j + 1 ==> patch[k] == rest[k - 1];
    }
  }

  lemma SlipsStep(existing: set<string>, patch: Patch)
    requires patch != []
    ensures var op := patch[0];
            Slips(existing, patch) <==>
            || Slips(Noted(existing, op), patch[1..])
            || (op.AddRelation? && op.id !in existing && Hits({op.id}, patch[1..]))
  {
    var op, rest := patch[0], patch[1..];
    assert Believed(existing, patch[..0]) == existing;
    if i, j :| SlipsAt(existing, patch, i, j) {
      if i == 0 {
        assert HitsAt({op.id}, rest, j - 1);
      } else {
        SlipsTail(existing, patch, i - 1, j - 1);
      }
    }
    if i, j :| SlipsAt(Noted(existing, op), rest, i, j) {
      SlipsTail(existing, patch, i, j);
      assert SlipsAt(existing, patch, i + 1, j + 1);
    }
    if op.AddRelation? && op.id !in existing && Hits({op.id}, rest) {
      var j :| HitsAt({op.id}, rest, j);
      assert forall k :: 1 <= k <= j + 1 ==> patch[k] == rest[k - 1];
      assert SlipsAt(existing, patch, 0, j + 1);
    }
  }

  function PresentNext(present: set<string>, op: Operator): set<string> {
    if op.AddObject? || op.AddRelation? then present + {op.id} else present - {op.id}
  }

  lemma CollidesStep(present: set<string>, existing: set<string>, patch: Patch)
    requires patch != []
    ensures var op, rest := patch[0], patch[1..];
            Collides(present, existing, patch) <==>
            if op.AddObject? && op.id in existing then Collides(present, existing, rest)
            else (op.AddObject? && op.id in present) || Collides(PresentNext(present, op), Noted(existing, op), rest)
  {
    var op, rest := patch[0], patch[1..];
    if op.AddObject? && op.id in existing {
      assert DedupeFrom(existing, patch) == DedupeFrom(existing, rest);
    } else {
      var d, tail := DedupeFrom(existing, patch), DedupeFrom(Noted(existing, op), rest);
      var next := PresentNext(present, op);
      assert d == [op] + tail;
      assert d[..0] == [] && PresentAfter(present, []) == present;
      if k :| CollidesAt(present, d, k) {
        if k > 0 {
          assert d[..k][1..] == tail[..k - 1];
          assert CollidesAt(next, tail, k - 1);
        }
      }
      if op.AddObject? && op.id in present { assert CollidesAt(present, d, 0); }
      if k :| CollidesAt(next, tail, k) {
        assert d[..k + 1][1..] == tail[..k];
        assert CollidesAt(present, d, k + 1);
      }
    }
  }

  lemma {:induction false} CollidesFromIff(present: set<string>, existing: set<string>, patch: Patch)
    ensures Collides(present, existing, patch) <==> Slips(existing, patch) || Hits(present - existing, patch)
    decreases |patch|
  {
    if patch != [] {
      var op, rest := patch[0], patch[1..];
      var pending := present - existing;
      CollidesStep(present, existing, patch);
      SlipsStep(existing, patch);
      HitsStep(pending, patch);
      if op.AddObject? && op.id in existing {
        CollidesFromIff(present, existing, rest);
        assert Noted(existing, op) == existing && pending - {op.id} == pending;
      } else {
        var next := Noted(existing, op);
        CollidesFromIff(PresentNext(present, op), next, rest);
        if op.AddRelation? && op.id !in existing {
          HitsUnion(pending - {op.id}, {op.id}, rest);
          assert PresentNext(present, op) - next == pending - {op.id} + {op.id};
        } else {
          assert PresentNext(present, op) - next == pending - {op.id};
        }
      }
    }
  }

  /**
   The de-duplicated patch adds an object id that is present at that point exactly when the patch itself adds a
   relation under an id that the filter does not believe present, and next does anything about that id by adding
   an object.
   */
  lemma DedupeCollidesIff(ks: KS, patch: Patch)
    ensures Collides(ks.Keys, ks.Keys, patch) <==> Slips(ks.Keys, patch)
  {
    CollidesFromIff(ks.Keys, ks.Keys, patch);
    assert ks.Keys - ks.Keys == {};
  }

  // No id is added both as an object and as a relation.
  ghost predicate KindsDisjoint(patch: Patch) {
    forall i, j :: 0 <= i < |patch| && 0 <= j < |patch| && patch[i].AddObject? && patch[j].AddRelation? ==>
             patch[i].id != patch[j].id
  }

  /**
   With object and relation ids disjoint, a de-duplicated patch never adds an object id that is present at that
   point.
   */
  lemma DedupeNeverCollides(ks: KS, patch: Patch, k: nat)
    requires KindsDisjoint(patch)
    requires k < |Dedupe(ks, patch)| && Dedupe(ks, patch)[k].AddObject?
    ensures Dedupe(ks, patch)[k].id !in PresentAfter(ks.Keys, Dedupe(ks, patch)[..k])
  {
    DedupeCollidesIff(ks, patch);
    assert forall i, j :: !SlipsAt(ks.Keys, patch, i, j);
    assert !CollidesAt(ks.Keys, Dedupe(ks, patch), k);
  }

  /** Disjointness is needed: the filter does not see added relations, so it lets a colliding add through. */
  lemma SharedIdSlipsThrough(id: string, obj: ObjectData, rel: RelationData)
    ensures var patch := [AddRelation(id, rel), AddObject(id, obj)];
            Dedupe(map[], patch) == patch && id in PresentAfter({}, patch[..1]) && Evolve(map[], patch).None?
  {
    var patch := [AddRelation(id, rel), AddObject(id, obj)];
    var empty: KS := map[];
    assert patch[1..] == [AddObject(id, obj)] && patch[..1] == [AddRelation(id, rel)];
    assert empty.Keys == {} && DedupeFrom({}, patch[1..]) == patch[1..];
    assert DedupeFrom({}, patch) == [patch[0]] + patch[1..];
  }

  // ---------------------------------------------------------------------
  // When de-duplication is harmless
  // ---------------------------------------------------------------------

  // Some operator adds, as an object, an id that is a relation in the state.
  ghost predicate AddsOverRelation(ks: KS, patch: Patch) {
    exists i :: 0 <= i < |patch| && patch[i].AddObject? && patch[i].id in ks && ks[patch[i].id].Relation?
  }

  ghost predicate NotAnObjectIn(ids: set<string>, patch: Patch) {
    forall i :: 0 <= i < |patch| && patch[i].AddObject? ==> patch[i].id !in ids
  }

  // Replay state: `now` is the true state, `existing` what the filter believes, `stale` the ids it
  // wrongly believes present.
  ghost predicate Believes(now: KS, existing: set<string>, stale: set<string>) {
    && (forall id :: id in now && now[id].Object? ==> id in existing)
    && (forall id :: id in existing && id !in stale ==> id in now && now[id].Object?)
  }

  lemma {:induction false} DedupeKeepsAll(now: KS, existing: set<string>, stale: set<string>, patch: Patch)
    requires Evolve(now, patch).Some? && Believes(now, existing, stale) && NotAnObjectIn(stale, patch)
    ensures DedupeFrom(existing, patch) == patch
    decreases |patch|
  {
    if patch != [] {
      var op, rest := patch[0], patch[1..];
      var next := Apply(now, op).value;
      assert NotAnObjectIn(stale, rest);
      assert op.AddObject? ==> patch[0].id !in stale;
      BeliefStep(now, existing, stale, op);
      DedupeKeepsAll(next, Noted(existing, op), stale, rest);
    }
  }

  lemma BeliefStep(now: KS, existing: set<string>, stale: set<string>, op: Operator)
    requires Apply(now, op).Some? && Believes(now, existing, stale)
    requires op.AddObject? ==> op.id !in stale
    ensures Believes(Apply(now, op).value, Noted(existing, op), stale)
    ensures op.AddObject? ==> op.id !in existing
  {
  }

  // The first add over a relation id is dropped: before it, nothing can have removed that id as an object.
  lemma {:induction false} DedupeDropsFirst(now: KS, existing: set<string>, id: string, patch: Patch)
    requires Evolve(now, patch).Some? && id in existing && !(id in now && now[id].Object?)
    requires exists i :: 0 <= i < |patch| && patch[i].AddObject? && patch[i].id == id
    ensures |DedupeFrom(existing, patch)| < |patch|
    decreases |patch|
  {
    var op, rest := patch[0], patch[1..];
    var next := Apply(now, op).value;
    if op.AddObject? && op.id in existing {
      DedupeIsNoLonger(existing, rest);
    } else {
      var i :| 0 <= i < |patch| && patch[i].AddObject? && patch[i].id == id;
      assert rest[i - 1].AddObject? && rest[i - 1].id == id;
      DedupeDropsFirst(next, Noted(existing, op), id, rest);
    }
  }

  lemma {:induction false} DedupeIsNoLonger(existing: set<string>, patch: Patch)
    ensures |DedupeFrom(existing, patch)| <= |patch|
    decreases |patch|
  {
    if patch != [] {
      DedupeIsNoLonger(existing, patch[1..]);
      DedupeIsNoLonger(Noted(existing, patch[0]), patch[1..]);
    }
  }

  /** On a patch that applies, de-duplication is the identity exactly when no object is added over a relation's id. */
  lemma DedupeIdentityIff(ks: KS, patch: Patch)
    requires Evolve(ks, patch).Some?
    ensures Dedupe(ks, patch) == patch <==> !AddsOverRelation(ks, patch)
  {
    if AddsOverRelation(ks, patch) {
      var i :| 0 <= i < |patch| && patch[i].AddObject? && patch[i].id in ks && ks[patch[i].id].Relation?;
      DedupeDropsFirst(ks, ks.Keys, patch[i].id, patch);
    } else {
      var stale := set id | id in ks && ks[id].Relation?;
      DedupeKeepsAll(ks, ks.Keys, stale, patch);
    }
  }

  // ---------------------------------------------------------------------
  // Diffs
  // ---------------------------------------------------------------------

  ghost predicate SameAt(s: KS, t: KS, id: string) {
    (id in s <==> id in t) && (id in s && id in t ==> s[id] == t[id])
  }

  // A patch that takes s to t, adds only objects that t has, and adds no object id twice.
  ghost predicate IsDiff(s: KS, t: KS, patch: Patch) {
    && Evolve(s, patch) == Some(t)
    && (forall i :: 0 <= i < |patch| && patch[i].AddObject? ==> patch[i].id in t && t[patch[i].id].Object?)
    && (forall i, j :: 0 <= i < j < |patch| && patch[i].AddObject? && patch[j].AddObject? ==>
          patch[i].id != patch[j].id)
  }

  // Some id is a relation before and an object after.
  ghost predicate RelationBecomesObject(s: KS, t: KS) {
    exists id :: id in s && s[id].Relation? && id in t && t[id].Object?
  }

  lemma {:induction false} ObjectsComeFromAdds(s: KS, patch: Patch, id: string)
    requires Evolve(s, patch).Some?
    requires var t := Evolve(s, patch).value; id in t && t[id].Object?
    requires !(id in s && s[id].Object?)
    ensures exists i :: 0 <= i < |patch| && patch[i].AddObject? && patch[i].id == id
    decreases |patch|
  {
    var op, rest := patch[0], patch[1..];
    if op.AddObject? && op.id == id {
      assert patch[0].AddObject?;
    } else {
      ObjectsComeFromAdds(Apply(s, op).value, rest, id);
      var i :| 0 <= i < |rest| && rest[i].AddObject? && rest[i].id == id;
      assert patch[i + 1] == rest[i];
    }
  }

  // The only add of an id that the filter believes present, and that is no object yet, does not survive.
  lemma {:induction false} SoleAddIsDropped(now: KS, existing: set<string>, id: string, patch: Patch)
    requires Evolve(now, patch).Some?
    requires id in existing && !(id in now && now[id].Object?)
    requires forall i, j :: 0 <= i < j < |patch| && patch[i].AddObject? && patch[j].AddObject? ==>
               patch[i].id != patch[j].id
    ensures forall i :: 0 <= i < |DedupeFrom(existing, patch)| && DedupeFrom(existing, patch)[i].AddObject? ==>
              DedupeFrom(existing, patch)[i].id != id
    decreases |patch|
  {
    if patch != [] {
      var op, rest := patch[0], patch[1..];
      var next := Apply(now, op).value;
      assert forall i :: 0 <= i < |rest| ==> rest[i] == patch[i + 1];
      if op.AddObject? && op.id == id {
        assert patch[0].AddObject?;
        OthersOnly(existing, id, rest);
      } else {
        SoleAddIsDropped(next, if op.AddObject? && op.id in existing then existing else Noted(existing, op), id, rest);
      }
    }
  }

  lemma {:induction false} OthersOnly(existing: set<string>, id: string, patch: Patch)
    requires forall i :: 0 <= i < |patch| && patch[i].AddObject? ==> patch[i].id != id
    ensures forall i :: 0 <= i < |DedupeFrom(existing, patch)| && DedupeFrom(existing, patch)[i].AddObject? ==>
              DedupeFrom(existing, patch)[i].id != id
    decreases |patch|
  {
    if patch != [] {
      var op, rest := patch[0], patch[1..];
      assert forall i :: 0 <= i < |rest| ==> rest[i] == patch[i + 1];
      OthersOnly(if op.AddObject? && op.id in existing then existing else Noted(existing, op), id, rest);
    }
  }

  // The object is there in the true state and missing in the replayed one.
  predicate Lacks(replayed: KS, truth: KS, id: string) {
    id in truth && truth[id].Object? && !(id in replayed && replayed[id].Object?)
  }

  // The commit that turned relation `id` into an object loses it in the replay.
  lemma RelationBecomesLost(s: KS, t: KS, patch: Patch, id: string)
    requires IsDiff(s, t, patch) && id in s && s[id].Relation? && id in t && t[id].Object?
    ensures var next := Evolve(s, Dedupe(s, patch)); next.Some? ==> Lacks(next.value, t, id)
  {
    SoleAddIsDropped(s, s.Keys, id, patch);
    var next := Evolve(s, Dedupe(s, patch));
    if next.Some? && !Lacks(next.value, t, id) {
      ObjectsComeFromAdds(s, Dedupe(s, patch), id);
    }
  }

  /**
   A missing object never comes back: the true history can only touch it by removing it first, which the replay
   cannot follow. Any patch, filtered from any belief, either fails or leaves the object missing.
   */
  lemma {:induction false} LackPersists(truth: KS, replayed: KS, existing: set<string>, patch: Patch, id: string)
    requires Lacks(replayed, truth, id) && Evolve(truth, patch).Some?
    ensures var next := Evolve(replayed, DedupeFrom(existing, patch));
            next.Some? ==> Lacks(next.value, Evolve(truth, patch).value, id)
    decreases |patch|
  {
    if patch != [] {
      var op, rest := patch[0], patch[1..];
      var after := Apply(truth, op).value;
      if op.AddObject? && op.id in existing {
        LackPersists(after, replayed, existing, rest, id);
      } else {
        var tail := DedupeFrom(Noted(existing, op), rest);
        assert ([op] + tail)[1..] == tail;
        if Apply(replayed, op).Some? {
          LackPersists(after, Apply(replayed, op).value, Noted(existing, op), rest, id);
        }
      }
    }
  }

  /**
   Replaying a stored diff through the filter reaches the recorded state exactly when no relation id became
   an object id.
   */
  lemma ReplayedDiffIff(s: KS, t: KS, patch: Patch)
    requires IsDiff(s, t, patch)
    ensures Evolve(s, Dedupe(s, patch)) == Some(t) <==> !RelationBecomesObject(s, t)
  {
    if RelationBecomesObject(s, t) {
      var id :| id in s && s[id].Relation? && id in t && t[id].Object?;
      RelationBecomesLost(s, t, patch, id);
    } else {
      DedupeIdentityIff(s, patch);
    }
  }

  // ---------------------------------------------------------------------
  // Diffs exist: remove what differs, then add it
  // ---------------------------------------------------------------------

  ghost function Differing(s: KS, t: KS): set<string> {
    set id | id in s.Keys + t.Keys && !SameAt(s, t, id)
  }

  function RemoveOp(id: string, item: Item): Operator {
    if item.Object? then RemoveObject(id) else RemoveRelation(id)
  }

  function AddOp(id: string, item: Item): Operator {
    match item case Object(obj) => AddObject(id, obj) case Relation(rel) => AddRelation(id, rel)
  }

  function PairAt(s: KS, t: KS, id: string): (pair: Patch)
    ensures forall i :: 0 <= i < |pair| ==> pair[i].id == id
    ensures forall i :: 0 <= i < |pair| && pair[i].AddObject? ==> i == |pair| - 1 && id in t && t[id].Object?
  {
    (if id in s then [RemoveOp(id, s[id])] else []) + (if id in t then [AddOp(id, t[id])] else [])
  }

  // One id at a time, a remove-then-add pair where both sides have it.
  ghost function DiffOver(s: KS, t: KS, ids: set<string>): Patch
    decreases ids
  {
    if ids == {} then [] else var id := AnyOf(ids); PairAt(s, t, id) + DiffOver(s, t, ids - {id})
  }

  ghost function Diff(s: KS, t: KS): Patch {
    DiffOver(s, t, Differing(s, t))
  }

  ghost predicate AddsOnce(t: KS, ids: set<string>, d: Patch) {
    && (forall i :: 0 <= i < |d| ==> d[i].id in ids && (d[i].AddObject? ==> d[i].id in t && t[d[i].id].Object?))
    && (forall i, j :: 0 <= i < j < |d| && d[i].AddObject? && d[j].AddObject? ==> d[i].id != d[j].id)
  }

  lemma {:induction false} DiffOverAdds(s: KS, t: KS, ids: set<string>)
    ensures AddsOnce(t, ids, DiffOver(s, t, ids))
    decreases ids
  {
    if ids != {} {
      var id := AnyOf(ids);
      DiffOverAdds(s, t, ids - {id});
      PrependPair(s, t, ids, id, DiffOver(s, t, ids - {id}));
    }
  }

  lemma PrependPair(s: KS, t: KS, ids: set<string>, id: string, tail: Patch)
    requires id in ids && AddsOnce(t, ids - {id}, tail)
    ensures AddsOnce(t, ids, PairAt(s, t, id) + tail)
  {
    var head := PairAt(s, t, id);
    var d := head + tail;
    forall i | 0 <= i < |d|
      ensures d[i].id in ids && (d[i].AddObject? ==> d[i].id in t && t[d[i].id].Object?)
    {
      if i >= |head| { assert tail[i - |head|].id in ids - {id}; }
    }
    forall i, j | 0 <= i < j < |d| && d[i].AddObject? && d[j].AddObject? ensures d[i].id != d[j].id
    {
      assert tail[j - |head|].id in ids - {id};
      if i >= |head| { assert tail[i - |head|].AddObject? && tail[j - |head|].AddObject?; }
    }
  }

  lemma {:induction false} DiffOverEvolves(now: KS, s: KS, t: KS, ids: set<string>)
    requires forall id :: id in ids ==> SameAt(now, s, id)
    requires forall id :: id !in ids ==> SameAt(now, t, id)
    ensures Evolve(now, DiffOver(s, t, ids)) == Some(t)
    decreases ids
  {
    if ids == {} {
      forall id
        ensures id in now <==> id in t
        ensures id in now && id in t ==> now[id] == t[id]
      {
        assert SameAt(now, t, id);
      }
      assert now == t;
    } else {
      var id := AnyOf(ids);
      assert SameAt(now, s, id);
      var next := if id in t then now[id := t[id]] else now - {id};
      forall x | x in ids - {id} ensures SameAt(next, s, x) { assert SameAt(now, s, x); }
      forall x | x !in ids - {id} ensures SameAt(next, t, x) { assert x != id ==> SameAt(now, t, x); }
      assert DiffOver(s, t, ids) == PairAt(s, t, id) + DiffOver(s, t, ids - {id});
      DiffOverEvolves(next, s, t, ids - {id});
      PairEvolves(now, s, t, id, DiffOver(s, t, ids - {id}));
    }
  }

  lemma PairEvolves(now: KS, s: KS, t: KS, id: string, rest: Patch)
    requires SameAt(now, s, id)
    ensures Evolve(now, PairAt(s, t, id) + rest) == Evolve(if id in t then now[id := t[id]] else now - {id}, rest)
  {
    var removed, pair := now - {id}, PairAt(s, t, id);
    var add := if id in t then [AddOp(id, t[id])] else [];
    if id in t {
      assert (add + rest)[1..] == rest && removed[id := t[id]] == now[id := t[id]];
    } else {
      assert add + rest == rest;
    }
    assert Evolve(removed, add + rest) == Evolve(if id in t then now[id := t[id]] else removed, rest);
    if id in s {
      assert (pair + rest)[1..] == add + rest;
    } else {
      assert removed == now && pair + rest == add + rest;
    }
  }

  /** Remove-then-add pairs over the ids that differ are a diff, for every pair of structures. */
  lemma DiffIsADiff(s: KS, t: KS)
    ensures IsDiff(s, t, Diff(s, t))
  {
    DiffOverAdds(s, t, Differing(s, t));
    forall id | id !in Differing(s, t) ensures SameAt(s, t, id) {}
    DiffOverEvolves(s, s, t, Differing(s, t));
  }
}
