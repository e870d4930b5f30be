/**
 A runtime session: its version history of snapshots and delta patches, reconstruction of any version,
 and the transaction pipeline that commits, rolls back and aborts.
 */
module Session {
  import opened Basics
  import opened Knowledge

  // The attached core: its diff, its optional content hash, its validation. `evolve` is Knowledge.Evolve.
  datatype Core = Core(diff: (KS, KS) -> Patch, hash: KS -> Option<string>, validate: KS -> bool)

  ghost predicate DiffLaw(core: Core) {
    forall s, t :: IsDiff(s, t, core.diff(s, t))
  }

  /** The law can be met: remove-then-add pairs over the differing ids meet it, whatever hash and validation do. */
  lemma PairwiseDiffMeetsTheLaw(hash: KS -> Option<string>, validate: KS -> bool)
    ensures DiffLaw(Core((s: KS, t: KS) => Diff(s, t), hash, validate))
  {
    forall s: KS, t: KS ensures IsDiff(s, t, Diff(s, t)) { DiffIsADiff(s, t); }
  }

  // A version stores a full state or only the patch from the version before it.
  datatype Version = Version(id: string, state: Option<KS>, patch: Option<Patch>, stateHash: Option<string>,
                             createdAt: int)

  datatype Error = UnknownVersion | NoCoreBridge | NoSnapshot | NoPatch | HashMismatch | EvolveFailed
                 | OperationFailed | ValidationFailed | TransactionActive | BadInterval
  type Result<T> = Basics.Result<T, Error>

  // ---------------------------------------------------------------------
  // Reconstruction
  // ---------------------------------------------------------------------

  function IndexFrom(history: seq<Version>, id: string, i: nat): Result<nat>
    requires i <= |history|
    decreases |history| - i
  {
    if i == |history| then Err(UnknownVersion)
    else if history[i].id == id then Ok(i)
    else IndexFrom(history, id, i + 1)
  }

  // No recorded hash, no core, or a core without hashing: nothing to compare.
  predicate CheckpointFits(bridge: Option<Core>, v: Version, state: KS) {
    v.stateHash.None? || bridge.None? || bridge.value.hash(state).None? || bridge.value.hash(state) == v.stateHash
  }

  function SnapshotAtOrBefore(history: seq<Version>, i: nat): Result<nat>
    requires i < |history|
  {
    if history[i].state.Some? then Ok(i) else if i == 0 then Err(NoSnapshot) else SnapshotAtOrBefore(history, i - 1)
  }

  // The state after version `to`, replayed from `state` at version `from`.
  function Replay(core: Core, history: seq<Version>, state: KS, from: nat, to: nat): Result<KS>
    requires from <= to < |history|
    decreases |history| - from
  {
    if from == to then Ok(state)
    else
      var v := history[from + 1];
      if v.patch.None? then Err(NoPatch)
      else
        var next := Evolve(state, Dedupe(state, v.patch.value));
        if next.None? then Err(EvolveFailed)
        else if !CheckpointFits(Some(core), v, next.value) then Err(HashMismatch)
        else Replay(core, history, next.value, from + 1, to)
  }

  function StateAt(bridge: Option<Core>, history: seq<Version>, i: nat): Result<KS>
    requires i < |history|
  {
    var v := history[i];
    if v.state.Some? then
      if CheckpointFits(bridge, v, v.state.value) then Ok(v.state.value) else Err(HashMismatch)
    else if bridge.None? then Err(NoCoreBridge)
    else
      var base := SnapshotAtOrBefore(history, i);
      if base.Err? then Err(base.error)
      else
        SnapshotIsBefore(history, i);
        var snapshot := history[base.value];
        if !CheckpointFits(bridge, snapshot, snapshot.state.value) then Err(HashMismatch)
        else Replay(bridge.value, history, snapshot.state.value, base.value, i)
  }

  lemma SnapshotIsBefore(history: seq<Version>, i: nat)
    requires i < |history|
    ensures var base := SnapshotAtOrBefore(history, i);
            base.Ok? ==> base.value <= i && history[base.value].state.Some?
  {
  }

  function VersionState(bridge: Option<Core>, history: seq<Version>, id: string): Result<KS> {
    var i := IndexFrom(history, id, 0);
    if i.Err? then Err(i.error)
    else
      IndexIsFirst(history, id, 0);
      StateAt(bridge, history, i.value)
  }

  lemma IndexIsFirst(history: seq<Version>, id: string, i: nat)
    requires i <= |history|
    ensures var r := IndexFrom(history, id, i);
            && (r.Ok? ==> i <= r.value < |history| && history[r.value].id == id
                          && forall k :: i <= k < r.value ==> history[k].id != id)
            && (r.Err? ==> r.error == UnknownVersion)
            && (r.Err? ==> forall k :: i <= k < |history| ==> history[k].id != id)
    decreases |history| - i
  {
  }

  // ---------------------------------------------------------------------
  // Histories as the version manager builds them
  // ---------------------------------------------------------------------

  // The version recorded at `index` for a commit that took `previous` to `state`.
  function NewVersion(core: Core, interval: nat, index: nat, previous: KS, state: KS, id: string, now: int): Version
    requires interval >= 1
  {
    if index % interval == 0 then Version(id, Some(state), None, core.hash(state), now)
    else Version(id, None, Some(core.diff(previous, state)), core.hash(state), now)
  }

  ghost predicate VersionFits(core: Core, interval: nat, history: seq<Version>, committed: seq<KS>, i: nat)
    requires interval >= 1 && i < |history| == |committed|
  {
    && history[i].stateHash == core.hash(committed[i])
    && if i % interval == 0 then history[i].state == Some(committed[i]) && history[i].patch.None?
       else i > 0 && history[i].state.None? && history[i].patch == Some(core.diff(committed[i - 1], committed[i]))
  }

  // `committed` lists the state each version was committed with.
  ghost predicate Records(core: Core, interval: nat, history: seq<Version>, committed: seq<KS>) {
    && interval >= 1 && |history| == |committed|
    && (forall i :: 0 <= i < |history| ==> VersionFits(core, interval, history, committed, i))
    && (forall i, j :: 0 <= i < j < |history| ==> history[i].id != history[j].id)
  }

  lemma RecordsAppend(core: Core, interval: nat, history: seq<Version>, committed: seq<KS>, previous: KS, state: KS,
                      id: string, now: int)
    requires Records(core, interval, history, committed)
    requires committed != [] ==> previous == committed[|committed| - 1]
    requires forall i :: 0 <= i < |history| ==> history[i].id != id
    ensures Records(core, interval, history + [NewVersion(core, interval, |history|, previous, state, id, now)],
              committed + [state])
  {
    var h, c := history + [NewVersion(core, interval, |history|, previous, state, id, now)], committed + [state];
    forall i | 0 <= i < |h| ensures VersionFits(core, interval, h, c, i) {
      if i < |history| {
        assert VersionFits(core, interval, history, committed, i);
      } else if i == 0 {
        ZeroModulo(interval);
      }
    }
  }

  lemma ZeroModulo(interval: nat)
    requires interval >= 1
    ensures 0 % interval == 0
  {
  }

  lemma ModuloStep(i: nat, interval: nat)
    requires interval >= 1 && i > 0 && i % interval != 0
    ensures (i - 1) % interval == i % interval - 1
  {
    var q, r := i / interval, i % interval;
    assert i - 1 == interval * q + (r - 1);
    DivModUnique(i - 1, interval, q, r - 1);
  }

  lemma DivModUnique(n: int, d: int, q: int, r: int)
    requires d >= 1 && n == d * q + r && 0 <= r < d
    ensures n % d == r
  {
    var k := q - n / d;
    assert d * k == n % d - r;
    if k >= 1 { MultipleIsAtLeast(d, k); }
    if k <= -1 { MultipleIsAtLeast(d, -k); }
  }

  lemma MultipleIsAtLeast(d: int, k: int)
    requires d >= 1 && k >= 1
    ensures d * k >= d
  {
  }

  /** Reconstruction starts at the last snapshot and replays fewer than `interval` patches. */
  lemma {:induction false} SnapshotDistance(core: Core, interval: nat, history: seq<Version>, committed: seq<KS>,
                                            i: nat)
    requires Records(core, interval, history, committed) && i < |history|
    ensures SnapshotAtOrBefore(history, i) == Ok(i - i % interval)
    ensures i - (i - i % interval) < interval
    decreases i
  {
    assert VersionFits(core, interval, history, committed, i);
    if i % interval != 0 {
      ModuloStep(i, interval);
      SnapshotDistance(core, interval, history, committed, i - 1);
    }
  }

  // Version `i` is a delta whose commit turned a relation id into an object id.
  ghost predicate Unreplayable(interval: nat, committed: seq<KS>, i: nat)
    requires interval >= 1
  {
    0 < i < |committed| && i % interval != 0 && RelationBecomesObject(committed[i - 1], committed[i])
  }

  // One delta replayed on the true previous state gives the true state, or nothing like it.
  lemma ReplayStep(core: Core, interval: nat, history: seq<Version>, committed: seq<KS>, i: nat)
    requires DiffLaw(core) && Records(core, interval, history, committed)
    requires 0 < i < |history| && i % interval != 0
    ensures history[i].patch.Some?
    ensures var next := Evolve(committed[i - 1], Dedupe(committed[i - 1], history[i].patch.value));
            next == Some(committed[i]) <==> !Unreplayable(interval, committed, i)
    ensures CheckpointFits(Some(core), history[i], committed[i])
  {
    assert VersionFits(core, interval, history, committed, i);
    assert IsDiff(committed[i - 1], committed[i], core.diff(committed[i - 1], committed[i]));
    ReplayedDiffIff(committed[i - 1], committed[i], history[i].patch.value);
  }

  lemma {:induction false} ReplayReaches(core: Core, interval: nat, history: seq<Version>, committed: seq<KS>,
                                         from: nat, to: nat)
    requires DiffLaw(core) && Records(core, interval, history, committed)
    requires from <= to < |history|
    requires forall k :: from < k <= to ==> k % interval != 0 && !Unreplayable(interval, committed, k)
    ensures Replay(core, history, committed[from], from, to) == Ok(committed[to])
    decreases |history| - from
  {
    if from < to {
      ReplayStep(core, interval, history, committed, from + 1);
      ReplayReaches(core, interval, history, committed, from + 1, to);
    }
  }

  lemma NoSnapshotBetween(i: nat, k: nat, interval: nat)
    requires interval >= 1 && i - i % interval < k <= i
    ensures k % interval != 0
  {
    var q := i / interval;
    DivModUnique(k, interval, q, k - interval * q);
  }

  // Every delta between the version and its snapshot is replayable.
  ghost predicate Replayable(interval: nat, committed: seq<KS>, i: nat)
    requires interval >= 1
  {
    forall k :: i - i % interval < k <= i ==> !Unreplayable(interval, committed, k)
  }

  // Reconstruction is a replay from the state committed at the version's snapshot.
  lemma ReplayFromSnapshot(core: Core, interval: nat, history: seq<Version>, committed: seq<KS>, i: nat)
    requires Records(core, interval, history, committed) && i < |history|
    ensures var base := i - i % interval;
            base >= 0 && StateAt(Some(core), history, i) == Replay(core, history, committed[base], base, i)
    ensures forall k :: i - i % interval < k <= i ==> k % interval != 0
  {
    var base := i - i % interval;
    SnapshotDistance(core, interval, history, committed, i);
    assert VersionFits(core, interval, history, committed, i);
    SnapshotIsBefore(history, i);
    assert VersionFits(core, interval, history, committed, base);
    forall k | base < k <= i ensures k % interval != 0 { NoSnapshotBetween(i, k, interval); }
  }

  // Once the replayed state lacks an object of the true one, the replay never reaches the true state again.
  lemma {:induction false} LackIsNeverRepaired(core: Core, interval: nat, history: seq<Version>, committed: seq<KS>,
                                               state: KS, from: nat, to: nat, id: string)
    requires DiffLaw(core) && Records(core, interval, history, committed) && from <= to < |history|
    requires forall k :: from < k <= to ==> k % interval != 0
    requires Lacks(state, committed[from], id)
    ensures Replay(core, history, state, from, to) != Ok(committed[to])
    decreases |history| - from
  {
    if from < to {
      assert VersionFits(core, interval, history, committed, from + 1);
      assert IsDiff(committed[from], committed[from + 1], core.diff(committed[from], committed[from + 1]));
      var patch := history[from + 1].patch.value;
      var next := Evolve(state, Dedupe(state, patch));
      LackPersists(committed[from], state, state.Keys, patch, id);
      if next.Some? {
        LackIsNeverRepaired(core, interval, history, committed, next.value, from + 1, to, id);
      }
    }
  }

  // A replay across an unreplayable delta, from a true state before it.
  lemma {:induction false} BadDeltaIsLost(core: Core, interval: nat, history: seq<Version>, committed: seq<KS>,
                                          from: nat, bad: nat, to: nat)
    requires DiffLaw(core) && Records(core, interval, history, committed)
    requires from < bad <= to < |history| && Unreplayable(interval, committed, bad)
    requires forall k :: from < k <= to ==> k % interval != 0
    requires forall k :: from < k < bad ==> !Unreplayable(interval, committed, k)
    ensures Replay(core, history, committed[from], from, to) != Ok(committed[to])
    decreases |history| - from
  {
    ReplayStep(core, interval, history, committed, from + 1);
    if from + 1 < bad {
      BadDeltaIsLost(core, interval, history, committed, from + 1, bad, to);
    } else {
      var s, t := committed[from], committed[bad];
      var id :| id in s && s[id].Relation? && id in t && t[id].Object?;
      assert VersionFits(core, interval, history, committed, bad);
      assert IsDiff(s, t, core.diff(s, t));
      RelationBecomesLost(s, t, history[bad].patch.value, id);
      var next := Evolve(s, Dedupe(s, history[bad].patch.value));
      if next.Some? {
        LackIsNeverRepaired(core, interval, history, committed, next.value, bad, to, id);
      }
    }
  }

  lemma {:induction false} FirstBadDelta(interval: nat, committed: seq<KS>, base: nat, k: nat) returns (first: nat)
    requires interval >= 1 && base < k && Unreplayable(interval, committed, k)
    ensures base < first <= k && Unreplayable(interval, committed, first)
    ensures forall j :: base < j < first ==> !Unreplayable(interval, committed, j)
    decreases k
  {
    if j: nat :| base < j < k && Unreplayable(interval, committed, j) {
      first := FirstBadDelta(interval, committed, base, j);
    } else {
      first := k;
    }
  }

  /**
   A version reconstructs to exactly the state committed as it if and only if no delta between its snapshot and
   itself turned a relation id into an object id. Deltas before the snapshot do not matter.
   */
  lemma VersionReconstructsIff(core: Core, interval: nat, history: seq<Version>, committed: seq<KS>, i: nat)
    requires DiffLaw(core) && Records(core, interval, history, committed) && i < |history|
    ensures StateAt(Some(core), history, i) == Ok(committed[i]) <==> Replayable(interval, committed, i)
    ensures VersionState(Some(core), history, history[i].id) == StateAt(Some(core), history, i)
  {
    var base := i - i % interval;
    ReplayFromSnapshot(core, interval, history, committed, i);
    IndexIsFirst(history, history[i].id, 0);
    if Replayable(interval, committed, i) {
      ReplayReaches(core, interval, history, committed, base, i);
    } else {
      var k: nat :| base < k <= i && Unreplayable(interval, committed, k);
      var bad := FirstBadDelta(interval, committed, base, k);
      BadDeltaIsLost(core, interval, history, committed, base, bad, i);
    }
  }

  /**
   One failing history: a relation id becomes an object id in a delta commit. That version is lost, the snapshot
   after it is not.
   */
  lemma RelationToObjectIsLost(core: Core, a: string, b: string, c: string, x: string, rel: RelationData,
                               obj: ObjectData)
    requires DiffLaw(core) && a != b && b != c && a != c
    ensures var before: KS, after: KS := map[x := Relation(rel)], map[x := Object(obj)];
            var history := [NewVersion(core, 2, 0, before, before, a, 0), NewVersion(core, 2, 1, before, after, b, 1),
                            NewVersion(core, 2, 2, after, after, c, 2)];
            && Records(core, 2, history, [before, after, after])
            && VersionState(Some(core), history, b) != Ok(after)
            && VersionState(Some(core), history, c) == Ok(after)
  {
    var before: KS, after: KS := map[x := Relation(rel)], map[x := Object(obj)];
    var committed := [before, after, after];
    var history := [NewVersion(core, 2, 0, before, before, a, 0), NewVersion(core, 2, 1, before, after, b, 1),
                    NewVersion(core, 2, 2, after, after, c, 2)];
    forall i | 0 <= i < 3 ensures VersionFits(core, 2, history, committed, i) {}
    assert x in before && before[x].Relation? && x in after && after[x].Object?;
    assert Unreplayable(2, committed, 1);
    VersionReconstructsIff(core, 2, history, committed, 1);
    VersionReconstructsIff(core, 2, history, committed, 2);
    assert history[1].id == b && history[2].id == c;
  }

  /** All versions of a history reconstruct exactly when no delta commit turned a relation id into an object id. */
  lemma HistoryReconstructsIff(core: Core, interval: nat, history: seq<Version>, committed: seq<KS>)
    requires DiffLaw(core) && Records(core, interval, history, committed)
    ensures (forall i: nat :: i < |history| ==> StateAt(Some(core), history, i) == Ok(committed[i]))
            <==> (forall i: nat :: !Unreplayable(interval, committed, i))
  {
    forall i: nat | i < |history|
      ensures StateAt(Some(core), history, i) == Ok(committed[i]) <==> Replayable(interval, committed, i)
    {
      VersionReconstructsIff(core, interval, history, committed, i);
    }
    if i: nat :| Unreplayable(interval, committed, i) {
      assert i - i % interval < i <= i;
      assert !Replayable(interval, committed, i);
    }
  }

  // ---------------------------------------------------------------------
  // What the recorded hashes protect, and what works without a core
  // ---------------------------------------------------------------------

  // Both hashes are there and equal, or one of them is missing.
  ghost predicate HashesAgree(a: Option<string>, b: Option<string>) {
    a.Some? && b.Some? ==> a == b
  }

  lemma {:induction false} ReplayEndsOnHash(core: Core, history: seq<Version>, state: KS, from: nat, to: nat)
    requires from <= to < |history|
    requires from == to ==> HashesAgree(history[to].stateHash, core.hash(state))
    ensures var r := Replay(core, history, state, from, to);
            r.Ok? ==> HashesAgree(history[to].stateHash, core.hash(r.value))
    decreases |history| - from
  {
    if from < to && Replay(core, history, state, from, to).Ok? {
      var next := Evolve(state, Dedupe(state, history[from + 1].patch.value)).value;
      ReplayEndsOnHash(core, history, next, from + 1, to);
    }
  }

  /** Whatever is stored, no state is handed out whose hash differs from the one recorded with the version. */
  lemma HandedOutStateHasItsHash(core: Core, history: seq<Version>, i: nat)
    requires i < |history|
    ensures var r := StateAt(Some(core), history, i);
            r.Ok? ==> HashesAgree(history[i].stateHash, core.hash(r.value))
  {
    if history[i].state.None? && StateAt(Some(core), history, i).Ok? {
      SnapshotIsBefore(history, i);
      var base := SnapshotAtOrBefore(history, i).value;
      ReplayEndsOnHash(core, history, history[base].state.value, base, i);
    }
  }

  // The hashes as they were recorded; states and patches may be anything.
  ghost predicate KeepsHashes(stored: seq<Version>, history: seq<Version>) {
    |stored| == |history| && forall i :: 0 <= i < |stored| ==> stored[i].stateHash == history[i].stateHash
  }

  // The core hashes both states, and to different values unless they are the same.
  ghost predicate TellsApart(core: Core, s: KS, t: KS) {
    core.hash(s).Some? && core.hash(t).Some? && (core.hash(s) == core.hash(t) ==> s == t)
  }

  /**
   Snapshots and patches may be altered in any way: as long as the recorded hashes stand and the core tells the
   two states apart, a version comes back as the state committed as it or not at all.
   */
  lemma AlteredHistoryIsDetected(core: Core, interval: nat, history: seq<Version>, committed: seq<KS>,
                                 stored: seq<Version>, i: nat)
    requires Records(core, interval, history, committed) && KeepsHashes(stored, history) && i < |history|
    requires forall s :: TellsApart(core, s, committed[i])
    ensures var r := StateAt(Some(core), stored, i); r.Err? || r == Ok(committed[i])
  {
    HandedOutStateHasItsHash(core, stored, i);
    assert VersionFits(core, interval, history, committed, i);
    var r := StateAt(Some(core), stored, i);
    if r.Ok? { assert TellsApart(core, r.value, committed[i]); }
  }

  /** A stored snapshot is handed out exactly when there is nothing to compare or the hashes are equal. */
  lemma SnapshotIsCheckedIff(bridge: Option<Core>, history: seq<Version>, i: nat)
    requires i < |history| && history[i].state.Some?
    ensures var v := history[i];
            StateAt(bridge, history, i) ==
            if bridge.Some? && v.stateHash.Some? && bridge.value.hash(v.state.value).Some?
               && bridge.value.hash(v.state.value).value != v.stateHash.value
            then Err(HashMismatch) else Ok(v.state.value)
  {
  }

  /** Without a core the snapshots of a recorded history can be read, and nothing else. */
  lemma WithoutCore(core: Core, interval: nat, history: seq<Version>, committed: seq<KS>, i: nat)
    requires Records(core, interval, history, committed) && i < |history|
    ensures VersionState(None, history, history[i].id) ==
            if i % interval == 0 then Ok(committed[i]) else Err(NoCoreBridge)
  {
    IndexIsFirst(history, history[i].id, 0);
    assert VersionFits(core, interval, history, committed, i);
  }

  /** An id that no version has, and only such an id, is an unknown version. */
  lemma UnknownIff(bridge: Option<Core>, history: seq<Version>, id: string)
    ensures VersionState(bridge, history, id) == Err(UnknownVersion) <==>
              forall i :: 0 <= i < |history| ==> history[i].id != id
  {
    IndexIsFirst(history, id, 0);
    var found := IndexFrom(history, id, 0);
    if found.Ok? { KnownVersionErrors(bridge, history, found.value); }
  }

  lemma KnownVersionErrors(bridge: Option<Core>, history: seq<Version>, i: nat)
    requires i < |history|
    ensures StateAt(bridge, history, i) != Err(UnknownVersion)
  {
    if history[i].state.None? && bridge.Some? {
      SnapshotErrors(history, i);
      SnapshotIsBefore(history, i);
      var base := SnapshotAtOrBefore(history, i);
      if base.Ok? { ReplayErrors(bridge.value, history, history[base.value].state.value, base.value, i); }
    }
  }

  lemma SnapshotErrors(history: seq<Version>, i: nat)
    requires i < |history|
    ensures var r := SnapshotAtOrBefore(history, i);
            r == Err(NoSnapshot) <==> forall k :: 0 <= k <= i ==> history[k].state.None?
    ensures SnapshotAtOrBefore(history, i).Err? ==> SnapshotAtOrBefore(history, i).error == NoSnapshot
  {
  }

  lemma ReplayErrors(core: Core, history: seq<Version>, state: KS, from: nat, to: nat)
    requires from <= to < |history|
    ensures Replay(core, history, state, from, to) != Err(UnknownVersion)
    decreases |history| - from
  {
  }

  // ---------------------------------------------------------------------
  // Operations and transactions
  // ---------------------------------------------------------------------

  // Merge and read-only operations call into the core; what they may do is a parameter.
  datatype Operation =
    | EvolveOperation(base: KS, evolution: Patch)
    | ReplaceStateOperation(replacement: Option<KS>)
    | RevertVersionOperation(target: string)
    | MergeOperation(merge: KS -> Option<KS>)
    | ValidateOperation(subject: KS, extraConstraintsHold: bool)
    | ReadOnlyOperation(completes: bool)

  // The live state after one operation, None when the operation fails.
  function Executed(core: Core, history: seq<Version>, live: KS, op: Operation): Option<KS> {
    match op
    case EvolveOperation(base, evolution) => Evolve(base, evolution)
    case ReplaceStateOperation(replacement) => replacement
    case RevertVersionOperation(target) =>
      (match VersionState(Some(core), history, target) case Ok(state) => Some(state) case Err(_) => None)
    case MergeOperation(merge) => merge(live)
    case ValidateOperation(subject, extra) => if core.validate(subject) && extra then Some(live) else None
    case ReadOnlyOperation(completes) => if completes then Some(live) else None
  }

  function ExecutedAll(core: Core, history: seq<Version>, live: KS, ops: seq<Operation>): Option<KS>
    decreases |ops|
  {
    if ops == [] then Some(live)
    else
      var next := Executed(core, history, live, ops[0]);
      if next.None? then None else ExecutedAll(core, history, next.value, ops[1..])
  }

  // What a transaction as a whole does: an empty one is only validated.
  function Outcome(core: Core, history: seq<Version>, live: KS, ops: seq<Operation>): Option<KS> {
    if ops == [] then (if core.validate(live) then Some(live) else None) else ExecutedAll(core, history, live, ops)
  }

  /** Operations run one after the other, each on the state the earlier ones left; the first failure ends it. */
  lemma {:induction false} RunsInOrder(core: Core, history: seq<Version>, live: KS, a: seq<Operation>,
                                       b: seq<Operation>)
    ensures var first := ExecutedAll(core, history, live, a);
            ExecutedAll(core, history, live, a + b) ==
            if first.None? then None else ExecutedAll(core, history, first.value, b)
    decreases |a|
  {
    if a == [] {
      assert a + b == b;
    } else {
      assert (a + b)[0] == a[0] && (a + b)[1..] == a[1..] + b;
      var next := Executed(core, history, live, a[0]);
      if next.Some? { RunsInOrder(core, history, next.value, a[1..], b); }
    }
  }

  // The live state before the last operation, None if an earlier one failed.
  function BeforeLast(core: Core, history: seq<Version>, live: KS, ops: seq<Operation>): Option<KS>
    requires ops != []
  {
    ExecutedAll(core, history, live, ops[..|ops| - 1])
  }

  lemma LastDecides(core: Core, history: seq<Version>, live: KS, ops: seq<Operation>)
    requires ops != []
    ensures var before := BeforeLast(core, history, live, ops);
            Outcome(core, history, live, ops) ==
            if before.None? then None else Executed(core, history, before.value, ops[|ops| - 1])
  {
    var n := |ops| - 1;
    RunsInOrder(core, history, live, ops[..n], ops[n..]);
    assert ops[..n] + ops[n..] == ops && ops[n..][1..] == [];
  }

  /**
   A revert that ends a transaction restores the state committed as its target exactly when every delta since the
   target's snapshot is replayable. What the live state was does not matter.
   */
  lemma RevertRestoresIff(core: Core, interval: nat, history: seq<Version>, committed: seq<KS>, live: KS,
                          ops: seq<Operation>, i: nat)
    requires DiffLaw(core) && Records(core, interval, history, committed) && i < |history|
    requires ops != [] && ops[|ops| - 1] == RevertVersionOperation(history[i].id)
    requires BeforeLast(core, history, live, ops).Some?
    ensures Outcome(core, history, live, ops) == Some(committed[i]) <==> Replayable(interval, committed, i)
    ensures (forall s :: TellsApart(core, s, committed[i])) ==>
              Outcome(core, history, live, ops) in {Some(committed[i]), None}
  {
    LastDecides(core, history, live, ops);
    VersionReconstructsIff(core, interval, history, committed, i);
    if forall s :: TellsApart(core, s, committed[i]) {
      AlteredHistoryIsDetected(core, interval, history, committed, history, i);
    }
  }

  /** A revert to an id that no version has fails the transaction, wherever in it the revert stands. */
  lemma RevertToUnknownFails(core: Core, history: seq<Version>, live: KS, ops: seq<Operation>, k: nat, id: string)
    requires k < |ops| && ops[k] == RevertVersionOperation(id)
    requires forall i :: 0 <= i < |history| ==> history[i].id != id
    ensures Outcome(core, history, live, ops) == None
  {
    RunsInOrder(core, history, live, ops[..k], ops[k..]);
    assert ops[..k] + ops[k..] == ops;
    UnknownIff(Some(core), history, id);
  }

  /**
   An edit that ends a transaction leaves what its patch makes of the structure it names, whatever the live state:
   a patch from that structure to another leaves the other, and a patch that does not fit fails.
   */
  lemma EvolveLeavesItsTarget(core: Core, history: seq<Version>, live: KS, ops: seq<Operation>, base: KS, target: KS,
                              patch: Patch)
    requires ops != [] && ops[|ops| - 1] == EvolveOperation(base, patch)
    requires BeforeLast(core, history, live, ops).Some?
    ensures IsDiff(base, target, patch) ==> Outcome(core, history, live, ops) == Some(target)
    ensures Outcome(core, history, live, ops) == None <==> !FitsThroughout(base, patch)
  {
    LastDecides(core, history, live, ops);
    EvolveSucceedsIff(base, patch);
  }

  /** A replacement that ends a transaction leaves exactly its content, and fails if it has none. */
  lemma ReplacementIsAdopted(core: Core, history: seq<Version>, live: KS, ops: seq<Operation>,
                             replacement: Option<KS>)
    requires ops != [] && ops[|ops| - 1] == ReplaceStateOperation(replacement)
    requires BeforeLast(core, history, live, ops).Some?
    ensures Outcome(core, history, live, ops) == replacement
  {
    LastDecides(core, history, live, ops);
  }

  /**
   A merge starts from what the earlier operations of its own transaction left; a validation or a read in its place
   keeps that state or fails. As first operation it starts from the live state.
   */
  lemma LaterSeesEarlier(core: Core, history: seq<Version>, live: KS, ops: seq<Operation>, left: KS,
                         merge: KS -> Option<KS>, subject: KS, flag: bool)
    requires if ops == [] then left == live else Outcome(core, history, live, ops) == Some(left)
    ensures Outcome(core, history, live, ops + [MergeOperation(merge)]) == merge(left)
    ensures Outcome(core, history, live, ops + [ReadOnlyOperation(flag)]) == if flag then Some(left) else None
    ensures Outcome(core, history, live, ops + [ValidateOperation(subject, flag)]) ==
            if flag && core.validate(subject) then Some(left) else None
  {
    LastOfAppended(core, history, live, ops, MergeOperation(merge));
    LastOfAppended(core, history, live, ops, ReadOnlyOperation(flag));
    LastOfAppended(core, history, live, ops, ValidateOperation(subject, flag));
  }

  lemma LastOfAppended(core: Core, history: seq<Version>, live: KS, ops: seq<Operation>, op: Operation)
    ensures BeforeLast(core, history, live, ops + [op]) == ExecutedAll(core, history, live, ops)
    ensures var before := ExecutedAll(core, history, live, ops);
            Outcome(core, history, live, ops + [op]) ==
            if before.None? then None else Executed(core, history, before.value, op)
  {
    assert (ops + [op])[..|ops|] == ops;
    LastDecides(core, history, live, ops + [op]);
  }

  class RuntimeSession {
    const core: Core
    const interval: nat
    var structure: KS
    var history: seq<Version>
    var initialState: Option<KS>   // of the active transaction

    // The state each version was committed with.
    ghost var committed: seq<KS>

    // Between two calls the live state is the last committed one, also while a transaction is open.
    ghost predicate Valid()
      reads this
    {
      && Records(core, interval, history, committed)
      && (committed != [] ==> structure == committed[|committed| - 1])
      && (initialState.Some? ==> initialState.value == structure)
    }

    constructor (core: Core, structure: KS, interval: int)
      requires interval >= 1
      ensures Valid() && this.core == core && this.interval == interval
      ensures this.structure == structure && history == [] && committed == [] && initialState.None?
    {
      this.core, this.interval, this.structure := core, interval, structure;
      history, committed, initialState := [], [], None;
    }

    /**
     Whatever calls led here: a version reconstructs to the state committed as it exactly when every delta since
     its own snapshot is replayable, and the last committed state is the live one.
     */
    lemma CommittedStatesReconstruct(i: nat)
      requires Valid() && DiffLaw(core) && i < |history|
      ensures VersionState(Some(core), history, history[i].id) == Ok(committed[i]) <==>
                Replayable(interval, committed, i)
      ensures i == |history| - 1 ==> structure == committed[i]
    {
      VersionReconstructsIff(core, interval, history, committed, i);
    }

    // What a transaction of one operation does if that operation is a revert.
    lemma SingleRevert(op: Operation)
      requires Valid()
      ensures forall i: nat :: DiffLaw(core) && i < |history| && op == RevertVersionOperation(history[i].id) ==>
                (Outcome(core, history, structure, [op]) == Some(committed[i]) <==> Replayable(interval, committed, i))
      ensures op.RevertVersionOperation? && (forall i :: 0 <= i < |history| ==> history[i].id != op.target) ==>
                Outcome(core, history, structure, [op]) == None
    {
      assert [op][..0] == [];
      forall i: nat | DiffLaw(core) && i < |history| && op == RevertVersionOperation(history[i].id)
        ensures Outcome(core, history, structure, [op]) == Some(committed[i]) <==> Replayable(interval, committed, i)
      {
        RevertRestoresIff(core, interval, history, committed, structure, [op], i);
      }
      if op.RevertVersionOperation? && (forall i :: 0 <= i < |history| ==> history[i].id != op.target) {
        RevertToUnknownFails(core, history, structure, [op], 0, op.target);
      }
    }

    method GetVersionState(id: string, bridge: Option<Core>) returns (r: Result<KS>)
      ensures r == VersionState(bridge, history, id)
    {
      var found := VersionIndex(id);
      if found.Err? { return Err(found.error); }
      var index := found.value;
      var target := history[index];
      if target.state.Some? {
        return if CheckpointFits(bridge, target, target.state.value) then Ok(target.state.value) else Err(HashMismatch);
      }
      if bridge.None? { return Err(NoCoreBridge); }
      var snapshotIndex: int := index;
      while history[snapshotIndex].state.None?
        invariant 0 <= snapshotIndex <= index
        invariant SnapshotAtOrBefore(history, snapshotIndex) == SnapshotAtOrBefore(history, index)
        decreases snapshotIndex
      {
        snapshotIndex := snapshotIndex - 1;
        if snapshotIndex < 0 { return Err(NoSnapshot); }
      }
      var snapshot := history[snapshotIndex];
      var state := snapshot.state.value;
      if !CheckpointFits(bridge, snapshot, state) { return Err(HashMismatch); }
      for i := snapshotIndex + 1 to index + 1
        invariant Replay(bridge.value, history, state, i - 1, index) ==
                  Replay(bridge.value, history, snapshot.state.value, snapshotIndex, index)
      {
        var version := history[i];
        if version.patch.None? { return Err(NoPatch); }
        var patch := DedupeReplayedAddObjects(state, version.patch.value);
        var next := Evolve(state, patch);
        if next.None? { return Err(EvolveFailed); }
        if !CheckpointFits(bridge, version, next.value) { return Err(HashMismatch); }
        state := next.value;
      }
      return Ok(state);
    }

    method VersionIndex(id: string) returns (r: Result<nat>)
      ensures r == IndexFrom(history, id, 0)
      ensures r.Ok? ==> r.value < |history|
    {
      for i := 0 to |history|
        invariant IndexFrom(history, id, i) == IndexFrom(history, id, 0)
      {
        if history[i].id == id { return Ok(i); }
      }
      return Err(UnknownVersion);
    }

    method Begin() returns (r: Result<()>)
      requires Valid()
      modifies this`initialState
      ensures Valid()
      ensures r == if old(initialState).Some? then Err(TransactionActive) else Ok(())
      ensures initialState == if old(initialState).Some? then old(initialState) else Some(structure)
    {
      if initialState.Some? { return Err(TransactionActive); }
      initialState := Some(structure);
      return Ok(());
    }

    method Rollback()
      requires Valid() && initialState.Some?
      modifies this`structure, this`initialState
      ensures Valid() && structure == old(structure) && initialState.None?
    {
      structure := initialState.value;
      initialState := None;
    }

    // Leaves the live state alone; nothing of the transaction has run yet.
    method Abort()
      requires Valid() && initialState.Some?
      modifies this`initialState
      ensures Valid() && initialState.None?
    {
      initialState := None;
    }

    /**
     A commit is all or nothing. If every operation completes, exactly one version is recorded with the
     resulting state; if one fails, live state and history are those of before the transaction.
     */
    method Commit(ops: seq<Operation>, freshId: string, now: int) returns (r: Result<string>)
      requires Valid() && initialState.Some?
      requires forall i :: 0 <= i < |history| ==> history[i].id != freshId
      modifies this
      ensures Valid() && initialState.None?
      ensures match Outcome(core, old(history), old(structure), ops)
              case Some(state) =>
                && r == Ok(freshId) && structure == state && committed == old(committed) + [state]
                && |history| == |old(history)| + 1 && history[..|old(history)|] == old(history)
                && history[|history| - 1].id == freshId && history[|history| - 1].createdAt == now
              case None =>
                && r == Err(if ops == [] then ValidationFailed else OperationFailed)
                && structure == old(structure) && committed == old(committed) && history == old(history)
      ensures ops == [] ==> structure == old(structure) && (r.Ok? <==> core.validate(structure))
      ensures forall i: nat ::
                DiffLaw(core) && i < |old(history)| && ops == [RevertVersionOperation(old(history)[i].id)] ==>
                  (r.Ok? && structure == old(committed)[i] <==> Replayable(interval, old(committed), i))
      ensures forall id ::
                ops == [RevertVersionOperation(id)]
                && (forall i :: 0 <= i < |old(history)| ==> old(history)[i].id != id) ==>
                  r.Err?
    {
      if ops != [] { SingleRevert(ops[0]); }
      var previous := structure;
      if ops != [] {
        var completed := ExecuteOperations(ops);
        if !completed { return Err(OperationFailed); }
      } else if !core.validate(structure) {
        Rollback();
        return Err(ValidationFailed);
      }
      CreateVersion(previous, freshId, now);
      initialState := None;
      return Ok(freshId);
    }

    method ExecuteOperations(ops: seq<Operation>) returns (completed: bool)
      requires Valid() && initialState.Some?
      modifies this`structure, this`initialState
      ensures match ExecutedAll(core, history, old(structure), ops)
              case Some(state) => completed && structure == state && initialState == old(initialState)
              case None => !completed && structure == old(structure) && initialState.None?
    {
      for k := 0 to |ops|
        invariant initialState == old(initialState)
        invariant ExecutedAll(core, history, structure, ops[k..]) == ExecutedAll(core, history, old(structure), ops)
      {
        assert ops[k..][1..] == ops[k + 1..];
        var result := Execute(ops[k]);
        if result.None? {
          structure := initialState.value;
          initialState := None;
          return false;
        }
        structure := result.value;
      }
      return true;
    }

    method Execute(op: Operation) returns (result: Option<KS>)
      ensures result == Executed(core, history, structure, op)
    {
      match op
      case EvolveOperation(base, evolution) => result := Evolve(base, evolution);
      case ReplaceStateOperation(replacement) => result := replacement;
      case RevertVersionOperation(target) =>
        var r := GetVersionState(target, Some(core));
        result := match r case Ok(state) => Some(state) case Err(_) => None;
      case MergeOperation(merge) => result := merge(structure);
      case ValidateOperation(subject, extra) =>
        result := if core.validate(subject) && extra then Some(structure) else None;
      case ReadOnlyOperation(completes) => result := if completes then Some(structure) else None;
    }

    method CreateVersion(previous: KS, freshId: string, now: int)
      requires Records(core, interval, history, committed)
      requires committed != [] ==> previous == committed[|committed| - 1]
      requires forall i :: 0 <= i < |history| ==> history[i].id != freshId
      modifies this`history, this`committed
      ensures Records(core, interval, history, committed)
      ensures committed == old(committed) + [structure]
      ensures history == old(history) + [NewVersion(core, interval, |old(history)|, previous, structure, freshId, now)]
    {
      RecordsAppend(core, interval, history, committed, previous, structure, freshId, now);
      var index := |history|;
      var version :=
        if index == 0 || index % interval == 0
        then Version(freshId, Some(structure), None, core.hash(structure), now)
        else Version(freshId, None, Some(core.diff(previous, structure)), core.hash(structure), now);
      ZeroModulo(interval);
      history := history + [version];
      committed := committed + [structure];
    }
  }

  /** A snapshot interval below 1 is refused before there is a session. */
  method OpenSession(core: Core, structure: KS, interval: int) returns (r: Result<RuntimeSession>)
    ensures r.Err? <==> interval <= 0
    ensures r.Err? ==> r.error == BadInterval
    ensures r.Ok? ==>
              && fresh(r.value) && r.value.Valid() && r.value.core == core && r.value.interval == interval
              && r.value.structure == structure && r.value.history == [] && r.value.initialState.None?
  {
    if interval <= 0 { return Err(BadInterval); }
    var session := new RuntimeSession(core, structure, interval);
    r := Ok(session);
  }
}
