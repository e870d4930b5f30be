/**
 Version vectors of one gossiped session, copied between replicas: how a replica applies a remote snapshot,
 branch by branch, and how far any copy of a clock can run ahead of its owner.
 */
module VectorBounds {
  import opened Basics

  // A replica's durable identity, or the identity of one replica's instance of the session. Both are
  // random ids in one string space; that they never coincide is built into the type.
  datatype Key = Replica(id: nat) | Node(id: nat)

  type Vector = map<Key, int>

  function At(v: Vector, key: Key): int {
    if key in v then v[key] else 0
  }

  function Bumped(v: Vector, key: Key): Vector {
    v[key := At(v, key) + 1]
  }

  function Max(a: int, b: int): int {
    if a >= b then a else b
  }

  function Absorbed(v: Vector, other: Vector): Vector {
    map key | key in v.Keys + other.Keys :: if key in other then Max(At(v, key), other[key]) else v[key]
  }

  // An empty vector dominates nothing, not even another empty one.
  predicate DominatesAll(v: Vector, other: Vector) {
    v != map[] && forall key :: key in other ==> other[key] <= At(v, key)
  }

  lemma AbsorbStep(v: Vector, other: Vector, left: set<Key>, key: Key)
    requires key in left && key in other
    ensures Absorbed(v, other - (left - {key})) ==
              Absorbed(v, other - left)[key := Max(At(Absorbed(v, other - left), key), other[key])]
  {
    assert other - (left - {key}) == (other - left)[key := other[key]];
    assert At(Absorbed(v, other - left), key) == At(v, key);
  }

  class VersionVector {
    var clocks: Vector

    constructor (clocks: Vector)
      ensures this.clocks == clocks
    {
      this.clocks := clocks;
    }

    method Bump(key: Key)
      modifies this
      ensures clocks == Bumped(old(clocks), key)
    {
      clocks := clocks[key := At(clocks, key) + 1];
    }

    method Observe(key: Key, clock: int)
      modifies this
      ensures clocks == old(clocks)[key := Max(At(old(clocks), key), clock)]
    {
      clocks := clocks[key := Max(At(clocks, key), clock)];
    }

    method Absorb(other: Vector)
      modifies this
      ensures clocks == Absorbed(old(clocks), other)
    {
      var left := other.Keys;
      while left != {}
        invariant left <= other.Keys
        invariant clocks == Absorbed(old(clocks), other - left)
        decreases |left|
      {
        var key :| key in left;
        AbsorbStep(old(clocks), other, left, key);
        left := left - {key};
        Observe(key, other[key]);
      }
      assert other - left == other;
    }

    method Dominates(other: Vector) returns (r: bool)
      ensures r == DominatesAll(clocks, other)
    {
      if clocks == map[] { return false; }
      var left := other.Keys;
      while left != {}
        invariant left <= other.Keys
        invariant forall key :: key in other && key !in left ==> other[key] <= At(clocks, key)
        decreases |left|
      {
        var key :| key in left;
        if other[key] > At(clocks, key) { return false; }
        left := left - {key};
      }
      return true;
    }
  }

  /**
   Absorbing never loses a clock, and afterwards the vector dominates everything it absorbed, unless both are empty.
   */
  lemma AbsorbingDominates(v: Vector, other: Vector)
    ensures forall key :: At(v, key) <= At(Absorbed(v, other), key)
    ensures DominatesAll(Absorbed(v, other), other) <==> v != map[] || other != map[]
  {
    var a := Absorbed(v, other);
    forall key ensures At(v, key) <= At(a, key) {}
    if v != map[] {
      var key :| key in v;
      assert key in a;
    }
    if other != map[] {
      var key :| key in other;
      assert key in a;
    }
  }

  // ---------------------------------------------------------------------
  // Applying a remote snapshot
  // ---------------------------------------------------------------------

  // A session as a replica holds it. Equal contents are equal structures to the root-hash comparison.
  datatype Local = Local(vector: Vector, content: nat, node: nat)
  datatype Message = Message(vector: Vector, content: nat)

  datatype Verdict = Bootstrap | DuplicateId | Equivalent | Stale | FastForward | Merge(content: nat) | Conflict

  function Committed(l: Local, self: nat, content: nat): Local {
    Local(Bumped(Bumped(l.vector, Node(l.node)), Replica(self)), content, l.node)
  }

  predicate DuplicateIdDetected(l: Local, self: nat, m: Message) {
    var own, remote := At(l.vector, Replica(self)), At(m.vector, Replica(self));
    remote > own || (remote > 0 && remote == own && l.content != m.content)
  }

  // `merged` is what the three-way merge yields, None on a conflict.
  function Judge(local: Option<Local>, self: nat, m: Message, merged: Option<nat>): Verdict {
    if local.None? then Bootstrap
    else if DuplicateIdDetected(local.value, self, m) then DuplicateId
    else if local.value.content == m.content then Equivalent
    else if DominatesAll(local.value.vector, m.vector) then Stale
    else if DominatesAll(m.vector, local.value.vector) then FastForward
    else if merged.None? then Conflict
    else Merge(merged.value)
  }

  // The session after a snapshot was applied. A three-way merge does not absorb the remote vector.
  function Applied(local: Option<Local>, self: nat, m: Message, merged: Option<nat>, freshNode: nat): Local {
    match Judge(local, self, m, merged)
    case Bootstrap => Committed(Local(m.vector, m.content, freshNode), self, m.content)
    case DuplicateId => local.value
    case Equivalent =>
      if DominatesAll(local.value.vector, m.vector) then local.value
      else local.value.(vector := Absorbed(local.value.vector, m.vector))
    case Stale => local.value
    case FastForward => Committed(local.value.(vector := Absorbed(local.value.vector, m.vector)), self, m.content)
    case Merge(content) => Committed(local.value, self, content)
    case Conflict => local.value
  }

  // ---------------------------------------------------------------------
  // Who wins, in vectors and contents
  // ---------------------------------------------------------------------

  // The vector has seen at least as much from every node the other lists.
  predicate KnowsAllOf(v: Vector, other: Vector) {
    forall key :: key in other ==> other[key] <= At(v, key)
  }

  /**
   A snapshot's different content replaces the local one, other than through a merge, only if the snapshot knows
   all of it.
   */
  lemma NewerContentSurvives(l: Local, self: nat, m: Message, merged: Option<nat>, freshNode: nat)
    requires l.content != m.content && merged != Some(m.content)
    requires Applied(Some(l), self, m, merged, freshNode).content == m.content
    ensures forall key :: key in l.vector ==> l.vector[key] <= At(m.vector, key)
  {
  }

  /** A snapshot that the session already knows changes nothing, neither content nor vector. */
  lemma KnownSnapshotIsIgnored(l: Local, self: nat, m: Message, merged: Option<nat>, freshNode: nat)
    requires l.vector != map[] && forall key :: key in m.vector ==> m.vector[key] <= At(l.vector, key)
    ensures Applied(Some(l), self, m, merged, freshNode) == l
  {
  }

  /**
   A snapshot that knows all the session knows and more, and does not look like a duplicated id, leaves its content
   and a vector that has seen everything either side has; a version is recorded exactly if the content changed.
   */
  lemma NewerSnapshotIsAdopted(l: Local, self: nat, m: Message, merged: Option<nat>, freshNode: nat)
    requires forall key :: key in l.vector ==> l.vector[key] <= At(m.vector, key)
    requires exists key :: key in m.vector && m.vector[key] > At(l.vector, key)
    requires At(m.vector, Replica(self)) <= At(l.vector, Replica(self))
    requires At(m.vector, Replica(self)) <= 0 || At(m.vector, Replica(self)) < At(l.vector, Replica(self))
             || l.content == m.content
    ensures var after := Applied(Some(l), self, m, merged, freshNode);
            && after.content == m.content && after.node == l.node
            && (forall key :: At(l.vector, key) <= At(after.vector, key))
            && (forall key :: key in m.vector ==> m.vector[key] <= At(after.vector, key))
            && (At(after.vector, Replica(self)) > At(l.vector, Replica(self)) <==> l.content != m.content)
  {
    var key :| key in m.vector && m.vector[key] > At(l.vector, key);
    assert !KnowsAllOf(l.vector, m.vector);
    AbsorbingDominates(l.vector, m.vector);
    var absorbed := Absorbed(l.vector, m.vector);
    assert forall k :: At(l.vector, k) <= At(absorbed, k);
    assert forall k :: k in m.vector ==> m.vector[k] <= At(absorbed, k);
  }

  /**
   When each side has seen something the other has not, the content is the old one or the merge's. Without a merge
   result nothing changes; with one it is taken, and no clock but the session's own two moves.
   */
  lemma ConcurrentSnapshotIsMerged(l: Local, self: nat, m: Message, merged: Option<nat>, freshNode: nat)
    requires l.content != m.content
    requires exists key :: key in l.vector && l.vector[key] > At(m.vector, key)
    requires exists key :: key in m.vector && m.vector[key] > At(l.vector, key)
    requires At(m.vector, Replica(self)) <= 0 || At(m.vector, Replica(self)) < At(l.vector, Replica(self))
    requires At(m.vector, Replica(self)) <= At(l.vector, Replica(self))
    ensures var after := Applied(Some(l), self, m, merged, freshNode);
            && (merged.None? ==> after == l)
            && (merged.Some? ==>
                  && after.content == merged.value && after.node == l.node
                  && (forall key :: key != Replica(self) && key != Node(l.node) ==>
                        At(after.vector, key) == At(l.vector, key))
                  && At(after.vector, Replica(self)) == At(l.vector, Replica(self)) + 1
                  && At(after.vector, Node(l.node)) == At(l.vector, Node(l.node)) + 1)
  {
    assert !KnowsAllOf(l.vector, m.vector) && !KnowsAllOf(m.vector, l.vector);
  }

  /**
   A snapshot that shows our own clock ahead of ours, or at ours with other content, is refused and changes nothing.
   */
  lemma DuplicateIsRefused(l: Local, self: nat, m: Message, merged: Option<nat>, freshNode: nat)
    requires var own, remote := At(l.vector, Replica(self)), At(m.vector, Replica(self));
             remote > own || (remote == own && remote > 0 && l.content != m.content)
    ensures Applied(Some(l), self, m, merged, freshNode) == l
    ensures Judge(Some(l), self, m, merged) == DuplicateId
  {
  }

  /**
   The answer is a refusal exactly for a duplicated id, or for different contents of which neither side knows all
   the other has seen and which do not merge.
   */
  lemma RefusedIff(l: Local, self: nat, m: Message, merged: Option<nat>)
    ensures var own, remote := At(l.vector, Replica(self)), At(m.vector, Replica(self));
            var verdict := Judge(Some(l), self, m, merged);
            && (verdict == DuplicateId <==> remote > own || (remote == own && remote > 0 && l.content != m.content))
            && (verdict == Conflict <==>
                  && verdict != DuplicateId && l.content != m.content && merged.None?
                  && (l.vector == map[] || !KnowsAllOf(l.vector, m.vector))
                  && (m.vector == map[] || !KnowsAllOf(m.vector, l.vector)))
  {
  }

  /** A replica without the session takes content and clocks as they are, and adds its own two. */
  lemma FirstSnapshotIsCopied(self: nat, m: Message, merged: Option<nat>, freshNode: nat)
    ensures var after := Applied(None, self, m, merged, freshNode);
            && after.content == m.content && after.node == freshNode
            && (forall key :: key != Replica(self) && key != Node(freshNode) ==>
                  At(after.vector, key) == At(m.vector, key))
            && At(after.vector, Replica(self)) == At(m.vector, Replica(self)) + 1
            && At(after.vector, Node(freshNode)) == At(m.vector, Node(freshNode)) + 1
  {
  }

  datatype Event =
    | NoEvent
    | DuplicateReplicaIdDetected(localClock: int, remoteClock: int)
    | GossipConflictDetected(remote: Vector)

  class GossipAdapter {
    const self: nat
    var local: Option<Local>
    var pendingDuplicates: set<int>       // own clocks already reported
    var pendingConflict: Option<Vector>   // remote vector already reported

    constructor (self: nat)
      ensures this.self == self && local.None? && pendingDuplicates == {} && pendingConflict.None?
    {
      this.self := self;
      local, pendingDuplicates, pendingConflict := None, {}, None;
    }

    /** Branch by branch; a refused or conflicting snapshot leaves the session alone and is reported once. */
    method ApplyRemoteSession(m: Message, merged: Option<nat>, freshNode: nat) returns (applied: bool, event: Event)
      modifies this
      ensures local == Some(Applied(old(local), self, m, merged, freshNode))
      ensures var verdict := Judge(old(local), self, m, merged);
              && applied == (verdict != DuplicateId && verdict != Conflict)
              && (verdict == DuplicateId ==>
                    && pendingDuplicates == old(pendingDuplicates) + {At(m.vector, Replica(self))}
                    && pendingConflict == old(pendingConflict)
                    && event == (if At(m.vector, Replica(self)) in old(pendingDuplicates) then NoEvent
                                 else DuplicateReplicaIdDetected(At(old(local).value.vector, Replica(self)),
                                                                 At(m.vector, Replica(self)))))
              && (verdict == Conflict ==>
                    && pendingDuplicates == {} && pendingConflict == Some(m.vector)
                    && event == (if old(pendingConflict) == Some(m.vector) then NoEvent
                                 else GossipConflictDetected(m.vector)))
              && (verdict == Bootstrap ==>
                    && event == NoEvent && pendingDuplicates == old(pendingDuplicates)
                    && pendingConflict == old(pendingConflict))
              && (applied && verdict != Bootstrap ==>
                    event == NoEvent && pendingDuplicates == {} && pendingConflict.None?)
    {
      event := NoEvent;
      if local.None? {
        BootstrapRemoteSession(m, freshNode);
        return true, NoEvent;
      }
      var vector := new VersionVector(local.value.vector);
      var ownClock, remoteClock := At(vector.clocks, Replica(self)), At(m.vector, Replica(self));
      if remoteClock > ownClock || (remoteClock > 0 && remoteClock == ownClock && local.value.content != m.content) {
        if remoteClock !in pendingDuplicates {
          pendingDuplicates := pendingDuplicates + {remoteClock};
          event := DuplicateReplicaIdDetected(ownClock, remoteClock);
        }
        assert pendingDuplicates == old(pendingDuplicates) + {remoteClock};
        return false, event;
      }
      pendingDuplicates := {};
      var localDominates := vector.Dominates(m.vector);
      if local.value.content == m.content {
        if !localDominates {
          vector.Absorb(m.vector);
          local := Some(local.value.(vector := vector.clocks));
        }
        pendingConflict := None;
        return true, NoEvent;
      }
      if localDominates {
        pendingConflict := None;
        return true, NoEvent;
      }
      var remote := new VersionVector(m.vector);
      var remoteDominates := remote.Dominates(vector.clocks);
      if remoteDominates {
        vector.Absorb(m.vector);
        local := Some(local.value.(vector := vector.clocks));
        Commit(m.content);
        pendingConflict := None;
        return true, NoEvent;
      }
      if merged.None? {
        if pendingConflict == Some(m.vector) { return false, NoEvent; }
        pendingConflict := Some(m.vector);
        return false, GossipConflictDetected(m.vector);
      }
      Commit(merged.value);
      pendingConflict := None;
      return true, NoEvent;
    }

    method BootstrapRemoteSession(m: Message, freshNode: nat)
      requires local.None?
      modifies this`local
      ensures local == Some(Committed(Local(m.vector, m.content, freshNode), self, m.content))
    {
      local := Some(Local(m.vector, m.content, freshNode));
      Commit(m.content);
    }

    // A commit bumps the session's node id and the replica id before the version is recorded.
    method Commit(content: nat)
      requires local.Some?
      modifies this`local
      ensures local == Some(Committed(old(local).value, self, content))
    {
      var vector := new VersionVector(local.value.vector);
      vector.Bump(Node(local.value.node));
      vector.Bump(Replica(self));
      local := Some(Local(vector.clocks, content, local.value.node));
    }
  }

  // ---------------------------------------------------------------------
  // Many replicas
  // ---------------------------------------------------------------------

  // Snapshots once sent may arrive at any time, at anyone, any number of times. `owners` records which
  // replica each node id was minted by.
  datatype State = State(locals: map<nat, Local>, inFlight: set<Message>, owners: map<nat, nat>, commits: map<nat, nat>)

  datatype Step =
    | Create(replica: nat, content: nat, node: nat)
    | Commit(replica: nat, content: nat)
    | Send(replica: nat)
    | Deliver(replica: nat, message: Message, merged: Option<nat>, node: nat)

  function LocalOf(s: State, replica: nat): Option<Local> {
    if replica in s.locals then Some(s.locals[replica]) else None
  }

  // Node ids are minted fresh. Nobody loses or closes the session.
  predicate Enabled(s: State, step: Step) {
    match step
    case Create(r, _, node) => r !in s.locals && node !in s.owners
    case Commit(r, _) => r in s.locals
    case Send(r) => r in s.locals
    case Deliver(r, m, _, node) => m in s.inFlight && (r in s.locals || node !in s.owners)
  }

  function Count(s: State, replica: nat): nat {
    if replica in s.commits then s.commits[replica] else 0
  }

  function Do(s: State, step: Step): State {
    if !Enabled(s, step) then s
    else match step
      case Create(r, content, node) =>
        s.(locals := s.locals[r := Local(map[], content, node)], owners := s.owners[node := r])
      case Commit(r, content) =>
        s.(locals := s.locals[r := Committed(s.locals[r], r, content)], commits := s.commits[r := Count(s, r) + 1])
      case Send(r) =>
        s.(inFlight := s.inFlight + {Message(s.locals[r].vector, s.locals[r].content)})
      case Deliver(r, m, merged, node) =>
        var verdict := Judge(LocalOf(s, r), r, m, merged);
        var after := Applied(LocalOf(s, r), r, m, merged, node);
        s.(locals := s.locals[r := after],
           owners := if r in s.locals then s.owners else s.owners[node := r],
           commits := if RecordsVersion(verdict) then s.commits[r := Count(s, r) + 1] else s.commits)
  }

  function Run(s: State, steps: seq<Step>): State
    decreases |steps|
  {
    if steps == [] then s else Run(Do(s, steps[0]), steps[1..])
  }

  predicate Initial(s: State) {
    s == State(map[], {}, map[], map[])
  }

  // The clock the key's owner itself shows.
  function Own(s: State, key: Key): int {
    match key
    case Replica(r) => if r in s.locals then At(s.locals[r].vector, key) else 0
    case Node(n) => if n in s.owners && s.owners[n] in s.locals then At(s.locals[s.owners[n]].vector, key) else 0
  }

  ghost predicate Bounded(s: State, v: Vector) {
    forall key :: 0 <= At(v, key) <= Own(s, key)
  }

  ghost predicate Inv(s: State) {
    && (forall r :: r in s.locals ==> Bounded(s, s.locals[r].vector))
    && (forall m :: m in s.inFlight ==> Bounded(s, m.vector))
    && (forall r :: r in s.locals ==> s.locals[r].node in s.owners && s.owners[s.locals[r].node] == r)
    && (forall n :: n in s.owners ==> s.owners[n] in s.locals)
    && (forall r :: Own(s, Replica(r)) == Count(s, r))
  }

  // The steps that give a replica a new version of its session: everything it has seen is kept, its own
  // keys may grow, others only up to what it was told.
  ghost predicate GrowsWithin(s: State, r: nat, node: nat, before: Vector, after: Vector) {
    && (forall key :: At(before, key) <= At(after, key))
    && (forall key :: key != Replica(r) && key != Node(node) ==> At(after, key) <= Own(s, key))
  }

  lemma CommitGrows(s: State, r: nat, l: Local, content: nat)
    requires Bounded(s, l.vector)
    ensures GrowsWithin(s, r, l.node, l.vector, Committed(l, r, content).vector)
    ensures At(Committed(l, r, content).vector, Replica(r)) == At(l.vector, Replica(r)) + 1
  {
    var after := Committed(l, r, content).vector;
    forall key
      ensures At(l.vector, key) <= At(after, key)
      ensures key != Replica(r) && key != Node(l.node) ==> At(after, key) == At(l.vector, key)
    {
    }
  }

  lemma AbsorbGrows(s: State, r: nat, node: nat, v: Vector, other: Vector)
    requires Bounded(s, v) && Bounded(s, other)
    ensures GrowsWithin(s, r, node, v, Absorbed(v, other)) && Bounded(s, Absorbed(v, other))
  {
    AbsorbingDominates(v, other);
    forall key ensures 0 <= At(Absorbed(v, other), key) <= Own(s, key) {
      assert 0 <= At(v, key) <= Own(s, key) && 0 <= At(other, key) <= Own(s, key);
    }
  }

  // Replacing one replica's session by a grown one keeps every bound.
  lemma GrowthKeepsBounds(s: State, t: State, r: nat, l: Local, before: Vector)
    requires Inv(s) && before == (if r in s.locals then s.locals[r].vector else map[])
    requires GrowsWithin(s, r, l.node, before, l.vector)
    requires t.locals == s.locals[r := l] && t.inFlight == s.inFlight
    requires if r in s.locals then t.owners == s.owners && l.node == s.locals[r].node
               else l.node !in s.owners && t.owners == s.owners[l.node := r]
    ensures forall key :: Own(s, key) <= Own(t, key)
    ensures forall q :: q in t.locals ==> Bounded(t, t.locals[q].vector)
    ensures forall m :: m in t.inFlight ==> Bounded(t, m.vector)
    ensures forall q :: q != r ==> Own(t, Replica(q)) == Own(s, Replica(q))
  {
    forall key ensures Own(s, key) <= Own(t, key) {
      assert At(before, key) <= At(l.vector, key);
      assert r !in s.locals ==> At(before, key) == 0;
      if r in s.locals { assert Bounded(s, before); }
    }
    forall q | q in t.locals ensures Bounded(t, t.locals[q].vector) {
      forall key ensures 0 <= At(t.locals[q].vector, key) <= Own(t, key) {
        if q == r {
          assert key != Replica(r) && key != Node(l.node) ==> At(l.vector, key) <= Own(s, key);
          assert Own(s, key) <= Own(t, key);
          assert At(before, key) <= At(l.vector, key);
          assert r in s.locals ==> Bounded(s, before);
        } else {
          assert Bounded(s, s.locals[q].vector);
        }
      }
    }
    forall m | m in t.inFlight ensures Bounded(t, m.vector) { assert Bounded(s, m.vector); }
  }

  lemma GrowthComposes(s: State, r: nat, node: nat, a: Vector, b: Vector, c: Vector)
    requires GrowsWithin(s, r, node, a, b) && GrowsWithin(s, r, node, b, c)
    ensures GrowsWithin(s, r, node, a, c)
  {
    forall key ensures At(a, key) <= At(c, key) { assert At(a, key) <= At(b, key) <= At(c, key); }
  }

  predicate RecordsVersion(verdict: Verdict) {
    verdict.Bootstrap? || verdict.FastForward? || verdict.Merge?
  }

  // What applying a snapshot does to a replica's vector: a new session first, then the branches for one it has.
  lemma BootstrapGrows(s: State, r: nat, m: Message, merged: Option<nat>, node: nat)
    requires Inv(s) && m in s.inFlight && r !in s.locals && node !in s.owners
    ensures var after := Applied(None, r, m, merged, node);
            after.node == node && GrowsWithin(s, r, node, map[], after.vector) && At(after.vector, Replica(r)) == 1
  {
    assert Bounded(s, m.vector);
    assert At(m.vector, Replica(r)) == 0;
    CommitGrows(s, r, Local(m.vector, m.content, node), m.content);
    assert GrowsWithin(s, r, node, map[], m.vector);
    GrowthComposes(s, r, node, map[], m.vector, Applied(None, r, m, merged, node).vector);
  }

  lemma FastForwardGrows(s: State, r: nat, m: Message)
    requires Inv(s) && m in s.inFlight && r in s.locals
    ensures var l := s.locals[r];
            var absorbed := l.(vector := Absorbed(l.vector, m.vector));
            var after := Committed(absorbed, r, m.content);
            && GrowsWithin(s, r, l.node, l.vector, absorbed.vector) && GrowsWithin(s, r, l.node, l.vector, after.vector)
            && At(absorbed.vector, Replica(r)) == At(l.vector, Replica(r))
            && At(after.vector, Replica(r)) == At(l.vector, Replica(r)) + 1
  {
    var l := s.locals[r];
    assert Bounded(s, m.vector) && Bounded(s, l.vector);
    var absorbed := l.(vector := Absorbed(l.vector, m.vector));
    AbsorbGrows(s, r, l.node, l.vector, m.vector);
    assert At(l.vector, Replica(r)) <= At(absorbed.vector, Replica(r)) <= Own(s, Replica(r));
    CommitGrows(s, r, absorbed, m.content);
    GrowthComposes(s, r, l.node, l.vector, absorbed.vector, Committed(absorbed, r, m.content).vector);
  }

  lemma AppliedGrows(s: State, r: nat, m: Message, merged: Option<nat>, node: nat)
    requires Inv(s) && m in s.inFlight && r in s.locals
    ensures var l := s.locals[r];
            var after := Applied(Some(l), r, m, merged, node);
            && after.node == l.node && GrowsWithin(s, r, l.node, l.vector, after.vector)
            && At(after.vector, Replica(r)) ==
                 At(l.vector, Replica(r)) + (if RecordsVersion(Judge(Some(l), r, m, merged)) then 1 else 0)
  {
    var l := s.locals[r];
    assert Bounded(s, l.vector);
    match Judge(Some(l), r, m, merged)
    case FastForward => FastForwardGrows(s, r, m);
    case Equivalent => FastForwardGrows(s, r, m);
    case Merge(content) => CommitGrows(s, r, l, content);
    case _ =>
  }

  // One replica's session replaced by a grown one that recorded `versions` versions.
  lemma GrowthKeepsInv(s: State, t: State, r: nat, l: Local, before: Vector, versions: nat)
    requires Inv(s) && before == (if r in s.locals then s.locals[r].vector else map[])
    requires GrowsWithin(s, r, l.node, before, l.vector)
    requires At(l.vector, Replica(r)) == At(before, Replica(r)) + versions
    requires t.locals == s.locals[r := l] && t.inFlight == s.inFlight
    requires if r in s.locals then t.owners == s.owners && l.node == s.locals[r].node
               else l.node !in s.owners && t.owners == s.owners[l.node := r]
    requires Count(t, r) == Count(s, r) + versions && forall q :: q != r ==> Count(t, q) == Count(s, q)
    ensures Inv(t)
  {
    GrowthKeepsBounds(s, t, r, l, before);
    forall q ensures Own(t, Replica(q)) == Count(t, q) {
      assert Own(s, Replica(q)) == Count(s, q);
    }
  }

  lemma DoKeepsInv(s: State, step: Step)
    requires Inv(s)
    ensures Inv(Do(s, step))
  {
    if Enabled(s, step) {
      match step
      case Create(r, content, node) => GrowthKeepsInv(s, Do(s, step), r, Local(map[], content, node), map[], 0);
      case Commit(r, content) => CommitKeepsInv(s, r, content);
      case Send(r) => SendKeepsInv(s, Do(s, step), r);
      case Deliver(r, m, merged, node) => DeliverKeepsInv(s, r, m, merged, node);
    }
  }

  lemma CommitKeepsInv(s: State, r: nat, content: nat)
    requires Inv(s) && r in s.locals
    ensures Inv(Do(s, Commit(r, content)))
  {
    CommitGrows(s, r, s.locals[r], content);
    GrowthKeepsInv(s, Do(s, Commit(r, content)), r, Committed(s.locals[r], r, content), s.locals[r].vector, 1);
  }

  lemma DeliverKeepsInv(s: State, r: nat, m: Message, merged: Option<nat>, node: nat)
    requires Inv(s) && m in s.inFlight && (r in s.locals || node !in s.owners)
    ensures Inv(Do(s, Deliver(r, m, merged, node)))
  {
    var t := Do(s, Deliver(r, m, merged, node));
    if r in s.locals {
      AppliedGrows(s, r, m, merged, node);
      var versions := if RecordsVersion(Judge(Some(s.locals[r]), r, m, merged)) then 1 else 0;
      GrowthKeepsInv(s, t, r, t.locals[r], s.locals[r].vector, versions);
    } else {
      BootstrapGrows(s, r, m, merged, node);
      GrowthKeepsInv(s, t, r, t.locals[r], map[], 1);
    }
  }

  lemma SendKeepsInv(s: State, t: State, r: nat)
    requires Inv(s) && r in s.locals
               && t == s.(inFlight := s.inFlight + {Message(s.locals[r].vector, s.locals[r].content)})
    ensures Inv(t)
  {
    forall key ensures Own(t, key) == Own(s, key) {}
    forall q | q in t.locals ensures Bounded(t, t.locals[q].vector) { assert Bounded(s, s.locals[q].vector); }
    forall m | m in t.inFlight ensures Bounded(t, m.vector) {
      assert Bounded(s, s.locals[r].vector);
      assert m in s.inFlight ==> Bounded(s, m.vector);
    }
  }

  lemma {:induction false} RunKeepsInv(s: State, steps: seq<Step>)
    requires Inv(s)
    ensures Inv(Run(s, steps))
    decreases |steps|
  {
    if steps != [] {
      DoKeepsInv(s, steps[0]);
      RunKeepsInv(Do(s, steps[0]), steps[1..]);
    }
  }

  /**
   In every run no vector, held or in flight, shows a clock above the one its owner shows, and a replica's own
   clock counts the versions it recorded.
   */
  lemma NoClockRunsAhead(s: State, steps: seq<Step>, v: Vector, key: Key)
    requires Initial(s)
    requires var e := Run(s, steps);
             (exists r :: r in e.locals && e.locals[r].vector == v) || (exists m :: m in e.inFlight && m.vector == v)
    ensures var e := Run(s, steps);
            && 0 <= At(v, key) <= Own(e, key)
            && (key.Replica? ==> Own(e, key) == Count(e, key.id))
  {
    RunKeepsInv(s, steps);
    assert Bounded(Run(s, steps), v);
  }

  /**
   So among honest replicas the strict comparison of the duplicate-id guard never fires: the guard refuses a
   snapshot exactly in its equal-clock case.
   */
  lemma GuardFiresIff(s: State, steps: seq<Step>, r: nat, m: Message)
    requires Initial(s)
    requires r in Run(s, steps).locals && m in Run(s, steps).inFlight
    ensures var l := Run(s, steps).locals[r];
            && At(m.vector, Replica(r)) <= At(l.vector, Replica(r))
            && (DuplicateIdDetected(l, r, m) <==>
                  0 < At(m.vector, Replica(r)) == At(l.vector, Replica(r)) && l.content != m.content)
  {
    NoClockRunsAhead(s, steps, m.vector, Replica(r));
  }

  lemma Peel(s: State, step: Step, rest: seq<Step>)
    ensures Run(s, [step] + rest) == Run(Do(s, step), rest)
  {
    assert ([step] + rest)[1..] == rest;
  }

  const OURS := Message(map[Node(0) := 1, Replica(0) := 1], 1)
  const THEIRS := Message(map[Node(0) := 1, Replica(0) := 1, Node(1) := 2, Replica(1) := 2], 2)

  // Replica 0 created the session, committed once and sent it.
  lemma WeCommitAndSend(s: State)
    requires Initial(s)
    ensures Do(Do(Do(s, Create(0, 0, 0)), Commit(0, 1)), Send(0)) ==
            State(map[0 := Local(OURS.vector, 1, 0)], {OURS}, map[0 := 0], map[0 := 1])
  {
    assert Committed(Local(map[], 0, 0), 0, 1).vector == OURS.vector;
  }

  // Replica 1 adopts it, commits once and sends it back.
  lemma TheyCommitAndSend(s: State)
    requires s == State(map[0 := Local(OURS.vector, 1, 0)], {OURS}, map[0 := 0], map[0 := 1])
    ensures var t := Do(Do(Do(s, Deliver(1, OURS, None, 1)), Commit(1, 2)), Send(1));
            0 in t.locals && t.locals[0] == s.locals[0] && THEIRS in t.inFlight
  {
    var adopted := Committed(Local(OURS.vector, 1, 1), 1, 1);
    var s1 := Do(s, Deliver(1, OURS, None, 1));
    assert s1.locals[1] == adopted;
    assert Committed(adopted, 1, 2).vector == THEIRS.vector;
  }

  /**
   That case does happen without any duplicated id: a peer that saw our latest commit and then made one of its
   own is refused.
   */
  lemma EqualClockRefusesHonestPeer(s: State)
    requires Initial(s)
    ensures var t := Run(s, [Create(0, 0, 0), Commit(0, 1), Send(0), Deliver(1, OURS, None, 1), Commit(1, 2), Send(1)]);
            0 in t.locals && THEIRS in t.inFlight && DuplicateIdDetected(t.locals[0], 0, THEIRS)
  {
    WeCommitAndSend(s);
    var mid := Do(Do(Do(s, Create(0, 0, 0)), Commit(0, 1)), Send(0));
    TheyCommitAndSend(mid);
    RunOfSix(s, Create(0, 0, 0), Commit(0, 1), Send(0), Deliver(1, OURS, None, 1), Commit(1, 2), Send(1));
  }

  lemma RunOfSix(s: State, a: Step, b: Step, c: Step, d: Step, e: Step, f: Step)
    ensures Run(s, [a, b, c, d, e, f]) == Do(Do(Do(Do(Do(Do(s, a), b), c), d), e), f)
  {
    Peel(s, a, [b, c, d, e, f]);
    Peel(Do(s, a), b, [c, d, e, f]);
    RunOfFour(Do(Do(s, a), b), c, d, e, f);
    assert [a, b, c, d, e, f] == [a] + [b, c, d, e, f] && [b, c, d, e, f] == [b] + [c, d, e, f];
  }

  lemma RunOfFour(s: State, c: Step, d: Step, e: Step, f: Step)
    ensures Run(s, [c, d, e, f]) == Do(Do(Do(Do(s, c), d), e), f)
  {
    Peel(s, c, [d, e, f]);
    Peel(Do(s, c), d, [e, f]);
    Peel(Do(Do(s, c), d), e, [f]);
    Peel(Do(Do(Do(s, c), d), e), f, []);
    assert [c, d, e, f] == [c] + [d, e, f] && [d, e, f] == [d] + [e, f] && [e, f] == [e] + [f] && [f] == [f] + [];
  }
}
