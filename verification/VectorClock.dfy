/**
 Version vectors of the CRDT layer and their causal comparison. A vector maps a node id to the
 highest clock observed from it; a missing entry reads as 0. Clocks loaded from JSON may be any
 integer, so nothing here assumes they are positive.
 */
module VectorClock {

  type Clocks = map<string, int>

  function At(v: Clocks, node: string): int {
    if node in v then v[node] else 0
  }

  // Pointwise order: b has seen everything a has.
  ghost predicate Leq(a: Clocks, b: Clocks) {
    forall n :: At(a, n) <= At(b, n)
  }

  ghost predicate Equal(a: Clocks, b: Clocks) {
    Leq(a, b) && Leq(b, a)
  }

  ghost predicate Less(a: Clocks, b: Clocks) {
    Leq(a, b) && !Leq(b, a)
  }

  ghost predicate Concurrent(a: Clocks, b: Clocks) {
    !Leq(a, b) && !Leq(b, a)
  }

  datatype Causality = Dominates | Dominated | IsConcurrent | IsEqual

  lemma LeqTransitive(a: Clocks, b: Clocks, c: Clocks)
    requires Leq(a, b) && Leq(b, c)
    ensures Leq(a, c)
  {
    forall n ensures At(a, n) <= At(c, n) {
      assert At(a, n) <= At(b, n) && At(b, n) <= At(c, n);
    }
  }

  /** The four-way answer is the pointwise order, both ways, over every node id and not just those iterated. */
  method CausalityCheck(a: Clocks, b: Clocks) returns (result: Causality)
    ensures result == Dominates <==> Less(b, a)
    ensures result == Dominated <==> Less(a, b)
    ensures result == IsConcurrent <==> Concurrent(a, b)
    ensures result == IsEqual <==> Equal(a, b)
  {
    var nodeIds := a.Keys + b.Keys;
    var aHasGreater, bHasGreater := false, false;
    var left := nodeIds;
    while left != {}
      invariant left <= nodeIds
      invariant aHasGreater <==> exists n :: n in nodeIds - left && At(a, n) > At(b, n)
      invariant bHasGreater <==> exists n :: n in nodeIds - left && At(b, n) > At(a, n)
      decreases |left|
    {
      var node :| node in left;
      left := left - {node};
      if At(a, node) > At(b, node) {
        aHasGreater := true;
      } else if At(b, node) > At(a, node) {
        bHasGreater := true;
      }
    }
    assert forall n :: n !in nodeIds ==> At(a, n) == At(b, n) == 0;
    assert aHasGreater <==> !Leq(a, b);
    assert bHasGreater <==> !Leq(b, a);
    if aHasGreater && bHasGreater { return IsConcurrent; }
    if aHasGreater { return Dominates; }
    if bHasGreater { return Dominated; }
    return IsEqual;
  }

  function Observed(v: Clocks, node: string, clock: int): Clocks {
    if clock > At(v, node) then v[node := clock] else v
  }

  function Bumped(v: Clocks, node: string): Clocks {
    v[node := At(v, node) + 1]
  }

  // The merge keeps every entry of v and raises those that `other` exceeds.
  ghost predicate IsMergeOf(m: Clocks, v: Clocks, other: Clocks) {
    && m.Keys == v.Keys + (set n | n in other && other[n] > At(v, n))
    && forall n :: n in m ==> m[n] == if n in other && other[n] > At(v, n) then other[n] else At(v, n)
  }

  ghost predicate IsJoin(m: Clocks, v: Clocks, other: Clocks) {
    forall n :: At(m, n) == if At(v, n) >= At(other, n) then At(v, n) else At(other, n)
  }

  ghost predicate NoHiddenNegative(v: Clocks, other: Clocks) {
    forall n :: n in v && n !in other ==> v[n] >= 0
  }

  /** The merge is the pointwise maximum exactly when v has no negative clock for a node that `other` lacks. */
  lemma MergeIsJoinIff(m: Clocks, v: Clocks, other: Clocks)
    requires IsMergeOf(m, v, other)
    ensures IsJoin(m, v, other) <==> NoHiddenNegative(v, other)
  {
    if !NoHiddenNegative(v, other) {
      var n :| n in v && n !in other && v[n] < 0;
      assert At(m, n) == v[n];
    }
  }

  /** A join is the least upper bound, so merging replicas loses nothing and invents nothing. */
  lemma JoinIsLeastUpperBound(m: Clocks, v: Clocks, other: Clocks, bound: Clocks)
    requires IsJoin(m, v, other)
    ensures Leq(v, m) && Leq(other, m)
    ensures Leq(v, bound) && Leq(other, bound) ==> Leq(m, bound)
  {
    if Leq(v, bound) && Leq(other, bound) {
      forall n ensures At(m, n) <= At(bound, n) {
        assert At(v, n) <= At(bound, n) && At(other, n) <= At(bound, n);
      }
    }
  }

  lemma MergeStep(result: Clocks, v: Clocks, other: Clocks, left: set<string>, node: string)
    requires IsMergeOf(result, v, other - left) && node in left && node in other
    ensures IsMergeOf(Observed(result, node, other[node]), v, other - (left - {node}))
  {
    var before, after := other - left, other - (left - {node});
    assert after == before[node := other[node]];
    assert At(result, node) == At(v, node);
  }

  class VersionVector {
    var clocks: Clocks

    constructor (clocks: Clocks)
      ensures this.clocks == clocks
    {
      this.clocks := clocks;
    }

    method Bump(node: string) returns (value: int)
      modifies this
      ensures clocks == Bumped(old(clocks), node) && value == clocks[node]
      ensures Less(old(clocks), clocks) && value == At(old(clocks), node) + 1
      ensures forall n :: n != node ==> At(clocks, n) == At(old(clocks), n)
    {
      value := At(clocks, node) + 1;
      clocks := clocks[node := value];
      assert At(clocks, node) > At(old(clocks), node);
    }

    /** Observing never moves a clock backwards, and afterwards the clock has been seen. */
    method Observe(node: string, clock: int)
      modifies this
      ensures clocks == Observed(old(clocks), node, clock)
      ensures Leq(old(clocks), clocks) && Seen(node, clock)
      ensures At(clocks, node) == At(old(clocks), node) || At(clocks, node) == clock
      ensures forall n :: n != node ==> At(clocks, n) == At(old(clocks), n)
    {
      if clock > At(clocks, node) {
        clocks := clocks[node := clock];
      }
    }

    predicate Seen(node: string, clock: int)
      reads this
    {
      At(clocks, node) >= clock
    }

    method Merge(other: VersionVector) returns (merged: VersionVector)
      ensures fresh(merged) && IsMergeOf(merged.clocks, clocks, other.clocks)
    {
      var result := clocks;
      var theirs := other.clocks;
      var left := theirs.Keys;
      while left != {}
        invariant left <= theirs.Keys
        invariant IsMergeOf(result, clocks, theirs - left)
        decreases |left|
      {
        var node :| node in left;
        MergeStep(result, clocks, theirs, left, node);
        result := Observed(result, node, theirs[node]);
        left := left - {node};
      }
      assert theirs - left == theirs;
      merged := new VersionVector(result);
    }
  }
}
