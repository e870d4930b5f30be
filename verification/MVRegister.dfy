/**
 The multi-value register: per pointer key, the object ids that are currently live together with
 the vector clock each was written with.
 */
module MVRegister {
  import opened VectorClock

  type Bucket = map<string, Clocks>
  datatype Write = Write(id: string, clock: Clocks)

  // ---------------------------------------------------------------------
  // One write
  // ---------------------------------------------------------------------

  // Some other id's live pointer is causally newer: the write is stale.
  ghost predicate Stale(bucket: Bucket, w: Write) {
    exists e :: e in bucket && e != w.id && Less(w.clock, bucket[e])
  }

  // A write that is not stale supersedes every other id it is not concurrent with,
  // and overwrites its own id whatever clock that id had.
  ghost function Updated(bucket: Bucket, w: Write): Bucket {
    if Stale(bucket, w) then bucket
    else (map e | e in bucket && (e == w.id || Concurrent(w.clock, bucket[e])) :: bucket[e])[w.id := w.clock]
  }

  ghost predicate PairwiseConcurrent(bucket: Bucket) {
    forall e, f :: e in bucket && f in bucket && e != f ==> Concurrent(bucket[e], bucket[f])
  }

  function BucketOf(pointers: map<string, Bucket>, key: string): Bucket {
    if key in pointers then pointers[key] else map[]
  }

  // One pass over the live pointers: is the write stale, and if not, which ids does it supersede?
  method Compare(bucket: Bucket, w: Write) returns (stale: bool, superseded: set<string>)
    ensures stale <==> Stale(bucket, w)
    ensures !stale ==> Supersedes(bucket, w, superseded, bucket.Keys)
  {
    superseded := {};
    var left := bucket.Keys;
    while left != {}
      invariant left <= bucket.Keys
      invariant forall e :: e in bucket && e !in left && e != w.id ==> !Less(w.clock, bucket[e])
      invariant Supersedes(bucket, w, superseded, bucket.Keys - left)
      decreases |left|
    {
      var existing :| existing in left;
      left := left - {existing};
      var relation := CausalityCheck(w.clock, bucket[existing]);
      if relation == Dominated && existing != w.id {
        return true, {};
      }
      if relation != IsConcurrent && existing != w.id {
        superseded := superseded + {existing};
      }
    }
    return false, superseded;
  }

  ghost predicate Supersedes(bucket: Bucket, w: Write, superseded: set<string>, among: set<string>)
    requires among <= bucket.Keys
  {
    forall e :: e in superseded <==> e in among && e != w.id && !Concurrent(w.clock, bucket[e])
  }

  lemma UpdatedByDeletion(bucket: Bucket, w: Write, superseded: set<string>)
    requires !Stale(bucket, w) && Supersedes(bucket, w, superseded, bucket.Keys)
    ensures (bucket - superseded)[w.id := w.clock] == Updated(bucket, w)
  {
  }

  class PointerStore {
    var pointers: map<string, Bucket>

    constructor ()
      ensures pointers == map[]
    {
      pointers := map[];
    }

    method UpdatePointer(key: string, w: Write) returns (added: bool)
      modifies this
      ensures pointers == old(pointers)[key := Updated(BucketOf(old(pointers), key), w)]
      ensures added <==> !Stale(BucketOf(old(pointers), key), w)
    {
      var bucket := BucketOf(pointers, key);
      var stale, superseded := Compare(bucket, w);
      if stale {
        pointers := pointers[key := bucket];
        return false;
      }
      UpdatedByDeletion(bucket, w, superseded);
      pointers := pointers[key := (bucket - superseded)[w.id := w.clock]];
      return true;
    }

    method ResolvePointer(key: string, winner: string) returns (resolved: bool)
      modifies this
      ensures resolved <==> winner in BucketOf(old(pointers), key)
      ensures pointers == if resolved then old(pointers)[key := map[winner := old(pointers)[key][winner]]]
                else old(pointers)
    {
      if winner !in BucketOf(pointers, key) {
        return false;
      }
      pointers := pointers[key := map[winner := pointers[key][winner]]];
      return true;
    }
  }

  // ---------------------------------------------------------------------
  // Live pointers are pairwise concurrent, whatever the clocks
  // ---------------------------------------------------------------------

  datatype Step = Update(key: string, write: Write) | Resolve(key: string, winner: string)

  ghost function Applied(pointers: map<string, Bucket>, step: Step): map<string, Bucket> {
    match step
    case Update(key, w) => pointers[key := Updated(BucketOf(pointers, key), w)]
    case Resolve(key, winner) =>
      if winner in BucketOf(pointers, key) then pointers[key := map[winner := pointers[key][winner]]] else pointers
  }

  ghost function AppliedAll(pointers: map<string, Bucket>, steps: seq<Step>): map<string, Bucket>
    decreases |steps|
  {
    if steps == [] then pointers else AppliedAll(Applied(pointers, steps[0]), steps[1..])
  }

  ghost predicate AllForksReal(pointers: map<string, Bucket>) {
    forall key :: key in pointers ==> PairwiseConcurrent(pointers[key])
  }

  lemma UpdateKeepsConcurrency(bucket: Bucket, w: Write)
    requires PairwiseConcurrent(bucket)
    ensures PairwiseConcurrent(Updated(bucket, w))
  {
  }

  lemma {:induction false} StepsKeepForksReal(pointers: map<string, Bucket>, steps: seq<Step>)
    requires AllForksReal(pointers)
    ensures AllForksReal(AppliedAll(pointers, steps))
    decreases |steps|
  {
    if steps != [] {
      var write := if steps[0].Update? then steps[0].write else Write("", map[]);
      UpdateKeepsConcurrency(BucketOf(pointers, steps[0].key), write);
      StepsKeepForksReal(Applied(pointers, steps[0]), steps[1..]);
    }
  }

  /** After any run of updates and resolutions, a key with more than one live pointer is a real fork. */
  lemma ReportedForksAreReal(steps: seq<Step>, key: string, e: string, f: string)
    requires var bucket := BucketOf(AppliedAll(map[], steps), key); e in bucket && f in bucket && e != f
    ensures var bucket := BucketOf(AppliedAll(map[], steps), key); Concurrent(bucket[e], bucket[f])
  {
    StepsKeepForksReal(map[], steps);
  }

  // ---------------------------------------------------------------------
  // Convergence
  // ---------------------------------------------------------------------

  ghost function Run(bucket: Bucket, ws: seq<Write>): Bucket
    decreases |ws|
  {
    if ws == [] then bucket else Updated(Run(bucket, ws[..|ws| - 1]), ws[|ws| - 1])
  }

  ghost function Writes(ws: seq<Write>): set<Write> {
    set w | w in ws
  }

  // No write of the set is causally newer.
  ghost predicate Maximal(w: Write, writes: set<Write>) {
    w in writes && forall u :: u in writes ==> !Less(w.clock, u.clock)
  }

  // A causally maximal write shares neither its object id nor its clock with another write.
  ghost predicate Unambiguous(writes: set<Write>) {
    forall w, u :: Maximal(w, writes) && u in writes && u != w ==> u.id != w.id && !Equal(u.clock, w.clock)
  }

  // The live pointers are exactly the causally maximal writes.
  ghost predicate HoldsMaximal(bucket: Bucket, writes: set<Write>) {
    && (forall e :: e in bucket ==> Maximal(Write(e, bucket[e]), writes))
    && (forall w :: Maximal(w, writes) ==> w.id in bucket && bucket[w.id] == w.clock)
  }

  // Whatever order, batching and repeats the writes arrive in, replicas end up alike.
  ghost predicate OrderIndependent(writes: set<Write>) {
    forall a, b :: Writes(a) == writes && Writes(b) == writes ==> Run(map[], a) == Run(map[], b)
  }

  ghost predicate EntriesFrom(bucket: Bucket, writes: set<Write>) {
    forall e :: e in bucket ==> Write(e, bucket[e]) in writes
  }

  ghost predicate MaximalDelivered(bucket: Bucket, delivered: set<Write>, writes: set<Write>) {
    forall w :: w in delivered && Maximal(w, writes) ==> w.id in bucket && bucket[w.id] == w.clock
  }

  lemma {:induction false} RunInvariants(ws: seq<Write>, writes: set<Write>)
    requires Writes(ws) <= writes
    ensures EntriesFrom(Run(map[], ws), writes) && PairwiseConcurrent(Run(map[], ws))
    ensures Unambiguous(writes) ==> MaximalDelivered(Run(map[], ws), Writes(ws), writes)
    decreases |ws|
  {
    if ws != [] {
      var front, w := ws[..|ws| - 1], ws[|ws| - 1];
      assert ws == front + [w];
      assert w in Writes(ws) && Writes(front) <= Writes(ws) && Writes(ws) == Writes(front) + {w};
      RunInvariants(front, writes);
      UpdateKeepsConcurrency(Run(map[], front), w);
      if Unambiguous(writes) {
        MaximalSurvives(Run(map[], front), w, Writes(front), writes);
      }
    }
  }

  lemma MaximalSurvives(bucket: Bucket, w: Write, delivered: set<Write>, writes: set<Write>)
    requires Unambiguous(writes) && w in writes && EntriesFrom(bucket, writes)
    requires MaximalDelivered(bucket, delivered, writes)
    ensures MaximalDelivered(Updated(bucket, w), delivered + {w}, writes)
  {
    forall m | m in delivered + {w} && Maximal(m, writes)
      ensures m.id in Updated(bucket, w) && Updated(bucket, w)[m.id] == m.clock
    {
      if m == w {
        assert forall e :: e in bucket ==> Write(e, bucket[e]) in writes;
        assert !Stale(bucket, w);
      } else {
        assert m.id in bucket && w.id != m.id && !Equal(w.clock, m.clock) && !Less(m.clock, w.clock);
        assert Stale(bucket, w) || Concurrent(w.clock, m.clock);
      }
    }
  }

  lemma {:induction false} MaximalAbove(w: Write, writes: set<Write>) returns (m: Write)
    requires w in writes
    ensures Maximal(m, writes) && Leq(w.clock, m.clock)
    decreases set u | u in writes && Less(w.clock, u.clock)
  {
    if u :| u in writes && Less(w.clock, u.clock) {
      var above := set v | v in writes && Less(w.clock, v.clock);
      forall v | v in writes && Less(u.clock, v.clock) ensures v in above {
        LeqTransitive(w.clock, u.clock, v.clock);
        if Leq(v.clock, w.clock) { LeqTransitive(v.clock, w.clock, u.clock); }
      }
      assert u in above;
      m := MaximalAbove(u, writes);
      LeqTransitive(w.clock, u.clock, m.clock);
    } else {
      m := w;
    }
  }

  /** Without ambiguity, any delivery order with any repeats leaves exactly the causally maximal writes. */
  lemma RunHoldsMaximal(ws: seq<Write>)
    requires Unambiguous(Writes(ws))
    ensures HoldsMaximal(Run(map[], ws), Writes(ws))
  {
    var writes, bucket := Writes(ws), Run(map[], ws);
    RunInvariants(ws, writes);
    forall e | e in bucket ensures Maximal(Write(e, bucket[e]), writes) {
      assert Write(e, bucket[e]) in writes;
      var m := MaximalAbove(Write(e, bucket[e]), writes);
      assert m.id in bucket && bucket[m.id] == m.clock;
      assert m.id == e;
    }
  }

  lemma HoldsMaximalIsUnique(a: Bucket, b: Bucket, writes: set<Write>)
    requires HoldsMaximal(a, writes) && HoldsMaximal(b, writes)
    ensures a == b
  {
    forall e
      ensures e in a <==> e in b
      ensures e in a && e in b ==> a[e] == b[e]
    {
      if e in a { assert Maximal(Write(e, a[e]), writes); }
      if e in b { assert Maximal(Write(e, b[e]), writes); }
    }
  }

  lemma RunAppend(ws: seq<Write>, w: Write)
    ensures Run(map[], ws + [w]) == Updated(Run(map[], ws), w)
    ensures Writes(ws + [w]) == Writes(ws) + {w}
  {
    assert (ws + [w])[..|ws|] == ws;
  }

  lemma {:induction false} Enumeration(writes: set<Write>) returns (ws: seq<Write>)
    ensures Writes(ws) == writes
    decreases writes
  {
    if writes == {} {
      ws := [];
    } else {
      var w :| w in writes;
      var rest := Enumeration(writes - {w});
      ws := rest + [w];
      RunAppend(rest, w);
    }
  }

  // A maximal write delivered last is live, and no other pointer is comparable with it.
  lemma MaximalDeliveredLast(ws: seq<Write>, w: Write, writes: set<Write>)
    requires Maximal(w, writes) && Writes(ws) == writes
    ensures Writes(ws + [w]) == writes
    ensures var bucket := Run(map[], ws + [w]);
            w.id in bucket && bucket[w.id] == w.clock &&
            forall e :: e in bucket && e != w.id ==> Concurrent(w.clock, bucket[e])
  {
    RunAppend(ws, w);
    RunInvariants(ws, writes);
    var bucket := Run(map[], ws);
    assert forall e :: e in bucket ==> Write(e, bucket[e]) in writes;
    assert !Stale(bucket, w);
  }

  lemma {:induction false} NeverRewritten(bucket: Bucket, ws: seq<Write>, w: Write)
    requires w !in ws && !(w.id in bucket && bucket[w.id] == w.clock)
    ensures var end := Run(bucket, ws); !(w.id in end && end[w.id] == w.clock)
    decreases |ws|
  {
    if ws != [] {
      assert ws[|ws| - 1] in ws;
      NeverRewritten(bucket, ws[..|ws| - 1], w);
    }
  }

  lemma {:induction false} RunConcat(bucket: Bucket, a: seq<Write>, b: seq<Write>)
    ensures Run(bucket, a + b) == Run(Run(bucket, a), b)
    decreases |b|
  {
    if b == [] {
      assert a + b == a;
    } else {
      assert (a + b)[..|a + b| - 1] == a + b[..|b| - 1];
      RunConcat(bucket, a, b[..|b| - 1]);
    }
  }

  // One id with two clocks, delivered stale-last: the maximal write is lost.
  lemma OverwrittenByOwnId(w: Write, u: Write, writes: set<Write>) returns (ws: seq<Write>)
    requires w in writes && u in writes && u != w && u.id == w.id
    ensures Writes(ws) == writes
    ensures var bucket := Run(map[], ws); !(w.id in bucket && bucket[w.id] == w.clock)
  {
    var rest := Enumeration(writes - {w});
    ws := [w, u] + rest;
    assert Writes(ws) == {w, u} + Writes(rest);
    RunAppend([], w);
    RunAppend([w], u);
    assert [] + [w] == [w] && [w] + [u] == [w, u];
    assert forall e :: e in Run(map[], [w]) ==> e == u.id;
    assert w !in rest by { assert forall x :: x in rest ==> x in Writes(rest); }
    NeverRewritten(Run(map[], [w, u]), rest, w);
    RunConcat(map[], [w, u], rest);
  }

  lemma AmbiguityDiverges(writes: set<Write>)
    requires !Unambiguous(writes)
    ensures !OrderIndependent(writes)
  {
    var w, u :| Maximal(w, writes) && u in writes && u != w && (u.id == w.id || Equal(u.clock, w.clock));
    var all := Enumeration(writes);
    MaximalDeliveredLast(all, w, writes);
    if u.id == w.id {
      var other := OverwrittenByOwnId(w, u, writes);
      assert Run(map[], all + [w]) != Run(map[], other);
    } else {
      forall v | v in writes ensures !Less(u.clock, v.clock) {
        if Less(u.clock, v.clock) {
          LeqTransitive(w.clock, u.clock, v.clock);
          if Leq(v.clock, w.clock) { LeqTransitive(v.clock, w.clock, u.clock); }
        }
      }
      MaximalDeliveredLast(all, u, writes);
      assert Run(map[], all + [w]) != Run(map[], all + [u]);
    }
  }

  /**
   The register converges under every delivery order with repeats exactly when no causally maximal
   write shares its object id or its clock with another write. Both ways.
   */
  lemma ConvergesIff(writes: set<Write>)
    ensures OrderIndependent(writes) <==> Unambiguous(writes)
  {
    if Unambiguous(writes) {
      forall a, b | Writes(a) == writes && Writes(b) == writes ensures Run(map[], a) == Run(map[], b) {
        RunHoldsMaximal(a);
        RunHoldsMaximal(b);
        HoldsMaximalIsUnique(Run(map[], a), Run(map[], b), writes);
      }
    } else {
      AmbiguityDiverges(writes);
    }
  }

  // What the gossip layer is meant to supply: one clock per object id, unequal clocks across ids.
  ghost predicate Coherent(writes: set<Write>) {
    forall w, u :: w in writes && u in writes && w != u ==> w.id != u.id && !Equal(w.clock, u.clock)
  }

  /** Replicas that saw the same coherent writes agree, on exactly the causally maximal ones. */
  lemma CoherentWritesConverge(a: seq<Write>, b: seq<Write>)
    requires Writes(a) == Writes(b) && Coherent(Writes(a))
    ensures Run(map[], a) == Run(map[], b) && HoldsMaximal(Run(map[], a), Writes(a))
  {
    ConvergesIff(Writes(a));
    RunHoldsMaximal(a);
  }

  // ---------------------------------------------------------------------
  // Many keys: each register only sees its own writes
  // ---------------------------------------------------------------------

  datatype KeyedWrite = KeyedWrite(key: string, write: Write)

  ghost function RunStore(ws: seq<KeyedWrite>): map<string, Bucket>
    decreases |ws|
  {
    if ws == [] then map[]
    else
      var before, last := RunStore(ws[..|ws| - 1]), ws[|ws| - 1];
      Applied(before, Update(last.key, last.write))
  }

  ghost function Project(ws: seq<KeyedWrite>, key: string): seq<Write>
    decreases |ws|
  {
    if ws == [] then []
    else
      var last := ws[|ws| - 1];
      Project(ws[..|ws| - 1], key) + if last.key == key then [last.write] else []
  }

  /** Interleaving writes to other keys never disturbs a register. */
  lemma {:induction false} KeysAreIndependent(ws: seq<KeyedWrite>, key: string)
    ensures BucketOf(RunStore(ws), key) == Run(map[], Project(ws, key))
    decreases |ws|
  {
    if ws != [] {
      var front, last := ws[..|ws| - 1], ws[|ws| - 1];
      KeysAreIndependent(front, key);
      if last.key == key {
        RunAppend(Project(front, key), last.write);
      } else {
        assert Project(ws, key) == Project(front, key);
      }
    }
  }
}
