/**
 What version vectors are for: which versions the content of a replica's session reflects. Every recorded version
 gets a tag; tags travel with the content, from commit to snapshot to adoption or merge. The vectors play no part
 in that, so it can be asked whether comparing them ever loses a version.
 */
module SessionLineage {
  import opened Basics
  import opened VectorBounds

  // The c-th version that replica r recorded.
  type Tag = (nat, int)

  // Beside the replicas: the tags each session's content reflects, those of each sent snapshot, and those each
  // version reflected when it was recorded.
  datatype Trace = Trace(state: State, held: map<nat, set<Tag>>, sent: map<Message, set<Tag>>,
                         ledger: map<Tag, set<Tag>>)

  function HeldBy(t: Trace, r: nat): set<Tag> {
    if r in t.held then t.held[r] else {}
  }

  function SentWith(t: Trace, m: Message): set<Tag> {
    if m in t.sent then t.sent[m] else {}
  }

  // Replica r's content now reflects `tags`, and the version just recorded of it.
  function Recorded(t: Trace, r: nat, tags: set<Tag>): Trace {
    var tag := (r, Count(t.state, r) + 1);
    t.(held := t.held[r := tags + {tag}], ledger := t.ledger[tag := tags + {tag}])
  }

  // Adopted content reflects what the snapshot did, merged or equal content what both did.
  function Flow(t: Trace, r: nat, m: Message, verdict: Verdict): set<Tag> {
    match verdict
    case Bootstrap => SentWith(t, m)
    case FastForward => SentWith(t, m)
    case Equivalent => HeldBy(t, r) + SentWith(t, m)
    case Merge(_) => HeldBy(t, r) + SentWith(t, m)
    case _ => HeldBy(t, r)
  }

  function Next(t: Trace, step: Step): Trace {
    if !Enabled(t.state, step) then t
    else
      var after := match step
        case Create(r, _, _) => t.(held := t.held[r := {}])
        case Commit(r, _) => Recorded(t, r, HeldBy(t, r))
        case Send(r) => t.(sent := t.sent[Message(t.state.locals[r].vector, t.state.locals[r].content) := HeldBy(t, r)])
        case Deliver(r, m, merged, _) =>
          var verdict := Judge(LocalOf(t.state, r), r, m, merged);
          if RecordsVersion(verdict) then Recorded(t, r, Flow(t, r, m, verdict))
          else t.(held := t.held[r := Flow(t, r, m, verdict)]);
      after.(state := Do(t.state, step))
  }

  function RunTrace(t: Trace, steps: seq<Step>): Trace
    decreases |steps|
  {
    if steps == [] then t else RunTrace(Next(t, steps[0]), steps[1..])
  }

  predicate Fresh(t: Trace) {
    Initial(t.state) && t.held == map[] && t.sent == map[] && t.ledger == map[]
  }

  // ---------------------------------------------------------------------
  // Vectors tell exactly what is reflected
  // ---------------------------------------------------------------------

  predicate CoveredBy(ledger: map<Tag, set<Tag>>, v: Vector, tag: Tag, r: nat) {
    var last := (r, At(v, Replica(r)));
    last in ledger && tag in ledger[last]
  }

  ghost predicate Covered(ledger: map<Tag, set<Tag>>, v: Vector, tag: Tag) {
    exists r: nat :: CoveredBy(ledger, v, tag, r)
  }

  // The tags are those of the last version of each replica that the vector has seen.
  ghost predicate Reflects(ledger: map<Tag, set<Tag>>, v: Vector, tags: set<Tag>) {
    forall tag :: tag in tags <==> Covered(ledger, v, tag)
  }

  // A later version of a replica reflects what its earlier ones did.
  predicate InOrder(ledger: map<Tag, set<Tag>>, r: nat, c: int, d: int) {
    (r, c) in ledger && (r, d) in ledger && c <= d ==> ledger[(r, c)] <= ledger[(r, d)]
  }

  ghost predicate LedgerFits(s: State, ledger: map<Tag, set<Tag>>) {
    && (forall r: nat, c: int :: (r, c) in ledger <==> 1 <= c <= Count(s, r))
    && (forall r: nat, c: int, d: int :: InOrder(ledger, r, c, d))
    && (forall tag :: tag in ledger ==> tag in ledger[tag])
  }

  ghost predicate LineageInv(t: Trace) {
    && Inv(t.state) && LedgerFits(t.state, t.ledger)
    && (forall r :: r in t.state.locals ==> HeldFits(t, r))
    && (forall m :: m in t.state.inFlight ==> SentFits(t, m))
  }

  ghost predicate HeldFits(t: Trace, r: nat)
    requires r in t.state.locals
  {
    r in t.held && Reflects(t.ledger, t.state.locals[r].vector, t.held[r])
  }

  ghost predicate SentFits(t: Trace, m: Message) {
    m in t.sent && Reflects(t.ledger, m.vector, t.sent[m])
  }

  // A vector of the run: no replica's clock beyond the versions it recorded.
  ghost predicate Within(s: State, v: Vector) {
    forall r: nat :: 0 <= At(v, Replica(r)) <= Count(s, r)
  }

  lemma BoundedIsWithin(s: State, v: Vector)
    requires Inv(s) && Bounded(s, v)
    ensures Within(s, v)
  {
    forall r: nat ensures 0 <= At(v, Replica(r)) <= Count(s, r) {
      assert 0 <= At(v, Replica(r)) <= Own(s, Replica(r));
    }
  }

  /** A vector that has seen more reflects more: comparing vectors is comparing the versions behind the contents. */
  lemma DominanceIsInclusion(s: State, ledger: map<Tag, set<Tag>>, v: Vector, w: Vector, a: set<Tag>, b: set<Tag>)
    requires LedgerFits(s, ledger) && Within(s, v) && Within(s, w)
    requires Reflects(ledger, v, a) && Reflects(ledger, w, b)
    requires forall r: nat :: At(v, Replica(r)) <= At(w, Replica(r))
    ensures a <= b
  {
    forall tag | tag in a ensures tag in b {
      var r: nat :| CoveredBy(ledger, v, tag, r);
      assert At(v, Replica(r)) <= At(w, Replica(r)) <= Count(s, r);
      assert InOrder(ledger, r, At(v, Replica(r)), At(w, Replica(r)));
      assert CoveredBy(ledger, w, tag, r);
    }
  }

  // The pointwise larger of two vectors reflects what either does.
  lemma JoinReflectsBoth(s: State, ledger: map<Tag, set<Tag>>, v: Vector, w: Vector, u: Vector, a: set<Tag>,
                         b: set<Tag>)
    requires LedgerFits(s, ledger) && Within(s, v) && Within(s, w)
    requires Reflects(ledger, v, a) && Reflects(ledger, w, b)
    requires forall r: nat :: At(u, Replica(r)) == Max(At(v, Replica(r)), At(w, Replica(r)))
    ensures Reflects(ledger, u, a + b)
  {
    forall tag ensures tag in a + b <==> Covered(ledger, u, tag) {
      if tag in a {
        var r: nat :| CoveredBy(ledger, v, tag, r);
        JoinCovers(s, ledger, v, u, tag, r);
      } else if tag in b {
        var r: nat :| CoveredBy(ledger, w, tag, r);
        JoinCovers(s, ledger, w, u, tag, r);
      }
      if Covered(ledger, u, tag) {
        var r: nat :| CoveredBy(ledger, u, tag, r);
        assert CoveredBy(ledger, v, tag, r) || CoveredBy(ledger, w, tag, r);
      }
    }
  }

  lemma JoinCovers(s: State, ledger: map<Tag, set<Tag>>, v: Vector, u: Vector, tag: Tag, r: nat)
    requires LedgerFits(s, ledger) && CoveredBy(ledger, v, tag, r)
    requires At(v, Replica(r)) <= At(u, Replica(r)) <= Count(s, r)
    ensures Covered(ledger, u, tag)
  {
    assert InOrder(ledger, r, At(v, Replica(r)), At(u, Replica(r)));
    assert CoveredBy(ledger, u, tag, r);
  }

  // A version recorded later changes nothing about the vectors of before.
  lemma LaterVersionsDoNotMatter(s: State, ledger: map<Tag, set<Tag>>, v: Vector, tags: set<Tag>, tag: Tag,
                                 more: set<Tag>)
    requires Within(s, v) && Reflects(ledger, v, tags) && tag.1 == Count(s, tag.0) + 1
    ensures Reflects(ledger[tag := more], v, tags)
  {
    forall x ensures x in tags <==> Covered(ledger[tag := more], v, x) {
      if x in tags {
        var r: nat :| CoveredBy(ledger, v, x, r);
        assert CoveredBy(ledger[tag := more], v, x, r);
      }
      if Covered(ledger[tag := more], v, x) {
        var r: nat :| CoveredBy(ledger[tag := more], v, x, r);
        assert 0 <= At(v, Replica(r)) <= Count(s, r);
        assert CoveredBy(ledger, v, x, r);
      }
    }
  }

  // The vector after a version was recorded reflects what the version does.
  lemma RecordedReflects(s: State, ledger: map<Tag, set<Tag>>, r: nat, v: Vector, next: Vector, tags: set<Tag>,
                         more: set<Tag>)
    requires Within(s, v) && Reflects(ledger, v, tags) && tags <= more
    requires forall q: nat :: q != r ==> At(next, Replica(q)) == At(v, Replica(q))
    requires At(next, Replica(r)) == Count(s, r) + 1
    ensures Reflects(ledger[(r, Count(s, r) + 1) := more], next, more)
  {
    var extended := ledger[(r, Count(s, r) + 1) := more];
    forall x ensures x in more <==> Covered(extended, next, x) {
      if x in more { assert CoveredBy(extended, next, x, r); }
      if Covered(extended, next, x) {
        var q: nat :| CoveredBy(extended, next, x, q);
        if q != r { assert CoveredBy(ledger, v, x, q); }
      }
    }
  }

  // ---------------------------------------------------------------------
  // Every run
  // ---------------------------------------------------------------------

  // What a replica has recorded is part of what it holds.
  lemma OwnVersionsAreHeld(t: Trace, r: nat, c: int)
    requires LineageInv(t) && r in t.state.locals && (r, c) in t.ledger
    ensures r in t.held && t.ledger[(r, c)] <= t.held[r]
  {
    assert HeldFits(t, r);
    var v := t.state.locals[r].vector;
    assert At(v, Replica(r)) == Own(t.state, Replica(r)) == Count(t.state, r);
    assert InOrder(t.ledger, r, c, Count(t.state, r));
    forall tag | tag in t.ledger[(r, c)] ensures tag in t.held[r] {
      assert CoveredBy(t.ledger, v, tag, r);
    }
  }

  // One more version of replica r, reflecting all its earlier ones.
  lemma LedgerGrows(s: State, next: State, ledger: map<Tag, set<Tag>>, r: nat, tags: set<Tag>)
    requires LedgerFits(s, ledger) && (r, Count(s, r) + 1) in tags
    requires forall q: nat :: Count(next, q) == Count(s, q) + (if q == r then 1 else 0)
    requires forall c: int :: (r, c) in ledger ==> ledger[(r, c)] <= tags
    ensures LedgerFits(next, ledger[(r, Count(s, r) + 1) := tags])
  {
    var extended := ledger[(r, Count(s, r) + 1) := tags];
    forall q: nat, c: int, d: int ensures InOrder(extended, q, c, d) { assert InOrder(ledger, q, c, d); }
  }

  // The step recorded one version of replica r, whose session is now l and reflects `base` and that version.
  ghost predicate Records(t: Trace, next: Trace, r: nat, l: Local, base: set<Tag>) {
    && next == Recorded(t, r, base).(state := next.state)
    && Inv(next.state) && next.state.locals == t.state.locals[r := l] && next.state.inFlight == t.state.inFlight
    && (forall q: nat :: Count(next.state, q) == Count(t.state, q) + (if q == r then 1 else 0))
    && At(l.vector, Replica(r)) == Count(t.state, r) + 1
  }

  // Recording a version of a content that keeps all the replica held keeps the invariant.
  lemma RecordingKeepsLineage(t: Trace, next: Trace, r: nat, l: Local, v: Vector, tags: set<Tag>, base: set<Tag>)
    requires LineageInv(t) && Records(t, next, r, l, base)
    requires Within(t.state, v) && Reflects(t.ledger, v, tags) && tags <= base && HeldBy(t, r) <= base
    requires r !in t.state.locals ==> Count(t.state, r) == 0
    requires forall q: nat :: q != r ==> At(l.vector, Replica(q)) == At(v, Replica(q))
    ensures LineageInv(next)
  {
    var tag := (r, Count(t.state, r) + 1);
    RecordedReflects(t.state, t.ledger, r, v, l.vector, tags, base + {tag});
    OthersStayReflected(t, r, base + {tag});
    forall c: int | (r, c) in t.ledger ensures t.ledger[(r, c)] <= base + {tag} {
      if r in t.state.locals { OwnVersionsAreHeld(t, r, c); }
    }
    LedgerGrows(t.state, next.state, t.ledger, r, base + {tag});
    forall q | q in next.state.locals ensures HeldFits(next, q) {
      if q != r { assert HeldFits(t, q); }
    }
    forall m | m in next.state.inFlight ensures SentFits(next, m) { assert SentFits(t, m); }
  }

  lemma OthersStayReflected(t: Trace, r: nat, more: set<Tag>)
    requires LineageInv(t)
    ensures forall q :: q in t.state.locals ==> q in t.held
    ensures forall m :: m in t.state.inFlight ==> m in t.sent
    ensures var extended := t.ledger[(r, Count(t.state, r) + 1) := more];
            && (forall q :: q in t.state.locals ==> Reflects(extended, t.state.locals[q].vector, t.held[q]))
            && (forall m :: m in t.state.inFlight ==> Reflects(extended, m.vector, t.sent[m]))
  {
    var tag := (r, Count(t.state, r) + 1);
    forall q | q in t.state.locals ensures q in t.held { assert HeldFits(t, q); }
    forall m | m in t.state.inFlight ensures m in t.sent { assert SentFits(t, m); }
    forall q | q in t.state.locals ensures Reflects(t.ledger[tag := more], t.state.locals[q].vector, t.held[q]) {
      assert HeldFits(t, q);
      BoundedIsWithin(t.state, t.state.locals[q].vector);
      LaterVersionsDoNotMatter(t.state, t.ledger, t.state.locals[q].vector, t.held[q], tag, more);
    }
    forall m | m in t.state.inFlight ensures Reflects(t.ledger[tag := more], m.vector, t.sent[m]) {
      assert SentFits(t, m);
      BoundedIsWithin(t.state, m.vector);
      LaterVersionsDoNotMatter(t.state, t.ledger, m.vector, t.sent[m], tag, more);
    }
  }

  lemma CommitRecords(t: Trace, r: nat, content: nat)
    requires LineageInv(t) && r in t.state.locals
    ensures Records(t, Next(t, Commit(r, content)), r, Committed(t.state.locals[r], r, content), HeldBy(t, r))
  {
    DoKeepsInv(t.state, Commit(r, content));
    assert At(t.state.locals[r].vector, Replica(r)) == Own(t.state, Replica(r)) == Count(t.state, r);
  }

  lemma CommitKeepsLineage(t: Trace, r: nat, content: nat)
    requires LineageInv(t) && r in t.state.locals
    ensures LineageInv(Next(t, Commit(r, content)))
  {
    var l := t.state.locals[r];
    CommitRecords(t, r, content);
    assert HeldFits(t, r);
    BoundedIsWithin(t.state, l.vector);
    OthersClocksStay(l, r, content);
    RecordingKeepsLineage(t, Next(t, Commit(r, content)), r, Committed(l, r, content), l.vector,
                          HeldBy(t, r), HeldBy(t, r));
  }

  // A delivery that records a version, seen from outside.
  lemma DeliveryRecords(t: Trace, r: nat, m: Message, merged: Option<nat>, node: nat)
    requires LineageInv(t) && r in t.state.locals && m in t.state.inFlight
    requires RecordsVersion(Judge(Some(t.state.locals[r]), r, m, merged))
    ensures var verdict := Judge(Some(t.state.locals[r]), r, m, merged);
            Records(t, Next(t, Deliver(r, m, merged, node)), r, Applied(Some(t.state.locals[r]), r, m, merged, node),
                    Flow(t, r, m, verdict))
  {
    DoKeepsInv(t.state, Deliver(r, m, merged, node));
    AppliedGrows(t.state, r, m, merged, node);
    assert At(t.state.locals[r].vector, Replica(r)) == Own(t.state, Replica(r)) == Count(t.state, r);
  }

  lemma BothFit(t: Trace, r: nat, m: Message)
    requires LineageInv(t) && r in t.state.locals && m in t.state.inFlight
    ensures r in t.held && m in t.sent
    ensures Reflects(t.ledger, t.state.locals[r].vector, t.held[r]) && Reflects(t.ledger, m.vector, t.sent[m])
    ensures Bounded(t.state, t.state.locals[r].vector) && Bounded(t.state, m.vector)
    ensures Within(t.state, t.state.locals[r].vector) && Within(t.state, m.vector)
  {
    assert HeldFits(t, r) && SentFits(t, m);
    BoundedIsWithin(t.state, t.state.locals[r].vector);
    BoundedIsWithin(t.state, m.vector);
  }

  lemma AbsorbedIsJoin(s: State, v: Vector, w: Vector)
    requires Bounded(s, v) && Bounded(s, w)
    ensures forall r: nat :: At(Absorbed(v, w), Replica(r)) == Max(At(v, Replica(r)), At(w, Replica(r)))
  {
    forall r: nat ensures At(Absorbed(v, w), Replica(r)) == Max(At(v, Replica(r)), At(w, Replica(r))) {
      assert 0 <= At(v, Replica(r)) && 0 <= At(w, Replica(r));
    }
  }

  /**
   What the branches rely on. A snapshot that the session dominates reflects nothing the session does not; one that
   dominates the session reflects everything the session does.
   */
  lemma DominatedReflectsLess(t: Trace, r: nat, m: Message)
    requires LineageInv(t) && r in t.state.locals && m in t.state.inFlight
    ensures r in t.held && m in t.sent
    ensures KnowsAllOf(t.state.locals[r].vector, m.vector) ==> t.sent[m] <= t.held[r]
    ensures KnowsAllOf(m.vector, t.state.locals[r].vector) ==> t.held[r] <= t.sent[m]
  {
    var v := t.state.locals[r].vector;
    BothFit(t, r, m);
    if KnowsAllOf(v, m.vector) {
      assert forall q: nat :: At(m.vector, Replica(q)) <= At(v, Replica(q));
      DominanceIsInclusion(t.state, t.ledger, m.vector, v, t.sent[m], t.held[r]);
    }
    if KnowsAllOf(m.vector, v) {
      assert forall q: nat :: At(v, Replica(q)) <= At(m.vector, Replica(q));
      DominanceIsInclusion(t.state, t.ledger, v, m.vector, t.held[r], t.sent[m]);
    }
  }

  lemma BootstrapKeepsLineage(t: Trace, r: nat, m: Message, merged: Option<nat>, node: nat)
    requires LineageInv(t) && r !in t.state.locals && m in t.state.inFlight && node !in t.state.owners
    requires HeldBy(t, r) == {}
    ensures LineageInv(Next(t, Deliver(r, m, merged, node)))
  {
    var step := Deliver(r, m, merged, node);
    DoKeepsInv(t.state, step);
    assert SentFits(t, m);
    BoundedIsWithin(t.state, m.vector);
    assert Own(t.state, Replica(r)) == Count(t.state, r) == 0;
    var after := Applied(None, r, m, merged, node);
    RecordingKeepsLineage(t, Next(t, step), r, after, m.vector, t.sent[m], t.sent[m]);
  }

  // A version recorded moves no other replica's clock.
  lemma OthersClocksStay(l: Local, self: nat, content: nat)
    ensures forall q: nat :: q != self ==>
              At(Committed(l, self, content).vector, Replica(q)) == At(l.vector, Replica(q))
  {
  }

  // What an adopting delivery does: the vector is the joined one with our own new version, the content has it all.
  lemma AdoptedReflects(t: Trace, r: nat, m: Message)
    requires LineageInv(t) && r in t.state.locals && m in t.state.inFlight
    requires DominatesAll(m.vector, t.state.locals[r].vector)
    ensures r in t.held && m in t.sent && t.held[r] <= t.sent[m]
    ensures Reflects(t.ledger, Absorbed(t.state.locals[r].vector, m.vector), t.sent[m])
    ensures Within(t.state, Absorbed(t.state.locals[r].vector, m.vector))
  {
    DominatedReflectsLess(t, r, m);
    JoinIsWithin(t, r, m);
    assert t.held[r] + t.sent[m] == t.sent[m];
  }

  lemma AdoptionFacts(t: Trace, r: nat, m: Message, merged: Option<nat>, node: nat)
    requires LineageInv(t) && r in t.state.locals && m in t.state.inFlight
    requires Judge(Some(t.state.locals[r]), r, m, merged) == FastForward
    ensures var l, tags := t.state.locals[r], Flow(t, r, m, FastForward);
            && HeldBy(t, r) <= tags && Reflects(t.ledger, Absorbed(l.vector, m.vector), tags)
            && Within(t.state, Absorbed(l.vector, m.vector))
            && forall q: nat :: q != r ==>
                 At(Applied(Some(l), r, m, merged, node).vector, Replica(q)) ==
                   At(Absorbed(l.vector, m.vector), Replica(q))
  {
    var l := t.state.locals[r];
    AdoptedReflects(t, r, m);
    OthersClocksStay(l.(vector := Absorbed(l.vector, m.vector)), r, m.content);
  }

  lemma AdoptionKeepsLineage(t: Trace, r: nat, m: Message, merged: Option<nat>, node: nat)
    requires LineageInv(t) && r in t.state.locals && m in t.state.inFlight
    requires Judge(Some(t.state.locals[r]), r, m, merged) == FastForward
    ensures LineageInv(Next(t, Deliver(r, m, merged, node)))
  {
    var l, tags := t.state.locals[r], Flow(t, r, m, FastForward);
    DeliveryRecords(t, r, m, merged, node);
    AdoptionFacts(t, r, m, merged, node);
    RecordingKeepsLineage(t, Next(t, Deliver(r, m, merged, node)), r, Applied(Some(l), r, m, merged, node),
                          Absorbed(l.vector, m.vector), tags, tags);
  }

  lemma JoinIsWithin(t: Trace, r: nat, m: Message)
    requires LineageInv(t) && r in t.state.locals && m in t.state.inFlight
    ensures r in t.held && m in t.sent
    ensures var absorbed := Absorbed(t.state.locals[r].vector, m.vector);
            Within(t.state, absorbed) && Reflects(t.ledger, absorbed, t.held[r] + t.sent[m])
  {
    var v := t.state.locals[r].vector;
    BothFit(t, r, m);
    AbsorbedIsJoin(t.state, v, m.vector);
    JoinReflectsBoth(t.state, t.ledger, v, m.vector, Absorbed(v, m.vector), t.held[r], t.sent[m]);
  }

  lemma MergeFacts(t: Trace, r: nat, m: Message, merged: Option<nat>, node: nat)
    requires LineageInv(t) && r in t.state.locals && m in t.state.inFlight
    requires Judge(Some(t.state.locals[r]), r, m, merged).Merge?
    ensures var l, verdict := t.state.locals[r], Judge(Some(t.state.locals[r]), r, m, merged);
            && HeldBy(t, r) <= Flow(t, r, m, verdict) && Reflects(t.ledger, l.vector, HeldBy(t, r))
            && Within(t.state, l.vector)
            && forall q: nat :: q != r ==>
                 At(Applied(Some(l), r, m, merged, node).vector, Replica(q)) == At(l.vector, Replica(q))
  {
    var l := t.state.locals[r];
    BothFit(t, r, m);
    OthersClocksStay(l, r, Judge(Some(l), r, m, merged).content);
  }

  lemma MergeKeepsLineage(t: Trace, r: nat, m: Message, merged: Option<nat>, node: nat)
    requires LineageInv(t) && r in t.state.locals && m in t.state.inFlight
    requires Judge(Some(t.state.locals[r]), r, m, merged).Merge?
    ensures LineageInv(Next(t, Deliver(r, m, merged, node)))
  {
    var l, verdict := t.state.locals[r], Judge(Some(t.state.locals[r]), r, m, merged);
    DeliveryRecords(t, r, m, merged, node);
    MergeFacts(t, r, m, merged, node);
    RecordingKeepsLineage(t, Next(t, Deliver(r, m, merged, node)), r, Applied(Some(l), r, m, merged, node),
                          l.vector, HeldBy(t, r), Flow(t, r, m, verdict));
  }

  lemma QuietDeliveryFits(t: Trace, r: nat, m: Message, merged: Option<nat>, node: nat)
    requires LineageInv(t) && r in t.state.locals && m in t.state.inFlight
    requires !RecordsVersion(Judge(Some(t.state.locals[r]), r, m, merged))
    ensures var l := t.state.locals[r];
            Reflects(t.ledger, Applied(Some(l), r, m, merged, node).vector,
              Flow(t, r, m, Judge(Some(l), r, m, merged)))
  {
    var l := t.state.locals[r];
    BothFit(t, r, m);
    DominatedReflectsLess(t, r, m);
    JoinIsWithin(t, r, m);
    if DominatesAll(l.vector, m.vector) { assert t.held[r] + t.sent[m] == t.held[r]; }
  }

  lemma QuietDeliveryKeepsLineage(t: Trace, r: nat, m: Message, merged: Option<nat>, node: nat)
    requires LineageInv(t) && r in t.state.locals && m in t.state.inFlight
    requires !RecordsVersion(Judge(Some(t.state.locals[r]), r, m, merged))
    ensures LineageInv(Next(t, Deliver(r, m, merged, node)))
  {
    var step := Deliver(r, m, merged, node);
    var next := Next(t, step);
    DoKeepsInv(t.state, step);
    QuietDeliveryFits(t, r, m, merged, node);
    forall q | q in next.state.locals ensures HeldFits(next, q) {
      if q != r { assert HeldFits(t, q); }
    }
    forall n | n in next.state.inFlight ensures SentFits(next, n) { assert SentFits(t, n); }
  }

  // A replica without the session holds nothing.
  ghost predicate NothingHeldEarly(t: Trace) {
    forall r :: r in t.held ==> r in t.state.locals
  }

  lemma NextKeepsLineage(t: Trace, step: Step)
    requires LineageInv(t) && NothingHeldEarly(t)
    ensures LineageInv(Next(t, step)) && NothingHeldEarly(Next(t, step))
  {
    if Enabled(t.state, step) {
      match step
      case Create(r, content, node) => CreateKeepsLineage(t, r, content, node);
      case Commit(r, content) => CommitKeepsLineage(t, r, content);
      case Send(r) => SendKeepsLineage(t, r);
      case Deliver(r, m, merged, node) =>
        if r !in t.state.locals {
          BootstrapKeepsLineage(t, r, m, merged, node);
        } else {
          match Judge(Some(t.state.locals[r]), r, m, merged)
          case FastForward => AdoptionKeepsLineage(t, r, m, merged, node);
          case Merge(_) => MergeKeepsLineage(t, r, m, merged, node);
          case _ => QuietDeliveryKeepsLineage(t, r, m, merged, node);
        }
    }
  }

  lemma CreateKeepsLineage(t: Trace, r: nat, content: nat, node: nat)
    requires LineageInv(t) && r !in t.state.locals && node !in t.state.owners
    ensures LineageInv(Next(t, Create(r, content, node)))
  {
    var next := Next(t, Create(r, content, node));
    DoKeepsInv(t.state, Create(r, content, node));
    assert forall tag :: !Covered(t.ledger, map[], tag);
    forall q | q in next.state.locals ensures HeldFits(next, q) {
      if q != r { assert HeldFits(t, q); }
    }
    forall m | m in next.state.inFlight ensures SentFits(next, m) { assert SentFits(t, m); }
  }

  lemma SendKeepsLineage(t: Trace, r: nat)
    requires LineageInv(t) && r in t.state.locals
    ensures LineageInv(Next(t, Send(r)))
  {
    var next := Next(t, Send(r));
    DoKeepsInv(t.state, Send(r));
    forall q | q in next.state.locals ensures HeldFits(next, q) { assert HeldFits(t, q); }
    forall m | m in next.state.inFlight ensures SentFits(next, m) {
      if m in t.state.inFlight { assert SentFits(t, m); }
      assert HeldFits(t, r);
    }
  }

  lemma {:induction false} RunKeepsLineage(t: Trace, steps: seq<Step>)
    requires LineageInv(t) && NothingHeldEarly(t)
    ensures LineageInv(RunTrace(t, steps)) && NothingHeldEarly(RunTrace(t, steps))
    decreases |steps|
  {
    if steps != [] {
      NextKeepsLineage(t, steps[0]);
      RunKeepsLineage(Next(t, steps[0]), steps[1..]);
    }
  }

  // The trace only watches.
  lemma {:induction false} TraceFollowsRun(t: Trace, steps: seq<Step>)
    ensures RunTrace(t, steps).state == Run(t.state, steps)
    decreases |steps|
  {
    if steps != [] { TraceFollowsRun(Next(t, steps[0]), steps[1..]); }
  }

  lemma StepLosesNothing(t: Trace, step: Step, r: nat)
    requires LineageInv(t) && r in t.state.locals
    ensures HeldBy(t, r) <= HeldBy(Next(t, step), r)
  {
    if step.Deliver? && step.replica == r && Enabled(t.state, step) {
      DeliveryLosesNothing(t, r, step.message, step.merged);
    }
  }

  lemma DeliveryLosesNothing(t: Trace, r: nat, m: Message, merged: Option<nat>)
    requires LineageInv(t) && r in t.state.locals && m in t.state.inFlight
    ensures HeldBy(t, r) <= Flow(t, r, m, Judge(LocalOf(t.state, r), r, m, merged))
  {
    DominatedReflectsLess(t, r, m);
  }

  /**
   In every run no step loses a version: whatever is delivered, the content of every replica afterwards still
   reflects every version it reflected before.
   */
  lemma NoDeliveryLosesAVersion(t: Trace, steps: seq<Step>, step: Step, r: nat)
    requires Fresh(t) && r in Run(t.state, steps).locals
    ensures HeldBy(RunTrace(t, steps), r) <= HeldBy(Next(RunTrace(t, steps), step), r)
  {
    TraceFollowsRun(t, steps);
    RunKeepsLineage(t, steps);
    StepLosesNothing(RunTrace(t, steps), step, r);
  }

  /**
   In every run, a snapshot that changes nothing although its content differs, and that is not refused, has
   nothing new.
   */
  lemma IgnoredSnapshotsAreOld(t: Trace, steps: seq<Step>, r: nat, m: Message, merged: Option<nat>, node: nat)
    requires Fresh(t) && r in Run(t.state, steps).locals && m in Run(t.state, steps).inFlight
    requires var l := Run(t.state, steps).locals[r];
             && Applied(Some(l), r, m, merged, node) == l && l.content != m.content
             && Judge(Some(l), r, m, merged) != DuplicateId && Judge(Some(l), r, m, merged) != Conflict
    ensures SentWith(RunTrace(t, steps), m) <= HeldBy(RunTrace(t, steps), r)
  {
    TraceFollowsRun(t, steps);
    RunKeepsLineage(t, steps);
    var l := Run(t.state, steps).locals[r];
    IgnoredIsDominated(l, r, m, merged, node);
    DominatedReflectsLess(RunTrace(t, steps), r, m);
  }

  lemma IgnoredIsDominated(l: Local, r: nat, m: Message, merged: Option<nat>, node: nat)
    requires Applied(Some(l), r, m, merged, node) == l && l.content != m.content
    requires Judge(Some(l), r, m, merged) != DuplicateId && Judge(Some(l), r, m, merged) != Conflict
    ensures KnowsAllOf(l.vector, m.vector)
  {
    forall content ensures Committed(l, r, content) != l {
      assert At(Committed(l, r, content).vector, Replica(r)) == At(l.vector, Replica(r)) + 1;
    }
  }
}
