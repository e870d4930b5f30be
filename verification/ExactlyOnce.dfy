/**
 Counter and filter together. One sending replica numbers its envelopes with the shared counter; the
 channel may deliver any envelope at any time, in any order, as often as it likes; one receiver runs the
 windowed check.
 */
module ExactlyOnce {
  import opened ReplayFilter
  import SeqNo

  // An envelope is its position in the counter's issue order.
  datatype State = State(
    sender: SeqNo.State,
    receiver: Window,
    delivered: set<nat>,
    acceptances: seq<nat>,
    prompt: bool)

  datatype Step = Count(step: SeqNo.Step) | Deliver(envelope: nat)

  predicate IsEnvelope(s: State, replica: string, e: nat) {
    e < |s.sender.issued| && s.sender.issued[e].replica == replica
  }

  // The largest number issued is less than `window` above the envelope's own.
  ghost predicate InTime(s: State, replica: string, window: nat, e: nat)
    requires IsEnvelope(s, replica, e)
  {
    forall f: nat :: IsEnvelope(s, replica, f) ==> s.sender.issued[f].n < s.sender.issued[e].n + window
  }

  // `prompt` records whether every first delivery so far came in time.
  ghost function Do(s: State, replica: string, window: nat, step: Step): State {
    match step
    case Count(step) => s.(sender := SeqNo.Do(s.sender, step))
    case Deliver(e) =>
      if !IsEnvelope(s, replica, e) then s
      else
        var n := s.sender.issued[e].n;
        var ok := Accepts(s.receiver, window, n);
        State(s.sender,
              if ok then Advanced(s.receiver, window, n) else s.receiver,
              s.delivered + {e},
              if ok then s.acceptances + [e] else s.acceptances,
              s.prompt && (e in s.delivered || InTime(s, replica, window, e)))
  }

  ghost function Exec(s: State, replica: string, window: nat, steps: seq<Step>): State
    decreases |steps|
  {
    if steps == [] then s
    else Do(Exec(s, replica, window, steps[..|steps| - 1]), replica, window, steps[|steps| - 1])
  }

  predicate Initial(s: State) {
    SeqNo.Initial(s.sender) && s.receiver == FreshWindow && s.delivered == {} && s.acceptances == [] && s.prompt
  }

  ghost function AcceptedNumbers(s: State, replica: string): set<int> {
    set e: nat | e in s.acceptances && IsEnvelope(s, replica, e) :: s.sender.issued[e].n
  }

  ghost predicate Distinct(envelopes: seq<nat>) {
    forall i, j :: 0 <= i < j < |envelopes| ==> envelopes[i] != envelopes[j]
  }

  ghost predicate Inv(s: State, replica: string, window: nat) {
    && SeqNo.Inv(s.sender)
    && (forall e :: e in s.acceptances ==> IsEnvelope(s, replica, e) && e in s.delivered)
    && (forall e :: e in s.delivered ==> IsEnvelope(s, replica, e))
    && Represents(s.receiver, window, AcceptedNumbers(s, replica))
    && Distinct(s.acceptances)
    && (s.prompt ==> forall e :: e in s.delivered ==> e in s.acceptances)
  }

  lemma NumbersIdentifyEnvelopes(s: State, replica: string, e: nat, f: nat)
    requires SeqNo.Inv(s.sender) && IsEnvelope(s, replica, e) && IsEnvelope(s, replica, f)
    ensures s.sender.issued[e].n == s.sender.issued[f].n ==> e == f
  {
    if e < f { assert s.sender.issued[e].n < s.sender.issued[f].n; }
    if f < e { assert s.sender.issued[f].n < s.sender.issued[e].n; }
  }

  /** An envelope delivered for the first time in time passes the check, whatever was delivered before it. */
  lemma FirstTimelyDeliveryAccepted(s: State, replica: string, window: nat, e: nat)
    requires window >= 1 && Inv(s, replica, window)
    requires IsEnvelope(s, replica, e) && e !in s.delivered && InTime(s, replica, window, e)
    ensures Do(s, replica, window, Deliver(e)).acceptances == s.acceptances + [e]
  {
    var accepted, n := AcceptedNumbers(s, replica), s.sender.issued[e].n;
    WindowDecidesAsIdeal(s.receiver, window, accepted, n);
    if n in accepted {
      var f :| f in s.acceptances && s.sender.issued[f].n == n;
      NumbersIdentifyEnvelopes(s, replica, e, f);
    }
    if accepted != {} {
      assert High(accepted) in accepted;
      var f :| f in s.acceptances && s.sender.issued[f].n == High(accepted);
      assert IsEnvelope(s, replica, f);
    }
  }

  lemma CountKeepsInv(s: State, replica: string, window: nat, step: SeqNo.Step)
    requires Inv(s, replica, window)
    ensures Inv(Do(s, replica, window, Count(step)), replica, window)
  {
    var t := Do(s, replica, window, Count(step));
    SeqNo.DoKeepsInv(s.sender, step);
    assert s.sender.issued <= t.sender.issued;
    assert forall e: nat :: IsEnvelope(s, replica, e) ==>
             IsEnvelope(t, replica, e) && t.sender.issued[e] == s.sender.issued[e];
    assert AcceptedNumbers(t, replica) == AcceptedNumbers(s, replica);
  }

  lemma NumbersAfterDelivery(s: State, replica: string, window: nat, e: nat)
    requires IsEnvelope(s, replica, e)
    ensures var t, n := Do(s, replica, window, Deliver(e)), s.sender.issued[e].n;
            AcceptedNumbers(t, replica) ==
            if Accepts(s.receiver, window, n) then AcceptedNumbers(s, replica) + {n} else AcceptedNumbers(s, replica)
  {
  }

  // An accepted envelope was not accepted before: its number would be in the ideal memory.
  lemma AcceptedOnlyOnce(s: State, replica: string, window: nat, e: nat)
    requires window >= 1 && Inv(s, replica, window) && IsEnvelope(s, replica, e)
    requires Accepts(s.receiver, window, s.sender.issued[e].n)
    ensures e !in s.acceptances
  {
    WindowDecidesAsIdeal(s.receiver, window, AcceptedNumbers(s, replica), s.sender.issued[e].n);
  }

  lemma DeliverKeepsInv(s: State, replica: string, window: nat, e: nat)
    requires window >= 1 && Inv(s, replica, window)
    ensures Inv(Do(s, replica, window, Deliver(e)), replica, window)
  {
    if IsEnvelope(s, replica, e) {
      var t, n := Do(s, replica, window, Deliver(e)), s.sender.issued[e].n;
      WindowDecidesAsIdeal(s.receiver, window, AcceptedNumbers(s, replica), n);
      NumbersAfterDelivery(s, replica, window, e);
      if Accepts(s.receiver, window, n) { AcceptedOnlyOnce(s, replica, window, e); }
      if t.prompt && e !in s.delivered { FirstTimelyDeliveryAccepted(s, replica, window, e); }
    }
  }

  lemma {:induction false} ExecKeepsInv(s: State, replica: string, window: nat, steps: seq<Step>)
    requires window >= 1 && Initial(s)
    ensures Inv(Exec(s, replica, window, steps), replica, window)
    decreases |steps|
  {
    if steps == [] {
      assert Kept({}, window) == {};
    } else {
      var front, last := steps[..|steps| - 1], steps[|steps| - 1];
      ExecKeepsInv(s, replica, window, front);
      match last
      case Count(step) => CountKeepsInv(Exec(s, replica, window, front), replica, window, step);
      case Deliver(e) => DeliverKeepsInv(Exec(s, replica, window, front), replica, window, e);
    }
  }

  /** Over every run, no envelope is accepted twice and only issued numbers are accepted. */
  lemma AtMostOnce(s: State, replica: string, window: nat, steps: seq<Step>)
    requires window >= 1 && Initial(s)
    ensures var t := Exec(s, replica, window, steps);
            Distinct(t.acceptances) && forall e :: e in t.acceptances ==> IsEnvelope(t, replica, e) && e in t.delivered
  {
    ExecKeepsInv(s, replica, window, steps);
  }

  /** If every first delivery of a run was in time, the envelopes accepted are exactly those delivered, once each. */
  lemma ExactlyOnceWhenInTime(s: State, replica: string, window: nat, steps: seq<Step>)
    requires window >= 1 && Initial(s)
    ensures var t := Exec(s, replica, window, steps);
            t.prompt ==> Distinct(t.acceptances) && forall e :: e in t.delivered <==> e in t.acceptances
  {
    ExecKeepsInv(s, replica, window, steps);
  }

  /** In any reachable state, one more timely first delivery is accepted. */
  lemma TimelyDeliveryInAnyRun(s: State, replica: string, window: nat, steps: seq<Step>, e: nat)
    requires window >= 1 && Initial(s)
    requires var t := Exec(s, replica, window, steps);
             IsEnvelope(t, replica, e) && e !in t.delivered && InTime(t, replica, window, e)
    ensures var t := Exec(s, replica, window, steps);
            Do(t, replica, window, Deliver(e)).acceptances == t.acceptances + [e]
  {
    ExecKeepsInv(s, replica, window, steps);
    FirstTimelyDeliveryAccepted(Exec(s, replica, window, steps), replica, window, e);
  }
}
