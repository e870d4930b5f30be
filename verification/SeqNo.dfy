/**
 The persisted sequence counter: any number of counter objects, in any number of processes, share one
 file under one lock. A call of `next` is split into its acquire, read, write and release steps; steps of
 different counters interleave freely, and a counter may crash between any two of them. Writes succeed
 and are not torn.
 */
module SeqNo {
  import opened Basics

  type Values = map<string, int>

  // Where a counter is inside `next`: outside, holding the lock, having read the file and computed the
  // map it is about to write, or having written it.
  datatype Phase = Idle | Locked | Computed(values: Values) | Written

  datatype Counter = Counter(replica: string, value: int, phase: Phase)
  datatype Issue = Issue(replica: string, n: int)
  datatype Holder = Free | HeldBy(pid: nat)

  datatype State = State(file: Values, lock: Holder, counters: map<nat, Counter>, issued: seq<Issue>)

  datatype Step =
    | Start(pid: nat, replica: string, start: nat)
    | Acquire(pid: nat)
    | Read(pid: nat)
    | WriteFile(pid: nat)
    | Release(pid: nat)
    | Crash(pid: nat)

  function Stored(file: Values, replica: string): int {
    if replica in file then file[replica] else 0
  }

  function Max(a: int, b: int): int {
    if a >= b then a else b
  }

  predicate Enabled(s: State, step: Step) {
    match step
    case Start(pid, replica, _) => pid !in s.counters && Strip(replica) != ""
    case Acquire(pid) => pid in s.counters && s.counters[pid].phase.Idle? && s.lock.Free?
    case Read(pid) => pid in s.counters && s.counters[pid].phase.Locked?
    case WriteFile(pid) => pid in s.counters && s.counters[pid].phase.Computed?
    case Release(pid) => pid in s.counters && s.counters[pid].phase.Written?
    case Crash(pid) => pid in s.counters
  }

  function WithCounter(s: State, pid: nat, c: Counter): State {
    s.(counters := s.counters[pid := c])
  }

  // A step that is not enabled changes nothing. Construction reads the file without the lock.
  function Do(s: State, step: Step): State {
    if !Enabled(s, step) then s
    else match step
      case Start(pid, replica, start) =>
        WithCounter(s, pid, Counter(replica, Max(start, Stored(s.file, replica)), Idle))
      case Acquire(pid) =>
        WithCounter(s, pid, s.counters[pid].(phase := Locked)).(lock := HeldBy(pid))
      case Read(pid) =>
        var c := s.counters[pid];
        var value := Max(c.value, Stored(s.file, c.replica)) + 1;
        WithCounter(s, pid, c.(value := value, phase := Computed(s.file[c.replica := value])))
      case WriteFile(pid) =>
        var c := s.counters[pid];
        WithCounter(s, pid, c.(phase := Written)).(file := c.phase.values)
      case Release(pid) =>
        var c := s.counters[pid];
        WithCounter(s, pid, c.(phase := Idle)).(lock := Free, issued := s.issued + [Issue(c.replica, c.value)])
      case Crash(pid) =>
        // The operating system drops the lock of a dead process.
        s.(counters := s.counters - {pid}, lock := if s.lock == HeldBy(pid) then Free else s.lock)
  }

  function Exec(s: State, steps: seq<Step>): State
    decreases |steps|
  {
    if steps == [] then s else Do(Exec(s, steps[..|steps| - 1]), steps[|steps| - 1])
  }

  // Nothing running and nothing issued yet; the file may hold anything.
  predicate Initial(s: State) {
    s.lock.Free? && s.counters == map[] && s.issued == []
  }

  ghost predicate IssuedBelow(s: State, replica: string, bound: int) {
    forall i :: 0 <= i < |s.issued| && s.issued[i].replica == replica ==> s.issued[i].n < bound
  }

  ghost predicate CounterInv(s: State, pid: nat)
    requires pid in s.counters
  {
    var c := s.counters[pid];
    && c.value >= 0
    && (!c.phase.Idle? ==> s.lock == HeldBy(pid))
    && (c.phase.Computed? ==> c.value > Stored(s.file, c.replica) && c.phase.values == s.file[c.replica := c.value])
    && (c.phase.Written? ==> c.value >= 1 && Stored(s.file, c.replica) == c.value && IssuedBelow(s, c.replica, c.value))
    && (c.phase.Computed? ==> c.value >= 1)
  }

  ghost predicate Ordered(issued: seq<Issue>) {
    forall i, j :: 0 <= i < j < |issued| && issued[i].replica == issued[j].replica ==> issued[i].n < issued[j].n
  }

  ghost predicate Inv(s: State) {
    && (forall pid :: pid in s.counters ==> CounterInv(s, pid))
    && (forall i :: 0 <= i < |s.issued| ==> 1 <= s.issued[i].n <= Stored(s.file, s.issued[i].replica))
    && Ordered(s.issued)
  }

  lemma IssuedBelowNext(s: State, replica: string)
    requires Inv(s)
    ensures IssuedBelow(s, replica, Stored(s.file, replica) + 1)
  {
  }

  lemma DoKeepsInv(s: State, step: Step)
    requires Inv(s)
    ensures Inv(Do(s, step))
  {
    if Enabled(s, step) {
      var t := Do(s, step);
      match step
      case WriteFile(pid) =>
        var c := s.counters[pid];
        assert CounterInv(s, pid);
        IssuedBelowNext(s, c.replica);
        forall p | p in t.counters ensures CounterInv(t, p) { assert CounterInv(s, p); }
      case Release(pid) =>
        assert CounterInv(s, pid);
        forall p | p in t.counters ensures CounterInv(t, p) { assert CounterInv(s, p); }
      case _ =>
        forall p | p in t.counters ensures CounterInv(t, p) { assert p in s.counters ==> CounterInv(s, p); }
    }
  }

  lemma {:induction false} ExecKeepsInv(s: State, steps: seq<Step>)
    requires Initial(s)
    ensures Inv(Exec(s, steps))
    decreases |steps|
  {
    if steps != [] {
      ExecKeepsInv(s, steps[..|steps| - 1]);
      DoKeepsInv(Exec(s, steps[..|steps| - 1]), steps[|steps| - 1]);
    }
  }

  /** Over every interleaving, crash and restart, the values issued for a replica id strictly increase in lock order. */
  lemma NoValueIssuedTwice(s: State, steps: seq<Step>, i: nat, j: nat)
    requires Initial(s)
    requires var issued := Exec(s, steps).issued; i < j < |issued| && issued[i].replica == issued[j].replica
    ensures var issued := Exec(s, steps).issued; 1 <= issued[i].n < issued[j].n
  {
    ExecKeepsInv(s, steps);
  }

  /** One step changes at most the file entry of the stepping counter's own replica id, and only upwards. */
  lemma OnlyOwnEntryMoves(s: State, step: Step, replica: string)
    requires Inv(s)
    ensures Stored(Do(s, step).file, replica) >= Stored(s.file, replica)
    ensures replica in s.file ==> replica in Do(s, step).file
    ensures Do(s, step).file != s.file ==> Enabled(s, step) && step.WriteFile?
    ensures step.WriteFile? && Enabled(s, step) && replica != s.counters[step.pid].replica ==>
              && (replica in Do(s, step).file <==> replica in s.file)
              && Stored(Do(s, step).file, replica) == Stored(s.file, replica)
  {
    if Enabled(s, step) && step.WriteFile? {
      assert CounterInv(s, step.pid);
    }
  }

  /** No entry of the shared file is ever lost or moved back, whoever writes and whoever crashes. */
  lemma {:induction false} EntriesNeverLost(s: State, steps: seq<Step>, replica: string)
    requires Initial(s)
    ensures Stored(Exec(s, steps).file, replica) >= Stored(s.file, replica)
    ensures replica in s.file ==> replica in Exec(s, steps).file
    decreases |steps|
  {
    if steps != [] {
      var front := steps[..|steps| - 1];
      EntriesNeverLost(s, front, replica);
      ExecKeepsInv(s, front);
      OnlyOwnEntryMoves(Exec(s, front), steps[|steps| - 1], replica);
    }
  }

  // ---------------------------------------------------------------------
  // The counter object, for a call that nothing interrupts
  // ---------------------------------------------------------------------

  class CounterFile {
    var values: Values

    constructor (values: Values)
      ensures this.values == values
    {
      this.values := values;
    }
  }

  class SeqNoCounter {
    const replica: string
    const persist: bool
    const file: CounterFile
    var value: int

    constructor (replica: string, file: CounterFile, persist: bool, start: int)
      requires Strip(replica) != "" && start >= 0
      ensures this.replica == replica && this.file == file && this.persist == persist
      ensures value == Max(start, if persist then Stored(file.values, replica) else 0)
    {
      this.replica, this.file, this.persist := replica, file, persist;
      value := Max(start, if persist then Stored(file.values, replica) else 0);
    }

    method Next() returns (n: int)
      modifies this, file
      ensures n == value && n > old(value)
      ensures persist ==> n == Max(old(value), Stored(old(file.values), replica)) + 1
      ensures persist && replica in old(file.values) ==>
                n > old(file.values)[replica] && (n == old(value) + 1 || n == old(file.values)[replica] + 1)
      ensures persist && replica !in old(file.values) && old(value) >= 0 ==> n == old(value) + 1
      ensures persist ==> file.values == old(file.values)[replica := n]
      ensures !persist ==> n == old(value) + 1 && file.values == old(file.values)
    {
      var floor, all := value, map[];
      if persist {
        all := file.values;
        floor := Max(floor, Stored(all, replica));
      }
      value := floor + 1;
      if persist {
        all := all[replica := value];
        file.values := all;
      }
      return value;
    }
  }

  datatype Opened = Opened(counter: SeqNoCounter) | Refused

  /** A blank replica id or a negative start is refused; otherwise the counter resumes where the file stands. */
  method OpenCounter(replica: string, file: CounterFile, persist: bool, start: int) returns (r: Opened)
    ensures r.Refused? <==> Strip(replica) == "" || start < 0
    ensures r.Opened? ==>
              && fresh(r.counter) && r.counter.replica == replica
              && r.counter.file == file && r.counter.persist == persist
              && r.counter.value == Max(start, if persist then Stored(file.values, replica) else 0)
              && r.counter.value >= start
              && (!persist || replica !in file.values ==> r.counter.value == start)
              && (persist && replica in file.values ==>
                    && r.counter.value >= file.values[replica]
                    && (r.counter.value == start || r.counter.value == file.values[replica]))
  {
    if Strip(replica) == "" || start < 0 { return Refused; }
    var counter := new SeqNoCounter(replica, file, persist, start);
    r := Opened(counter);
  }

  /** The four steps of one call, run back to back, are the atomic `Next` of the counter object. */
  lemma UninterruptedCall(s: State, pid: nat)
    requires Enabled(s, Acquire(pid))
    ensures var c := s.counters[pid];
            var n := Max(c.value, Stored(s.file, c.replica)) + 1;
            Exec(s, [Acquire(pid), Read(pid), WriteFile(pid), Release(pid)]) ==
            State(s.file[c.replica := n], Free, s.counters[pid := Counter(c.replica, n, Idle)],
              s.issued + [Issue(c.replica, n)])
  {
    var steps := [Acquire(pid), Read(pid), WriteFile(pid), Release(pid)];
    assert steps[..3] == [Acquire(pid), Read(pid), WriteFile(pid)];
    assert steps[..3][..2] == [Acquire(pid), Read(pid)];
    assert steps[..3][..2][..1] == [Acquire(pid)];
    var s1 := Do(s, Acquire(pid));
    var s2 := Do(s1, Read(pid));
    var s3 := Do(s2, WriteFile(pid));
    assert Exec(s, [Acquire(pid)]) == s1;
    assert Exec(s, steps[..3][..2]) == s2;
    assert Exec(s, steps[..3]) == s3;
    assert Do(s3, Release(pid)).counters == s.counters[pid := s3.counters[pid].(phase := Idle)];
  }
}
