/**
 The outbox: a table of background tasks that any number of workers claim under a lease. The table
 operations are one atomic step each; a worker's claim, its work and its report are separate steps that
 interleave freely with those of other workers. Time is an integer clock in seconds.
 */
module Outbox {
  import opened Basics

  const LEASE := 300
  const MAX_BACKOFF := 3600

  datatype Status = Pending | InProgress(claimedAt: int) | Dead

  datatype Task = Task(taskType: string, session: string, payload: string,
                       status: Status, retryCount: int, nextRetryAt: int, createdAt: int)

  type Table = map<nat, Task>

  // ---------------------------------------------------------------------
  // The statements of the table
  // ---------------------------------------------------------------------

  predicate Eligible(t: Task, now: int, filter: Option<string>) {
    && (filter.None? || filter.value == t.taskType)
    && match t.status
       case Pending => t.nextRetryAt <= now
       case InProgress(claimedAt) => claimedAt <= now - LEASE
       case Dead => false
  }

  // The eligible task a claim may take: none is older. Rows created in the same second come in any order.
  ghost predicate IsNext(table: Table, now: int, filter: Option<string>, id: nat) {
    && id in table && Eligible(table[id], now, filter)
    && forall other :: other in table && Eligible(table[other], now, filter) ==>
         table[id].createdAt <= table[other].createdAt
  }

  function NewTask(taskType: string, session: string, payload: string, now: int): Task {
    Task(taskType, session, payload, Pending, 0, now, now)
  }

  function WithStatus(table: Table, id: nat, status: Status): Table {
    if id in table then table[id := table[id].(status := status)] else table
  }

  function Failed(table: Table, id: nat, retryCount: int, nextRetryAt: int): Table {
    if id !in table then table
    else table[id := table[id].(status := Pending, retryCount := retryCount, nextRetryAt := nextRetryAt)]
  }

  predicate IsDead(table: Table, id: nat) {
    id in table && table[id].status.Dead?
  }

  predicate IsClaimed(table: Table, id: nat) {
    id in table && table[id].status.InProgress?
  }

  // The tasks a batch read returns: waiting ones of the type, never claimed ones.
  ghost function Waiting(table: Table, taskType: string, session: Option<string>): set<nat> {
    set id | id in table && IsWaiting(table[id], taskType, session)
  }

  predicate IsWaiting(t: Task, taskType: string, session: Option<string>) {
    t.taskType == taskType && t.status.Pending? && (session.None? || session.value == t.session)
  }

  ghost predicate OldestFirst(table: Table, ids: seq<nat>)
    requires forall id :: id in ids ==> id in table
  {
    forall i, j :: 0 <= i < j < |ids| ==> ids[i] != ids[j] && table[ids[i]].createdAt <= table[ids[j]].createdAt
  }

  class OutboxTable {
    var rows: Table
    var nextId: nat

    ghost predicate Valid()
      reads this
    {
      forall id :: id in rows ==> id < nextId
    }

    constructor ()
      ensures Valid() && rows == map[] && nextId == 0
    {
      rows, nextId := map[], 0;
    }

    method EnqueueTask(taskType: string, session: string, payload: string, now: int)
      requires Valid()
      modifies this
      ensures Valid() && nextId == old(nextId) + 1
      ensures rows == old(rows)[old(nextId) := NewTask(taskType, session, payload, now)]
      ensures old(nextId) !in old(rows)
      ensures var t := rows[old(nextId)];
              && t.taskType == taskType && t.session == session && t.payload == payload && t.createdAt == now
              && t.status.Pending? && t.retryCount == 0 && t.nextRetryAt <= now
    {
      rows := rows[nextId := NewTask(taskType, session, payload, now)];
      nextId := nextId + 1;
    }

    /** Claims an oldest eligible task, if there is one, and touches no other row. */
    method DequeueNextOutboxTask(filter: Option<string>, now: int) returns (claimed: Option<nat>)
      requires Valid()
      modifies this`rows
      ensures Valid()
      ensures claimed.None? ==> rows == old(rows) && forall id :: id in rows ==> !Eligible(rows[id], now, filter)
      ensures claimed.Some? ==>
                && IsNext(old(rows), now, filter, claimed.value)
                && rows == WithStatus(old(rows), claimed.value, InProgress(now))
      // In plain terms: the type asked for, and due or abandoned for five minutes; nothing like that is passed over.
      ensures claimed.Some? ==>
                var t := old(rows)[claimed.value];
                && (filter.Some? ==> t.taskType == filter.value) && !t.status.Dead?
                && (t.status.Pending? ==> t.nextRetryAt <= now)
                && (t.status.InProgress? ==> t.status.claimedAt + 300 <= now)
      ensures claimed.Some? ==>
                rows == old(rows)[claimed.value := old(rows)[claimed.value].(status := InProgress(now))]
      ensures claimed.None? ==> forall id :: id in rows && (filter.Some? ==> rows[id].taskType == filter.value) ==>
                && (rows[id].status.Pending? ==> now < rows[id].nextRetryAt)
                && (rows[id].status.InProgress? ==> now < rows[id].status.claimedAt + 300)
    {
      claimed := None;
      for id := 0 to nextId
        invariant claimed.None? ==> forall k :: 0 <= k < id && k in rows ==> !Eligible(rows[k], now, filter)
        invariant claimed.Some? ==> claimed.value in rows && Eligible(rows[claimed.value], now, filter)
        invariant claimed.Some? ==> forall k :: 0 <= k < id && k in rows && Eligible(rows[k], now, filter) ==>
                                      rows[claimed.value].createdAt <= rows[k].createdAt
        invariant rows == old(rows)
      {
        if id in rows && Eligible(rows[id], now, filter) {
          if claimed.None? || rows[id].createdAt < rows[claimed.value].createdAt {
            claimed := Some(id);
          }
        }
      }
      if claimed.Some? {
        rows := WithStatus(rows, claimed.value, InProgress(now));
      }
    }

    method CompleteOutboxTask(id: nat)
      requires Valid()
      modifies this`rows
      ensures Valid() && rows == old(rows) - {id}
    {
      rows := rows - {id};
    }

    method FailOutboxTask(id: nat, retryCount: int, nextRetryAt: int)
      requires Valid()
      modifies this`rows
      ensures Valid() && rows == Failed(old(rows), id, retryCount, nextRetryAt)
      ensures id !in old(rows) ==> rows == old(rows)
      ensures id in old(rows) ==>
                rows == old(rows)[id := old(rows)[id].(status := Pending, retryCount := retryCount,
                                                       nextRetryAt := nextRetryAt)]
    {
      if id in rows {
        rows := rows[id := rows[id].(status := Pending, retryCount := retryCount, nextRetryAt := nextRetryAt)];
      }
    }

    method DeadLetterOutboxTask(id: nat)
      requires Valid()
      modifies this`rows
      ensures Valid() && rows == WithStatus(old(rows), id, Dead)
      ensures id !in old(rows) ==> rows == old(rows)
      ensures id in old(rows) ==> rows == old(rows)[id := old(rows)[id].(status := Dead)]
    {
      rows := WithStatus(rows, id, Dead);
    }

    method RetryDeadLetterTask(id: nat, now: int) returns (ok: bool)
      requires Valid()
      modifies this`rows
      ensures Valid() && ok == IsDead(old(rows), id)
      ensures rows == if ok then Failed(old(rows), id, 0, now) else old(rows)
      ensures ok ==> rows[id].status.Pending? && rows[id].retryCount == 0 && rows[id].nextRetryAt <= now
    {
      ok := IsDead(rows, id);
      if ok {
        rows := Failed(rows, id, 0, now);
      }
    }

    method TouchOutboxTask(id: nat, now: int) returns (ok: bool)
      requires Valid()
      modifies this`rows
      ensures Valid() && ok == IsClaimed(old(rows), id)
      ensures rows == if ok then WithStatus(old(rows), id, InProgress(now)) else old(rows)
      ensures ok <==> id in old(rows) && old(rows)[id].status.InProgress?
      ensures ok ==> rows == old(rows)[id := old(rows)[id].(status := InProgress(now))]
    {
      ok := IsClaimed(rows, id);
      if ok {
        rows := WithStatus(rows, id, InProgress(now));
      }
    }

    /** Returns exactly the waiting tasks of the type, oldest first and each once; a drain deletes exactly those. */
    method ListTasksByType(taskType: string, session: Option<string>, drain: bool) returns (ids: seq<nat>)
      requires Valid()
      modifies this`rows
      ensures Valid()
      ensures forall id :: id in ids <==> id in Waiting(old(rows), taskType, session)
      ensures forall id :: id in ids <==>
                && id in old(rows) && old(rows)[id].taskType == taskType && old(rows)[id].status.Pending?
                && (session.None? || old(rows)[id].session == session.value)
      ensures OldestFirst(old(rows), ids)
      ensures rows == if drain then old(rows) - Waiting(old(rows), taskType, session) else old(rows)
    {
      ids := [];
      for id := 0 to nextId
        invariant forall k :: k in ids <==> k < id && k in Waiting(rows, taskType, session)
        invariant rows == old(rows) && OldestFirst(rows, ids)
      {
        if id in rows && IsWaiting(rows[id], taskType, session) {
          ids := Insert(rows, ids, id);
        }
      }
      if drain {
        assert (set id | id in ids) == Waiting(rows, taskType, session);
        rows := rows - (set id | id in ids);
      }
    }
  }

  // Into an oldest-first list, after the rows that are not younger.
  method Insert(table: Table, ids: seq<nat>, id: nat) returns (longer: seq<nat>)
    requires id in table && id !in ids && forall k :: k in ids ==> k in table
    requires OldestFirst(table, ids)
    ensures forall k :: k in longer <==> k in ids || k == id
    ensures OldestFirst(table, longer)
  {
    var at := |ids|;
    while at > 0 && table[ids[at - 1]].createdAt > table[id].createdAt
      invariant 0 <= at <= |ids|
      invariant at < |ids| ==> table[ids[at]].createdAt > table[id].createdAt
    {
      at := at - 1;
    }
    longer := ids[..at] + [id] + ids[at..];
    InsertKeepsOrder(table, ids, id, at);
  }

  lemma InsertKeepsOrder(table: Table, ids: seq<nat>, id: nat, at: nat)
    requires id in table && id !in ids && forall k :: k in ids ==> k in table
    requires OldestFirst(table, ids) && at <= |ids|
    requires at > 0 ==> table[ids[at - 1]].createdAt <= table[id].createdAt
    requires at < |ids| ==> table[ids[at]].createdAt > table[id].createdAt
    ensures var longer := ids[..at] + [id] + ids[at..];
            (forall k :: k in longer <==> k in ids || k == id) && OldestFirst(table, longer)
  {
    var longer := ids[..at] + [id] + ids[at..];
    InsertedMembers(ids, id, at);
    forall i, j | 0 <= i < j < |longer|
      ensures longer[i] != longer[j] && table[longer[i]].createdAt <= table[longer[j]].createdAt
    {
      if i == at {
        assert longer[j] == ids[j - 1] && ids[j - 1] in ids;
        assert at < j - 1 ==> table[ids[at]].createdAt <= table[ids[j - 1]].createdAt;
      } else if j == at {
        assert longer[i] == ids[i] && ids[i] in ids;
        assert i < at - 1 ==> table[ids[i]].createdAt <= table[ids[at - 1]].createdAt;
      } else {
        var i', j' := if i < at then i else i - 1, if j < at then j else j - 1;
        assert longer[i] == ids[i'] && longer[j] == ids[j'] && i' < j';
      }
    }
  }

  lemma InsertedMembers(ids: seq<nat>, id: nat, at: nat)
    requires at <= |ids|
    ensures forall k :: k in ids[..at] + [id] + ids[at..] <==> k in ids || k == id
  {
    assert ids == ids[..at] + ids[at..];
  }

  // ---------------------------------------------------------------------
  // Workers
  // ---------------------------------------------------------------------

  // What a worker remembers of its claim: the task, when its lease began, and the retry count it read.
  datatype Hold = Hold(task: nat, since: int, retryCount: int)

  datatype State = State(now: int, rows: Table, nextId: nat, holds: map<nat, Hold>,
                         completed: set<nat>, drained: set<nat>, attempts: map<nat, nat>)

  datatype Step =
    | Tick(seconds: nat)
    | Enqueue(taskType: string, session: string, payload: string)
    | Claim(worker: nat, filter: Option<string>, id: nat)
    | Touch(worker: nat)
    | Complete(worker: nat)
    | Fail(worker: nat, retryCount: int, nextRetryAt: int)
    | DeadLetter(worker: nat)
    | RetryDead(id: nat)
    | Drain(taskType: string, only: Option<string>)
    | Crash(worker: nat)

  ghost predicate Enabled(s: State, step: Step) {
    match step
    case Claim(w, filter, id) => w !in s.holds && IsNext(s.rows, s.now, filter, id)
    case Touch(w) => w in s.holds
    case Complete(w) => w in s.holds
    case Fail(w, _, _) => w in s.holds
    case DeadLetter(w) => w in s.holds
    case _ => true
  }

  // A report names its task by id only; nothing compares it with the current claim.
  ghost function Do(s: State, step: Step): State {
    if !Enabled(s, step) then s
    else match step
      case Tick(seconds) => s.(now := s.now + seconds)
      case Enqueue(taskType, session, payload) =>
        s.(rows := s.rows[s.nextId := NewTask(taskType, session, payload, s.now)],
           nextId := s.nextId + 1, attempts := s.attempts[s.nextId := 0])
      case Claim(w, _, id) =>
        s.(rows := WithStatus(s.rows, id, InProgress(s.now)),
           holds := s.holds[w := Hold(id, s.now, s.rows[id].retryCount)],
           attempts := s.attempts[id := (if id in s.attempts then s.attempts[id] else 0) + 1])
      case Touch(w) =>
        var id := s.holds[w].task;
        if IsClaimed(s.rows, id)
        then s.(rows := WithStatus(s.rows, id, InProgress(s.now)), holds := s.holds[w := s.holds[w].(since := s.now)])
        else s
      case Complete(w) =>
        var id := s.holds[w].task;
        s.(rows := s.rows - {id}, holds := s.holds - {w},
           completed := s.completed + (if id in s.rows then {id} else {}))
      case Fail(w, retryCount, nextRetryAt) =>
        s.(rows := Failed(s.rows, s.holds[w].task, retryCount, nextRetryAt), holds := s.holds - {w})
      case DeadLetter(w) =>
        s.(rows := WithStatus(s.rows, s.holds[w].task, Dead), holds := s.holds - {w})
      case RetryDead(id) =>
        if IsDead(s.rows, id) then s.(rows := Failed(s.rows, id, 0, s.now)) else s
      case Drain(taskType, session) =>
        var ids := Waiting(s.rows, taskType, session);
        s.(rows := s.rows - ids, drained := s.drained + ids)
      case Crash(w) => s.(holds := s.holds - {w})
  }

  ghost function Run(s: State, steps: seq<Step>): State
    decreases |steps|
  {
    if steps == [] then s else Run(Do(s, steps[0]), steps[1..])
  }

  predicate Initial(s: State) {
    s.rows == map[] && s.nextId == 0 && s.holds == map[] && s.completed == {} && s.drained == {} && s.attempts == map[]
  }

  // The worker's lease has not run out.
  predicate Holds(s: State, worker: nat, id: nat) {
    worker in s.holds && s.holds[worker].task == id && s.now < s.holds[worker].since + LEASE
  }

  // ---------------------------------------------------------------------
  // Conservation, for any workers
  // ---------------------------------------------------------------------

  // Every task ever enqueued is in exactly one place.
  ghost predicate Conserved(s: State) {
    && (forall id: nat :: id < s.nextId <==> id in s.rows || id in s.completed || id in s.drained)
    && s.completed !! s.drained && s.completed !! s.rows.Keys && s.drained !! s.rows.Keys
  }

  lemma DoConserves(s: State, step: Step)
    requires Conserved(s)
    ensures Conserved(Do(s, step))
  {
  }

  lemma {:induction false} RunConserves(s: State, steps: seq<Step>)
    requires Conserved(s)
    ensures Conserved(Run(s, steps))
    decreases |steps|
  {
    if steps != [] {
      DoConserves(s, steps[0]);
      RunConserves(Do(s, steps[0]), steps[1..]);
    }
  }

  lemma {:induction false} CountBelow(n: nat, ids: set<nat>)
    requires forall id: nat :: id in ids <==> id < n
    ensures |ids| == n
  {
    if n == 0 {
      assert ids == {};
    } else {
      CountBelow(n - 1, ids - {n - 1});
    }
  }

  /** In every run, late reports included: tasks enqueued = completed + drained + still stored. */
  lemma EveryTaskIsAccountedFor(s: State, steps: seq<Step>)
    requires Initial(s)
    ensures var e := Run(s, steps); Conserved(e) && e.nextId == |e.completed| + |e.drained| + |e.rows.Keys|
  {
    RunConserves(s, steps);
    var e := Run(s, steps);
    CountBelow(e.nextId, e.completed + e.drained + e.rows.Keys);
  }

  // ---------------------------------------------------------------------
  // Exclusivity, for workers that report inside their lease
  // ---------------------------------------------------------------------

  // A report, or a renewal, by a worker whose lease still runs.
  predicate InLease(s: State, step: Step) {
    match step
    case Touch(w) => w in s.holds ==> Holds(s, w, s.holds[w].task)
    case Complete(w) => w in s.holds ==> Holds(s, w, s.holds[w].task)
    case Fail(w, _, _) => w in s.holds ==> Holds(s, w, s.holds[w].task)
    case DeadLetter(w) => w in s.holds ==> Holds(s, w, s.holds[w].task)
    case _ => true
  }

  ghost predicate Punctual(s: State, steps: seq<Step>)
    decreases |steps|
  {
    steps != [] ==> InLease(s, steps[0]) && Punctual(Do(s, steps[0]), steps[1..])
  }

  // A running lease is the one the table shows.
  ghost predicate Backed(s: State, w: nat, id: nat) {
    Holds(s, w, id) ==> id in s.rows && s.rows[id].status == InProgress(s.holds[w].since)
  }

  ghost predicate Exclusive(s: State) {
    forall v, w, id :: Holds(s, v, id) && Holds(s, w, id) ==> v == w
  }

  ghost predicate LeaseInv(s: State) {
    && Conserved(s)
    && (forall w, id :: Backed(s, w, id))
    && Exclusive(s)
    && (forall w :: w in s.holds ==> s.holds[w].since <= s.now)
  }

  ghost predicate NoOtherHolder(s: State, w: nat)
    requires w in s.holds
  {
    forall v :: v != w ==> !Holds(s, v, s.holds[w].task)
  }

  // A report or renewal that hits a stored task, in time or late, while no other worker holds that task.
  ghost predicate Undisputed(s: State, step: Step) {
    match step
    case Touch(w) => w in s.holds && IsClaimed(s.rows, s.holds[w].task) ==> NoOtherHolder(s, w)
    case Complete(w) => w in s.holds && s.holds[w].task in s.rows ==> NoOtherHolder(s, w)
    case Fail(w, _, _) => w in s.holds && s.holds[w].task in s.rows ==> NoOtherHolder(s, w)
    case DeadLetter(w) => w in s.holds && s.holds[w].task in s.rows ==> NoOtherHolder(s, w)
    case _ => true
  }

  lemma InLeaseIsUndisputed(s: State, step: Step)
    requires LeaseInv(s) && InLease(s, step)
    ensures Undisputed(s, step)
  {
  }

  // The step makes the worker a holder of the task.
  ghost predicate Takes(s: State, step: Step, w: nat, id: nat) {
    && Enabled(s, step)
    && match step
       case Claim(v, _, task) => v == w && task == id
       case Touch(v) => v == w && s.holds[v].task == id && IsClaimed(s.rows, id)
       case _ => false
  }

  // A holder after a step took the task in it or held it before, and then nobody else took it.
  lemma HoldersBefore(s: State, step: Step, w: nat, id: nat)
    requires LeaseInv(s) && Undisputed(s, step) && Holds(Do(s, step), w, id)
    ensures Takes(s, step, w, id) || Holds(s, w, id)
    ensures Holds(s, w, id) ==> forall v :: Takes(s, step, v, id) ==> v == w
    ensures Backed(Do(s, step), w, id)
  {
    assert Backed(s, w, id);
  }

  lemma DoKeepsLeases(s: State, step: Step)
    requires LeaseInv(s) && Undisputed(s, step)
    ensures LeaseInv(Do(s, step))
  {
    var t := Do(s, step);
    DoConserves(s, step);
    forall w, id ensures Backed(t, w, id) {
      if Holds(t, w, id) { HoldersBefore(s, step, w, id); }
    }
    forall v, w, id | Holds(t, v, id) && Holds(t, w, id) ensures v == w {
      HoldersBefore(s, step, v, id);
      HoldersBefore(s, step, w, id);
    }
  }

  lemma DisputedBreaksLeases(s: State, step: Step)
    requires LeaseInv(s) && !Undisputed(s, step)
    ensures !LeaseInv(Do(s, step))
  {
    var t, w := Do(s, step), step.worker;
    var id := s.holds[w].task;
    var v :| v != w && Holds(s, v, id);
    assert Backed(s, v, id);
    assert Holds(t, v, id);
    if step.Touch? {
      assert Holds(t, w, id);
    } else {
      assert !Backed(t, v, id);
    }
  }

  /**
   What keeps the leases is exactly this: each running lease is the one the table shows and no task has two, after
   a step as before it, if and only if the step is no report or renewal on a task that another worker holds. A
   late report before anyone took over is harmless; one after a takeover never is.
   */
  lemma LeasesKeptIff(s: State, step: Step)
    requires LeaseInv(s)
    ensures LeaseInv(Do(s, step)) <==> Undisputed(s, step)
  {
    if Undisputed(s, step) { DoKeepsLeases(s, step); } else { DisputedBreaksLeases(s, step); }
  }

  ghost predicate UndisputedRun(s: State, steps: seq<Step>)
    decreases |steps|
  {
    steps != [] ==> Undisputed(s, steps[0]) && UndisputedRun(Do(s, steps[0]), steps[1..])
  }

  ghost predicate LeasesAlwaysKept(s: State, steps: seq<Step>)
    decreases |steps|
  {
    LeaseInv(s) && (steps != [] ==> LeasesAlwaysKept(Do(s, steps[0]), steps[1..]))
  }

  /** Over a whole run, the leases are kept throughout exactly when every report was undisputed when it was made. */
  lemma {:induction false} LeasesAlwaysKeptIff(s: State, steps: seq<Step>)
    requires LeaseInv(s)
    ensures LeasesAlwaysKept(s, steps) <==> UndisputedRun(s, steps)
    decreases |steps|
  {
    if steps != [] {
      LeasesKeptIff(s, steps[0]);
      if Undisputed(s, steps[0]) {
        LeasesAlwaysKeptIff(Do(s, steps[0]), steps[1..]);
      } else {
        NeverKeptFrom(Do(s, steps[0]), steps[1..]);
      }
    }
  }

  lemma NeverKeptFrom(s: State, steps: seq<Step>)
    requires !LeaseInv(s)
    ensures !LeasesAlwaysKept(s, steps)
  {
  }

  lemma {:induction false} PunctualIsUndisputed(s: State, steps: seq<Step>)
    requires LeaseInv(s) && Punctual(s, steps)
    ensures UndisputedRun(s, steps)
    decreases |steps|
  {
    if steps != [] {
      InLeaseIsUndisputed(s, steps[0]);
      DoKeepsLeases(s, steps[0]);
      PunctualIsUndisputed(Do(s, steps[0]), steps[1..]);
    }
  }

  lemma {:induction false} RunKeepsLeases(s: State, steps: seq<Step>)
    requires LeaseInv(s) && UndisputedRun(s, steps)
    ensures LeaseInv(Run(s, steps))
    decreases |steps|
  {
    if steps != [] {
      DoKeepsLeases(s, steps[0]);
      RunKeepsLeases(Do(s, steps[0]), steps[1..]);
    }
  }

  /**
   Under any interleaving of undisputed reports no task is held by two workers at once. Reports inside the own
   lease are always undisputed.
   */
  lemma NoTaskHeldTwice(s: State, steps: seq<Step>, v: nat, w: nat, id: nat)
    requires Initial(s) && (Punctual(s, steps) || UndisputedRun(s, steps))
    requires Holds(Run(s, steps), v, id) && Holds(Run(s, steps), w, id)
    ensures v == w && IsClaimed(Run(s, steps).rows, id)
  {
    if Punctual(s, steps) { PunctualIsUndisputed(s, steps); }
    RunKeepsLeases(s, steps);
    assert Backed(Run(s, steps), w, id);
  }

  /** A renewal compares nothing either: the former holder of a task that was taken over renews, and both hold it. */
  lemma TouchSharesTask(s: State, first: nat, second: nat, id: nat)
    requires LeaseInv(s) && first != second && first in s.holds && s.holds[first].task == id && Holds(s, second, id)
    ensures var t := Do(s, Touch(first)); Holds(t, first, id) && Holds(t, second, id)
  {
    assert Backed(s, second, id);
  }

  // The steps that change a dead task: revival by hand, and a report by a worker that still remembers the task.
  predicate Disturbs(s: State, step: Step, id: nat) {
    match step
    case RetryDead(task) => task == id
    case Complete(w) => w in s.holds && s.holds[w].task == id
    case Fail(w, _, _) => w in s.holds && s.holds[w].task == id
    case _ => false
  }

  /** A step leaves a dead task as it is unless it is one of those. Both ways, for any workers. */
  lemma DeadChangesIff(s: State, step: Step, id: nat)
    requires Conserved(s) && IsDead(s.rows, id)
    ensures (id in Do(s, step).rows && Do(s, step).rows[id] == s.rows[id]) <==> !Disturbs(s, step, id)
  {
  }

  ghost predicate NeverDisturbed(s: State, steps: seq<Step>, id: nat)
    decreases |steps|
  {
    steps != [] ==> !Disturbs(s, steps[0], id) && NeverDisturbed(Do(s, steps[0]), steps[1..], id)
  }

  // The task's row is the same in every state of the run.
  ghost predicate RowStays(s: State, steps: seq<Step>, id: nat, row: Task)
    decreases |steps|
  {
    && id in s.rows && s.rows[id] == row
    && (steps != [] ==> RowStays(Do(s, steps[0]), steps[1..], id, row))
  }

  /** Over any run of any workers, a dead task stays as it is throughout exactly when no step disturbs it. */
  lemma {:induction false} DeadUnchangedIff(s: State, steps: seq<Step>, id: nat)
    requires Conserved(s) && IsDead(s.rows, id)
    ensures RowStays(s, steps, id, s.rows[id]) <==> NeverDisturbed(s, steps, id)
    decreases |steps|
  {
    if steps != [] {
      DoConserves(s, steps[0]);
      DeadChangesIff(s, steps[0], id);
      if !Disturbs(s, steps[0], id) { DeadUnchangedIff(Do(s, steps[0]), steps[1..], id); }
    }
  }

  ghost predicate NoRetryOf(steps: seq<Step>, id: nat) {
    forall i :: 0 <= i < |steps| && steps[i].RetryDead? ==> steps[i].id != id
  }

  lemma {:induction false} PunctualNeverDisturbs(s: State, steps: seq<Step>, id: nat)
    requires LeaseInv(s) && Punctual(s, steps) && IsDead(s.rows, id) && NoRetryOf(steps, id)
    ensures NeverDisturbed(s, steps, id)
    decreases |steps|
  {
    if steps != [] {
      var step := steps[0];
      assert !Disturbs(s, step, id) by {
        if step.Complete? || step.Fail? { assert Backed(s, step.worker, id); }
      }
      DeadChangesIff(s, step, id);
      InLeaseIsUndisputed(s, step);
      DoKeepsLeases(s, step);
      assert forall i :: 0 <= i < |steps[1..]| ==> steps[1..][i] == steps[i + 1];
      PunctualNeverDisturbs(Do(s, step), steps[1..], id);
    }
  }

  lemma {:induction false} RowStaysToTheEnd(s: State, steps: seq<Step>, id: nat, row: Task)
    requires RowStays(s, steps, id, row)
    ensures id in Run(s, steps).rows && Run(s, steps).rows[id] == row
    decreases |steps|
  {
    if steps != [] { RowStaysToTheEnd(Do(s, steps[0]), steps[1..], id, row); }
  }

  /**
   With workers that report inside their own lease, a dead task stays as it is, and nobody holds it, until someone
   revives it by hand.
   */
  lemma DeadStaysDead(s: State, steps: seq<Step>, id: nat)
    requires LeaseInv(s) && Punctual(s, steps) && IsDead(s.rows, id) && NoRetryOf(steps, id)
    ensures id in Run(s, steps).rows && Run(s, steps).rows[id] == s.rows[id]
    ensures forall w :: !Holds(Run(s, steps), w, id)
  {
    PunctualNeverDisturbs(s, steps, id);
    DeadUnchangedIff(s, steps, id);
    RowStaysToTheEnd(s, steps, id, s.rows[id]);
    PunctualIsUndisputed(s, steps);
    RunKeepsLeases(s, steps);
    forall w ensures !Holds(Run(s, steps), w, id) { assert Backed(Run(s, steps), w, id); }
  }

  /**
   The discipline is needed. Once a lease has been taken over, the first holder's late failure report puts the
   task back, and the next claim gives it a second live holder.
   */
  lemma LateReportSharesTask(s: State, first: nat, second: nat, third: nat, id: nat)
    requires first in s.holds && s.holds[first].task == id && second != first && Holds(s, second, id)
    requires third !in s.holds && id in s.rows
    requires forall other :: other in s.rows ==> s.rows[id].createdAt <= s.rows[other].createdAt
    ensures var late := Fail(first, 1, s.now);
            var t := Do(Do(s, late), Claim(third, None, id));
            Holds(t, second, id) && Holds(t, third, id) && second != third
  {
    var mid := Do(s, Fail(first, 1, s.now));
    assert IsNext(mid.rows, s.now, None, id);
  }

  /** Such a state is reachable by punctual steps alone: a worker overruns its lease and another takes over. */
  lemma LeaseIsTakenOver(s: State)
    requires Initial(s)
    ensures var steps := [Enqueue("t", "s", "p"), Claim(1, None, 0), Tick(LEASE), Claim(2, None, 0)];
            var t := Run(s, steps);
            && Punctual(s, steps) && 1 in t.holds && t.holds[1].task == 0 && Holds(t, 2, 0) && !Holds(t, 1, 0)
            && 3 !in t.holds && t.rows.Keys == {0}
  {
    var enqueue := Enqueue("t", "s", "p");
    var s1 := Do(s, enqueue);
    assert s1.rows == map[0 := NewTask("t", "s", "p", s.now)];
    assert IsNext(s1.rows, s1.now, None, 0);
    var s2 := Do(s1, Claim(1, None, 0));
    var s3 := Do(s2, Tick(LEASE));
    assert IsNext(s3.rows, s3.now, None, 0);
    Peel(s3, Claim(2, None, 0), []);
    Peel(s2, Tick(LEASE), [Claim(2, None, 0)]);
    Peel(s1, Claim(1, None, 0), [Tick(LEASE), Claim(2, None, 0)]);
    Peel(s, enqueue, [Claim(1, None, 0), Tick(LEASE), Claim(2, None, 0)]);
    assert [enqueue, Claim(1, None, 0), Tick(LEASE), Claim(2, None, 0)] ==
           [enqueue] + [Claim(1, None, 0), Tick(LEASE), Claim(2, None, 0)];
    assert [Claim(1, None, 0), Tick(LEASE), Claim(2, None, 0)] ==
             [Claim(1, None, 0)] + [Tick(LEASE), Claim(2, None, 0)];
    assert [Tick(LEASE), Claim(2, None, 0)] == [Tick(LEASE)] + [Claim(2, None, 0)];
    assert [Claim(2, None, 0)] == [Claim(2, None, 0)] + [];
  }

  lemma Peel(s: State, step: Step, rest: seq<Step>)
    ensures Run(s, [step] + rest) == Run(Do(s, step), rest)
    ensures Punctual(s, [step] + rest) <==> InLease(s, step) && Punctual(Do(s, step), rest)
  {
    assert ([step] + rest)[1..] == rest;
  }

  // ---------------------------------------------------------------------
  // The projection worker: retry, backoff, dead letter
  // ---------------------------------------------------------------------

  function Pow2(k: nat): nat {
    if k == 0 then 1 else 2 * Pow2(k - 1)
  }

  function Backoff(retryCount: nat): int {
    if Pow2(retryCount) <= MAX_BACKOFF then Pow2(retryCount) else MAX_BACKOFF
  }

  /** The first retry waits two seconds and every later one twice as long as the one before, but never above an hour. */
  lemma {:induction false} BackoffIsCapped(k: nat)
    ensures Backoff(1) == 2 && 1 <= Backoff(k) <= 3600
    ensures Backoff(k + 1) == if 2 * Backoff(k) <= 3600 then 2 * Backoff(k) else 3600
    ensures k <= 11 ==> Backoff(k) == Pow2(k)
    ensures k >= 12 ==> Backoff(k) == 3600
  {
    if k <= 12 {
      assert Pow2(4) == 16;
      assert Pow2(8) == 256;
      assert Pow2(11) == 2048 && Pow2(12) == 4096 && Pow2(13) == 8192;
      PowGrows(k, 13);
      if k <= 11 { PowGrows(k, 11); }
    } else {
      assert Pow2(8) == 256;
      assert Pow2(12) == 4096;
      PowGrows(12, k);
    }
  }

  lemma {:induction false} PowGrows(j: nat, k: nat)
    requires j <= k
    ensures 1 <= Pow2(j) <= Pow2(k)
    decreases k
  {
    if j < k { PowGrows(j, k - 1); } else if j > 0 { PowGrows(j - 1, k - 1); }
  }

  // The number of attempts a task gets. Zero or fewer allowed retries still mean one attempt.
  function AttemptLimit(maxRetries: int): int {
    if maxRetries >= 1 then maxRetries else 1
  }

  // The worker's decision about a failed attempt.
  ghost predicate FollowsRetryRule(s: State, step: Step, maxRetries: int) {
    match step
    case Fail(w, retryCount, nextRetryAt) =>
      w in s.holds ==> && retryCount == s.holds[w].retryCount + 1 && retryCount < maxRetries
                       && retryCount >= 0 && nextRetryAt == s.now + Backoff(retryCount)
    case DeadLetter(w) => w in s.holds ==> s.holds[w].retryCount + 1 >= maxRetries
    case _ => true
  }

  ghost predicate RuleKept(s: State, steps: seq<Step>, maxRetries: int)
    decreases |steps|
  {
    steps != [] ==> FollowsRetryRule(s, steps[0], maxRetries) && RuleKept(Do(s, steps[0]), steps[1..], maxRetries)
  }

  // A claim of a task that some worker already claimed: its lease ran out, by a crash or by slow work.
  ghost predicate IsTakeover(s: State, step: Step, id: nat) {
    step.Claim? && step.id == id && Enabled(s, step) && IsClaimed(s.rows, id)
  }

  predicate IsRevival(s: State, step: Step, id: nat) {
    step.RetryDead? && step.id == id && IsDead(s.rows, id)
  }

  // A failure report that does not continue the claim it comes from: the row has moved on since.
  predicate IsStaleFailure(s: State, step: Step, id: nat) {
    && step.Fail? && step.worker in s.holds && s.holds[step.worker].task == id && id in s.rows
    && !(s.rows[id].status.InProgress? && s.rows[id].retryCount == s.holds[step.worker].retryCount)
  }

  // How many attempts beyond the limit a step allows: one for a takeover, a full round for a revival or a stale
  // failure report.
  ghost function Extra(s: State, step: Step, id: nat, maxRetries: int): nat {
    if IsTakeover(s, step, id) then 1
    else if IsRevival(s, step, id) || IsStaleFailure(s, step, id) then AttemptLimit(maxRetries)
    else 0
  }

  ghost function Extras(s: State, steps: seq<Step>, id: nat, maxRetries: int): nat
    decreases |steps|
  {
    if steps == [] then 0
    else Extra(s, steps[0], id, maxRetries) + Extras(Do(s, steps[0]), steps[1..], id, maxRetries)
  }

  function Underway(t: Task): int {
    if t.status.Pending? then 0 else 1
  }

  ghost predicate WithinLimit(s: State, maxRetries: int, id: nat, extra: nat) {
    && Conserved(s)
    && (id in s.rows ==>
          && id in s.attempts && 0 <= s.rows[id].retryCount < AttemptLimit(maxRetries)
          && s.attempts[id] <= s.rows[id].retryCount + extra + Underway(s.rows[id]))
    && (id in s.attempts ==> id < s.nextId && s.attempts[id] <= AttemptLimit(maxRetries) + extra)
  }

  lemma DoStaysWithinLimit(s: State, step: Step, maxRetries: int, id: nat, extra: nat)
    requires WithinLimit(s, maxRetries, id, extra) && FollowsRetryRule(s, step, maxRetries)
    ensures WithinLimit(Do(s, step), maxRetries, id, extra + Extra(s, step, id, maxRetries))
  {
    DoConserves(s, step);
  }

  lemma {:induction false} RunStaysWithinLimit(s: State, steps: seq<Step>, maxRetries: int, id: nat, extra: nat)
    requires WithinLimit(s, maxRetries, id, extra) && RuleKept(s, steps, maxRetries)
    ensures WithinLimit(Run(s, steps), maxRetries, id, extra + Extras(s, steps, id, maxRetries))
    decreases |steps|
  {
    if steps != [] {
      var more := Extra(s, steps[0], id, maxRetries);
      DoStaysWithinLimit(s, steps[0], maxRetries, id, extra);
      RunStaysWithinLimit(Do(s, steps[0]), steps[1..], maxRetries, id, extra + more);
    }
  }

  /**
   In every run of workers that follow the retry rule, late reports, crashes, takeovers and revivals included, a task
   is attempted at most as often as the limit allows, plus once per takeover, plus a full round per revival and
   per stale failure report.
   */
  lemma AttemptsAreBounded(s: State, steps: seq<Step>, maxRetries: int, id: nat)
    requires Initial(s) && RuleKept(s, steps, maxRetries)
    requires id in Run(s, steps).attempts
    ensures Run(s, steps).attempts[id] <= AttemptLimit(maxRetries) + Extras(s, steps, id, maxRetries)
  {
    RunStaysWithinLimit(s, steps, maxRetries, id, 0);
  }

  ghost predicate CountsExactly(s: State, maxRetries: int, id: nat, extra: nat) {
    && LeaseInv(s) && WithinLimit(s, maxRetries, id, extra)
    && (id in s.rows ==> s.attempts[id] == s.rows[id].retryCount + extra + Underway(s.rows[id]))
    && (IsDead(s.rows, id) ==> s.attempts[id] == AttemptLimit(maxRetries) + extra)
    && (id !in s.attempts ==> extra == 0)
    && (forall w :: Holds(s, w, id) ==> id in s.rows && s.holds[w].retryCount == s.rows[id].retryCount)
  }

  // A report in time continues its claim.
  lemma InTimeIsFresh(s: State, step: Step, maxRetries: int, id: nat, extra: nat)
    requires CountsExactly(s, maxRetries, id, extra) && InLease(s, step)
    ensures !IsStaleFailure(s, step, id)
  {
    if step.Fail? && step.worker in s.holds && s.holds[step.worker].task == id {
      assert Holds(s, step.worker, id) && Backed(s, step.worker, id);
    }
  }

  lemma HoldersKeepRetryCount(s: State, step: Step, maxRetries: int, id: nat, extra: nat, w: nat)
    requires CountsExactly(s, maxRetries, id, extra) && InLease(s, step) && Holds(Do(s, step), w, id)
    ensures id in Do(s, step).rows && Do(s, step).holds[w].retryCount == Do(s, step).rows[id].retryCount
  {
    InLeaseIsUndisputed(s, step);
    HoldersBefore(s, step, w, id);
    if Holds(s, w, id) { assert Backed(s, w, id); }
  }

  lemma RowCountsExactly(s: State, step: Step, maxRetries: int, id: nat, extra: nat)
    requires CountsExactly(s, maxRetries, id, extra) && InLease(s, step) && FollowsRetryRule(s, step, maxRetries)
    ensures var t, more := Do(s, step), extra + Extra(s, step, id, maxRetries);
            && (id in t.rows ==>
                  id in t.attempts && t.attempts[id] == t.rows[id].retryCount + more + Underway(t.rows[id]))
            && (IsDead(t.rows, id) ==> t.attempts[id] == AttemptLimit(maxRetries) + more)
            && (id !in t.attempts ==> more == 0)
  {
    InTimeIsFresh(s, step, maxRetries, id, extra);
    if Enabled(s, step) && (step.Touch? || step.Complete? || step.Fail? || step.DeadLetter?) {
      if s.holds[step.worker].task == id { assert Holds(s, step.worker, id) && Backed(s, step.worker, id); }
    }
  }

  lemma DoCountsExactly(s: State, step: Step, maxRetries: int, id: nat, extra: nat)
    requires CountsExactly(s, maxRetries, id, extra) && InLease(s, step) && FollowsRetryRule(s, step, maxRetries)
    ensures CountsExactly(Do(s, step), maxRetries, id, extra + Extra(s, step, id, maxRetries))
  {
    InLeaseIsUndisputed(s, step);
    DoKeepsLeases(s, step);
    DoStaysWithinLimit(s, step, maxRetries, id, extra);
    RowCountsExactly(s, step, maxRetries, id, extra);
    forall w | Holds(Do(s, step), w, id)
      ensures id in Do(s, step).rows && Do(s, step).holds[w].retryCount == Do(s, step).rows[id].retryCount
    {
      HoldersKeepRetryCount(s, step, maxRetries, id, extra, w);
    }
  }

  lemma {:induction false} RunCountsExactly(s: State, steps: seq<Step>, maxRetries: int, id: nat, extra: nat)
    requires CountsExactly(s, maxRetries, id, extra) && Punctual(s, steps) && RuleKept(s, steps, maxRetries)
    ensures CountsExactly(Run(s, steps), maxRetries, id, extra + Extras(s, steps, id, maxRetries))
    decreases |steps|
  {
    if steps != [] {
      var more := Extra(s, steps[0], id, maxRetries);
      DoCountsExactly(s, steps[0], maxRetries, id, extra);
      RunCountsExactly(Do(s, steps[0]), steps[1..], maxRetries, id, extra + more);
    }
  }

  /**
   With workers that report inside their own lease the count is exact, crashes, takeovers and revivals included: a
   stored task was attempted once per counted retry, once more if an attempt is underway or was its last, once per
   takeover and a full round per revival. A dead task got the limit and those extras, so it met the limit exactly
   when there were none.
   */
  lemma AttemptsExactly(s: State, steps: seq<Step>, maxRetries: int, id: nat)
    requires Initial(s) && Punctual(s, steps) && RuleKept(s, steps, maxRetries)
    ensures var t, extras := Run(s, steps), Extras(s, steps, id, maxRetries);
            && (id in t.rows ==>
                  id in t.attempts && t.attempts[id] == t.rows[id].retryCount + extras + Underway(t.rows[id]))
            && (IsDead(t.rows, id) ==>
                  && t.attempts[id] == AttemptLimit(maxRetries) + extras
                  && (t.attempts[id] <= AttemptLimit(maxRetries) <==> extras == 0))
  {
    RunCountsExactly(s, steps, maxRetries, id, 0);
  }

  // One worker after the other claims the task and is slower than its lease.
  function Overruns(worker: nat, n: nat): seq<Step>
    decreases n
  {
    if n == 0 then [] else [Claim(worker, None, 0)] + ([Tick(LEASE)] + Overruns(worker + 1, n - 1))
  }

  predicate IsQuietStep(step: Step) {
    step.Enqueue? || step.Claim? || step.Tick?
  }

  // Task 0 alone is stored, was never reported on, and may be claimed now.
  predicate Claimable(s: State, worker: nat) {
    && s.rows.Keys == {0} && Eligible(s.rows[0], s.now, None) && s.rows[0].retryCount == 0
    && 0 in s.attempts && forall w :: w in s.holds ==> w < worker
  }

  lemma {:induction false} OverrunsAddUp(s: State, worker: nat, n: nat, maxRetries: int)
    requires Claimable(s, worker)
    ensures var steps := Overruns(worker, n);
            && Punctual(s, steps) && RuleKept(s, steps, maxRetries)
            && (forall i :: 0 <= i < |steps| ==> IsQuietStep(steps[i]))
            && 0 in Run(s, steps).attempts && Run(s, steps).attempts[0] == s.attempts[0] + n
    decreases n
  {
    if n > 0 {
      var claim, rest := Claim(worker, None, 0), Overruns(worker + 1, n - 1);
      assert IsNext(s.rows, s.now, None, 0);
      var claimed := Do(s, claim);
      var later := Do(claimed, Tick(LEASE));
      OverrunsAddUp(later, worker + 1, n - 1, maxRetries);
      Peel(s, claim, [Tick(LEASE)] + rest);
      Peel(claimed, Tick(LEASE), rest);
      assert ([claim] + ([Tick(LEASE)] + rest))[1..] == [Tick(LEASE)] + rest && ([Tick(LEASE)] + rest)[1..] == rest;
    }
  }

  /**
   No crash and no revival is needed to pass the limit, by any amount: workers that are slower than their lease are
   enough, since the retry count does not move when a task is taken over.
   */
  lemma SlowWorkersPassAnyLimit(s: State, n: nat, maxRetries: int)
    requires Initial(s)
    ensures var steps := [Enqueue("t", "s", "p")] + Overruns(0, n);
            && Punctual(s, steps) && RuleKept(s, steps, maxRetries)
            && (forall i :: 0 <= i < |steps| ==> IsQuietStep(steps[i]))
            && 0 in Run(s, steps).attempts && Run(s, steps).attempts[0] == n
  {
    var enqueue, rest := Enqueue("t", "s", "p"), Overruns(0, n);
    var queued := Do(s, enqueue);
    assert queued.rows == map[0 := NewTask("t", "s", "p", s.now)];
    OverrunsAddUp(queued, 0, n, maxRetries);
    Peel(s, enqueue, rest);
    assert ([enqueue] + rest)[1..] == rest;
  }

  class OutboxEmbeddingWorker {
    const table: OutboxTable
    const maxRetries: int

    constructor (table: OutboxTable, maxRetries: int)
      ensures this.table == table && this.maxRetries == maxRetries
    {
      this.table, this.maxRetries := table, maxRetries;
    }

    // What becomes of a claimed task: deleted, waiting for its next attempt, or dead.
    function Reported(rows: Table, id: nat, retryCount: int, succeeds: bool, now: int): Table
      requires retryCount >= 0
    {
      if succeeds then rows - {id}
      else if retryCount + 1 >= maxRetries then WithStatus(rows, id, Dead)
      else Failed(rows, id, retryCount + 1, now + Backoff(retryCount + 1))
    }

    /**
     One poll. Only projection tasks are claimed. `succeeds` is the outcome of the work itself, over at
     `reportedAt`; nothing else touches the table in between.
     */
    method ProcessNextTask(now: int, reportedAt: int, succeeds: bool) returns (processed: Option<nat>)
      requires table.Valid()
      requires forall id :: id in table.rows ==> table.rows[id].retryCount >= 0
      modifies table`rows
      ensures table.Valid()
      // A task whose work succeeded is gone; one whose work failed is stored, dead exactly after its last allowed
      // attempt and otherwise waiting, one retry more, for its backoff. No other task is touched.
      ensures processed.Some? && succeeds ==> table.rows == old(table.rows) - {processed.value}
      ensures processed.Some? && !succeeds ==>
                var id := processed.value;
                && id in old(table.rows) && table.rows.Keys == old(table.rows).Keys
                && (forall other :: other in table.rows && other != id ==> table.rows[other] == old(table.rows)[other])
                && (table.rows[id].status.Dead? <==> old(table.rows)[id].retryCount + 1 >= AttemptLimit(maxRetries))
                && (!table.rows[id].status.Dead? ==>
                      && table.rows[id].status.Pending?
                      && table.rows[id].retryCount == old(table.rows)[id].retryCount + 1
                      && table.rows[id].nextRetryAt == reportedAt + Backoff(table.rows[id].retryCount))
      ensures processed.None? ==>
                table.rows == old(table.rows)
                && forall id :: id in table.rows ==> !Eligible(table.rows[id], now, Some("projection"))
      ensures processed.Some? ==>
                && IsNext(old(table.rows), now, Some("projection"), processed.value)
                && table.rows ==
                   Reported(WithStatus(old(table.rows), processed.value, InProgress(now)), processed.value,
                            old(table.rows)[processed.value].retryCount, succeeds, reportedAt)
    {
      processed := table.DequeueNextOutboxTask(Some("projection"), now);
      if processed.None? { return; }
      var id := processed.value;
      var retryCount := table.rows[id].retryCount + 1;
      if succeeds {
        table.CompleteOutboxTask(id);
      } else if retryCount >= maxRetries {
        table.DeadLetterOutboxTask(id);
      } else {
        var delay := Backoff(retryCount);
        table.FailOutboxTask(id, retryCount, reportedAt + delay);
      }
    }

    /**
     A processed task is gone, dead, or strictly closer to its retry limit and stamped for a retry within the hour.
     */
    lemma EveryAttemptIsProgress(rows: Table, id: nat, succeeds: bool, now: int)
      requires id in rows && 0 <= rows[id].retryCount
      ensures var after := Reported(rows, id, rows[id].retryCount, succeeds, now);
              id in after && !after[id].status.Dead? ==>
                && 0 < maxRetries - after[id].retryCount < maxRetries - rows[id].retryCount
                && now < after[id].nextRetryAt <= now + MAX_BACKOFF
      ensures forall other :: other in rows && other != id ==>
                other in Reported(rows, id, rows[id].retryCount, succeeds, now)
                && Reported(rows, id, rows[id].retryCount, succeeds, now)[other] == rows[other]
    {
      BackoffIsCapped(rows[id].retryCount + 1);
    }

    // The report a worker makes about the task it claimed.
    function Report(worker: nat, retryCount: int, succeeds: bool, now: int): Step
      requires retryCount >= 0
    {
      if succeeds then Complete(worker)
      else if retryCount + 1 >= maxRetries then DeadLetter(worker)
      else Fail(worker, retryCount + 1, now + Backoff(retryCount + 1))
    }

    /**
     A poll is three steps of the table's protocol: a claim, the time the work takes, and one report. They leave the
     table as the poll does, they keep the retry rule, and they are in time if the work is done within the lease; so
     what holds of the protocol holds of this worker.
     */
    lemma PollIsClaimAndReport(s: State, worker: nat, id: nat, seconds: nat, succeeds: bool)
      requires worker !in s.holds && IsNext(s.rows, s.now, Some("projection"), id) && s.rows[id].retryCount >= 0
      ensures var retryCount := s.rows[id].retryCount;
              var report := Report(worker, retryCount, succeeds, s.now + seconds);
              var steps := [Claim(worker, Some("projection"), id), Tick(seconds), report];
              && Run(s, steps).rows ==
                   Reported(WithStatus(s.rows, id, InProgress(s.now)), id, retryCount, succeeds, s.now + seconds)
              && Run(s, steps).holds == s.holds - {worker}
              && RuleKept(s, steps, maxRetries)
              && (seconds < 300 ==> Punctual(s, steps))
    {
      var retryCount := s.rows[id].retryCount;
      var claim, tick := Claim(worker, Some("projection"), id), Tick(seconds);
      var report := Report(worker, retryCount, succeeds, s.now + seconds);
      var claimed := Do(s, claim);
      var later := Do(claimed, tick);
      assert later.holds[worker] == Hold(id, s.now, retryCount);
      Peel(later, report, []);
      Peel(claimed, tick, [report]);
      Peel(s, claim, [tick, report]);
      assert [claim, tick, report] == [claim] + [tick, report];
      assert [tick, report] == [tick] + [report] && [report] == [report] + [];
      assert FollowsRetryRule(later, report, maxRetries);
      PeelRule(later, report, [], maxRetries);
      PeelRule(claimed, tick, [report], maxRetries);
      PeelRule(s, claim, [tick, report], maxRetries);
      assert Do(later, report).holds == s.holds - {worker};
    }
  }

  lemma PeelRule(s: State, step: Step, rest: seq<Step>, maxRetries: int)
    ensures RuleKept(s, [step] + rest, maxRetries) <==>
            FollowsRetryRule(s, step, maxRetries) && RuleKept(Do(s, step), rest, maxRetries)
  {
    assert ([step] + rest)[1..] == rest;
  }

  /** A failed task is not claimed again before its backoff is over, by anyone, whatever the other tasks do. */
  lemma FailedTaskWaits(s: State, worker: nat, claimer: nat, filter: Option<string>, retryCount: int, nextRetryAt: int,
                        seconds: nat)
    requires worker in s.holds && s.holds[worker].task in s.rows && s.now + seconds < nextRetryAt
    ensures var later := Do(Do(s, Fail(worker, retryCount, nextRetryAt)), Tick(seconds));
            !Enabled(later, Claim(claimer, filter, s.holds[worker].task))
  {
  }
}
