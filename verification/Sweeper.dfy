/**
 The staleness sweeper: one sweep re-runs a bounded, oldest-first query with a growing limit until the
 answer is provably complete, then moves its watermark to the moment the sweep began. Other writers keep
 modifying sessions, also between the queries of one sweep.
 */
module Sweeper {
  import opened Basics

  const MAX_SWEEP_LIMIT := 100_000
  const TICKS_PER_SECOND := 1_000_000

  // Session id to the second it was last modified in.
  type Table = map<string, int>

  // Stored and compared timestamps keep whole seconds only.
  function Second(ticks: int): int {
    ticks / TICKS_PER_SECOND
  }

  /** The second a moment falls in, moments before the epoch included. */
  lemma SecondHoldsTheMoment(ticks: int)
    ensures 1_000_000 * Second(ticks) <= ticks < 1_000_000 * (Second(ticks) + 1)
  {
  }

  // ---------------------------------------------------------------------
  // The query
  // ---------------------------------------------------------------------

  ghost function Eligible(table: Table, watermark: int): set<string> {
    set id | id in table && table[id] >= Second(watermark)
  }

  // What the bounded query may answer: the oldest `limit` eligible rows, or all of them when the limit is
  // negative or not reached. Rows of the same second come in any order.
  ghost predicate IsPage(table: Table, watermark: int, limit: int, page: seq<string>) {
    && NoRepeats(page)
    && (forall id :: id in page ==> id in Eligible(table, watermark))
    && (forall i, j :: 0 <= i < j < |page| && page[i] in table && page[j] in table ==> table[page[i]] <= table[page[j]])
    && (forall id, other :: id in page && other in Eligible(table, watermark) && other !in page ==>
          table[id] <= table[other])
    && |page| == (if 0 <= limit < |Eligible(table, watermark)| then limit else |Eligible(table, watermark)|)
  }

  lemma {:induction false} PageSize(page: seq<string>)
    requires NoRepeats(page)
    ensures |(set id | id in page)| == |page|
    decreases |page|
  {
    if page != [] {
      var rest := page[..|page| - 1];
      PageSize(rest);
      assert page == rest + [page[|page| - 1]];
      assert (set id | id in page) == (set id | id in rest) + {page[|page| - 1]};
    }
  }

  lemma {:induction false} SubsetOfSameSize<T>(a: set<T>, b: set<T>)
    requires a <= b && |a| >= |b|
    ensures a == b
  {
    if x :| x in b && x !in a {
      SmallerSubset(a, b - {x});
    }
  }

  lemma {:induction false} SmallerSubset<T>(a: set<T>, b: set<T>)
    requires a <= b
    ensures |a| <= |b|
    decreases a
  {
    if x :| x in a {
      SmallerSubset(a - {x}, b - {x});
    }
  }

  /** A page shorter than its limit holds every eligible session. */
  lemma ShortPageIsComplete(table: Table, watermark: int, limit: int, page: seq<string>)
    requires IsPage(table, watermark, limit, page) && |page| < limit
    ensures forall id :: id in page <==> id in Eligible(table, watermark)
  {
    PageSize(page);
    SubsetOfSameSize((set id | id in page), Eligible(table, watermark));
    assert forall id :: id in page <==> id in (set x | x in page);
  }

  // ---------------------------------------------------------------------
  // One sweep
  // ---------------------------------------------------------------------

  function Limit(batchSize: int, query: nat): int {
    if query == 0 then batchSize else 4 * Limit(batchSize, query - 1)
  }

  // The loop ends at this query: a short page, or the cap.
  predicate Ends(batchSize: int, query: nat, page: seq<string>) {
    |page| < Limit(batchSize, query) || Limit(batchSize, query) >= MAX_SWEEP_LIMIT
  }

  // `pages[k]` answers query k; exactly the last one ends the loop.
  ghost predicate IsSweep(batchSize: int, pages: seq<seq<string>>) {
    && pages != []
    && (forall k :: 0 <= k < |pages| - 1 ==> !Ends(batchSize, k, pages[k]))
    && Ends(batchSize, |pages| - 1, pages[|pages| - 1])
  }

  predicate Capped(batchSize: int, pages: seq<seq<string>>)
    requires pages != []
  {
    |pages[|pages| - 1]| >= Limit(batchSize, |pages| - 1)
  }

  lemma {:induction false} LimitsGrow(batchSize: int, query: nat)
    requires batchSize >= 1
    ensures Limit(batchSize, query) >= query + 1
  {
    if query > 0 { LimitsGrow(batchSize, query - 1); }
  }

  lemma {:induction false} LimitsStayPut(batchSize: int, query: nat)
    requires batchSize <= 0
    ensures Limit(batchSize, query) <= 0
  {
    if query > 0 { LimitsStayPut(batchSize, query - 1); }
  }

  /** The loop over growing limits is bounded exactly when the batch size is positive, whatever the queries answer. */
  lemma SweepEndsIff(batchSize: int)
    ensures batchSize >= 1 ==> forall page :: Ends(batchSize, MAX_SWEEP_LIMIT, page)
    ensures batchSize <= 0 ==> forall query: nat, page :: !Ends(batchSize, query, page)
  {
    if batchSize >= 1 {
      LimitsGrow(batchSize, MAX_SWEEP_LIMIT);
    } else {
      forall query: nat, page ensures !Ends(batchSize, query, page) { LimitsStayPut(batchSize, query); }
    }
  }

  class InferenceStalenessSweeper {
    const batchSize: int
    var watermark: int

    constructor (batchSize: int)
      ensures this.batchSize == batchSize && watermark == 0
    {
      this.batchSize, watermark := batchSize, 0;
    }

    /**
     One sweep, begun at `startedAt`. `answer(k)` is what the storage returns for query k, from the table as it
     is then. The result is the answer of the query that ended the loop; the watermark moves only when
     that answer was complete.
     */
    method Sweep(startedAt: int, answer: nat -> seq<string>) returns (candidates: seq<string>, ghost queries: nat)
      requires batchSize >= 1
      modifies this`watermark
      ensures IsSweep(batchSize, seq(queries + 1, k requires k >= 0 => answer(k)))
      ensures candidates == answer(queries)
      ensures watermark == if |candidates| < Limit(batchSize, queries) then startedAt else old(watermark)
    {
      var limit := batchSize;
      var query := 0;
      SweepEndsIff(batchSize);
      while true
        invariant limit == Limit(batchSize, query) && query <= MAX_SWEEP_LIMIT
        invariant forall k: nat :: k < query ==> !Ends(batchSize, k, answer(k))
        invariant watermark == old(watermark)
        decreases MAX_SWEEP_LIMIT - query
      {
        var batch := answer(query);
        queries := query;
        if |batch| < limit {
          candidates := batch;
          watermark := startedAt;
          return;
        }
        if limit >= MAX_SWEEP_LIMIT {
          candidates := batch;
          return;
        }
        assert !Ends(batchSize, query, batch);
        limit := limit * 4;
        query := query + 1;
      }
    }
  }

  // ---------------------------------------------------------------------
  // Runs of sweeps beside writers
  // ---------------------------------------------------------------------

  // A session is saved, which sets its timestamp, or archived, which takes its row away.
  datatype Change = Modified(id: string, at: int) | Archived(id: string, at: int)

  // Changes in the order they happened.
  predicate InOrder(log: seq<Change>) {
    forall i, j :: 0 <= i < j < |log| ==> log[i].at <= log[j].at
  }

  // The table after the first n changes.
  function TableAfter(log: seq<Change>, n: nat): Table
    requires n <= |log|
    decreases n
  {
    if n == 0 then map[]
    else
      match log[n - 1]
      case Modified(id, at) => TableAfter(log, n - 1)[id := Second(at)]
      case Archived(id, _) => TableAfter(log, n - 1) - {id}
  }

  // A sweep: when it began, its answers, and how many changes its last query saw.
  datatype SweepRecord = SweepRecord(startedAt: int, pages: seq<seq<string>>, seen: nat)

  function Candidates(sweep: SweepRecord): seq<string>
    requires sweep.pages != []
  {
    sweep.pages[|sweep.pages| - 1]
  }

  // The watermark sweep i starts from; it begins at the epoch.
  function WatermarkBefore(batchSize: int, sweeps: seq<SweepRecord>, i: nat): int
    requires i <= |sweeps| && forall k :: 0 <= k < |sweeps| ==> sweeps[k].pages != []
    decreases i
  {
    if i == 0 then 0
    else if Capped(batchSize, sweeps[i - 1].pages) then WatermarkBefore(batchSize, sweeps, i - 1)
    else sweeps[i - 1].startedAt
  }

  // The last query of a sweep answers from a table no older than the sweep's start: every change it
  // does not see happens after that start.
  ghost predicate SweepFits(batchSize: int, log: seq<Change>, sweeps: seq<SweepRecord>, i: nat)
    requires i < |sweeps| && forall k :: 0 <= k < |sweeps| ==> sweeps[k].pages != []
  {
    var sweep := sweeps[i];
    && IsSweep(batchSize, sweep.pages)
    && sweep.seen <= |log|
    && (forall n :: sweep.seen <= n < |log| ==> sweep.startedAt <= log[n].at)
    && IsPage(TableAfter(log, sweep.seen), WatermarkBefore(batchSize, sweeps, i), Limit(batchSize, |sweep.pages| - 1),
         Candidates(sweep))
  }

  ghost predicate IsHistory(batchSize: int, log: seq<Change>, sweeps: seq<SweepRecord>) {
    && InOrder(log) && (forall n :: 0 <= n < |log| ==> log[n].at >= 0)
    && (forall k :: 0 <= k < |sweeps| ==> sweeps[k].pages != [])
    && (forall i, j :: 0 <= i < j < |sweeps| ==> sweeps[i].seen <= sweeps[j].seen)
    && (forall i {:trigger SweepFits(batchSize, log, sweeps, i)} :: 0 <= i < |sweeps| ==>
          SweepFits(batchSize, log, sweeps, i))
  }

  ghost predicate ArchivedBetween(log: seq<Change>, n: int, m: int, id: string)
    requires 0 <= n && m <= |log|
  {
    exists k :: n < k < m && log[k] == Archived(id, log[k].at)
  }

  // While a row is there its timestamp only grows; if it is gone it was archived.
  lemma {:induction false} TimestampsOnlyGrow(log: seq<Change>, n: nat, m: nat)
    requires InOrder(log) && n < m <= |log| && log[n].Modified?
    ensures var id, table := log[n].id, TableAfter(log, m);
            if id in table then table[id] >= Second(log[n].at) else ArchivedBetween(log, n, m, id)
    decreases m
  {
    if n < m - 1 {
      TimestampsOnlyGrow(log, n, m - 1);
      if log[m - 1].id == log[n].id {
        SecondsAreMonotone(log[n].at, log[m - 1].at);
      } else if ArchivedBetween(log, n, m - 1, log[n].id) {
        var k :| n < k < m - 1 && log[k] == Archived(log[n].id, log[k].at);
        assert n < k < m;
      }
    }
  }

  // Sweep i is the first that sees change n with its last query and is not capped.
  predicate FirstToTell(batchSize: int, sweeps: seq<SweepRecord>, i: nat, n: nat)
    requires i < |sweeps| && forall k :: 0 <= k < |sweeps| ==> sweeps[k].pages != []
  {
    && n < sweeps[i].seen && !Capped(batchSize, sweeps[i].pages)
    && forall k :: 0 <= k < i && n < sweeps[k].seen ==> Capped(batchSize, sweeps[k].pages)
  }

  // Capped sweeps leave the watermark; uncapped ones before the first to tell began before the change.
  lemma {:induction false} WatermarkIsNotPast(batchSize: int, log: seq<Change>, sweeps: seq<SweepRecord>, i: nat,
                                              n: nat)
    requires IsHistory(batchSize, log, sweeps) && i <= |sweeps| && n < |log|
    requires forall k :: 0 <= k < i && n < sweeps[k].seen ==> Capped(batchSize, sweeps[k].pages)
    ensures WatermarkBefore(batchSize, sweeps, i) <= log[n].at
    decreases i
  {
    if i > 0 {
      if Capped(batchSize, sweeps[i - 1].pages) {
        WatermarkIsNotPast(batchSize, log, sweeps, i - 1, n);
      } else {
        assert SweepFits(batchSize, log, sweeps, i - 1);
      }
    }
  }

  /**
   No modification is skipped. The first sweep that sees it and is not capped returns the modified session with a
   timestamp no older than the modification, however many capped sweeps came before it; unless the session was
   archived in the meantime.
   */
  lemma NoModificationIsSkipped(batchSize: int, log: seq<Change>, sweeps: seq<SweepRecord>, i: nat, n: nat)
    requires IsHistory(batchSize, log, sweeps) && i < |sweeps| && n < |log| && log[n].Modified?
    requires FirstToTell(batchSize, sweeps, i, n)
    ensures sweeps[i].seen <= |log|
    ensures var id, table := log[n].id, TableAfter(log, sweeps[i].seen);
            if id in table then id in Candidates(sweeps[i]) && table[id] >= Second(log[n].at)
            else ArchivedBetween(log, n, sweeps[i].seen, id)
  {
    WatermarkIsNotPast(batchSize, log, sweeps, i, n);
    SecondsAreMonotone(WatermarkBefore(batchSize, sweeps, i), log[n].at);
    SweepAnswers(batchSize, log, sweeps, i);
    DueIsReturned(log, sweeps[i].seen, WatermarkBefore(batchSize, sweeps, i), Candidates(sweeps[i]), n);
  }

  // A complete answer, named so that its parts stay out of sight.
  ghost predicate Complete(table: Table, watermark: int, page: seq<string>) {
    forall id :: id in Eligible(table, watermark) ==> id in page
  }

  lemma SweepAnswers(batchSize: int, log: seq<Change>, sweeps: seq<SweepRecord>, i: nat)
    requires IsHistory(batchSize, log, sweeps) && i < |sweeps| && !Capped(batchSize, sweeps[i].pages)
    ensures sweeps[i].seen <= |log|
    ensures Complete(TableAfter(log, sweeps[i].seen), WatermarkBefore(batchSize, sweeps, i), Candidates(sweeps[i]))
  {
    assert SweepFits(batchSize, log, sweeps, i);
    ShortPageIsComplete(TableAfter(log, sweeps[i].seen), WatermarkBefore(batchSize, sweeps, i),
                        Limit(batchSize, |sweeps[i].pages| - 1), Candidates(sweeps[i]));
  }

  lemma DueIsReturned(log: seq<Change>, seen: nat, watermark: int, page: seq<string>, n: nat)
    requires InOrder(log) && n < seen <= |log| && log[n].Modified? && Second(watermark) <= Second(log[n].at)
    requires Complete(TableAfter(log, seen), watermark, page)
    ensures var id, table := log[n].id, TableAfter(log, seen);
            if id in table then id in page && table[id] >= Second(log[n].at) else ArchivedBetween(log, n, seen, id)
  {
    TimestampsOnlyGrow(log, n, seen);
    if log[n].id in TableAfter(log, seen) {
      assert log[n].id in Eligible(TableAfter(log, seen), watermark);
    }
  }

  lemma SecondsAreMonotone(a: int, b: int)
    requires a <= b
    ensures Second(a) <= Second(b)
  {
  }

  /** Every change that some uncapped sweep came late enough for has such a first sweep. */
  lemma {:induction false} SomeSweepIsFirst(batchSize: int, sweeps: seq<SweepRecord>, n: nat,
                                            last: nat) returns (i: nat)
    requires forall k :: 0 <= k < |sweeps| ==> sweeps[k].pages != []
    requires last < |sweeps| && n < sweeps[last].seen && !Capped(batchSize, sweeps[last].pages)
    ensures i <= last && FirstToTell(batchSize, sweeps, i, n)
    decreases last
  {
    if k: nat :| k < last && n < sweeps[k].seen && !Capped(batchSize, sweeps[k].pages) {
      i := SomeSweepIsFirst(batchSize, sweeps, n, k);
    } else {
      i := last;
    }
  }

  // ---------------------------------------------------------------------
  // The cap
  // ---------------------------------------------------------------------

  ghost function Older(table: Table, watermark: int, id: string): set<string>
    requires id in table
  {
    set other | other in Eligible(table, watermark) && table[other] < table[id]
  }

  // At least as many eligible rows, all strictly older, as a query with this limit can take.
  ghost predicate BehindTheCap(table: Table, watermark: int, cap: int, id: string) {
    id in Eligible(table, watermark) && |Older(table, watermark, id)| >= cap
  }

  lemma CrowdedOut(table: Table, watermark: int, limit: int, page: seq<string>, id: string)
    requires IsPage(table, watermark, limit, page) && limit >= 0 && BehindTheCap(table, watermark, limit, id)
    ensures id !in page && |page| == limit
  {
    var older := Older(table, watermark, id);
    var members := set x | x in page;
    SmallerSubset(older, Eligible(table, watermark));
    PageSize(page);
    assert |older + {id}| == |older| + 1;
    if id in page {
      SmallerSubset(older + {id}, members);
    }
  }

  // A listing of rows, oldest first.
  ghost predicate IsListing(table: Table, ids: set<string>, rows: seq<string>) {
    && NoRepeats(rows) && |rows| == |ids|
    && (forall id :: id in rows ==> id in ids) && (forall id :: id in ids ==> id in rows)
    && (forall i, j :: 0 <= i < j < |rows| && rows[i] in table && rows[j] in table ==> table[rows[i]] <= table[rows[j]])
  }

  lemma {:induction false} OldestOf(table: Table, ids: set<string>) returns (oldest: string)
    requires ids != {} && ids <= table.Keys
    ensures oldest in ids && forall id :: id in ids ==> table[oldest] <= table[id]
    decreases |ids|
  {
    var some := AnyOf(ids);
    if ids == {some} {
      oldest := some;
    } else {
      var rest := OldestOf(table, ids - {some});
      oldest := if table[rest] <= table[some] then rest else some;
    }
  }

  lemma {:induction false} Listing(table: Table, ids: set<string>) returns (rows: seq<string>)
    requires ids <= table.Keys
    ensures IsListing(table, ids, rows)
    decreases |ids|
  {
    if ids == {} {
      rows := [];
    } else {
      var oldest := OldestOf(table, ids);
      var rest := Listing(table, ids - {oldest});
      rows := [oldest] + rest;
      forall i, j | 0 <= i < j < |rows| ensures rows[i] != rows[j] && table[rows[i]] <= table[rows[j]] {
        assert rows[j] == rest[j - 1] && rest[j - 1] in rest;
        if i > 0 { assert rows[i] == rest[i - 1]; }
      }
    }
  }

  lemma JoinListings(table: Table, a: set<string>, b: set<string>, rows: seq<string>, more: seq<string>)
    requires IsListing(table, a, rows) && IsListing(table, b, more) && a !! b && a + b <= table.Keys
    requires forall x, y :: x in a && y in b ==> table[x] <= table[y]
    ensures IsListing(table, a + b, rows + more)
  {
    var all := rows + more;
    forall i, j | 0 <= i < j < |all| ensures all[i] != all[j] && table[all[i]] <= table[all[j]] {
      if i < |rows| { assert all[i] in rows; } else { assert all[i] == more[i - |rows|]; }
      if j < |rows| { assert all[j] in rows; } else { assert all[j] == more[j - |rows|] && all[j] in more; }
    }
  }

  lemma ListingAround(table: Table, before: set<string>, id: string, after: set<string>) returns (rows: seq<string>)
    requires before + {id} + after <= table.Keys && id !in before && id !in after && before !! after
    requires forall x :: x in before ==> table[x] < table[id]
    requires forall y :: y in after ==> table[id] <= table[y]
    ensures IsListing(table, before + {id} + after, rows)
    ensures |before| < |rows| && rows[|before|] == id
  {
    var first := Listing(table, before);
    var last := Listing(table, after);
    assert IsListing(table, {id}, [id]);
    JoinListings(table, before, {id}, first, [id]);
    JoinListings(table, before + {id}, after, first + [id], last);
    rows := first + [id] + last;
  }

  // All eligible rows, oldest first, this one before all others of its second.
  lemma ListingWithEarly(table: Table, watermark: int, id: string) returns (rows: seq<string>)
    requires id in Eligible(table, watermark)
    ensures IsListing(table, Eligible(table, watermark), rows)
    ensures var n := |Older(table, watermark, id)|; n < |rows| && rows[n] == id
  {
    var eligible, older := Eligible(table, watermark), Older(table, watermark, id);
    rows := ListingAround(table, older, id, eligible - older - {id});
    assert older + {id} + (eligible - older - {id}) == eligible;
  }

  function PageLength(limit: int, size: nat): nat {
    if 0 <= limit < size then limit else size
  }

  lemma PrefixIsOldest(table: Table, ids: set<string>, rows: seq<string>, n: nat, id: string, other: string)
    requires ids <= table.Keys && IsListing(table, ids, rows) && n <= |rows|
    requires id in rows[..n] && other in ids && other !in rows[..n]
    ensures table[id] <= table[other]
  {
    var i :| 0 <= i < n && rows[..n][i] == id;
    assert rows == rows[..n] + rows[n..] && other in rows[n..];
    var j :| n <= j < |rows| && rows[j] == other;
    assert rows[i] in ids && rows[j] in ids;
  }

  lemma PrefixIsPage(table: Table, watermark: int, limit: int, rows: seq<string>)
    requires IsListing(table, Eligible(table, watermark), rows)
    ensures PageLength(limit, |rows|) <= |rows| && IsPage(table, watermark, limit, rows[..PageLength(limit, |rows|)])
  {
    var n := PageLength(limit, |rows|);
    var page, eligible := rows[..n], Eligible(table, watermark);
    assert forall i :: 0 <= i < n ==> page[i] == rows[i];
    assert forall id :: id in page ==> id in rows;
    forall id, other | id in page && other in eligible && other !in page
      ensures id in table && other in table && table[id] <= table[other]
    {
      PrefixIsOldest(table, eligible, rows, n, id, other);
    }
  }

  /** A query may return an eligible session exactly when fewer than its limit are strictly older. */
  lemma NeverReturnedIff(table: Table, watermark: int, limit: int, id: string)
    requires id in Eligible(table, watermark) && limit >= 0
    ensures (forall page :: IsPage(table, watermark, limit, page) ==> id !in page) <==>
              BehindTheCap(table, watermark, limit, id)
  {
    if BehindTheCap(table, watermark, limit, id) {
      forall page | IsPage(table, watermark, limit, page) ensures id !in page {
        CrowdedOut(table, watermark, limit, page, id);
      }
    } else {
      var rows := ListingWithEarly(table, watermark, id);
      PrefixIsPage(table, watermark, limit, rows);
      var page := rows[..PageLength(limit, |rows|)];
      assert page[|Older(table, watermark, id)|] == id;
      assert IsPage(table, watermark, limit, page) && id in page;
    }
  }

  // The limit of the query that reaches the cap.
  function CapQuery(batchSize: int, query: nat): nat
    requires batchSize >= 1
    decreases if Limit(batchSize, query) >= MAX_SWEEP_LIMIT then 0 else MAX_SWEEP_LIMIT - Limit(batchSize, query)
  {
    if Limit(batchSize, query) >= MAX_SWEEP_LIMIT then query
    else
      LimitsGrow(batchSize, query);
      CapQuery(batchSize, query + 1)
  }

  lemma {:induction false} CapQueryIsLeast(batchSize: int, query: nat)
    requires batchSize >= 1
    ensures query <= CapQuery(batchSize, query) && Limit(batchSize, CapQuery(batchSize, query)) >= MAX_SWEEP_LIMIT
    ensures forall k :: query <= k < CapQuery(batchSize, query) ==> Limit(batchSize, k) < MAX_SWEEP_LIMIT
    decreases if Limit(batchSize, query) >= MAX_SWEEP_LIMIT then 0 else MAX_SWEEP_LIMIT - Limit(batchSize, query)
  {
    if Limit(batchSize, query) < MAX_SWEEP_LIMIT {
      LimitsGrow(batchSize, query);
      CapQueryIsLeast(batchSize, query + 1);
    }
  }

  /** With the default batch size of 100 a sweep makes at most six queries, the last for 102400 rows. */
  lemma DefaultBatchCap()
    ensures CapQuery(100, 0) == 5 && CapLimit(100) == 102_400
  {
  }

  ghost function CapLimit(batchSize: int): int
    requires batchSize >= 1
  {
    Limit(batchSize, CapQuery(batchSize, 0))
  }

  lemma {:induction false} LimitsMonotone(batchSize: int, j: nat, k: nat)
    requires batchSize >= 1 && j <= k
    ensures Limit(batchSize, j) <= Limit(batchSize, k)
    decreases k
  {
    if j < k {
      LimitsGrow(batchSize, k - 1);
      LimitsMonotone(batchSize, j, k - 1);
    }
  }

  lemma EndsByTheCap(batchSize: int, pages: seq<seq<string>>)
    requires batchSize >= 1 && IsSweep(batchSize, pages)
    ensures |pages| - 1 <= CapQuery(batchSize, 0)
  {
    var cap := CapQuery(batchSize, 0);
    CapQueryIsLeast(batchSize, 0);
    if |pages| - 1 > cap {
      assert Ends(batchSize, cap, pages[cap]);
      assert false;
    }
  }

  // A sweep all of whose queries find the same table.
  ghost predicate IsQuietSweep(batchSize: int, table: Table, watermark: int, pages: seq<seq<string>>) {
    && IsSweep(batchSize, pages)
    && forall k :: 0 <= k < |pages| ==> IsPage(table, watermark, Limit(batchSize, k), pages[k])
  }

  /**
   A sweep of an unchanging table is capped, and the watermark stays, exactly when the backlog fills the largest
   query.
   */
  lemma CappedIff(batchSize: int, table: Table, watermark: int, pages: seq<seq<string>>)
    requires batchSize >= 1 && IsQuietSweep(batchSize, table, watermark, pages)
    ensures Capped(batchSize, pages) <==> |Eligible(table, watermark)| >= CapLimit(batchSize)
  {
    var last, cap := |pages| - 1, CapQuery(batchSize, 0);
    EndsByTheCap(batchSize, pages);
    LimitsMonotone(batchSize, last, cap);
    LimitsGrow(batchSize, last);
    assert IsPage(table, watermark, Limit(batchSize, last), pages[last]);
    CapQueryIsLeast(batchSize, 0);
    if last < cap { assert Limit(batchSize, last) < MAX_SWEEP_LIMIT; }
  }

  // The query that ends a sweep of a table with this many eligible rows.
  ghost function LastQuery(batchSize: int, size: nat, query: nat): nat
    requires batchSize >= 1 && query <= CapQuery(batchSize, 0)
    decreases CapQuery(batchSize, 0) - query
  {
    if query == CapQuery(batchSize, 0) || size < Limit(batchSize, query) then query
    else LastQuery(batchSize, size, query + 1)
  }

  lemma {:induction false} LastQueryIsFirst(batchSize: int, size: nat, query: nat)
    requires batchSize >= 1 && query <= CapQuery(batchSize, 0)
    ensures var last := LastQuery(batchSize, size, query);
            && query <= last <= CapQuery(batchSize, 0)
            && (last == CapQuery(batchSize, 0) || size < Limit(batchSize, last))
            && forall k :: query <= k < last ==> size >= Limit(batchSize, k)
    decreases CapQuery(batchSize, 0) - query
  {
    if query != CapQuery(batchSize, 0) && size >= Limit(batchSize, query) {
      LastQueryIsFirst(batchSize, size, query + 1);
    }
  }

  function Head(rows: seq<string>, limit: int): seq<string> {
    rows[..PageLength(limit, |rows|)]
  }

  lemma HeadEndsIff(batchSize: int, query: nat, rows: seq<string>)
    requires batchSize >= 1
    ensures Ends(batchSize, query, Head(rows, Limit(batchSize, query))) <==>
            |rows| < Limit(batchSize, query) || Limit(batchSize, query) >= MAX_SWEEP_LIMIT
  {
    LimitsGrow(batchSize, query);
  }

  // One possible sweep of the table: every query answers with the head of one listing.
  lemma HeadsAreSweep(batchSize: int, table: Table, watermark: int, rows: seq<string>) returns (pages: seq<seq<string>>)
    requires batchSize >= 1 && IsListing(table, Eligible(table, watermark), rows)
    ensures IsQuietSweep(batchSize, table, watermark, pages)
    ensures var last := LastQuery(batchSize, |rows|, 0);
            last == |pages| - 1 && pages[last] == Head(rows, Limit(batchSize, last))
  {
    var last := LastQuery(batchSize, |rows|, 0);
    LastQueryIsFirst(batchSize, |rows|, 0);
    CapQueryIsLeast(batchSize, 0);
    pages := seq(last + 1, k requires 0 <= k <= last => Head(rows, Limit(batchSize, k)));
    forall k: nat | k <= last ensures IsPage(table, watermark, Limit(batchSize, k), pages[k]) {
      PrefixIsPage(table, watermark, Limit(batchSize, k), rows);
    }
    HeadsEndLast(batchSize, rows, last, pages);
  }

  lemma HeadsEndLast(batchSize: int, rows: seq<string>, last: nat, pages: seq<seq<string>>)
    requires batchSize >= 1 && last == LastQuery(batchSize, |rows|, 0) && |pages| == last + 1
    requires forall k :: 0 <= k <= last ==> pages[k] == Head(rows, Limit(batchSize, k))
    ensures IsSweep(batchSize, pages)
  {
    LastQueryIsFirst(batchSize, |rows|, 0);
    CapQueryIsLeast(batchSize, 0);
    forall k: nat | k <= last ensures Ends(batchSize, k, pages[k]) <==> k == last {
      HeadEndsIff(batchSize, k, rows);
    }
  }

  /**
   A sweep of an unchanging table can return an eligible session exactly when fewer strictly older ones are
   eligible than the largest query takes.
   */
  lemma SweepNeverReturnsIff(batchSize: int, table: Table, watermark: int, id: string)
    requires batchSize >= 1 && id in Eligible(table, watermark)
    ensures (forall pages :: IsQuietSweep(batchSize, table, watermark, pages) ==> id !in pages[|pages| - 1])
            <==> BehindTheCap(table, watermark, CapLimit(batchSize), id)
  {
    if BehindTheCap(table, watermark, CapLimit(batchSize), id) {
      forall pages | IsQuietSweep(batchSize, table, watermark, pages) ensures id !in pages[|pages| - 1] {
        MissedBehindTheCap(batchSize, table, watermark, pages, id);
      }
    } else {
      var rows := ListingWithEarly(table, watermark, id);
      var pages := HeadsAreSweep(batchSize, table, watermark, rows);
      var n, last := |Older(table, watermark, id)|, |pages| - 1;
      LastQueryIsFirst(batchSize, |rows|, 0);
      assert n < |Head(rows, Limit(batchSize, last))|;
      assert pages[last][n] == id;
    }
  }

  // The last answer of any sweep misses what is behind the cap, and fills its limit.
  lemma MissedBehindTheCap(batchSize: int, table: Table, watermark: int, pages: seq<seq<string>>, id: string)
    requires batchSize >= 1 && IsSweep(batchSize, pages) && BehindTheCap(table, watermark, CapLimit(batchSize), id)
    requires IsPage(table, watermark, Limit(batchSize, |pages| - 1), pages[|pages| - 1])
    ensures id !in pages[|pages| - 1] && Capped(batchSize, pages)
  {
    var last := |pages| - 1;
    EndsByTheCap(batchSize, pages);
    LimitsMonotone(batchSize, last, CapQuery(batchSize, 0));
    LimitsGrow(batchSize, last);
    CrowdedOut(table, watermark, Limit(batchSize, last), pages[last], id);
  }

  // From sweep `from` on, whatever else changes, the session stays behind the cap of the watermark reached then.
  ghost predicate BehindFrom(batchSize: int, log: seq<Change>, sweeps: seq<SweepRecord>, from: nat, id: string)
    requires batchSize >= 1 && from < |sweeps| && IsHistory(batchSize, log, sweeps)
  {
    forall i :: from <= i < |sweeps| ==> BehindInSweep(batchSize, log, sweeps, from, i, id)
  }

  ghost predicate BehindInSweep(batchSize: int, log: seq<Change>, sweeps: seq<SweepRecord>, from: nat, i: nat,
                                id: string)
    requires batchSize >= 1 && from <= i < |sweeps| && IsHistory(batchSize, log, sweeps)
  {
    && SweepFits(batchSize, log, sweeps, i)
    && BehindTheCap(TableAfter(log, sweeps[i].seen), WatermarkBefore(batchSize, sweeps, from), CapLimit(batchSize), id)
  }

  /**
   A capped sweep does not leave its remainder to the next one. From any sweep and any watermark on, as long as a
   session stays behind the cap, however the table changes otherwise: every sweep is capped, the watermark stays
   where it is, and the session is never returned.
   */
  lemma {:induction false} RemainderIsStarved(batchSize: int, log: seq<Change>, sweeps: seq<SweepRecord>,
                                              from: nat, id: string, i: nat)
    requires batchSize >= 1 && IsHistory(batchSize, log, sweeps) && from <= i < |sweeps|
    requires BehindFrom(batchSize, log, sweeps, from, id)
    ensures WatermarkBefore(batchSize, sweeps, i) == WatermarkBefore(batchSize, sweeps, from)
    ensures Capped(batchSize, sweeps[i].pages) && id !in Candidates(sweeps[i])
    decreases i
  {
    if i > from { RemainderIsStarved(batchSize, log, sweeps, from, id, i - 1); }
    assert BehindInSweep(batchSize, log, sweeps, from, i, id);
    MissedBehindTheCap(batchSize, TableAfter(log, sweeps[i].seen), WatermarkBefore(batchSize, sweeps, i),
      sweeps[i].pages, id);
  }
}
