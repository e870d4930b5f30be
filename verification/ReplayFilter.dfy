/**
 Replay protection for incoming gossip envelopes. The filter keeps, per sender, a bounded window of
 accepted sequence numbers and a bounded cache of nonces. The ghost fields remember everything, and
 every decision is stated against that unbounded memory.
 */
module ReplayFilter {
  import opened Basics

  // ---------------------------------------------------------------------
  // The ideal check: remember every accepted number
  // ---------------------------------------------------------------------

  ghost predicate IsHigh(s: set<int>, high: int) {
    (forall a :: a in s ==> a <= high) && (if s == {} then high == -1 else high in s)
  }

  // The high-water mark, -1 before the first acceptance.
  ghost function High(s: set<int>): (high: int)
    ensures IsHigh(s, high)
  {
    if s == {} then -1
    else
      var a := AnyOf(s);
      var rest := High(s - {a});
      assert forall x :: x in s <==> x == a || x in s - {a};
      if s - {a} == {} || rest < a then a else rest
  }

  ghost predicate IdealAccepts(accepted: set<int>, window: nat, n: int) {
    n >= 0 && n > High(accepted) - window && n !in accepted
  }

  // The accepted numbers that are still inside the window.
  ghost function Kept(accepted: set<int>, window: nat): set<int> {
    set a | a in accepted && a > High(accepted) - window
  }

  lemma HighIsUnique(accepted: set<int>, high: int)
    requires IsHigh(accepted, high)
    ensures high == High(accepted)
  {
  }

  // ---------------------------------------------------------------------
  // The windowed check
  // ---------------------------------------------------------------------

  datatype Window = Window(last: int, seen: set<int>)
  const FreshWindow := Window(-1, {})

  predicate Accepts(w: Window, window: nat, n: int) {
    n >= 0 && n > w.last - window && n !in w.seen
  }

  function Advanced(w: Window, window: nat, n: int): Window {
    var last := if n > w.last then n else w.last;
    Window(last, set s | s in w.seen + {n} && s > last - window)
  }

  ghost predicate Represents(w: Window, window: nat, accepted: set<int>) {
    && (forall a :: a in accepted ==> a >= 0)
    && w == Window(High(accepted), Kept(accepted, window))
  }

  /** The bounded window decides as the ideal check does, and keeps exactly the in-window part of its memory. */
  lemma WindowDecidesAsIdeal(w: Window, window: nat, accepted: set<int>, n: int)
    requires window >= 1 && Represents(w, window, accepted)
    ensures Accepts(w, window, n) <==> IdealAccepts(accepted, window, n)
    ensures Accepts(w, window, n) ==> Represents(Advanced(w, window, n), window, accepted + {n})
  {
    if Accepts(w, window, n) {
      var high := if n > w.last then n else w.last;
      HighIsUnique(accepted + {n}, high);
      assert Advanced(w, window, n).seen == Kept(accepted + {n}, window);
    }
  }

  lemma {:induction false} IntervalSize(s: set<int>, lo: int, size: nat)
    requires forall a :: a in s ==> lo < a <= lo + size
    ensures |s| <= size
    decreases size
  {
    if size == 0 {
      assert forall a :: a !in s;
    } else {
      IntervalSize(s - {lo + size}, lo, size - 1);
    }
  }

  /** The filter never remembers more than `window` numbers per sender. */
  lemma WindowIsBounded(w: Window, window: nat, accepted: set<int>)
    requires Represents(w, window, accepted)
    ensures |w.seen| <= window
  {
    IntervalSize(w.seen, w.last - window, window);
  }

  // Decisions over a whole run of offered numbers.
  function WindowRun(w: Window, window: nat, offers: seq<int>): seq<bool>
    decreases |offers|
  {
    if offers == [] then []
    else
      var ok := Accepts(w, window, offers[0]);
      [ok] + WindowRun(if ok then Advanced(w, window, offers[0]) else w, window, offers[1..])
  }

  ghost function IdealRun(accepted: set<int>, window: nat, offers: seq<int>): (decisions: seq<bool>)
    ensures |decisions| == |offers|
    decreases |offers|
  {
    if offers == [] then []
    else
      var ok := IdealAccepts(accepted, window, offers[0]);
      [ok] + IdealRun(if ok then accepted + {offers[0]} else accepted, window, offers[1..])
  }

  /** Over any run, forgetting what fell out of the window changes no decision. */
  lemma {:induction false} RunsAgree(w: Window, window: nat, accepted: set<int>, offers: seq<int>)
    requires window >= 1 && Represents(w, window, accepted)
    ensures WindowRun(w, window, offers) == IdealRun(accepted, window, offers)
    decreases |offers|
  {
    if offers != [] {
      WindowDecidesAsIdeal(w, window, accepted, offers[0]);
      if Accepts(w, window, offers[0]) {
        RunsAgree(Advanced(w, window, offers[0]), window, accepted + {offers[0]}, offers[1..]);
      } else {
        RunsAgree(w, window, accepted, offers[1..]);
      }
    }
  }

  lemma {:induction false} IdealNeverAgain(accepted: set<int>, window: nat, offers: seq<int>, i: nat)
    requires i < |offers| && offers[i] in accepted
    ensures !IdealRun(accepted, window, offers)[i]
    decreases |offers|
  {
    if i > 0 {
      var ok := IdealAccepts(accepted, window, offers[0]);
      IdealNeverAgain(if ok then accepted + {offers[0]} else accepted, window, offers[1..], i - 1);
    }
  }

  lemma {:induction false} IdealAtMostOnce(accepted: set<int>, window: nat, offers: seq<int>, i: nat, j: nat)
    requires i < j < |offers| && offers[i] == offers[j]
    requires IdealRun(accepted, window, offers)[i]
    ensures !IdealRun(accepted, window, offers)[j]
    decreases |offers|
  {
    var ok := IdealAccepts(accepted, window, offers[0]);
    var next := if ok then accepted + {offers[0]} else accepted;
    if i == 0 {
      IdealNeverAgain(next, window, offers[1..], j - 1);
    } else {
      IdealAtMostOnce(next, window, offers[1..], i - 1, j - 1);
    }
  }

  /** No sequence number is accepted twice, in any run of the bounded window. */
  lemma NoNumberAcceptedTwice(window: nat, offers: seq<int>, i: nat, j: nat)
    requires window >= 1 && i < j < |offers| && offers[i] == offers[j]
    ensures WindowRun(FreshWindow, window, offers) == IdealRun({}, window, offers)
    ensures WindowRun(FreshWindow, window, offers)[i] ==> !WindowRun(FreshWindow, window, offers)[j]
  {
    RunsAgree(FreshWindow, window, {}, offers);
    if IdealRun({}, window, offers)[i] {
      IdealAtMostOnce({}, window, offers, i, j);
    }
  }

  // ---------------------------------------------------------------------
  // The filter object
  // ---------------------------------------------------------------------

  // An optional envelope field; Malformed is a value that does not convert to an integer.
  datatype Field = Absent | Malformed | Given(value: int)

  predicate TimeOk(timestamp: Field, ttl: Field, now: int, maxSkew: nat) {
    match timestamp
    case Absent => true
    case Malformed => false
    case Given(ts) =>
      && ts - maxSkew <= now <= ts + maxSkew
      && (match ttl
          case Absent => true
          case Malformed => false
          case Given(t) => t >= 0 && now <= ts + t)
  }

  ghost function LastN<T>(s: seq<T>, n: nat): seq<T> {
    if |s| <= n then s else s[|s| - n..]
  }

  /** The cache knows exactly the nonces recorded among the last n. */
  lemma LastNIff<T>(s: seq<T>, n: nat, x: T)
    ensures x in LastN(s, n) <==> exists k :: 0 <= k < |s| && |s| - n <= k && s[k] == x
  {
    var from := if |s| <= n then 0 else |s| - n;
    assert LastN(s, n) == s[from..];
    if x in LastN(s, n) {
      var k :| 0 <= k < |s[from..]| && s[from..][k] == x;
      assert s[from + k] == x;
    }
    if k :| 0 <= k < |s| && |s| - n <= k && s[k] == x {
      assert s[from..][k - from] == x;
    }
  }

  // ---------------------------------------------------------------------
  // Timestamp and nonce together, for one sender
  // ---------------------------------------------------------------------

  // An envelope without a sequence number, offered at a time.
  datatype Offer = Offer(nonce: string, timestamp: Field, ttl: Field, now: int)

  ghost predicate Passes(log: seq<string>, offer: Offer, cache: nat, skew: nat) {
    TimeOk(offer.timestamp, offer.ttl, offer.now, skew) && Strip(offer.nonce) != ""
      && Strip(offer.nonce) !in LastN(log, cache)
  }

  // The nonces recorded before offer i.
  ghost function NonceLog(offers: seq<Offer>, i: nat, cache: nat, skew: nat): seq<string>
    requires i <= |offers|
    decreases i
  {
    if i == 0 then []
    else
      var log := NonceLog(offers, i - 1, cache, skew);
      if Passes(log, offers[i - 1], cache, skew) then log + [Strip(offers[i - 1].nonce)] else log
  }

  lemma {:induction false} LogOnlyGrows(offers: seq<Offer>, i: nat, j: nat, cache: nat, skew: nat)
    requires i <= j <= |offers|
    ensures NonceLog(offers, i, cache, skew) <= NonceLog(offers, j, cache, skew)
    decreases j
  {
    if i < j { LogOnlyGrows(offers, i, j - 1, cache, skew); }
  }

  /**
   What a replay takes. If one envelope passes twice, both times lie within twice the skew of each other, and in
   between more nonces were recorded than the cache holds.
   */
  lemma ReplayNeedsEviction(offers: seq<Offer>, i: nat, j: nat, cache: nat, skew: nat)
    requires i < j < |offers| && offers[i].nonce == offers[j].nonce && offers[i].timestamp == offers[j].timestamp
    requires offers[i].timestamp.Given?
    requires Passes(NonceLog(offers, i, cache, skew), offers[i], cache, skew)
    requires Passes(NonceLog(offers, j, cache, skew), offers[j], cache, skew)
    ensures -2 * skew <= offers[j].now - offers[i].now <= 2 * skew
    ensures |NonceLog(offers, j, cache, skew)| > |NonceLog(offers, i, cache, skew)| + cache
  {
    var before, after := NonceLog(offers, i, cache, skew), NonceLog(offers, i + 1, cache, skew);
    var log, nonce := NonceLog(offers, j, cache, skew), Strip(offers[i].nonce);
    LogOnlyGrows(offers, i + 1, j, cache, skew);
    assert after == before + [nonce] && log[|before|] == after[|before|] == nonce;
    LastNIff(log, cache, nonce);
  }

  class GossipFilter {
    const maxClockSkew: nat
    const maxNonceCache: nat
    const window: nat
    var seenNonces: map<string, seq<string>>
    var lastSeq: map<string, int>
    var seenSeq: map<string, set<int>>

    // Everything since the sender was last reset: numbers accepted, nonces recorded.
    ghost var accepted: map<string, set<int>>
    ghost var nonceLog: map<string, seq<string>>

    ghost function AcceptedFrom(sender: string): set<int>
      reads this
    {
      if sender in accepted then accepted[sender] else {}
    }

    ghost function NoncesFrom(sender: string): seq<string>
      reads this
    {
      if sender in nonceLog then nonceLog[sender] else []
    }

    function WindowOf(sender: string): Window
      reads this
    {
      Window(if sender in lastSeq then lastSeq[sender] else -1, if sender in seenSeq then seenSeq[sender] else {})
    }

    function NoncesOf(sender: string): seq<string>
      reads this
    {
      if sender in seenNonces then seenNonces[sender] else []
    }

    ghost predicate Valid()
      reads this
    {
      && maxNonceCache >= 1 && window >= 1 && "" !in accepted && "" !in nonceLog
      && (forall s {:trigger WindowOf(s)} :: Represents(WindowOf(s), window, AcceptedFrom(s)))
      && (forall s {:trigger NoncesOf(s)} :: NoncesOf(s) == LastN(NoncesFrom(s), maxNonceCache))
    }

    constructor (maxClockSkew: int, maxNonceCache: int, window: int)
      ensures Valid() && accepted == map[] && nonceLog == map[]
      ensures this.maxClockSkew == if maxClockSkew > 0 then maxClockSkew else 0
      ensures this.maxNonceCache == if maxNonceCache > 1 then maxNonceCache else 1
      ensures this.window == if window > 1 then window else 1
    {
      this.maxClockSkew := if maxClockSkew > 0 then maxClockSkew else 0;
      this.maxNonceCache := if maxNonceCache > 1 then maxNonceCache else 1;
      this.window := if window > 1 then window else 1;
      seenNonces, lastSeq, seenSeq := map[], map[], map[];
      accepted, nonceLog := map[], map[];
    }

    ghost predicate NonceFits(sender: string, nonce: Option<string>)
      reads this
    {
      nonce.None? || (Strip(nonce.value) != "" && Strip(nonce.value) !in LastN(NoncesFrom(sender), maxNonceCache))
    }

    ghost predicate SeqFits(sender: string, n: Field)
      reads this
    {
      n.Absent? || (n.Given? && IdealAccepts(AcceptedFrom(sender), window, n.value))
    }

    /**
     The whole decision, against the unbounded memory: an envelope passes iff its sender is named, its
     time fits, its nonce is not among the last recorded ones, and the ideal sequence check accepts it.
     A nonce is recorded even when the sequence number is then refused.
     */
    method Check(senderId: string, nonce: Option<string>, n: Field, timestamp: Field, ttl: Field, now: int)
      returns (ok: bool)
      requires Valid()
      modifies this
      ensures Valid()
      ensures var sender := Strip(senderId);
              var early := sender != "" && TimeOk(timestamp, ttl, now, maxClockSkew) && old(NonceFits(sender, nonce));
              && ok == (early && old(SeqFits(sender, n)))
              && nonceLog == (if early && nonce.Some?
                              then old(nonceLog)[sender := old(NoncesFrom(sender)) + [Strip(nonce.value)]]
                              else old(nonceLog))
              && accepted == (if ok && n.Given?
                              then old(accepted)[sender := old(AcceptedFrom(sender)) + {n.value}] else old(accepted))
      // In plain terms: nothing passes that is older or newer than the skew allows or past its end, whatever was
      // forgotten meanwhile, and nothing within both bounds is refused for its time.
      ensures timestamp.Malformed? ==> !ok
      ensures ok && timestamp.Given? ==> now - maxClockSkew <= timestamp.value <= now + maxClockSkew
      ensures ok && timestamp.Given? && !ttl.Absent? ==>
                ttl.Given? && ttl.value >= 0 && now <= timestamp.value + ttl.value
      ensures var sender := Strip(senderId);
              && sender != "" && old(NonceFits(sender, nonce)) && old(SeqFits(sender, n))
              && (timestamp.Absent? || (timestamp.Given?
                    && now - maxClockSkew <= timestamp.value <= now + maxClockSkew))
              && (timestamp.Given? ==>
                    ttl.Absent? || (ttl.Given? && ttl.value >= 0 && now <= timestamp.value + ttl.value))
              ==> ok
    {
      var sender := Strip(senderId);
      if sender == "" { return false; }
      if !TimeOk(timestamp, ttl, now, maxClockSkew) { return false; }
      if nonce.Some? {
        var fits := CheckNonce(sender, nonce.value);
        if !fits { return false; }
      }
      match n
      case Absent => return true;
      case Malformed => return false;
      case Given(value) => ok := CheckSequence(sender, value);
    }

    method CheckNonce(sender: string, nonce: string) returns (ok: bool)
      requires Valid() && sender != ""
      modifies this`seenNonces, this`nonceLog
      ensures Valid()
      ensures ok == old(NonceFits(sender, Some(nonce)))
      ensures nonceLog == if ok then old(nonceLog)[sender := old(NoncesFrom(sender)) + [Strip(nonce)]]
                else old(nonceLog)
    {
      var clean := Strip(nonce);
      if clean == "" { return false; }
      var seen := NoncesOf(sender);
      if clean in seen {
        return false;
      }
      ghost var log := NoncesFrom(sender);
      assert seen == LastN(log, maxNonceCache);
      seen := Remember(seen, clean, log);
      seenNonces := seenNonces[sender := seen];
      nonceLog := nonceLog[sender := log + [clean]];
      forall s ensures NoncesOf(s) == LastN(NoncesFrom(s), maxNonceCache) {
        assert s != sender ==> NoncesOf(s) == old(NoncesOf(s)) && NoncesFrom(s) == old(NoncesFrom(s));
      }
      forall s ensures Represents(WindowOf(s), window, AcceptedFrom(s)) {
        assert WindowOf(s) == old(WindowOf(s));
      }
      return true;
    }

    // Appends a nonce and evicts the oldest ones beyond the cache size.
    method Remember(seen: seq<string>, nonce: string, ghost log: seq<string>) returns (kept: seq<string>)
      requires seen == LastN(log, maxNonceCache)
      ensures kept == LastN(log + [nonce], maxNonceCache)
    {
      kept := seen + [nonce];
      ghost var all := log + [nonce];
      assert kept == all[|all| - |kept|..];
      while |kept| > maxNonceCache
        invariant |kept| <= |all| && kept == all[|all| - |kept|..]
        invariant |kept| >= maxNonceCache || kept == all
      {
        kept := kept[1..];
      }
    }

    method CheckSequence(sender: string, n: int) returns (ok: bool)
      requires Valid() && sender != ""
      modifies this`lastSeq, this`seenSeq, this`accepted
      ensures Valid()
      ensures ok == IdealAccepts(old(AcceptedFrom(sender)), window, n)
      ensures accepted == if ok then old(accepted)[sender := old(AcceptedFrom(sender)) + {n}] else old(accepted)
    {
      ghost var w := WindowOf(sender);
      WindowDecidesAsIdeal(w, window, AcceptedFrom(sender), n);
      if n < 0 { return false; }
      var last := if sender in lastSeq then lastSeq[sender] else -1;
      if n <= last - window { return false; }
      var seen := if sender in seenSeq then seenSeq[sender] else {};
      if n in seen { return false; }
      seen := seen + {n};
      if n > last {
        lastSeq := lastSeq[sender := n];
      }
      var newFloor := lastSeq[sender] - window;
      seenSeq := seenSeq[sender := set s | s in seen && s > newFloor];
      accepted := accepted[sender := AcceptedFrom(sender) + {n}];
      assert WindowOf(sender) == Advanced(w, window, n);
      forall s ensures Represents(WindowOf(s), window, AcceptedFrom(s)) {
        assert s != sender ==> WindowOf(s) == old(WindowOf(s));
      }
      forall s ensures NoncesOf(s) == LastN(NoncesFrom(s), maxNonceCache) {
        assert NoncesOf(s) == old(NoncesOf(s));
      }
      return true;
    }

    /** Resetting a sender forgets it completely and nobody else. */
    method Reset(senderId: string)
      requires Valid()
      modifies this
      ensures Valid()
      ensures accepted == old(accepted) - {Strip(senderId)} && nonceLog == old(nonceLog) - {Strip(senderId)}
    {
      var sender := Strip(senderId);
      if sender == "" { return; }
      seenNonces, lastSeq, seenSeq := seenNonces - {sender}, lastSeq - {sender}, seenSeq - {sender};
      accepted, nonceLog := accepted - {sender}, nonceLog - {sender};
      forall s ensures Represents(WindowOf(s), window, AcceptedFrom(s)) {
        assert s != sender ==> WindowOf(s) == old(WindowOf(s)) && AcceptedFrom(s) == old(AcceptedFrom(s));
      }
      forall s ensures NoncesOf(s) == LastN(NoncesFrom(s), maxNonceCache) {
        assert s != sender ==> NoncesOf(s) == old(NoncesOf(s)) && NoncesFrom(s) == old(NoncesFrom(s));
      }
    }

    method Clear()
      requires Valid()
      modifies this
      ensures Valid() && accepted == map[] && nonceLog == map[]
      ensures seenNonces == map[] && lastSeq == map[] && seenSeq == map[]
    {
      seenNonces, lastSeq, seenSeq := map[], map[], map[];
      accepted, nonceLog := map[], map[];
    }
  }
}
