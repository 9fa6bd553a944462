/**
 * The delivery ledger and the claim protocol that N dispatchers run against it. Each SQL
 * statement is one atomic step; the clock only moves forward; a worker may crash between its
 * claim and its record.
 */
module AlertOutbox {
  import opened Options

  datatype Key = Key(subscription: int, tx: string)
  datatype Status = Claimed | Delivered | Failed
  datatype Row = Row(status: Status, attempts: nat, lastError: Option<string>, deliveredAt: Option<int>, createdAt: int)
  type Ledger = map<Key, Row>

  /** A claim older than this many seconds counts as abandoned. */
  const CLAIM_STALE_AFTER_SECS: nat := 60

  // ----------------------------------------------------------- the statements

  /** The WHERE clause of the claim's upsert, or no conflict at all. */
  predicate Claimable(l: Ledger, k: Key, now: int, stale: nat) {
    k !in l || l[k].status.Failed? || (l[k].status.Claimed? && l[k].createdAt < now - stale)
  }

  function Attempts(l: Ledger, k: Key): nat {
    if k in l then l[k].attempts else 0
  }

  /** INSERT ... ON CONFLICT DO UPDATE ... WHERE: the new ledger and whether a row was written. */
  function TryClaim(l: Ledger, k: Key, now: int, stale: nat): (Ledger, bool) {
    if Claimable(l, k, now, stale) then (l[k := Row(Claimed, Attempts(l, k) + 1, None, None, now)], true)
    else (l, false)
  }

  /** INSERT ... ON CONFLICT DO UPDATE: unconditional, whatever the row says. */
  function Record(l: Ledger, k: Key, now: int, delivered: bool, error: Option<string>): Ledger {
    var status := if delivered then Delivered else Failed;
    if k !in l then l[k := Row(status, 1, error, if delivered then Some(now) else None, now)]
    else
      l[k := l[k].(status := status, attempts := l[k].attempts + 1, lastError := error,
                   deliveredAt := if delivered then Some(now) else l[k].deliveredAt)]
  }

  /** The anti-join of the pending scan. */
  predicate Excluded(l: Ledger, k: Key, now: int, stale: nat) {
    k in l && (l[k].status.Delivered? || (l[k].status.Claimed? && l[k].createdAt > now - stale))
  }

  datatype Subscription = Subscription(id: int, category: Option<string>, toAddr: Option<string>, active: bool,
      perEvent: bool)
  datatype FailedTx = FailedTx(tx: string, category: string, toAddr: Option<string>)

  predicate Matches(s: Subscription, f: FailedTx) {
    && s.active && s.perEvent
    && (s.category.None? || s.category.value == f.category)
    && (s.toAddr.None? || s.toAddr == f.toAddr)
  }

  function PendingMatches(subs: set<Subscription>, failed: set<FailedTx>, l: Ledger, now: int, stale: nat): set<Key> {
    set s, f | s in subs && f in failed && Matches(s, f) && !Excluded(l, Key(s.id, f.tx), now, stale) :: Key(s.id, f.tx)
  }

  // ------------------------------------------------------------- what the scan lists

  /** Subscription ids and transaction hashes are primary keys. */
  ghost predicate UniqueKeys(subs: set<Subscription>, failed: set<FailedTx>) {
    && (forall s, q :: s in subs && q in subs && s.id == q.id ==> s == q)
    && (forall f, g :: f in failed && g in failed && f.tx == g.tx ==> f == g)
  }

  /**
   * A pair is pending if and only if it is that of an active per-event subscription and a failure of
   * the subscription's category, if it names one, sent to its address, if it names one, and no row
   * of the pair is delivered or claimed within the last `stale` seconds.
   */
  lemma PendingIff(subs: set<Subscription>, failed: set<FailedTx>, l: Ledger, now: int, stale: nat,
                   s: Subscription, f: FailedTx)
    requires UniqueKeys(subs, failed) && s in subs && f in failed
    ensures var k := Key(s.id, f.tx);
            k in PendingMatches(subs, failed, l, now, stale) <==>
            && s.active && s.perEvent
            && (s.category == None || s.category == Some(f.category))
            && (s.toAddr == None || s.toAddr == f.toAddr)
            && (k in l ==> l[k].status == Failed || (l[k].status == Claimed && l[k].createdAt + stale <= now))
  {
  }

  /** Nothing else is pending. */
  lemma PendingIsOfTables(subs: set<Subscription>, failed: set<FailedTx>, l: Ledger, now: int, stale: nat, k: Key)
    requires k in PendingMatches(subs, failed, l, now, stale)
    ensures exists s, f :: s in subs && f in failed && k == Key(s.id, f.tx)
  {
  }

  // ---------------------------------------------------- the scan against the claim

  /**
   * Scan and claim share one criterion except at a single instant: a claim exactly `stale` old is
   * already scanned but not yet claimable.
   */
  lemma ScanAgreesWithClaim(l: Ledger, k: Key, now: int, stale: nat)
    ensures Claimable(l, k, now, stale) <==>
            !Excluded(l, k, now, stale) && !(k in l && l[k].status.Claimed? && l[k].createdAt == now - stale)
  {
  }

  ghost predicate IsMatch(subs: set<Subscription>, failed: set<FailedTx>, k: Key) {
    exists s, f :: s in subs && f in failed && Matches(s, f) && Key(s.id, f.tx) == k
  }

  /** Every match the claim would accept is pending; a pending one whose row stays is claimable at any later time. */
  lemma PendingIsClaimable(
      subs: set<Subscription>, failed: set<FailedTx>, l: Ledger, now: int, stale: nat, k: Key, later: int)
    requires later > now
    ensures IsMatch(subs, failed, k) && Claimable(l, k, now, stale) ==>
              k in PendingMatches(subs, failed, l, now, stale)
    ensures k in PendingMatches(subs, failed, l, now, stale) ==> TryClaim(l, k, later, stale).1
  {
    ScanAgreesWithClaim(l, k, now, stale);
  }

  /** A claim whose worker died comes back: to the scan from `stale` on, to the claim strictly after it. */
  lemma AbandonedClaimComesBack(l: Ledger, k: Key, now: int, stale: nat)
    requires k in l && l[k].status.Claimed?
    ensures TryClaim(l, k, now, stale).1 <==> now > l[k].createdAt + stale
    ensures !Excluded(l, k, now, stale) <==> now >= l[k].createdAt + stale
  {
  }

  // ------------------------------------------------------------- the batch of a scan

  /** The order of the scan: transaction hashes, byte by byte. */
  predicate Before(a: string, b: string) {
    b != [] && (a == [] || (if a[0] == b[0] then Before(a[1..], b[1..]) else a[0] < b[0]))
  }

  /** The texts agree below `i`, where the first ends or has the smaller character. */
  predicate SmallerAt(a: string, b: string, i: int) {
    0 <= i <= |a| && i < |b| && a[..i] == b[..i] && (i == |a| || a[i] < b[i])
  }

  lemma FirstAgrees(a: string, b: string)
    ensures forall i :: SmallerAt(a, b, i) && i > 0 ==> a[0] == b[0]
  {
    forall i | SmallerAt(a, b, i) && i > 0 ensures a[0] == b[0] {
      assert a[0] == a[..i][0] == b[..i][0] == b[0];
    }
  }

  /** `Before` is the lexicographic order. */
  lemma {:induction false} BeforeMeaning(a: string, b: string)
    ensures Before(a, b) <==> exists i :: SmallerAt(a, b, i)
    decreases |a|
  {
    FirstAgrees(a, b);
    if a != [] && b != [] && a[0] == b[0] {
      BeforeMeaning(a[1..], b[1..]);
      if i :| SmallerAt(a[1..], b[1..], i) {
        assert a[..i + 1] == [a[0]] + a[1..][..i] == b[..i + 1];
        assert SmallerAt(a, b, i + 1);
      }
      if i :| SmallerAt(a, b, i) {
        assert i > 0;
        assert a[1..][..i - 1] == a[..i][1..] == b[..i][1..] == b[1..][..i - 1];
        assert SmallerAt(a[1..], b[1..], i - 1);
      }
    } else if Before(a, b) {
      assert SmallerAt(a, b, 0);
    }
  }

  /** A result of ... ORDER BY tx_hash LIMIT limit: the smallest hashes, pairs of one transaction in any order. */
  ghost predicate IsBatch(batch: set<Key>, pending: set<Key>, limit: nat) {
    && batch <= pending && |batch| == Min(limit, |pending|)
    && forall k, q :: k in batch && q in pending && q !in batch ==> !Before(q.tx, k.tx)
  }

  lemma SubsetSize(a: set<Key>, b: set<Key>)
    requires a <= b
    ensures |a| <= |b| && (|a| == |b| ==> a == b)
  {
    assert b == a + (b - a);
    assert |b| == |a| + |b - a|;
  }

  /**
   * A pending pair is in the batch when fewer than `limit` others come no later, and is not when
   * `limit` come earlier.
   */
  lemma InBatchByRank(batch: set<Key>, pending: set<Key>, limit: nat, k: Key)
    requires IsBatch(batch, pending, limit) && k in pending
    ensures |set q | q in pending && q != k && !Before(k.tx, q.tx)| < limit ==> k in batch
    ensures |set q | q in pending && Before(q.tx, k.tx)| >= limit ==> k !in batch
  {
    var noLater := set q | q in pending && q != k && !Before(k.tx, q.tx);
    var earlier := set q | q in pending && Before(q.tx, k.tx);
    if k !in batch {
      SubsetSize(batch, pending);
      assert batch <= noLater;
      SubsetSize(batch, noLater);
    } else {
      assert !Before(k.tx, k.tx) by { NotBeforeItself(k.tx); }
      assert earlier + {k} <= batch;
      SubsetSize(earlier + {k}, batch);
    }
  }

  lemma {:induction false} NotBeforeItself(a: string)
    ensures !Before(a, a)
  {
    if a != [] { NotBeforeItself(a[1..]); }
  }

  // ---------------------------------------------------------------- starvation

  /** One whole dispatch of a pair, as it appears in the ledger. */
  datatype Dispatch = Dispatch(key: Key, claimAt: int, recordAt: int, delivered: bool, error: Option<string>)

  function AfterDispatches(l: Ledger, ds: seq<Dispatch>, stale: nat): Ledger {
    if ds == [] then l
    else
      var d, before := ds[|ds| - 1], AfterDispatches(l, ds[..|ds| - 1], stale);
      if !Claimable(before, d.key, d.claimAt, stale) then before
      else Record(TryClaim(before, d.key, d.claimAt, stale).0, d.key, d.recordAt, d.delivered, d.error)
  }

  /** No row, or a failed one: scanned at any time. */
  ghost predicate NeverDelivered(l: Ledger, keys: set<Key>) {
    forall q :: q in keys ==> q !in l || l[q].status.Failed?
  }

  lemma {:induction false} DispatchesKeepFailing(l: Ledger, ds: seq<Dispatch>, stale: nat, hopeless: set<Key>)
    requires NeverDelivered(l, hopeless) && forall i :: 0 <= i < |ds| && ds[i].key in hopeless ==> !ds[i].delivered
    ensures NeverDelivered(AfterDispatches(l, ds, stale), hopeless)
    decreases |ds|
  {
    if ds != [] { DispatchesKeepFailing(l, ds[..|ds| - 1], stale, hopeless); }
  }

  /**
   * As many permanently failing matches as the scan's limit, with smaller hashes, starve a later
   * one: whatever is dispatched in between, it is never in a batch.
   */
  lemma {:induction false} FailingMatchesStarveOthers(
      subs: set<Subscription>, failed: set<FailedTx>, l: Ledger, ds: seq<Dispatch>, stale: nat, now: int, limit: nat,
      hopeless: set<Key>, k: Key, batch: set<Key>)
    requires NeverDelivered(l, hopeless) && forall i :: 0 <= i < |ds| && ds[i].key in hopeless ==> !ds[i].delivered
    requires |hopeless| >= limit && forall q :: q in hopeless ==> Before(q.tx, k.tx) && IsMatch(subs, failed, q)
    requires IsBatch(batch, PendingMatches(subs, failed, AfterDispatches(l, ds, stale), now, stale), limit)
    ensures k !in batch
  {
    var after := AfterDispatches(l, ds, stale);
    var pending := PendingMatches(subs, failed, after, now, stale);
    DispatchesKeepFailing(l, ds, stale, hopeless);
    forall q | q in hopeless ensures q in pending {
      var s, f :| s in subs && f in failed && Matches(s, f) && Key(s.id, f.tx) == q;
    }
    var earlier := set q | q in pending && Before(q.tx, k.tx);
    assert hopeless <= earlier;
    SubsetSize(hopeless, earlier);
    if k in pending { InBatchByRank(batch, pending, limit, k); }
  }

  // ------------------------------------------------------------ the state machine

  type WorkerId = nat

  datatype Lease = Lease(key: Key, since: int)

  /** One line of history: a successful claim or a recorded outcome. */
  datatype Fact =
    | ClaimedAt(key: Key, at: int)
    | RecordedAt(key: Key, delivered: bool, error: Option<string>, at: int)

  datatype State = State(ledger: Ledger, now: int, holding: map<WorkerId, Lease>, history: seq<Fact>)

  datatype Event =
    | Tick(seconds: nat)
    | Claim(worker: WorkerId, key: Key)
    | Finish(worker: WorkerId, delivered: bool, error: Option<string>)
    | Crash(worker: WorkerId)

  predicate Enabled(s: State, e: Event) {
    match e
    case Tick(_) => true
    case Claim(w, _) => w !in s.holding
    case Finish(w, _, _) => w in s.holding
    case Crash(w) => w in s.holding
  }

  function Step(s: State, e: Event, stale: nat): State
    requires Enabled(s, e)
  {
    match e
    case Tick(d) => s.(now := s.now + d)
    case Claim(w, k) =>
      var (l, won) := TryClaim(s.ledger, k, s.now, stale);
      if !won then s
      else s.(ledger := l, holding := s.holding[w := Lease(k, s.now)], history := s.history + [ClaimedAt(k, s.now)])
    case Finish(w, delivered, error) =>
      var k := s.holding[w].key;
      s.(ledger := Record(s.ledger, k, s.now, delivered, error), holding := s.holding - {w},
         history := s.history + [RecordedAt(k, delivered, error, s.now)])
    case Crash(w) => s.(holding := s.holding - {w})
  }

  /** The worker's claim is not yet stale. */
  predicate Live(s: State, w: WorkerId, stale: nat) {
    w in s.holding && s.now <= s.holding[w].since + stale
  }

  /** The assumption on workers: an outcome is recorded, if at all, before the claim goes stale. */
  predicate Timely(s: State, e: Event, stale: nat) {
    e.Finish? ==> Live(s, e.worker, stale)
  }

  function CountFacts(history: seq<Fact>, k: Key): nat {
    if history == [] then 0
    else CountFacts(history[..|history| - 1], k) + if history[|history| - 1].key == k then 1 else 0
  }

  predicate IsDelivery(f: Fact, k: Key) {
    f.RecordedAt? && f.key == k && f.delivered
  }

  function CountDeliveries(history: seq<Fact>, k: Key): nat {
    if history == [] then 0
    else CountDeliveries(history[..|history| - 1], k) + if IsDelivery(history[|history| - 1], k) then 1 else 0
  }

  /** Every live holder owns the claimed row it wrote. */
  ghost predicate LiveHoldersOwnRows(s: State, stale: nat) {
    forall w :: Live(s, w, stale) ==>
      var k := s.holding[w].key;
      k in s.ledger && s.ledger[k].status.Claimed? && s.ledger[k].createdAt == s.holding[w].since
  }

  ghost predicate OneLiveHolderPerKey(s: State, stale: nat) {
    forall v, w :: Live(s, v, stale) && Live(s, w, stale) && s.holding[v].key == s.holding[w].key ==> v == w
  }

  /** `attempts` counts the successful claims and the records of the pair. */
  ghost predicate AttemptsCount(s: State) {
    forall k :: Attempts(s.ledger, k) == CountFacts(s.history, k)
  }

  /** A pair has been delivered at most once, and has been iff its row says so. */
  ghost predicate DeliveredOnce(s: State) {
    forall k :: CountDeliveries(s.history, k) == if k in s.ledger && s.ledger[k].status.Delivered? then 1 else 0
  }

  /** Nothing happens to a pair after its delivery: no claim succeeds and no record is written. */
  ghost predicate NothingAfterDelivery(s: State) {
    forall i, j, k :: 0 <= i < j < |s.history| && IsDelivery(s.history[i], k) ==> s.history[j].key != k
  }

  ghost predicate LeasesInThePast(s: State) {
    forall w :: w in s.holding ==> s.holding[w].since <= s.now && s.holding[w].key in s.ledger
  }

  ghost predicate Safe(s: State, stale: nat) {
    && LeasesInThePast(s)
    && LiveHoldersOwnRows(s, stale)
    && OneLiveHolderPerKey(s, stale)
    && AttemptsCount(s)
    && DeliveredOnce(s)
    && NothingAfterDelivery(s)
  }

  function Start(now: int): State {
    State(map[], now, map[], [])
  }

  lemma DeliveriesAreCounted(history: seq<Fact>, k: Key)
    ensures CountDeliveries(history, k) == 0 <==> forall i :: 0 <= i < |history| ==> !IsDelivery(history[i], k)
  {
    if history != [] {
      DeliveriesAreCounted(history[..|history| - 1], k);
    }
  }

  lemma AppendFact(history: seq<Fact>, f: Fact, k: Key)
    ensures CountFacts(history + [f], k) == CountFacts(history, k) + if f.key == k then 1 else 0
    ensures CountDeliveries(history + [f], k) == CountDeliveries(history, k) + if IsDelivery(f, k) then 1 else 0
  {
    assert (history + [f])[..|history|] == history;
  }

  lemma ClaimKeepsCounts(s: State, e: Event, stale: nat)
    requires Safe(s, stale) && e.Claim? && Enabled(s, e) && Claimable(s.ledger, e.key, s.now, stale)
    ensures var u := Step(s, e, stale);
            AttemptsCount(u) && DeliveredOnce(u) && NothingAfterDelivery(u)
  {
    hide LiveHoldersOwnRows, OneLiveHolderPerKey, LeasesInThePast;
    var k, u := e.key, Step(s, e, stale);
    forall q ensures Attempts(u.ledger, q) == CountFacts(u.history, q)
             ensures CountDeliveries(u.history, q) == if q in u.ledger && u.ledger[q].status.Delivered? then 1 else 0
    {
      AppendFact(s.history, ClaimedAt(k, s.now), q);
    }
    DeliveriesAreCounted(s.history, k);
  }

  lemma ClaimKeepsLeases(s: State, e: Event, stale: nat)
    requires Safe(s, stale) && e.Claim? && Enabled(s, e) && Claimable(s.ledger, e.key, s.now, stale)
    ensures var u := Step(s, e, stale);
            LeasesInThePast(u) && LiveHoldersOwnRows(u, stale) && OneLiveHolderPerKey(u, stale)
  {
    hide AttemptsCount, DeliveredOnce, NothingAfterDelivery;
    forall w | Live(s, w, stale) ensures s.holding[w].key != e.key {
    }
    var u := Step(s, e, stale);
    assert forall w :: w != e.worker ==> (Live(u, w, stale) <==> Live(s, w, stale));
  }

  lemma ClaimKeepsSafe(s: State, e: Event, stale: nat)
    requires Safe(s, stale) && e.Claim? && Enabled(s, e)
    ensures Safe(Step(s, e, stale), stale)
  {
    if Claimable(s.ledger, e.key, s.now, stale) {
      ClaimKeepsCounts(s, e, stale);
      ClaimKeepsLeases(s, e, stale);
    }
  }

  /** No other worker is still inside its window for the same pair, and the pair is not delivered. */
  ghost predicate Unobstructed(s: State, w: WorkerId, stale: nat) {
    && w in s.holding && s.holding[w].key in s.ledger && !s.ledger[s.holding[w].key].status.Delivered?
    && forall v :: Live(s, v, stale) && s.holding[v].key == s.holding[w].key ==> v == w
  }

  lemma FinishKeepsSafe(s: State, e: Event, stale: nat)
    requires Safe(s, stale) && e.Finish? && Enabled(s, e) && Unobstructed(s, e.worker, stale)
    ensures Safe(Step(s, e, stale), stale)
  {
    var k := s.holding[e.worker].key;
    var u := Step(s, e, stale);
    forall q ensures Attempts(u.ledger, q) == CountFacts(u.history, q)
             ensures CountDeliveries(u.history, q) == if q in u.ledger && u.ledger[q].status.Delivered? then 1 else 0
    {
      AppendFact(s.history, RecordedAt(k, e.delivered, e.error, s.now), q);
    }
    DeliveriesAreCounted(s.history, k);
    assert LiveHoldersOwnRows(u, stale);
    assert OneLiveHolderPerKey(u, stale);
  }

  /** A record keeps the invariant of the protocol exactly when it is unobstructed. */
  lemma FinishKeepsSafeIff(s: State, e: Event, stale: nat)
    requires Safe(s, stale) && e.Finish? && Enabled(s, e)
    ensures Safe(Step(s, e, stale), stale) <==> Unobstructed(s, e.worker, stale)
  {
    var w := e.worker;
    var k := s.holding[w].key;
    var u := Step(s, e, stale);
    if Unobstructed(s, w, stale) {
      FinishKeepsSafe(s, e, stale);
    } else if s.ledger[k].status.Delivered? {
      DeliveriesAreCounted(s.history, k);
      var i :| 0 <= i < |s.history| && IsDelivery(s.history[i], k);
      assert IsDelivery(u.history[i], k) && u.history[|s.history|].key == k;
    } else {
      var v :| Live(s, v, stale) && s.holding[v].key == k && v != w;
      assert Live(u, v, stale);
    }
  }

  /** A worker that records in time is never obstructed. */
  lemma TimelyIsUnobstructed(s: State, w: WorkerId, stale: nat)
    requires Safe(s, stale) && Live(s, w, stale)
    ensures Unobstructed(s, w, stale)
  {
  }

  /** Another worker can take a pair over exactly when its claim is late. */
  lemma TakeoverIffLate(s: State, w: WorkerId, other: WorkerId, stale: nat)
    requires Safe(s, stale) && w in s.holding && other !in s.holding
    requires s.ledger[s.holding[w].key].status.Claimed? && s.ledger[s.holding[w].key].createdAt == s.holding[w].since
    ensures other in Step(s, Claim(other, s.holding[w].key), stale).holding <==> !Live(s, w, stale)
  {
  }

  /** A crash gives up the lease but not the row: any worker, the restarted one too, can claim it once it is stale. */
  lemma CrashedClaimComesBack(s: State, w: WorkerId, other: WorkerId, d: nat, stale: nat)
    requires w in s.holding && (other == w || other !in s.holding)
    requires var k := s.holding[w].key;
             k in s.ledger && s.ledger[k].status.Claimed? && s.ledger[k].createdAt == s.holding[w].since
    ensures var u := Step(Step(s, Crash(w), stale), Tick(d), stale);
            && u.ledger == s.ledger && other !in u.holding
            && (other in Step(u, Claim(other, s.holding[w].key), stale).holding
                <==> s.now + d > s.holding[w].since + stale)
  {
  }

  lemma StepKeepsSafe(s: State, e: Event, stale: nat)
    requires Safe(s, stale) && Enabled(s, e) && Timely(s, e, stale)
    ensures Safe(Step(s, e, stale), stale)
  {
    match e
    case Tick(d) =>
      var u := Step(s, e, stale);
      assert forall w :: Live(u, w, stale) ==> Live(s, w, stale);
    case Claim(_, _) =>
      ClaimKeepsSafe(s, e, stale);
    case Finish(w, _, _) =>
      TimelyIsUnobstructed(s, w, stale);
      FinishKeepsSafe(s, e, stale);
    case Crash(w) =>
      var u := Step(s, e, stale);
      assert forall v :: Live(u, v, stale) ==> Live(s, v, stale);
  }

  // ---------------------------------------------------------------- whole runs

  /** The run is possible step by step; `timely` runs also meet the assumption on workers. */
  predicate Possible(s: State, events: seq<Event>, stale: nat, timely: bool)
    decreases |events|
  {
    events == [] ||
    (Enabled(s, events[0]) && (timely ==> Timely(s, events[0], stale))
        && Possible(Step(s, events[0], stale), events[1..], stale, timely))
  }

  function Run(s: State, events: seq<Event>, stale: nat): State
    requires Possible(s, events, stale, false)
    decreases |events|
  {
    if events == [] then s else Run(Step(s, events[0], stale), events[1..], stale)
  }

  lemma TimelyIsPossible(s: State, events: seq<Event>, stale: nat)
    requires Possible(s, events, stale, true)
    ensures Possible(s, events, stale, false)
    decreases |events|
  {
    if events != [] {
      TimelyIsPossible(Step(s, events[0], stale), events[1..], stale);
    }
  }

  lemma {:induction false} RunKeepsSafe(s: State, events: seq<Event>, stale: nat)
    requires Safe(s, stale) && Possible(s, events, stale, true) && Possible(s, events, stale, false)
    ensures Safe(Run(s, events, stale), stale)
    decreases |events|
  {
    if events != [] {
      StepKeepsSafe(s, events[0], stale);
      RunKeepsSafe(Step(s, events[0], stale), events[1..], stale);
    }
  }

  /**
   * The protocol over every interleaving of any number of workers that record in time or crash:
   * one live holder per pair, one delivery per pair and nothing after it, attempts exact.
   */
  lemma OutboxIsSafe(now: int, events: seq<Event>, stale: nat)
    requires Possible(Start(now), events, stale, true)
    ensures Possible(Start(now), events, stale, false)
    ensures var s := Run(Start(now), events, stale);
            && OneLiveHolderPerKey(s, stale)
            && (forall k :: CountDeliveries(s.history, k) <= 1)
            && NothingAfterDelivery(s)
            && AttemptsCount(s)
  {
    TimelyIsPossible(Start(now), events, stale);
    RunKeepsSafe(Start(now), events, stale);
    var s := Run(Start(now), events, stale);
    forall k ensures CountDeliveries(s.history, k) <= 1 {
      assert DeliveredOnce(s);
    }
  }

  // ------------------------------------------------------- what a row says of the past

  datatype Kind = AnyFact | AClaim | ADelivery

  predicate Has(f: Fact, k: Key, kind: Kind) {
    f.key == k && (kind.AClaim? ==> f.ClaimedAt?) && (kind.ADelivery? ==> IsDelivery(f, k))
  }

  /** Fact `i` is the last of its kind about the pair. */
  ghost predicate LastOf(history: seq<Fact>, i: int, k: Key, kind: Kind) {
    0 <= i < |history| && Has(history[i], k, kind) && forall j :: i < j < |history| ==> !Has(history[j], k, kind)
  }

  /**
   * Column by column: the row was created by the last claim, has the status and the error of the last
   * fact, and the time of the last delivery if no claim came after it.
   */
  ghost predicate Tells(row: Row, history: seq<Fact>, k: Key) {
    && row.attempts == CountFacts(history, k)
    && (exists c :: LastOf(history, c, k, AClaim))
    && (forall c :: LastOf(history, c, k, AClaim) ==> row.createdAt == history[c].at)
    && (forall i :: LastOf(history, i, k, AnyFact) ==> LastFactIs(row, history[i]))
    && (forall c, d :: LastOf(history, c, k, AClaim) && LastOf(history, d, k, ADelivery) ==>
          row.deliveredAt == if c < d then Some(history[d].at) else None)
    && (row.deliveredAt.Some? ==> exists d :: LastOf(history, d, k, ADelivery))
  }

  predicate LastFactIs(row: Row, f: Fact) {
    if f.ClaimedAt? then row.status == Claimed && row.lastError == None
    else row.status == (if f.delivered then Delivered else Failed) && row.lastError == f.error
  }

  ghost predicate Mentioned(history: seq<Fact>, k: Key) {
    exists i :: 0 <= i < |history| && history[i].key == k
  }

  ghost predicate RowTells(s: State, k: Key) {
    (k in s.ledger <==> Mentioned(s.history, k)) && (k in s.ledger ==> Tells(s.ledger[k], s.history, k))
  }

  ghost predicate RowsTell(s: State) {
    (forall w :: w in s.holding ==> s.holding[w].key in s.ledger) && forall k :: RowTells(s, k)
  }

  lemma LastOfOneMore(history: seq<Fact>, f: Fact, k: Key, kind: Kind)
    ensures forall i :: LastOf(history + [f], i, k, kind) <==>
              if Has(f, k, kind) then i == |history| else LastOf(history, i, k, kind)
    ensures forall i :: LastOf(history, i, k, kind) ==> 0 <= i < |history|
  {
    var more := history + [f];
    assert more[|history|] == f && forall i :: 0 <= i < |history| ==> more[i] == history[i];
    forall i ensures LastOf(more, i, k, kind) <==>
        if Has(f, k, kind) then i == |history| else LastOf(history, i, k, kind) {
      if LastOf(history, i, k, kind) && !Has(f, k, kind) {
        forall j | i < j < |more| ensures !Has(more[j], k, kind) {
          if j < |history| { assert more[j] == history[j]; }
        }
      }
    }
  }

  lemma MentionedOneMore(history: seq<Fact>, f: Fact, k: Key)
    ensures Mentioned(history + [f], k) <==> Mentioned(history, k) || f.key == k
  {
    var more := history + [f];
    assert more[|history|] == f && forall i :: 0 <= i < |history| ==> more[i] == history[i];
  }

  lemma UnmentionedHasNone(history: seq<Fact>, k: Key)
    requires !Mentioned(history, k)
    ensures CountFacts(history, k) == 0 && forall i, kind :: !LastOf(history, i, k, kind)
  {
    if history != [] {
      UnmentionedHasNone(history[..|history| - 1], k);
    }
  }

  /** The row after one more fact about its pair. */
  function NextRow(l: Ledger, f: Fact): Row
    requires f.RecordedAt? ==> f.key in l
  {
    if f.ClaimedAt? then Row(Claimed, Attempts(l, f.key) + 1, None, None, f.at)
    else l[f.key].(status := if f.delivered then Delivered else Failed, attempts := l[f.key].attempts + 1,
                   lastError := f.error, deliveredAt := if f.delivered then Some(f.at) else l[f.key].deliveredAt)
  }

  lemma RowHasAClaim(s: State, u: State, f: Fact, k: Key)
    requires k in s.ledger && Tells(s.ledger[k], s.history, k) && u.history == s.history + [f]
    ensures exists c :: LastOf(u.history, c, k, AClaim)
    ensures s.ledger[k].deliveredAt.Some? ==> exists d :: LastOf(u.history, d, k, ADelivery)
  {
    hide LastOf, CountFacts;
    LastOfOneMore(s.history, f, k, AClaim);
    LastOfOneMore(s.history, f, k, ADelivery);
    var n := |s.history|;
    var c :| LastOf(s.history, c, k, AClaim);
    assert LastOf(u.history, if Has(f, k, AClaim) then n else c, k, AClaim);
    if s.ledger[k].deliveredAt.Some? {
      var d :| LastOf(s.history, d, k, ADelivery);
      assert LastOf(u.history, if Has(f, k, ADelivery) then n else d, k, ADelivery);
    }
  }

  lemma FactKeepsRowTells(s: State, u: State, f: Fact, k: Key)
    requires RowTells(s, k) && u.history == s.history + [f] && (f.RecordedAt? ==> f.key in s.ledger)
    requires u.ledger == s.ledger[f.key := NextRow(s.ledger, f)]
    ensures RowTells(u, k)
  {
    hide LastOf, Mentioned, CountFacts;
    LastOfOneMore(s.history, f, k, AnyFact);
    LastOfOneMore(s.history, f, k, AClaim);
    LastOfOneMore(s.history, f, k, ADelivery);
    MentionedOneMore(s.history, f, k);
    AppendFact(s.history, f, k);
    var n := |s.history|;
    assert f.ClaimedAt? && f.key == k ==> LastOf(u.history, n, k, AClaim);
    assert f.RecordedAt? && f.key == k && f.delivered ==> LastOf(u.history, n, k, ADelivery);
    if k !in s.ledger {
      UnmentionedHasNone(s.history, k);
    } else {
      RowHasAClaim(s, u, f, k);
    }
  }

  lemma StepKeepsRowsTell(s: State, e: Event, stale: nat)
    requires RowsTell(s) && Enabled(s, e)
    ensures RowsTell(Step(s, e, stale))
  {
    var u := Step(s, e, stale);
    hide RowTells;
    if e.Claim? && Claimable(s.ledger, e.key, s.now, stale) {
      forall k ensures RowTells(u, k) { FactKeepsRowTells(s, u, ClaimedAt(e.key, s.now), k); }
    } else if e.Finish? {
      var f := RecordedAt(s.holding[e.worker].key, e.delivered, e.error, s.now);
      forall k ensures RowTells(u, k) { FactKeepsRowTells(s, u, f, k); }
    } else {
      forall k ensures RowTells(u, k) { SameRowTells(s, u, k); }
    }
  }

  lemma SameRowTells(s: State, u: State, k: Key)
    requires RowTells(s, k) && u.ledger == s.ledger && u.history == s.history
    ensures RowTells(u, k)
  {
  }

  lemma {:induction false} RunKeepsRowsTell(s: State, events: seq<Event>, stale: nat)
    requires RowsTell(s) && Possible(s, events, stale, false)
    ensures RowsTell(Run(s, events, stale))
    decreases |events|
  {
    if events != [] {
      StepKeepsRowsTell(s, events[0], stale);
      RunKeepsRowsTell(Step(s, events[0], stale), events[1..], stale);
    }
  }

  /**
   * Over every run, timely or not, the ledger is what happened: a pair has a row exactly if it was
   * ever claimed, and every column of the row is read off the history.
   */
  lemma LedgerTellsHistory(now: int, events: seq<Event>, stale: nat)
    requires Possible(Start(now), events, stale, false)
    ensures var s := Run(Start(now), events, stale);
            forall k :: (k in s.ledger <==> Mentioned(s.history, k))
                && (k in s.ledger ==> Tells(s.ledger[k], s.history, k))
  {
    RunKeepsRowsTell(Start(now), events, stale);
    var s := Run(Start(now), events, stale);
    forall k ensures (k in s.ledger <==> Mentioned(s.history, k))
        && (k in s.ledger ==> Tells(s.ledger[k], s.history, k)) {
      assert RowTells(s, k);
    }
  }

  lemma RunFirst(s: State, e: Event, events: seq<Event>, stale: nat)
    requires Enabled(s, e) && Possible(Step(s, e, stale), events, stale, false)
    ensures Possible(s, [e] + events, stale, false)
    ensures Run(s, [e] + events, stale) == Run(Step(s, e, stale), events, stale)
  {
    assert ([e] + events)[1..] == events;
  }

  lemma PossibleFirst(s: State, e: Event, events: seq<Event>, stale: nat, timely: bool)
    requires Enabled(s, e)
    ensures Possible(s, [e] + events, stale, timely) <==>
            (timely ==> Timely(s, e, stale)) && Possible(Step(s, e, stale), events, stale, timely)
  {
    assert ([e] + events)[1..] == events;
  }

  // ------------------------------------------------------- when a record is harmless

  ghost predicate AtMostOnce(history: seq<Fact>) {
    forall k :: CountDeliveries(history, k) <= 1
  }

  /** However the workers go on, as long as they record in time, no pair is delivered twice. */
  ghost predicate NeverTwiceFrom(s: State, stale: nat) {
    forall events :: Possible(s, events, stale, true) && Possible(s, events, stale, false) ==>
                       AtMostOnce(Run(s, events, stale).history)
  }

  lemma SafeIsNeverTwice(s: State, stale: nat)
    requires Safe(s, stale)
    ensures NeverTwiceFrom(s, stale)
  {
    forall events | Possible(s, events, stale, true) && Possible(s, events, stale, false)
      ensures AtMostOnce(Run(s, events, stale).history)
    {
      RunKeepsSafe(s, events, stale);
      assert DeliveredOnce(Run(s, events, stale));
    }
  }

  /** One timely step first. */
  lemma TwiceAfterStep(s: State, e: Event, stale: nat)
    requires Enabled(s, e) && Timely(s, e, stale) && !NeverTwiceFrom(Step(s, e, stale), stale)
    ensures !NeverTwiceFrom(s, stale)
  {
    hide Step, Enabled, Timely, Possible, Run, AtMostOnce;
    var u := Step(s, e, stale);
    var events :| Possible(u, events, stale, true) && Possible(u, events, stale, false)
        && !AtMostOnce(Run(u, events, stale).history);
    PossibleFirst(s, e, events, stale, true);
    RunFirst(s, e, events, stale);
    assert !AtMostOnce(Run(s, [e] + events, stale).history);
  }

  lemma TwiceAlready(s: State, stale: nat, k: Key)
    requires CountDeliveries(s.history, k) >= 2
    ensures !NeverTwiceFrom(s, stale)
  {
    assert Possible(s, [], stale, true) && Possible(s, [], stale, false) && Run(s, [], stale) == s;
    assert !AtMostOnce(s.history);
  }

  /** A live holder of a delivered pair delivers it again. */
  lemma HolderDeliversAgain(s: State, w: WorkerId, stale: nat)
    requires Live(s, w, stale) && CountDeliveries(s.history, s.holding[w].key) >= 1
    ensures !NeverTwiceFrom(s, stale)
  {
    var k, e := s.holding[w].key, Finish(w, true, None);
    AppendFact(s.history, RecordedAt(k, true, None, s.now), k);
    TwiceAlready(Step(s, e, stale), stale, k);
    TwiceAfterStep(s, e, stale);
  }

  /** A free worker reclaims a pair that was delivered before and overwritten as failed. */
  lemma ReclaimDeliversAgain(s: State, w: WorkerId, k: Key, stale: nat)
    requires w !in s.holding && k in s.ledger && s.ledger[k].status.Failed? && CountDeliveries(s.history, k) >= 1
    ensures !NeverTwiceFrom(s, stale)
  {
    var e := Claim(w, k);
    AppendFact(s.history, ClaimedAt(k, s.now), k);
    HolderDeliversAgain(Step(s, e, stale), w, stale);
    TwiceAfterStep(s, e, stale);
  }

  /** A pair that is free while another worker still holds it live is delivered by both. */
  lemma BothDeliver(s: State, w: WorkerId, v: WorkerId, stale: nat)
    requires w !in s.holding && Live(s, v, stale)
    requires var k := s.holding[v].key; k in s.ledger && s.ledger[k].status.Failed?
    ensures !NeverTwiceFrom(s, stale)
  {
    var k := s.holding[v].key;
    var claim, finish := Claim(w, k), Finish(w, true, None);
    var s1 := Step(s, claim, stale);
    var s2 := Step(s1, finish, stale);
    AppendFact(s1.history, RecordedAt(k, true, None, s1.now), k);
    HolderDeliversAgain(s2, v, stale);
    TwiceAfterStep(s1, finish, stale);
    TwiceAfterStep(s, claim, stale);
  }

  /** After an obstructed record some timely continuation delivers the pair twice. */
  lemma ObstructedRecordDeliversTwice(s: State, e: Event, stale: nat)
    requires Safe(s, stale) && e.Finish? && Enabled(s, e) && !Unobstructed(s, e.worker, stale)
    ensures !NeverTwiceFrom(Step(s, e, stale), stale)
  {
    var w, k, u := e.worker, s.holding[e.worker].key, Step(s, e, stale);
    assert k in s.ledger;
    AppendFact(s.history, RecordedAt(k, e.delivered, e.error, s.now), k);
    if s.ledger[k].status.Delivered? {
      assert CountDeliveries(s.history, k) == 1;
      if e.delivered {
        TwiceAlready(u, stale, k);
      } else {
        ReclaimDeliversAgain(u, w, k, stale);
      }
    } else {
      var v :| Live(s, v, stale) && s.holding[v].key == k && v != w;
      if e.delivered {
        HolderDeliversAgain(u, v, stale);
      } else {
        BothDeliver(u, w, v, stale);
      }
    }
  }

  /**
   * The promise of one delivery survives a record if and only if the record is unobstructed: every
   * timely continuation then delivers each pair at most once, and otherwise some timely continuation
   * delivers one twice. Nothing in the record statement checks this: it overwrites the row of
   * whoever took the claim over.
   */
  lemma RecordIsHarmlessIff(s: State, e: Event, stale: nat)
    requires Safe(s, stale) && e.Finish? && Enabled(s, e)
    ensures NeverTwiceFrom(Step(s, e, stale), stale) <==> Unobstructed(s, e.worker, stale)
  {
    if Unobstructed(s, e.worker, stale) {
      FinishKeepsSafe(s, e, stale);
      SafeIsNeverTwice(Step(s, e, stale), stale);
    } else {
      ObstructedRecordDeliversTwice(s, e, stale);
    }
  }

  /** A worker wakes up after its claim was taken over and delivered by another. */
  function LateRecord(k: Key): seq<Event> {
    [Claim(0, k)] + ([Tick(CLAIM_STALE_AFTER_SECS + 1)]
        + ([Claim(1, k)] + ([Finish(1, true, None)] + ([Finish(0, true, None)] + []))))
  }

  /** Without the assumption on workers the pair can be delivered twice. */
  lemma LateRecordDeliversTwice(now: int, k: Key)
    ensures Possible(Start(now), LateRecord(k), CLAIM_STALE_AFTER_SECS, false)
    ensures CountDeliveries(Run(Start(now), LateRecord(k), CLAIM_STALE_AFTER_SECS).history, k) == 2
  {
    var stale := CLAIM_STALE_AFTER_SECS;
    var e0, e1, e2, e3, e4 := Claim(0, k), Tick(stale + 1), Claim(1, k), Finish(1, true, None), Finish(0, true, None);
    var s0 := Start(now);
    var s1 := Step(s0, e0, stale);
    var s2 := Step(s1, e1, stale);
    var s3 := Step(s2, e2, stale);
    var s4 := Step(s3, e3, stale);
    var s5 := Step(s4, e4, stale);
    var later := now + stale + 1;
    var f0, f2, f := ClaimedAt(k, now), ClaimedAt(k, later), RecordedAt(k, true, None, later);
    assert s5.history == [] + [f0] + [f2] + [f] + [f];
    hide Step, TryClaim, Record, Possible, Run, CountDeliveries;
    assert Possible(s5, [], stale, false) by { NothingIsPossible(s5, stale); }
    RunFirst(s4, e4, [], stale);
    RunFirst(s3, e3, [e4] + [], stale);
    RunFirst(s2, e2, [e3] + ([e4] + []), stale);
    RunFirst(s1, e1, [e2] + ([e3] + ([e4] + [])), stale);
    RunFirst(s0, e0, [e1] + ([e2] + ([e3] + ([e4] + []))), stale);
    NothingIsPossible(s5, stale);
    DeliveriesAreCounted([], k);
    AppendFact([], f0, k);
    AppendFact([] + [f0], f2, k);
    AppendFact([] + [f0] + [f2], f, k);
    AppendFact([] + [f0] + [f2] + [f], f, k);
  }

  lemma NothingIsPossible(s: State, stale: nat)
    ensures Possible(s, [], stale, false) && Run(s, [], stale) == s
  {
  }
}
