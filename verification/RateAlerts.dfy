/**
 * Rate-threshold alerts: there is no claim, only a debounce over the recorded dispatches.
 * Any number of dispatchers scan, post and record against one subscription.
 */
module RateAlerts {
  import opened Options

  type WorkerId = nat

  type Positive = n: nat | n > 0 witness 1

  /**
   * A rate subscription; the table's CHECK makes the threshold positive and the debounce non-negative.
   * Its `active` column, which can be cleared at any time, is passed separately.
   */
  datatype RateSubscription = RateSubscription(threshold: Positive, windowSecs: nat, debounceSecs: nat)

  datatype Dispatch = Dispatch(worker: WorkerId, at: int)

  /** COUNT of the matching failures inside the time window. */
  function MatchCount(failures: seq<int>, since: int): nat {
    if failures == [] then 0
    else MatchCount(failures[..|failures| - 1], since) + if failures[|failures| - 1] >= since then 1 else 0
  }

  predicate Debounced(dispatches: seq<Dispatch>, now: int, debounceSecs: nat) {
    exists i :: 0 <= i < |dispatches| && dispatches[i].at > now - debounceSecs
  }

  /**
   * The row of the pending scan for this subscription, if any: the match count it reports. `failures`
   * are the times of the failures of its category and address.
   */
  function PendingRate(
      sub: RateSubscription, active: bool, failures: seq<int>, dispatches: seq<Dispatch>, now: int): Option<nat> {
    var count := MatchCount(failures, now - sub.windowSecs);
    if active && !Debounced(dispatches, now, sub.debounceSecs) && count >= sub.threshold then Some(count) else None
  }

  /** The failures inside a window that starts at `since`. */
  function Recent(failures: seq<int>, since: int): set<nat> {
    set i | 0 <= i < |failures| && failures[i] >= since
  }

  lemma {:induction false} MatchCountIsRecent(failures: seq<int>, since: int)
    ensures MatchCount(failures, since) == |Recent(failures, since)|
  {
    if failures != [] {
      var n := |failures| - 1;
      MatchCountIsRecent(failures[..n], since);
      assert Recent(failures, since) == Recent(failures[..n], since) + if failures[n] >= since then {n} else {};
    }
  }

  /**
   * A subscription is listed if and only if it is active, nothing was dispatched for it within the
   * debounce, and the failures inside the window reach the threshold; their number is reported.
   */
  lemma PendingRateIff(sub: RateSubscription, active: bool, failures: seq<int>, dispatches: seq<Dispatch>, now: int)
    ensures var recent := set i | 0 <= i < |failures| && failures[i] >= now - sub.windowSecs;
            var quiet := forall i :: 0 <= i < |dispatches| ==> dispatches[i].at + sub.debounceSecs <= now;
            PendingRate(sub, active, failures, dispatches, now)
              == if active && quiet && |recent| >= sub.threshold then Some(|recent|) else None
  {
    MatchCountIsRecent(failures, now - sub.windowSecs);
    assert Recent(failures, now - sub.windowSecs)
        == set i | 0 <= i < |failures| && failures[i] >= now - sub.windowSecs;
  }

  // ------------------------------------------------------------ the state machine

  /** `posting` maps a dispatcher between its scan and its record to the time of the scan. */
  datatype State = State(dispatches: seq<Dispatch>, now: int, posting: map<WorkerId, int>)

  datatype Event =
    | Tick(seconds: nat)
    | Scan(worker: WorkerId, active: bool, failures: seq<int>)
    | RecordDispatch(worker: WorkerId)
    | Crash(worker: WorkerId)

  predicate Enabled(s: State, e: Event) {
    match e
    case Tick(_) => true
    case Scan(w, _, _) => w !in s.posting
    case RecordDispatch(w) => w in s.posting
    case Crash(w) => w in s.posting
  }

  function Step(s: State, e: Event, sub: RateSubscription): State
    requires Enabled(s, e)
  {
    match e
    case Tick(d) => s.(now := s.now + d)
    case Scan(w, active, failures) =>
      if PendingRate(sub, active, failures, s.dispatches, s.now).None? then s
      else s.(posting := s.posting[w := s.now])
    case RecordDispatch(w) =>
      s.(dispatches := s.dispatches + [Dispatch(w, s.now)], posting := s.posting - {w})
    case Crash(w) => s.(posting := s.posting - {w})
  }

  predicate Possible(s: State, events: seq<Event>, sub: RateSubscription)
    decreases |events|, 0
  {
    events == [] ||
    (var n := |events| - 1;
     Possible(s, events[..n], sub) && Enabled(Run(s, events[..n], sub), events[n]))
  }

  function Run(s: State, events: seq<Event>, sub: RateSubscription): State
    requires Possible(s, events, sub)
    decreases |events|, 1
  {
    if events == [] then s
    else
      var n := |events| - 1;
      Step(Run(s, events[..n], sub), events[n], sub)
  }

  // ------------------------------------------------------- why something was dispatched

  /** The time before event `n`: only ticks move it. */
  function Clock(start: int, events: seq<Event>, n: nat): int
    requires n <= |events|
  {
    if n == 0 then start else Clock(start, events, n - 1) + if events[n - 1].Tick? then events[n - 1].seconds else 0
  }

  /**
   * At event `q` worker `w` scanned: the subscription was active, at least `threshold` failures lay in
   * the window, and every record before it was at least the debounce old.
   */
  ghost predicate Warranted(start: int, events: seq<Event>, sub: RateSubscription, q: nat, w: WorkerId) {
    && q < |events| && events[q].Scan? && events[q].worker == w && events[q].active
    && |Recent(events[q].failures, Clock(start, events, q) - sub.windowSecs)| >= sub.threshold
    && forall p :: 0 <= p < q && events[p].RecordDispatch? ==>
         Clock(start, events, p) + sub.debounceSecs <= Clock(start, events, q)
  }

  /** Worker `w` does nothing between events `q` and `r`. */
  ghost predicate IdleBetween(events: seq<Event>, q: nat, r: nat, w: WorkerId) {
    forall i :: q < i < r && i < |events| ==> events[i].Tick? || events[i].worker != w
  }

  /** Worker `w` is between a warranted scan and its record. */
  ghost predicate Holds(start: int, events: seq<Event>, sub: RateSubscription, w: WorkerId) {
    exists q :: Warranted(start, events, sub, q, w) && IdleBetween(events, q, |events|, w)
  }

  /** The record events, in order, with their times. */
  function Records(start: int, events: seq<Event>): seq<Dispatch> {
    if events == [] then []
    else
      var n := |events| - 1;
      Records(start, events[..n])
      + if events[n].RecordDispatch? then [Dispatch(events[n].worker, Clock(start, events, n))] else []
  }

  lemma {:induction false} ClockOfPrefix(start: int, events: seq<Event>, n: nat, m: nat)
    requires m <= n <= |events|
    ensures Clock(start, events[..n], m) == Clock(start, events, m)
  {
    if m > 0 { ClockOfPrefix(start, events, n, m - 1); }
  }

  ghost predicate DispatchedAt(ds: seq<Dispatch>, time: int) {
    exists i :: 0 <= i < |ds| && ds[i].at == time
  }

  ghost predicate RecordsAt(start: int, events: seq<Event>, time: int) {
    exists p :: 0 <= p < |events| && events[p].RecordDispatch? && Clock(start, events, p) == time
  }

  /** Every record event is recorded at its time, and nothing else is. */
  lemma {:induction false} RecordsMeaning(start: int, events: seq<Event>, time: int)
    ensures DispatchedAt(Records(start, events), time) <==> RecordsAt(start, events, time)
    decreases |events|
  {
    if events != [] {
      var n := |events| - 1;
      var before, records := Records(start, events[..n]), Records(start, events);
      RecordsMeaning(start, events[..n], time);
      forall p: nat | p <= n ensures Clock(start, events[..n], p) == Clock(start, events, p) {
        ClockOfPrefix(start, events, n, p);
      }
      if i: int :| 0 <= i < |before| && before[i].at == time {
        var p :| 0 <= p < n && events[..n][p].RecordDispatch? && Clock(start, events[..n], p) == time;
        assert records[i] == before[i] && events[p].RecordDispatch?;
      } else if events[n].RecordDispatch? && Clock(start, events, n) == time {
        assert records[|before|].at == time;
      } else {
        forall i | 0 <= i < |records| ensures records[i].at != time {
          if i < |before| { assert records[i] == before[i]; }
        }
        forall p | 0 <= p <= n && events[p].RecordDispatch? ensures Clock(start, events, p) != time {
          if p < n { assert events[..n][p].RecordDispatch?; }
        }
      }
    }
  }

  lemma {:induction false} WarrantedOfPrefix(
      start: int, events: seq<Event>, sub: RateSubscription, n: nat, q: nat, w: WorkerId)
    requires q < n <= |events|
    ensures Warranted(start, events[..n], sub, q, w) <==> Warranted(start, events, sub, q, w)
  {
    forall p: nat | p <= q ensures Clock(start, events[..n], p) == Clock(start, events, p) {
      ClockOfPrefix(start, events, n, p);
    }
    assert forall p :: 0 <= p < n ==> events[..n][p] == events[p];
  }

  lemma {:induction false} HoldsOneMore(start: int, events: seq<Event>, sub: RateSubscription, w: WorkerId)
    requires events != []
    ensures var n := |events| - 1;
            Holds(start, events, sub, w) <==>
            || Warranted(start, events, sub, n, w)
            || (Holds(start, events[..n], sub, w) && (events[n].Tick? || events[n].worker != w))
  {
    hide Warranted;
    var n := |events| - 1;
    forall q: nat | q < n
      ensures Warranted(start, events[..n], sub, q, w) <==> Warranted(start, events, sub, q, w)
      ensures IdleBetween(events, q, |events|, w) <==>
          IdleBetween(events[..n], q, n, w) && (events[n].Tick? || events[n].worker != w)
    {
      WarrantedOfPrefix(start, events, sub, n, q, w);
      assert forall i :: q < i < n ==> events[..n][i] == events[i];
    }
    if q: nat :| Warranted(start, events, sub, q, w) && IdleBetween(events, q, |events|, w) {
      assert q < |events| by { WarrantedIsAnEvent(start, events, sub, q, w); }
    }
    if q: nat :| Warranted(start, events[..n], sub, q, w) && IdleBetween(events[..n], q, n, w) {
      assert q < n by { WarrantedIsAnEvent(start, events[..n], sub, q, w); }
      assert Warranted(start, events, sub, q, w);
    }
    assert IdleBetween(events, n, |events|, w);
  }

  lemma WarrantedIsAnEvent(start: int, events: seq<Event>, sub: RateSubscription, q: nat, w: WorkerId)
    requires Warranted(start, events, sub, q, w)
    ensures q < |events|
  {
  }

  /** The clock and the recorded dispatches of a run. */
  lemma {:induction false} RunRecords(start: int, events: seq<Event>, sub: RateSubscription)
    requires Possible(Start(start), events, sub)
    ensures Run(Start(start), events, sub).now == Clock(start, events, |events|)
    ensures Run(Start(start), events, sub).dispatches == Records(start, events)
  {
    if events != [] {
      var n := |events| - 1;
      RunRecords(start, events[..n], sub);
      ClockOfPrefix(start, events, n, n);
    }
  }

  /** The recorded dispatches are old enough exactly if the record events are. */
  lemma {:induction false} RecordsAreOld(start: int, events: seq<Event>, n: nat, latest: int)
    requires n <= |events|
    ensures var records := Records(start, events[..n]);
            (forall i :: 0 <= i < |records| ==> records[i].at <= latest)
            <==> forall p :: 0 <= p < n && events[p].RecordDispatch? ==> Clock(start, events, p) <= latest
  {
    hide Clock, Records;
    var records := Records(start, events[..n]);
    forall p: nat | p < n ensures Clock(start, events[..n], p) == Clock(start, events, p) {
      ClockOfPrefix(start, events, n, p);
    }
    forall i | 0 <= i < |records|
      ensures exists p :: 0 <= p < n && events[p].RecordDispatch? && Clock(start, events, p) == records[i].at
    {
      RecordsMeaning(start, events[..n], records[i].at);
      assert DispatchedAt(records, records[i].at);
      var p :| 0 <= p < n && events[..n][p].RecordDispatch? && Clock(start, events[..n], p) == records[i].at;
      assert events[p].RecordDispatch?;
    }
    forall p: nat | p < n && events[p].RecordDispatch?
      ensures exists i :: 0 <= i < |records| && records[i].at == Clock(start, events, p)
    {
      assert events[..n][p].RecordDispatch?;
      RecordsMeaning(start, events[..n], Clock(start, events, p));
      assert RecordsAt(start, events[..n], Clock(start, events, p));
    }
  }

  /** The scan lists the subscription exactly if a dispatch is warranted. */
  lemma {:induction false} ScanIsWarranted(start: int, events: seq<Event>, sub: RateSubscription)
    requires events != [] && events[|events| - 1].Scan?
    ensures var n := |events| - 1;
            var e := events[n];
            var row := PendingRate(sub, e.active, e.failures, Records(start, events[..n]), Clock(start, events, n));
            row.Some? <==> Warranted(start, events, sub, n, e.worker)
  {
    hide Clock, Records, PendingRate;
    var n := |events| - 1;
    var e, now := events[n], Clock(start, events, n);
    PendingRateIff(sub, e.active, e.failures, Records(start, events[..n]), now);
    assert Recent(e.failures, now - sub.windowSecs)
        == set i | 0 <= i < |e.failures| && e.failures[i] >= now - sub.windowSecs;
    RecordsAreOld(start, events, n, now - sub.debounceSecs);
  }

  /** A worker is about to record exactly while its warranted scan is the last thing it did. */
  lemma {:induction false} HoldersAreWarranted(start: int, events: seq<Event>, sub: RateSubscription, w: WorkerId)
    requires Possible(Start(start), events, sub)
    ensures w in Run(Start(start), events, sub).posting <==> Holds(start, events, sub, w)
  {
    if events != [] {
      hide Holds, Warranted, PendingRate, Records, Clock;
      var n := |events| - 1;
      HoldersAreWarranted(start, events[..n], sub, w);
      HoldsOneMore(start, events, sub, w);
      RunRecords(start, events[..n], sub);
      ClockOfPrefix(start, events, n, n);
      if events[n].Scan? {
        ScanIsWarranted(start, events, sub);
      }
      if events[n].Scan? ==> events[n].worker != w {
        OnlyItsScanWarrants(start, events, sub, n, w);
      }
    } else {
      NothingHeld(start, sub, w);
    }
  }

  lemma NothingHeld(start: int, sub: RateSubscription, w: WorkerId)
    ensures !Holds(start, [], sub, w)
  {
  }

  lemma OnlyItsScanWarrants(start: int, events: seq<Event>, sub: RateSubscription, q: nat, w: WorkerId)
    requires q < |events| && (events[q].Scan? ==> events[q].worker != w)
    ensures !Warranted(start, events, sub, q, w)
  {
  }

  /**
   * However the dispatchers interleave, every record that is written, and nothing else, follows a scan
   * by the same worker, its last action before, at which the subscription was active, at least
   * `threshold` failures lay in the window and no earlier record was younger than the debounce.
   */
  lemma EveryDispatchIsWarranted(start: int, events: seq<Event>, sub: RateSubscription)
    requires Possible(Start(start), events, sub)
    ensures Run(Start(start), events, sub).dispatches == Records(start, events)
    ensures forall r :: 0 <= r < |events| && events[r].RecordDispatch? ==>
              Holds(start, events[..r], sub, events[r].worker)
  {
    RunRecords(start, events, sub);
    forall r | 0 <= r < |events| && events[r].RecordDispatch?
      ensures Holds(start, events[..r], sub, events[r].worker)
    {
      PrefixIsPossible(Start(start), events, sub, r);
      HoldersAreWarranted(start, events[..r], sub, events[r].worker);
    }
  }

  lemma {:induction false} PrefixIsPossible(s: State, events: seq<Event>, sub: RateSubscription, r: nat)
    requires Possible(s, events, sub) && r < |events|
    ensures Possible(s, events[..r], sub) && Enabled(Run(s, events[..r], sub), events[r])
    decreases |events|
  {
    var n := |events| - 1;
    if r < n {
      PrefixIsPossible(s, events[..n], sub, r);
      assert events[..n][..r] == events[..r] && events[..n][r] == events[r];
    }
  }

  // ---------------------------------------------------------------- the invariant

  /** One dispatcher's records are at least the debounce apart. */
  ghost predicate Spaced(ds: seq<Dispatch>, debounce: nat) {
    forall i, j :: 0 <= i < j < |ds| && ds[i].worker == ds[j].worker ==> ds[i].at + debounce <= ds[j].at
  }

  ghost predicate Ordered(ds: seq<Dispatch>) {
    forall i, j :: 0 <= i < j < |ds| ==> ds[i].at <= ds[j].at
  }

  ghost predicate Sound(s: State, debounce: nat) {
    && Spaced(s.dispatches, debounce) && Ordered(s.dispatches)
    && (forall i :: 0 <= i < |s.dispatches| ==> s.dispatches[i].at <= s.now)
    && (forall w :: w in s.posting ==> s.posting[w] <= s.now)
    && (forall w, i :: w in s.posting && 0 <= i < |s.dispatches| && s.dispatches[i].worker == w ==>
          s.dispatches[i].at + debounce <= s.posting[w])
  }

  function Start(now: int): State {
    State([], now, map[])
  }

  lemma StepKeepsSound(s: State, e: Event, sub: RateSubscription)
    requires Sound(s, sub.debounceSecs) && Enabled(s, e)
    ensures Sound(Step(s, e, sub), sub.debounceSecs)
  {
    hide MatchCount;
    if e.Scan? && PendingRate(sub, e.active, e.failures, s.dispatches, s.now).Some? {
      forall i | 0 <= i < |s.dispatches| ensures s.dispatches[i].at + sub.debounceSecs <= s.now {
        assert !(s.dispatches[i].at > s.now - sub.debounceSecs);
      }
    }
  }

  lemma {:induction false} RunKeepsSound(now: int, events: seq<Event>, sub: RateSubscription)
    requires Possible(Start(now), events, sub)
    ensures Sound(Run(Start(now), events, sub), sub.debounceSecs)
  {
    if events != [] {
      var n := |events| - 1;
      RunKeepsSound(now, events[..n], sub);
      StepKeepsSound(Run(Start(now), events[..n], sub), events[n], sub);
    }
  }

  // ----------------------------------------------------------- the bound per window

  predicate InWindow(d: Dispatch, from: int, length: nat) {
    from <= d.at < from + length
  }

  /** The number of records in the half-open window `[from, from + length)`. */
  function WindowCount(ds: seq<Dispatch>, from: int, length: nat): nat {
    if ds == [] then 0
    else WindowCount(ds[..|ds| - 1], from, length) + if InWindow(ds[|ds| - 1], from, length) then 1 else 0
  }

  function WindowWorkers(ds: seq<Dispatch>, from: int, length: nat): set<WorkerId> {
    set i | 0 <= i < |ds| && InWindow(ds[i], from, length) :: ds[i].worker
  }

  lemma WindowWorkersOfOneMore(ds: seq<Dispatch>, d: Dispatch, from: int, length: nat)
    ensures WindowWorkers(ds + [d], from, length) ==
            WindowWorkers(ds, from, length) + if InWindow(d, from, length) then {d.worker} else {}
  {
    var more := ds + [d];
    forall w | w in WindowWorkers(ds, from, length) ensures w in WindowWorkers(more, from, length) {
      var i :| 0 <= i < |ds| && InWindow(ds[i], from, length) && ds[i].worker == w;
      assert more[i] == ds[i];
    }
    assert more[|ds|] == d;
  }

  lemma LastWorkerIsNew(ds: seq<Dispatch>, d: Dispatch, from: int, debounce: nat)
    requires Spaced(ds + [d], debounce) && InWindow(d, from, debounce)
    ensures d.worker !in WindowWorkers(ds, from, debounce)
  {
    var more := ds + [d];
    forall i | 0 <= i < |ds| && InWindow(ds[i], from, debounce) ensures ds[i].worker != d.worker {
      assert more[i] == ds[i] && more[|ds|] == d;
    }
  }

  /** Inside a window of the debounce's length every record comes from another dispatcher. */
  lemma {:induction false} WindowHasDistinctWorkers(ds: seq<Dispatch>, from: int, debounce: nat)
    requires Spaced(ds, debounce)
    ensures WindowCount(ds, from, debounce) == |WindowWorkers(ds, from, debounce)|
  {
    if ds != [] {
      var before, d := ds[..|ds| - 1], ds[|ds| - 1];
      assert ds == before + [d];
      WindowHasDistinctWorkers(before, from, debounce);
      WindowWorkersOfOneMore(before, d, from, debounce);
      hide WindowWorkers, Spaced;
      if InWindow(d, from, debounce) {
        LastWorkerIsNew(before, d, from, debounce);
      }
    }
  }

  lemma {:induction false} AtMostK(s: set<nat>, k: nat)
    requires forall w :: w in s ==> w < k
    ensures |s| <= k
  {
    if k == 0 {
      assert s == {};
    } else {
      AtMostK(s - {k - 1}, k - 1);
    }
  }

  predicate WorkersBelow(events: seq<Event>, k: nat) {
    forall i :: 0 <= i < |events| && events[i].RecordDispatch? ==> events[i].worker < k
  }

  lemma {:induction false} RecordsComeFromWorkers(now: int, events: seq<Event>, sub: RateSubscription, k: nat)
    requires Possible(Start(now), events, sub) && WorkersBelow(events, k)
    ensures forall i :: 0 <= i < |Run(Start(now), events, sub).dispatches| ==>
              Run(Start(now), events, sub).dispatches[i].worker < k
  {
    if events != [] {
      RecordsComeFromWorkers(now, events[..|events| - 1], sub, k);
    }
  }

  /**
   * However `k` dispatchers interleave, crash and race, a half-open window of the debounce's
   * length holds at most `k` recorded dispatches, and each dispatcher's own records are at least
   * the debounce apart, in the order they were written.
   */
  lemma AtMostKDispatchesPerWindow(now: int, events: seq<Event>, sub: RateSubscription, k: nat, from: int)
    requires Possible(Start(now), events, sub) && WorkersBelow(events, k)
    ensures var ds := Run(Start(now), events, sub).dispatches;
            && WindowCount(ds, from, sub.debounceSecs) <= k
            && Spaced(ds, sub.debounceSecs) && Ordered(ds)
  {
    var ds := Run(Start(now), events, sub).dispatches;
    RunKeepsSound(now, events, sub);
    RecordsComeFromWorkers(now, events, sub, k);
    WindowHasDistinctWorkers(ds, from, sub.debounceSecs);
    AtMostK(WindowWorkers(ds, from, sub.debounceSecs), k);
  }

  // -------------------------------------------------------------- the bound is tight

  /** Workers 0 to k-1 all scan before any of them records; then the first `r` record. */
  function Race(k: nat, r: nat, failures: seq<int>): seq<Event>
    requires r <= k
  {
    if r > 0 then Race(k, r - 1, failures) + [RecordDispatch(r - 1)]
    else if k > 0 then Race(k - 1, 0, failures) + [Scan(k - 1, true, failures)]
    else []
  }

  lemma RunOfOneMore(s: State, events: seq<Event>, e: Event, sub: RateSubscription)
    requires Possible(s, events, sub) && Enabled(Run(s, events, sub), e)
    ensures Possible(s, events + [e], sub) && Run(s, events + [e], sub) == Step(Run(s, events, sub), e, sub)
  {
    assert (events + [e])[..|events|] == events;
  }

  ghost predicate Raced(s: State, now: int, k: nat, r: nat, debounce: nat) {
    && s.now == now && (forall w :: w in s.posting <==> r <= w < k)
    && |s.dispatches| == r && WindowCount(s.dispatches, now, debounce) == r
  }

  lemma {:induction false} RaceOutcome(now: int, k: nat, r: nat, failures: seq<int>, sub: RateSubscription)
    requires r <= k && sub.debounceSecs > 0 && MatchCount(failures, now - sub.windowSecs) >= sub.threshold
    ensures Possible(Start(now), Race(k, r, failures), sub)
    ensures Raced(Run(Start(now), Race(k, r, failures), sub), now, k, r, sub.debounceSecs)
    decreases k, r
  {
    hide Possible, Run, MatchCount;
    if r > 0 {
      RaceOutcome(now, k, r - 1, failures, sub);
      var s := Run(Start(now), Race(k, r - 1, failures), sub);
      RunOfOneMore(Start(now), Race(k, r - 1, failures), RecordDispatch(r - 1), sub);
      assert (s.dispatches + [Dispatch(r - 1, now)])[..|s.dispatches|] == s.dispatches;
    } else if k > 0 {
      RaceOutcome(now, k - 1, 0, failures, sub);
      RunOfOneMore(Start(now), Race(k - 1, 0, failures), Scan(k - 1, true, failures), sub);
    } else {
      NothingHappens(now, sub);
    }
  }

  lemma NothingHappens(now: int, sub: RateSubscription)
    ensures Possible(Start(now), [], sub) && Run(Start(now), [], sub) == Start(now)
  {
  }

  /** `k` dispatchers can really record `k` times within one window. */
  lemma RaceReachesTheBound(now: int, k: nat, failures: seq<int>, sub: RateSubscription)
    requires sub.debounceSecs > 0 && MatchCount(failures, now - sub.windowSecs) >= sub.threshold
    ensures var events := Race(k, k, failures);
            && Possible(Start(now), events, sub)
            && WindowCount(Run(Start(now), events, sub).dispatches, now, sub.debounceSecs) == k
  {
    RaceOutcome(now, k, k, failures, sub);
  }
}
