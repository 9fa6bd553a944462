/**
 * One dispatcher: the ledger it updates, the whole treatment of one match, and the bounded
 * concurrent loop over a batch.
 */
module AlertDispatch {
  import opened Options
  import opened AlertOutbox
  import opened Redaction

  datatype Outcome = DeliveredOk | DeliveryFailed | UnsafeUrl | ClaimSkipped

  /** What the outside world answers about one match. */
  datatype Environment = Environment(
    claimAt: int,
    recordAt: int,
    unsafeReason: Option<string>,
    secretIsHex: bool,
    postError: Option<string>)

  const CORRUPT_SECRET: string := "corrupt signing_secret (not hex)"
  const UNSAFE_URL: string := "unsafe url: "

  /** What one match comes to, and the error kept for it. */
  function Verdict(env: Environment): (Outcome, Option<string>) {
    if env.unsafeReason.Some? then (UnsafeUrl, Some(UNSAFE_URL + env.unsafeReason.value))
    else if !env.secretIsHex then (DeliveryFailed, Some(CORRUPT_SECRET))
    else
      match env.postError
      case None => (DeliveredOk, None)
      case Some(e) => (DeliveryFailed, Some(Truncate(Redact(e), ERROR_MESSAGE_CAP)))
  }

  class DeliveryLedger {
    var rows: Ledger

    constructor ()
      ensures rows == map[]
    {
      rows := map[];
    }

    method TryClaimAlertMatch(k: Key, now: int, stale: nat) returns (claimed: bool)
      modifies this
      ensures (rows, claimed) == TryClaim(old(rows), k, now, stale)
    {
      if k !in rows {
        rows := rows[k := Row(Claimed, 1, None, None, now)];
        return true;
      }
      var row := rows[k];
      if row.status == Failed || (row.status == Claimed && row.createdAt < now - stale) {
        rows := rows[k := Row(Claimed, row.attempts + 1, None, None, now)];
        return true;
      }
      return false;
    }

    method RecordAlertDelivery(k: Key, now: int, delivered: bool, lastError: Option<string>)
      modifies this
      ensures rows == Record(old(rows), k, now, delivered, lastError)
    {
      var status := if delivered then Delivered else Failed;
      if k !in rows {
        rows := rows[k := Row(status, 1, lastError, if delivered then Some(now) else None, now)];
      } else {
        var row := rows[k];
        rows := rows[k := Row(status, row.attempts + 1, lastError, if delivered then Some(now) else row.deliveredAt,
            row.createdAt)];
      }
    }

    /**
     * Claim, check the URL, decode the secret, post, record. Every claim that is won is followed
     * by exactly one record, which says delivered only if the post succeeded.
     */
    method DispatchItem(k: Key, env: Environment) returns (outcome: Outcome)
      modifies this
      ensures outcome.ClaimSkipped? <==> !Claimable(old(rows), k, env.claimAt, CLAIM_STALE_AFTER_SECS)
      ensures outcome.ClaimSkipped? ==> rows == old(rows)
      ensures !outcome.ClaimSkipped? ==>
                && outcome == Verdict(env).0
                && rows == Record(TryClaim(old(rows), k, env.claimAt, CLAIM_STALE_AFTER_SECS).0, k, env.recordAt,
                                  outcome.DeliveredOk?, Verdict(env).1)
    {
      var claimed := TryClaimAlertMatch(k, env.claimAt, CLAIM_STALE_AFTER_SECS);
      if !claimed {
        return ClaimSkipped;
      }
      if env.unsafeReason.Some? {
        RecordAlertDelivery(k, env.recordAt, false, Some(UNSAFE_URL + env.unsafeReason.value));
        return UnsafeUrl;
      }
      if !env.secretIsHex {
        RecordAlertDelivery(k, env.recordAt, false, Some(CORRUPT_SECRET));
        return DeliveryFailed;
      }
      match env.postError
      case None =>
        RecordAlertDelivery(k, env.recordAt, true, None);
        outcome := DeliveredOk;
      case Some(e) =>
        var redacted := RedactUrls(e);
        RecordAlertDelivery(k, env.recordAt, false, Some(Truncate(redacted, ERROR_MESSAGE_CAP)));
        outcome := DeliveryFailed;
    }
  }

  /** The row, column by column, and the outcome an undisturbed dispatch leaves. */
  lemma DispatchedColumns(l: Ledger, k: Key, env: Environment)
    requires Claimable(l, k, env.claimAt, CLAIM_STALE_AFTER_SECS)
    ensures var (outcome, error) := Verdict(env);
            var row := Record(TryClaim(l, k, env.claimAt, CLAIM_STALE_AFTER_SECS).0, k, env.recordAt,
                outcome.DeliveredOk?, error)[k];
            && row.createdAt == env.claimAt && row.attempts == Attempts(l, k) + 2
            && (if row.status == Delivered then outcome == DeliveredOk && row.deliveredAt == Some(env.recordAt)
                else row.status == Failed && outcome in {UnsafeUrl, DeliveryFailed} && row.deliveredAt == None)
            && (outcome == UnsafeUrl <==> env.unsafeReason != None)
            && (env.unsafeReason != None ==> row.lastError == Some("unsafe url: " + env.unsafeReason.value))
            && (env.unsafeReason == None && !env.secretIsHex ==>
                  outcome == DeliveryFailed && row.lastError == Some("corrupt signing_secret (not hex)"))
            && (env.unsafeReason == None && env.secretIsHex ==>
                  && (outcome == DeliveredOk <==> env.postError == None)
                  && (row.lastError == None <==> env.postError == None)
                  && (env.postError != None ==> IsCut(row.lastError.value, Redact(env.postError.value), 500)))
  {
  }

  /** The first `cap` characters. */
  predicate IsCut(cut: string, text: string, cap: nat) {
    cut <= text && |cut| == Min(cap, |text|)
  }

  /** What an undisturbed dispatch does to its row: two attempts, final iff delivered, no URL of the post error kept. */
  lemma DispatchedRow(l: Ledger, k: Key, env: Environment)
    requires Claimable(l, k, env.claimAt, CLAIM_STALE_AFTER_SECS)
    ensures var (outcome, error) := Verdict(env);
            var after := Record(TryClaim(l, k, env.claimAt, CLAIM_STALE_AFTER_SECS).0, k, env.recordAt,
                outcome.DeliveredOk?, error);
            && Attempts(after, k) == Attempts(l, k) + 2
            && (after[k].status.Delivered? <==> env.unsafeReason.None? && env.secretIsHex && env.postError.None?)
            && (after[k].deliveredAt.Some? <==> after[k].status.Delivered?)
            && (after[k].lastError.None? <==> after[k].status.Delivered?)
            && (env.unsafeReason.None? && after[k].lastError.Some? ==> SchemeFree(after[k].lastError.value))
            && (forall later :: Claimable(after, k, later, CLAIM_STALE_AFTER_SECS) <==> !after[k].status.Delivered?)
            && (forall q :: q != k ==> (q in after <==> q in l) && (q in l ==> after[q] == l[q]))
  {
    if env.postError.Some? {
      StoredMessageHasNoScheme(env.postError.value, ERROR_MESSAGE_CAP);
    }
    assert forall i: nat :: i < |CORRUPT_SECRET| ==> CORRUPT_SECRET[i] != ':';
    forall i: nat | i < |CORRUPT_SECRET| ensures !SchemeAt(CORRUPT_SECRET, i) {
      if SchemeAt(CORRUPT_SECRET, i) {
        SchemeHasColon(CORRUPT_SECRET, i);
      }
    }
  }

  /**
   * In the protocol, a dispatch is a claim, the time the post takes, and a record by the same worker;
   * it is timely exactly if that time is within the stale window.
   */
  lemma {:induction false} DispatchIsClaimThenRecord(s: State, w: WorkerId, k: Key, env: Environment)
    requires w !in s.holding && s.now == env.claimAt <= env.recordAt
    requires Claimable(s.ledger, k, env.claimAt, CLAIM_STALE_AFTER_SECS)
    ensures var (outcome, error) := Verdict(env);
            var events := [Claim(w, k), Tick(env.recordAt - env.claimAt), Finish(w, outcome.DeliveredOk?, error)];
            && Possible(s, events, CLAIM_STALE_AFTER_SECS, false)
            && (Possible(s, events, CLAIM_STALE_AFTER_SECS, true)
                <==> env.recordAt <= env.claimAt + CLAIM_STALE_AFTER_SECS)
            && Run(s, events, CLAIM_STALE_AFTER_SECS).ledger
                 == Record(TryClaim(s.ledger, k, env.claimAt, CLAIM_STALE_AFTER_SECS).0, k, env.recordAt,
                     outcome.DeliveredOk?, error)
  {
    var stale := CLAIM_STALE_AFTER_SECS;
    var (outcome, error) := Verdict(env);
    var claim, tick, finish := Claim(w, k), Tick(env.recordAt - env.claimAt), Finish(w, outcome.DeliveredOk?, error);
    var s1 := Step(s, claim, stale);
    var s2 := Step(s1, tick, stale);
    assert s2.holding[w] == Lease(k, env.claimAt) && s2.now == env.recordAt;
    var s3 := Step(s2, finish, stale);
    assert s3.ledger == Record(TryClaim(s.ledger, k, env.claimAt, stale).0, k, env.recordAt, outcome.DeliveredOk?,
        error);
    assert Timely(s2, finish, stale) <==> env.recordAt <= env.claimAt + stale;
    assert [claim, tick, finish] == [claim] + ([tick] + ([finish] + []));
    hide Step, TryClaim, Record, Verdict, Possible, Run;
    NothingIsPossible(s3, stale);
    NothingIsTimely(s3, stale);
    forall timely ensures Possible(s, [claim, tick, finish], stale, timely)
        <==> (timely ==> Timely(s2, finish, stale)) {
      PossibleFirst(s2, finish, [], stale, timely);
      PossibleFirst(s1, tick, [finish] + [], stale, timely);
      PossibleFirst(s, claim, [tick] + ([finish] + []), stale, timely);
    }
    RunFirst(s2, finish, [], stale);
    RunFirst(s1, tick, [finish] + [], stale);
    RunFirst(s, claim, [tick] + ([finish] + []), stale);
  }

  lemma NothingIsTimely(s: State, stale: nat)
    ensures forall timely :: Possible(s, [], stale, timely)
  {
  }

  lemma SchemeHasColon(s: string, i: nat)
    requires SchemeAt(s, i)
    ensures exists j :: 0 <= j < |s| && s[j] == ':'
  {
    if OccursAt(s, HTTPS, i) {
      assert s[i + 5] == s[i..i + 8][5];
    } else {
      assert s[i + 4] == s[i..i + 7][4];
    }
  }

  // ------------------------------------------------------------ bounded concurrency

  const MAX_CONCURRENT_POSTS: nat := 10

  /** How a task ends: an outcome, an error inside it, or a panic. */
  datatype Joined = Done(outcome: Outcome) | TaskError | TaskPanic

  datatype Tally = Tally(delivered: nat, failed: nat, unsafeUrl: nat, skipped: nat) {
    function Total(): nat { delivered + failed + unsafeUrl + skipped }

    function Add(j: Joined): Tally {
      match j
      case Done(DeliveredOk) => this.(delivered := delivered + 1)
      case Done(DeliveryFailed) => this.(failed := failed + 1)
      case Done(UnsafeUrl) => this.(unsafeUrl := unsafeUrl + 1)
      case Done(ClaimSkipped) => this.(skipped := skipped + 1)
      case TaskError => this.(failed := failed + 1)
      case TaskPanic => this.(failed := failed + 1)
    }
  }

  /** The counter a task ends up in: errors and panics count as failures. */
  function CountedAs(j: Joined): Outcome {
    match j
    case Done(o) => o
    case TaskError => DeliveryFailed
    case TaskPanic => DeliveryFailed
  }

  ghost function Ending(done: set<nat>, ends: nat -> Joined, o: Outcome): set<nat> {
    set i | i in done && CountedAs(ends(i)) == o
  }

  /** The tally of a set of tasks, by the way each of them ends. */
  ghost function TallyOf(done: set<nat>, ends: nat -> Joined): Tally {
    Tally(|Ending(done, ends, DeliveredOk)|, |Ending(done, ends, DeliveryFailed)|,
          |Ending(done, ends, UnsafeUrl)|, |Ending(done, ends, ClaimSkipped)|)
  }

  lemma EndingOfOneMore(done: set<nat>, ends: nat -> Joined, i: nat, o: Outcome)
    requires i !in done
    ensures |Ending(done + {i}, ends, o)| == |Ending(done, ends, o)| + if CountedAs(ends(i)) == o then 1 else 0
  {
    assert Ending(done + {i}, ends, o) == Ending(done, ends, o) + if CountedAs(ends(i)) == o then {i} else {};
  }

  lemma TallyOfOneMore(done: set<nat>, ends: nat -> Joined, i: nat)
    requires i !in done
    ensures TallyOf(done + {i}, ends) == TallyOf(done, ends).Add(ends(i))
  {
    EndingOfOneMore(done, ends, i, DeliveredOk);
    EndingOfOneMore(done, ends, i, DeliveryFailed);
    EndingOfOneMore(done, ends, i, UnsafeUrl);
    EndingOfOneMore(done, ends, i, ClaimSkipped);
  }

  /** Each counter counts the tasks that ended that way; errors and panics are failures. */
  lemma TallyCounters(done: set<nat>, ends: nat -> Joined)
    ensures var tally := TallyOf(done, ends);
            && tally.delivered == |set i | i in done && ends(i) == Done(DeliveredOk)|
            && tally.unsafeUrl == |set i | i in done && ends(i) == Done(UnsafeUrl)|
            && tally.skipped == |set i | i in done && ends(i) == Done(ClaimSkipped)|
            && tally.failed == |set i | i in done && ends(i) in {Done(DeliveryFailed), TaskError, TaskPanic}|
  {
    assert Ending(done, ends, DeliveredOk) == set i | i in done && ends(i) == Done(DeliveredOk);
    assert Ending(done, ends, UnsafeUrl) == set i | i in done && ends(i) == Done(UnsafeUrl);
    assert Ending(done, ends, ClaimSkipped) == set i | i in done && ends(i) == Done(ClaimSkipped);
    assert Ending(done, ends, DeliveryFailed)
        == set i | i in done && ends(i) in {Done(DeliveryFailed), TaskError, TaskPanic};
  }

  /** Together they count every task. */
  lemma TallyCountsEveryTask(done: set<nat>, ends: nat -> Joined)
    ensures TallyOf(done, ends).Total() == |done|
  {
    var d, f := Ending(done, ends, DeliveredOk), Ending(done, ends, DeliveryFailed);
    var u, s := Ending(done, ends, UnsafeUrl), Ending(done, ends, ClaimSkipped);
    assert d !! f && d + f !! u && d + f + u !! s;
    assert done == d + f + u + s;
  }

  lemma NothingTallied(a: Tally, ends: nat -> Joined)
    ensures Plus(a, TallyOf({}, ends)) == a
  {
  }

  lemma PlusAdd(a: Tally, b: Tally, j: Joined)
    ensures Plus(a, b).Add(j) == Plus(a, b.Add(j))
  {
  }

  lemma PlusTotal(a: Tally, b: Tally)
    ensures Plus(a, b).Total() == a.Total() + b.Total()
  {
  }

  /** The counters and the live tasks right after a task was spawned or counted. */
  datatype Moment = Moment(attempted: nat, counted: nat, live: nat)

  /** At every moment the cap is kept and the matches attempted but not yet counted are the live tasks. */
  ghost predicate Balanced(moments: seq<Moment>, base: int) {
    forall i :: 0 <= i < |moments| ==>
      moments[i].attempted - moments[i].counted == base + moments[i].live && moments[i].live <= MAX_CONCURRENT_POSTS
  }

  lemma BalancedMore(moments: seq<Moment>, m: Moment, base: int)
    requires Balanced(moments, base) && m.attempted - m.counted == base + m.live && m.live <= MAX_CONCURRENT_POSTS
    ensures Balanced(moments + [m], base)
  {
  }

  lemma NothingHappened(base: int)
    ensures Balanced([], base)
  {
  }

  /** The process-wide counters; they only grow. */
  class DispatchMetrics {
    var attempted: nat
    var tally: Tally

    constructor ()
      ensures attempted == 0 && tally == Tally(0, 0, 0, 0)
    {
      attempted, tally := 0, Tally(0, 0, 0, 0);
    }

    /** Spawn the first tasks, up to the cap. */
    method Prime(pending: seq<Key>) returns (next: nat, tasks: set<nat>, ghost moments: seq<Moment>)
      modifies this`attempted
      ensures tasks == Indices(next) && |tasks| == next <= MAX_CONCURRENT_POSTS
      ensures next == Min(MAX_CONCURRENT_POSTS, |pending|)
      ensures attempted == old(attempted) + next
      ensures |moments| == next && Balanced(moments, old(attempted) - tally.Total())
    {
      hide Balanced, Tally.Total, Indices;
      NoIndices();
      next, tasks, moments := 0, {}, [];
      NothingHappened(attempted - tally.Total());
      while |tasks| < MAX_CONCURRENT_POSTS && next < |pending|
        invariant next <= |pending| && tasks == Indices(next) && |tasks| == next <= MAX_CONCURRENT_POSTS
        invariant attempted == old(attempted) + next
        invariant |moments| == next && Balanced(moments, old(attempted) - tally.Total())
        decreases |pending| - next
      {
        attempted := attempted + 1;
        IndicesStep(next);
        tasks := tasks + {next};
        next := next + 1;
        BalancedMore(moments, Moment(attempted, tally.Total(), |tasks|), old(attempted) - tally.Total());
        moments := moments + [Moment(attempted, tally.Total(), |tasks|)];
      }
    }

    /** Wait for whichever live task ends next and count it. */
    method JoinNext(tasks: set<nat>, ends: nat -> Joined, ghost done: set<nat>, ghost before: Tally) returns (i: nat)
      requires tasks != {} && tasks !! done && tally == Plus(before, TallyOf(done, ends))
      modifies this`tally
      ensures i in tasks && tally == Plus(before, TallyOf(done + {i}, ends))
    {
      i :| i in tasks;
      TallyOfOneMore(done, ends, i);
      PlusAdd(before, TallyOf(done, ends), ends(i));
      tally := tally.Add(ends(i));
    }

    /**
     * Treat every pending match, at most `MAX_CONCURRENT_POSTS` at a time. Task `i` treats match
     * `i` and ends as `ends(i)`; which live task ends next is arbitrary. Each match is spawned once,
     * in order, and counted once; `moments` shows the counters after each of these events.
     */
    method DispatchOnce(pending: seq<Key>, ends: nat -> Joined) returns (ghost moments: seq<Moment>)
      modifies this
      ensures Balanced(moments, old(attempted) - old(tally).Total()) && |moments| == 2 * |pending|
      ensures attempted == old(attempted) + |pending|
      ensures tally == Plus(old(tally), TallyOf(Indices(|pending|), ends))
      ensures attempted - tally.Total() == old(attempted) - old(tally).Total()
    {
      hide Progress, TallyOf, Indices, Tally.Total, Plus, Balanced;
      var next, tasks;
      next, tasks, moments := Prime(pending);
      ghost var base, done: set<nat> := old(attempted) - old(tally).Total(), {};
      NothingTallied(tally, ends);
      ProgressStart(|pending|, next, tasks);
      while tasks != {}
        invariant Progress(|pending|, next, tasks, done)
        invariant next <= |pending| && tasks !! done
        invariant attempted == old(attempted) + next && tally == Plus(old(tally), TallyOf(done, ends))
        invariant Balanced(moments, base) && |moments| == next + |done|
        decreases |pending| - next, |tasks|
      {
        var i := JoinNext(tasks, ends, done, old(tally));
        ProgressJoin(|pending|, next, tasks, done, i);
        tasks, done := tasks - {i}, done + {i};
        moments := Snapshot(moments, base, |pending|, next, tasks, done, ends, old(attempted), old(tally));
        if next < |pending| {
          attempted := attempted + 1;
          ProgressSpawn(|pending|, next, tasks, done);
          tasks := tasks + {next};
          next := next + 1;
          moments := Snapshot(moments, base, |pending|, next, tasks, done, ends, old(attempted), old(tally));
        }
      }
      ProgressEnd(|pending|, next, done);
      TallyCountsEveryTask(done, ends);
      PlusTotal(old(tally), TallyOf(done, ends));
    }

    /** One more moment. */
    ghost method Snapshot(moments: seq<Moment>, base: int, n: nat, next: nat, tasks: set<nat>, done: set<nat>,
                          ends: nat -> Joined, attemptedBefore: nat, tallyBefore: Tally) returns (more: seq<Moment>)
      requires Balanced(moments, base) && base == attemptedBefore - tallyBefore.Total()
      requires Spawned(n, next, tasks, done) && attempted == attemptedBefore + next
      requires tally == Plus(tallyBefore, TallyOf(done, ends))
      ensures Balanced(more, base) && |more| == |moments| + 1
    {
      hide TallyOf, Indices, Plus, Tally.Total, Balanced;
      TallyCountsEveryTask(done, ends);
      PlusTotal(tallyBefore, TallyOf(done, ends));
      var m := Moment(attempted, tally.Total(), |tasks|);
      BalancedMore(moments, m, base);
      more := moments + [m];
    }
  }

  /**
   * Of `n` matches the first `next` were spawned; each of them is either live or done. Between a
   * join and the refill only `Spawned` holds.
   */
  ghost predicate Progress(n: nat, next: nat, tasks: set<nat>, done: set<nat>) {
    Spawned(n, next, tasks, done) && (next < n ==> tasks != {})
  }

  ghost predicate Spawned(n: nat, next: nat, tasks: set<nat>, done: set<nat>) {
    && next <= n && tasks !! done && tasks + done == Indices(next)
    && |tasks| + |done| == next && |tasks| <= MAX_CONCURRENT_POSTS
  }

  lemma ProgressStart(n: nat, next: nat, tasks: set<nat>)
    requires next == Min(MAX_CONCURRENT_POSTS, n) && tasks == Indices(next) && |tasks| == next
    ensures Progress(n, next, tasks, {})
  {
    assert tasks + {} == tasks;
  }

  lemma ProgressJoin(n: nat, next: nat, tasks: set<nat>, done: set<nat>, i: nat)
    requires Progress(n, next, tasks, done) && i in tasks
    ensures Spawned(n, next, tasks - {i}, done + {i}) && |tasks - {i}| == |tasks| - 1 && (tasks - {i}) !! (done + {i})
    ensures |tasks - {i}| < MAX_CONCURRENT_POSTS && |done + {i}| == |done| + 1
    ensures next == n ==> Progress(n, next, tasks - {i}, done + {i})
  {
    assert (tasks - {i}) + (done + {i}) == tasks + done;
  }

  lemma ProgressSpawn(n: nat, next: nat, tasks: set<nat>, done: set<nat>)
    requires Spawned(n, next, tasks, done) && next < n && |tasks| < MAX_CONCURRENT_POSTS
    ensures Progress(n, next + 1, tasks + {next}, done) && Spawned(n, next + 1, tasks + {next}, done)
    ensures |tasks + {next}| == |tasks| + 1 && (tasks + {next}) !! done
  {
    IndicesStep(next);
    assert next !in tasks + done;
    assert (tasks + {next}) + done == (tasks + done) + {next};
  }

  lemma ProgressEnd(n: nat, next: nat, done: set<nat>)
    requires Progress(n, next, {}, done)
    ensures next == n && done == Indices(n) && |done| == n
  {
    assert {} + done == done;
  }

  function Plus(a: Tally, b: Tally): Tally {
    Tally(a.delivered + b.delivered, a.failed + b.failed, a.unsafeUrl + b.unsafeUrl, a.skipped + b.skipped)
  }

  ghost function Indices(n: nat): set<nat> {
    if n == 0 then {} else Indices(n - 1) + {n - 1}
  }

  lemma IndicesMeaning(n: nat)
    ensures |Indices(n)| == n && forall i :: i in Indices(n) <==> 0 <= i < n
  {
    if n > 0 {
      IndicesMeaning(n - 1);
    }
  }

  lemma NoIndices()
    ensures Indices(0) == {}
  {
  }

  lemma IndicesStep(n: nat)
    ensures n !in Indices(n) && Indices(n + 1) == Indices(n) + {n} && |Indices(n)| == n && |Indices(n + 1)| == n + 1
  {
    IndicesMeaning(n);
  }
}
