/**
 * When the follow loop recovers: convergence on a healthy node after chunks failed and the
 * chain was replaced, with the exact condition under which it fails for good.
 */
module MixedConvergence {
  import opened Options
  import opened ForkScanning
  import opened ChainTables
  import opened Indexing
  import opened IndexedStore
  import opened FollowLoop
  import opened Convergence
  import opened FailedChunks
  import opened LostRows
  import opened MixedRuns

  /** From some number of cycles on the tables are those of the node's chain, up to repeated trace rows. */
  ghost predicate SettlesUpToTraces(t: Tables, lo: nat, env: Env, cfg: Config, end: nat, enough: nat)
    requires EnvOk(env) && cfg.batch > 0
  {
    && end <= |env.chain|
    && forall n: nat :: n >= enough ==> Once(Run(t, Repeat(env, n), cfg)) == Store(env.chain, lo, end)
  }

  ghost predicate Converges(t: Tables, lo: nat, env: Env, cfg: Config)
    requires EnvOk(env) && cfg.batch > 0
  {
    exists end: nat, enough: nat :: SettlesUpToTraces(t, lo, env, cfg, end, enough)
  }

  /** Rows of blocks `[lo, top)` of the chain, whatever is missing between them, and a checkpoint. */
  ghost predicate Ragged(t: Tables, c: Chain, lo: nat, top: nat) {
    && lo <= top <= |c| && Within(t, c, lo, top) && Integrity(t)
    && t.checkpoint.Some? && t.checkpoint.value >= 0 && lo <= NextHeight(t) <= |c|
  }

  lemma RepeatOk(env: Env, n: nat)
    requires EnvOk(env)
    ensures forall i :: 0 <= i < n ==> EnvOk(Repeat(env, n)[i]) && Repeat(env, n)[i].chain == env.chain
  {
  }

  lemma {:induction false} RunRepeat(t: Tables, env: Env, cfg: Config, n: nat)
    requires EnvOk(env) && cfg.batch > 0 && n > 0
    ensures Run(t, Repeat(env, n), cfg) == Run(Cycle(t, env, cfg).0, Repeat(env, n - 1), cfg)
  {
    hide Cycle, EnvOk;
    assert Repeat(env, n)[0] == env && Repeat(env, n)[1..] == Repeat(env, n - 1);
  }

  /** The tables converge if and only if they do after one more cycle. */
  lemma {:induction false} ConvergesAfterCycleIff(t: Tables, lo: nat, env: Env, cfg: Config)
    requires EnvOk(env) && cfg.batch > 0
    ensures Converges(t, lo, env, cfg) <==> Converges(Cycle(t, env, cfg).0, lo, env, cfg)
  {
    hide Cycle, EnvOk, Run, Store, Once;
    var u := Cycle(t, env, cfg).0;
    if Converges(t, lo, env, cfg) {
      var end: nat, enough: nat :| SettlesUpToTraces(t, lo, env, cfg, end, enough);
      forall n: nat | n >= enough ensures Once(Run(u, Repeat(env, n), cfg)) == Store(env.chain, lo, end) {
        RunRepeat(t, env, cfg, n + 1);
      }
      assert SettlesUpToTraces(u, lo, env, cfg, end, enough);
    }
    if Converges(u, lo, env, cfg) {
      var end: nat, enough: nat :| SettlesUpToTraces(u, lo, env, cfg, end, enough);
      forall n: nat | n >= enough + 1 ensures Once(Run(t, Repeat(env, n), cfg)) == Store(env.chain, lo, end) {
        RunRepeat(t, env, cfg, n);
      }
      assert SettlesUpToTraces(t, lo, env, cfg, end, enough + 1);
    }
  }

  // ------------------------------------------------- a row beyond the node's chain

  lemma {:induction false} ScanSilentBeyondChain(t: Tables, b: Chain, down: set<nat>, m: nat)
    requires m in t.block && t.block[m].hash.Some? && m >= |b|
    ensures ScanTables(t, REORG_SCAN_CAP, b, down).None?
  {
    hide Detect, MismatchRun;
    var w := RecentBlockHashes(t.block, REORG_SCAN_CAP);
    assert m in HashedHeights(t.block);
    assert w[0].height == MaxKey(HashedHeights(t.block)) >= |b|;
    assert Lookup(b, down)(w[0].height).None?;
    RecentBlockHashesSound(t.block, REORG_SCAN_CAP);
    DetectMeaning(w, Lookup(b, down));
  }

  /** A stored row at or beyond the end of the node's chain blinds the scan, and so it stays. */
  lemma {:induction false} RowBeyondChainStays(t: Tables, env: Env, cfg: Config, m: nat, n: nat)
    requires EnvOk(env) && cfg.batch > 0 && m in t.block && t.block[m].hash.Some? && m >= |env.chain|
    ensures m in Run(t, Repeat(env, n), cfg).block
    decreases n
  {
    hide ScanTables, EnvOk, Run, IndexFrom, Rollback, Readable;
    if n == 0 {
      RunNothing(t, env, cfg);
    } else {
      var u := Cycle(t, env, cfg).0;
      RunRepeat(t, env, cfg, n);
      ScanSilentBeyondChain(t, env.chain, env.down, m);
      SilentCycleKeepsRow(t, env, cfg, m);
      RowBeyondChainStays(u, env, cfg, m, n - 1);
    }
  }

  lemma RunNothing(t: Tables, env: Env, cfg: Config)
    requires EnvOk(env) && cfg.batch > 0
    ensures Run(t, Repeat(env, 0), cfg) == t
  {
  }

  lemma {:induction false} SilentCycleKeepsRow(t: Tables, env: Env, cfg: Config, m: nat)
    requires EnvOk(env) && cfg.batch > 0 && m in t.block && ScanTables(t, REORG_SCAN_CAP, env.chain, env.down).None?
    ensures m in Cycle(t, env, cfg).0.block && Cycle(t, env, cfg).0.block[m] == t.block[m]
  {
    hide ScanTables, IndexFrom, ChainOk;
    match CycleTarget(t.checkpoint, env, cfg)
    case None =>
    case Some(r) => IndexFromAdds(t, Readable(env), r.from, r.to, cfg.batch, env.events);
  }

  lemma {:induction false} NeverBeyondChain(t: Tables, lo: nat, env: Env, cfg: Config, m: nat)
    requires EnvOk(env) && cfg.batch > 0 && m in t.block && t.block[m].hash.Some? && m >= |env.chain|
    ensures !Converges(t, lo, env, cfg)
  {
    hide EnvOk, Run;
    forall end: nat, enough: nat ensures !SettlesUpToTraces(t, lo, env, cfg, end, enough) {
      RowBeyondChainStays(t, env, cfg, m, enough);
      assert m in Once(Run(t, Repeat(env, enough), cfg)).block;
    }
  }

  // ------------------------------------------------------------- an agreeing tip

  /** The checkpoint of a quiet loop neither falls nor passes the safe head. */
  lemma {:induction false} QuietCheckpoint(t: Tables, lo: nat, env: Env, cfg: Config, n: nat)
    requires Quiet(t, env.chain) && Healthy(env, lo) && cfg.batch > 0
    ensures var after := Run(t, Repeat(env, n), cfg).checkpoint;
            after.Some? && t.checkpoint.value <= after.value <= Max(t.checkpoint.value, Safe(env, cfg))
    decreases n
  {
    hide Cycle, Run, Quiet, ChainOk, Committed, AllAnswered;
    if n == 0 {
      assert t.checkpoint.Some? by { QuietHasCheckpoint(t, env.chain); }
      RunNothing(t, env, cfg);
    } else {
      var u := Cycle(t, env, cfg).0;
      RunRepeat(t, env, cfg, n);
      QuietCycle(t, env, cfg);
      QuietCycleCheckpoint(t, env, cfg);
      QuietCheckpoint(u, lo, env, cfg, n - 1);
    }
  }

  lemma QuietHasCheckpoint(t: Tables, b: Chain)
    requires Quiet(t, b)
    ensures t.checkpoint.Some?
  {
  }

  lemma {:induction false} QuietCycleCheckpoint(t: Tables, env: Env, cfg: Config)
    requires Quiet(t, env.chain) && EnvOk(env) && env.head.Some? && cfg.batch > 0
    ensures var after := Cycle(t, env, cfg).0.checkpoint;
            t.checkpoint.Some? && after.Some?
                && t.checkpoint.value <= after.value <= Max(t.checkpoint.value, Safe(env, cfg))
  {
    hide ScanTables, IndexFrom, TipAgrees, Readable, ChainOk;
    QuietScanIsSilent(t, env.chain, env.down);
    match CycleTarget(t.checkpoint, env, cfg)
    case None =>
    case Some(r) => IndexFromCheckpoint(t, Readable(env), r.from, r.to, cfg.batch, env.events);
  }

  /**
   * Whatever a quiet loop settles on has every block below its next height, as the tables have now, and
   * no row above both that and the safe head.
   */
  lemma {:induction false} SettledMeansComplete(t: Tables, lo: nat, env: Env, cfg: Config, end: nat, enough: nat)
    requires Quiet(t, env.chain) && t.checkpoint.value >= 0 && lo <= NextHeight(t) && Healthy(env, lo) && cfg.batch > 0
    requires SettlesUpToTraces(t, lo, env, cfg, end, enough)
    ensures NextHeight(t) <= end <= |env.chain|
    ensures forall n :: lo <= n < NextHeight(t) ==> Covered(t, env.chain, n)
    ensures forall n :: n in t.block ==> n < Max(NextHeight(t), Safe(env, cfg) + 1)
  {
    hide Run, Once, ChainOk, Committed, AllAnswered, Covered, TipAgrees, Adds;
    var b := env.chain;
    var v := Run(t, Repeat(env, enough), cfg);
    RepeatOk(env, enough);
    QuietCheckpoint(t, lo, env, cfg, enough);
    SettledRowsStay(t, b, Repeat(env, enough), cfg);
    OnceKeepsBlocks(v);
    assert v.checkpoint == Some(end - 1);
    StoreIsPartial(b, lo, end);
    OnceCovers(v, b);
    forall n | lo <= n < NextHeight(t) ensures Covered(t, b, n) {
      assert Covered(Once(v), b, n);
      PassedBlockIsNeverRepaired(t, b, Repeat(env, enough), cfg, n);
    }
    forall n | n in t.block ensures n < Max(NextHeight(t), Safe(env, cfg) + 1) {
      AddsKeepsRow(t, v, b, NextHeight(t), |b|, n);
      assert n in v.block && n in Heights(lo, end);
    }
  }

  lemma AddsKeepsRow(t: Tables, u: Tables, c: Chain, from: nat, to: nat, n: nat)
    requires Adds(t, u, c, from, to) && n in t.block
    ensures n in u.block
  {
  }

  lemma OnceKeepsBlocks(t: Tables)
    ensures Once(t).block == t.block && Once(t).checkpoint == t.checkpoint
  {
  }

  /** The remains reach no higher than the stored blocks. */
  lemma {:induction false} TightWithin(t: Tables, c: Chain, lo: nat, top: nat, limit: nat)
    requires top <= |c| && Within(t, c, lo, top) && Integrity(t) && ChainOk(c) && limit <= |c|
    requires forall n :: n in t.block ==> n < limit
    ensures Within(t, c, lo, limit)
  {
    forall d | d in t.dependents ensures exists n :: lo <= n < limit && d in c[n].rows {
      var n :| lo <= n < top && d in c[n].rows;
      assert BlockOk(c[n]);
      var r :| r in t.transaction && r.tx == d.tx;
      RowsOfOneBlock(t, c, lo, top, n, d.tx);
    }
  }

  /** Above the safe head nothing is indexed. */
  lemma {:induction false} IdleRun(t: Tables, lo: nat, env: Env, cfg: Config, n: nat)
    requires Quiet(t, env.chain) && Healthy(env, lo) && cfg.batch > 0 && NextHeight(t) > Safe(env, cfg)
    requires t.checkpoint.value >= 0
    ensures Run(t, Repeat(env, n), cfg) == t
    decreases n
  {
    hide Run, ScanTables, ChainOk, Committed, AllAnswered, TipAgrees;
    if n == 0 {
      RunNothing(t, env, cfg);
    } else {
      QuietScanIsSilent(t, env.chain, env.down);
      RunRepeat(t, env, cfg, n);
      IdleRun(t, lo, env, cfg, n - 1);
    }
  }

  /** Complete below the next height and without rows above it and the safe head: the rest is indexed. */
  lemma {:induction false} CompleteConverges(t: Tables, lo: nat, top: nat, env: Env, cfg: Config)
    requires Ragged(t, env.chain, lo, top) && TipAgrees(t, env.chain) && Healthy(env, lo) && cfg.batch > 0
    requires forall n :: lo <= n < NextHeight(t) ==> Covered(t, env.chain, n)
    requires forall n :: n in t.block ==> n < Max(NextHeight(t), Safe(env, cfg) + 1)
    ensures Converges(t, lo, env, cfg)
  {
    hide Run, Once, ChainOk, Committed, AllAnswered, Covered, TipAgrees, Within, Integrity;
    var b, k, end := env.chain, NextHeight(t), Max(NextHeight(t), Safe(env, cfg) + 1);
    TightWithin(t, b, lo, top, end);
    assert Partial(t, b, lo, k, end);
    var enough := if k <= Safe(env, cfg) + 1 then CyclesLeft(k, env, cfg) else 0;
    forall n: nat | n >= enough ensures Once(Run(t, Repeat(env, n), cfg)) == Store(b, lo, end) {
      if k <= Safe(env, cfg) + 1 {
        FailedChunksAreRepaired(t, lo, k, end, env, cfg, n);
      } else {
        IdleRun(t, lo, env, cfg, n);
        PartialWithoutRemains(t, b, lo, k);
      }
    }
    assert SettlesUpToTraces(t, lo, env, cfg, end, enough);
  }

  /** When the tip agrees with another chain, all rows are that chain's too. */
  lemma {:induction false} RaggedOfAgreeingChain(t: Tables, a: Chain, b: Chain, lo: nat, top: nat) returns (more: nat)
    requires ChainOk(a) && ChainOk(b) && Committed(a, b) && Ragged(t, a, lo, top) && TipAgrees(t, b)
    requires NextHeight(t) <= |b|
    ensures Ragged(t, b, lo, more)
  {
    var hashed := HashedHeights(t.block);
    assert hashed == t.block.Keys;
    more := NextHeight(t);
    if hashed != {} {
      var m := MaxKey(hashed);
      more := m + 1;
      AgreeBelow(a, b, m);
      assert forall n :: 0 <= n <= m ==> a[n] == a[..m + 1][n] == b[..m + 1][n] == b[n];
      WithinAgreeing(t, a, b, lo, top, m);
    } else {
      assert forall r :: r in t.transaction ==> r.block in t.block;
      assert t.transaction == {};
      assert t.dependents == map[];
    }
  }

  /** With an agreeing tip: recovery needs every block below the checkpoint, and no row above it and the safe head. */
  lemma {:induction false} AgreeingConvergesIff(t: Tables, a: Chain, lo: nat, top: nat, env: Env, cfg: Config)
    requires ChainOk(a) && Committed(a, env.chain) && Ragged(t, a, lo, top) && TipAgrees(t, env.chain)
    requires Healthy(env, lo) && cfg.batch > 0
    ensures Converges(t, lo, env, cfg) <==>
            && NextHeight(t) <= |env.chain|
            && (forall n :: lo <= n < NextHeight(t) ==> Covered(t, env.chain, n))
            && forall n :: n in t.block ==> n < Max(NextHeight(t), Safe(env, cfg) + 1)
  {
    hide SettlesUpToTraces, ChainOk, Committed, AllAnswered, Covered, TipAgrees, Within, Integrity;
    if Converges(t, lo, env, cfg) {
      var end: nat, enough: nat :| SettlesUpToTraces(t, lo, env, cfg, end, enough);
      SettledMeansComplete(t, lo, env, cfg, end, enough);
    }
    if && NextHeight(t) <= |env.chain|
       && (forall n :: lo <= n < NextHeight(t) ==> Covered(t, env.chain, n))
       && forall n :: n in t.block ==> n < Max(NextHeight(t), Safe(env, cfg) + 1)
    {
      var more := RaggedOfAgreeingChain(t, a, env.chain, lo, top);
      CompleteConverges(t, lo, more, env, cfg);
    }
  }

  // ------------------------------------------------------------------ a stale tip

  /** A stored row the node contradicts. */
  predicate Stale(t: Tables, b: Chain, n: nat) {
    n in t.block && n < |b| && t.block[n].hash != Some(b[n].hash)
  }

  ghost predicate LowestStale(t: Tables, b: Chain, q: nat) {
    Stale(t, b, q) && forall n: nat :: n < q ==> !Stale(t, b, n)
  }

  /** Below a stored agreeing row nothing is stale. */
  lemma {:induction false} NothingStaleBelow(t: Tables, a: Chain, b: Chain, lo: nat, top: nat, n: nat, m: nat)
    requires ChainOk(a) && ChainOk(b) && Committed(a, b) && top <= |a| && Within(t, a, lo, top)
    requires m in t.block && m < |b| && !Stale(t, b, m) && n <= m
    ensures !Stale(t, b, n)
  {
    AgreeBelow(a, b, m);
    assert a[n] == a[..m + 1][n] && b[n] == b[..m + 1][n];
  }

  lemma StaleAfterRollback(t: Tables, u: Tables, b: Chain, f: nat)
    requires u.block == BlocksBelow(t.block, f)
    ensures forall n: nat :: Stale(u, b, n) <==> n < f && Stale(t, b, n)
  {
  }

  lemma {:induction false} StaleTipIsReported(t: Tables, a: Chain, lo: nat, top: nat, env: Env)
    requires Healthy(env, lo) && Ragged(t, a, lo, top) && !TipAgrees(t, env.chain)
    requires forall n :: n in t.block ==> n < |env.chain|
    ensures ScanTables(t, REORG_SCAN_CAP, env.chain, env.down).Some?
  {
    hide ChainOk, Committed, Integrity;
    var w, at := RecentBlockHashes(t.block, REORG_SCAN_CAP), Lookup(env.chain, env.down);
    var tip := MaxKey(HashedHeights(t.block));
    assert w[0] == Stored(tip, t.block[tip].hash.value);
    RecentBlockHashesSound(t.block, REORG_SCAN_CAP);
    assert AllKnown(w, at, |w|);
    assert Mismatch(w[0], at(w[0].height));
    assert MismatchRun(w, at, |w|) > 0;
    ReportedForkIsConfirmed(w, at);
  }

  /** The tip is stale exactly when some row is. */
  lemma {:induction false} TipIsStaleIff(t: Tables, a: Chain, b: Chain, lo: nat, top: nat)
    requires ChainOk(a) && ChainOk(b) && Committed(a, b) && Ragged(t, a, lo, top)
    requires forall n :: n in t.block ==> n < |b|
    ensures TipAgrees(t, b) <==> forall n :: n in t.block ==> !Stale(t, b, n)
  {
    hide ChainOk, Committed, Integrity;
    var hashed := HashedHeights(t.block);
    assert hashed == t.block.Keys;
    if hashed != {} {
      var m := MaxKey(hashed);
      if !Stale(t, b, m) {
        forall n | n in t.block ensures !Stale(t, b, n) {
          NothingStaleBelow(t, a, b, lo, top, n, m);
        }
      }
      assert m in t.block && (TipAgrees(t, b) <==> !Stale(t, b, m));
    }
  }

  lemma {:induction false} LowestStaleExists(t: Tables, b: Chain, n: nat) returns (q: nat)
    requires Stale(t, b, n)
    ensures LowestStale(t, b, q) && q <= n
    decreases n
  {
    if m: nat :| m < n && Stale(t, b, m) {
      q := LowestStaleExists(t, b, m);
    } else {
      q := n;
    }
  }

  /** One rollback over ragged tables. */
  lemma {:induction false} RaggedRollback(
      t: Tables, a: Chain, lo: nat, top: nat, env: Env, cfg: Config)
    returns (f: nat)
    requires ChainOk(a) && Committed(a, env.chain) && RootAgrees(a, env.chain, lo)
    requires Ragged(t, a, lo, top) && UniqueTx(t) && !TipAgrees(t, env.chain) && Healthy(env, lo) && cfg.batch > 0
    requires forall n :: n in t.block ==> n < |env.chain|
    ensures var u := Cycle(t, env, cfg).0;
            && u == Rollback(t, f) && Stale(t, env.chain, f) && lo <= f < top && 1 <= f
            && Ragged(u, a, lo, f) && KeysHold(u) && NextHeight(u) == f
            && u.block == BlocksBelow(t.block, f)
  {
    hide ScanTables, Rollback, Committed, AllAnswered, Within, RecentBlockHashes, Cycle;
    StaleTipIsReported(t, a, lo, top, env);
    f := ScanTables(t, REORG_SCAN_CAP, env.chain, env.down).value;
    ReportedForkRollsBack(t, env, cfg);
    var _, _ := ReportedForkIsStale(t, env.chain, env.down, REORG_SCAN_CAP);
    RowWithin(t, a, lo, top, f);
    RollbackMeaning(t, f);
    RollbackStaysWithin(t, a, lo, top, f);
    KeysHoldMeans(t);
    EveryDeleteKeepsIntegrity(t, f, 8);
    RollbackIsPrefix(t, f);
    KeysHoldMeans(Rollback(t, f));
  }

  lemma RollbackIsPrefix(t: Tables, f: nat)
    ensures RollbackPrefix(t, f, 8) == Rollback(t, f)
  {
  }

  lemma RowWithin(t: Tables, c: Chain, lo: nat, top: nat, n: nat)
    requires top <= |c| && Within(t, c, lo, top) && n in t.block
    ensures lo <= n < top && t.block[n] == Row(c[n])
  {
  }

  lemma FewerBlocks(block: map<nat, BlockRow>, f: nat)
    requires f in block
    ensures |BlocksBelow(block, f)| < |block|
  {
    var below := BlocksBelow(block, f);
    assert below.Keys < block.Keys;
    SmallerMap(below, block);
  }

  /** Complete blocks of one chain that are all stored agree with the other, and are complete there too. */
  lemma {:induction false} CoveredOnBothIff(t: Tables, u: Tables, a: Chain, b: Chain, lo: nat, top: nat, q: nat)
    requires ChainOk(a) && ChainOk(b) && Committed(a, b) && top <= |a| && Within(t, a, lo, top) && q <= top && q <= |b|
    requires u == Rollback(t, q) && forall n :: n in t.block && n < q ==> !Stale(t, b, n)
    ensures (forall n :: lo <= n < q ==> Covered(u, b, n)) <==> (forall n :: lo <= n < q ==> Covered(t, a, n))
  {
    hide Rollback, Committed;
    RollbackMeaning(t, q);
    forall n | lo <= n < q ensures Covered(u, a, n) <==> Covered(t, a, n) {
      RollbackKeepsCovered(t, a, lo, top, q, n);
    }
    forall n | lo <= n < q ensures Covered(u, b, n) <==> Covered(u, a, n) {
      if n in t.block {
        assert !Stale(t, b, n);
        EqualHashes(a, b, n);
      } else {
        assert n !in u.block;
      }
    }
  }

  lemma EqualHashes(a: Chain, b: Chain, n: nat)
    requires Committed(a, b) && n < |a| && n < |b| && a[n].hash == b[n].hash
    ensures a[n] == b[n]
  {
  }

  /**
   * With a stale tip: the capped rollbacks end at the lowest stale row, and the loop recovers if and
   * only if every block below it is complete.
   */
  lemma {:induction false} StaleConvergesIff(t: Tables, a: Chain, lo: nat, top: nat, env: Env, cfg: Config, q: nat)
    requires ChainOk(a) && Committed(a, env.chain) && RootAgrees(a, env.chain, lo)
    requires Ragged(t, a, lo, top) && UniqueTx(t) && Healthy(env, lo) && cfg.batch > 0
    requires (forall n :: n in t.block ==> n < |env.chain|) && LowestStale(t, env.chain, q)
    ensures Converges(t, lo, env, cfg) <==> forall n :: lo <= n < q ==> n < |a| && Covered(t, a, n)
    decreases |t.block|
  {
    hide Cycle, Converges, ChainOk, Committed, AllAnswered, Within, Covered, Integrity, UniqueTx, Rollback, TipAgrees;
    var b := env.chain;
    HealthyChain(env, lo);
    TipIsStaleIff(t, a, b, lo, top);
    var f := RaggedRollback(t, a, lo, top, env, cfg);
    var u := Cycle(t, env, cfg).0;
    ConvergesAfterCycleIff(t, lo, env, cfg);
    StaleAfterRollback(t, u, b, f);
    assert q <= f;
    if q < f {
      KeysHoldMeans(u);
      FewerBlocks(t.block, f);
      assert LowestStale(u, b, q);
      StaleConvergesIff(u, a, lo, f, env, cfg, q);
      forall n | lo <= n < q ensures Covered(u, a, n) <==> Covered(t, a, n) {
        RollbackKeepsCovered(t, a, lo, top, f, n);
      }
    } else {
      TipIsStaleIff(u, a, b, lo, f);
      AgreeingConvergesIff(u, a, lo, f, env, cfg);
      CoveredOnBothIff(t, u, a, b, lo, top, q);
    }
  }

  lemma HealthyChain(env: Env, lo: nat)
    requires Healthy(env, lo)
    ensures EnvOk(env) && ChainOk(env.chain)
  {
  }

  // ------------------------------------------------------------------- the condition

  /**
   * What the tables need, with their blocks complete up to the checkpoint, for the loop to recover on
   * the node's chain: no row beyond its end; and if the tip agrees, no row above both the checkpoint
   * and the safe head; if it is stale, no hole between the checkpoint and the lowest stale row.
   */
  ghost predicate Recovers(t: Tables, a: Chain, env: Env, cfg: Config)
    requires env.head.Some?
  {
    && (forall n :: n in t.block ==> n < |env.chain|)
    && if TipAgrees(t, env.chain)
       then NextHeight(t) <= |env.chain| && forall n :: n in t.block ==> n < Max(NextHeight(t), Safe(env, cfg) + 1)
       else forall q :: LowestStale(t, env.chain, q) ==> NoHole(t, a, q)
  }

  lemma {:induction false} PartialIsRagged(t: Tables, a: Chain, lo: nat, hi: nat, top: nat)
    requires Partial(t, a, lo, hi, top) && Integrity(t)
    ensures Ragged(t, a, lo, top) && NextHeight(t) == hi
  {
  }

  /**
   * With the remains of failed chunks in the tables, a healthy node brings the loop to its own chain if
   * and only if `Recovers` holds.
   */
  lemma {:induction false} ConvergesIffRecovers(t: Tables, a: Chain, lo: nat, hi: nat, top: nat, env: Env, cfg: Config)
    requires ChainOk(a) && Committed(a, env.chain) && RootAgrees(a, env.chain, lo)
    requires Partial(t, a, lo, hi, top) && KeysHold(t) && Healthy(env, lo) && cfg.batch > 0
    ensures Converges(t, lo, env, cfg) <==> Recovers(t, a, env, cfg)
  {
    hide Converges, ChainOk, Committed, AllAnswered, Within, Covered, Integrity, UniqueTx, TipAgrees, LowestStale;
    var b := env.chain;
    HealthyChain(env, lo);
    KeysHoldMeans(t);
    PartialFits(t, a, lo, hi, top);
    PartialIsRagged(t, a, lo, hi, top);
    if m :| m in t.block && m >= |b| {
      RowWithin(t, a, lo, top, m);
      NeverBeyondChain(t, lo, env, cfg, m);
    } else if TipAgrees(t, b) {
      AgreeingConvergesIff(t, a, lo, top, env, cfg);
      if hi <= |b| {
        AgreeingIsCovered(t, a, b, lo, hi, top);
      }
    } else {
      TipIsStaleIff(t, a, b, lo, top);
      var n :| n in t.block && Stale(t, b, n);
      var q := LowestStaleExists(t, b, n);
      StaleConvergesIff(t, a, lo, top, env, cfg, q);
      assert Partial(t, a, lo, hi, top);
      LowestStaleIsOne(t, b, q);
      RowWithin(t, a, lo, top, q) by { StaleIsStored(t, b, q); }
    }
  }

  lemma LowestStaleIsOne(t: Tables, b: Chain, q: nat)
    requires LowestStale(t, b, q)
    ensures q in t.block && forall p :: LowestStale(t, b, p) <==> p == q
  {
  }

  lemma StaleIsStored(t: Tables, b: Chain, q: nat)
    requires LowestStale(t, b, q)
    ensures q in t.block
  {
  }

  lemma {:induction false} AgreeingIsCovered(t: Tables, a: Chain, b: Chain, lo: nat, hi: nat, top: nat)
    requires ChainOk(a) && ChainOk(b) && Committed(a, b) && Partial(t, a, lo, hi, top) && Integrity(t)
    requires TipAgrees(t, b) && hi <= |b|
    ensures forall n :: lo <= n < hi ==> Covered(t, b, n)
  {
    hide TipAgrees, Within, Covered, Committed, ChainOk, Integrity;
    var _ := PartialOfAgreeingChain(t, a, b, lo, hi, top);
  }

  lemma UniverseMeans(chains: set<Chain>, lo: nat, a: Chain, b: Chain)
    requires Universe(chains, lo) && a in chains && b in chains
    ensures ChainOk(a) && Committed(a, b) && |a| <= I64_MAX && RootAgrees(a, b, lo)
  {
  }

  /**
   * After any safe history of chain changes, failed chunks, missing lookups and restarts: a healthy
   * node brings the tables to those of its own chain, up to repeated trace rows, if and only if
   * they recover.
   */
  lemma {:induction false} ConvergesDespiteFailuresIff(
      chains: set<Chain>, t: Tables, a: Chain, lo: nat, hi: nat, top: nat, history: seq<Env>, env: Env, cfg: Config)
    requires Universe(chains, lo) && a in chains && ServedOver(history, chains) && cfg.batch > 0
    requires Partial(t, a, lo, hi, top) && KeysHold(t) && SafeRun(t, a, history, cfg)
    requires Healthy(env, lo) && env.chain in chains
    ensures Converges(Run(t, history, cfg), lo, env, cfg)
       <==> Recovers(Run(t, history, cfg), LastChain(t, a, history, cfg), env, cfg)
  {
    hide Run, LastChain, SafeRun, Partial, KeysHold, Converges, Recovers, ChainOk, Committed, AllAnswered, Universe;
    var h, more := SafeRunKeepsPartial(chains, t, a, lo, hi, top, history, cfg);
    UniverseMeans(chains, lo, LastChain(t, a, history, cfg), env.chain);
    ConvergesIffRecovers(Run(t, history, cfg), LastChain(t, a, history, cfg), lo, h, more, env, cfg);
  }
}
