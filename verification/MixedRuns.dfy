/**
 * Runs in which chunks fail and the chain is replaced: what the fork scan reports on the
 * remains of failed chunks, when a rollback over them is safe, and convergence afterwards.
 */
module MixedRuns {
  import opened Options
  import opened ForkScanning
  import opened ChainTables
  import opened Indexing
  import opened IndexedStore
  import opened FollowLoop
  import opened Convergence
  import opened FailedChunks

  // ----------------------------------------- the number of copies steers nothing

  ghost predicate SameKeys(t: Tables, u: Tables) {
    t.block == u.block && t.transaction == u.transaction && t.dependents.Keys == u.dependents.Keys
        && t.checkpoint == u.checkpoint
  }

  lemma SameKeysIsSameOnce(t: Tables, u: Tables)
    ensures SameKeys(t, u) <==> Once(t) == Once(u)
  {
    assert Once(t).dependents.Keys == t.dependents.Keys && Once(u).dependents.Keys == u.dependents.Keys;
    if SameKeys(t, u) { assert Once(t).dependents == Once(u).dependents; }
  }

  lemma IngestPrefixSameKeys(t: Tables, u: Tables, n: nat, b: ChainBlock, k: nat)
    requires SameKeys(t, u) && k <= 7
    ensures SameKeys(IngestPrefix(t, n, b, k), IngestPrefix(u, n, b, k))
  {
    IngestPrefixState(t, n, b, k);
    IngestPrefixState(u, n, b, k);
  }

  lemma {:induction false} IngestAllSameKeys(t: Tables, u: Tables, c: Chain, order: seq<nat>)
    requires SameKeys(t, u) && forall i :: 0 <= i < |order| ==> order[i] < |c|
    ensures SameKeys(IngestAll(t, c, order), IngestAll(u, c, order))
    decreases |order|
  {
    hide SameKeys, IngestPrefix;
    if order != [] {
      var n := order[0];
      IngestPrefixSameKeys(t, u, n, c[n], 7);
      IngestAllSameKeys(Ingest(t, n, c[n]), Ingest(u, n, c[n]), c, order[1..]);
    }
  }

  lemma {:induction false} IngestSomeSameKeys(t: Tables, u: Tables, c: Chain, chunk: BlockRange, done: seq<(nat, nat)>)
    requires SameKeys(t, u)
    ensures SameKeys(IngestSome(t, c, chunk, done), IngestSome(u, c, chunk, done))
    decreases |done|
  {
    hide SameKeys, IngestPrefix;
    if done != [] {
      var (n, k) := done[0];
      if n < |c| && chunk.Contains(n) && k <= 7 {
        IngestPrefixSameKeys(t, u, n, c[n], k);
        IngestSomeSameKeys(IngestPrefix(t, n, c[n], k), IngestPrefix(u, n, c[n], k), c, chunk, done[1..]);
      } else {
        IngestSomeSameKeys(t, u, c, chunk, done[1..]);
      }
    }
  }

  lemma CheckpointSameKeys(t: Tables, u: Tables, n: int)
    requires SameKeys(t, u)
    ensures SameKeys(SetCheckpoint(t, n), SetCheckpoint(u, n))
  {
  }

  lemma {:induction false} IndexFromSameKeys(
      t: Tables, u: Tables, c: Chain, start: nat, to: nat, batch: nat, events: seq<ChunkEvent>)
    requires SameKeys(t, u) && batch > 0 && to < |c|
    ensures SameKeys(IndexFrom(t, c, start, to, batch, events).0, IndexFrom(u, c, start, to, batch, events).0)
    decreases 1 + to - start
  {
    hide SameKeys, IngestAll, IngestSome;
    if start <= to {
      var end := ChunkEnd(start, to, batch);
      match NextEvent(events)
      case Cancel =>
      case Fail(done) => IngestSomeSameKeys(t, u, c, BlockRange(start, end), done);
      case Process =>
        IngestAllSameKeys(t, u, c, Range(start, end + 1));
        CheckpointSameKeys(IngestAll(t, c, Range(start, end + 1)), IngestAll(u, c, Range(start, end + 1)), end);
        IndexFromSameKeys(IndexChunk(t, c, start, end), IndexChunk(u, c, start, end), c, end + 1, to, batch,
                          LaterEvents(events));
    }
  }

  lemma {:induction false} CycleSameKeys(t: Tables, u: Tables, env: Env, cfg: Config)
    requires SameKeys(t, u) && EnvOk(env) && cfg.batch > 0
    ensures SameKeys(Cycle(t, env, cfg).0, Cycle(u, env, cfg).0)
  {
    hide IndexFrom, Rollback, ChainOk;
    match ScanTables(t, REORG_SCAN_CAP, env.chain, env.down)
    case Some(fork) =>
      RollbackMeaning(t, fork);
      RollbackMeaning(u, fork);
    case None =>
      match CycleTarget(t.checkpoint, env, cfg)
      case None =>
      case Some(r) => IndexFromSameKeys(t, u, Readable(env), r.from, r.to, cfg.batch, env.events);
  }

  /** Tables that differ only in repeated trace rows develop alike. */
  lemma {:induction false} RunSameKeys(t: Tables, u: Tables, envs: seq<Env>, cfg: Config)
    requires SameKeys(t, u) && cfg.batch > 0 && forall i :: 0 <= i < |envs| ==> EnvOk(envs[i])
    ensures SameKeys(Run(t, envs, cfg), Run(u, envs, cfg))
    decreases |envs|
  {
    hide SameKeys, Cycle, EnvOk;
    if envs != [] {
      CycleSameKeys(t, u, envs[0], cfg);
      RunSameKeys(Cycle(t, envs[0], cfg).0, Cycle(u, envs[0], cfg).0, envs[1..], cfg);
    }
  }

  // ------------------------------------------- what the scan reports on remains

  /**
   * A reported fork is a stored height whose hash the node contradicts, and the whole window above it
   * is contradicted too.
   */
  lemma {:induction false} ReportedForkIsStale(
      t: Tables, b: Chain, down: set<nat>, cap: nat)
    returns (w: seq<Stored>, run: nat)
    requires 1 <= cap <= USIZE_MAX && ScanTables(t, cap, b, down).Some?
    ensures w == RecentBlockHashes(t.block, cap) && 0 < run <= |w|
    ensures w[run - 1].height == ScanTables(t, cap, b, down).value
    ensures run < |w| ==> w[run].height < |b| && w[run].hash == b[w[run].height].hash
    ensures var f := ScanTables(t, cap, b, down).value;
            f in t.block && f < |b| && t.block[f].hash.Some? && t.block[f].hash.value != b[f].hash
  {
    w := RecentBlockHashes(t.block, cap);
    run := MismatchRun(w, Lookup(b, down), |w|);
    RecentBlockHashesSound(t.block, cap);
    ReportedForkIsConfirmed(w, Lookup(b, down));
    assert Mismatch(w[run - 1], Lookup(b, down)(w[run - 1].height));
    assert run < |w| ==> !Mismatch(w[run], Lookup(b, down)(w[run].height));
  }

  /**
   * On tables with the remains of failed chunks of chain `a`, scanned against chain `b`: the
   * reported fork is stored and stale, and no stored height lies between the fork point and it,
   * unless the window was full and ended there.
   */
  lemma {:induction false} ScanOfRemains(
      t: Tables, a: Chain, b: Chain, down: set<nat>, lo: nat, hi: nat, top: nat, cap: nat)
    requires ChainOk(a) && ChainOk(b) && Committed(a, b) && Partial(t, a, lo, hi, top)
    requires 1 <= cap <= USIZE_MAX && ScanTables(t, cap, b, down).Some?
    ensures var f, p := ScanTables(t, cap, b, down).value, ForkPoint(a, b, lo, top);
            && lo <= f < top && p <= f && f in t.block
            && (|t.block| <= cap ==> forall n :: p <= n < f ==> n !in t.block)
  {
    var f, p := ScanTables(t, cap, b, down).value, ForkPoint(a, b, lo, top);
    var w, run := ReportedForkIsStale(t, b, down, cap);
    hide ScanTables, Covered, Committed, ChainOk, ForkPoint;
    assert lo <= f < top && t.block[f] == Row(a[f]);
    ForkPointSplits(a, b, lo, top, f);
    forall n | p <= n < f && |t.block| <= cap ensures n !in t.block {
      if n in t.block {
        NextStoredBelow(t.block, cap, w, run, n);
        var m := w[run].height;
        RecentBlockHashesSound(t.block, cap);
        assert n <= m < f && t.block[m] == Row(a[m]);
        ForkPointSplits(a, b, lo, top, m);
        assert false;
      }
    }
  }

  /**
   * A stored height below the run, when the window holds every stored height, is at or below the next
   * row of the window.
   */
  lemma {:induction false} NextStoredBelow(block: map<nat, BlockRow>, cap: nat, w: seq<Stored>, run: nat, n: nat)
    requires w == RecentBlockHashes(block, cap) && 0 < run <= |w| && |block| <= cap
    requires n in block && block[n].hash.Some? && n < w[run - 1].height
    ensures run < |w| && n <= w[run].height < w[run - 1].height
  {
    RecentBlockHashesSound(block, cap);
    RecentBlockHashesComplete(block, cap, n);
    WindowIsNotFull(block, cap, n);
    var i :| 0 <= i < |w| && w[i] == Stored(n, block[n].hash.value);
    assert forall j :: 0 <= j < run ==> w[j].height >= w[run - 1].height;
  }

  /** A full window that leaves a stored height out needs more stored heights than the cap. */
  lemma {:induction false} WindowIsNotFull(block: map<nat, BlockRow>, cap: nat, n: nat)
    requires n in block && block[n].hash.Some? && |block| <= cap
    ensures exists i ::
              && 0 <= i < |RecentBlockHashes(block, cap)|
              && RecentBlockHashes(block, cap)[i] == Stored(n, block[n].hash.value)
    decreases cap
  {
    var w := RecentBlockHashes(block, cap);
    assert n in HashedHeights(block);
    var top := MaxKey(HashedHeights(block));
    assert block.Keys != {};
    if n == top {
      assert w[0] == Stored(n, block[n].hash.value);
    } else {
      var below := BlocksBelow(block, top);
      assert below.Keys < block.Keys;
      SmallerMap(below, block);
      WindowIsNotFull(below, cap - 1, n);
      var rest := RecentBlockHashes(below, cap - 1);
      assert w == [w[0]] + rest;
      var i :| 0 <= i < |rest| && rest[i] == Stored(n, block[n].hash.value);
      assert w[i + 1] == rest[i];
    }
  }

  lemma SmallerMap(a: map<nat, BlockRow>, b: map<nat, BlockRow>)
    requires a.Keys < b.Keys
    ensures |a| < |b|
  {
    var extra := b.Keys - a.Keys;
    assert b.Keys == a.Keys + extra && extra != {};
    assert |b.Keys| == |a.Keys| + |extra|;
  }

  /**
   * A reorg found by the scan over the remains of failed chunks leaves the tables of `[lo, fork)` if
   * and only if every block between the checkpoint and the fork is complete. With at most as many
   * stored heights as the scan's cap, the fork is at or below the next block to index if and only if
   * the chains part there or earlier and that block, if they part at it, is stored.
   */
  lemma {:induction false} ReorgOverRemainsIff(t: Tables, a: Chain, lo: nat, hi: nat, top: nat, env: Env, cfg: Config)
    requires EnvOk(env) && cfg.batch > 0 && ChainOk(a) && Committed(a, env.chain) && RootAgrees(a, env.chain, lo)
    requires Partial(t, a, lo, hi, top) && Integrity(t) && ScanTables(t, REORG_SCAN_CAP, env.chain, env.down).Some?
    ensures var f, p := ScanTables(t, REORG_SCAN_CAP, env.chain, env.down).value, ForkPoint(a, env.chain, lo, top);
            && lo <= f < top
            && (Once(Cycle(t, env, cfg).0) == Store(a, lo, f) <==> forall n :: hi <= n < f ==> Covered(t, a, n))
            && (|t.block| <= REORG_SCAN_CAP ==> (f <= hi <==> p < hi || (p == hi && hi in t.block)))
  {
    hide Rollback, Store, ScanTables, Once, Covered, Committed, ChainOk, ForkPoint, Cycle, Integrity, Within, EnvOk;
    PartialFits(t, a, lo, hi, top);
    ReportedForkRollsBack(t, env, cfg);
    StoredBelowCheckpoint(t, a, lo, hi, top);
    ForkIsAboveRoot(t, a, lo, hi, top, env);
    ScanOfRemains(t, a, env.chain, env.down, lo, hi, top, REORG_SCAN_CAP);
    RollbackOfPartialIsStoreIff(t, a, lo, hi, top, ScanTables(t, REORG_SCAN_CAP, env.chain, env.down).value);
    var p := ForkPoint(a, env.chain, lo, top);
    assert lo <= p < hi ==> p in t.block;
  }

  lemma {:induction false} ReportedForkRollsBack(t: Tables, env: Env, cfg: Config)
    requires EnvOk(env) && cfg.batch > 0 && ScanTables(t, REORG_SCAN_CAP, env.chain, env.down).Some?
    ensures ChainOk(env.chain)
    ensures Cycle(t, env, cfg).0 == Rollback(t, ScanTables(t, REORG_SCAN_CAP, env.chain, env.down).value)
  {
  }

  lemma StoredBelowCheckpoint(t: Tables, a: Chain, lo: nat, hi: nat, top: nat)
    requires Partial(t, a, lo, hi, top)
    ensures forall n :: lo <= n < hi ==> n in t.block
  {
    forall n | lo <= n < hi ensures n in t.block {
      assert Covered(t, a, n);
    }
  }

  /** Block 0 is never reported when the chains share their start. */
  lemma {:induction false} ForkIsAboveRoot(t: Tables, a: Chain, lo: nat, hi: nat, top: nat, env: Env)
    requires RootAgrees(a, env.chain, lo) && Partial(t, a, lo, hi, top)
    requires ScanTables(t, REORG_SCAN_CAP, env.chain, env.down).Some?
    ensures 1 <= ScanTables(t, REORG_SCAN_CAP, env.chain, env.down).value
  {
    hide ScanTables, RecentBlockHashes, Covered;
    var f := ScanTables(t, REORG_SCAN_CAP, env.chain, env.down).value;
    var _, _ := ReportedForkIsStale(t, env.chain, env.down, REORG_SCAN_CAP);
    assert t.block[f] == Row(a[f]) && lo <= f;
  }

  // ---------------------------------------------------------------- mixed runs

  /** Every block from the next one to index up to the fork is complete. */
  ghost predicate NoHole(t: Tables, a: Chain, fork: nat) {
    forall n :: NextHeight(t) <= n < fork ==> n < |a| && Covered(t, a, n)
  }

  /**
   * A cycle on tables of chain `a` is safe when it neither builds on a stale tip nor moves the
   * checkpoint past a hole: its tip agrees, or a reported fork has no hole below it, or it does nothing.
   */
  ghost predicate SafeCycle(t: Tables, a: Chain, env: Env, cfg: Config) {
    var scan := ScanTables(t, REORG_SCAN_CAP, env.chain, env.down);
    TipAgrees(t, env.chain) || (if scan.Some? then NoHole(t, a, scan.value)
        else CycleTarget(t.checkpoint, env, cfg).None?)
  }

  /** The chain the tables belong to after a safe cycle. */
  ghost function NextChain(t: Tables, a: Chain, env: Env, cfg: Config): Chain {
    if TipAgrees(t, env.chain) && CycleTarget(t.checkpoint, env, cfg).Some? then env.chain else a
  }

  ghost predicate SafeRun(t: Tables, a: Chain, envs: seq<Env>, cfg: Config)
    requires cfg.batch > 0 && forall i :: 0 <= i < |envs| ==> EnvOk(envs[i])
    decreases |envs|
  {
    if envs == [] then true
    else
      assert EnvOk(envs[0]);
      && SafeCycle(t, a, envs[0], cfg)
      && SafeRun(Cycle(t, envs[0], cfg).0, NextChain(t, a, envs[0], cfg), envs[1..], cfg)
  }

  /** The chain the tables belong to after a safe run. */
  ghost function LastChain(t: Tables, a: Chain, envs: seq<Env>, cfg: Config): Chain
    requires cfg.batch > 0 && forall i :: 0 <= i < |envs| ==> EnvOk(envs[i])
    decreases |envs|
  {
    if envs == [] then a
    else
      assert EnvOk(envs[0]);
      LastChain(Cycle(t, envs[0], cfg).0, NextChain(t, a, envs[0], cfg), envs[1..], cfg)
  }

  ghost predicate ServedOver(envs: seq<Env>, chains: set<Chain>) {
    forall i :: 0 <= i < |envs| ==> EnvOk(envs[i]) && Lossless(envs[i]) && envs[i].chain in chains
  }

  /** When the tip agrees with another chain, all rows are that chain's too. */
  lemma {:induction false} PartialOfAgreeingChain(
      t: Tables, a: Chain, b: Chain, lo: nat, hi: nat, top: nat)
    returns (more: nat)
    requires ChainOk(a) && ChainOk(b) && Committed(a, b) && Partial(t, a, lo, hi, top) && Integrity(t)
    requires TipAgrees(t, b) && (t.block == map[] ==> hi <= |b|)
    ensures more <= top && Partial(t, b, lo, hi, more)
  {
    var hashed := HashedHeights(t.block);
    assert hashed == t.block.Keys;
    more := hi;
    if hashed != {} {
      var m := MaxKey(hashed);
      more := m + 1;
      AgreeBelow(a, b, m);
      assert forall n :: 0 <= n <= m ==> a[n] == a[..m + 1][n] == b[..m + 1][n] == b[n];
      if lo < hi { assert Covered(t, a, hi - 1); }
      WithinAgreeing(t, a, b, lo, top, m);
      forall n | lo <= n < hi ensures Covered(t, b, n) { assert Covered(t, a, n); }
    } else {
      StoredBelowCheckpoint(t, a, lo, hi, top);
      assert lo !in t.block;
      assert forall r :: r in t.transaction ==> r.block in t.block;
      assert t.transaction == {};
      assert t.dependents == map[];
    }
  }

  lemma {:induction false} WithinAgreeing(t: Tables, a: Chain, b: Chain, lo: nat, top: nat, m: nat)
    requires top <= |a| && m < top && m < |b| && ChainOk(a) && Within(t, a, lo, top) && Integrity(t)
    requires (forall n :: n in t.block ==> n <= m) && forall n :: 0 <= n <= m ==> a[n] == b[n]
    ensures Within(t, b, lo, m + 1)
  {
    forall r | r in t.transaction ensures lo <= r.block <= m { assert r.block in t.block; }
    forall d | d in t.dependents ensures exists n :: lo <= n < m + 1 && d in b[n].rows {
      var n :| lo <= n < top && d in a[n].rows;
      assert BlockOk(a[n]);
      var r :| r in t.transaction && r.tx == d.tx;
      RowsOfOneBlock(t, a, lo, top, n, d.tx);
      assert r.block == n;
    }
  }

  /** A safe rollback leaves the tables of the lower part, up to repeated trace rows. */
  lemma {:induction false} SafeRollback(t: Tables, a: Chain, lo: nat, hi: nat, top: nat, f: nat)
    requires ChainOk(a) && Partial(t, a, lo, hi, top) && Integrity(t) && lo <= f <= top && 1 <= f
    requires forall n :: hi <= n < f ==> Covered(t, a, n)
    ensures Partial(Rollback(t, f), a, lo, f, f)
  {
    RollbackMeaning(t, f);
    RollbackStaysWithin(t, a, lo, top, f);
    hide Rollback, ChainOk, Within, Covered, Integrity;
    forall n | lo <= n < f ensures Covered(Rollback(t, f), a, n) {
      RollbackKeepsCovered(t, a, lo, top, f, n);
    }
  }

  lemma {:induction false} SafeCycleSuccessor(
      chains: set<Chain>, t: Tables, a: Chain, lo: nat, hi: nat, top: nat, env: Env, cfg: Config)
    returns (next: nat, more: nat)
    requires Universe(chains, lo) && a in chains && env.chain in chains && EnvOk(env) && Lossless(env) && cfg.batch > 0
    requires Partial(t, a, lo, hi, top) && Integrity(t) && SafeCycle(t, a, env, cfg)
    ensures NextChain(t, a, env, cfg) in chains
    ensures Partial(Cycle(t, env, cfg).0, NextChain(t, a, env, cfg), lo, next, more)
  {
    var scan := ScanTables(t, REORG_SCAN_CAP, env.chain, env.down);
    var target := CycleTarget(t.checkpoint, env, cfg);
    TargetStartsAbove(hi, env, cfg);
    if TipAgrees(t, env.chain) {
      QuietScanIsSilent(t, env.chain, env.down);
      if target.Some? {
        var m := PartialOfAgreeingChain(t, a, env.chain, lo, hi, top);
        CycleKeepsPartial(t, lo, hi, m, env, cfg);
        next, more := CycleReached(hi, env, cfg), CycleTop(hi, m, env, cfg);
      } else {
        next, more := hi, top;
      }
    } else if scan.Some? {
      next, more := scan.value, scan.value;
      ForkIsAboveRoot(t, a, lo, hi, top, env);
      ScanOfRemains(t, a, env.chain, env.down, lo, hi, top, REORG_SCAN_CAP);
      SafeRollback(t, a, lo, hi, top, scan.value);
    } else {
      next, more := hi, top;
    }
  }

  /**
   * Safety over mixed runs: chains replaced, chunks failing, lookups missing, restarts. As long as
   * every cycle is safe the tables hold one chain's blocks, complete up to the checkpoint.
   */
  lemma {:induction false} SafeRunKeepsPartial(
      chains: set<Chain>, t: Tables, a: Chain, lo: nat, hi: nat, top: nat, envs: seq<Env>, cfg: Config)
    returns (h: nat, more: nat)
    requires Universe(chains, lo) && a in chains && ServedOver(envs, chains) && cfg.batch > 0
    requires Partial(t, a, lo, hi, top) && KeysHold(t) && SafeRun(t, a, envs, cfg)
    ensures LastChain(t, a, envs, cfg) in chains && KeysHold(Run(t, envs, cfg))
    ensures Partial(Run(t, envs, cfg), LastChain(t, a, envs, cfg), lo, h, more)
    decreases |envs|
  {
    hide Cycle, SafeCycle, NextChain, Partial, Universe, EnvOk, Integrity, UniqueTx;
    if envs == [] {
      h, more := hi, top;
    } else {
      var env := envs[0];
      var next, up := SafeCycleSuccessor(chains, t, a, lo, hi, top, env, cfg);
      CycleKeepsKeys(t, env, cfg);
      h, more := SafeRunKeepsPartial(chains, Cycle(t, env, cfg).0, NextChain(t, a, env, cfg), lo, next, up, envs[1..],
          cfg);
    }
  }
}
