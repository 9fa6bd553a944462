/**
 * Chunks that fail half-way. A failed chunk leaves rows above the checkpoint and ends the
 * process; the next one resumes at the checkpoint. On one chain this loses nothing, and it
 * duplicates exactly the trace rows of the blocks whose trace insert had already run.
 */
module FailedChunks {
  import opened Options
  import opened ChainTables
  import opened Indexing
  import opened IndexedStore
  import opened FollowLoop
  import opened Convergence

  /** Every row comes from a block of `[lo, top)` of the chain. */
  ghost predicate Within(t: Tables, c: Chain, lo: nat, top: nat)
    requires top <= |c|
  {
    && (forall n :: n in t.block ==> lo <= n < top && t.block[n] == Row(c[n]))
    && (forall r :: r in t.transaction ==> lo <= r.block < top && r.tx in c[r.block].txs)
    && (forall d :: d in t.dependents ==> exists n :: lo <= n < top && d in c[n].rows)
  }

  /** The blocks of `[lo, hi)` are complete and checkpointed; up to `top` there may be remains of failed chunks. */
  ghost predicate Partial(t: Tables, c: Chain, lo: nat, hi: nat, top: nat) {
    && lo <= hi <= top <= |c| && 1 <= hi
    && Within(t, c, lo, top)
    && (forall n :: lo <= n < hi ==> Covered(t, c, n))
    && t.checkpoint == Some(hi - 1)
  }

  lemma StoreIsPartial(c: Chain, lo: nat, hi: nat)
    requires ChainOk(c) && lo <= hi <= |c| && 1 <= hi
    ensures Partial(Store(c, lo, hi), c, lo, hi, hi)
  {
    var t := Store(c, lo, hi);
    forall n | lo <= n < hi ensures Covered(t, c, n) {
      assert n in Heights(lo, hi);
      forall x | x in c[n].txs ensures KnownTx(t, x) {
        assert TxRow(x, n) in t.transaction;
      }
    }
  }

  /** The same tables with one copy of every row. */
  function Once(t: Tables): Tables {
    t.(dependents := map d | d in t.dependents :: 1 as Count)
  }

  /** Without remains the tables are those of the chain, up to repeated trace rows. */
  lemma PartialWithoutRemains(t: Tables, c: Chain, lo: nat, hi: nat)
    requires ChainOk(c) && Partial(t, c, lo, hi, hi)
    ensures Once(t) == Store(c, lo, hi)
  {
    hide ChainOk, Store, Partial;
    PartialFits(t, c, lo, hi, hi);
    SameBlocksAsStore(t, c, lo, hi);
    SameTransactionsAsStore(t, c, lo, hi);
    SameRowsAsStore(t, c, lo, hi);
    StoreCounts(c, lo, hi);
    CheckpointOfPartial(t, c, lo, hi);
  }

  lemma CheckpointOfPartial(t: Tables, c: Chain, lo: nat, hi: nat)
    requires Partial(t, c, lo, hi, hi)
    ensures t.checkpoint == Store(c, lo, hi).checkpoint
  {
  }

  lemma StoreCounts(c: Chain, lo: nat, hi: nat)
    requires hi <= |c|
    ensures forall d :: d in Store(c, lo, hi).dependents ==> Store(c, lo, hi).dependents[d] == 1
  {
  }

  lemma SameBlocksAsStore(t: Tables, c: Chain, lo: nat, hi: nat)
    requires Partial(t, c, lo, hi, hi)
    ensures t.block == Store(c, lo, hi).block
  {
    forall n | n in Store(c, lo, hi).block ensures n in t.block {
      assert Covered(t, c, n);
    }
  }

  lemma SameTransactionsAsStore(t: Tables, c: Chain, lo: nat, hi: nat)
    requires ChainOk(c) && Partial(t, c, lo, hi, hi)
    ensures t.transaction == Store(c, lo, hi).transaction
  {
    var s := Store(c, lo, hi);
    forall r | r in s.transaction ensures r in t.transaction {
      assert Covered(t, c, r.block) && KnownTx(t, r.tx);
      var q :| q in t.transaction && q.tx == r.tx;
      assert q.block == r.block;
    }
    forall r | r in t.transaction ensures r in s.transaction {
      assert r.block in Heights(lo, hi) && r == TxRow(r.tx, r.block);
    }
  }

  lemma SameRowsAsStore(t: Tables, c: Chain, lo: nat, hi: nat)
    requires Partial(t, c, lo, hi, hi)
    ensures t.dependents.Keys == Store(c, lo, hi).dependents.Keys
  {
    var s := Store(c, lo, hi);
    forall d ensures d in s.dependents <==> d in t.dependents {
      if d in s.dependents {
        var n :| n in Heights(lo, hi) && d in c[n].rows;
        assert Covered(t, c, n);
      }
      if d in t.dependents {
        var n :| lo <= n < hi && d in c[n].rows;
        assert n in Heights(lo, hi);
      }
    }
  }

  // ----------------------------------------------- indexing stays within the range

  lemma AddsStaysWithin(t: Tables, u: Tables, c: Chain, lo: nat, top: nat, from: nat, to: nat)
    requires top <= |c| && Within(t, c, lo, top) && Adds(t, u, c, from, to) && lo <= from && to < top
    ensures Within(u, c, lo, top)
  {
    forall d | d in u.dependents ensures exists n :: lo <= n < top && d in c[n].rows {
      if d !in t.dependents {
        assert Copies(t, d) < Copies(u, d);
        assert RowOf(c, from, to, d);
      }
    }
  }

  lemma WithinMore(t: Tables, c: Chain, lo: nat, top: nat, more: nat)
    requires top <= more <= |c| && Within(t, c, lo, top)
    ensures Within(t, c, lo, more)
  {
    forall d | d in t.dependents ensures exists n :: lo <= n < more && d in c[n].rows {
      var n :| lo <= n < top && d in c[n].rows;
    }
  }

  /**
   * Resuming at the checkpoint completes the blocks up to the height reached, whatever earlier attempts
   * left behind.
   */
  lemma ResumeKeepsPartial(
      t: Tables, c: Chain, lo: nat, hi: nat, top: nat, to: nat, batch: nat, events: seq<ChunkEvent>)
    requires Partial(t, c, lo, hi, top) && batch > 0 && hi <= to < |c|
    ensures Partial(IndexFrom(t, c, hi, to, batch, events).0, c, lo, Reached(hi, to, batch, events), Max(top, to + 1))
  {
    var u := IndexFrom(t, c, hi, to, batch, events).0;
    var next := Reached(hi, to, batch, events);
    InterruptedIndexingIsComplete(t, c, hi, to, batch, events);
    WithinMore(t, c, lo, top, Max(top, to + 1));
    IndexFromAdds(t, c, hi, to, batch, events);
    AddsStaysWithin(t, u, c, lo, Max(top, to + 1), hi, to);
    hide IndexFrom, Reached, Within, Adds;
    forall n | lo <= n < next ensures Covered(u, c, n) {
      if n < hi { CoveredIsStable(t, u, c, n); }
    }
  }

  // ------------------------------------------------------------- the follow loop

  /** With every stored row from the node's chain the tip agrees. */
  lemma PartialTipAgrees(t: Tables, c: Chain, lo: nat, hi: nat, top: nat)
    requires Partial(t, c, lo, hi, top)
    ensures TipAgrees(t, c)
  {
  }

  /** The height below which a cycle leaves everything complete. */
  ghost function CycleReached(hi: nat, env: Env, cfg: Config): (next: nat)
    requires cfg.batch > 0 && 1 <= hi <= I64_MAX && EnvOk(env)
    ensures hi <= next
  {
    match CycleTarget(Some(hi - 1), env, cfg)
    case None => hi
    case Some(r) => Reached(hi, r.to, cfg.batch, env.events)
  }

  ghost function CycleTop(hi: nat, top: nat, env: Env, cfg: Config): (more: nat)
    requires cfg.batch > 0 && 1 <= hi <= I64_MAX && EnvOk(env)
    ensures top <= more
  {
    match CycleTarget(Some(hi - 1), env, cfg)
    case None => top
    case Some(r) => Max(top, r.to + 1)
  }

  lemma {:induction false} CycleKeepsPartial(t: Tables, lo: nat, hi: nat, top: nat, env: Env, cfg: Config)
    requires EnvOk(env) && Lossless(env) && cfg.batch > 0 && Partial(t, env.chain, lo, hi, top)
    ensures Partial(Cycle(t, env, cfg).0, env.chain, lo, CycleReached(hi, env, cfg), CycleTop(hi, top, env, cfg))
  {
    hide Cycle, ScanTables, Partial, CycleTarget, IndexFrom, ChainOk, Reached;
    PartialFits(t, env.chain, lo, hi, top);
    CycleOnPartial(t, lo, hi, top, env, cfg);
    TargetStartsAbove(hi, env, cfg);
    var target := CycleTarget(Some(hi - 1), env, cfg);
    if target.Some? {
      ResumeKeepsPartial(t, env.chain, lo, hi, top, target.value.to, cfg.batch, env.events);
    }
  }

  /** On its own chain a cycle resumes indexing above the checkpoint. */
  lemma {:induction false} CycleOnPartial(t: Tables, lo: nat, hi: nat, top: nat, env: Env, cfg: Config)
    requires EnvOk(env) && Lossless(env) && cfg.batch > 0 && Partial(t, env.chain, lo, hi, top)
    ensures var target := CycleTarget(Some(hi - 1), env, cfg);
            Cycle(t, env, cfg).0 ==
            if target.Some? then IndexFrom(t, env.chain, hi, target.value.to, cfg.batch, env.events).0 else t
  {
    PartialTipAgrees(t, env.chain, lo, hi, top);
    QuietScanIsSilent(t, env.chain, env.down);
    ReadableChain(env);
    TargetStartsAbove(hi, env, cfg);
    hide ScanTables, IndexFrom, TipAgrees, Readable;
  }

  lemma TargetStartsAbove(hi: nat, env: Env, cfg: Config)
    requires EnvOk(env) && 1 <= hi <= I64_MAX
    ensures var target := CycleTarget(Some(hi - 1), env, cfg);
            && (target.Some? ==> target.value.from == hi <= target.value.to < |env.chain|)
            && (env.head.None? ==> target.None?)
  {
  }

  /** Every cycle of the run sees the chain `c` and is served in full. */
  ghost predicate OnChain(envs: seq<Env>, c: Chain) {
    forall i :: 0 <= i < |envs| ==> EnvOk(envs[i]) && Lossless(envs[i]) && envs[i].chain == c
  }

  /** The height a run on one chain completes. */
  ghost function RunReached(hi: nat, envs: seq<Env>, c: Chain, cfg: Config): (next: nat)
    requires cfg.batch > 0 && 1 <= hi <= |c| <= I64_MAX && OnChain(envs, c)
    ensures hi <= next <= |c|
    decreases |envs|
  {
    if envs == [] then hi
    else
      CycleStaysOnChain(hi, envs[0], cfg);
      RunReached(CycleReached(hi, envs[0], cfg), envs[1..], c, cfg)
  }

  lemma {:induction false} CycleStaysOnChain(hi: nat, env: Env, cfg: Config)
    requires cfg.batch > 0 && EnvOk(env) && 1 <= hi <= |env.chain|
    ensures CycleReached(hi, env, cfg) <= |env.chain|
    ensures forall top: nat :: top <= |env.chain| ==> CycleTop(hi, top, env, cfg) <= |env.chain|
  {
    TargetStartsAbove(hi, env, cfg);
  }

  /** The height below which the run may have left remains. */
  ghost function RunTop(hi: nat, top: nat, envs: seq<Env>, c: Chain, cfg: Config): (more: nat)
    requires cfg.batch > 0 && 1 <= hi <= |c| <= I64_MAX && OnChain(envs, c)
    ensures top <= more
    decreases |envs|
  {
    if envs == [] then top
    else
      CycleStaysOnChain(hi, envs[0], cfg);
      RunTop(CycleReached(hi, envs[0], cfg), CycleTop(hi, top, envs[0], cfg), envs[1..], c, cfg)
  }

  /**
   * Runs on one chain in which anything but the serving of receipts and traces may go wrong (lookups
   * and heads missing, chunks cancelled or failing at any statement, restarts): the blocks below the
   * checkpoint stay complete, the checkpoint never moves back, and every row is the chain's.
   */
  lemma {:induction false} RunKeepsPartial(t: Tables, c: Chain, lo: nat, hi: nat, top: nat, envs: seq<Env>, cfg: Config)
    requires Partial(t, c, lo, hi, top) && cfg.batch > 0 && |c| <= I64_MAX && OnChain(envs, c)
    ensures Partial(Run(t, envs, cfg), c, lo, RunReached(hi, envs, c, cfg), RunTop(hi, top, envs, c, cfg))
    decreases |envs|
  {
    hide Partial, Cycle, CycleReached, CycleTop;
    PartialFits(t, c, lo, hi, top);
    if envs != [] {
      CycleStaysOnChain(hi, envs[0], cfg);
      CycleKeepsPartial(t, lo, hi, top, envs[0], cfg);
      RunKeepsPartial(Cycle(t, envs[0], cfg).0, c, lo, CycleReached(hi, envs[0], cfg),
          CycleTop(hi, top, envs[0], cfg), envs[1..], cfg);
    }
  }

  lemma PartialFits(t: Tables, c: Chain, lo: nat, hi: nat, top: nat)
    requires Partial(t, c, lo, hi, top)
    ensures 1 <= hi <= top <= |c|
  {
  }

  // ------------------------------------------------------------- how often a row is stored

  /** How often statement `k` of block `n` ran in chunks of the run that failed. */
  ghost function FailedInRun(hi: nat, envs: seq<Env>, c: Chain, cfg: Config, n: nat, k: nat): nat
    requires cfg.batch > 0 && 1 <= hi <= |c| <= I64_MAX && OnChain(envs, c)
    decreases |envs|
  {
    if envs == [] then 0
    else
      CycleStaysOnChain(hi, envs[0], cfg);
      FailedInCycle(hi, envs[0], cfg, n, k) + FailedInRun(CycleReached(hi, envs[0], cfg), envs[1..], c, cfg, n, k)
  }

  ghost function FailedInCycle(hi: nat, env: Env, cfg: Config, n: nat, k: nat): nat
    requires cfg.batch > 0 && 1 <= hi <= I64_MAX && EnvOk(env)
  {
    match CycleTarget(Some(hi - 1), env, cfg)
    case None => 0
    case Some(r) => FailedAttempts(hi, r.to, cfg.batch, env.events, n, k)
  }

  /** A finished block counts once. */
  function Finished(hi: nat, n: nat, next: nat): nat {
    if hi <= n < next then 1 else 0
  }

  lemma {:induction false} CycleCopies(t: Tables, lo: nat, hi: nat, top: nat, env: Env, cfg: Config, n: nat, d: DepRow)
    requires EnvOk(env) && Lossless(env) && cfg.batch > 0 && Partial(t, env.chain, lo, hi, top)
    requires n < |env.chain| && d in env.chain[n].rows
    ensures Copies(Cycle(t, env, cfg).0, d)
         == Inserted(d, Copies(t, d), FailedInCycle(hi, env, cfg, n, StatementFor(d.table))
             + Finished(hi, n, CycleReached(hi, env, cfg)))
  {
    CycleOnPartial(t, lo, hi, top, env, cfg);
    TargetStartsAbove(hi, env, cfg);
    RowHasOneBlock(env.chain, n, d);
    var target := CycleTarget(Some(hi - 1), env, cfg);
    hide Cycle, ScanTables, Partial, CycleTarget, IndexFrom, EnvOk, Inserted, Copies, OnlyIn;
    match target
    case None => NotInserted(d, Copies(t, d));
    case Some(r) => IndexFromCopies(t, env.chain, hi, r.to, cfg.batch, env.events, n, d);
  }

  /** The exact number of copies after a run on one chain. */
  lemma {:induction false} RunCopies(
      t: Tables, c: Chain, lo: nat, hi: nat, top: nat, envs: seq<Env>, cfg: Config, n: nat, d: DepRow)
    requires Partial(t, c, lo, hi, top) && cfg.batch > 0 && |c| <= I64_MAX && OnChain(envs, c)
    requires n < |c| && d in c[n].rows
    ensures Copies(Run(t, envs, cfg), d)
         == Inserted(d, Copies(t, d), FailedInRun(hi, envs, c, cfg, n, StatementFor(d.table))
             + Finished(hi, n, RunReached(hi, envs, c, cfg)))
    decreases |envs|
  {
    hide Partial, Cycle, CycleReached, CycleTop, Inserted, Copies, FailedInCycle, StatementFor;
    PartialFits(t, c, lo, hi, top);
    if envs == [] {
      NotInserted(d, Copies(t, d));
    } else {
      var env, later, k := envs[0], envs[1..], StatementFor(d.table);
      var u, next := Cycle(t, env, cfg).0, CycleReached(hi, env, cfg);
      CycleStaysOnChain(hi, env, cfg);
      CycleKeepsPartial(t, lo, hi, top, env, cfg);
      CycleCopies(t, lo, hi, top, env, cfg, n, d);
      RunCopies(u, c, lo, next, CycleTop(hi, top, env, cfg), later, cfg, n, d);
      InsertedTwice(d, Copies(t, d), FailedInCycle(hi, env, cfg, n, k) + Finished(hi, n, next),
                    FailedInRun(next, later, c, cfg, n, k) + Finished(next, n, RunReached(next, later, c, cfg)));
    }
  }
  // --------------------------------------------------------------------- repair

  /** A healthy cycle goes on as far as the cap and the safe head allow, and fails nowhere. */
  lemma {:induction false} HealthyCycle(lo: nat, hi: nat, top: nat, env: Env, cfg: Config)
    requires Healthy(env, lo) && cfg.batch > 0 && 1 <= hi <= |env.chain| && hi <= top
    ensures var safe := Safe(env, cfg);
            && CycleReached(hi, env, cfg) == (if hi <= safe then Min(hi + FOLLOW_CYCLE_BLOCK_CAP, safe + 1) else hi)
            && (top <= safe + 1 ==> CycleReached(hi, env, cfg) <= CycleTop(hi, top, env, cfg) <= safe + 1)
            && forall n, k :: FailedInCycle(hi, env, cfg, n, k) == 0
  {
    TargetStartsAbove(hi, env, cfg);
    var target := CycleTarget(Some(hi - 1), env, cfg);
    if target.Some? {
      ReachedWithoutEvents(hi, target.value.to, cfg.batch);
      forall n, k ensures FailedAttempts(hi, target.value.to, cfg.batch, [], n, k) == 0 {
        NoFailureWithoutEvents(hi, target.value.to, cfg.batch, n, k);
      }
    }
  }

  lemma {:induction false} NoFailureWithoutEvents(start: nat, to: nat, batch: nat, n: nat, k: nat)
    requires batch > 0
    ensures FailedAttempts(start, to, batch, [], n, k) == 0
    decreases 1 + to - start
  {
    if start <= to { NoFailureWithoutEvents(ChunkEnd(start, to, batch) + 1, to, batch, n, k); }
  }

  /** How many capped cycles it takes to index from `hi` up to the safe head. */
  function CyclesLeft(hi: nat, env: Env, cfg: Config): nat
    requires env.head.Some?
  {
    CeilDiv(Max(0, Safe(env, cfg) + 1 - hi), FOLLOW_CYCLE_BLOCK_CAP)
  }

  /** Enough healthy cycles complete everything up to the safe head. */
  lemma {:induction false} HealthyRun(lo: nat, hi: nat, top: nat, env: Env, cfg: Config, m: nat, n: nat, k: nat)
    requires Healthy(env, lo) && cfg.batch > 0 && 1 <= hi <= top <= Safe(env, cfg) + 1
    requires m >= CyclesLeft(hi, env, cfg)
    ensures OnChain(Repeat(env, m), env.chain)
    ensures RunReached(hi, Repeat(env, m), env.chain, cfg) == Safe(env, cfg) + 1
    ensures RunTop(hi, top, Repeat(env, m), env.chain, cfg) <= Safe(env, cfg) + 1
    ensures FailedInRun(hi, Repeat(env, m), env.chain, cfg, n, k) == 0
    decreases m
  {
    if m > 0 {
      assert Repeat(env, m)[0] == env && Repeat(env, m)[1..] == Repeat(env, m - 1);
      HealthyCycle(lo, hi, top, env, cfg);
      hide CycleReached, CycleTop, FailedInCycle;
      HealthyRun(lo, CycleReached(hi, env, cfg), CycleTop(hi, top, env, cfg), env, cfg, m - 1, n, k);
    }
  }
  /**
   * Remains of failed chunks are repaired: on a healthy node the tables become those of an undisturbed
   * indexing, up to repeated trace rows.
   */
  lemma {:induction false} FailedChunksAreRepaired(t: Tables, lo: nat, hi: nat, top: nat, env: Env, cfg: Config, m: nat)
    requires Mendable(t, lo, hi, top, env, cfg, m)
    ensures Once(Run(t, Repeat(env, m), cfg)) == Store(env.chain, lo, Safe(env, cfg) + 1)
  {
    var c, end := env.chain, Safe(env, cfg) + 1;
    PartialFits(t, c, lo, hi, top);
    HealthyRun(lo, hi, top, env, cfg, m, 0, 0);
    RunKeepsPartial(t, c, lo, hi, top, Repeat(env, m), cfg);
    var u := Run(t, Repeat(env, m), cfg);
    hide Run, Store, CyclesLeft, Healthy, RunReached, RunTop;
    PartialEnd(u, c, lo, end, RunTop(hi, top, Repeat(env, m), c, cfg));
    PartialWithoutRemains(u, c, lo, end);
  }

  lemma PartialEnd(t: Tables, c: Chain, lo: nat, hi: nat, top: nat)
    requires Partial(t, c, lo, hi, top) && top <= hi
    ensures Partial(t, c, lo, hi, hi)
  {
  }

  predicate HasTraces(b: ChainBlock) {
    exists d :: d in b.rows && d.table.TraceLog?
  }

  /** How often the trace insert of block `n` ran in failed chunks of the run. */
  ghost function RepeatedTraces(hi: nat, envs: seq<Env>, c: Chain, cfg: Config, n: nat): nat
    requires cfg.batch > 0 && 1 <= hi <= |c| <= I64_MAX && OnChain(envs, c)
  {
    FailedInRun(hi, envs, c, cfg, n, StatementFor(TraceLog))
  }

  /**
   * A disturbed run on one chain from a store of it, whose remains lie below the safe head, and
   * then enough healthy cycles.
   */
  ghost predicate Repairable(c: Chain, lo: nat, hi: nat, history: seq<Env>, env: Env, cfg: Config, m: nat) {
    && Healthy(env, lo) && env.chain == c && cfg.batch > 0 && OnChain(history, c)
    && lo <= hi && 1 <= hi <= |c| <= I64_MAX && RunTop(hi, hi, history, c, cfg) <= Safe(env, cfg) + 1
    && m >= CyclesLeft(RunReached(hi, history, c, cfg), env, cfg)
  }

  /** The tables after the disturbed run. */
  ghost function Disturbed(c: Chain, lo: nat, hi: nat, history: seq<Env>, cfg: Config): Tables
    requires hi <= |c| && cfg.batch > 0 && OnChain(history, c)
  {
    Run(Store(c, lo, hi), history, cfg)
  }

  /** The tables after the repair. */
  ghost function Repaired(c: Chain, lo: nat, hi: nat, history: seq<Env>, env: Env, cfg: Config, m: nat): Tables
    requires Repairable(c, lo, hi, history, env, cfg, m)
  {
    Run(Disturbed(c, lo, hi, history, cfg), Repeat(env, m), cfg)
  }

  /**
   * A row after a disturbed run and its repair: once, or for a trace row once more for every failed
   * attempt that had inserted it.
   */
  lemma {:induction false} CopiesAfterRepair(
      c: Chain, lo: nat, hi: nat, history: seq<Env>, env: Env, cfg: Config, m: nat, n: nat, d: DepRow)
    requires Repairable(c, lo, hi, history, env, cfg, m)
    requires lo <= n <= Safe(env, cfg) && d in c[n].rows
    ensures Copies(Repaired(c, lo, hi, history, env, cfg, m), d)
         == if d.table.TraceLog? && n >= hi then 1 + RepeatedTraces(hi, history, c, cfg, n) else 1
  {
    hide Run, Store, RunReached, RunTop, FailedInRun, Partial, Copies, Inserted, StatementFor, CyclesLeft, Mendable,
        ChainOk, AllAnswered, Committed;
    var next, top, end := RunReached(hi, history, c, cfg), RunTop(hi, hi, history, c, cfg), Safe(env, cfg) + 1;
    var failed := FailedInRun(hi, history, c, cfg, n, StatementFor(d.table));
    var u, v := Disturbed(c, lo, hi, history, cfg), Repaired(c, lo, hi, history, env, cfg, m);
    var before, after := Copies(u, d), Copies(v, d);
    RepeatedOfTrace(hi, history, c, cfg, n, d);
    DisturbedIsMendable(c, lo, hi, history, env, cfg, m);
    HistoryCopies(c, lo, hi, history, cfg, n, d);
    RepairCopies(u, lo, next, top, env, cfg, m, n, d);
    InsertedOnce(d, hi, n, next, end, failed, before, after);
  }

  lemma RepeatedOfTrace(hi: nat, history: seq<Env>, c: Chain, cfg: Config, n: nat, d: DepRow)
    requires cfg.batch > 0 && 1 <= hi <= |c| <= I64_MAX && OnChain(history, c)
    ensures d.table.TraceLog? ==>
              FailedInRun(hi, history, c, cfg, n, StatementFor(d.table)) == RepeatedTraces(hi, history, c, cfg, n)
  {
  }

  /** Tables that enough healthy cycles complete. */
  ghost predicate Mendable(t: Tables, lo: nat, hi: nat, top: nat, env: Env, cfg: Config, m: nat) {
    && Healthy(env, lo) && cfg.batch > 0 && Partial(t, env.chain, lo, hi, top)
    && top <= Safe(env, cfg) + 1 && m >= CyclesLeft(hi, env, cfg)
  }

  lemma {:induction false} DisturbedIsMendable(
      c: Chain, lo: nat, hi: nat, history: seq<Env>, env: Env, cfg: Config, m: nat)
    requires Repairable(c, lo, hi, history, env, cfg, m)
    ensures var next, top := RunReached(hi, history, c, cfg), RunTop(hi, hi, history, c, cfg);
            Mendable(Disturbed(c, lo, hi, history, cfg), lo, next, top, env, cfg, m)
  {
    StoreIsPartial(c, lo, hi);
    hide Run, Store, RunReached, RunTop, Partial;
    RunKeepsPartial(Store(c, lo, hi), c, lo, hi, hi, history, cfg);
  }

  /** The rows a disturbed run leaves, from a store of the chain. */
  lemma {:induction false} HistoryCopies(c: Chain, lo: nat, hi: nat, history: seq<Env>, cfg: Config, n: nat, d: DepRow)
    requires ChainOk(c) && cfg.batch > 0 && OnChain(history, c)
    requires lo <= hi && 1 <= hi <= |c| <= I64_MAX && lo <= n < |c| && d in c[n].rows
    ensures var next, top := RunReached(hi, history, c, cfg), RunTop(hi, hi, history, c, cfg);
            var failed := FailedInRun(hi, history, c, cfg, n, StatementFor(d.table));
            var u := Disturbed(c, lo, hi, history, cfg);
            && Partial(u, c, lo, next, top) && next <= top <= |c|
            && Copies(u, d) == Inserted(d, if n < hi then 1 else 0, failed + Finished(hi, n, next))
            && (n < hi ==> failed == 0)
  {
    var t := Store(c, lo, hi);
    StoreIsPartial(c, lo, hi);
    CopiesInStore(c, lo, hi, n, d);
    hide Run, Store, RunReached, RunTop, FailedInRun, Partial, OnChain, Copies, Inserted, StatementFor;
    RunKeepsPartial(t, c, lo, hi, hi, history, cfg);
    RunCopies(t, c, lo, hi, hi, history, cfg, n, d);
    PartialFits(Run(t, history, cfg), c, lo, RunReached(hi, history, c, cfg), RunTop(hi, hi, history, c, cfg));
    if n < hi { NothingFailsBelow(hi, history, c, cfg, n, StatementFor(d.table)); }
  }

  /** A repair inserts the rows of the blocks that were left, once. */
  lemma {:induction false} RepairCopies(
      t: Tables, lo: nat, hi: nat, top: nat, env: Env, cfg: Config, m: nat, n: nat, d: DepRow)
    requires Mendable(t, lo, hi, top, env, cfg, m)
    requires n < |env.chain| && d in env.chain[n].rows
    ensures Copies(Run(t, Repeat(env, m), cfg), d) == Inserted(d, Copies(t, d), Finished(hi, n, Safe(env, cfg) + 1))
  {
    PartialFits(t, env.chain, lo, hi, top);
    HealthyRun(lo, hi, top, env, cfg, m, n, StatementFor(d.table));
    RunCopies(t, env.chain, lo, hi, top, Repeat(env, m), cfg, n, d);
  }

  lemma InsertedOnce(d: DepRow, hi: nat, n: nat, next: nat, end: nat, failed: nat, before: nat, after: nat)
    requires hi <= next <= end && n < end && (n < hi ==> failed == 0)
    requires before == Inserted(d, if n < hi then 1 else 0, failed + Finished(hi, n, next))
    requires after == Inserted(d, before, Finished(next, n, end))
    ensures after == if d.table.TraceLog? && n >= hi then 1 + failed else 1
  {
  }

  lemma CopiesInStore(c: Chain, lo: nat, hi: nat, n: nat, d: DepRow)
    requires ChainOk(c) && lo <= hi <= |c| && lo <= n < |c| && d in c[n].rows
    ensures Copies(Store(c, lo, hi), d) == if n < hi then 1 else 0
  {
    RowHasOneBlock(c, n, d);
    if n < hi { assert n in Heights(lo, hi); }
  }

  lemma {:induction false} NothingFailsBelow(hi: nat, envs: seq<Env>, c: Chain, cfg: Config, n: nat, k: nat)
    requires cfg.batch > 0 && n < hi && 1 <= hi <= |c| <= I64_MAX && OnChain(envs, c)
    ensures FailedInRun(hi, envs, c, cfg, n, k) == 0
    decreases |envs|
  {
    if envs != [] {
      CycleStaysOnChain(hi, envs[0], cfg);
      var target := CycleTarget(Some(hi - 1), envs[0], cfg);
      if target.Some? { NoAttemptBelow(hi, target.value.to, cfg.batch, envs[0].events, n, k); }
      hide CycleReached;
      NothingFailsBelow(CycleReached(hi, envs[0], cfg), envs[1..], c, cfg, n, k);
    }
  }

  lemma {:induction false} NoAttemptBelow(start: nat, to: nat, batch: nat, events: seq<ChunkEvent>, n: nat, k: nat)
    requires batch > 0 && n < start
    ensures FailedAttempts(start, to, batch, events, n, k) == 0
    decreases 1 + to - start
  {
    if start <= to {
      match NextEvent(events)
      case Cancel =>
      case Fail(done) => NoAttemptOutside(BlockRange(start, ChunkEnd(start, to, batch)), done, n, k);
      case Process => NoAttemptBelow(ChunkEnd(start, to, batch) + 1, to, batch, LaterEvents(events), n, k);
    }
  }

  lemma {:induction false} NoAttemptOutside(chunk: BlockRange, done: seq<(nat, nat)>, n: nat, k: nat)
    requires !chunk.Contains(n)
    ensures Attempts(chunk, done, n, k) == 0
  {
    if done != [] { NoAttemptOutside(chunk, done[1..], n, k); }
  }

  /**
   * The repaired tables against an undisturbed indexing: blocks, transactions and the four tables
   * with a conflict clause always agree; the trace table agrees if and only if no failed attempt had
   * inserted the trace of a block that has one.
   */
  lemma {:induction false} RepairIsExactIff(
      c: Chain, lo: nat, hi: nat, history: seq<Env>, env: Env, cfg: Config, m: nat)
    requires Repairable(c, lo, hi, history, env, cfg, m)
    ensures var u, s := Repaired(c, lo, hi, history, env, cfg, m), Store(c, lo, Safe(env, cfg) + 1);
            && Once(u) == s
            && (u == s <==> forall n :: hi <= n <= Safe(env, cfg) && HasTraces(c[n]) ==>
                             RepeatedTraces(hi, history, c, cfg, n) == 0)
  {
    var end := Safe(env, cfg) + 1;
    var u := Repaired(c, lo, hi, history, env, cfg, m);
    var repeated := RepeatedUpTo(hi, history, c, cfg, end);
    assert OnChain(history, c) && ChainOk(c) && end <= |c|;
    hide Run, RunReached, RunTop, Partial, Repairable, OnChain, RepeatedTraces, ChainOk, Store, Copies, Repaired;
    RepairedOnce(c, lo, hi, history, env, cfg, m);
    forall n, d | lo <= n < end && d in c[n].rows
      ensures Copies(u, d) == if d.table.TraceLog? && n >= hi then 1 + repeated[n] else 1
    {
      CopiesAfterRepair(c, lo, hi, history, env, cfg, m, n, d);
    }
    ExactIff(c, lo, hi, end, u, repeated);
  }

  lemma {:induction false} RepairedOnce(c: Chain, lo: nat, hi: nat, history: seq<Env>, env: Env, cfg: Config, m: nat)
    requires Repairable(c, lo, hi, history, env, cfg, m)
    ensures Once(Repaired(c, lo, hi, history, env, cfg, m)) == Store(c, lo, Safe(env, cfg) + 1)
  {
    StoreIsPartial(c, lo, hi);
    hide Run, Store, RunReached, RunTop, Partial, Healthy, OnChain, CyclesLeft;
    RunKeepsPartial(Store(c, lo, hi), c, lo, hi, hi, history, cfg);
    FailedChunksAreRepaired(Run(Store(c, lo, hi), history, cfg), lo, RunReached(hi, history, c, cfg),
                            RunTop(hi, hi, history, c, cfg), env, cfg, m);
  }

  ghost function RepeatedUpTo(hi: nat, history: seq<Env>, c: Chain, cfg: Config, end: nat): (r: seq<nat>)
    requires cfg.batch > 0 && 1 <= hi <= |c| <= I64_MAX && OnChain(history, c)
    ensures |r| == end && forall n :: 0 <= n < end ==> r[n] == RepeatedTraces(hi, history, c, cfg, n)
  {
    seq(end, n requires 0 <= n => RepeatedTraces(hi, history, c, cfg, n))
  }

  /** Tables with the chain's rows equal the chain's tables exactly when no trace row is repeated. */
  lemma {:induction false} ExactIff(c: Chain, lo: nat, hi: nat, end: nat, u: Tables, repeated: seq<nat>)
    requires ChainOk(c) && end <= |c| && Once(u) == Store(c, lo, end) && |repeated| == end
    requires forall n, d :: lo <= n < end && d in c[n].rows ==>
               Copies(u, d) == if d.table.TraceLog? && n >= hi then 1 + repeated[n] else 1
    requires lo <= hi
    ensures u == Store(c, lo, end) <==> forall n :: hi <= n < end && HasTraces(c[n]) ==> repeated[n] == 0
  {
    if u == Store(c, lo, end) {
      forall n | hi <= n < end && HasTraces(c[n]) ensures repeated[n] == 0 {
        var d :| d in c[n].rows && d.table.TraceLog?;
        CopiesInStore(c, lo, end, n, d);
      }
    }
    if forall n :: hi <= n < end && HasTraces(c[n]) ==> repeated[n] == 0 {
      forall d | d in u.dependents ensures u.dependents[d] == 1 {
        assert d in Once(u).dependents;
        var n := BlockOfRow(c, lo, end, d);
        assert Copies(u, d) == 1;
      }
      OnceIsSame(u);
    }
  }

  lemma OnceIsSame(t: Tables)
    requires forall d :: d in t.dependents ==> t.dependents[d] == 1
    ensures Once(t) == t
  {
  }

  lemma BlockOfRow(c: Chain, lo: nat, hi: nat, d: DepRow) returns (n: nat)
    requires hi <= |c| && d in Store(c, lo, hi).dependents
    ensures lo <= n < hi && d in c[n].rows
  {
    n :| n in Heights(lo, hi) && d in c[n].rows;
  }

  // ------------------------------------------------------- a reorg over the remains

  lemma RowsOfOneBlock(t: Tables, c: Chain, lo: nat, top: nat, n: nat, x: TxHash)
    requires ChainOk(c) && top <= |c| && Within(t, c, lo, top) && n < |c| && x in c[n].txs
    ensures forall r :: r in t.transaction && r.tx == x ==> r.block == n
  {
  }

  lemma RollbackStaysWithin(t: Tables, c: Chain, lo: nat, top: nat, f: nat)
    requires ChainOk(c) && lo <= f <= top <= |c| && Within(t, c, lo, top) && Integrity(t)
    ensures Within(Rollback(t, f), c, lo, f)
  {
    RollbackMeaning(t, f);
    var u := Rollback(t, f);
    forall d | d in u.dependents ensures exists n :: lo <= n < f && d in c[n].rows {
      var n :| lo <= n < top && d in c[n].rows;
      assert BlockOk(c[n]);
      RowsOfOneBlock(t, c, lo, top, n, d.tx);
      var r :| r in t.transaction && r.tx == d.tx;
      assert d.tx !in TxsFrom(t, f);
    }
  }

  lemma RollbackKeepsCovered(t: Tables, c: Chain, lo: nat, top: nat, f: nat, n: nat)
    requires ChainOk(c) && top <= |c| && Within(t, c, lo, top) && n < f <= top
    ensures Covered(Rollback(t, f), c, n) <==> Covered(t, c, n)
  {
    RollbackMeaning(t, f);
    var u := Rollback(t, f);
    hide Rollback, ChainOk;
    if Covered(t, c, n) {
      forall x | x in c[n].txs ensures KnownTx(u, x) && x !in TxsFrom(t, f) {
        RowsOfOneBlock(t, c, lo, top, n, x);
        var r :| r in t.transaction && r.tx == x;
        assert r in u.transaction;
      }
      assert BlockOk(c[n]) by { BlocksAreOk(c, n); }
    }
    assert forall r :: r in u.transaction ==> r in t.transaction;
  }

  lemma BlocksAreOk(c: Chain, n: nat)
    requires ChainOk(c) && n < |c|
    ensures BlockOk(c[n])
  {
  }

  lemma OnceCovers(t: Tables, c: Chain)
    ensures forall n :: 0 <= n < |c| ==> (Covered(Once(t), c, n) <==> Covered(t, c, n))
  {
    assert Once(t).dependents.Keys == t.dependents.Keys;
  }

  lemma CheckpointAfterRollback(t: Tables, fork: nat)
    requires t.checkpoint.Some? && fork >= 1
    ensures Rollback(t, fork).checkpoint == Some(fork - 1)
  {
    RollbackMeaning(t, fork);
  }

  /**
   * A reorg that meets the remains of failed chunks. The rollback leaves exactly the tables of
   * `[lo, fork)` if and only if every block between the checkpoint and the fork happens to be complete;
   * a fork at or below the next block to index is always fine.
   */
  lemma RollbackOfPartialIsStoreIff(t: Tables, c: Chain, lo: nat, hi: nat, top: nat, fork: nat)
    requires ChainOk(c) && Partial(t, c, lo, hi, top) && Integrity(t) && lo <= fork <= top && 1 <= fork
    ensures Once(Rollback(t, fork)) == Store(c, lo, fork) <==> forall n :: hi <= n < fork ==> Covered(t, c, n)
  {
    hide Rollback, Store, ChainOk, Within, Covered, Once, Integrity, RolledBack;
    var u := Rollback(t, fork);
    CheckpointAfterRollback(t, fork);
    RollbackStaysWithin(t, c, lo, top, fork);
    StoreIsPartial(c, lo, fork);
    OnceCovers(u, c);
    forall n | lo <= n < fork ensures Covered(u, c, n) <==> Covered(t, c, n) {
      RollbackKeepsCovered(t, c, lo, top, fork, n);
    }
    if forall n :: hi <= n < fork ==> Covered(t, c, n) {
      PartialWithoutRemains(u, c, lo, fork);
    }
  }

  // ---------------------------------------------- foreign keys over all runs

  ghost predicate KeysHold(t: Tables) {
    Integrity(t) && UniqueTx(t)
  }

  lemma {:induction false} IngestAllKeepsKeys(t: Tables, c: Chain, order: seq<nat>)
    requires KeysHold(t) && ChainOk(c) && forall i :: 0 <= i < |order| ==> order[i] < |c|
    ensures KeysHold(IngestAll(t, c, order))
    decreases |order|
  {
    if order != [] {
      BlocksAreOk(c, order[0]);
      EveryInsertKeepsIntegrity(t, order[0], c[order[0]], 7);
      hide KeysHold, Integrity, UniqueTx, ChainOk;
      assert KeysHold(Ingest(t, order[0], c[order[0]])) by { KeysHoldMeans(Ingest(t, order[0], c[order[0]])); }
      IngestAllKeepsKeys(Ingest(t, order[0], c[order[0]]), c, order[1..]);
    }
  }

  lemma KeysHoldMeans(t: Tables)
    ensures KeysHold(t) <==> Integrity(t) && UniqueTx(t)
  {
  }

  lemma {:induction false} IngestSomeKeepsKeys(t: Tables, c: Chain, chunk: BlockRange, done: seq<(nat, nat)>)
    requires KeysHold(t) && ChainOk(c)
    ensures KeysHold(IngestSome(t, c, chunk, done))
    decreases |done|
  {
    if done != [] {
      var (n, k) := done[0];
      if n < |c| && chunk.Contains(n) && k <= 7 {
        BlocksAreOk(c, n);
        EveryInsertKeepsIntegrity(t, n, c[n], k);
        KeysHoldMeans(IngestPrefix(t, n, c[n], k));
        hide KeysHold, Integrity, UniqueTx, ChainOk;
        IngestSomeKeepsKeys(IngestPrefix(t, n, c[n], k), c, chunk, done[1..]);
      } else {
        IngestSomeKeepsKeys(t, c, chunk, done[1..]);
      }
    }
  }

  lemma {:induction false} IndexFromKeepsKeys(
      t: Tables, c: Chain, start: nat, to: nat, batch: nat, events: seq<ChunkEvent>)
    requires KeysHold(t) && ChainOk(c) && batch > 0 && to < |c|
    ensures KeysHold(IndexFrom(t, c, start, to, batch, events).0)
    decreases 1 + to - start
  {
    if start <= to {
      var end := ChunkEnd(start, to, batch);
      match NextEvent(events)
      case Cancel =>
      case Fail(done) => IngestSomeKeepsKeys(t, c, BlockRange(start, end), done);
      case Process =>
        IngestAllKeepsKeys(t, c, Range(start, end + 1));
        assert KeysHold(IndexChunk(t, c, start, end));
        hide KeysHold, IndexChunk, ChainOk;
        IndexFromKeepsKeys(IndexChunk(t, c, start, end), c, end + 1, to, batch, LaterEvents(events));
    }
  }

  lemma CycleKeepsKeys(t: Tables, env: Env, cfg: Config)
    requires KeysHold(t) && EnvOk(env) && cfg.batch > 0
    ensures KeysHold(Cycle(t, env, cfg).0)
  {
    match ScanTables(t, REORG_SCAN_CAP, env.chain, env.down)
    case Some(fork) =>
      EveryDeleteKeepsIntegrity(t, fork, 8);
    case None =>
      match CycleTarget(t.checkpoint, env, cfg)
      case None =>
      case Some(r) =>
        ReadableChain(env);
        IndexFromKeepsKeys(t, Readable(env), r.from, r.to, cfg.batch, env.events);
  }

  /**
   * Over every run whatsoever, with chains replaced at will, lookups failing and chunks
   * failing at any statement, the foreign keys and the transaction key hold.
   */
  lemma {:induction false} RunKeepsKeys(t: Tables, envs: seq<Env>, cfg: Config)
    requires KeysHold(t) && cfg.batch > 0 && forall i :: 0 <= i < |envs| ==> EnvOk(envs[i])
    ensures KeysHold(Run(t, envs, cfg))
    decreases |envs|
  {
    hide KeysHold, Cycle, EnvOk;
    if envs != [] {
      CycleKeepsKeys(t, envs[0], cfg);
      RunKeepsKeys(Cycle(t, envs[0], cfg).0, envs[1..], cfg);
    }
  }
}
