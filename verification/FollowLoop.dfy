/**
 * The follow loop over whole runs. The environment may replace the chain, lose lookups, hide
 * the head, withhold receipts and traces, or cancel and fail chunks; the loop's tables are
 * compared with the tables that indexing one chain would give.
 */
module FollowLoop {
  import opened Options
  import opened ForkScanning
  import opened ChainTables
  import opened Indexing
  import opened IndexedStore

  const REORG_SCAN_CAP: nat := 4096
  const FOLLOW_CYCLE_BLOCK_CAP: nat := 500

  datatype Config = Config(confirmations: nat, batch: nat)

  /**
   * What one cycle sees: the node's chain, the failing lookups, the head, the fate of each chunk,
   * the blocks served without receipts and the transactions whose trace is unavailable.
   */
  datatype Env = Env(
    chain: Chain,
    down: set<nat>,
    head: Option<nat>,
    events: seq<ChunkEvent>,
    noReceipts: set<nat>,
    noTrace: set<TxHash>)

  ghost predicate EnvOk(env: Env) {
    && ChainOk(env.chain) && |env.chain| <= I64_MAX
    && (env.head.Some? ==> env.head.value < |env.chain|)
  }

  /** No chunk fails half-way; cancellation is still possible. */
  ghost predicate Steady(env: Env) {
    EnvOk(env) && NoFailure(env.events)
  }

  /** Every receipt and every trace is served. */
  predicate Lossless(env: Env) {
    env.noReceipts == {} && env.noTrace == {}
  }

  /** The blocks as this cycle can read them. */
  function Readable(env: Env): (c: Chain)
    ensures |c| == |env.chain|
    ensures forall n :: 0 <= n < |c| ==> c[n].hash == env.chain[n].hash && c[n].parent == env.chain[n].parent
  {
    Served(env.chain, env.noReceipts, env.noTrace)
  }

  lemma ReadableChain(env: Env)
    requires EnvOk(env)
    ensures ChainOk(Readable(env)) && (Lossless(env) ==> Readable(env) == env.chain)
  {
    ServedIsOk(env.chain, env.noReceipts, env.noTrace);
    ServedInFull(env.chain);
  }

  datatype Outcome = Reorged | HeadUnavailable | Idle | Indexing(signal: Signal)

  /** The capped range a cycle would index; none when the head is unknown or nothing is confirmed. */
  function CycleTarget(checkpoint: Option<int>, env: Env, cfg: Config): Option<BlockRange> {
    if env.head.None? then None
    else
      match NextTarget(env.head.value, cfg.confirmations, checkpoint)
      case None => None
      case Some(r) => Some(CapRangeTo(r, FOLLOW_CYCLE_BLOCK_CAP))
  }

  ghost function Cycle(t: Tables, env: Env, cfg: Config): (Tables, Outcome)
    requires cfg.batch > 0 && EnvOk(env)
  {
    match ScanTables(t, REORG_SCAN_CAP, env.chain, env.down)
    case Some(fork) => (Rollback(t, fork), Reorged)
    case None =>
      if env.head.None? then (t, HeadUnavailable)
      else
        match CycleTarget(t.checkpoint, env, cfg)
        case None => (t, Idle)
        case Some(r) =>
          var (u, signal) := IndexFrom(t, Readable(env), r.from, r.to, cfg.batch, env.events);
          (u, Indexing(signal))
  }

  /** How the cycle ends for the loop: only `Finished` lets it go on. */
  function SignalOf(o: Outcome): Signal {
    match o
    case HeadUnavailable => Failed
    case Indexing(signal) => signal
    case _ => Finished
  }

  /** Where indexing starts: at the safe tip, or with a checkpoint right above it. */
  function FirstBlock(checkpoint: Option<int>, head: nat, confirmations: nat): nat {
    if checkpoint.Some? then Max(checkpoint.value, 0) + 1 else Max(head - confirmations, 0)
  }

  /** Where it ends: at the safe tip, or when the cycle has its number of blocks. */
  function LastBlock(first: nat, head: nat, confirmations: nat): nat {
    Min(Max(head - confirmations, 0), first + FOLLOW_CYCLE_BLOCK_CAP - 1)
  }

  /** The safe tip of a fresh database is always new; otherwise the next block must be confirmed. */
  predicate SomethingToIndex(checkpoint: Option<int>, head: nat, confirmations: nat) {
    checkpoint.Some? ==> FirstBlock(checkpoint, head, confirmations) + confirmations <= head
  }

  lemma TargetOfCycle(checkpoint: Option<int>, env: Env, cfg: Config)
    requires EnvOk(env) && env.head.Some? && (checkpoint.Some? ==> checkpoint.value < I64_MAX)
    ensures var target := CycleTarget(checkpoint, env, cfg);
            var first := FirstBlock(checkpoint, env.head.value, cfg.confirmations);
            var last := LastBlock(first, env.head.value, cfg.confirmations);
            && (target.Some? <==> SomethingToIndex(checkpoint, env.head.value, cfg.confirmations))
            && (target.Some? ==> target.value == BlockRange(first, last) && first <= last < |env.chain|)
  {
    hide ChainOk;
  }

  /**
   * Why a cycle ends as it does. A reorg and an idle cycle let the loop go on, a missing head ends
   * it; an indexing cycle ends it exactly if a chunk of its range was cancelled or failed, which the
   * first event other than `Process` decides.
   */
  lemma OutcomeMeaning(t: Tables, env: Env, cfg: Config, c: nat)
    requires EnvOk(env) && cfg.batch > 0 && StopsAfter(env.events, c)
    requires t.checkpoint.Some? ==> t.checkpoint.value < I64_MAX
    ensures var o := Cycle(t, env, cfg).1;
            if ScanTables(t, REORG_SCAN_CAP, env.chain, env.down).Some? then o.Reorged? && SignalOf(o).Finished?
            else if env.head.None? then o.HeadUnavailable? && SignalOf(o).Failed?
            else if !SomethingToIndex(t.checkpoint, env.head.value, cfg.confirmations) then
              o.Idle? && SignalOf(o).Finished?
            else
              var first := FirstBlock(t.checkpoint, env.head.value, cfg.confirmations);
              var last := LastBlock(first, env.head.value, cfg.confirmations);
              var stopped := c < |env.events| && first + c * cfg.batch <= last;
              && o.Indexing?
              && (SignalOf(o).Finished? <==> !stopped)
              && (SignalOf(o).Cancelled? <==> stopped && env.events[c].Cancel?)
  {
    hide ScanTables, IndexFrom, CycleTarget, ChainOk, SomethingToIndex;
    if ScanTables(t, REORG_SCAN_CAP, env.chain, env.down).None? && env.head.Some? {
      TargetOfCycle(t.checkpoint, env, cfg);
      var target := CycleTarget(t.checkpoint, env, cfg);
      if target.Some? {
        SignalExactly(t, Readable(env), target.value.from, target.value.to, cfg.batch, env.events, c);
      }
    }
  }

  // ----------------------------------------------------------- one cycle on a store

  /** The newest stored hash, if any, is the chain's. */
  ghost predicate TipAgrees(t: Tables, chain: Chain) {
    var hashed := HashedHeights(t.block);
    hashed == {} || (var m := MaxKey(hashed); m < |chain| && t.block[m].hash == Some(chain[m].hash))
  }

  /**
   * A cycle is sound when it does not build on a stale tip: its tip agrees, or the scan reports
   * a fork, or there is nothing to index.
   */
  ghost predicate SoundCycle(t: Tables, env: Env, cfg: Config) {
    || TipAgrees(t, env.chain)
    || ScanTables(t, REORG_SCAN_CAP, env.chain, env.down).Some?
    || CycleTarget(t.checkpoint, env, cfg).None?
  }

  /** Both chains start alike: the store does not reach down to a genesis block that changed. */
  predicate RootAgrees(a: Chain, b: Chain, lo: nat) {
    lo >= 1 || Agree(a, b, 0)
  }

  lemma TipOfStore(a: Chain, lo: nat, hi: nat, b: Chain)
    requires lo <= hi <= |a|
    ensures TipAgrees(Store(a, lo, hi), b) <==> lo == hi || Agree(a, b, hi - 1)
  {
    assert HashedHeights(Store(a, lo, hi).block) == Heights(lo, hi);
    if lo < hi {
      assert hi - 1 in Heights(lo, hi);
      assert MaxKey(Heights(lo, hi)) == hi - 1;
    }
  }

  lemma TargetOfStore(a: Chain, lo: nat, hi: nat, env: Env, cfg: Config)
    requires 1 <= hi <= |a| <= I64_MAX && EnvOk(env)
    ensures var target := CycleTarget(Store(a, lo, hi).checkpoint, env, cfg);
            && (target.None? <==> env.head.None? || SaturatingSub(env.head.value, cfg.confirmations) < hi)
            && (target.Some? ==>
                  target.value == BlockRange(hi,
                      Min(hi + FOLLOW_CYCLE_BLOCK_CAP - 1, SaturatingSub(env.head.value, cfg.confirmations))))
  {
  }

  lemma StoreOfAgreeingChains(a: Chain, b: Chain, lo: nat, hi: nat)
    requires ChainOk(a) && ChainOk(b) && Committed(a, b) && lo <= hi <= |a| && (lo < hi ==> Agree(a, b, hi - 1))
    requires hi <= |b|
    ensures Store(a, lo, hi) == Store(b, lo, hi)
  {
    if lo < hi {
      AgreeBelow(a, b, hi - 1);
      forall n | n in Heights(lo, hi) ensures a[n] == b[n] {
        assert a[n] == a[..hi][n] == b[..hi][n];
      }
    }
    IndexedDependsOnlyOnBlocks(a, b, Heights(lo, hi), Some(hi - 1));
  }

  /**
   * A sound cycle turns the store of one chain into the store of one chain: the lower part of
   * the same chain after a rollback, the same store when idle, the longer store of the node's
   * chain after indexing.
   */
  lemma {:induction false} SoundCycleKeepsStore(a: Chain, lo: nat, hi: nat, env: Env, cfg: Config)
    requires ChainOk(a) && Steady(env) && Lossless(env) && Committed(a, env.chain) && cfg.batch > 0
    requires lo <= hi && 1 <= hi <= |a| <= I64_MAX && RootAgrees(a, env.chain, lo)
    requires SoundCycle(Store(a, lo, hi), env, cfg)
    ensures var t := Store(a, lo, hi);
            var after := Cycle(t, env, cfg).0;
            var scan := ScanTables(t, REORG_SCAN_CAP, env.chain, env.down);
            var target := CycleTarget(t.checkpoint, env, cfg);
            if scan.Some? then
              var f := Max(ForkPoint(a, env.chain, lo, hi), hi - REORG_SCAN_CAP);
              scan.value == f && lo <= f < hi && 1 <= f && after == Store(a, lo, f)
            else if target.None? then after == t
            else
              var next := Reached(hi, target.value.to, cfg.batch, env.events);
              hi <= next <= |env.chain| && after == Store(env.chain, lo, next)
  {
    hide ChainOk, Committed, ScanTables, Rollback, IndexFrom, TipAgrees, NextTarget;
    var t := Store(a, lo, hi);
    ReadableChain(env);
    ScanOfStore(a, env.chain, env.down, lo, hi, REORG_SCAN_CAP);
    TargetOfStore(a, lo, hi, env, cfg);
    var scan := ScanTables(t, REORG_SCAN_CAP, env.chain, env.down);
    var target := CycleTarget(t.checkpoint, env, cfg);
    if scan.Some? {
      if lo == 0 {
        ForkPointSplits(a, env.chain, lo, hi, 0);
      }
      RollbackOfStore(a, lo, hi, scan.value);
    } else if target.Some? {
      TipOfStore(a, lo, hi, env.chain);
      StoreOfAgreeingChains(a, env.chain, lo, hi);
      IndexFromExtendsStore(env.chain, lo, hi, target.value.to, cfg.batch, env.events);
    }
  }

  // ------------------------------------------ losses do not move blocks or the checkpoint

  ghost predicate SameBlocks(t: Tables, u: Tables) {
    t.block == u.block && t.checkpoint == u.checkpoint
  }

  ghost predicate SameHeaders(c: Chain, d: Chain) {
    |c| == |d| && forall n :: 0 <= n < |c| ==> Row(c[n]) == Row(d[n])
  }

  lemma {:induction false} IngestAllSameBlocks(t: Tables, u: Tables, c: Chain, d: Chain, order: seq<nat>)
    requires SameBlocks(t, u) && SameHeaders(c, d) && forall i :: 0 <= i < |order| ==> order[i] < |c|
    ensures SameBlocks(IngestAll(t, c, order), IngestAll(u, d, order))
    decreases |order|
  {
    if order != [] {
      var n := order[0];
      IngestMeaning(t, n, c[n]);
      IngestMeaning(u, n, d[n]);
      hide Ingest;
      IngestAllSameBlocks(Ingest(t, n, c[n]), Ingest(u, n, d[n]), c, d, order[1..]);
    }
  }

  lemma {:induction false} IngestSomeSameBlocks(
      t: Tables, u: Tables, c: Chain, d: Chain, chunk: BlockRange, done: seq<(nat, nat)>)
    requires SameBlocks(t, u) && SameHeaders(c, d)
    ensures SameBlocks(IngestSome(t, c, chunk, done), IngestSome(u, d, chunk, done))
    decreases |done|
  {
    if done != [] {
      var (n, k) := done[0];
      if n < |c| && chunk.Contains(n) && k <= 7 {
        IngestPrefixState(t, n, c[n], k);
        IngestPrefixState(u, n, d[n], k);
        hide IngestPrefix;
        IngestSomeSameBlocks(IngestPrefix(t, n, c[n], k), IngestPrefix(u, n, d[n], k), c, d, chunk, done[1..]);
      } else {
        IngestSomeSameBlocks(t, u, c, d, chunk, done[1..]);
      }
    }
  }

  lemma {:induction false} IndexFromSameBlocks(
      t: Tables, u: Tables, c: Chain, d: Chain, start: nat, to: nat, batch: nat, events: seq<ChunkEvent>)
    requires SameBlocks(t, u) && SameHeaders(c, d) && batch > 0 && to < |c|
    ensures SameBlocks(IndexFrom(t, c, start, to, batch, events).0, IndexFrom(u, d, start, to, batch, events).0)
    decreases 1 + to - start
  {
    if start <= to {
      hide SameHeaders;
      var end := ChunkEnd(start, to, batch);
      assert |c| == |d| by { HeadersHaveOneLength(c, d); }
      match NextEvent(events)
      case Cancel =>
      case Fail(done) => IngestSomeSameBlocks(t, u, c, d, BlockRange(start, end), done);
      case Process =>
        IngestAllSameBlocks(t, u, c, d, Range(start, end + 1));
        IndexFromSameBlocks(IndexChunk(t, c, start, end), IndexChunk(u, d, start, end), c, d, end + 1, to, batch,
                            LaterEvents(events));
    }
  }

  lemma HeadersHaveOneLength(c: Chain, d: Chain)
    requires SameHeaders(c, d)
    ensures |c| == |d|
  {
  }

  /** The same cycle with everything served. */
  function InFull(env: Env): Env {
    env.(noReceipts := {}, noTrace := {})
  }

  lemma CycleSameBlocks(t: Tables, u: Tables, env: Env, cfg: Config)
    requires SameBlocks(t, u) && EnvOk(env) && cfg.batch > 0
    ensures SameBlocks(Cycle(t, env, cfg).0, Cycle(u, InFull(env), cfg).0)
  {
    assert SameHeaders(Readable(env), Readable(InFull(env)));
    match ScanTables(t, REORG_SCAN_CAP, env.chain, env.down)
    case Some(fork) =>
      RollbackMeaning(t, fork);
      RollbackMeaning(u, fork);
    case None =>
      match CycleTarget(t.checkpoint, env, cfg)
      case None =>
      case Some(r) => IndexFromSameBlocks(t, u, Readable(env), Readable(InFull(env)), r.from, r.to, cfg.batch,
          env.events);
  }

  // ----------------------------------------------------- when a cycle breaks the link

  /** Adjacent stored blocks are linked by their parent hash. */
  ghost predicate StoreLinked(t: Tables) {
    forall n :: n in t.block && n + 1 in t.block ==> t.block[n + 1].parent == t.block[n].hash
  }

  lemma RowsOfOneChainAreLinked(t: Tables, c: Chain)
    requires ChainOk(c) && forall n :: n in t.block ==> n < |c| && t.block[n] == Row(c[n])
    ensures StoreLinked(t)
  {
  }

  /** A cycle that is not sound indexes above its stale tip. */
  lemma {:induction false} UnsoundCycleIndexes(a: Chain, lo: nat, hi: nat, env: Env, cfg: Config)
    requires EnvOk(env) && cfg.batch > 0 && lo < hi <= |a| <= I64_MAX && !SoundCycle(Store(a, lo, hi), env, cfg)
    ensures var t := Store(a, lo, hi);
            var target := CycleTarget(t.checkpoint, env, cfg);
            && target.Some? && hi <= target.value.to < |env.chain| && a[hi - 1].hash != env.chain[hi - 1].hash
            && Cycle(t, env, cfg).0 == IndexFrom(t, Readable(env), hi, target.value.to, cfg.batch, env.events).0
  {
    hide ScanTables, IndexFrom, Rollback, TipAgrees, NextTarget, ChainOk, Store;
    TipOfStore(a, lo, hi, env.chain);
    TargetOfStore(a, lo, hi, env, cfg);
  }

  /** Whether a cycle that starts at block `hi` stores its row. */
  predicate StoresNext(env: Env, cfg: Config, hi: nat)
    requires cfg.batch > 0 && 1 <= hi <= I64_MAX
  {
    var target := CycleTarget(Some(hi - 1), env, cfg);
    target.Some? && StoresFirst(hi, target.value.to, cfg.batch, env.events)
  }

  lemma {:induction false} UnsoundCycleKeepsLinkIff(a: Chain, lo: nat, hi: nat, env: Env, cfg: Config)
    requires ChainOk(a) && EnvOk(env) && cfg.batch > 0 && lo < hi <= |a| <= I64_MAX
    requires !SoundCycle(Store(a, lo, hi), env, cfg)
    ensures StoreLinked(Cycle(Store(a, lo, hi), env, cfg).0) <==> !StoresNext(env, cfg, hi)
  {
    hide IndexFrom, SoundCycle, Cycle, CycleTarget, StoresFirst, Readable;
    var t, served := Store(a, lo, hi), Readable(env);
    UnsoundCycleIndexes(a, lo, hi, env, cfg);
    var to := CycleTarget(t.checkpoint, env, cfg).value.to;
    var u := IndexFrom(t, served, hi, to, cfg.batch, env.events).0;
    FirstBlockIsStoredIff(t, served, hi, to, cfg.batch, env.events);
    IndexFromAdds(t, served, hi, to, cfg.batch, env.events);
    assert forall n :: n in t.block ==> lo <= n < hi && t.block[n] == Row(a[n]);
    assert hi - 1 in t.block;
    LinkedAboveStaleTip(a, t, u, env.chain, served, hi, to);
  }

  /** Rows of one chain below `hi` and of another from `hi` on: the only link that can fail is the one between them. */
  lemma LinkedAboveStaleTip(a: Chain, t: Tables, u: Tables, b: Chain, served: Chain, hi: nat, to: nat)
    requires ChainOk(a) && ChainOk(b) && 1 <= hi <= |a| && hi < |b| && Adds(t, u, served, hi, to) && hi - 1 in t.block
    requires forall n :: n in t.block ==> n < hi && t.block[n] == Row(a[n])
    requires |served| == |b| && forall n :: 0 <= n < |b| ==> Row(served[n]) == Row(b[n])
    requires a[hi - 1].hash != b[hi - 1].hash
    ensures StoreLinked(u) <==> hi !in u.block
  {
    assert forall n :: n in u.block ==> u.block[n] == if n < hi then Row(a[n]) else Row(b[n]);
    assert b[hi].parent == b[hi - 1].hash;
    assert hi - 1 in u.block;
    assert hi - 1 + 1 == hi;
  }

  lemma {:induction false} SoundCycleKeepsLink(a: Chain, lo: nat, hi: nat, env: Env, cfg: Config)
    requires ChainOk(a) && EnvOk(env) && Committed(a, env.chain) && cfg.batch > 0
    requires lo < hi <= |a| <= I64_MAX && SoundCycle(Store(a, lo, hi), env, cfg)
    ensures StoreLinked(Cycle(Store(a, lo, hi), env, cfg).0)
  {
    hide IndexFrom, Rollback, StoreLinked, ChainOk, Committed, TipAgrees, ScanTables, NextTarget, Readable;
    var t := Store(a, lo, hi);
    var u := Cycle(t, env, cfg).0;
    var scan, target := ScanTables(t, REORG_SCAN_CAP, env.chain, env.down), CycleTarget(t.checkpoint, env, cfg);
    assert forall n :: n in t.block ==> lo <= n < hi && t.block[n] == Row(a[n]);
    TargetOfStore(a, lo, hi, env, cfg);
    if scan.Some? {
      RollbackMeaning(t, scan.value);
      RowsOfOneChainAreLinked(u, a);
    } else if target.None? {
      RowsOfOneChainAreLinked(u, a);
    } else {
      TipOfStore(a, lo, hi, env.chain);
      AgreeBelow(a, env.chain, hi - 1);
      assert forall n :: 0 <= n < hi ==> a[n] == a[..hi][n] == env.chain[..hi][n] == env.chain[n];
      IndexFromAdds(t, Readable(env), hi, target.value.to, cfg.batch, env.events);
      assert forall n :: 0 <= n < |env.chain| ==> Row(Readable(env)[n]) == Row(env.chain[n]);
      RowsOfOneChainAreLinked(u, env.chain);
    }
  }

  /**
   * The stored rows stay hash-linked through a cycle exactly when the cycle is sound or does not
   * get as far as storing the next block. A lookup that fails while the tip is stale makes the scan
   * answer nothing, and the cycle then indexes on top of the stale tip.
   */
  lemma {:induction false} CycleKeepsLinkIff(a: Chain, lo: nat, hi: nat, env: Env, cfg: Config)
    requires ChainOk(a) && EnvOk(env) && Committed(a, env.chain) && cfg.batch > 0
    requires lo < hi <= |a| <= I64_MAX
    ensures StoreLinked(Cycle(Store(a, lo, hi), env, cfg).0)
       <==> SoundCycle(Store(a, lo, hi), env, cfg) || !StoresNext(env, cfg, hi)
  {
    hide StoreLinked, ChainOk, Committed, Cycle, SoundCycle, StoresNext, Store;
    if SoundCycle(Store(a, lo, hi), env, cfg) {
      SoundCycleKeepsLink(a, lo, hi, env, cfg);
    } else {
      UnsoundCycleKeepsLinkIff(a, lo, hi, env, cfg);
    }
  }

  // --------------------------------------------------------------------- runs

  ghost function Run(t: Tables, envs: seq<Env>, cfg: Config): Tables
    requires cfg.batch > 0 && forall i :: 0 <= i < |envs| ==> EnvOk(envs[i])
    decreases |envs|
  {
    if envs == [] then t
    else
      assert EnvOk(envs[0]);
      Run(Cycle(t, envs[0], cfg).0, envs[1..], cfg)
  }

  /** The outcome of cycle `j` of a run. */
  ghost function OutcomeAt(t: Tables, envs: seq<Env>, j: nat, cfg: Config): Outcome
    requires cfg.batch > 0 && j < |envs| && forall i :: 0 <= i < |envs| ==> EnvOk(envs[i])
  {
    Cycle(Run(t, envs[..j], cfg), envs[j], cfg).1
  }

  /** The blocks a cycle finishes, in order. */
  ghost function CycleProcessed(t: Tables, env: Env, cfg: Config): seq<nat>
    requires cfg.batch > 0 && EnvOk(env)
  {
    match (ScanTables(t, REORG_SCAN_CAP, env.chain, env.down), CycleTarget(t.checkpoint, env, cfg))
    case (None, Some(r)) => Range(r.from, Reached(r.from, r.to, cfg.batch, env.events))
    case _ => []
  }

  ghost function RunProcessed(t: Tables, envs: seq<Env>, cfg: Config): seq<nat>
    requires cfg.batch > 0 && forall i :: 0 <= i < |envs| ==> EnvOk(envs[i])
    decreases |envs|
  {
    if envs == [] then []
    else
      assert EnvOk(envs[0]);
      CycleProcessed(t, envs[0], cfg) + RunProcessed(Cycle(t, envs[0], cfg).0, envs[1..], cfg)
  }

  lemma {:induction false} RunProcessedConcat(t: Tables, first: seq<Env>, last: Env, cfg: Config)
    requires cfg.batch > 0 && EnvOk(last) && forall i :: 0 <= i < |first| ==> EnvOk(first[i])
    ensures RunProcessed(t, first + [last], cfg)
        == RunProcessed(t, first, cfg) + CycleProcessed(Run(t, first, cfg), last, cfg)
    decreases |first|
  {
    hide Cycle, EnvOk, CycleProcessed;
    if first == [] {
      assert first + [last] == [last];
      assert RunProcessed(Cycle(t, last, cfg).0, [], cfg) == [];
    } else {
      assert (first + [last])[1..] == first[1..] + [last];
      RunProcessedConcat(Cycle(t, first[0], cfg).0, first[1..], last, cfg);
    }
  }

  lemma {:induction false} RunConcat(t: Tables, first: seq<Env>, second: seq<Env>, cfg: Config)
    requires cfg.batch > 0 && (forall i :: 0 <= i < |first| ==> EnvOk(first[i]))
    requires (forall i :: 0 <= i < |second| ==> EnvOk(second[i]))
    ensures Run(t, first + second, cfg) == Run(Run(t, first, cfg), second, cfg)
    decreases |first|
  {
    hide Cycle, EnvOk;
    if first == [] {
      assert first + second == second;
    } else {
      assert (first + second)[1..] == first[1..] + second;
      RunConcat(Cycle(t, first[0], cfg).0, first[1..], second, cfg);
    }
  }

  function AllInFull(envs: seq<Env>): (full: seq<Env>)
    ensures |full| == |envs| && forall i :: 0 <= i < |envs| ==> full[i] == InFull(envs[i])
  {
    seq(|envs|, i requires 0 <= i < |envs| => InFull(envs[i]))
  }

  /**
   * Over every run, withheld receipts and traces change neither the block table nor the
   * checkpoint: what is proved about them for lossless runs holds for all.
   */
  lemma {:induction false} LossesDoNotMoveBlocks(t: Tables, u: Tables, envs: seq<Env>, cfg: Config)
    requires SameBlocks(t, u) && cfg.batch > 0 && forall i :: 0 <= i < |envs| ==> EnvOk(envs[i])
    ensures SameBlocks(Run(t, envs, cfg), Run(u, AllInFull(envs), cfg))
    decreases |envs|
  {
    hide Cycle, SameBlocks;
    if envs != [] {
      CycleSameBlocks(t, u, envs[0], cfg);
      assert AllInFull(envs)[0] == InFull(envs[0]) && AllInFull(envs)[1..] == AllInFull(envs[1..]);
      LossesDoNotMoveBlocks(Cycle(t, envs[0], cfg).0, Cycle(u, InFull(envs[0]), cfg).0, envs[1..], cfg);
    }
  }

  // ------------------------------------------------- what a quiet loop never touches again

  /** The tip agrees with the chain and there is a checkpoint: the loop only goes forward. */
  ghost predicate Quiet(t: Tables, b: Chain) {
    TipAgrees(t, b) && t.checkpoint.Some?
  }

  /** Where the next indexing starts, once there is a checkpoint. */
  function NextHeight(t: Tables): nat {
    match t.checkpoint
    case None => 0
    case Some(n) => Max(n, 0) + 1
  }

  lemma QuietScanIsSilent(t: Tables, b: Chain, down: set<nat>)
    requires TipAgrees(t, b)
    ensures ScanTables(t, REORG_SCAN_CAP, b, down).None?
  {
    var local := RecentBlockHashes(t.block, REORG_SCAN_CAP);
    if HashedHeights(t.block) != {} {
      var tip := MaxKey(HashedHeights(t.block));
      assert local[0] == Stored(tip, b[tip].hash);
      RecentBlockHashesSound(t.block, REORG_SCAN_CAP);
      assert !Mismatch(local[0], Lookup(b, down)(local[0].height));
      DetectMeaning(local, Lookup(b, down));
    }
  }

  lemma TipStillAgrees(t: Tables, u: Tables, b: Chain, from: nat, to: nat)
    requires TipAgrees(t, b) && Adds(t, u, b, from, to)
    ensures TipAgrees(u, b)
  {
    var before, after := HashedHeights(t.block), HashedHeights(u.block);
    assert before <= after;
    if after != {} {
      var m := MaxKey(after);
      if m in t.block {
        assert m in before && MaxKey(before) == m;
      }
    }
  }

  lemma {:induction false} QuietCycle(t: Tables, env: Env, cfg: Config)
    requires Quiet(t, env.chain) && EnvOk(env) && cfg.batch > 0
    ensures var u := Cycle(t, env, cfg).0;
            && Quiet(u, env.chain) && Adds(t, u, env.chain, NextHeight(t), |env.chain|)
                && NextHeight(t) <= NextHeight(u)
  {
    QuietScanIsSilent(t, env.chain, env.down);
    var u := Cycle(t, env, cfg).0;
    match CycleTarget(t.checkpoint, env, cfg)
    case None =>
      AddsNothing(t, t.checkpoint, env.chain, NextHeight(t), |env.chain|);
    case Some(r) =>
      hide ScanTables, IndexFrom, Served, Adds, TipAgrees;
      if t.checkpoint.value < I64_MAX { assert r.from == NextHeight(t); }
      IndexFromAdds(t, Readable(env), r.from, r.to, cfg.batch, env.events);
      AddsUpTo(t, u, Readable(env), r.from, r.to, |env.chain|);
      AddsFromServed(t, u, env.chain, env.noReceipts, env.noTrace, r.from, |env.chain|);
      IndexFromCheckpoint(t, Readable(env), r.from, r.to, cfg.batch, env.events);
      TipStillAgrees(t, u, env.chain, r.from, |env.chain|);
  }

  lemma AddsUpTo(t: Tables, u: Tables, c: Chain, from: nat, to: nat, more: nat)
    requires to <= more && Adds(t, u, c, from, to)
    ensures Adds(t, u, c, from, more)
  {
    forall d | Copies(t, d) < Copies(u, d) ensures RowOf(c, from, more, d) {
      assert RowOf(c, from, to, d);
    }
  }

  /**
   * Once the tip agrees with the chain, every later run on that chain only adds rows of blocks above
   * the checkpoint, whatever fails or is withheld. What is wrong at or below the checkpoint stays wrong.
   */
  lemma {:induction false} SettledRowsStay(t: Tables, b: Chain, envs: seq<Env>, cfg: Config)
    requires Quiet(t, b) && cfg.batch > 0 && forall i :: 0 <= i < |envs| ==> EnvOk(envs[i]) && envs[i].chain == b
    ensures Adds(t, Run(t, envs, cfg), b, NextHeight(t), |b|) && Quiet(Run(t, envs, cfg), b)
    decreases |envs|
  {
    hide Cycle, EnvOk, Adds, TipAgrees;
    if envs == [] {
      AddsNothing(t, t.checkpoint, b, NextHeight(t), |b|);
    } else {
      var u := Cycle(t, envs[0], cfg).0;
      QuietCycle(t, envs[0], cfg);
      SettledRowsStay(u, b, envs[1..], cfg);
      AddsMore(u, Run(t, envs, cfg), b, NextHeight(t), NextHeight(u), |b|);
      AddsComposes(t, u, Run(t, envs, cfg), b, NextHeight(t), |b|);
    }
  }

  lemma {:induction false} QuietCycleProcesses(t: Tables, env: Env, cfg: Config)
    requires Quiet(t, env.chain) && EnvOk(env) && cfg.batch > 0
    ensures CycleProcessed(t, env, cfg) == Range(NextHeight(t), NextHeight(Cycle(t, env, cfg).0))
  {
    hide ScanTables, IndexFrom, TipAgrees, Readable, Range;
    QuietScanIsSilent(t, env.chain, env.down);
    EmptyRange(NextHeight(t));
    match CycleTarget(t.checkpoint, env, cfg)
    case None =>
    case Some(r) =>
      if t.checkpoint.value < I64_MAX { assert r.from == NextHeight(t); }
      IndexFromCheckpoint(t, Readable(env), r.from, r.to, cfg.batch, env.events);
  }

  lemma EmptyRange(n: nat)
    ensures Range(n, n) == []
  {
  }

  /**
   * Over successive cycles on an agreeing chain, whatever fails, the blocks finished are those from
   * the next height on, each once and in order, without gap or overlap.
   */
  lemma {:induction false} ProcessedIsContiguous(t: Tables, b: Chain, envs: seq<Env>, cfg: Config)
    requires Quiet(t, b) && cfg.batch > 0 && forall i :: 0 <= i < |envs| ==> EnvOk(envs[i]) && envs[i].chain == b
    ensures NextHeight(t) <= NextHeight(Run(t, envs, cfg))
    ensures RunProcessed(t, envs, cfg) == Range(NextHeight(t), NextHeight(Run(t, envs, cfg)))
    decreases |envs|
  {
    hide Cycle, EnvOk, Adds, Quiet, NextHeight, CycleProcessed, Range;
    if envs == [] {
      EmptyRange(NextHeight(t));
    } else {
      var u := Cycle(t, envs[0], cfg).0;
      QuietCycle(t, envs[0], cfg);
      QuietCycleProcesses(t, envs[0], cfg);
      ProcessedIsContiguous(u, b, envs[1..], cfg);
      RangeSplit(NextHeight(t), NextHeight(u), NextHeight(Run(u, envs[1..], cfg)));
    }
  }

  /** A block row below the next height, stale or not, survives every later run; a missing one stays missing. */
  lemma {:induction false} BlockRowStays(t: Tables, b: Chain, envs: seq<Env>, cfg: Config, n: nat)
    requires Quiet(t, b) && cfg.batch > 0 && forall i :: 0 <= i < |envs| ==> EnvOk(envs[i]) && envs[i].chain == b
    requires n < NextHeight(t)
    ensures var after := Run(t, envs, cfg).block;
            (n in after <==> n in t.block) && (n in t.block ==> after[n] == t.block[n])
  {
    hide Quiet;
    SettledRowsStay(t, b, envs, cfg);
  }

  /** When a row above all old ones was added, the tip is one of the added rows. */
  lemma NewTipAgrees(t: Tables, u: Tables, env: Env, from: nat, to: nat)
    requires Adds(t, u, Readable(env), from, to) && u.block != t.block && forall n :: n in t.block ==> n < from
    ensures TipAgrees(u, env.chain)
  {
    var hashed := HashedHeights(u.block);
    assert u.block.Keys <= t.block.Keys ==> u.block == t.block;
    var n :| n in u.block && n !in t.block;
    assert n in hashed && n >= from;
    var m := MaxKey(hashed);
    assert m >= from && m !in t.block;
  }

  lemma {:induction false} UnsoundCycleIsQuiet(a: Chain, lo: nat, hi: nat, env: Env, cfg: Config)
    requires ChainOk(a) && EnvOk(env) && cfg.batch > 0 && lo < hi <= |a| <= I64_MAX
    requires !SoundCycle(Store(a, lo, hi), env, cfg)
    requires Cycle(Store(a, lo, hi), env, cfg).0.block != Store(a, lo, hi).block
    ensures var u := Cycle(Store(a, lo, hi), env, cfg).0;
            && Quiet(u, env.chain) && hi <= NextHeight(u)
            && hi - 1 in u.block && u.block[hi - 1] == Row(a[hi - 1]) && a[hi - 1].hash != env.chain[hi - 1].hash
  {
    hide SoundCycle, IndexFrom, ChainOk, TipAgrees, Readable, CycleTarget, Cycle;
    var t := Store(a, lo, hi);
    UnsoundCycleIndexes(a, lo, hi, env, cfg);
    var to := CycleTarget(t.checkpoint, env, cfg).value.to;
    var u := IndexFrom(t, Readable(env), hi, to, cfg.batch, env.events).0;
    IndexFromAdds(t, Readable(env), hi, to, cfg.batch, env.events);
    IndexFromCheckpoint(t, Readable(env), hi, to, cfg.batch, env.events);
    assert forall n :: n in t.block <==> lo <= n < hi;
    assert t.block[hi - 1] == Row(a[hi - 1]);
    NewTipAgrees(t, u, env, hi, to);
  }

  /**
   * The follow loop's one way to lose a reorg: after an unsound cycle that stored anything, the stale
   * tip stays in the tables through every later run on that chain, however healthy the node.
   */
  lemma {:induction false} UnsoundCycleIsPermanent(a: Chain, lo: nat, hi: nat, env: Env, later: seq<Env>, cfg: Config)
    requires ChainOk(a) && EnvOk(env) && cfg.batch > 0 && lo < hi <= |a| <= I64_MAX
    requires !SoundCycle(Store(a, lo, hi), env, cfg)
    requires Cycle(Store(a, lo, hi), env, cfg).0.block != Store(a, lo, hi).block
    requires forall i :: 0 <= i < |later| ==> EnvOk(later[i]) && later[i].chain == env.chain
    ensures hi - 1 < |env.chain|
    ensures var after := Run(Cycle(Store(a, lo, hi), env, cfg).0, later, cfg);
            && hi - 1 in after.block && after.block[hi - 1].hash == Some(a[hi - 1].hash)
            && a[hi - 1].hash != env.chain[hi - 1].hash
  {
    hide Cycle, SoundCycle, ChainOk, Run, Quiet, NextHeight, Store;
    UnsoundCycleIndexes(a, lo, hi, env, cfg);
    UnsoundCycleIsQuiet(a, lo, hi, env, cfg);
    BlockRowStays(Cycle(Store(a, lo, hi), env, cfg).0, env.chain, later, cfg, hi - 1);
  }

  // --------------------------------------------------- a chain below the stored tip

  /** While the node's chain ends below the stored tip, the tip lookup has no answer and a cycle does nothing. */
  lemma ShortChainCycle(a: Chain, lo: nat, hi: nat, env: Env, cfg: Config)
    requires lo <= hi <= |a| <= I64_MAX && 1 <= hi && EnvOk(env) && |env.chain| < hi && cfg.batch > 0
    ensures Cycle(Store(a, lo, hi), env, cfg).0 == Store(a, lo, hi)
  {
    hide Store, ScanTables, IndexFrom, Rollback, ChainOk, NextTarget;
    ShortChainScan(a, lo, hi, env.chain, env.down, REORG_SCAN_CAP);
    TargetOfStore(a, lo, hi, env, cfg);
  }

  lemma ShortChainScan(a: Chain, lo: nat, hi: nat, b: Chain, down: set<nat>, cap: nat)
    requires lo <= hi <= |a| && |b| < hi && cap <= USIZE_MAX
    ensures ScanTables(Store(a, lo, hi), cap, b, down).None?
  {
    hide Store, ScanTables, Detect, MismatchRun, TipWindow;
    var w := TipWindow(a, lo, hi, cap);
    ScanReadsTipWindow(a, b, down, lo, hi, cap);
    assert w != [] ==> w[0].height == hi - 1 && Lookup(b, down)(w[0].height).None?;
    DetectMeaning(w, Lookup(b, down));
  }

  /** However long it lasts and whatever the short chains are: nothing moves. */
  lemma {:induction false} ShortChainsAreIgnored(a: Chain, lo: nat, hi: nat, envs: seq<Env>, cfg: Config)
    requires lo <= hi <= |a| <= I64_MAX && 1 <= hi && cfg.batch > 0
    requires forall i :: 0 <= i < |envs| ==> EnvOk(envs[i]) && |envs[i].chain| < hi
    ensures Run(Store(a, lo, hi), envs, cfg) == Store(a, lo, hi)
    decreases |envs|
  {
    hide Cycle, EnvOk, Store;
    if envs != [] {
      ShortChainCycle(a, lo, hi, envs[0], cfg);
      ShortChainsAreIgnored(a, lo, hi, envs[1..], cfg);
    }
  }

  // -------------------------------------------- what the checkpoint means after a rollback

  /** Every block from `base` up to the checkpoint is stored. */
  ghost predicate Contiguous(t: Tables, base: nat) {
    t.checkpoint.Some? ==> forall n :: base <= n <= t.checkpoint.value ==> n in t.block
  }

  /**
   * The rollback sets the checkpoint just below the fork without looking at its old value. The
   * blocks up to the checkpoint stay stored exactly when none is missing between the old
   * checkpoint and the fork: a fork at most one above the checkpoint is always fine.
   */
  lemma RollbackKeepsContiguousIff(t: Tables, base: nat, fork: nat)
    requires Contiguous(t, base) && t.checkpoint.Some? && 1 <= fork
    ensures Contiguous(Rollback(t, fork), base)
        <==> forall n :: base <= n < fork && n > t.checkpoint.value ==> n in t.block
    ensures fork <= t.checkpoint.value + 1 ==> Contiguous(Rollback(t, fork), base)
  {
    RollbackMeaning(t, fork);
    var u := Rollback(t, fork);
    if Contiguous(u, base) {
      forall n | base <= n < fork && n > t.checkpoint.value ensures n in t.block {
        assert n in u.block;
      }
    }
  }

  /**
   * The next target resumes at the fork itself, except for a fork at the genesis block, which is never
   * indexed again.
   */
  lemma RollbackResumesAtForkIff(t: Tables, fork: nat, head: nat, confirmations: nat)
    requires t.checkpoint.Some? && fork <= I64_MAX && fork + confirmations + 1 <= head <= I64_MAX
    ensures var target := NextTarget(head, confirmations, Rollback(t, fork).checkpoint);
            target.Some? && (target.value.from == fork <==> fork >= 1)
  {
    RollbackMeaning(t, fork);
  }
}
