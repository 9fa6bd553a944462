/** Small chains on which the follow loop goes wrong, from the scan to every later run. */
module Witnesses {
  import opened Options
  import opened ForkScanning
  import opened ChainTables
  import opened Indexing
  import opened IndexedStore
  import opened FollowLoop
  import opened Convergence
  import opened FailedChunks
  import opened LostRows

  function Name(c: char, n: nat): (h: Hash)
    ensures |h| == n + 1 && h[0] == c
  {
    seq(n + 1, _ => c)
  }

  /** Block `n` of branch `c` on top of a block of branch `p`; it has no transactions. */
  function EmptyBlock(c: char, p: char, n: nat): ChainBlock {
    ChainBlock(Name(c, n), if n == 0 then "" else Name(p, n - 1), {}, {})
  }

  /** Branch 'a' up to `n`, and from there branch 'b' up to `length`. */
  function Branch(n: nat, length: nat): (c: Chain)
    ensures |c| == length
    ensures forall i :: 0 <= i < length ==>
              c[i] == if i < n then EmptyBlock('a', 'a', i) else EmptyBlock('b', if i == n then 'a' else 'b', i)
  {
    seq(length, i requires 0 <= i < length =>
      if i < n then EmptyBlock('a', 'a', i) else EmptyBlock('b', if i == n then 'a' else 'b', i))
  }

  lemma BranchIsOk(n: nat, length: nat)
    ensures ChainOk(Branch(n, length))
  {
  }

  lemma BranchesDiffer(i: nat)
    ensures Name('a', i) != Name('b', i)
  {
  }

  // ------------------------------------------------ a reorg lost for good

  /** The node's answers in the one cycle whose lookup of height 1 fails. */
  function MissingLookup(): Env {
    Env(Branch(1, 3), {1}, Some(2), [], {}, {})
  }

  lemma MissingLookupIsOk()
    ensures EnvOk(MissingLookup()) && ChainOk(Branch(2, 2))
    ensures Branch(2, 2)[1].hash == Name('a', 1) && Branch(1, 3)[1].hash == Name('b', 1) && Name('a', 1) != Name('b', 1)
  {
    BranchIsOk(2, 2);
    BranchIsOk(1, 3);
    BranchesDiffer(1);
  }

  lemma {:induction false} MissingLookupIsUnsound()
    ensures EnvOk(MissingLookup()) && !SoundCycle(Store(Branch(2, 2), 0, 2), MissingLookup(), Config(0, 1))
  {
    hide Branch, ScanTables, TipAgrees;
    var a, b := Branch(2, 2), Branch(1, 3);
    MissingLookupIsOk();
    TipOfStore(a, 0, 2, b);
    TargetOfStore(a, 0, 2, MissingLookup(), Config(0, 1));
    MissedTip(a, b);
  }

  lemma {:induction false} MissingLookupStoresBlockTwo()
    ensures EnvOk(MissingLookup())
    ensures var t := Store(Branch(2, 2), 0, 2);
            Cycle(t, MissingLookup(), Config(0, 1)).0.block != t.block
  {
    hide Branch, ScanTables, TipAgrees, SoundCycle, Cycle, IndexFrom;
    var t, env, cfg := Store(Branch(2, 2), 0, 2), MissingLookup(), Config(0, 1);
    MissingLookupIsOk();
    MissingLookupIsUnsound();
    UnsoundCycleIndexes(Branch(2, 2), 0, 2, env, cfg);
    TargetOfStore(Branch(2, 2), 0, 2, env, cfg);
    FirstBlockIsStoredIff(t, Readable(env), 2, 2, 1, []);
    assert 2 !in t.block;
  }

  /**
   * Blocks 0 and 1 of branch 'a' are stored; the node has replaced block 1 and added block 2, and its
   * lookup of height 1 fails once. The cycle indexes block 2 on top of the stale block 1, which then
   * survives every later run on that chain, though every later lookup may succeed.
   */
  lemma {:induction false} OneMissedLookupLosesAReorg(later: seq<Env>)
    requires forall i :: 0 <= i < |later| ==> EnvOk(later[i]) && later[i].chain == Branch(1, 3)
    ensures EnvOk(MissingLookup())
    ensures var after := Run(Cycle(Store(Branch(2, 2), 0, 2), MissingLookup(), Config(0, 1)).0, later, Config(0, 1));
            && 1 in after.block && after.block[1].hash == Some(Name('a', 1))
            && Branch(1, 3)[1].hash == Name('b', 1) != Name('a', 1)
  {
    hide Branch, Cycle, Run, SoundCycle, Store;
    MissingLookupIsOk();
    MissingLookupIsUnsound();
    MissingLookupStoresBlockTwo();
    UnsoundCycleIsPermanent(Branch(2, 2), 0, 2, MissingLookup(), later, Config(0, 1));
  }

  lemma {:induction false} MissedTip(a: Chain, b: Chain)
    requires |a| == 2 && |b| == 3
    ensures ScanTables(Store(a, 0, 2), REORG_SCAN_CAP, b, {1}).None?
  {
    ScanReadsTipWindow(a, b, {1}, 0, 2, REORG_SCAN_CAP);
    var w := TipWindow(a, 0, 2, REORG_SCAN_CAP);
    assert w[0].height == 1 && Lookup(b, {1})(1) == None;
    DetectMeaning(w, Lookup(b, {1}));
  }

  // ---------------------------------------------- a checkpoint past a hole

  /** What a chunk leaves that stored the row of block 14 and failed before 11 to 13 were stored. */
  ghost function AfterFailedChunk(): Tables {
    IndexFrom(Store(Branch(15, 15), 10, 11), Branch(15, 15), 11, 14, 4, [Fail([(14, 1)])]).0
  }

  lemma FailedChunkRows()
    ensures AfterFailedChunk().block == map[10 := Row(EmptyBlock('a', 'a', 10)), 14 := Row(EmptyBlock('a', 'a', 14))]
    ensures AfterFailedChunk().checkpoint == Some(10)
  {
    var a := Branch(15, 15);
    var t := Store(a, 10, 11);
    assert Heights(10, 11) == {10};
    assert t.block == map[10 := Row(a[10])];
    IngestPrefixState(t, 14, a[14], 1);
    var chunk, done := BlockRange(11, 14), [(14, 1)];
    assert IngestSome(t, a, chunk, done) == IngestSome(IngestPrefix(t, 14, a[14], 1), a, chunk, done[1..]);
    assert done[1..] == [];
    assert ChunkEnd(11, 14, 4) == 14;
    assert AfterFailedChunk() == IngestSome(t, a, chunk, done);
  }

  lemma {:induction false} WindowOfTwo(
      block: map<nat, BlockRow>, low: nat, high: nat, x: Hash, y: Hash, p: Hash, q: Hash, cap: nat)
    requires low < high && cap >= 2
    requires block == map[low := BlockRow(Some(x), Some(p)), high := BlockRow(Some(y), Some(q))]
    ensures RecentBlockHashes(block, cap) == [Stored(high, y), Stored(low, x)]
  {
    assert HashedHeights(block) == {low, high} && MaxKey({low, high}) == high;
    var below := BlocksBelow(block, high);
    assert below == map[low := BlockRow(Some(x), Some(p))];
    assert HashedHeights(below) == {low} && MaxKey({low}) == low;
    assert HashedHeights(BlocksBelow(below, low)) == {};
    assert RecentBlockHashes(below, cap - 1) == [Stored(low, x)] + RecentBlockHashes(BlocksBelow(below, low), cap - 2);
  }

  lemma {:induction false} AfterTheRollback()
    ensures var u := Rollback(AfterFailedChunk(), 14);
            u.block == map[10 := Row(EmptyBlock('a', 'a', 10))] && u.checkpoint == Some(13)
                && TipAgrees(u, Branch(14, 15))
  {
    hide AfterFailedChunk, Rollback;
    var u := Rollback(AfterFailedChunk(), 14);
    FailedChunkRows();
    RollbackMeaning(AfterFailedChunk(), 14);
    assert u.block == map[10 := Row(EmptyBlock('a', 'a', 10))];
    assert HashedHeights(u.block) == {10} && MaxKey({10}) == 10;
  }

  /**
   * The node then replaces block 14. The scan reports exactly that fork, the rollback sets the
   * checkpoint to 13, and blocks 11 to 13 are never indexed by any later run on that chain.
   */
  lemma {:induction false} RollbackCanPassAHole(later: seq<Env>, cfg: Config)
    requires cfg.batch > 0 && forall i :: 0 <= i < |later| ==> EnvOk(later[i]) && later[i].chain == Branch(14, 15)
    ensures var t := AfterFailedChunk();
            && ScanTables(t, REORG_SCAN_CAP, Branch(14, 15), {}) == Some(14)
            && Contiguous(t, 10) && !Contiguous(Rollback(t, 14), 10)
            && Rollback(t, 14).checkpoint == Some(13)
            && forall n :: 11 <= n <= 13 ==> n !in Run(Rollback(t, 14), later, cfg).block
  {
    hide AfterFailedChunk, Rollback, ScanTables, Run, EnvOk;
    FailedChunkRows();
    ForkIsFourteen();
    AfterTheRollback();
    assert 12 !in Rollback(AfterFailedChunk(), 14).block;
    forall n | 11 <= n <= 13 ensures n !in Run(Rollback(AfterFailedChunk(), 14), later, cfg).block {
      BlockRowStays(Rollback(AfterFailedChunk(), 14), Branch(14, 15), later, cfg, n);
    }
  }

  lemma {:induction false} ForkIsFourteen()
    ensures ScanTables(AfterFailedChunk(), REORG_SCAN_CAP, Branch(14, 15), {}) == Some(14)
  {
    var t, b := AfterFailedChunk(), Branch(14, 15);
    var at := Lookup(b, {});
    FailedChunkRows();
    BranchesDiffer(14);
    WindowOfTwo(t.block, 10, 14, Name('a', 10), Name('a', 14), Name('a', 9), Name('a', 13), REORG_SCAN_CAP);
    var w := [Stored(14, Name('a', 14)), Stored(10, Name('a', 10))];
    assert at(14) == Some(Name('b', 14)) && at(10) == Some(Name('a', 10));
    assert Mismatch(w[0], at(w[0].height)) && !Mismatch(w[1], at(w[1].height));
    assert MismatchRun(w, at, 2) == 1;
    assert AllKnown(w, at, FetchedWindow(w, at));
    DetectMeaning(w, at);
  }

  // ------------------------------------------------- traces stored twice, or never

  const TRACE_ROW: DepRow := DepRow(TraceLog, "x", 0)

  /** A genesis block and a block with one failed transaction and its trace. */
  function TracedChain(): (c: Chain)
    ensures |c| == 2 && c[0].rows == {} && c[0].txs == {} && c[1].rows == {TRACE_ROW} && c[1].txs == {"x"}
  {
    [EmptyBlock('a', 'a', 0), EmptyBlock('a', 'a', 1).(txs := {"x"}, rows := {TRACE_ROW})]
  }

  lemma TracedChainIsOk()
    ensures ChainOk(TracedChain()) && Committed(TracedChain(), TracedChain())
  {
    var c := TracedChain();
    assert c[0].hash == Name('a', 0) && c[1].hash == Name('a', 1);
    assert |c[0].hash| == 1 && |c[1].hash| == 2;
  }

  /** The node with its two blocks, all of them confirmed. */
  function TracingNode(events: seq<ChunkEvent>, noTrace: set<TxHash>): Env {
    Env(TracedChain(), {}, Some(1), events, {}, noTrace)
  }

  lemma NodeIsOk(events: seq<ChunkEvent>, noTrace: set<TxHash>)
    ensures EnvOk(TracingNode(events, noTrace))
    ensures (noTrace == {} && events == [] ==> Healthy(TracingNode(events, noTrace), 0))
  {
    TracedChainIsOk();
  }

  /** Block 1 fails after its trace was stored; after the retry the trace row is there twice, for good. */
  lemma {:induction false} FailedChunkStoresATraceTwice()
    ensures var c, cfg := TracedChain(), Config(0, 1);
            var history, env := [TracingNode([Fail([(1, 6)])], {})], TracingNode([], {});
            && Repairable(c, 0, 1, history, env, cfg, 1)
            && (var u := Repaired(c, 0, 1, history, env, cfg, 1);
                Copies(u, TRACE_ROW) == 2 && Once(u) == Store(c, 0, 2) && u != Store(c, 0, 2))
  {
    hide Repaired, Repairable, RepeatedTraces, Store, Once, EnvOk;
    var c, cfg := TracedChain(), Config(0, 1);
    var failing, env := TracingNode([Fail([(1, 6)])], {}), TracingNode([], {});
    RetryIsRepairable();
    CopiesAfterRepair(c, 0, 1, [failing], env, cfg, 1, 1, TRACE_ROW);
    RepairIsExactIff(c, 0, 1, [failing], env, cfg, 1);
    assert HasTraces(c[1]);
  }

  lemma {:induction false} RetryIsRepairable()
    ensures var c, cfg := TracedChain(), Config(0, 1);
            var history, env := [TracingNode([Fail([(1, 6)])], {})], TracingNode([], {});
            && env.head.Some? && Safe(env, cfg) == 1 && OnChain(history, c)
            && Repairable(c, 0, 1, history, env, cfg, 1) && RepeatedTraces(1, history, c, cfg, 1) == 1
  {
    hide RunReached, RunTop, FailedInRun, TracedChain, Healthy, EnvOk, OnChain, Safe, CyclesLeft;
    NodeIsOk([], {});
    NodeIsSafe();
    FailingHistory();
  }

  lemma NodeIsSafe()
    ensures var env, cfg := TracingNode([], {}), Config(0, 1);
            env.head.Some? && env.chain == TracedChain() && Safe(env, cfg) == 1 && CyclesLeft(1, env, cfg) == 1
  {
  }

  lemma {:induction false} FailingHistory()
    ensures var c, cfg, history := TracedChain(), Config(0, 1), [TracingNode([Fail([(1, 6)])], {})];
            && OnChain(history, c)
            && RunReached(1, history, c, cfg) == 1 && RunTop(1, 1, history, c, cfg) == 2
            && FailedInRun(1, history, c, cfg, 1, 6) == 1
  {
    hide CycleReached, CycleTop, FailedInCycle, EnvOk, TracedChain;
    var c, cfg, history := TracedChain(), Config(0, 1), [TracingNode([Fail([(1, 6)])], {})];
    NodeIsOk([Fail([(1, 6)])], {});
    FailingCycle();
    assert history[1..] == [];
    assert OnChain(history, c) && OnChain([], c);
    assert RunReached(1, [], c, cfg) == 1 && RunTop(1, 2, [], c, cfg) == 2 && FailedInRun(1, [], c, cfg, 1, 6) == 0;
  }

  lemma {:induction false} FailingCycle()
    ensures var env, cfg := TracingNode([Fail([(1, 6)])], {}), Config(0, 1);
            && EnvOk(env)
            && CycleReached(1, env, cfg) == 1 && CycleTop(1, 1, env, cfg) == 2 && FailedInCycle(1, env, cfg, 1, 6) == 1
  {
    NodeIsOk([Fail([(1, 6)])], {});
    var chunk, done := BlockRange(1, 1), [(1, 6)];
    assert done[1..] == [];
    assert Attempts(chunk, done, 1, 6) == Attempts(chunk, done[1..], 1, 6) + 1;
  }

  /**
   * The trace of the failed transaction is unavailable once; block 1 is passed without it, and no later
   * run completes it.
   */
  lemma {:induction false} OneMissedTraceIsLost(later: seq<Env>, cfg: Config)
    requires cfg.batch > 0 && forall i :: 0 <= i < |later| ==> EnvOk(later[i]) && later[i].chain == TracedChain()
    ensures var c, env := TracedChain(), TracingNode([], {"x"});
            && EnvOk(env) && ChainOk(c)
            && !Covered(Run(Cycle(Store(c, 0, 1), env, Config(0, 1)).0, later, cfg), c, 1)
  {
    var c, env := TracedChain(), TracingNode([], {"x"});
    var t := Store(c, 0, 1);
    var u := Cycle(t, env, Config(0, 1)).0;
    TracedChainIsOk();
    NodeIsOk([], {"x"});
    PassesBlockOne();
    assert Heights(0, 1) == {0};
    assert Untouched(t, c[1]);
    assert NoStaleRowFrom(t, c, 1);
    FreshBlockIsCoveredIff(t, env, Config(0, 1), 1);
    BlockIsReadInFullIff(env, 1);
    assert TRACE_ROW in c[1].rows && NeedsTrace(TRACE_ROW.table) && TRACE_ROW.tx in env.noTrace;
    PassedBlockIsNeverRepaired(u, c, later, cfg, 1);
  }

  lemma {:induction false} PassesBlockOne()
    ensures var t, env := Store(TracedChain(), 0, 1), TracingNode([], {"x"});
            && EnvOk(env) && Quiet(t, env.chain) && NextHeight(t) == 1
            && Quiet(Cycle(t, env, Config(0, 1)).0, env.chain) && NextHeight(Cycle(t, env, Config(0, 1)).0) == 2
  {
    var t, env, cfg := Store(TracedChain(), 0, 1), TracingNode([], {"x"}), Config(0, 1);
    NodeIsOk([], {"x"});
    TipOfStore(TracedChain(), 0, 1, TracedChain());
    TargetOfStore(TracedChain(), 0, 1, env, cfg);
    QuietScanIsSilent(t, env.chain, env.down);
    QuietCycle(t, env, cfg);
    IndexFromCheckpoint(t, Readable(env), 1, 1, 1, []);
    ReachedWithoutEvents(1, 1, 1);
  }
}
