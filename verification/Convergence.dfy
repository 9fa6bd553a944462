/**
 * Convergence of the follow loop: with a healthy node after any sound history, from any reorg
 * depth, and whatever the cap of the scan.
 */
module Convergence {
  import opened Options
  import opened ForkScanning
  import opened ChainTables
  import opened Indexing
  import opened IndexedStore
  import opened FollowLoop

  function CeilDiv(n: nat, d: nat): nat
    requires d > 0
  {
    (n + d - 1) / d
  }

  /** The node answers every lookup from `lo` up, serves everything, and nothing interrupts the indexing. */
  ghost predicate Healthy(env: Env, lo: nat) {
    && EnvOk(env) && Lossless(env) && env.head.Some? && env.events == [] && Committed(env.chain, env.chain)
    && AllAnswered(env.chain, env.down, lo, |env.chain|)
  }

  function Safe(env: Env, cfg: Config): nat
    requires env.head.Some?
  {
    SaturatingSub(env.head.value, cfg.confirmations)
  }

  function Repeat(env: Env, n: nat): (envs: seq<Env>)
    ensures |envs| == n && forall i :: 0 <= i < n ==> envs[i] == env
  {
    seq(n, _ => env)
  }

  lemma ForkPointBelow(a: Chain, b: Chain, lo: nat, hi: nat, f: nat)
    requires lo <= hi && ForkPoint(a, b, lo, hi) <= f <= hi
    ensures ForkPoint(a, b, lo, f) == ForkPoint(a, b, lo, hi)
    decreases hi
  {
    if f < hi {
      ForkPointBelow(a, b, lo, hi - 1, f);
    }
  }

  lemma ForkPointAboveRoot(a: Chain, b: Chain, lo: nat, hi: nat)
    requires ChainOk(a) && ChainOk(b) && Committed(a, b) && lo <= hi && 1 <= hi && RootAgrees(a, b, lo)
    ensures 1 <= ForkPoint(a, b, lo, hi)
  {
    if lo == 0 {
      ForkPointSplits(a, b, lo, hi, 0);
    }
  }

  /** A store of some chain `a`, about to be followed against a healthy node. */
  ghost predicate Recoverable(a: Chain, lo: nat, hi: nat, env: Env) {
    && ChainOk(a) && Healthy(env, lo) && Committed(a, env.chain)
    && lo <= hi && 1 <= hi <= |a| <= I64_MAX && RootAgrees(a, env.chain, lo)
  }

  /** Where the store ends once the loop is quiet. */
  ghost function SettledEnd(a: Chain, lo: nat, hi: nat, env: Env, cfg: Config): (end: nat)
    requires Recoverable(a, lo, hi, env) && hi <= |env.chain|
    ensures ForkPoint(a, env.chain, lo, hi) <= end <= |env.chain|
  {
    Max(ForkPoint(a, env.chain, lo, hi), Safe(env, cfg) + 1)
  }

  /** Cycles until the loop is quiet: capped rollbacks of the stale part, then capped indexing. */
  ghost function CyclesToSettle(a: Chain, lo: nat, hi: nat, env: Env, cfg: Config): nat
    requires Recoverable(a, lo, hi, env)
  {
    var p := ForkPoint(a, env.chain, lo, hi);
    CeilDiv(hi - p, REORG_SCAN_CAP) + CeilDiv(Max(0, Safe(env, cfg) + 1 - p), FOLLOW_CYCLE_BLOCK_CAP)
  }

  /** The cycle that starts on a stale tip cuts the stale part. */
  lemma {:induction false} RollbackCycle(a: Chain, lo: nat, hi: nat, env: Env, cfg: Config) returns (f: nat)
    requires Recoverable(a, lo, hi, env) && hi <= |env.chain| && cfg.batch > 0 && ForkPoint(a, env.chain, lo, hi) < hi
    ensures Recoverable(a, lo, f, env) && f <= hi && Cycle(Store(a, lo, hi), env, cfg).0 == Store(a, lo, f)
    ensures SettledEnd(a, lo, f, env, cfg) == SettledEnd(a, lo, hi, env, cfg)
    ensures CyclesToSettle(a, lo, f, env, cfg) == CyclesToSettle(a, lo, hi, env, cfg) - 1
  {
    hide Cycle, ScanTables, ChainOk, Committed, CycleTarget, Store;
    var p := ForkPoint(a, env.chain, lo, hi);
    f := Max(p, hi - REORG_SCAN_CAP);
    ScanOfStore(a, env.chain, env.down, lo, hi, REORG_SCAN_CAP);
    SoundCycleKeepsStore(a, lo, hi, env, cfg);
    ForkPointBelow(a, env.chain, lo, hi, f);
  }

  /** The cycle that starts on an agreeing tip extends the store or rests. */
  lemma {:induction false} IndexCycle(a: Chain, lo: nat, hi: nat, env: Env, cfg: Config) returns (next: nat)
    requires Recoverable(a, lo, hi, env) && hi <= |env.chain| && cfg.batch > 0 && ForkPoint(a, env.chain, lo, hi) == hi
    ensures Recoverable(env.chain, lo, next, env) && next <= |env.chain|
    ensures Cycle(Store(a, lo, hi), env, cfg).0 == Store(env.chain, lo, next)
    ensures SettledEnd(env.chain, lo, next, env, cfg) == SettledEnd(a, lo, hi, env, cfg)
    ensures CyclesToSettle(env.chain, lo, next, env, cfg) == Max(CyclesToSettle(a, lo, hi, env, cfg) - 1, 0)
  {
    hide Cycle, ScanTables, ChainOk, Committed, CycleTarget, Store;
    var b := env.chain;
    next := if hi <= Safe(env, cfg) then Min(hi + FOLLOW_CYCLE_BLOCK_CAP, Safe(env, cfg) + 1) else hi;
    ScanOfStore(a, b, env.down, lo, hi, REORG_SCAN_CAP);
    TargetOfStore(a, lo, hi, env, cfg);
    TipOfStore(a, lo, hi, b);
    assert SoundCycle(Store(a, lo, hi), env, cfg);
    SoundCycleKeepsStore(a, lo, hi, env, cfg);
    StoreOfAgreeingChains(a, b, lo, hi);
    if hi <= Safe(env, cfg) {
      ReachedWithoutEvents(hi, next - 1, cfg.batch);
    }
    assert ForkPoint(b, b, lo, next) == next;
  }

  /**
   * Convergence on a chain that reaches the stored tip. Whatever chain the store was built from and however
   * deep the reorg, once the chain stays and lookups succeed the loop reaches, within the stated number of
   * cycles, exactly the tables a fresh indexing of the new chain would give up to the confirmed head (or up
   * to the last agreeing block if that is higher), and stays there.
   */
  lemma {:induction false} SettlesOnReachingChain(a: Chain, lo: nat, hi: nat, env: Env, cfg: Config, n: nat)
    requires Recoverable(a, lo, hi, env) && hi <= |env.chain| && cfg.batch > 0
    requires n >= CyclesToSettle(a, lo, hi, env, cfg)
    ensures Run(Store(a, lo, hi), Repeat(env, n), cfg) == Store(env.chain, lo, SettledEnd(a, lo, hi, env, cfg))
    decreases n
  {
    hide Cycle, ScanTables, ChainOk, Committed, CycleTarget, Store;
    var p := ForkPoint(a, env.chain, lo, hi);
    if n == 0 {
      StoreOfAgreeingChains(a, env.chain, lo, hi);
    } else {
      assert Repeat(env, n)[1..] == Repeat(env, n - 1);
      if p < hi {
        var f := RollbackCycle(a, lo, hi, env, cfg);
        SettlesOnReachingChain(a, lo, f, env, cfg, n - 1);
      } else {
        var next := IndexCycle(a, lo, hi, env, cfg);
        SettlesOnReachingChain(env.chain, lo, next, env, cfg, n - 1);
      }
    }
  }

  /** From some number of cycles on the tables are those of the node's chain from `lo` to `end`. */
  ghost predicate Settles(t: Tables, lo: nat, env: Env, cfg: Config, end: nat, enough: nat)
    requires EnvOk(env) && cfg.batch > 0
  {
    end <= |env.chain| && forall n: nat :: n >= enough ==> Run(t, Repeat(env, n), cfg) == Store(env.chain, lo, end)
  }

  /**
   * With a healthy node the loop converges if and only if the node's chain reaches the stored
   * tip. If it does, the end and the number of cycles are known; if it ends below the tip, the scan
   * has no answer for the tip, nothing is confirmed above it, and the tables never change.
   */
  lemma {:induction false} FollowConvergesIff(a: Chain, lo: nat, hi: nat, env: Env, cfg: Config)
    requires Recoverable(a, lo, hi, env) && cfg.batch > 0
    ensures (exists end: nat, enough: nat :: Settles(Store(a, lo, hi), lo, env, cfg, end, enough))
        <==> hi <= |env.chain|
    ensures hi <= |env.chain| ==>
              Settles(Store(a, lo, hi), lo, env, cfg, SettledEnd(a, lo, hi, env, cfg),
                  CyclesToSettle(a, lo, hi, env, cfg))
    ensures |env.chain| < hi ==> forall n: nat :: Run(Store(a, lo, hi), Repeat(env, n), cfg) == Store(a, lo, hi)
  {
    var t := Store(a, lo, hi);
    assert EnvOk(env);
    hide Cycle, Run, ChainOk, Committed, Healthy, EnvOk, SettledEnd, CyclesToSettle, ForkPoint;
    if hi <= |env.chain| {
      var end, enough := SettledEnd(a, lo, hi, env, cfg), CyclesToSettle(a, lo, hi, env, cfg);
      forall n: nat | n >= enough ensures Run(t, Repeat(env, n), cfg) == Store(env.chain, lo, end) {
        SettlesOnReachingChain(a, lo, hi, env, cfg, n);
      }
      assert Settles(t, lo, env, cfg, end, enough);
    } else {
      forall n: nat ensures Run(t, Repeat(env, n), cfg) == t {
        ShortChainsAreIgnored(a, lo, hi, Repeat(env, n), cfg);
      }
      forall end: nat, enough: nat ensures !Settles(t, lo, env, cfg, end, enough) {
        assert Run(t, Repeat(env, enough), cfg).checkpoint == Some(hi - 1);
      }
    }
  }

  // ------------------------------------------- runs in which the chain keeps changing

  /** The chains a run may meet: well-formed, hash-committed to their blocks, sharing the start below `lo`. */
  ghost predicate Universe(chains: set<Chain>, lo: nat) {
    && (forall c :: c in chains ==> ChainOk(c) && |c| <= I64_MAX)
    && (forall c, d :: c in chains && d in chains ==> Committed(c, d) && RootAgrees(c, d, lo))
  }

  ghost predicate EnvsOver(envs: seq<Env>, chains: set<Chain>) {
    forall i :: 0 <= i < |envs| ==> Steady(envs[i]) && Lossless(envs[i]) && envs[i].chain in chains
  }

  /** No cycle of the run builds on a stale tip. */
  ghost predicate SoundRun(t: Tables, envs: seq<Env>, cfg: Config)
    requires cfg.batch > 0 && forall i :: 0 <= i < |envs| ==> EnvOk(envs[i])
    decreases |envs|
  {
    if envs == [] then true
    else
      assert EnvOk(envs[0]);
      SoundCycle(t, envs[0], cfg) && SoundRun(Cycle(t, envs[0], cfg).0, envs[1..], cfg)
  }

  /**
   * Safety over whole runs: however the chain is replaced between cycles, the tables always equal
   * the tables of indexing a single chain of the run.
   */
  lemma {:induction false} SoundRunKeepsStore(
      chains: set<Chain>, a: Chain, lo: nat, hi: nat, envs: seq<Env>, cfg: Config)
    returns (c: Chain, h: nat)
    requires Universe(chains, lo) && a in chains && EnvsOver(envs, chains) && cfg.batch > 0
    requires lo <= hi && 1 <= hi <= |a| && SoundRun(Store(a, lo, hi), envs, cfg)
    ensures c in chains && lo <= h && 1 <= h <= |c| && Run(Store(a, lo, hi), envs, cfg) == Store(c, lo, h)
    decreases |envs|
  {
    hide Cycle, ChainOk, Committed, SoundCycle, Store, EnvOk, NoFailure, Universe, Lossless;
    if envs == [] {
      c, h := a, hi;
    } else {
      var b, next := SoundCycleSuccessor(chains, a, lo, hi, envs[0], cfg);
      c, h := SoundRunKeepsStore(chains, b, lo, next, envs[1..], cfg);
    }
  }

  lemma {:induction false} SoundCycleSuccessor(chains: set<Chain>, a: Chain, lo: nat, hi: nat, env: Env, cfg: Config)
    returns (b: Chain, next: nat)
    requires Universe(chains, lo) && a in chains && env.chain in chains && Steady(env) && Lossless(env) && cfg.batch > 0
    requires lo <= hi && 1 <= hi <= |a| && SoundCycle(Store(a, lo, hi), env, cfg)
    ensures b in chains && lo <= next && 1 <= next <= |b| && Cycle(Store(a, lo, hi), env, cfg).0 == Store(b, lo, next)
  {
    hide Cycle, ScanTables, CycleTarget, Store, ChainOk, Committed, SoundCycle;
    SoundCycleKeepsStore(a, lo, hi, env, cfg);
    var t := Store(a, lo, hi);
    var scan := ScanTables(t, REORG_SCAN_CAP, env.chain, env.down);
    var target := CycleTarget(t.checkpoint, env, cfg);
    if scan.Some? {
      b, next := a, scan.value;
    } else if target.None? {
      b, next := a, hi;
    } else {
      b, next := env.chain, Reached(hi, target.value.to, cfg.batch, env.events);
    }
  }

  /**
   * After any sound history of chain changes, cancellations and idle cycles, a healthy node brings
   * the loop to the tables of its own chain, with every confirmed block above `lo` indexed, for good,
   * if and only if its chain reaches the checkpoint.
   */
  lemma {:induction false} ConvergesAfterAnySoundHistory(
      chains: set<Chain>, a: Chain, lo: nat, hi: nat, history: seq<Env>, env: Env, cfg: Config)
    requires Universe(chains, lo) && a in chains && EnvsOver(history, chains) && cfg.batch > 0
    requires lo <= hi && 1 <= hi <= |a| && SoundRun(Store(a, lo, hi), history, cfg)
    requires Healthy(env, lo) && env.chain in chains
    ensures var t := Run(Store(a, lo, hi), history, cfg);
            && t.checkpoint.Some?
            && ((exists end: nat, enough: nat :: end > Safe(env, cfg) && Settles(t, lo, env, cfg, end, enough))
                <==> t.checkpoint.value < |env.chain|)
            && (t.checkpoint.value >= |env.chain| ==> forall n: nat :: Run(t, Repeat(env, n), cfg) == t)
  {
    var c, h := SoundRunKeepsStore(chains, a, lo, hi, history, cfg);
    assert Recoverable(c, lo, h, env);
    assert EnvOk(env);
    hide Cycle, Run, ChainOk, Committed, Healthy, EnvOk, SoundRun, Universe, EnvsOver;
    FollowConvergesIff(c, lo, h, env, cfg);
    if h <= |env.chain| {
      assert SettledEnd(c, lo, h, env, cfg) > Safe(env, cfg);
    }
  }

  /** A database without a checkpoint starts at the safe tip and not earlier. */
  lemma FirstCycleStartsAtSafeTip(env: Env, cfg: Config)
    requires Healthy(env, 0) && cfg.batch > 0
    ensures var empty := Tables(map[], {}, map[], None);
            Cycle(empty, env, cfg).0 == Store(env.chain, Safe(env, cfg), Safe(env, cfg) + 1)
  {
    var empty := Tables(map[], {}, map[], None);
    var safe := Safe(env, cfg);
    assert HashedHeights(empty.block) == {};
    assert ScanTables(empty, REORG_SCAN_CAP, env.chain, env.down).None?;
    ServedInFull(env.chain);
    FirstIngest(env.chain, safe, cfg.batch);
  }

  lemma FirstIngest(c: Chain, safe: nat, batch: nat)
    requires ChainOk(c) && safe < |c| && batch > 0
    ensures IndexFrom(Tables(map[], {}, map[], None), c, safe, safe, batch, []).0 == Store(c, safe, safe + 1)
  {
    var empty := Tables(map[], {}, map[], None);
    assert empty == Indexed(c, {}, None);
    IngestIntoIndexed(c, {}, None, safe);
    assert Heights(safe, safe + 1) == {} + {safe};
    assert Range(safe, safe + 1) == [safe];
    assert IngestAll(empty, c, [safe]) == Ingest(empty, safe, c[safe]);
    assert IndexFrom(empty, c, safe, safe, batch, []).0 == IndexChunk(empty, c, safe, safe);
  }

  // ------------------------------------------------------- the cap of the scan

  /** `n` rounds of scan and rollback, without indexing in between. */
  ghost function Rollbacks(t: Tables, chain: Chain, cap: nat, n: nat): Tables
    requires cap <= USIZE_MAX
    decreases n
  {
    if n == 0 then t
    else
      match ScanTables(t, cap, chain, {})
      case None => Rollbacks(t, chain, cap, n - 1)
      case Some(f) => Rollbacks(Rollback(t, f), chain, cap, n - 1)
  }

  /** Rounds of capped scans end in the same tables and checkpoint as one rollback at the fork point. */
  lemma {:induction false} CappedRollbacksReachForkPoint(a: Chain, b: Chain, lo: nat, hi: nat, cap: nat, n: nat)
    requires ChainOk(a) && ChainOk(b) && Committed(a, b) && 1 <= cap <= USIZE_MAX
    requires lo <= hi <= |a| && 1 <= hi <= |b| && RootAgrees(a, b, lo)
    requires hi - ForkPoint(a, b, lo, hi) <= n * cap
    ensures Rollbacks(Store(a, lo, hi), b, cap, n) == Store(a, lo, ForkPoint(a, b, lo, hi))
    decreases n
  {
    hide Rollback, ScanTables, Store, ChainOk, Committed, ForkPoint, Agree;
    var p := ForkPoint(a, b, lo, hi);
    ScanOfStore(a, b, {}, lo, hi, cap);
    if n > 0 {
      var f := Max(p, hi - cap);
      assert n * cap == (n - 1) * cap + cap;
      if p < hi {
        ForkPointAboveRoot(a, b, lo, hi);
        RollbackOfStore(a, lo, hi, f);
        ForkPointBelow(a, b, lo, hi, f);
        assert f - p <= (n - 1) * cap;
        CappedRollbacksReachForkPoint(a, b, lo, f, cap, n - 1);
      } else {
        assert hi - p <= (n - 1) * cap;
        CappedRollbacksReachForkPoint(a, b, lo, hi, cap, n - 1);
      }
    }
  }

  /** The scan cap does not change the outcome: an uncapped scan rolls back to the same tables at once. */
  lemma ScanCapIsImmaterial(a: Chain, b: Chain, lo: nat, hi: nat, cap: nat, n: nat)
    requires ChainOk(a) && ChainOk(b) && Committed(a, b) && 1 <= cap <= USIZE_MAX
    requires lo <= hi <= |a| <= USIZE_MAX && 1 <= hi && RootAgrees(a, b, lo)
    requires hi - ForkPoint(a, b, lo, hi) <= n * cap
    ensures var t := Store(a, lo, hi);
            Rollbacks(t, b, cap, n) == match ScanTables(t, hi, b, {}) case Some(f) => Rollback(t, f) case None => t
  {
    hide Rollback, ScanTables, Store, ChainOk, Committed;
    if |b| < hi {
      ShortChainScan(a, lo, hi, b, {}, hi);
      NoRollbackOnShortChain(a, b, lo, hi, cap, n);
    } else {
      CappedRollbacksReachForkPoint(a, b, lo, hi, cap, n);
      ScanOfStore(a, b, {}, lo, hi, hi);
      ForkPointAboveRoot(a, b, lo, hi);
      RollbackOfStore(a, lo, hi, ForkPoint(a, b, lo, hi));
    }
  }

  lemma {:induction false} NoRollbackOnShortChain(a: Chain, b: Chain, lo: nat, hi: nat, cap: nat, n: nat)
    requires lo <= hi <= |a| && |b| < hi && cap <= USIZE_MAX
    ensures Rollbacks(Store(a, lo, hi), b, cap, n) == Store(a, lo, hi)
    decreases n
  {
    hide Rollback, ScanTables, Store;
    if n > 0 {
      ShortChainScan(a, lo, hi, b, {}, cap);
      NoRollbackOnShortChain(a, b, lo, hi, cap, n - 1);
    }
  }
}
