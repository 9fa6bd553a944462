/**
 * Receipts and traces the node withholds. Absent receipts count as an empty list and a failed
 * trace is skipped, so the chunk succeeds and the checkpoint moves over a block that is not
 * completely stored; nothing ever comes back for it.
 */
module LostRows {
  import opened ChainTables
  import opened Indexing
  import opened IndexedStore
  import opened FollowLoop

  /** Every part of block `n` that this cycle cannot read is already stored. */
  ghost predicate LossesWereStored(t: Tables, env: Env, n: nat)
    requires n < |env.chain|
  {
    var full, served := env.chain[n], Readable(env)[n];
    && (forall x :: x in full.txs && x !in served.txs ==> KnownTx(t, x))
    && (forall d :: d in full.rows && d !in served.rows ==> d in t.dependents)
  }

  lemma {:induction false} NewTransaction(t: Tables, env: Env, from: nat, to: nat, u: Tables, n: nat, x: TxHash)
    requires EnvOk(env) && n < |env.chain| && x in env.chain[n].txs && x !in Readable(env)[n].txs
    requires Adds(t, u, Readable(env), from, to)
    ensures KnownTx(u, x) <==> KnownTx(t, x)
  {
    forall r | r in u.transaction && r !in t.transaction ensures r.tx != x {
      assert r.tx in Readable(env)[r.block].txs && Readable(env)[r.block].txs <= env.chain[r.block].txs;
      assert r.block != n ==> r.tx !in env.chain[n].txs;
    }
    assert t.transaction <= u.transaction;
  }

  lemma {:induction false} NewRow(t: Tables, env: Env, from: nat, to: nat, u: Tables, n: nat, d: DepRow)
    requires EnvOk(env) && n < |env.chain| && d in env.chain[n].rows && d !in Readable(env)[n].rows
    requires Adds(t, u, Readable(env), from, to)
    ensures d in u.dependents <==> d in t.dependents
  {
    RowHasOneBlock(env.chain, n, d);
    forall m | from <= m <= to && m < |env.chain| ensures d !in Readable(env)[m].rows {
      assert Readable(env)[m].rows <= env.chain[m].rows;
    }
    assert !RowOf(Readable(env), from, to, d);
    assert Copies(t, d) <= Copies(u, d);
  }

  /**
   * The blocks one cycle passes are complete exactly as far as nothing of them was withheld that
   * was not stored before.
   */
  lemma {:induction false} PassedBlockIsCoveredIff(t: Tables, env: Env, cfg: Config, n: nat)
    requires EnvOk(env) && cfg.batch > 0 && Quiet(t, env.chain) && NoStaleRowFrom(t, env.chain, NextHeight(t))
    requires NextHeight(t) <= n < NextHeight(Cycle(t, env, cfg).0) && n < |env.chain|
    ensures Covered(Cycle(t, env, cfg).0, env.chain, n) <==> LossesWereStored(t, env, n)
  {
    hide IndexFrom, ChainOk, Covered, Readable, Cycle, TipAgrees, Adds, Completed, CycleTarget, EnvOk;
    var served := Readable(env);
    var r := QuietCycleIndexes(t, env, cfg);
    var u := Cycle(t, env, cfg).0;
    ServedIsNotStale(t, env, NextHeight(t));
    InterruptedIndexingIsComplete(t, served, r.from, r.to, cfg.batch, env.events);
    IndexFromAdds(t, served, r.from, r.to, cfg.batch, env.events);
    IndexFromCheckpoint(t, served, r.from, r.to, cfg.batch, env.events);
    CompletedCovers(t, u, served, r.from, Reached(r.from, r.to, cfg.batch, env.events), n);
    CoveredUpToLosses(t, u, env, r.from, r.to, n);
  }

  /** A quiet cycle that moves the checkpoint indexes from the next height on. */
  lemma {:induction false} QuietCycleIndexes(t: Tables, env: Env, cfg: Config) returns (r: BlockRange)
    requires EnvOk(env) && cfg.batch > 0 && Quiet(t, env.chain)
    requires NextHeight(t) < NextHeight(Cycle(t, env, cfg).0)
    ensures t.checkpoint.Some? && r.from == NextHeight(t) <= r.to < |env.chain|
    ensures Cycle(t, env, cfg).0 == IndexFrom(t, Readable(env), r.from, r.to, cfg.batch, env.events).0
  {
    hide ScanTables, IndexFrom, ChainOk, Readable, TipAgrees;
    QuietScanIsSilent(t, env.chain, env.down);
    r := CycleTarget(t.checkpoint, env, cfg).value;
  }

  lemma {:induction false} ServedIsNotStale(t: Tables, env: Env, from: nat)
    requires NoStaleRowFrom(t, env.chain, from)
    ensures NoStaleRowFrom(t, Readable(env), from)
  {
  }

  lemma CompletedCovers(t: Tables, u: Tables, c: Chain, start: nat, next: nat, n: nat)
    requires Completed(t, u, c, start, next) && start <= n < next
    ensures Covered(u, c, n)
  {
  }

  lemma {:induction false} CoveredUpToLosses(t: Tables, u: Tables, env: Env, from: nat, to: nat, n: nat)
    requires EnvOk(env) && n < |env.chain| && Adds(t, u, Readable(env), from, to) && Covered(u, Readable(env), n)
    ensures Covered(u, env.chain, n) <==> LossesWereStored(t, env, n)
  {
    var full, served := env.chain[n], Readable(env)[n];
    assert served.rows <= full.rows && served.txs <= full.txs && Row(served) == Row(full);
    hide ChainOk, Adds, Readable;
    forall x | x in full.txs && x !in served.txs ensures KnownTx(u, x) <==> KnownTx(t, x) {
      NewTransaction(t, env, from, to, u, n, x);
    }
    forall d | d in full.rows && d !in served.rows ensures d in u.dependents <==> d in t.dependents {
      NewRow(t, env, from, to, u, n, d);
    }
  }

  /** Nothing of block `n` is stored. */
  ghost predicate Untouched(t: Tables, b: ChainBlock) {
    (forall x :: x in b.txs ==> !KnownTx(t, x)) && (forall d :: d in b.rows ==> d !in t.dependents)
  }

  /** A block the cycle is the first to read is complete if and only if the node served all of it. */
  lemma {:induction false} FreshBlockIsCoveredIff(t: Tables, env: Env, cfg: Config, n: nat)
    requires EnvOk(env) && cfg.batch > 0 && Quiet(t, env.chain) && NoStaleRowFrom(t, env.chain, NextHeight(t))
    requires NextHeight(t) <= n < NextHeight(Cycle(t, env, cfg).0) && n < |env.chain| && Untouched(t, env.chain[n])
    ensures Covered(Cycle(t, env, cfg).0, env.chain, n) <==> Readable(env)[n] == env.chain[n]
  {
    hide Cycle, ChainOk, NoStaleRowFrom, Quiet, Covered;
    PassedBlockIsCoveredIff(t, env, cfg, n);
    var full, served := env.chain[n], Readable(env)[n];
    assert served.rows <= full.rows && served.txs <= full.txs;
    assert served == full <==> served.rows == full.rows && served.txs == full.txs;
    assert LossesWereStored(t, env, n) ==> full.rows <= served.rows && full.txs <= served.txs;
  }

  /**
   * What the node must withhold for a block to be read incompletely: its receipts, or the trace of one
   * of its transactions.
   */
  lemma BlockIsReadInFullIff(env: Env, n: nat)
    requires n < |env.chain|
    ensures Readable(env)[n] == env.chain[n] <==>
            if n in env.noReceipts then env.chain[n].txs == {} && env.chain[n].rows == {}
            else forall d :: d in env.chain[n].rows && NeedsTrace(d.table) ==> d.tx !in env.noTrace
  {
    var full, served := env.chain[n], Readable(env)[n];
    assert served == full <==> served.rows == full.rows && served.txs == full.txs;
  }

  /**
   * What was lost stays lost: on an agreeing chain no later run, however healthy, completes a
   * block at or below the checkpoint, and none damages one.
   */
  lemma {:induction false} PassedBlockIsNeverRepaired(t: Tables, b: Chain, later: seq<Env>, cfg: Config, n: nat)
    requires Quiet(t, b) && ChainOk(b) && cfg.batch > 0 && n < NextHeight(t) && n < |b|
    requires forall i :: 0 <= i < |later| ==> EnvOk(later[i]) && later[i].chain == b
    ensures Covered(Run(t, later, cfg), b, n) <==> Covered(t, b, n)
  {
    var v := Run(t, later, cfg);
    SettledRowsStay(t, b, later, cfg);
    hide Run, Quiet, EnvOk;
    forall r | r in v.transaction && r !in t.transaction ensures r.tx !in b[n].txs {
      assert r.tx in b[r.block].txs && r.block != n;
    }
    assert t.transaction <= v.transaction;
    forall x | x in b[n].txs ensures KnownTx(v, x) <==> KnownTx(t, x) {
      if r :| r in t.transaction && r.tx == x { assert r in v.transaction; }
    }
    forall d | d in b[n].rows ensures d in v.dependents <==> d in t.dependents {
      RowHasOneBlock(b, n, d);
      assert !RowOf(b, NextHeight(t), |b|, d);
      assert Copies(t, d) <= Copies(v, d);
    }
  }
}
