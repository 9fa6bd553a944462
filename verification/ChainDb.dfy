/**
 * The database as the indexer updates it: each method runs the statements of one query, or
 * the loop of the worker, on the tables in place, and is proved against its value-level meaning.
 */
module ChainDb {
  import opened Options
  import opened ForkScanning
  import opened ChainTables
  import opened Indexing
  import opened IndexedStore
  import opened Interleaving
  import opened FollowLoop

  class Database {
    var block: map<nat, BlockRow>
    var transaction: set<TxRow>
    var dependents: map<DepRow, Count>
    var checkpoint: Option<int>

    function Snapshot(): Tables
      reads this
    {
      Tables(block, transaction, dependents, checkpoint)
    }

    constructor ()
      ensures Snapshot() == Tables(map[], {}, map[], None)
    {
      block, transaction, dependents, checkpoint := map[], {}, map[], None;
    }

    /** One DELETE FROM <table> WHERE tx_hash IN (SELECT ...). */
    method DeleteDependentRows(table: Dependent, from: int)
      modifies this`dependents
      ensures Snapshot() == DeleteDependents(old(Snapshot()), table, from)
    {
      var stale := set r | r in transaction && r.block >= from :: r.tx;
      dependents := map d | d in dependents && !(d.table == table && d.tx in stale) :: dependents[d];
    }

    /** DELETE FROM transaction WHERE block_number >= from */
    method DeleteTransactionRows(from: int)
      modifies this`transaction
      ensures Snapshot() == DeleteTransactions(old(Snapshot()), from)
    {
      transaction := set r | r in transaction && r.block < from;
    }

    /** DELETE FROM block WHERE block_number >= from; the number of deleted rows is returned. */
    method DeleteBlockRows(from: int) returns (rows: nat)
      modifies this`block
      ensures Snapshot() == DeleteBlocks(old(Snapshot()), from)
      ensures rows == |old(block)| - |block|
    {
      var kept := BlocksBelow(block, from);
      rows := |block.Keys - kept.Keys|;
      assert block.Keys == (block.Keys - kept.Keys) + kept.Keys;
      block := kept;
    }

    /** Delete everything from block `from` on and rewind the checkpoint; the number of deleted blocks is returned. */
    method RollbackFromBlock(from: int) returns (blocks: nat)
      modifies this
      ensures Snapshot() == Rollback(old(Snapshot()), from)
      ensures blocks == |old(block)| - |block|
    {
      ghost var t := Snapshot();
      var resume := Max(from - 1, 0);
      for k := 0 to 5
        invariant Snapshot() == RollbackPrefix(t, from, k) && block == t.block
      {
        DeleteDependentRows(DEPENDENT_ORDER[k], from);
        assert Snapshot() == RollbackPrefix(t, from, k + 1);
      }
      hide DeleteTransactions, DeleteBlocks;
      DeleteTransactionRows(from);
      assert Snapshot() == RollbackPrefix(t, from, 6);
      blocks := DeleteBlockRows(from);
      assert Snapshot() == RollbackPrefix(t, from, 7);
      if checkpoint.Some? {
        checkpoint := Some(resume);
      }
      assert Snapshot() == RollbackPrefix(t, from, 8);
    }

    /** Upsert of the checkpoint row. */
    method UpdateCheckpoint(n: int)
      modifies this`checkpoint
      ensures Snapshot() == SetCheckpoint(old(Snapshot()), n)
    {
      checkpoint := Some(n);
    }

    /** INSERT INTO block ... ON CONFLICT (block_number) DO NOTHING */
    method InsertBlock(n: nat, b: ChainBlock)
      modifies this`block
      ensures Snapshot() == InsertBlockRow(old(Snapshot()), n, b)
    {
      if n !in block {
        block := block[n := BlockRow(Some(b.hash), Some(b.parent))];
      }
    }

    /** INSERT INTO transaction ... ON CONFLICT (tx_hash) DO NOTHING */
    method InsertBlockTransactions(n: nat, b: ChainBlock)
      modifies this`transaction
      ensures Snapshot() == InsertTransactions(old(Snapshot()), n, b)
    {
      var known := set r | r in transaction :: r.tx;
      var added := set x | x in b.txs && x !in known :: TxRow(x, n);
      assert added == set x | x in b.txs && !KnownTx(Snapshot(), x) :: TxRow(x, n);
      transaction := transaction + added;
    }

    /** The insert of one dependent table: rows already there are skipped, except that trace rows are appended again. */
    method InsertDependentRows(table: Dependent, b: ChainBlock)
      modifies this`dependents
      ensures Snapshot() == InsertDependents(old(Snapshot()), table, b)
    {
      var added := set d | d in b.rows && d.table == table;
      var newRows := map d | d in added && d !in dependents :: 1 as Count;
      if table.TraceLog? {
        var again := map d | d in added && d in dependents :: (dependents[d] + 1) as Count;
        dependents := dependents + newRows + again;
      } else {
        dependents := dependents + newRows;
      }
      assert dependents == AddRows(old(dependents), RowsFor(b, table));
    }

    method ExecuteStatement(n: nat, b: ChainBlock, k: nat)
      requires 1 <= k <= 7
      modifies this
      ensures Snapshot() == InsertStatement(old(Snapshot()), n, b, k)
    {
      if k == 1 {
        InsertBlock(n, b);
      } else if k == 2 {
        InsertBlockTransactions(n, b);
      } else {
        InsertDependentRows(DEPENDENT_ORDER[k - 3], b);
      }
    }

    /** The insert statements of one block, stopping after `statements` of them. */
    method ProcessBlock(n: nat, b: ChainBlock, statements: nat)
      requires statements <= 7
      modifies this
      ensures Snapshot() == IngestPrefix(old(Snapshot()), n, b, statements)
    {
      for k := 0 to statements
        invariant Snapshot() == IngestPrefix(old(Snapshot()), n, b, k)
      {
        ExecuteStatement(n, b, k + 1);
      }
    }

    /**
     * All blocks of one chunk, concurrently: whichever block is scheduled next executes its next
     * statement. Every schedule gives the tables of ingesting the blocks one after the other.
     */
    method ProcessChunk(chain: Chain, start: nat, end: nat)
      requires ChainOk(chain) && start <= end < |chain|
      modifies this
      ensures Snapshot() == IngestAll(old(Snapshot()), chain, Range(start, end + 1))
    {
      hide InsertStatement, ChainOk, IngestAll, Range, Scheduled, ExecAll, AllSteps, Interleaves, Whole;
      var progress: seq<nat> := seq(end + 1 - start, _ => 0);
      var todo := AllSteps(start, end + 1);
      ghost var steps: seq<Step> := [];
      NothingScheduled(start, end);
      NothingExecuted(Snapshot(), chain);
      while todo != {}
        invariant StepsOk(steps, chain) && Snapshot() == ExecAll(old(Snapshot()), chain, steps)
        invariant Scheduled(start, end, progress, todo, steps)
        decreases |todo|
      {
        var s: Step :| s in todo;
        NextStatement(start, end, progress, todo, steps, s);
        var i := s.n - start;
        var next := Step(s.n, progress[i] + 1);
        ExecAllAppend(old(Snapshot()), chain, steps, next);
        ScheduledStep(start, end, progress, todo, steps, i);
        ExecuteStatement(next.n, chain[next.n], next.k);
        steps := steps + [next];
        progress := progress[i := next.k];
        todo := todo - {next};
      }
      AllScheduled(start, end, progress, todo, steps);
      FinishedChunk(old(Snapshot()), chain, start, end, steps);
    }

    /** The failed chunk: the statements that ran before the error. */
    method ProcessPartially(chain: Chain, start: nat, end: nat, done: seq<(nat, nat)>)
      modifies this
      ensures Snapshot() == IngestSome(old(Snapshot()), chain, BlockRange(start, end), done)
    {
      assert done[0..] == done;
      for i := 0 to |done|
        invariant IngestSome(Snapshot(), chain, BlockRange(start, end), done[i..])
               == IngestSome(old(Snapshot()), chain, BlockRange(start, end), done)
      {
        assert done[i..][0] == done[i] && done[i..][1..] == done[i + 1..];
        var (n, k) := done[i];
        if n < |chain| && start <= n <= end && k <= 7 {
          ProcessBlock(n, chain[n], k);
        }
      }
    }

    /** The body of the chunk loop: look at the cancellation flag, process, move the checkpoint. */
    method RunChunk(chain: Chain, start: nat, end: nat, event: ChunkEvent) returns (signal: Signal)
      requires ChainOk(chain) && start <= end < |chain|
      modifies this
      ensures (Snapshot(), signal) == ChunkStep(old(Snapshot()), chain, start, end, event)
      ensures signal.Finished? <==> event.Process?
    {
      match event
      case Cancel =>
        signal := Cancelled;
      case Fail(done) =>
        ProcessPartially(chain, start, end, done);
        signal := Failed;
      case Process =>
        ProcessChunk(chain, start, end);
        UpdateCheckpoint(end);
        signal := Finished;
    }

    /**
     * Index `[from, to]` chunk by chunk. The checkpoint follows every finished chunk; `processed`
     * lists the blocks of the finished chunks in the order they were done.
     */
    method IndexRange(chain: Chain, from: nat, to: nat, batch: nat, events: seq<ChunkEvent>)
      returns (signal: Signal, ghost processed: seq<nat>)
      requires ChainOk(chain) && batch > 0 && to < |chain|
      modifies this
      ensures (Snapshot(), signal) == IndexFrom(old(Snapshot()), chain, from, to, batch, events)
      ensures processed == Range(from, Reached(from, to, batch, events))
    {
      hide ChunkStep, Range;
      ghost var result := IndexFrom(Snapshot(), chain, from, to, batch, events);
      ghost var reached := Reached(from, to, batch, events);
      processed := [];
      assert Range(from, from) == [];
      var chunkStart := from;
      var later := events;
      while chunkStart <= to
        invariant from <= chunkStart
        invariant IndexFrom(Snapshot(), chain, Max(from, Min(chunkStart, to + 1)), to, batch, later) == result
        invariant Reached(Max(from, Min(chunkStart, to + 1)), to, batch, later) == reached
        invariant processed == Range(from, Max(from, Min(chunkStart, to + 1)))
        decreases 1 + to - chunkStart
      {
        var chunkEnd := Min(chunkStart + batch - 1, to);
        signal := RunChunk(chain, chunkStart, chunkEnd, NextEvent(later));
        if !signal.Finished? {
          return;
        }
        processed := processed + Range(chunkStart, chunkEnd + 1);
        RangeSplit(from, chunkStart, chunkEnd + 1);
        later := LaterEvents(later);
        chunkStart := chunkStart + batch;
      }
      signal := Finished;
    }

    /**
     * The follow loop over the environment's answers, one per cycle: check for a reorg first and
     * roll back, otherwise index the capped target. It stops early on cancellation or on an error.
     */
    method Follow(envs: seq<Env>, cfg: Config) returns (cycles: nat, signal: Signal, ghost processed: seq<nat>)
      requires cfg.batch > 0 && forall i :: 0 <= i < |envs| ==> EnvOk(envs[i])
      modifies this
      ensures cycles <= |envs| && (envs == [] ==> signal.Finished?)
      ensures forall j :: 0 <= j < cycles - 1 ==> SignalOf(OutcomeAt(old(Snapshot()), envs, j, cfg)).Finished?
      ensures cycles > 0 ==> signal == SignalOf(OutcomeAt(old(Snapshot()), envs, cycles - 1, cfg))
      ensures cycles < |envs| ==> cycles > 0 && !signal.Finished?
      ensures Snapshot() == Run(old(Snapshot()), envs[..cycles], cfg)
      ensures processed == RunProcessed(old(Snapshot()), envs[..cycles], cfg)
    {
      hide Cycle, CycleProcessed, EnvOk, SignalOf;
      cycles, processed, signal := 0, [], Finished;
      while cycles < |envs|
        invariant cycles <= |envs|
        invariant Snapshot() == Run(old(Snapshot()), envs[..cycles], cfg)
        invariant processed == RunProcessed(old(Snapshot()), envs[..cycles], cfg)
        invariant signal.Finished?
        invariant forall j :: 0 <= j < cycles ==> SignalOf(OutcomeAt(old(Snapshot()), envs, j, cfg)).Finished?
      {
        var env := envs[cycles];
        assert envs[..cycles + 1] == envs[..cycles] + [env];
        RunConcat(old(Snapshot()), envs[..cycles], [env], cfg);
        RunProcessedConcat(old(Snapshot()), envs[..cycles], env, cfg);
        cycles := cycles + 1;
        ghost var more: seq<nat>;
        signal, more := FollowCycle(env, cfg);
        processed := processed + more;
        if !signal.Finished? {
          return;
        }
      }
    }

    /** One cycle; `processed` lists the blocks it finished, in order. */
    method FollowCycle(env: Env, cfg: Config) returns (signal: Signal, ghost processed: seq<nat>)
      requires cfg.batch > 0 && EnvOk(env)
      modifies this
      ensures Snapshot() == Cycle(old(Snapshot()), env, cfg).0
      ensures processed == CycleProcessed(old(Snapshot()), env, cfg)
      ensures signal == SignalOf(Cycle(old(Snapshot()), env, cfg).1)
    {
      hide RecentBlockHashes, Rollback, IndexFrom, ChainOk, Range, Reached, Detect;
      var local := RecentBlockHashes(block, REORG_SCAN_CAP);
      RecentBlockHashesSound(block, REORG_SCAN_CAP);
      var fork, _ := DetectFork(local, Lookup(env.chain, env.down));
      if fork.Some? {
        var _ := RollbackFromBlock(fork.value);
        return Finished, [];
      }
      if env.head.None? {
        return Failed, [];
      }
      match NextTarget(env.head.value, cfg.confirmations, checkpoint)
      case Some(range) =>
        var capped := CapRangeTo(range, FOLLOW_CYCLE_BLOCK_CAP);
        ReadableChain(env);
        signal, processed := IndexRange(Readable(env), capped.from, capped.to, cfg.batch, env.events);
      case None =>
        signal, processed := Finished, [];
    }
  }
}
