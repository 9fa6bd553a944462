/**
 * A chunk's blocks are processed concurrently: their insert statements interleave in any way
 * that keeps each block's own order. The outcome depends only on how far each block got.
 */
module Interleaving {
  import opened Options
  import opened ChainTables
  import opened Indexing
  import opened IndexedStore

  /** Statement `k` of block `n`. */
  datatype Step = Step(n: nat, k: nat)

  ghost predicate StepsOk(steps: seq<Step>, c: Chain) {
    forall i :: 0 <= i < |steps| ==> steps[i].n < |c| && 1 <= steps[i].k <= 7
  }

  ghost function ExecAll(t: Tables, c: Chain, steps: seq<Step>): Tables
    requires StepsOk(steps, c)
    decreases |steps|
  {
    if steps == [] then t
    else
      assert steps[0].n < |c|;
      ExecAll(InsertStatement(t, steps[0].n, c[steps[0].n], steps[0].k), c, steps[1..])
  }

  lemma {:induction false} ExecAllAppend(t: Tables, c: Chain, steps: seq<Step>, s: Step)
    requires StepsOk(steps, c) && s.n < |c| && 1 <= s.k <= 7
    ensures StepsOk(steps + [s], c)
    ensures ExecAll(t, c, steps + [s]) == InsertStatement(ExecAll(t, c, steps), s.n, c[s.n], s.k)
    decreases |steps|
  {
    hide InsertStatement;
    if steps == [] {
      assert steps + [s] == [s];
      assert ExecAll(t, c, [s]) == ExecAll(InsertStatement(t, s.n, c[s.n], s.k), c, []);
    } else {
      assert (steps + [s])[1..] == steps[1..] + [s];
      ExecAllAppend(InsertStatement(t, steps[0].n, c[steps[0].n], steps[0].k), c, steps[1..], s);
    }
  }

  lemma NothingExecuted(t: Tables, c: Chain)
    ensures StepsOk([], c) && ExecAll(t, c, []) == t
  {
  }

  // -------------------------------------------- statements of two blocks commute

  lemma AddRowsCommute(stored: map<DepRow, Count>, a: set<DepRow>, b: set<DepRow>)
    ensures AddRows(AddRows(stored, a), b) == AddRows(AddRows(stored, b), a)
  {
  }

  lemma {:induction false} TransactionsCommute(t: Tables, c: Chain, n: nat, m: nat)
    requires ChainOk(c) && n < |c| && m < |c| && n != m
    ensures InsertTransactions(InsertTransactions(t, n, c[n]), m, c[m])
        == InsertTransactions(InsertTransactions(t, m, c[m]), n, c[n])
  {
    KnownAfter(t, c, n, m);
    KnownAfter(t, c, m, n);
  }

  lemma {:induction false} KnownAfter(t: Tables, c: Chain, n: nat, m: nat)
    requires ChainOk(c) && n < |c| && m < |c| && n != m
    ensures forall x :: x in c[m].txs ==> (KnownTx(InsertTransactions(t, n, c[n]), x) <==> KnownTx(t, x))
  {
    var u := InsertTransactions(t, n, c[n]);
    forall x | x in c[m].txs ensures KnownTx(u, x) <==> KnownTx(t, x) {
      if r :| r in t.transaction && r.tx == x { assert r in u.transaction; }
    }
  }

  /** Statements of different blocks commute. */
  lemma {:induction false} StatementsCommute(t: Tables, c: Chain, n: nat, k: nat, m: nat, j: nat)
    requires ChainOk(c) && n < |c| && m < |c| && n != m && 1 <= k <= 7 && 1 <= j <= 7
    ensures InsertStatement(InsertStatement(t, n, c[n], k), m, c[m], j)
        == InsertStatement(InsertStatement(t, m, c[m], j), n, c[n], k)
  {
    if k == 1 && j == 1 {
      assert n in t.block || m in t.block || t.block[n := Row(c[n])][m := Row(c[m])]
          == t.block[m := Row(c[m])][n := Row(c[n])];
    } else if k == 2 && j == 2 {
      TransactionsCommute(t, c, n, m);
    } else if k > 2 && j > 2 {
      AddRowsCommute(t.dependents, RowsFor(c[n], DEPENDENT_ORDER[k - 3]), RowsFor(c[m], DEPENDENT_ORDER[j - 3]));
    }
  }

  // --------------------------------------------------- one block at a time

  /** The statements of block `n`, in order. */
  function Of(steps: seq<Step>, n: nat): (ks: seq<nat>)
    ensures forall i :: 0 <= i < |ks| ==> Step(n, ks[i]) in steps
  {
    if steps == [] then []
    else if steps[0].n == n then [steps[0].k] + Of(steps[1..], n)
    else Of(steps[1..], n)
  }

  /** The steps of the other blocks. */
  function Others(steps: seq<Step>, n: nat): (rest: seq<Step>)
    ensures forall i :: 0 <= i < |rest| ==> rest[i] in steps && rest[i].n != n
  {
    if steps == [] then []
    else if steps[0].n == n then Others(steps[1..], n)
    else [steps[0]] + Others(steps[1..], n)
  }

  ghost predicate StatementsOk(ks: seq<nat>) {
    forall i :: 0 <= i < |ks| ==> 1 <= ks[i] <= 7
  }

  ghost function ExecBlock(t: Tables, n: nat, b: ChainBlock, ks: seq<nat>): Tables
    requires StatementsOk(ks)
    decreases |ks|
  {
    if ks == [] then t else ExecBlock(InsertStatement(t, n, b, ks[0]), n, b, ks[1..])
  }

  lemma {:induction false} BlockCommutes(t: Tables, c: Chain, n: nat, ks: seq<nat>, s: Step)
    requires ChainOk(c) && n < |c| && s.n < |c| && n != s.n && 1 <= s.k <= 7 && StatementsOk(ks)
    ensures ExecBlock(InsertStatement(t, s.n, c[s.n], s.k), n, c[n], ks)
        == InsertStatement(ExecBlock(t, n, c[n], ks), s.n, c[s.n], s.k)
    decreases |ks|
  {
    hide InsertStatement, ChainOk;
    if ks != [] {
      StatementsCommute(t, c, n, ks[0], s.n, s.k);
      BlockCommutes(InsertStatement(t, n, c[n], ks[0]), c, n, ks[1..], s);
    }
  }

  lemma PartsOk(steps: seq<Step>, c: Chain, n: nat)
    requires StepsOk(steps, c)
    ensures StatementsOk(Of(steps, n)) && StepsOk(Others(steps, n), c)
  {
    forall i | 0 <= i < |Of(steps, n)| ensures 1 <= Of(steps, n)[i] <= 7 {
      assert Step(n, Of(steps, n)[i]) in steps;
    }
    forall i | 0 <= i < |Others(steps, n)| ensures Others(steps, n)[i].n < |c| && 1 <= Others(steps, n)[i].k <= 7 {
      assert Others(steps, n)[i] in steps;
    }
  }

  /** All steps of one block can be done first. */
  lemma {:induction false} BlockFirst(t: Tables, c: Chain, steps: seq<Step>, n: nat)
    requires ChainOk(c) && n < |c| && StepsOk(steps, c)
    ensures StatementsOk(Of(steps, n)) && StepsOk(Others(steps, n), c)
    ensures ExecAll(t, c, steps) == ExecAll(ExecBlock(t, n, c[n], Of(steps, n)), c, Others(steps, n))
    decreases |steps|
  {
    hide InsertStatement, ChainOk;
    PartsOk(steps, c, n);
    if steps != [] {
      var s, rest := steps[0], steps[1..];
      BlockFirst(InsertStatement(t, s.n, c[s.n], s.k), c, rest, n);
      if s.n == n {
        OwnStepFirst(t, c, steps, n);
      } else {
        OtherStepLater(t, c, steps, n);
      }
    }
  }

  lemma {:induction false} OwnStepFirst(t: Tables, c: Chain, steps: seq<Step>, n: nat)
    requires n < |c| && StepsOk(steps, c) && steps != [] && steps[0].n == n
    requires StatementsOk(Of(steps, n)) && StatementsOk(Of(steps[1..], n))
    ensures ExecBlock(t, n, c[n], Of(steps, n))
        == ExecBlock(InsertStatement(t, n, c[n], steps[0].k), n, c[n], Of(steps[1..], n))
  {
    hide InsertStatement;
    assert Of(steps, n)[0] == steps[0].k && Of(steps, n)[1..] == Of(steps[1..], n);
  }

  lemma {:induction false} OtherStepLater(t: Tables, c: Chain, steps: seq<Step>, n: nat)
    requires ChainOk(c) && n < |c| && StepsOk(steps, c) && steps != [] && steps[0].n != n
    requires StatementsOk(Of(steps[1..], n)) && StepsOk(Others(steps, n), c) && StepsOk(Others(steps[1..], n), c)
    ensures var s := steps[0];
            ExecAll(ExecBlock(InsertStatement(t, s.n, c[s.n], s.k), n, c[n], Of(steps[1..], n)), c,
                Others(steps[1..], n))
              == ExecAll(ExecBlock(t, n, c[n], Of(steps[1..], n)), c, Others(steps, n))
  {
    hide InsertStatement, ChainOk;
    BlockCommutes(t, c, n, Of(steps[1..], n), steps[0]);
    assert Others(steps, n)[0] == steps[0] && Others(steps, n)[1..] == Others(steps[1..], n);
  }

  /** The first `k` statements. */
  function UpTo(k: nat): (ks: seq<nat>)
    ensures |ks| == k && forall i :: 0 <= i < k ==> ks[i] == i + 1
  {
    seq(k, i => i + 1)
  }

  lemma {:induction false} ExecBlockAppend(t: Tables, n: nat, b: ChainBlock, ks: seq<nat>, k: nat)
    requires StatementsOk(ks) && 1 <= k <= 7
    ensures StatementsOk(ks + [k]) && ExecBlock(t, n, b, ks + [k]) == InsertStatement(ExecBlock(t, n, b, ks), n, b, k)
    decreases |ks|
  {
    hide InsertStatement;
    if ks == [] {
      assert ks + [k] == [k];
      assert ExecBlock(t, n, b, [k]) == ExecBlock(InsertStatement(t, n, b, k), n, b, []);
    } else {
      assert (ks + [k])[1..] == ks[1..] + [k];
      ExecBlockAppend(InsertStatement(t, n, b, ks[0]), n, b, ks[1..], k);
    }
  }

  lemma {:induction false} ExecBlockIsPrefix(t: Tables, n: nat, b: ChainBlock, k: nat)
    requires k <= 7
    ensures ExecBlock(t, n, b, UpTo(k)) == IngestPrefix(t, n, b, k)
  {
    if k > 0 {
      assert UpTo(k) == UpTo(k - 1) + [k];
      ExecBlockIsPrefix(t, n, b, k - 1);
      ExecBlockAppend(t, n, b, UpTo(k - 1), k);
    }
  }

  // ------------------------------------------------------- any interleaving

  /** An interleaving in which each block of `done` got as far as it says, and no other block started. */
  ghost predicate Interleaves(steps: seq<Step>, done: seq<(nat, nat)>) {
    && (forall i, j :: 0 <= i < j < |done| ==> done[i].0 != done[j].0)
    && (forall i :: 0 <= i < |done| ==> Of(steps, done[i].0) == UpTo(done[i].1))
    && forall s :: s in steps ==> StartedIn(done, s.n)
  }

  ghost predicate StartedIn(done: seq<(nat, nat)>, n: nat) {
    exists i :: 0 <= i < |done| && done[i].0 == n
  }

  lemma {:induction false} OfOthers(steps: seq<Step>, n: nat, m: nat)
    requires n != m
    ensures Of(Others(steps, n), m) == Of(steps, m)
    decreases |steps|
  {
    if steps != [] {
      OfOthers(steps[1..], n, m);
      if steps[0].n != n {
        assert Others(steps, n)[1..] == Others(steps[1..], n);
      }
    }
  }

  lemma {:induction false} RestInterleaves(steps: seq<Step>, done: seq<(nat, nat)>)
    requires done != [] && Interleaves(steps, done)
    ensures Interleaves(Others(steps, done[0].0), done[1..])
  {
    var n, rest := done[0].0, Others(steps, done[0].0);
    forall i | 0 <= i < |done[1..]| ensures Of(rest, done[1..][i].0) == UpTo(done[1..][i].1) {
      OfOthers(steps, n, done[i + 1].0);
    }
    forall s | s in rest ensures StartedIn(done[1..], s.n) {
      var i :| 0 <= i < |done| && done[i].0 == s.n;
      assert done[1..][i - 1] == done[i];
    }
  }

  /**
   * However the statements of concurrently processed blocks interleave, and wherever each block
   * stops, the tables are those of processing the blocks one after the other.
   */
  lemma {:induction false} InterleavingIsIrrelevant(
      t: Tables, c: Chain, chunk: BlockRange, steps: seq<Step>, done: seq<(nat, nat)>)
    requires ChainOk(c) && StepsOk(steps, c) && Interleaves(steps, done)
    requires forall i :: 0 <= i < |done| ==> chunk.Contains(done[i].0) && done[i].0 < |c| && done[i].1 <= 7
    ensures ExecAll(t, c, steps) == IngestSome(t, c, chunk, done)
    decreases |done|
  {
    hide InsertStatement, ChainOk, IngestPrefix;
    if done == [] {
      assert steps == [] by { NothingStarted(steps); }
    } else {
      var (n, k) := done[0];
      BlockFirst(t, c, steps, n);
      ExecBlockIsPrefix(t, n, c[n], k);
      RestInterleaves(steps, done);
      InterleavingIsIrrelevant(IngestPrefix(t, n, c[n], k), c, chunk, Others(steps, n), done[1..]);
    }
  }

  lemma SomethingStarted(steps: seq<Step>)
    ensures steps == [] || exists s :: s in steps
  {
    if steps != [] { assert steps[0] in steps; }
  }

  lemma NothingStarted(steps: seq<Step>)
    requires Interleaves(steps, [])
    ensures steps == []
  {
    SomethingStarted(steps);
  }

  /** Every block of `[start, end)` done completely. */
  function Whole(start: nat, end: nat): (done: seq<(nat, nat)>)
    ensures |done| == if start <= end then end - start else 0
    ensures forall i :: 0 <= i < |done| ==> done[i] == (start + i, 7)
    decreases end - start
  {
    if start >= end then [] else [(start, 7)] + Whole(start + 1, end)
  }

  lemma {:induction false} WholeIsAll(t: Tables, c: Chain, chunk: BlockRange, start: nat, end: nat)
    requires chunk.from <= start <= end <= |c| && end <= chunk.to + 1
    ensures IngestSome(t, c, chunk, Whole(start, end)) == IngestAll(t, c, Range(start, end))
    decreases end - start
  {
    hide IngestPrefix;
    if start < end {
      assert Whole(start, end)[1..] == Whole(start + 1, end) && Range(start, end)[1..] == Range(start + 1, end);
      WholeIsAll(Ingest(t, start, c[start]), c, chunk, start + 1, end);
    }
  }

  /** A finished chunk: whatever the interleaving, all of its blocks are ingested. */
  lemma {:induction false} FinishedChunk(t: Tables, c: Chain, start: nat, end: nat, steps: seq<Step>)
    requires ChainOk(c) && start <= end < |c| && StepsOk(steps, c) && Interleaves(steps, Whole(start, end + 1))
    ensures ExecAll(t, c, steps) == IngestAll(t, c, Range(start, end + 1))
  {
    hide ExecAll, IngestSome, IngestAll, Interleaves, StepsOk, ChainOk;
    InterleavingIsIrrelevant(t, c, BlockRange(start, end), steps, Whole(start, end + 1));
    WholeIsAll(t, c, BlockRange(start, end), start, end + 1);
  }

  // ------------------------------------------------------------- the schedule

  /** Every statement of the blocks `[start, end)`. */
  function AllSteps(start: nat, end: nat): (todo: set<Step>)
    ensures forall s :: s in todo <==> start <= s.n < end && 1 <= s.k <= 7
    decreases end - start
  {
    if start >= end then {} else (set k | k in {1, 2, 3, 4, 5, 6, 7} :: Step(start, k)) + AllSteps(start + 1, end)
  }

  /** Block `start + i` has executed its first `progress[i]` statements; the rest is to do. */
  ghost predicate Scheduled(start: nat, end: nat, progress: seq<nat>, todo: set<Step>, steps: seq<Step>) {
    && start <= end && |progress| == end + 1 - start
    && InProgress(start, progress, steps) && ToDo(start, progress, todo) && OnlyBlocks(start, end, steps)
  }

  ghost predicate InProgress(start: nat, progress: seq<nat>, steps: seq<Step>) {
    forall i :: 0 <= i < |progress| ==> progress[i] <= 7 && Of(steps, start + i) == UpTo(progress[i])
  }

  ghost predicate ToDo(start: nat, progress: seq<nat>, todo: set<Step>) {
    forall s :: s in todo <==> start <= s.n < start + |progress| && progress[s.n - start] < s.k <= 7
  }

  ghost predicate OnlyBlocks(start: nat, end: nat, steps: seq<Step>) {
    forall s :: s in steps ==> start <= s.n <= end
  }

  lemma NothingScheduled(start: nat, end: nat)
    requires start <= end
    ensures Scheduled(start, end, seq(end + 1 - start, _ => 0), AllSteps(start, end + 1), [])
  {
  }

  /** If a step is left to do, the block's next statement is. */
  lemma NextStatement(start: nat, end: nat, progress: seq<nat>, todo: set<Step>, steps: seq<Step>, s: Step)
    requires Scheduled(start, end, progress, todo, steps) && s in todo
    ensures start <= s.n <= end && s.n - start < |progress| && progress[s.n - start] < 7
    ensures Step(s.n, progress[s.n - start] + 1) in todo
  {
  }

  lemma {:induction false} OfAppend(steps: seq<Step>, s: Step, n: nat)
    ensures Of(steps + [s], n) == if s.n == n then Of(steps, n) + [s.k] else Of(steps, n)
    decreases |steps|
  {
    if steps == [] {
      assert steps + [s] == [s];
      assert Of([s], n) == if s.n == n then [s.k] + Of([], n) else Of([], n);
    } else {
      assert (steps + [s])[1..] == steps[1..] + [s];
      OfAppend(steps[1..], s, n);
    }
  }

  lemma {:induction false} InProgressStep(start: nat, progress: seq<nat>, steps: seq<Step>, i: nat)
    requires InProgress(start, progress, steps) && i < |progress| && progress[i] < 7
    ensures InProgress(start, progress[i := progress[i] + 1], steps + [Step(start + i, progress[i] + 1)])
  {
    hide Of, UpTo;
    var s := Step(start + i, progress[i] + 1);
    var more, after := steps + [s], progress[i := s.k];
    forall j | 0 <= j < |after| ensures after[j] <= 7 && Of(more, start + j) == UpTo(after[j]) {
      OneBlockStep(steps, s, start + j, progress[j]);
    }
  }

  /** After one more step each block has done its first statements still. */
  lemma {:induction false} OneBlockStep(steps: seq<Step>, s: Step, n: nat, k: nat)
    requires Of(steps, n) == UpTo(k) && (s.n == n ==> s.k == k + 1)
    ensures Of(steps + [s], n) == UpTo(if s.n == n then k + 1 else k)
  {
    hide Of, UpTo;
    OfAppend(steps, s, n);
    UpToNext(k);
  }

  lemma UpToNext(k: nat)
    ensures UpTo(k) + [k + 1] == UpTo(k + 1)
  {
  }

  lemma ToDoStep(start: nat, progress: seq<nat>, todo: set<Step>, i: nat)
    requires ToDo(start, progress, todo) && i < |progress| && progress[i] < 7
    ensures ToDo(start, progress[i := progress[i] + 1], todo - {Step(start + i, progress[i] + 1)})
  {
    var left, after := todo - {Step(start + i, progress[i] + 1)}, progress[i := progress[i] + 1];
    forall q ensures q in left <==> start <= q.n < start + |after| && after[q.n - start] < q.k <= 7 {
      assert q in todo <==> start <= q.n < start + |progress| && progress[q.n - start] < q.k <= 7;
    }
  }

  lemma OnlyBlocksStep(start: nat, end: nat, steps: seq<Step>, s: Step)
    requires OnlyBlocks(start, end, steps) && start <= s.n <= end
    ensures OnlyBlocks(start, end, steps + [s])
  {
    forall q | q in steps + [s] ensures start <= q.n <= end {
      assert q in steps || q == s;
    }
  }

  lemma {:induction false} ScheduledStep(
      start: nat, end: nat, progress: seq<nat>, todo: set<Step>, steps: seq<Step>, i: nat)
    requires Scheduled(start, end, progress, todo, steps) && i < |progress| && progress[i] < 7
    ensures var s := Step(start + i, progress[i] + 1);
            Scheduled(start, end, progress[i := s.k], todo - {s}, steps + [s])
  {
    hide InProgress, ToDo, OnlyBlocks;
    InProgressStep(start, progress, steps, i);
    ToDoStep(start, progress, todo, i);
    OnlyBlocksStep(start, end, steps, Step(start + i, progress[i] + 1));
  }

  lemma {:induction false} AllScheduled(start: nat, end: nat, progress: seq<nat>, todo: set<Step>, steps: seq<Step>)
    requires todo == {} && Scheduled(start, end, progress, todo, steps)
    ensures Interleaves(steps, Whole(start, end + 1))
  {
    hide Of;
    var done := Whole(start, end + 1);
    forall i | 0 <= i < |done| ensures Of(steps, done[i].0) == UpTo(done[i].1) {
      assert Step(start + i, 7) !in todo;
      assert progress[i] == 7;
      assert Of(steps, start + i) == UpTo(progress[i]);
    }
    forall s | s in steps ensures StartedIn(done, s.n) {
      assert done[s.n - start].0 == s.n;
    }
  }
}
