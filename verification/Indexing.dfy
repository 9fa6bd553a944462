/**
 * Choosing the next blocks to index and indexing them: the target of a follow cycle, its
 * cap, and the chunked ingest that moves the checkpoint.
 */
module Indexing {
  import opened Options
  import opened ChainTables

  const I64_MAX: nat := 0x7FFF_FFFF_FFFF_FFFF

  function SaturatingSub(a: nat, b: nat): nat {
    if a < b then 0 else a - b
  }

  function SaturatingAdd(a: nat, b: nat): nat {
    if a + b > U64_MAX then U64_MAX else a + b
  }

  /** Both ends inclusive. */
  datatype BlockRange = BlockRange(from: nat, to: nat) {
    predicate Contains(n: nat) { from <= n <= to }
    function Length(): int { to - from + 1 }
  }

  function NextTarget(head: nat, confirmations: nat, checkpoint: Option<int>): Option<BlockRange> {
    var safe := SaturatingSub(head, confirmations);
    var resume := match checkpoint
      case Some(c) => SaturatingAdd(Max(c, 0), 1)
      case None => safe;
    if resume > safe then None else Some(BlockRange(resume, safe))
  }

  /** With a checkpoint, the target is exactly the confirmed blocks above it; without one, the safe tip alone. */
  lemma NextTargetExact(head: nat, confirmations: nat, checkpoint: Option<int>, n: nat)
    requires head <= U64_MAX && (checkpoint.Some? ==> checkpoint.value <= I64_MAX)
    ensures var target := NextTarget(head, confirmations, checkpoint);
            var confirmed := n + confirmations <= head || n == 0;
            (target.Some? && target.value.Contains(n)) <==>
            match checkpoint
            case Some(c) => confirmed && n > c && n > 0
            case None => if head < confirmations then n == 0 else n == head - confirmations
  {
  }

  function CapRangeTo(r: BlockRange, cap: nat): BlockRange {
    if cap == 0 || r.to < r.from then r
    else
      var span := SaturatingAdd(SaturatingSub(r.to, r.from), 1);
      if span <= cap then r
      else BlockRange(r.from, SaturatingSub(SaturatingAdd(r.from, cap), 1))
  }

  /**
   * A zero cap and a reversed range leave the range alone. Otherwise the capped range is a
   * non-empty prefix, as long as the cap allows. The cap is respected except when the span
   * itself saturates: all of u64 under the largest cap.
   */
  lemma CapRangeToIsPrefix(r: BlockRange, cap: nat)
    requires r.from <= U64_MAX && r.to <= U64_MAX && cap <= U64_MAX
    ensures var c := CapRangeTo(r, cap);
            if cap == 0 || r.to < r.from then c == r
            else
              && c.from == r.from <= c.to <= r.to
              && (c.Length() <= cap <==> !(r.from == 0 && r.to == U64_MAX && cap == U64_MAX))
              && (c.to < r.to ==> c.Length() == cap)
              && (c.to == r.to <==> r.Length() <= cap || cap == U64_MAX)
  {
  }

  // ------------------------------------------------------------ chunked ingest

  /** What happens at one chunk of an indexing run. */
  datatype ChunkEvent =
    | Process
    | Cancel
    | Fail(done: seq<(nat, nat)>)  // (block, insert statements already executed)

  datatype Signal = Finished | Cancelled | Failed

  /** Ingest whole blocks in the given order. */
  function IngestAll(t: Tables, chain: seq<ChainBlock>, order: seq<nat>): Tables
    requires forall i :: 0 <= i < |order| ==> order[i] < |chain|
    decreases |order|
  {
    if order == [] then t
    else IngestAll(Ingest(t, order[0], chain[order[0]]), chain, order[1..])
  }

  /** What a failed chunk leaves behind: any blocks of the chunk, each up to any statement. */
  function IngestSome(t: Tables, chain: seq<ChainBlock>, chunk: BlockRange, done: seq<(nat, nat)>): Tables
    decreases |done|
  {
    if done == [] then t
    else
      var (n, k) := done[0];
      var t1 := if n < |chain| && chunk.Contains(n) && k <= 7 then IngestPrefix(t, n, chain[n], k) else t;
      IngestSome(t1, chain, chunk, done[1..])
  }

  /** A chunk is as long as the batch size allows; only the last one can be shorter. */
  function ChunkEnd(start: nat, to: nat, batch: nat): (end: nat)
    requires start <= to && batch > 0
    ensures start <= end <= to && end - start + 1 <= batch
    ensures end < to ==> end - start + 1 == batch
  {
    Min(start + batch - 1, to)
  }

  function SetCheckpoint(t: Tables, n: int): Tables {
    t.(checkpoint := Some(n))
  }

  /** One finished chunk: all of its blocks, then the checkpoint. */
  function IndexChunk(t: Tables, chain: seq<ChainBlock>, start: nat, end: nat): Tables
    requires start <= end < |chain|
  {
    SetCheckpoint(IngestAll(t, chain, Range(start, end + 1)), end)
  }

  /** One chunk of an indexing run; `Finished` means the run goes on. */
  function ChunkStep(t: Tables, chain: seq<ChainBlock>, start: nat, end: nat, event: ChunkEvent): (Tables, Signal)
    requires start <= end < |chain|
  {
    match event
    case Cancel => (t, Cancelled)
    case Fail(done) => (IngestSome(t, chain, BlockRange(start, end), done), Failed)
    case Process => (IndexChunk(t, chain, start, end), Finished)
  }

  /** Events beyond the list are `Process`. */
  function NextEvent(events: seq<ChunkEvent>): ChunkEvent {
    if events == [] then Process else events[0]
  }

  function LaterEvents(events: seq<ChunkEvent>): seq<ChunkEvent> {
    if events == [] then [] else events[1..]
  }

  /** The tables and the outcome of indexing `[start, to]`. */
  function IndexFrom(
      t: Tables, chain: seq<ChainBlock>, start: nat, to: nat, batch: nat, events: seq<ChunkEvent>): (Tables, Signal)
    requires batch > 0 && to < |chain|
    decreases 1 + to - start
  {
    if start > to then (t, Finished)
    else
      var end := ChunkEnd(start, to, batch);
      var (u, signal) := ChunkStep(t, chain, start, end, NextEvent(events));
      if !signal.Finished? then (u, signal)
      else IndexFrom(u, chain, end + 1, to, batch, LaterEvents(events))
  }

  /** The first height an indexing run did not finish. */
  function Reached(start: nat, to: nat, batch: nat, events: seq<ChunkEvent>): (next: nat)
    requires batch > 0
    ensures start <= to ==> start <= next <= to + 1
    decreases 1 + to - start
  {
    if start > to || !NextEvent(events).Process? then start
    else Reached(ChunkEnd(start, to, batch) + 1, to, batch, LaterEvents(events))
  }

  lemma ReachedWithoutEvents(start: nat, to: nat, batch: nat)
    requires batch > 0 && start <= to + 1
    ensures Reached(start, to, batch, []) == to + 1
    decreases 1 + to - start
  {
  }

  /** The first `c` chunks are processed; the event after them, if the list has one, stops the run. */
  predicate StopsAfter(events: seq<ChunkEvent>, c: nat) {
    c <= |events| && (forall i :: 0 <= i < c ==> events[i].Process?) && (c < |events| ==> !events[c].Process?)
  }

  /** Every list of events stops a run after exactly one number of chunks. */
  lemma SomeStop(events: seq<ChunkEvent>) returns (c: nat)
    ensures StopsAfter(events, c) && forall d: nat :: StopsAfter(events, d) ==> d == c
  {
    c := 0;
    while c < |events| && events[c].Process?
      invariant c <= |events| && forall i :: 0 <= i < c ==> events[i].Process?
    {
      c := c + 1;
    }
  }

  lemma LaterStop(events: seq<ChunkEvent>, c: nat)
    requires StopsAfter(events, c) && NextEvent(events).Process?
    ensures StopsAfter(LaterEvents(events), Max(c - 1, 0))
    ensures c < |events| ==> c > 0 && Max(c - 1, 0) < |LaterEvents(events)| && LaterEvents(events)[c - 1] == events[c]
    ensures c == |events| ==> Max(c - 1, 0) == |LaterEvents(events)|
  {
  }

  /** `c` chunks are one chunk and `c - 1` more. */
  lemma OneChunkLess(start: nat, to: nat, batch: nat, c: nat)
    requires batch > 0 && start <= to && c > 0
    ensures var next := ChunkEnd(start, to, batch) + 1;
            && Min(next + (c - 1) * batch, to + 1) == Min(start + c * batch, to + 1)
            && (start + c * batch <= to <==> next + (c - 1) * batch <= to)
  {
    assert c * batch == batch + (c - 1) * batch;
    assert (c - 1) * batch >= 0;
  }

  /**
   * How far a run gets, counted in blocks: after `c` chunks that are processed and an event that
   * stops it, exactly `c` times the batch size, or the whole range if that is less.
   */
  lemma {:induction false} ReachedExactly(start: nat, to: nat, batch: nat, events: seq<ChunkEvent>, c: nat)
    requires batch > 0 && start <= to + 1 && StopsAfter(events, c)
    ensures Reached(start, to, batch, events)
         == if c == |events| then to + 1 else Min(start + c * batch, to + 1)
    decreases 1 + to - start
  {
    if start <= to {
      if NextEvent(events).Process? {
        LaterStop(events, c);
        ReachedExactly(ChunkEnd(start, to, batch) + 1, to, batch, LaterEvents(events), Max(c - 1, 0));
        if c > 0 { OneChunkLess(start, to, batch, c); }
      } else {
        assert c == 0;
      }
    } else {
      assert c * batch >= 0;
    }
  }

  /** How a run ends: by the event after its `c` chunks, unless the range was done before. */
  lemma {:induction false} SignalExactly(
      t: Tables, chain: seq<ChainBlock>, start: nat, to: nat, batch: nat, events: seq<ChunkEvent>, c: nat)
    requires batch > 0 && start <= to + 1 && to < |chain| && StopsAfter(events, c)
    ensures IndexFrom(t, chain, start, to, batch, events).1
         == if c == |events| || start + c * batch > to then Finished
            else if events[c].Cancel? then Cancelled
            else Failed
    decreases 1 + to - start
  {
    hide IngestSome, IndexChunk;
    if start <= to {
      var end := ChunkEnd(start, to, batch);
      if NextEvent(events).Process? {
        LaterStop(events, c);
        SignalExactly(IndexChunk(t, chain, start, end), chain, end + 1, to, batch, LaterEvents(events), Max(c - 1, 0));
        if c > 0 { OneChunkLess(start, to, batch, c); }
      } else {
        assert c == 0;
      }
    } else {
      assert c * batch >= 0;
    }
  }

  predicate NoFailure(events: seq<ChunkEvent>) {
    forall e :: e in events ==> !e.Fail?
  }

  // ------------------------------------------------------ what a run can add

  ghost predicate RowOf(chain: seq<ChainBlock>, from: nat, to: nat, d: DepRow) {
    exists n :: from <= n <= to && n < |chain| && d in chain[n].rows
  }

  /** From `t` to `u` nothing was changed or removed, and everything new comes from the blocks of `[from, to]`. */
  ghost predicate Adds(t: Tables, u: Tables, chain: seq<ChainBlock>, from: nat, to: nat) {
    && (forall n :: n in t.block ==> n in u.block && u.block[n] == t.block[n])
    && (forall n :: n in u.block && n !in t.block ==> from <= n <= to && n < |chain| && u.block[n] == Row(chain[n]))
    && t.transaction <= u.transaction
    && (forall r :: r in u.transaction && r !in t.transaction ==>
          from <= r.block <= to && r.block < |chain| && r.tx in chain[r.block].txs)
    && (forall d :: Copies(t, d) <= Copies(u, d))
    && (forall d :: Copies(t, d) < Copies(u, d) ==> RowOf(chain, from, to, d))
  }

  lemma AddsNothing(t: Tables, checkpoint: Option<int>, chain: seq<ChainBlock>, from: nat, to: nat)
    ensures Adds(t, t.(checkpoint := checkpoint), chain, from, to)
  {
  }

  lemma AddsComposes(t: Tables, u: Tables, v: Tables, chain: seq<ChainBlock>, from: nat, to: nat)
    requires Adds(t, u, chain, from, to) && Adds(u, v, chain, from, to)
    ensures Adds(t, v, chain, from, to)
  {
    forall d | Copies(t, d) < Copies(v, d) ensures RowOf(chain, from, to, d) {
      assert Copies(t, d) < Copies(u, d) || Copies(u, d) < Copies(v, d);
    }
  }

  lemma IngestPrefixAdds(t: Tables, chain: seq<ChainBlock>, from: nat, to: nat, n: nat, k: nat)
    requires from <= n <= to && n < |chain| && k <= 7
    ensures Adds(t, IngestPrefix(t, n, chain[n], k), chain, from, to)
    ensures IngestPrefix(t, n, chain[n], k).checkpoint == t.checkpoint
  {
    IngestPrefixState(t, n, chain[n], k);
    forall d | Copies(t, d) < Copies(IngestPrefix(t, n, chain[n], k), d) ensures RowOf(chain, from, to, d) {
      assert d in chain[n].rows;
    }
  }

  lemma {:induction false} IngestAllAdds(t: Tables, chain: seq<ChainBlock>, from: nat, to: nat, order: seq<nat>)
    requires forall i :: 0 <= i < |order| ==> from <= order[i] <= to && order[i] < |chain|
    ensures Adds(t, IngestAll(t, chain, order), chain, from, to)
    ensures IngestAll(t, chain, order).checkpoint == t.checkpoint
    decreases |order|
  {
    if order == [] {
      AddsNothing(t, t.checkpoint, chain, from, to);
    } else {
      var mid := Ingest(t, order[0], chain[order[0]]);
      IngestPrefixAdds(t, chain, from, to, order[0], 7);
      IngestAllAdds(mid, chain, from, to, order[1..]);
      AddsComposes(t, mid, IngestAll(t, chain, order), chain, from, to);
    }
  }

  lemma {:induction false} IngestSomeAdds(
      t: Tables, chain: seq<ChainBlock>, chunk: BlockRange, done: seq<(nat, nat)>, to: nat)
    requires chunk.to <= to
    ensures Adds(t, IngestSome(t, chain, chunk, done), chain, chunk.from, to)
    ensures IngestSome(t, chain, chunk, done).checkpoint == t.checkpoint
    decreases |done|
  {
    if done == [] {
      AddsNothing(t, t.checkpoint, chain, chunk.from, to);
    } else {
      var (n, k) := done[0];
      if n < |chain| && chunk.Contains(n) && k <= 7 {
        var mid := IngestPrefix(t, n, chain[n], k);
        IngestPrefixAdds(t, chain, chunk.from, to, n, k);
        IngestSomeAdds(mid, chain, chunk, done[1..], to);
        AddsComposes(t, mid, IngestSome(t, chain, chunk, done), chain, chunk.from, to);
      } else {
        IngestSomeAdds(t, chain, chunk, done[1..], to);
      }
    }
  }

  lemma AddsMore(t: Tables, u: Tables, chain: seq<ChainBlock>, from: nat, less: nat, to: nat)
    requires from <= less && Adds(t, u, chain, less, to)
    ensures Adds(t, u, chain, from, to)
  {
    forall d | Copies(t, d) < Copies(u, d) ensures RowOf(chain, from, to, d) {
      assert RowOf(chain, less, to, d);
    }
  }

  /** Whatever happens to it, an indexing run of `[start, to]` only adds rows of those blocks. */
  lemma {:induction false} IndexFromAdds(
      t: Tables, chain: seq<ChainBlock>, start: nat, to: nat, batch: nat, events: seq<ChunkEvent>)
    requires batch > 0 && to < |chain|
    ensures Adds(t, IndexFrom(t, chain, start, to, batch, events).0, chain, start, to)
    decreases 1 + to - start
  {
    hide Adds, IngestAll, IngestSome;
    if start > to || NextEvent(events).Cancel? {
      AddsNothing(t, t.checkpoint, chain, start, to);
    } else {
      var end := ChunkEnd(start, to, batch);
      match NextEvent(events)
      case Fail(done) =>
        IngestSomeAdds(t, chain, BlockRange(start, end), done, to);
      case Process =>
        var mid := IngestAll(t, chain, Range(start, end + 1));
        var u := IndexChunk(t, chain, start, end);
        var v := IndexFrom(t, chain, start, to, batch, events).0;
        IngestAllAdds(t, chain, start, to, Range(start, end + 1));
        AddsNothing(mid, Some(end), chain, start, to);
        AddsComposes(t, mid, u, chain, start, to);
        IndexFromAdds(u, chain, end + 1, to, batch, LaterEvents(events));
        AddsMore(u, v, chain, start, end + 1, to);
        AddsComposes(t, u, v, chain, start, to);
    }
  }

  /** The checkpoint stands just below the height reached, or where it was when no chunk was finished. */
  lemma {:induction false} IndexFromCheckpoint(
      t: Tables, chain: seq<ChainBlock>, start: nat, to: nat, batch: nat, events: seq<ChunkEvent>)
    requires batch > 0 && to < |chain|
    ensures var next := Reached(start, to, batch, events);
            IndexFrom(t, chain, start, to, batch, events).0.checkpoint
              == if next == start then t.checkpoint else Some(next - 1)
    decreases 1 + to - start
  {
    hide IndexFrom, Reached, IngestSome, IndexChunk, Adds;
    if start > to {
      NothingReached(t, chain, start, to, batch, events);
    } else {
      var end := ChunkEnd(start, to, batch);
      IndexFromStep(t, chain, start, to, batch, events);
      ReachedStep(start, to, batch, events);
      match NextEvent(events)
      case Cancel =>
      case Fail(done) =>
        IngestSomeAdds(t, chain, BlockRange(start, end), done, to);
      case Process =>
        ChunkCheckpoint(t, chain, start, end);
        IndexFromCheckpoint(IndexChunk(t, chain, start, end), chain, end + 1, to, batch, LaterEvents(events));
    }
  }

  lemma NothingReached(
      t: Tables, chain: seq<ChainBlock>, start: nat, to: nat, batch: nat, events: seq<ChunkEvent>)
    requires batch > 0 && start > to && to < |chain|
    ensures Reached(start, to, batch, events) == start && IndexFrom(t, chain, start, to, batch, events).0 == t
  {
  }

  lemma ReachedStep(start: nat, to: nat, batch: nat, events: seq<ChunkEvent>)
    requires batch > 0 && start <= to
    ensures var end := ChunkEnd(start, to, batch);
            Reached(start, to, batch, events)
              == if NextEvent(events).Process? then Reached(end + 1, to, batch, LaterEvents(events)) else start
    ensures NextEvent(events).Process? ==> Reached(start, to, batch, events) > start
  {
  }

  lemma ChunkCheckpoint(t: Tables, chain: seq<ChainBlock>, start: nat, end: nat)
    requires start <= end < |chain|
    ensures IndexChunk(t, chain, start, end).checkpoint == Some(end as int)
  {
  }

  // ------------------------------------------- what an interrupted run guarantees

  /** Block `n` is stored with everything the chain has for it. */
  ghost predicate Covered(t: Tables, chain: seq<ChainBlock>, n: nat)
    requires n < |chain|
  {
    && n in t.block && t.block[n] == Row(chain[n])
    && (forall x :: x in chain[n].txs ==> KnownTx(t, x))
    && chain[n].rows <= t.dependents.Keys
  }

  /** Nothing that was stored is changed. */
  ghost predicate Extends(t: Tables, u: Tables) {
    && (forall n :: n in t.block ==> n in u.block && u.block[n] == t.block[n])
    && t.transaction <= u.transaction
    && t.dependents.Keys <= u.dependents.Keys
  }

  /** Rows of `t` at or above `from` already are the chain's rows. */
  ghost predicate NoStaleRowFrom(t: Tables, chain: seq<ChainBlock>, from: nat) {
    forall n :: n in t.block && from <= n < |chain| ==> t.block[n] == Row(chain[n])
  }

  lemma CoveredIsStable(t: Tables, u: Tables, chain: seq<ChainBlock>, n: nat)
    requires n < |chain| && Extends(t, u) && Covered(t, chain, n)
    ensures Covered(u, chain, n)
  {
    forall x | x in chain[n].txs ensures KnownTx(u, x) {
      var r :| r in t.transaction && r.tx == x;
      assert r in u.transaction;
    }
  }

  lemma IngestPrefixExtends(t: Tables, chain: seq<ChainBlock>, from: nat, n: nat, k: nat)
    requires from <= n < |chain| && k <= 7 && NoStaleRowFrom(t, chain, from)
    ensures var u := IngestPrefix(t, n, chain[n], k);
            Extends(t, u) && NoStaleRowFrom(u, chain, from) && u.checkpoint == t.checkpoint
  {
    IngestPrefixState(t, n, chain[n], k);
  }

  lemma IngestCovers(t: Tables, chain: seq<ChainBlock>, from: nat, n: nat)
    requires from <= n < |chain| && NoStaleRowFrom(t, chain, from)
    ensures Covered(Ingest(t, n, chain[n]), chain, n)
  {
    IngestMeaning(t, n, chain[n]);
    var u := Ingest(t, n, chain[n]);
    forall x | x in chain[n].txs ensures KnownTx(u, x) {
      if KnownTx(t, x) {
        var r :| r in t.transaction && r.tx == x;
        assert r in u.transaction;
      } else {
        assert TxRow(x, n) in u.transaction;
      }
    }
  }

  lemma {:induction false} IngestAllCovers(t: Tables, chain: seq<ChainBlock>, from: nat, order: seq<nat>)
    requires forall i :: 0 <= i < |order| ==> from <= order[i] < |chain|
    requires NoStaleRowFrom(t, chain, from)
    ensures var u := IngestAll(t, chain, order);
            && Extends(t, u) && NoStaleRowFrom(u, chain, from) && u.checkpoint == t.checkpoint
            && forall i :: 0 <= i < |order| ==> Covered(u, chain, order[i])
    decreases |order|
  {
    if order != [] {
      var n := order[0];
      var mid := Ingest(t, n, chain[n]);
      IngestPrefixExtends(t, chain, from, n, 7);
      IngestCovers(t, chain, from, n);
      IngestAllCovers(mid, chain, from, order[1..]);
      var u := IngestAll(t, chain, order);
      CoveredIsStable(mid, u, chain, n);
      forall i | 0 <= i < |order| ensures Covered(u, chain, order[i]) {
        if i > 0 { assert order[i] == order[1..][i - 1]; }
      }
    }
  }

  lemma {:induction false} IngestSomeExtends(
      t: Tables, chain: seq<ChainBlock>, from: nat, chunk: BlockRange, done: seq<(nat, nat)>)
    requires NoStaleRowFrom(t, chain, from) && from <= chunk.from
    ensures var u := IngestSome(t, chain, chunk, done);
            Extends(t, u) && NoStaleRowFrom(u, chain, from) && u.checkpoint == t.checkpoint
    decreases |done|
  {
    if done != [] {
      var (n, k) := done[0];
      if n < |chain| && chunk.Contains(n) && k <= 7 {
        IngestPrefixExtends(t, chain, from, n, k);
        IngestSomeExtends(IngestPrefix(t, n, chain[n], k), chain, from, chunk, done[1..]);
      } else {
        IngestSomeExtends(t, chain, from, chunk, done[1..]);
      }
    }
  }

  /**
   * From `t` to `u` the blocks of `[start, next)` were completed: all of them are covered, the
   * checkpoint stands just below `next`, and nothing stored before has changed.
   */
  ghost predicate Completed(t: Tables, u: Tables, chain: seq<ChainBlock>, start: nat, next: nat) {
    && start <= next <= |chain|
    && Extends(t, u)
    && (forall n :: start <= n < next ==> Covered(u, chain, n))
    && u.checkpoint == if next == start then t.checkpoint else Some(next - 1)
  }

  lemma CompletedComposes(t: Tables, u: Tables, v: Tables, chain: seq<ChainBlock>, start: nat, mid: nat, next: nat)
    requires Completed(t, u, chain, start, mid) && Completed(u, v, chain, mid, next)
    ensures Completed(t, v, chain, start, next)
  {
    forall n | start <= n < mid ensures Covered(v, chain, n) {
      CoveredIsStable(u, v, chain, n);
    }
  }

  lemma NothingCompleted(t: Tables, u: Tables, chain: seq<ChainBlock>, start: nat)
    requires start <= |chain| && Extends(t, u) && u.checkpoint == t.checkpoint
    ensures Completed(t, u, chain, start, start)
  {
  }

  lemma FailedChunkCompletesNothing(t: Tables, chain: seq<ChainBlock>, start: nat, end: nat, done: seq<(nat, nat)>)
    requires start <= end < |chain| && NoStaleRowFrom(t, chain, start)
    ensures Completed(t, IngestSome(t, chain, BlockRange(start, end), done), chain, start, start)
  {
    IngestSomeExtends(t, chain, start, BlockRange(start, end), done);
    NothingCompleted(t, IngestSome(t, chain, BlockRange(start, end), done), chain, start);
  }

  lemma ChunkIsComplete(t: Tables, chain: seq<ChainBlock>, start: nat, end: nat)
    requires start <= end < |chain| && NoStaleRowFrom(t, chain, start)
    ensures var u := IndexChunk(t, chain, start, end);
            NoStaleRowFrom(u, chain, end + 1) && Completed(t, u, chain, start, end + 1)
  {
    var order := Range(start, end + 1);
    IngestAllCovers(t, chain, start, order);
    var mid := IngestAll(t, chain, order);
    forall n | start <= n <= end ensures Covered(IndexChunk(t, chain, start, end), chain, n) {
      assert Covered(mid, chain, order[n - start]);
      CoveredIsStable(mid, SetCheckpoint(mid, end), chain, n);
    }
  }

  /**
   * However an indexing run ends (finished, cancelled between chunks, failed inside one), exactly
   * the blocks below the height it reached are completed; it finishes iff that is the whole range.
   */
  lemma {:induction false} InterruptedIndexingIsComplete(
      t: Tables, chain: seq<ChainBlock>, start: nat, to: nat, batch: nat, events: seq<ChunkEvent>)
    requires batch > 0 && start <= to + 1 && to < |chain| && NoStaleRowFrom(t, chain, start)
    ensures var (u, signal) := IndexFrom(t, chain, start, to, batch, events);
            && Completed(t, u, chain, start, Reached(start, to, batch, events))
            && (signal.Finished? <==> Reached(start, to, batch, events) == to + 1)
    decreases 1 + to - start
  {
    hide Completed, NoStaleRowFrom, IngestSome, IndexChunk;
    if start > to || NextEvent(events).Cancel? {
      NothingCompleted(t, t, chain, start);
    } else {
      var end := ChunkEnd(start, to, batch);
      var (u, signal) := ChunkStep(t, chain, start, end, NextEvent(events));
      if signal.Failed? {
        FailedChunkCompletesNothing(t, chain, start, end, NextEvent(events).done);
      } else {
        ChunkIsComplete(t, chain, start, end);
        InterruptedIndexingIsComplete(u, chain, end + 1, to, batch, LaterEvents(events));
        CompletedComposes(t, u, IndexFrom(u, chain, end + 1, to, batch, LaterEvents(events)).0, chain, start, end + 1,
                          Reached(end + 1, to, batch, LaterEvents(events)));
      }
    }
  }

  /** Every block that was added lies below `limit`. */
  ghost predicate NewBelow(t: Tables, u: Tables, limit: int) {
    forall n :: n in u.block && n !in t.block ==> n < limit
  }

  /** Only the chunk that failed can leave blocks at or above the height reached. */
  lemma {:induction false} IndexFromAddsWithin(
      t: Tables, chain: seq<ChainBlock>, start: nat, to: nat, batch: nat, events: seq<ChunkEvent>)
    requires batch > 0 && start <= to + 1 && to < |chain|
    ensures NewBelow(t, IndexFrom(t, chain, start, to, batch, events).0,
                     Min(Reached(start, to, batch, events) + batch, to + 1))
    decreases 1 + to - start
  {
    hide IngestSome, IngestAll, IndexFrom, Reached, Adds, NewBelow;
    if start > to {
      NothingReached(t, chain, start, to, batch, events);
      NothingNew(t, to + 1);
    } else {
      var end := ChunkEnd(start, to, batch);
      IndexFromStep(t, chain, start, to, batch, events);
      ReachedStep(start, to, batch, events);
      match NextEvent(events)
      case Cancel =>
        NothingNew(t, Min(start + batch, to + 1));
      case Fail(done) =>
        IngestSomeAdds(t, chain, BlockRange(start, end), done, end);
        AddsIsNewBelow(t, IngestSome(t, chain, BlockRange(start, end), done), chain, start, end);
      case Process =>
        var u := IndexChunk(t, chain, start, end);
        IngestAllAdds(t, chain, start, end, Range(start, end + 1));
        AddsIsNewBelow(t, IngestAll(t, chain, Range(start, end + 1)), chain, start, end);
        IndexFromAddsWithin(u, chain, end + 1, to, batch, LaterEvents(events));
        NewBelowMore(t, u, IndexFrom(t, chain, start, to, batch, events).0, end + 1,
                     Min(Reached(start, to, batch, events) + batch, to + 1));
    }
  }

  lemma NothingNew(t: Tables, limit: int)
    ensures NewBelow(t, t, limit)
  {
  }

  lemma AddsIsNewBelow(t: Tables, u: Tables, chain: seq<ChainBlock>, from: nat, to: nat)
    requires Adds(t, u, chain, from, to)
    ensures NewBelow(t, u, to + 1)
  {
  }

  lemma NewBelowMore(t: Tables, u: Tables, v: Tables, limit: int, more: int)
    requires NewBelow(t, u.(checkpoint := t.checkpoint), limit) && NewBelow(u, v, more) && limit <= more
    ensures NewBelow(t, v, more)
  {
  }

  /**
   * An indexing run counted in blocks: after `c` chunks that are processed and an event that stops it,
   * the blocks completed are the first `c` times the batch size, or the whole range if that is less.
   * The checkpoint is just below their end, the next chunk is the only one that can have left anything,
   * and the outcome is the stopping event's.
   */
  lemma {:induction false} IndexedByBatches(
      t: Tables, chain: seq<ChainBlock>, start: nat, to: nat, batch: nat, events: seq<ChunkEvent>, c: nat)
    requires batch > 0 && start <= to + 1 && to < |chain| && NoStaleRowFrom(t, chain, start)
    requires StopsAfter(events, c)
    ensures var (u, signal) := IndexFrom(t, chain, start, to, batch, events);
            var next := if c == |events| then to + 1 else Min(start + c * batch, to + 1);
            && u.checkpoint == (if next == start then t.checkpoint else Some(next - 1))
            && (forall n :: start <= n < next ==> Covered(u, chain, n))
            && (forall n :: n in u.block && n !in t.block ==> start <= n < Min(next + batch, to + 1))
            && signal == if c == |events| || start + c * batch > to then Finished
                         else if events[c].Cancel? then Cancelled
                         else Failed
  {
    hide IndexFrom, Reached, Covered, NoStaleRowFrom;
    ReachedExactly(start, to, batch, events, c);
    SignalExactly(t, chain, start, to, batch, events, c);
    InterruptedIndexingIsComplete(t, chain, start, to, batch, events);
    IndexFromAddsWithin(t, chain, start, to, batch, events);
    IndexFromAdds(t, chain, start, to, batch, events);
  }

  lemma {:induction false} IngestAllKeys(t: Tables, chain: seq<ChainBlock>, from: nat, order: seq<nat>, n: nat)
    requires forall i :: 0 <= i < |order| ==> from <= order[i] < |chain|
    requires n in IngestAll(t, chain, order).block
    ensures n in t.block || n in order
    decreases |order|
  {
    if order != [] {
      IngestMeaning(t, order[0], chain[order[0]]);
      IngestAllKeys(Ingest(t, order[0], chain[order[0]]), chain, from, order[1..], n);
    }
  }

  /** An indexing run that does not fail adds blocks only below the height it reached. */
  lemma {:induction false} IndexFromAddsOnly(
      t: Tables, chain: seq<ChainBlock>, start: nat, to: nat, batch: nat, events: seq<ChunkEvent>, n: nat)
    requires batch > 0 && start <= to + 1 && to < |chain| && NoFailure(events)
    requires n in IndexFrom(t, chain, start, to, batch, events).0.block
    ensures n in t.block || start <= n < Reached(start, to, batch, events)
    decreases 1 + to - start
  {
    if start <= to && NextEvent(events).Process? {
      var end := ChunkEnd(start, to, batch);
      var mid := IndexChunk(t, chain, start, end);
      IndexFromAddsOnly(mid, chain, end + 1, to, batch, LaterEvents(events), n);
      if n in mid.block && n !in t.block {
        IngestAllKeys(t, chain, start, Range(start, end + 1), n);
      }
    }
  }

  // --------------------------------------------------------- how often a row is stored

  /** The statement of a block's ingest that inserts the rows of a table. */
  function StatementFor(table: Dependent): nat {
    match table
    case SwapEvent => 3
    case LiquidityEvent => 4
    case TokenTransfer => 5
    case TraceLog => 6
    case FailedTransaction => 7
  }

  /** The copies of a row after `times` more inserts of it. */
  function Inserted(d: DepRow, copies: nat, times: nat): nat {
    if times == 0 then copies else if d.table.TraceLog? then copies + times else Max(copies, 1)
  }

  /** How many entries of a failed chunk got as far as statement `k` of block `n`. */
  function Attempts(chunk: BlockRange, done: seq<(nat, nat)>, n: nat, k: nat): nat {
    if done == [] then 0
    else Attempts(chunk, done[1..], n, k) + if done[0].0 == n && chunk.Contains(n) && k <= done[0].1 <= 7 then 1 else 0
  }

  /** How often an indexing run reached statement `k` of block `n` in a chunk that failed. */
  function FailedAttempts(start: nat, to: nat, batch: nat, events: seq<ChunkEvent>, n: nat, k: nat): nat
    requires batch > 0
    decreases 1 + to - start
  {
    if start > to then 0
    else
      match NextEvent(events)
      case Cancel => 0
      case Fail(done) => Attempts(BlockRange(start, ChunkEnd(start, to, batch)), done, n, k)
      case Process => FailedAttempts(ChunkEnd(start, to, batch) + 1, to, batch, LaterEvents(events), n, k)
  }

  /** Only block `n` of the chain can have the row. */
  ghost predicate OnlyIn(chain: seq<ChainBlock>, n: nat, d: DepRow) {
    forall m :: 0 <= m < |chain| && m != n ==> d !in chain[m].rows
  }

  lemma RowsUpToStatement(b: ChainBlock, k: nat, d: DepRow)
    requires k <= 7
    ensures d in RowsUpTo(b, Max(k - 2, 0)) <==> d in b.rows && StatementFor(d.table) <= k
  {
    var visited := DEPENDENT_ORDER[..Max(k - 2, 0)];
    assert forall i :: 0 <= i < |visited| ==> StatementFor(visited[i]) == i + 3;
    if StatementFor(d.table) <= k {
      assert visited[StatementFor(d.table) - 3] == d.table;
    }
  }

  lemma IngestPrefixCopies(t: Tables, chain: seq<ChainBlock>, m: nat, k: nat, n: nat, d: DepRow)
    requires m < |chain| && k <= 7 && n < |chain| && OnlyIn(chain, n, d)
    ensures Copies(IngestPrefix(t, m, chain[m], k), d)
         == Inserted(d, Copies(t, d), if m == n && d in chain[n].rows && StatementFor(d.table) <= k then 1 else 0)
  {
    IngestPrefixState(t, m, chain[m], k);
    RowsUpToStatement(chain[m], k, d);
  }

  lemma {:induction false} IngestAllCopies(t: Tables, chain: seq<ChainBlock>, start: nat, end: nat, n: nat, d: DepRow)
    requires start <= end <= |chain| && n < |chain| && OnlyIn(chain, n, d)
    ensures Copies(IngestAll(t, chain, Range(start, end)), d)
         == Inserted(d, Copies(t, d), if start <= n < end && d in chain[n].rows then 1 else 0)
    decreases end - start
  {
    if start < end {
      hide OnlyIn;
      var mid := Ingest(t, start, chain[start]);
      assert Range(start, end)[0] == start && Range(start, end)[1..] == Range(start + 1, end);
      IngestPrefixCopies(t, chain, start, 7, n, d);
      IngestAllCopies(mid, chain, start + 1, end, n, d);
    }
  }

  lemma {:induction false} IngestSomeCopies(
      t: Tables, chain: seq<ChainBlock>, chunk: BlockRange, done: seq<(nat, nat)>, n: nat, d: DepRow)
    requires chunk.to < |chain| && n < |chain| && OnlyIn(chain, n, d)
    ensures Copies(IngestSome(t, chain, chunk, done), d)
         == Inserted(d, Copies(t, d), if d in chain[n].rows then Attempts(chunk, done, n, StatementFor(d.table)) else 0)
    decreases |done|
  {
    if done != [] {
      hide OnlyIn;
      var (m, k) := done[0];
      if chunk.Contains(m) && k <= 7 {
        IngestPrefixCopies(t, chain, m, k, n, d);
        IngestSomeCopies(IngestPrefix(t, m, chain[m], k), chain, chunk, done[1..], n, d);
      } else {
        IngestSomeCopies(t, chain, chunk, done[1..], n, d);
      }
    }
  }

  /**
   * How often an indexing run executes statement `k` of block `n`: when it finishes the block, and in
   * failed chunks.
   */
  function Executions(start: nat, to: nat, batch: nat, events: seq<ChunkEvent>, n: nat, k: nat): nat
    requires batch > 0
  {
    FailedAttempts(start, to, batch, events, n, k) + if start <= n < Reached(start, to, batch, events) then 1 else 0
  }

  /** How often an indexing run inserts a row of block `n`. */
  function RowInserts(
      chain: seq<ChainBlock>, start: nat, to: nat, batch: nat, events: seq<ChunkEvent>, n: nat, d: DepRow): nat
    requires batch > 0 && n < |chain|
  {
    if d in chain[n].rows then Executions(start, to, batch, events, n, StatementFor(d.table)) else 0
  }

  /** How often a block range that is ingested once inserts a row of block `n`. */
  function RowIn(chain: seq<ChainBlock>, start: nat, end: nat, n: nat, d: DepRow): nat
    requires n < |chain|
  {
    if start <= n <= end && d in chain[n].rows then 1 else 0
  }

  lemma RowInsertsStep(
      chain: seq<ChainBlock>, start: nat, to: nat, batch: nat, events: seq<ChunkEvent>, n: nat, d: DepRow)
    requires batch > 0 && start <= to && n < |chain|
    ensures var event, end := NextEvent(events), ChunkEnd(start, to, batch);
            RowInserts(chain, start, to, batch, events, n, d) ==
            if event.Process? then RowIn(chain, start, end, n, d)
                + RowInserts(chain, end + 1, to, batch, LaterEvents(events), n, d)
            else if event.Fail? && d in chain[n].rows
                then Attempts(BlockRange(start, end), event.done, n, StatementFor(d.table))
            else 0
  {
  }

  /** One step of the recursion. */
  lemma IndexFromStep(t: Tables, chain: seq<ChainBlock>, start: nat, to: nat, batch: nat, events: seq<ChunkEvent>)
    requires batch > 0 && start <= to < |chain|
    ensures var event, end := NextEvent(events), ChunkEnd(start, to, batch);
            IndexFrom(t, chain, start, to, batch, events).0 ==
            if event.Cancel? then t
            else if event.Fail? then IngestSome(t, chain, BlockRange(start, end), event.done)
            else IndexFrom(IndexChunk(t, chain, start, end), chain, end + 1, to, batch, LaterEvents(events)).0
  {
  }

  lemma IndexChunkCopies(t: Tables, chain: seq<ChainBlock>, start: nat, end: nat, n: nat, d: DepRow)
    requires start <= end < |chain| && n < |chain| && OnlyIn(chain, n, d)
    ensures Copies(IndexChunk(t, chain, start, end), d)
         == Inserted(d, Copies(t, d), RowIn(chain, start, end, n, d))
  {
    IngestAllCopies(t, chain, start, end + 1, n, d);
  }

  lemma InsertedTwice(d: DepRow, copies: nat, first: nat, second: nat)
    ensures Inserted(d, Inserted(d, copies, first), second) == Inserted(d, copies, first + second)
  {
  }

  /**
   * The exact number of copies an indexing run leaves of a row: a finished block inserts its rows
   * once, and so does every failed attempt that got as far as the row's statement.
   */
  lemma {:induction false} IndexFromCopies(
      t: Tables, chain: seq<ChainBlock>, start: nat, to: nat, batch: nat, events: seq<ChunkEvent>, n: nat, d: DepRow)
    requires batch > 0 && start <= to + 1 && to < |chain| && n < |chain| && OnlyIn(chain, n, d)
    ensures Copies(IndexFrom(t, chain, start, to, batch, events).0, d)
         == Inserted(d, Copies(t, d), RowInserts(chain, start, to, batch, events, n, d))
    decreases 1 + to - start
  {
    hide IndexFrom, IndexChunk, RowInserts, RowIn, Inserted, Copies, OnlyIn, StatementFor, Attempts, IngestSome;
    if start > to {
      NothingIndexed(t, chain, start, to, batch, events, n, d);
    } else {
      var end, later := ChunkEnd(start, to, batch), LaterEvents(events);
      IndexFromStep(t, chain, start, to, batch, events);
      RowInsertsStep(chain, start, to, batch, events, n, d);
      match NextEvent(events)
      case Cancel =>
        NotInserted(d, Copies(t, d));
      case Fail(done) =>
        IngestSomeCopies(t, chain, BlockRange(start, end), done, n, d);
      case Process =>
        IndexChunkCopies(t, chain, start, end, n, d);
        IndexFromCopies(IndexChunk(t, chain, start, end), chain, end + 1, to, batch, later, n, d);
        InsertedTwice(d, Copies(t, d), RowIn(chain, start, end, n, d),
            RowInserts(chain, end + 1, to, batch, later, n, d));
    }
  }

  lemma NothingIndexed(
      t: Tables, chain: seq<ChainBlock>, start: nat, to: nat, batch: nat, events: seq<ChunkEvent>, n: nat, d: DepRow)
    requires batch > 0 && start > to && to < |chain| && n < |chain|
    ensures Copies(IndexFrom(t, chain, start, to, batch, events).0, d)
         == Inserted(d, Copies(t, d), RowInserts(chain, start, to, batch, events, n, d))
  {
  }

  lemma NotInserted(d: DepRow, copies: nat)
    ensures Inserted(d, copies, 0) == copies
  {
  }

  // -------------------------------------------------- whether the first block is stored

  /** Whether a run that starts at block `start` gets as far as inserting its row. */
  function StoresFirst(start: nat, to: nat, batch: nat, events: seq<ChunkEvent>): bool
    requires batch > 0
  {
    if start > to || NextEvent(events).Cancel? then false
    else NextEvent(events).Process?
         || Attempts(BlockRange(start, ChunkEnd(start, to, batch)), NextEvent(events).done, start, 1) > 0
  }

  lemma {:induction false} IngestSomeStores(
      t: Tables, chain: seq<ChainBlock>, chunk: BlockRange, done: seq<(nat, nat)>, n: nat)
    requires n < |chain|
    ensures n in IngestSome(t, chain, chunk, done).block <==> n in t.block || Attempts(chunk, done, n, 1) > 0
    decreases |done|
  {
    if done != [] {
      var (m, k) := done[0];
      if m < |chain| && chunk.Contains(m) && k <= 7 {
        IngestPrefixState(t, m, chain[m], k);
        hide IngestPrefix;
        IngestSomeStores(IngestPrefix(t, m, chain[m], k), chain, chunk, done[1..], n);
      } else {
        IngestSomeStores(t, chain, chunk, done[1..], n);
      }
    }
  }

  lemma {:induction false} FirstBlockIsStoredIff(
      t: Tables, chain: seq<ChainBlock>, start: nat, to: nat, batch: nat, events: seq<ChunkEvent>)
    requires batch > 0 && start <= to < |chain| && start !in t.block && NoStaleRowFrom(t, chain, start)
    ensures start in IndexFrom(t, chain, start, to, batch, events).0.block <==> StoresFirst(start, to, batch, events)
  {
    hide IngestSome, IndexChunk, Attempts;
    IndexFromStep(t, chain, start, to, batch, events);
    match NextEvent(events)
    case Cancel =>
    case Fail(done) =>
      IngestSomeStores(t, chain, BlockRange(start, ChunkEnd(start, to, batch)), done, start);
    case Process =>
      InterruptedIndexingIsComplete(t, chain, start, to, batch, events);
      assert Covered(IndexFrom(t, chain, start, to, batch, events).0, chain, start);
  }
}
