/**
 * Hash-linked chains and the tables that indexing one chain produces. The store built from a
 * chain is the yardstick for the follow loop: ingest extends it, rollback cuts it, and the fork
 * scan reads off where two chains part.
 */
module IndexedStore {
  import opened Options
  import opened ForkScanning
  import opened ChainTables
  import opened Indexing

  type Chain = seq<ChainBlock>

  /** Each header names its parent's hash, and a transaction is mined once. */
  ghost predicate ChainOk(c: Chain) {
    && (forall i :: 0 < i < |c| ==> c[i].parent == c[i - 1].hash)
    && (forall i :: 0 <= i < |c| ==> BlockOk(c[i]))
    && (forall i, j, x :: 0 <= i < |c| && 0 <= j < |c| && x in c[i].txs && x in c[j].txs ==> i == j)
  }

  /** A block hash commits to the block: equal hashes on two chains mean equal blocks. */
  ghost predicate Committed(a: Chain, b: Chain) {
    forall i, j :: 0 <= i < |a| && 0 <= j < |b| && a[i].hash == b[j].hash ==> a[i] == b[j]
  }

  predicate Agree(a: Chain, b: Chain, n: nat) {
    n < |a| && n < |b| && a[n].hash == b[n].hash
  }

  /** The linkage the fork scan relies on without reading a parent hash: agreement is downward closed. */
  lemma {:induction false} AgreeBelow(a: Chain, b: Chain, n: nat)
    requires ChainOk(a) && ChainOk(b) && Committed(a, b) && Agree(a, b, n)
    ensures a[..n + 1] == b[..n + 1]
  {
    assert a[n] == b[n];
    if n > 0 {
      AgreeBelow(a, b, n - 1);
    }
    assert a[..n + 1] == a[..n] + [a[n]];
    assert b[..n + 1] == b[..n] + [b[n]];
  }

  /** The height from which the stored part `[lo, hi)` of `a` disagrees with `b`; `hi` if nowhere. */
  ghost function ForkPoint(a: Chain, b: Chain, lo: nat, hi: nat): (p: nat)
    requires lo <= hi
    ensures lo <= p <= hi
    ensures forall n :: p <= n < hi ==> !Agree(a, b, n)
    ensures p > lo ==> Agree(a, b, p - 1)
    decreases hi
  {
    if hi == lo || Agree(a, b, hi - 1) then hi else ForkPoint(a, b, lo, hi - 1)
  }

  lemma ForkPointSplits(a: Chain, b: Chain, lo: nat, hi: nat, n: nat)
    requires lo <= n < hi && ChainOk(a) && ChainOk(b) && Committed(a, b)
    ensures n < ForkPoint(a, b, lo, hi) <==> Agree(a, b, n)
    ensures Agree(a, b, n) ==> a[n] == b[n]
  {
    var p := ForkPoint(a, b, lo, hi);
    if n < p {
      AgreeBelow(a, b, p - 1);
      assert a[n] == a[..p][n] == b[..p][n] == b[n];
    }
  }

  // ------------------------------------------------------- the tables of a chain

  function Heights(lo: nat, hi: nat): (hs: set<nat>)
    ensures forall n :: n in hs <==> lo <= n < hi
    decreases hi
  {
    if lo >= hi then {} else Heights(lo, hi - 1) + {hi - 1}
  }

  function Below(s: set<nat>, from: nat): set<nat> {
    set n | n in s && n < from
  }

  function Elements(order: seq<nat>): set<nat> {
    set n | n in order
  }

  ghost function RowsAt(c: Chain, s: set<nat>): set<DepRow>
    requires forall n :: n in s ==> n < |c|
  {
    set n, d | n in s && d in c[n].rows :: d
  }

  /** The tables after indexing the blocks at `s` of chain `c` into an empty database. */
  ghost function Indexed(c: Chain, s: set<nat>, checkpoint: Option<int>): Tables
    requires forall n :: n in s ==> n < |c|
  {
    Tables(
      map n | n in s :: Row(c[n]),
      set n, x | n in s && x in c[n].txs :: TxRow(x, n),
      map d | d in RowsAt(c, s) :: 1 as Count,
      checkpoint)
  }

  /** The store holding exactly `[lo, hi)` of chain `c`, with its checkpoint on the last block. */
  ghost function Store(c: Chain, lo: nat, hi: nat): Tables
    requires hi <= |c|
  {
    Indexed(c, Heights(lo, hi), Some(hi - 1))
  }

  lemma IndexedIsSound(c: Chain, s: set<nat>, checkpoint: Option<int>)
    requires ChainOk(c) && forall n :: n in s ==> n < |c|
    ensures Integrity(Indexed(c, s, checkpoint)) && UniqueTx(Indexed(c, s, checkpoint))
  {
    var t := Indexed(c, s, checkpoint);
    forall d | d in t.dependents ensures exists r :: r in t.transaction && r.tx == d.tx {
      var n :| n in s && d in c[n].rows;
      assert TxRow(d.tx, n) in t.transaction;
    }
  }

  lemma IndexedDependsOnlyOnBlocks(a: Chain, b: Chain, s: set<nat>, checkpoint: Option<int>)
    requires forall n :: n in s ==> n < |a| && n < |b| && a[n] == b[n]
    ensures Indexed(a, s, checkpoint) == Indexed(b, s, checkpoint)
  {
    assert RowsAt(a, s) == RowsAt(b, s);
  }

  /** Ingesting another block of the same chain adds it. */
  lemma IngestIntoIndexed(c: Chain, s: set<nat>, checkpoint: Option<int>, n: nat)
    requires ChainOk(c) && n < |c| && n !in s && forall k :: k in s ==> k < |c|
    ensures Ingest(Indexed(c, s, checkpoint), n, c[n]) == Indexed(c, s + {n}, checkpoint)
  {
    var t := Indexed(c, s, checkpoint);
    var u := Ingest(t, n, c[n]);
    var v := Indexed(c, s + {n}, checkpoint);
    IngestMeaning(t, n, c[n]);
    TransactionsOfOneMore(c, s, checkpoint, n);
    RowsOfOneMore(c, s, n);
    assert u.block == v.block;
    hide ChainOk, Ingest, KnownTx, AddRows, RowsAt;
    assert u.transaction == v.transaction && u.dependents == v.dependents;
  }

  lemma TransactionsOfOneMore(c: Chain, s: set<nat>, checkpoint: Option<int>, n: nat)
    requires ChainOk(c) && n < |c| && n !in s && forall k :: k in s ==> k < |c|
    ensures var t := Indexed(c, s, checkpoint);
            Indexed(c, s + {n}, checkpoint).transaction == t.transaction
              + set x | x in c[n].txs && !KnownTx(t, x) :: TxRow(x, n)
  {
    var t := Indexed(c, s, checkpoint);
    forall x | x in c[n].txs ensures !KnownTx(t, x) {
      assert forall r :: r in t.transaction ==> r.block in s && r.tx in c[r.block].txs;
    }
  }

  lemma RowsOfOneMore(c: Chain, s: set<nat>, n: nat)
    requires ChainOk(c) && n < |c| && n !in s && forall k :: k in s ==> k < |c|
    ensures (map d | d in RowsAt(c, s + {n}) :: 1 as Count)
         == AddRows(map d | d in RowsAt(c, s) :: 1 as Count, c[n].rows)
  {
    RowsAreDisjoint(c, s, n);
    assert RowsAt(c, s + {n}) == RowsAt(c, s) + c[n].rows;
  }

  lemma RowsAreDisjoint(c: Chain, s: set<nat>, n: nat)
    requires ChainOk(c) && n < |c| && n !in s && forall k :: k in s ==> k < |c|
    ensures RowsAt(c, s) !! c[n].rows
  {
    forall d | d in RowsAt(c, s) ensures d !in c[n].rows {
      var k :| k in s && d in c[k].rows;
      assert d.tx in c[k].txs;
    }
  }

  lemma RowHasOneBlock(c: Chain, n: nat, d: DepRow)
    requires ChainOk(c) && n < |c| && d in c[n].rows
    ensures OnlyIn(c, n, d)
  {
  }

  /** The order in which the blocks are ingested does not matter, as long as each is ingested once. */
  lemma {:induction false} IngestOrderIsIrrelevant(c: Chain, s: set<nat>, checkpoint: Option<int>, order: seq<nat>)
    requires ChainOk(c) && (forall k :: k in s ==> k < |c|)
    requires (forall i :: 0 <= i < |order| ==> order[i] < |c| && order[i] !in s)
    requires forall i, j :: 0 <= i < j < |order| ==> order[i] != order[j]
    ensures IngestAll(Indexed(c, s, checkpoint), c, order) == Indexed(c, s + Elements(order), checkpoint)
    decreases |order|
  {
    if order == [] {
      assert s + Elements(order) == s;
    } else {
      IngestIntoIndexed(c, s, checkpoint, order[0]);
      IngestOrderIsIrrelevant(c, s + {order[0]}, checkpoint, order[1..]);
      assert s + {order[0]} + Elements(order[1..]) == s + Elements(order);
    }
  }

  /** Rolling back the tables of a chain gives the tables of its lower part. */
  lemma RollbackOfIndexed(c: Chain, s: set<nat>, checkpoint: int, from: nat)
    requires ChainOk(c) && forall n :: n in s ==> n < |c|
    ensures Rollback(Indexed(c, s, Some(checkpoint)), from)
         == Indexed(c, Below(s, from), Some(Max(from - 1, 0)))
  {
    var t := Indexed(c, s, Some(checkpoint));
    var v := Indexed(c, Below(s, from), Some(Max(from - 1, 0)));
    var u := Rollback(t, from);
    RollbackMeaning(t, from);
    assert u.block == v.block && u.transaction == v.transaction;
    forall d | d in RowsAt(c, s) ensures d.tx !in TxsFrom(t, from) <==> d in RowsAt(c, Below(s, from)) {
      RowAtOrBelow(c, s, checkpoint, from, d);
    }
    hide ChainOk, Rollback, TxsFrom;
    assert u.dependents == v.dependents;
  }

  lemma RowAtOrBelow(c: Chain, s: set<nat>, checkpoint: int, from: nat, d: DepRow)
    requires ChainOk(c) && (forall n :: n in s ==> n < |c|) && d in RowsAt(c, s)
    ensures d.tx !in TxsFrom(Indexed(c, s, Some(checkpoint)), from) <==> d in RowsAt(c, Below(s, from))
  {
    var n :| n in s && d in c[n].rows;
    assert TxRow(d.tx, n) in Indexed(c, s, Some(checkpoint)).transaction;
    if d in RowsAt(c, Below(s, from)) {
      var m :| m in Below(s, from) && d in c[m].rows;
      assert m == n;
    }
  }

  lemma RollbackOfStore(c: Chain, lo: nat, hi: nat, from: nat)
    requires ChainOk(c) && lo <= from <= hi <= |c| && 1 <= from
    ensures Rollback(Store(c, lo, hi), from) == Store(c, lo, from)
  {
    RollbackOfIndexed(c, Heights(lo, hi), hi - 1, from);
    assert Below(Heights(lo, hi), from) == Heights(lo, from);
  }

  lemma HeightsOfRange(lo: nat, start: nat, end: nat)
    requires lo <= start <= end
    ensures Heights(lo, start) + Elements(Range(start, end)) == Heights(lo, end)
  {
    forall k | start <= k < end ensures k in Range(start, end) {
      assert Range(start, end)[k - start] == k;
    }
  }

  lemma IndexChunkExtendsStore(c: Chain, lo: nat, start: nat, end: nat)
    requires ChainOk(c) && lo <= start <= end < |c|
    ensures IndexChunk(Store(c, lo, start), c, start, end) == Store(c, lo, end + 1)
  {
    hide ChainOk, Indexed, Elements, Range, IngestAll;
    HeightsOfRange(lo, start, end + 1);
    IngestOrderIsIrrelevant(c, Heights(lo, start), Some(start - 1), Range(start, end + 1));
    CheckpointOfIndexed(c, Heights(lo, end + 1), Some(start - 1), end);
  }

  lemma CheckpointOfIndexed(c: Chain, s: set<nat>, before: Option<int>, n: int)
    requires forall k :: k in s ==> k < |c|
    ensures SetCheckpoint(Indexed(c, s, before), n) == Indexed(c, s, Some(n))
  {
  }

  /** Indexing on top of a store of the same chain gives the longer store, up to the height reached. */
  lemma {:induction false} IndexFromExtendsStore(
      c: Chain, lo: nat, start: nat, to: nat, batch: nat, events: seq<ChunkEvent>)
    requires ChainOk(c) && batch > 0 && lo <= start <= to + 1 && to < |c| && NoFailure(events)
    ensures IndexFrom(Store(c, lo, start), c, start, to, batch, events).0
        == Store(c, lo, Reached(start, to, batch, events))
    decreases 1 + to - start
  {
    hide Store, ChainOk, IngestSome, IndexChunk;
    if start <= to && NextEvent(events).Process? {
      var end := ChunkEnd(start, to, batch);
      IndexChunkExtendsStore(c, lo, start, end);
      IndexFromExtendsStore(c, lo, end + 1, to, batch, LaterEvents(events));
    }
  }

  // ------------------------------------------------ what the node fails to serve

  /** The two tables whose rows come from the trace of a failed transaction. */
  predicate NeedsTrace(table: Dependent) {
    table.TraceLog? || table.FailedTransaction?
  }

  /**
   * A block as the node serves it. Absent receipts count as an empty list, so the block has no
   * transaction; a transaction whose trace is unavailable is skipped.
   */
  function ServedBlock(b: ChainBlock, receipts: bool, noTrace: set<TxHash>): ChainBlock {
    if receipts then b.(rows := set d | d in b.rows && !(NeedsTrace(d.table) && d.tx in noTrace))
    else b.(txs := {}, rows := {})
  }

  function Served(c: Chain, noReceipts: set<nat>, noTrace: set<TxHash>): (s: Chain)
    ensures |s| == |c| && forall n :: 0 <= n < |c| ==> s[n] == ServedBlock(c[n], n !in noReceipts, noTrace)
  {
    seq(|c|, n requires 0 <= n < |c| => ServedBlock(c[n], n !in noReceipts, noTrace))
  }

  lemma ServedIsOk(c: Chain, noReceipts: set<nat>, noTrace: set<TxHash>)
    requires ChainOk(c)
    ensures ChainOk(Served(c, noReceipts, noTrace))
  {
    var s := Served(c, noReceipts, noTrace);
    assert forall n :: 0 <= n < |c| ==> s[n].hash == c[n].hash && s[n].parent == c[n].parent;
    forall n | 0 <= n < |s| ensures BlockOk(s[n]) && s[n].txs <= c[n].txs {
      assert BlockOk(c[n]);
    }
  }

  lemma ServedInFull(c: Chain)
    ensures Served(c, {}, {}) == c
  {
    forall n | 0 <= n < |c| ensures ServedBlock(c[n], true, {}) == c[n] {
      assert ServedBlock(c[n], true, {}).rows == c[n].rows;
    }
  }

  /** What is added from a served chain comes from the chain. */
  lemma AddsFromServed(t: Tables, u: Tables, c: Chain, noReceipts: set<nat>, noTrace: set<TxHash>, from: nat, to: nat)
    requires Adds(t, u, Served(c, noReceipts, noTrace), from, to)
    ensures Adds(t, u, c, from, to)
  {
    var s := Served(c, noReceipts, noTrace);
    assert forall n :: 0 <= n < |c| ==> Row(s[n]) == Row(c[n]) && s[n].txs <= c[n].txs && s[n].rows <= c[n].rows;
    forall d | Copies(t, d) < Copies(u, d) ensures RowOf(c, from, to, d) {
      assert RowOf(s, from, to, d);
      var n :| from <= n <= to && n < |s| && d in s[n].rows;
    }
  }

  // --------------------------------------------------- the fork scan on a store

  /** The tip-first window over the store of `[lo, hi)`. */
  ghost function TipWindow(c: Chain, lo: nat, hi: nat, cap: nat): (w: seq<Stored>)
    requires lo <= hi <= |c|
    ensures |w| == Min(cap, hi - lo)
    ensures forall i :: 0 <= i < |w| ==> w[i] == Stored(hi - 1 - i, c[hi - 1 - i].hash)
    decreases cap
  {
    if cap == 0 || lo == hi then [] else [Stored(hi - 1, c[hi - 1].hash)] + TipWindow(c, lo, hi - 1, cap - 1)
  }

  lemma {:induction false} RecentOfStore(c: Chain, lo: nat, hi: nat, cap: nat)
    requires lo <= hi <= |c|
    ensures RecentBlockHashes(Store(c, lo, hi).block, cap) == TipWindow(c, lo, hi, cap)
    decreases cap
  {
    var block := Store(c, lo, hi).block;
    assert HashedHeights(block) == Heights(lo, hi);
    if cap > 0 && lo < hi {
      assert hi - 1 in Heights(lo, hi);
      assert MaxKey(Heights(lo, hi)) == hi - 1;
      assert BlocksBelow(block, hi - 1) == Store(c, lo, hi - 1).block;
      RecentOfStore(c, lo, hi - 1, cap - 1);
    } else if cap > 0 {
      assert Heights(lo, hi) == {};
    }
  }

  /** The node's answer about a height: absent beyond the head, unavailable where the lookup fails. */
  function Lookup(chain: Chain, down: set<nat>): nat -> Option<Hash> {
    (h: nat) => if h < |chain| && h !in down then Some(chain[h].hash) else None
  }

  function ScanTables(t: Tables, cap: nat, chain: Chain, down: set<nat>): Option<nat>
    requires cap <= USIZE_MAX
  {
    var local := RecentBlockHashes(t.block, cap);
    RecentBlockHashesSound(t.block, cap);
    Detect(local, Lookup(chain, down), 1)
  }

  ghost predicate AllAnswered(chain: Chain, down: set<nat>, lo: nat, hi: nat) {
    hi <= |chain| && forall n :: lo <= n < hi ==> n !in down
  }

  /** One stored row against the node's answer: a mismatch is stale, a match is not. */
  lemma RowAgainstAnswer(a: Chain, b: Chain, down: set<nat>, lo: nat, hi: nat, n: nat)
    requires ChainOk(a) && ChainOk(b) && Committed(a, b) && lo <= n < hi <= |a|
    ensures var answer := Lookup(b, down)(n);
            && (Mismatch(Stored(n, a[n].hash), answer) ==> ForkPoint(a, b, lo, hi) <= n)
            && (answer.Some? && !Mismatch(Stored(n, a[n].hash), answer) ==> n < ForkPoint(a, b, lo, hi))
  {
    ForkPointSplits(a, b, lo, hi, n);
  }

  /** The mismatching run at the tip of a store, against the fork point. */
  lemma RunOfStore(a: Chain, b: Chain, down: set<nat>, lo: nat, hi: nat, cap: nat)
    requires ChainOk(a) && ChainOk(b) && Committed(a, b) && lo <= hi <= |a|
    ensures var p := ForkPoint(a, b, lo, hi);
            var w := TipWindow(a, lo, hi, cap);
            var at := Lookup(b, down);
            var run := MismatchRun(w, at, |w|);
            && run <= hi - p
            && (run < |w| && at(w[run].height).Some? ==> run == hi - p)
  {
    var p := ForkPoint(a, b, lo, hi);
    var w := TipWindow(a, lo, hi, cap);
    var at := Lookup(b, down);
    hide ChainOk, Committed, TipWindow, ForkPoint, Mismatch, Lookup;
    forall i | 0 <= i < |w| ensures RowTells(w, at, hi, p, i) {
      RowAgainstAnswer(a, b, down, lo, hi, hi - 1 - i);
    }
    RunUpToFork(w, at, hi, p);
  }

  /** Row `i` of a window below `hi` says on which side of `p` it stands, if it is answered. */
  ghost predicate RowTells(w: seq<Stored>, at: nat -> Option<Hash>, hi: nat, p: nat, i: nat)
    requires i < |w|
  {
    && (Mismatch(w[i], at(w[i].height)) ==> p <= hi - 1 - i)
    && (at(w[i].height).Some? && !Mismatch(w[i], at(w[i].height)) ==> hi - 1 - i < p)
  }

  lemma RunUpToFork(w: seq<Stored>, at: nat -> Option<Hash>, hi: nat, p: nat)
    requires p <= hi && forall i :: 0 <= i < |w| ==> RowTells(w, at, hi, p, i)
    ensures var run := MismatchRun(w, at, |w|);
            && run <= hi - p
            && (run < |w| && at(w[run].height).Some? ==> run == hi - p)
  {
    var run := MismatchRun(w, at, |w|);
    if run > 0 { assert RowTells(w, at, hi, p, run - 1); }
    if run < |w| { assert RowTells(w, at, hi, p, run); }
  }

  lemma ScanReadsTipWindow(a: Chain, b: Chain, down: set<nat>, lo: nat, hi: nat, cap: nat)
    requires lo <= hi <= |a| && cap <= USIZE_MAX
    ensures ScanTables(Store(a, lo, hi), cap, b, down) == Detect(TipWindow(a, lo, hi, cap), Lookup(b, down), 1)
  {
    RecentOfStore(a, lo, hi, cap);
  }

  lemma ConfirmedForkIsForkPoint(a: Chain, b: Chain, down: set<nat>, lo: nat, hi: nat, cap: nat, scan: Option<nat>)
    requires ChainOk(a) && ChainOk(b) && Committed(a, b) && lo <= hi <= |a| && 1 <= cap <= USIZE_MAX
    requires var w := TipWindow(a, lo, hi, cap);
             Confirmed(w, Lookup(b, down), MismatchRun(w, Lookup(b, down), |w|), scan)
    ensures var p := ForkPoint(a, b, lo, hi);
            && (scan.Some? ==> p < hi && scan.value == Max(p, hi - cap))
            && (AllAnswered(b, down, lo, hi) && p < hi ==> scan.Some?)
  {
    var p := ForkPoint(a, b, lo, hi);
    var w := TipWindow(a, lo, hi, cap);
    var at := Lookup(b, down);
    hide ChainOk, Committed, MismatchRun, TipWindow, ForkPoint, Lookup, AllAnswered, Confirmed, AllKnown, Mismatch;
    RunOfStore(a, b, down, lo, hi, cap);
    WindowIsAnswered(a, b, down, lo, hi, cap);
    ConfirmedForkHeight(w, at, lo, hi, p, MismatchRun(w, at, |w|), scan);
  }

  lemma WindowIsAnswered(a: Chain, b: Chain, down: set<nat>, lo: nat, hi: nat, cap: nat)
    requires lo <= hi <= |a|
    ensures AllAnswered(b, down, lo, hi) ==> var w := TipWindow(a, lo, hi, cap); AllKnown(w, Lookup(b, down), |w|)
  {
  }

  lemma ConfirmedForkHeight(
      w: seq<Stored>, at: nat -> Option<Hash>, lo: nat, hi: nat, p: nat, run: nat, scan: Option<nat>)
    requires lo <= p <= hi && |w| <= hi - lo && (forall i :: 0 <= i < |w| ==> w[i].height == hi - 1 - i)
    requires run <= |w| && run <= hi - p && (run < |w| && at(w[run].height).Some? ==> run == hi - p)
    requires Confirmed(w, at, run, scan)
    ensures scan.Some? ==> p < hi && scan.value == Max(p, hi - |w|)
    ensures AllKnown(w, at, |w|) && p < hi && w != [] ==> scan.Some?
  {
  }

  /**
   * What the capped, lazy scan of a store answers. A fork is reported only when the tip is stale
   * and is then the true fork point, or the lowest row of the window when the true one lies
   * deeper; when the node answers for every stored height a stale tip is always reported.
   */
  lemma ScanOfStore(a: Chain, b: Chain, down: set<nat>, lo: nat, hi: nat, cap: nat)
    requires ChainOk(a) && ChainOk(b) && Committed(a, b) && lo <= hi <= |a| && 1 <= cap <= USIZE_MAX
    ensures var p := ForkPoint(a, b, lo, hi);
            var scan := ScanTables(Store(a, lo, hi), cap, b, down);
            && (scan.Some? ==> p < hi && scan.value == Max(p, hi - cap))
            && (AllAnswered(b, down, lo, hi) && p < hi ==> scan.Some?)
  {
    var w := TipWindow(a, lo, hi, cap);
    ScanReadsTipWindow(a, b, down, lo, hi, cap);
    ReportedForkIsConfirmed(w, Lookup(b, down));
    ConfirmedForkIsForkPoint(a, b, down, lo, hi, cap, Detect(w, Lookup(b, down), 1));
  }

  /**
   * Rollback at the detected fork leaves exactly the rows that agree with the chain, precisely
   * when the stale part fits the scan cap.
   */
  lemma RollbackAtForkIsExact(a: Chain, b: Chain, down: set<nat>, lo: nat, hi: nat, cap: nat)
    requires ChainOk(a) && ChainOk(b) && Committed(a, b) && lo <= hi <= |a| && 1 <= cap <= USIZE_MAX
    requires ScanTables(Store(a, lo, hi), cap, b, down).Some?
    ensures var t := Store(a, lo, hi);
            var after := Rollback(t, ScanTables(t, cap, b, down).value);
            && (forall n :: n in t.block && Agree(a, b, n) ==> n in after.block && after.block[n] == Row(b[n]))
            && ((forall n :: n in after.block ==> Agree(a, b, n)) <==> hi - ForkPoint(a, b, lo, hi) <= cap)
  {
    ScanOfStore(a, b, down, lo, hi, cap);
    hide ScanTables, ChainOk, Committed, Rollback, ForkPoint, Store, Agree;
    RowsAfterRollback(a, b, lo, hi, ScanTables(Store(a, lo, hi), cap, b, down).value);
  }

  lemma RowsAfterRollback(a: Chain, b: Chain, lo: nat, hi: nat, f: nat)
    requires ChainOk(a) && ChainOk(b) && Committed(a, b) && lo <= hi <= |a| && ForkPoint(a, b, lo, hi) <= f <= hi
    requires ForkPoint(a, b, lo, hi) < hi
    ensures var t := Store(a, lo, hi);
            var after := Rollback(t, f);
            && (forall n :: n in t.block && Agree(a, b, n) ==> n in after.block && after.block[n] == Row(b[n]))
            && ((forall n :: n in after.block ==> Agree(a, b, n)) <==> f == ForkPoint(a, b, lo, hi))
  {
    var p := ForkPoint(a, b, lo, hi);
    var t := Store(a, lo, hi);
    RollbackMeaning(t, f);
    forall n | lo <= n < hi
      ensures n < p <==> Agree(a, b, n)
      ensures Agree(a, b, n) ==> a[n] == b[n]
    {
      ForkPointSplits(a, b, lo, hi, n);
    }
    assert forall n :: n in t.block <==> lo <= n < hi;
    assert forall n :: n in t.block ==> t.block[n] == Row(a[n]);
    hide ChainOk, Committed, Rollback, ForkPoint, Store, Agree;
    if p < f {
      assert p in Rollback(t, f).block && !Agree(a, b, p);
    }
  }
}
