/**
 * The block-scoped tables as values: what each SQL statement of the rollback and of
 * the block ingest does to them, and which statements keep the foreign keys.
 */
module ChainTables {
  import opened Options
  import opened ForkScanning

  type TxHash = string

  datatype BlockRow = BlockRow(hash: Option<Hash>, parent: Option<Hash>)
  datatype TxRow = TxRow(tx: TxHash, block: nat)

  /** The five tables whose rows refer to a transaction. */
  datatype Dependent = SwapEvent | LiquidityEvent | TokenTransfer | TraceLog | FailedTransaction
  datatype DepRow = DepRow(table: Dependent, tx: TxHash, key: nat)

  /** How many copies of a stored row there are. */
  type Count = n: nat | n > 0 witness 1

  datatype Tables = Tables(
    block: map<nat, BlockRow>,
    transaction: set<TxRow>,
    dependents: map<DepRow, Count>,
    checkpoint: Option<int>)

  /** How often a row is stored. Only trace rows have no key of their own and can be stored repeatedly. */
  function Copies(t: Tables, d: DepRow): nat {
    if d in t.dependents then t.dependents[d] else 0
  }

  /** Both foreign keys: every transaction has its block, every dependent row its transaction. */
  ghost predicate Integrity(t: Tables) {
    && (forall r :: r in t.transaction ==> r.block in t.block)
    && (forall d :: d in t.dependents ==> exists r :: r in t.transaction && r.tx == d.tx)
  }

  /** The primary key of the transaction table. */
  ghost predicate UniqueTx(t: Tables) {
    forall r, s :: r in t.transaction && s in t.transaction && r.tx == s.tx ==> r == s
  }

  // ---------------------------------------------------------------- rollback

  /** The order in which both the rollback and the ingest visit the dependent tables. */
  const DEPENDENT_ORDER: seq<Dependent> := [SwapEvent, LiquidityEvent, TokenTransfer, TraceLog, FailedTransaction]

  lemma EveryTableIsVisited(table: Dependent)
    ensures table in DEPENDENT_ORDER[..5]
  {
    match table
    case SwapEvent => assert DEPENDENT_ORDER[..5][0] == table;
    case LiquidityEvent => assert DEPENDENT_ORDER[..5][1] == table;
    case TokenTransfer => assert DEPENDENT_ORDER[..5][2] == table;
    case TraceLog => assert DEPENDENT_ORDER[..5][3] == table;
    case FailedTransaction => assert DEPENDENT_ORDER[..5][4] == table;
  }

  /** SELECT tx_hash FROM transaction WHERE block_number >= from */
  function TxsFrom(t: Tables, from: int): set<TxHash> {
    set r | r in t.transaction && r.block >= from :: r.tx
  }

  function DeleteDependents(t: Tables, table: Dependent, from: int): Tables {
    t.(dependents := map d | d in t.dependents && !(d.table == table && d.tx in TxsFrom(t, from)) :: t.dependents[d])
  }

  function DeleteTransactions(t: Tables, from: int): Tables {
    t.(transaction := set r | r in t.transaction && r.block < from)
  }

  function BlocksBelow(block: map<nat, BlockRow>, from: int): map<nat, BlockRow> {
    map n | n in block && n < from :: block[n]
  }

  function DeleteBlocks(t: Tables, from: int): Tables {
    t.(block := BlocksBelow(t.block, from))
  }

  /** UPDATE indexer_checkpoint: no effect when the chain has no checkpoint row. */
  function RewindCheckpoint(t: Tables, from: int): Tables {
    if t.checkpoint.None? then t else t.(checkpoint := Some(Max(from - 1, 0)))
  }

  /** The tables after the first `k` of the eight statements of one rollback. */
  function RollbackPrefix(t: Tables, from: int, k: nat): Tables
    requires k <= 8
  {
    if k == 0 then t
    else
      var before := RollbackPrefix(t, from, k - 1);
      if k <= 5 then DeleteDependents(before, DEPENDENT_ORDER[k - 1], from)
      else if k == 6 then DeleteTransactions(before, from)
      else if k == 7 then DeleteBlocks(before, from)
      else RewindCheckpoint(before, from)
  }

  function Rollback(t: Tables, from: int): Tables {
    RollbackPrefix(t, from, 8)
  }

  /** What one rollback leaves behind, table by table. */
  ghost predicate RolledBack(t: Tables, from: int, after: Tables) {
    && after.block == (BlocksBelow(t.block, from))
    && after.transaction == (set r | r in t.transaction && r.block < from)
    && after.dependents == (map d | d in t.dependents && d.tx !in TxsFrom(t, from) :: t.dependents[d])
    && after.checkpoint == if t.checkpoint.None? then None else Some(Max(from - 1, 0))
  }

  /** The rows left after the first `k` deletes, if the transactions are those of `t`. */
  function DependentsLeft(t: Tables, from: int, k: nat): map<DepRow, Count>
    requires k <= 5
  {
    map d | d in t.dependents && !(d.table in DEPENDENT_ORDER[..k] && d.tx in TxsFrom(t, from)) :: t.dependents[d]
  }

  lemma DependentsLeftStep(t: Tables, u: Tables, from: int, k: nat)
    requires 1 <= k <= 5 && u.transaction == t.transaction && u.dependents == DependentsLeft(t, from, k - 1)
    ensures DeleteDependents(u, DEPENDENT_ORDER[k - 1], from).dependents == DependentsLeft(t, from, k)
  {
    VisitedStep(k - 1);
    assert TxsFrom(u, from) == TxsFrom(t, from);
  }

  lemma {:induction false} RollbackPrefixState(t: Tables, from: int, k: nat)
    requires k <= 8
    ensures var p := RollbackPrefix(t, from, k);
            && p.dependents == DependentsLeft(t, from, Min(k, 5))
            && p.transaction == (if k < 6 then t.transaction else set r | r in t.transaction && r.block < from)
            && p.block == (if k < 7 then t.block else BlocksBelow(t.block, from))
            && p.checkpoint == if k < 8 || t.checkpoint.None? then t.checkpoint else Some(Max(from - 1, 0))
  {
    if k > 0 {
      RollbackPrefixState(t, from, k - 1);
      if k <= 5 {
        DependentsLeftStep(t, RollbackPrefix(t, from, k - 1), from, k);
      }
    }
  }

  lemma VisitedStep(k: nat)
    requires k < 5
    ensures forall table :: table in DEPENDENT_ORDER[..k + 1]
                       <==> table in DEPENDENT_ORDER[..k] || table == DEPENDENT_ORDER[k]
  {
    assert DEPENDENT_ORDER[..k + 1] == DEPENDENT_ORDER[..k] + [DEPENDENT_ORDER[k]];
  }

  lemma RollbackMeaning(t: Tables, from: int)
    ensures RolledBack(t, from, Rollback(t, from))
  {
    RollbackPrefixState(t, from, 8);
    forall d | d in t.dependents ensures d.table in DEPENDENT_ORDER[..Min(8, 5)] {
      EveryTableIsVisited(d.table);
    }
    assert Rollback(t, from).dependents == map d | d in t.dependents && d.tx !in TxsFrom(t, from) :: t.dependents[d];
  }

  /** The foreign keys hold after every single statement, not only at the commit. */
  lemma EveryDeleteKeepsIntegrity(t: Tables, from: int, k: nat)
    requires k <= 8 && Integrity(t) && UniqueTx(t)
    ensures Integrity(RollbackPrefix(t, from, k)) && UniqueTx(RollbackPrefix(t, from, k))
  {
    RollbackPrefixState(t, from, k);
    var p := RollbackPrefix(t, from, k);
    if k >= 6 {
      RollbackPrefixState(t, from, 5);
      RollbackMeaning(t, from);
      RollbackPrefixState(t, from, 8);
      forall d | d in p.dependents ensures exists r :: r in p.transaction && r.tx == d.tx {
        var r :| r in t.transaction && r.tx == d.tx;
        assert d.tx !in TxsFrom(t, from) by { assert d in Rollback(t, from).dependents; }
        assert r in p.transaction;
      }
    }
  }

  /** Deleting the transactions first would break a foreign key exactly when one of them has a dependent row. */
  lemma TransactionsMustGoAfterDependents(t: Tables, from: int)
    requires Integrity(t) && UniqueTx(t)
    ensures Integrity(DeleteTransactions(t, from)) <==> forall d :: d in t.dependents ==> d.tx !in TxsFrom(t, from)
  {
    var p := DeleteTransactions(t, from);
    forall d | d in t.dependents && d.tx in TxsFrom(t, from)
      ensures !exists r :: r in p.transaction && r.tx == d.tx
    {
    }
    if forall d :: d in t.dependents ==> d.tx !in TxsFrom(t, from) {
      forall d | d in p.dependents ensures exists r :: r in p.transaction && r.tx == d.tx {
        var r :| r in t.transaction && r.tx == d.tx;
        assert r in p.transaction;
      }
    }
  }

  /** Rolling back twice, the second time at least as deep, is rolling back once. */
  lemma RollbackComposes(t: Tables, deep: int, shallow: int)
    requires Integrity(t) && deep <= shallow
    ensures Rollback(Rollback(t, shallow), deep) == Rollback(t, deep)
  {
    var s := Rollback(t, shallow);
    RollbackMeaning(t, shallow);
    RollbackMeaning(t, deep);
    RollbackMeaning(s, deep);
    assert Rollback(s, deep).block == Rollback(t, deep).block;
    forall d | d in t.dependents && d.tx !in TxsFrom(t, shallow)
      ensures d.tx in TxsFrom(s, deep) <==> d.tx in TxsFrom(t, deep)
    {
      if d.tx in TxsFrom(t, deep) {
        var r :| r in t.transaction && r.block >= deep && r.tx == d.tx;
        assert r in s.transaction;
      }
    }
    assert Rollback(s, deep).dependents == Rollback(t, deep).dependents;
  }

  lemma RollbackIsIdempotent(t: Tables, from: int)
    requires Integrity(t)
    ensures Rollback(Rollback(t, from), from) == Rollback(t, from)
  {
    RollbackComposes(t, from, from);
  }

  // ------------------------------------------------------------------ ingest

  /** What the node serves for one block: its header and the rows decoded from it. */
  datatype ChainBlock = ChainBlock(hash: Hash, parent: Hash, txs: set<TxHash>, rows: set<DepRow>)

  function Row(b: ChainBlock): BlockRow {
    BlockRow(Some(b.hash), Some(b.parent))
  }

  /** INSERT INTO block ... ON CONFLICT (block_number) DO NOTHING */
  function InsertBlockRow(t: Tables, n: nat, b: ChainBlock): Tables {
    if n in t.block then t
    else t.(block := t.block[n := Row(b)])
  }

  /** INSERT INTO transaction ... ON CONFLICT (tx_hash) DO NOTHING */
  function InsertTransactions(t: Tables, n: nat, b: ChainBlock): Tables {
    t.(transaction := t.transaction + set x | x in b.txs && !KnownTx(t, x) :: TxRow(x, n))
  }

  predicate KnownTx(t: Tables, x: TxHash) {
    exists r | r in t.transaction :: r.tx == x
  }

  /**
   * Four of the tables are inserted ON CONFLICT DO NOTHING; the trace table has no conflict clause
   * and takes another copy of every row.
   */
  function AddRows(stored: map<DepRow, Count>, added: set<DepRow>): map<DepRow, Count> {
    map d | d in stored.Keys + added ::
      if d !in stored then 1
      else if d in added && d.table.TraceLog? then stored[d] + 1
      else stored[d]
  }

  lemma AddRowsTwice(stored: map<DepRow, Count>, first: set<DepRow>, second: set<DepRow>)
    requires first !! second
    ensures AddRows(AddRows(stored, first), second) == AddRows(stored, first + second)
  {
  }

  /** The rows of a block for one table. */
  function RowsFor(b: ChainBlock, table: Dependent): set<DepRow> {
    set d | d in b.rows && d.table == table
  }

  /** The rows of a block for the first `k` tables in ingest order. */
  function RowsUpTo(b: ChainBlock, k: nat): set<DepRow>
    requires k <= 5
  {
    set d | d in b.rows && d.table in DEPENDENT_ORDER[..k]
  }

  lemma RowsUpToStep(b: ChainBlock, k: nat)
    requires k < 5
    ensures RowsUpTo(b, k + 1) == RowsUpTo(b, k) + RowsFor(b, DEPENDENT_ORDER[k])
    ensures RowsUpTo(b, k) !! RowsFor(b, DEPENDENT_ORDER[k])
  {
    assert DEPENDENT_ORDER[..k + 1] == DEPENDENT_ORDER[..k] + [DEPENDENT_ORDER[k]];
    assert forall i, j :: 0 <= i < j < 5 ==> DEPENDENT_ORDER[i] != DEPENDENT_ORDER[j];
    assert DEPENDENT_ORDER[k] !in DEPENDENT_ORDER[..k];
  }

  /** The insert statement of one dependent table. */
  function InsertDependents(t: Tables, table: Dependent, b: ChainBlock): Tables {
    t.(dependents := AddRows(t.dependents, RowsFor(b, table)))
  }

  /** The `k`-th of the seven insert statements of one block. */
  function InsertStatement(t: Tables, n: nat, b: ChainBlock, k: nat): Tables
    requires 1 <= k <= 7
  {
    if k == 1 then InsertBlockRow(t, n, b)
    else if k == 2 then InsertTransactions(t, n, b)
    else InsertDependents(t, DEPENDENT_ORDER[k - 3], b)
  }

  /** The tables after the first `k` of the seven insert statements of one block. */
  function IngestPrefix(t: Tables, n: nat, b: ChainBlock, k: nat): Tables
    requires k <= 7
  {
    if k == 0 then t else InsertStatement(IngestPrefix(t, n, b, k - 1), n, b, k)
  }

  function Ingest(t: Tables, n: nat, b: ChainBlock): Tables {
    IngestPrefix(t, n, b, 7)
  }

  /** A block's rows belong to its own transactions. */
  ghost predicate BlockOk(b: ChainBlock) {
    forall d :: d in b.rows ==> d.tx in b.txs
  }

  lemma IngestPrefixState(t: Tables, n: nat, b: ChainBlock, k: nat)
    requires k <= 7
    ensures var p := IngestPrefix(t, n, b, k);
            && p.block == (if k < 1 || n in t.block then t.block else t.block[n := Row(b)])
            && p.transaction == (if k < 2 then t.transaction
                                 else t.transaction + set x | x in b.txs && !KnownTx(t, x) :: TxRow(x, n))
            && p.dependents == AddRows(t.dependents, RowsUpTo(b, Max(k - 2, 0)))
            && p.checkpoint == t.checkpoint
  {
    if k == 0 {
      assert RowsUpTo(b, 0) == {};
    } else {
      IngestPrefixState(t, n, b, k - 1);
      if k > 2 {
        RowsUpToStep(b, k - 3);
        AddRowsTwice(t.dependents, RowsUpTo(b, k - 3), RowsFor(b, DEPENDENT_ORDER[k - 3]));
      }
    }
  }

  /** Every table is visited, so a whole ingest adds every row of the block. */
  lemma AllRows(b: ChainBlock)
    ensures RowsUpTo(b, 5) == b.rows
  {
    forall d | d in b.rows ensures d.table in DEPENDENT_ORDER[..5] {
      EveryTableIsVisited(d.table);
    }
  }

  /** A failed ingest may stop between any two statements and still leaves the foreign keys intact. */
  lemma EveryInsertKeepsIntegrity(t: Tables, n: nat, b: ChainBlock, k: nat)
    requires k <= 7 && Integrity(t) && UniqueTx(t) && BlockOk(b)
    ensures Integrity(IngestPrefix(t, n, b, k)) && UniqueTx(IngestPrefix(t, n, b, k))
  {
    IngestPrefixState(t, n, b, k);
    var p := IngestPrefix(t, n, b, k);
    forall d | d in p.dependents ensures exists r :: r in p.transaction && r.tx == d.tx {
      if d in t.dependents {
        var r :| r in t.transaction && r.tx == d.tx;
        assert r in p.transaction;
      } else if !KnownTx(t, d.tx) {
        assert TxRow(d.tx, n) in p.transaction;
      } else {
        var r :| r in t.transaction && r.tx == d.tx;
        assert r in p.transaction;
      }
    }
  }

  lemma IngestMeaning(t: Tables, n: nat, b: ChainBlock)
    ensures var p := Ingest(t, n, b);
            && p.block == (if n in t.block then t.block else t.block[n := Row(b)])
            && p.transaction == t.transaction + (set x | x in b.txs && !KnownTx(t, x) :: TxRow(x, n))
            && p.dependents == AddRows(t.dependents, b.rows)
            && p.checkpoint == t.checkpoint
  {
    IngestPrefixState(t, n, b, 7);
    AllRows(b);
  }

  /**
   * Processing a block again: everything but its trace rows stays as it is, and each of its trace
   * rows is stored once more. It is harmless if and only if the block has no trace row.
   */
  lemma SecondIngest(t: Tables, n: nat, b: ChainBlock)
    ensures var once := Ingest(t, n, b);
            var twice := Ingest(once, n, b);
            && twice == once.(dependents := twice.dependents) && twice.dependents.Keys == once.dependents.Keys
            && (forall d :: Copies(twice, d) == Copies(once, d) + if d in b.rows && d.table.TraceLog? then 1 else 0)
            && (twice == once <==> forall d :: d in b.rows ==> !d.table.TraceLog?)
  {
    var once := Ingest(t, n, b);
    IngestMeaning(t, n, b);
    IngestMeaning(once, n, b);
    forall x | x in b.txs ensures KnownTx(once, x) {
      if KnownTx(t, x) {
        var r :| r in t.transaction && r.tx == x;
        assert r in once.transaction;
      } else {
        assert TxRow(x, n) in once.transaction;
      }
    }
    assert (set x | x in b.txs && !KnownTx(once, x) :: TxRow(x, n)) == {};
    var twice := Ingest(once, n, b);
    forall d | d in b.rows && d.table.TraceLog? ensures twice != once {
      assert twice.dependents[d] == once.dependents[d] + 1;
    }
  }

  // ------------------------------------------------------------ stored hashes

  function MaxKey(s: set<nat>): (m: nat)
    requires s != {}
    ensures m in s && forall n :: n in s ==> n <= m
  {
    MaxExists(s);
    var m :| m in s && forall n :: n in s ==> n <= m;
    m
  }

  lemma {:induction false} MaxExists(s: set<nat>)
    requires s != {}
    ensures exists m :: m in s && forall n :: n in s ==> n <= m
  {
    var x :| x in s;
    if s - {x} != {} {
      MaxExists(s - {x});
      var m :| m in s - {x} && forall n :: n in s - {x} ==> n <= m;
      forall n | n in s ensures n <= Max(m, x) {
        assert n == x || n in s - {x};
      }
      assert Max(m, x) in s;
    } else {
      assert s == {x};
    }
  }

  function HashedHeights(block: map<nat, BlockRow>): set<nat> {
    set n | n in block && block[n].hash.Some?
  }

  /** SELECT block_number, block_hash ... WHERE block_hash IS NOT NULL ORDER BY block_number DESC LIMIT limit */
  function RecentBlockHashes(block: map<nat, BlockRow>, limit: nat): (rows: seq<Stored>)
    decreases limit
  {
    var hashed := HashedHeights(block);
    if limit == 0 || hashed == {} then []
    else
      var n := MaxKey(hashed);
      var below := BlocksBelow(block, n);
      [Stored(n, block[n].hash.value)] + RecentBlockHashes(below, limit - 1)
  }

  /** The window handed to the fork scan is strictly descending, true to the table and at most `limit` long. */
  lemma {:induction false} RecentBlockHashesSound(block: map<nat, BlockRow>, limit: nat)
    ensures var rows := RecentBlockHashes(block, limit);
            && |rows| <= limit && Descending(rows)
            && forall i :: 0 <= i < |rows| ==>
                 rows[i].height in block && block[rows[i].height].hash == Some(rows[i].hash)
    decreases limit
  {
    var hashed := HashedHeights(block);
    if limit > 0 && hashed != {} {
      RecentBlockHashesSound(BlocksBelow(block, MaxKey(hashed)), limit - 1);
    }
  }

  /** Every stored hash is in the window, or the window is full and lies entirely above it. */
  lemma {:induction false} RecentBlockHashesComplete(block: map<nat, BlockRow>, limit: nat, n: nat)
    requires n in block && block[n].hash.Some?
    ensures var rows := RecentBlockHashes(block, limit);
            || (exists i :: 0 <= i < |rows| && rows[i] == Stored(n, block[n].hash.value))
            || (|rows| == limit && forall i :: 0 <= i < |rows| ==> n < rows[i].height)
    decreases limit
  {
    assert n in HashedHeights(block);
    if limit > 0 {
      var top := MaxKey(HashedHeights(block));
      var rows := RecentBlockHashes(block, limit);
      if n == top {
        assert rows[0] == Stored(n, block[n].hash.value);
      } else {
        var rest := RecentBlockHashes(BlocksBelow(block, top), limit - 1);
        RecentBlockHashesComplete(BlocksBelow(block, top), limit - 1, n);
        assert rows == [rows[0]] + rest;
        if i :| 0 <= i < |rest| && rest[i] == Stored(n, block[n].hash.value) {
          assert rows[i + 1] == rest[i];
        }
      }
    }
  }
}
