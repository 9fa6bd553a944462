/**
 * The stored call trace of a failed transaction: the trace_log table in trace_id order, its two
 * queries, and the truncated page the API serves.
 */
module TraceStore {
  import opened Options
  import opened CallTrace

  /** The table in `trace_id` order, which is insertion order. */
  datatype TraceRow = TraceRow(tx: string, frame: FlatFrame)

  datatype Trace = Trace(tx: string, frames: seq<FlatFrame>)

  const MAX_CALL_TREE_FRAMES: nat := 2000

  // ------------------------------------------------------------------- queries

  /** The frames of one transaction, by ascending trace_id. */
  function FramesOf(rows: seq<TraceRow>, tx: string): (frames: seq<FlatFrame>)
    ensures |frames| <= |rows|
  {
    if rows == [] then []
    else (if rows[0].tx == tx then [rows[0].frame] else []) + FramesOf(rows[1..], tx)
  }

  /** ... WHERE tx_hash = tx ORDER BY trace_id LIMIT limit */
  function ListTraceLogs(rows: seq<TraceRow>, tx: string, limit: nat): seq<FlatFrame> {
    var frames := FramesOf(rows, tx);
    frames[..Min(limit, |frames|)]
  }

  /** ... WHERE tx_hash = tx AND error IS NOT NULL ORDER BY trace_id LIMIT 1 */
  function FirstErrorFrame(rows: seq<TraceRow>, tx: string): Option<FlatFrame> {
    if rows == [] then None
    else if rows[0].tx == tx && rows[0].frame.error.Some? then Some(rows[0].frame)
    else FirstErrorFrame(rows[1..], tx)
  }

  /** One batch insert of the flattened traces of a block. */
  function RowsOfTrace(tx: string, frames: seq<FlatFrame>): (rows: seq<TraceRow>)
    ensures |rows| == |frames| && forall i :: 0 <= i < |rows| ==> rows[i] == TraceRow(tx, frames[i])
  {
    seq(|frames|, i requires 0 <= i < |frames| => TraceRow(tx, frames[i]))
  }

  function RowsOfBatch(traces: seq<Trace>): seq<TraceRow> {
    if traces == [] then [] else RowsOfTrace(traces[0].tx, traces[0].frames) + RowsOfBatch(traces[1..])
  }

  // ---------------------------------------------------------- what is stored is read

  lemma {:induction false} FramesOfConcat(a: seq<TraceRow>, b: seq<TraceRow>, tx: string)
    ensures FramesOf(a + b, tx) == FramesOf(a, tx) + FramesOf(b, tx)
    decreases |a|
  {
    var s := a + b;
    if a == [] {
      assert s == b;
    } else {
      assert s[0] == a[0] && s[1..] == a[1..] + b;
      FramesOfConcat(a[1..], b, tx);
      var head := if a[0].tx == tx then [a[0].frame] else [];
      assert FramesOf(s, tx) == head + FramesOf(s[1..], tx);
      assert FramesOf(a, tx) == head + FramesOf(a[1..], tx);
    }
  }

  lemma {:induction false} FramesOfOwnTrace(tx: string, frames: seq<FlatFrame>, other: string)
    ensures FramesOf(RowsOfTrace(tx, frames), other) == if other == tx then frames else []
    decreases |frames|
  {
    if frames != [] {
      var rows := RowsOfTrace(tx, frames);
      assert rows[1..] == RowsOfTrace(tx, frames[1..]);
      FramesOfOwnTrace(tx, frames[1..], other);
    }
  }

  /** A trace inserted once is read back unchanged, whatever other traces share its batch. */
  lemma {:induction false} InsertedTraceIsRead(rows: seq<TraceRow>, traces: seq<Trace>, k: nat)
    requires k < |traces| && FramesOf(rows, traces[k].tx) == []
    requires forall i :: 0 <= i < |traces| && i != k ==> traces[i].tx != traces[k].tx
    ensures FramesOf(rows + RowsOfBatch(traces), traces[k].tx) == traces[k].frames
    decreases |traces|
  {
    var tx := traces[k].tx;
    var first := RowsOfTrace(traces[0].tx, traces[0].frames);
    var rest := RowsOfBatch(traces[1..]);
    FramesOfConcat(rows, first + rest, tx);
    FramesOfConcat(first, rest, tx);
    FramesOfOwnTrace(traces[0].tx, traces[0].frames, tx);
    hide FramesOf, RowsOfTrace;
    assert FramesOf(rows + RowsOfBatch(traces), tx) == FramesOf(first, tx) + FramesOf(rest, tx);
    if k > 0 {
      assert FramesOf([], tx) == [] by { NothingStored(tx); }
      assert traces[1..][k - 1] == traces[k];
      InsertedTraceIsRead([], traces[1..], k - 1);
      assert [] + rest == rest;
    } else {
      OtherTracesAreNotRead(traces[1..], tx);
    }
  }

  lemma NothingStored(tx: string)
    ensures FramesOf([], tx) == []
  {
  }

  lemma {:induction false} OtherTracesAreNotRead(traces: seq<Trace>, tx: string)
    requires forall i :: 0 <= i < |traces| ==> traces[i].tx != tx
    ensures FramesOf(RowsOfBatch(traces), tx) == []
    decreases |traces|
  {
    if traces != [] {
      FramesOfConcat(RowsOfTrace(traces[0].tx, traces[0].frames), RowsOfBatch(traces[1..]), tx);
      FramesOfOwnTrace(traces[0].tx, traces[0].frames, tx);
      OtherTracesAreNotRead(traces[1..], tx);
    }
  }

  // ---------------------------------------------------------------- the root cause

  /** The first frame of the tree that failed, searching a call before its callees, callees in order. */
  function FirstErrorInTree(f: CallFrame, depth: int): Option<FlatFrame>
    decreases f, 0
  {
    if f.error.Some? then Some(FlatOf(f, depth)) else FirstErrorInTrees(f.calls, depth + 1)
  }

  function FirstErrorInTrees(fs: seq<CallFrame>, depth: int): Option<FlatFrame>
    decreases fs, 1
  {
    if fs == [] then None
    else
      match FirstErrorInTree(fs[0], depth)
      case Some(frame) => Some(frame)
      case None => FirstErrorInTrees(fs[1..], depth)
  }

  function FirstError(flat: seq<FlatFrame>): Option<FlatFrame> {
    if flat == [] then None else if flat[0].error.Some? then Some(flat[0]) else FirstError(flat[1..])
  }

  lemma {:induction false} FirstErrorConcat(a: seq<FlatFrame>, b: seq<FlatFrame>)
    ensures FirstError(a + b) == if FirstError(a).Some? then FirstError(a) else FirstError(b)
    decreases |a|
  {
    if a == [] {
      assert a + b == b;
    } else {
      assert (a + b)[1..] == a[1..] + b;
      FirstErrorConcat(a[1..], b);
    }
  }

  lemma {:induction false} FirstErrorOfTrees(fs: seq<CallFrame>, depth: int)
    ensures FirstError(FlattenAll(fs, depth)) == FirstErrorInTrees(fs, depth)
    decreases fs, 1
  {
    if fs != [] {
      FirstErrorOfTree(fs[0], depth);
      FirstErrorOfTrees(fs[1..], depth);
      FirstErrorConcat(Flatten(fs[0], depth), FlattenAll(fs[1..], depth));
    }
  }

  lemma {:induction false} FirstErrorOfTree(f: CallFrame, depth: int)
    ensures FirstError(Flatten(f, depth)) == FirstErrorInTree(f, depth)
    decreases f, 0
  {
    FirstErrorOfTrees(f.calls, depth + 1);
    assert Flatten(f, depth)[1..] == FlattenAll(f.calls, depth + 1);
  }

  lemma {:induction false} FirstErrorFrameIsFirstError(rows: seq<TraceRow>, tx: string)
    ensures FirstErrorFrame(rows, tx) == FirstError(FramesOf(rows, tx))
    decreases |rows|
  {
    if rows != [] {
      FirstErrorFrameIsFirstError(rows[1..], tx);
      if rows[0].tx == tx {
        assert FramesOf(rows, tx)[1..] == FramesOf(rows[1..], tx);
      } else {
        assert FramesOf(rows, tx) == FramesOf(rows[1..], tx);
      }
    }
  }

  /** The first error row of a trace inserted once is the first error of its call tree. */
  lemma RootCauseIsFirstErrorOfTree(rows: seq<TraceRow>, tx: string, root: CallFrame)
    requires FramesOf(rows, tx) == Flatten(root, 0)
    ensures FirstErrorFrame(rows, tx) == FirstErrorInTree(root, 0)
  {
    FirstErrorFrameIsFirstError(rows, tx);
    FirstErrorOfTree(root, 0);
  }

  // ------------------------------------- where the revert happened, and where it is shown

  predicate AnyFailed(fs: seq<CallFrame>) {
    exists i :: 0 <= i < |fs| && (fs[i].error.Some? || AnyFailed(fs[i].calls))
  }

  /** The failing frame that finished first: a callee returns before its caller does. */
  function FirstRevertInTree(f: CallFrame, depth: int): (r: Option<FlatFrame>)
    ensures r.Some? ==> r.value.depth >= depth
    ensures r.Some? <==> f.error.Some? || AnyFailed(f.calls)
    decreases f, 0
  {
    match FirstRevertInTrees(f.calls, depth + 1)
    case Some(frame) => Some(frame)
    case None => if f.error.Some? then Some(FlatOf(f, depth)) else None
  }

  function FirstRevertInTrees(fs: seq<CallFrame>, depth: int): (r: Option<FlatFrame>)
    ensures r.Some? ==> r.value.depth >= depth
    ensures r.Some? <==> AnyFailed(fs)
    decreases fs, 1
  {
    if fs == [] then None
    else
      match FirstRevertInTree(fs[0], depth)
      case Some(frame) => Some(frame)
      case None => FirstRevertInTrees(fs[1..], depth)
  }

  /** The call whose frame is the first error of the tree. */
  function FirstErrorNode(f: CallFrame): (r: Option<CallFrame>)
    ensures r.Some? <==> f.error.Some? || AnyFailed(f.calls)
    decreases f, 0
  {
    if f.error.Some? then Some(f) else FirstErrorNodes(f.calls)
  }

  function FirstErrorNodes(fs: seq<CallFrame>): (r: Option<CallFrame>)
    ensures r.Some? <==> AnyFailed(fs)
    decreases fs, 1
  {
    if fs == [] then None
    else
      match FirstErrorNode(fs[0])
      case Some(node) => Some(node)
      case None => FirstErrorNodes(fs[1..])
  }

  /**
   * The reported root cause is the frame that reverted first if and only if no call below it
   * failed; when a failure was passed up, the outermost failing frame is reported instead.
   */
  lemma {:induction false} RootCauseIsFirstRevertIff(f: CallFrame, depth: int)
    ensures (FirstErrorInTree(f, depth) == FirstRevertInTree(f, depth))
        <==> (FirstErrorNode(f).Some? ==> !AnyFailed(FirstErrorNode(f).value.calls))
    ensures FirstErrorInTree(f, depth).Some? <==> FirstErrorNode(f).Some?
    decreases f, 0
  {
    if f.error.None? {
      RootCauseIsFirstRevertAllIff(f.calls, depth + 1);
    }
  }

  /** The router's call reverts because the pool's does: the router is reported, the pool reverted first. */
  lemma PassedOnRevertIsHidden()
    ensures var pool := CallFrame("CALL", "0xa", None, None, 21, None, None, Some("K"), []);
            var router := CallFrame("CALL", "0xb", None, None, 42, None, None, Some("execution reverted"), [pool]);
            FirstErrorInTree(router, 0) == Some(FlatOf(router, 0))
                && FirstRevertInTree(router, 0) == Some(FlatOf(pool, 1))
  {
    var pool := CallFrame("CALL", "0xa", None, None, 21, None, None, Some("K"), []);
    assert FirstRevertInTrees([], 2) == None && FirstRevertInTree(pool, 1) == Some(FlatOf(pool, 1));
    assert FirstRevertInTrees([pool], 1) == Some(FlatOf(pool, 1));
  }

  lemma {:induction false} RootCauseIsFirstRevertAllIff(fs: seq<CallFrame>, depth: int)
    ensures (FirstErrorInTrees(fs, depth) == FirstRevertInTrees(fs, depth))
        <==> (FirstErrorNodes(fs).Some? ==> !AnyFailed(FirstErrorNodes(fs).value.calls))
    ensures FirstErrorInTrees(fs, depth).Some? <==> FirstErrorNodes(fs).Some?
    decreases fs, 1
  {
    if fs != [] {
      RootCauseIsFirstRevertIff(fs[0], depth);
      RootCauseIsFirstRevertAllIff(fs[1..], depth);
    }
  }

  // ------------------------------------------------------------------- the cut

  /** Pre-order depths: the root first, every later frame below it and at most one deeper than the one before. */
  ghost predicate PreOrder(flat: seq<FlatFrame>, depth: int) {
    && flat != [] && flat[0].depth == depth
    && forall i :: 0 < i < |flat| ==> depth < flat[i].depth <= flat[i - 1].depth + 1
  }

  /** A list that may follow a frame of depth `before`: depths at least `low`, rising by at most one. */
  ghost predicate Continues(flat: seq<FlatFrame>, low: int, before: int) {
    && (forall i :: 0 <= i < |flat| ==> flat[i].depth >= low)
    && (flat != [] ==> flat[0].depth <= before + 1)
    && forall i :: 0 < i < |flat| ==> flat[i].depth <= flat[i - 1].depth + 1
  }

  lemma ContinuesSplits(head: FlatFrame, below: seq<FlatFrame>, rest: seq<FlatFrame>)
    requires Continues(below, head.depth + 1, head.depth) && Continues(rest, head.depth, head.depth - 1)
    ensures Continues([head] + below + rest, head.depth, head.depth - 1)
  {
    var flat := [head] + below + rest;
    assert forall i :: 0 < i <= |below| ==> flat[i] == below[i - 1];
    assert forall i :: |below| < i < |flat| ==> flat[i] == rest[i - 1 - |below|];
    forall i | 0 <= i < |flat| ensures flat[i].depth >= head.depth {
    }
    forall i | 0 < i < |flat| ensures flat[i].depth <= flat[i - 1].depth + 1 {
      if i == |below| + 1 { assert flat[i] == rest[0] && flat[i - 1].depth >= head.depth; }
    }
  }

  lemma {:induction false} FlattenAllContinues(fs: seq<CallFrame>, depth: int)
    ensures Continues(FlattenAll(fs, depth), depth, depth - 1)
    decreases fs
  {
    hide Continues, FlatOf;
    if fs == [] {
      NothingContinues(depth);
    } else {
      FlattenAllContinues(fs[0].calls, depth + 1);
      FlattenAllContinues(fs[1..], depth);
      var below := FlattenAll(fs[0].calls, depth + 1);
      var rest := FlattenAll(fs[1..], depth);
      assert FlattenAll(fs, depth) == Flatten(fs[0], depth) + rest == [FlatOf(fs[0], depth)] + below + rest;
      ContinuesSplits(FlatOf(fs[0], depth), below, rest);
    }
  }

  lemma NothingContinues(depth: int)
    ensures Continues([], depth, depth - 1)
  {
  }

  lemma FlattenIsPreOrder(f: CallFrame, depth: int)
    ensures PreOrder(Flatten(f, depth), depth)
  {
    FlattenAllContinues(f.calls, depth + 1);
    var flat := Flatten(f, depth);
    var below := FlattenAll(f.calls, depth + 1);
    assert flat == [FlatOf(f, depth)] + below;
    forall i | 0 < i < |flat| ensures depth < flat[i].depth <= flat[i - 1].depth + 1 {
      assert flat[i] == below[i - 1];
      if i > 1 { assert flat[i - 1] == below[i - 2]; }
    }
  }

  /** The caller of frame `i`: the nearest earlier frame that is less deep. */
  ghost predicate IsCaller(flat: seq<FlatFrame>, j: nat, i: nat) {
    j < i < |flat| && flat[j].depth < flat[i].depth && forall k :: j < k < i ==> flat[k].depth >= flat[i].depth
  }

  /** Every frame but the root has a caller, exactly one level up, before it in the list. */
  lemma {:induction false} CallerExists(flat: seq<FlatFrame>, depth: int, i: nat) returns (j: nat)
    requires PreOrder(flat, depth) && 0 < i < |flat|
    ensures IsCaller(flat, j, i) && flat[j].depth == flat[i].depth - 1
  {
    j := i - 1;
    while flat[j].depth >= flat[i].depth
      invariant 0 <= j < i
      invariant forall k :: j < k < i ==> flat[k].depth >= flat[i].depth
      invariant flat[j + 1].depth >= flat[i].depth
      decreases j
    {
      j := j - 1;
    }
  }

  /** The prefix of a pre-order list is closed under callers and still rebuilds to one tree with the same root. */
  lemma CutKeepsCallers(flat: seq<FlatFrame>, depth: int, n: nat)
    requires PreOrder(flat, depth) && 0 < n <= |flat|
    ensures PreOrder(flat[..n], depth)
    ensures forall i: nat, j: nat :: i < n && IsCaller(flat, j, i) ==> IsCaller(flat[..n], j, i)
    ensures |Rebuild(flat[..n])| == 1 && Rebuild(flat[..n])[0].frame == flat[0]
  {
    var cut := flat[..n];
    WholeRunIsDeeper(cut[1..], depth);
    assert cut[n..] == [];
  }

  lemma WholeRunIsDeeper(flat: seq<FlatFrame>, depth: int)
    requires forall i :: 0 <= i < |flat| ==> flat[i].depth > depth
    ensures DeeperRun(flat, depth) == |flat|
  {
  }

  // ------------------------------------------------------------------ the API page

  /**
   * The call tree page of a failed transaction: fetch one frame more than the cap, note whether
   * anything was cut, cut, and look up the root cause in the whole trace.
   */
  method CallTreePage(rows: seq<TraceRow>, tx: string)
    returns (callTree: seq<FlatFrame>, truncated: bool, rootCause: Option<FlatFrame>)
    ensures var all := FramesOf(rows, tx);
            && callTree == all[..Min(MAX_CALL_TREE_FRAMES, |all|)]
            && (truncated <==> callTree != all)
    ensures rootCause == FirstErrorFrame(rows, tx)
  {
    callTree := ListTraceLogs(rows, tx, MAX_CALL_TREE_FRAMES + 1);
    truncated := |callTree| > MAX_CALL_TREE_FRAMES;
    if truncated {
      callTree := callTree[..MAX_CALL_TREE_FRAMES];
    }
    rootCause := FirstErrorFrame(rows, tx);
  }

  /**
   * For a trace stored once, the page is a caller-closed prefix of its tree and the root cause is the
   * tree's first error.
   */
  lemma PageOfStoredTrace(rows: seq<TraceRow>, tx: string, root: CallFrame)
    requires FramesOf(rows, tx) == Flatten(root, 0)
    ensures var n := Min(MAX_CALL_TREE_FRAMES, |Flatten(root, 0)|);
            var page := FramesOf(rows, tx)[..n];
            && PreOrder(page, 0) && |Rebuild(page)| == 1
            && (n == |Flatten(root, 0)| ==> Rebuild(page) == [TreeOf(root, 0)])
            && FirstErrorFrame(rows, tx) == FirstErrorInTree(root, 0)
            && (FirstError(page).Some? ==> FirstErrorFrame(rows, tx) == FirstError(page))
  {
    var flat := Flatten(root, 0);
    var n := Min(MAX_CALL_TREE_FRAMES, |flat|);
    FlattenIsPreOrder(root, 0);
    RootCauseIsFirstErrorOfTree(rows, tx, root);
    FirstErrorOfTree(root, 0);
    RebuildInvertsFlattenOne(root, 0);
    assert flat != [];
    hide Flatten, TreeOf, Rebuild, FirstErrorInTree, FirstErrorFrame, FramesOf, FirstError, PreOrder, IsCaller;
    CutKeepsCallers(flat, 0, n);
    assert flat == flat[..n] + flat[n..];
    FirstErrorConcat(flat[..n], flat[n..]);
    assert n == |flat| ==> flat[..n] == flat;
  }

  // ------------------------------------------------------ a trace stored repeatedly

  function Times(root: CallFrame, m: nat): (roots: seq<CallFrame>)
    ensures |roots| == m && forall i :: 0 <= i < m ==> roots[i] == root
  {
    seq(m, _ => root)
  }

  /** Each further insert of the same trace appends it once more: no key tells the copies apart. */
  lemma InsertedAgain(rows: seq<TraceRow>, tx: string, root: CallFrame, m: nat)
    requires FramesOf(rows, tx) == FlattenAll(Times(root, m), 0)
    ensures FramesOf(rows + RowsOfTrace(tx, Flatten(root, 0)), tx) == FlattenAll(Times(root, m + 1), 0)
  {
    hide FramesOf, FlattenAll, Flatten;
    FramesOfConcat(rows, RowsOfTrace(tx, Flatten(root, 0)), tx);
    FramesOfOwnTrace(tx, Flatten(root, 0), tx);
    FlattenAllAppend(Times(root, m), root, 0);
    assert Times(root, m + 1) == Times(root, m) + [root];
  }

  /**
   * What a trace stored `m` times does to the page: the list rebuilds to `m` copies of the call tree
   * and is `m` times as long, so that it is cut the earlier; the root cause stays what it was.
   */
  lemma PageOfRepeatedTrace(rows: seq<TraceRow>, tx: string, root: CallFrame, m: nat)
    requires m >= 1 && FramesOf(rows, tx) == FlattenAll(Times(root, m), 0)
    ensures Rebuild(FramesOf(rows, tx)) == TreesOf(Times(root, m), 0)
    ensures |FramesOf(rows, tx)| == m * |Flatten(root, 0)|
    ensures FirstErrorFrame(rows, tx) == FirstErrorInTree(root, 0)
  {
    hide Rebuild, FirstErrorFrame, FramesOf;
    RebuildInvertsFlatten(Times(root, m), 0);
    FirstErrorFrameIsFirstError(rows, tx);
    FirstErrorOfTrees(Times(root, m), 0);
    FirstErrorOfCopies(root, m);
    LengthOfCopies(root, m);
  }

  lemma {:induction false} FirstErrorOfCopies(root: CallFrame, m: nat)
    requires m >= 1
    ensures FirstErrorInTrees(Times(root, m), 0) == FirstErrorInTree(root, 0)
  {
    assert Times(root, m)[1..] == Times(root, m - 1);
    if m > 1 {
      FirstErrorOfCopies(root, m - 1);
    } else {
      assert FirstErrorInTrees(Times(root, 0), 0) == None;
    }
  }

  lemma {:induction false} LengthOfCopies(root: CallFrame, m: nat)
    ensures |FlattenAll(Times(root, m), 0)| == m * |Flatten(root, 0)|
  {
    if m > 0 {
      assert Times(root, m)[1..] == Times(root, m - 1);
      LengthOfCopies(root, m - 1);
    }
  }
}
