/**
 * Finding the height from which the stored blocks disagree with the chain:
 * the pure classifier, the lazily widening scan that drives it, and the proof
 * that the lazy scan refines one classification of the whole window.
 */
module ForkScanning {
  import opened Options

  type Hash = string

  /** One stored `(block number, block hash)` pair; windows list the tip first. */
  datatype Stored = Stored(height: nat, hash: Hash)

  datatype ForkScan = NoReorg | Fork(height: nat) | Inconclusive | NeedDeeper

  const USIZE_MAX: nat := 0xFFFF_FFFF_FFFF_FFFF

  // ------------------------------------------------------------ classification

  predicate Mismatch(row: Stored, answer: Option<Hash>) {
    answer.Some? && answer.value != row.hash
  }

  /** How many of the first `n` rows, counted from the tip, mismatch in a row. */
  function MismatchRun(local: seq<Stored>, at: nat -> Option<Hash>, n: nat): (run: nat)
    requires n <= |local|
    ensures run <= n
    ensures forall i :: 0 <= i < run ==> Mismatch(local[i], at(local[i].height))
    ensures run < n ==> !Mismatch(local[run], at(local[run].height))
  {
    if n == 0 then 0
    else
      var run := MismatchRun(local, at, n - 1);
      if run == n - 1 && Mismatch(local[n - 1], at(local[n - 1].height)) then n else run
  }

  /** What a scan of the first `depth` rows must answer, by the length of the mismatching run. */
  function Classify(local: seq<Stored>, at: nat -> Option<Hash>, depth: nat): ForkScan {
    var n := Min(depth, |local|);
    if n == 0 then NoReorg
    else
      var run := MismatchRun(local, at, n);
      if run == n then
        if n < |local| then NeedDeeper else Fork(local[n - 1].height)
      else if at(local[run].height).None? then Inconclusive
      else if run == 0 then NoReorg
      else Fork(local[run - 1].height)
  }

  method ClassifyFork(local: seq<Stored>, chainHashAt: nat -> Option<Hash>, depth: nat) returns (scan: ForkScan)
    ensures scan == Classify(local, chainHashAt, depth)
  {
    var n := Min(depth, |local|);
    if n == 0 {
      return NoReorg;
    }
    var lastMismatch: Option<nat> := None;
    for i := 0 to n
      invariant MismatchRun(local, chainHashAt, i) == i
      invariant lastMismatch == if i == 0 then None else Some(local[i - 1].height)
    {
      match chainHashAt(local[i].height)
      case None =>
        return Inconclusive;
      case Some(chainHash) =>
        if chainHash == local[i].hash {
          match lastMismatch
          case Some(f) => return Fork(f);
          case None => return NoReorg;
        }
        lastMismatch := Some(local[i].height);
    }
    if n < |local| {
      return NeedDeeper;
    }
    match lastMismatch
    case Some(f) => return Fork(f);
    case None => return NoReorg;
  }

  // ---------------------------------------------------------------- widening

  function SaturatingMul(a: nat, b: nat): nat {
    if a * b > USIZE_MAX then USIZE_MAX else a * b
  }

  /** The next scan depth: four times the current one, clamped, and always further. */
  function NextScanDepth(current: nat, max: nat): (next: nat)
    requires max <= USIZE_MAX
    ensures current < max ==> current < next <= max
    ensures next < max ==> next >= 4 * current
    ensures 1 <= current < max ==> next <= 4 * current
    ensures current == 0 < max ==> next == 1
    ensures current >= max ==> next == max
  {
    if current >= max then max
    else Min(Max(SaturatingMul(current, 4), current + 1), max)
  }

  /** Every one of the first `n` rows has a chain answer. */
  predicate AllKnown(local: seq<Stored>, at: nat -> Option<Hash>, n: nat)
    requires n <= |local|
  {
    forall i :: 0 <= i < n ==> at(local[i].height).Some?
  }

  /** The answer of the widening scan started at `depth`. */
  function Detect(local: seq<Stored>, at: nat -> Option<Hash>, depth: nat): Option<nat>
    requires 1 <= depth && |local| <= USIZE_MAX
    decreases |local| - depth
  {
    if |local| == 0 || !AllKnown(local, at, Min(depth, |local|)) then None
    else
      match Classify(local, at, depth)
      case NoReorg => None
      case Inconclusive => None
      case Fork(f) => Some(f)
      case NeedDeeper => Detect(local, at, NextScanDepth(depth, |local|))
  }

  predicate Descending(local: seq<Stored>) {
    forall i, j :: 0 <= i < j < |local| ==> local[i].height > local[j].height
  }

  lemma ClassifyReadsOnlyTheDepth(local: seq<Stored>, a: nat -> Option<Hash>, b: nat -> Option<Hash>, depth: nat)
    requires forall i :: 0 <= i < Min(depth, |local|) ==> a(local[i].height) == b(local[i].height)
    ensures Classify(local, a, depth) == Classify(local, b, depth)
  {
  }

  /** The cache holds the node's answer for exactly the first `n` rows. */
  ghost predicate Cached(local: seq<Stored>, rpc: nat -> Option<Hash>, chain: map<nat, Hash>, n: nat)
    requires n <= |local|
  {
    && (forall i :: 0 <= i < |local| ==> (local[i].height in chain <==> i < n))
    && (forall h :: h in chain ==> rpc(h) == Some(chain[h]))
  }

  /** The heights of the rows `from, ..., end - 1`, tip first. */
  function HeightsOf(local: seq<Stored>, from: nat, end: nat): (hs: seq<nat>)
    requires from <= end <= |local|
    ensures |hs| == end - from && forall i :: 0 <= i < |hs| ==> hs[i] == local[from + i].height
  {
    if from == end then [] else HeightsOf(local, from, end - 1) + [local[end - 1].height]
  }

  lemma HeightsOfSplit(local: seq<Stored>, from: nat, mid: nat, end: nat)
    requires from <= mid <= end <= |local|
    ensures HeightsOf(local, from, mid) + HeightsOf(local, mid, end) == HeightsOf(local, from, end)
  {
  }

  /** Strictly falling, and so without repetition. */
  ghost predicate Falling(hs: seq<nat>) {
    forall i, j :: 0 <= i < j < |hs| ==> hs[i] > hs[j]
  }

  /** The questions are about the first rows of the window, tip first, each asked once. */
  ghost predicate AskedFirst(local: seq<Stored>, asked: seq<nat>) {
    |asked| <= |local| && asked == HeightsOf(local, 0, |asked|) && Falling(asked)
  }

  lemma NothingAsked(local: seq<Stored>)
    ensures AskedFirst(local, [])
  {
  }

  lemma AskedMore(local: seq<Stored>, asked: seq<nat>, more: seq<nat>)
    requires Descending(local) && AskedFirst(local, asked)
    requires |asked| + |more| <= |local| && more == HeightsOf(local, |asked|, |asked| + |more|)
    ensures AskedFirst(local, asked + more)
  {
    hide Falling, HeightsOf, Descending;
    var n := |asked| + |more|;
    HeightsOfSplit(local, 0, |asked|, n);
    HeightsFall(local, n);
    assert |asked + more| == n;
    assert asked + more == HeightsOf(local, 0, n);
  }

  lemma HeightsFall(local: seq<Stored>, n: nat)
    requires Descending(local) && n <= |local|
    ensures Falling(HeightsOf(local, 0, n))
  {
  }

  /**
   * Ask the node for the rows below `depth` that are not cached yet, stopping at the first
   * height it cannot answer. `asked` lists the questions: the rows after the cached ones, in order.
   */
  method FetchUpTo(local: seq<Stored>, rpc: nat -> Option<Hash>, cache: map<nat, Hash>, ghost cached: nat, depth: nat)
    returns (chain: map<nat, Hash>, complete: bool, ghost asked: seq<nat>)
    requires Descending(local) && cached <= depth <= |local|
    requires Cached(local, rpc, cache, cached)
    ensures complete <==> AllKnown(local, rpc, depth)
    ensures cached + |asked| <= depth && asked == HeightsOf(local, cached, cached + |asked|)
    ensures complete ==> cached + |asked| == depth && Cached(local, rpc, chain, depth)
    ensures !complete ==> asked != [] && rpc(asked[|asked| - 1]).None?
  {
    chain := cache;
    asked := [];
    for i := 0 to depth
      invariant cached + |asked| == Max(cached, i)
      invariant asked == HeightsOf(local, cached, cached + |asked|)
      invariant Cached(local, rpc, chain, cached + |asked|)
    {
      var h := local[i].height;
      if h !in chain {
        asked := asked + [h];
        match rpc(h)
        case None =>
          return chain, false, asked;
        case Some(hash) =>
          chain := chain[h := hash];
      }
    }
    complete := true;
  }

  lemma NothingDetected(local: seq<Stored>, rpc: nat -> Option<Hash>)
    requires |local| == 0
    ensures Detect(local, rpc, 1) == None
  {
  }

  /** One step of the widening scan; it goes on only while every row so far mismatches. */
  lemma DetectStep(local: seq<Stored>, at: nat -> Option<Hash>, depth: nat)
    requires 1 <= depth <= |local| <= USIZE_MAX
    ensures var scan := Classify(local, at, depth);
            && Detect(local, at, depth) == (
                 if !AllKnown(local, at, depth) then None
                 else if scan.Fork? then Some(scan.height)
                 else if scan.NeedDeeper? then Detect(local, at, NextScanDepth(depth, |local|))
                 else None)
            && (scan.NeedDeeper? ==> depth < |local| && depth <= MismatchRun(local, at, |local|))
  {
    hide MismatchRun, AllKnown;
    RunOfPrefix(local, at, depth);
  }

  lemma CacheAnswers(local: seq<Stored>, rpc: nat -> Option<Hash>, chain: map<nat, Hash>, n: nat)
    requires n <= |local| && Cached(local, rpc, chain, n)
    ensures forall i :: 0 <= i < n ==> local[i].height in chain && rpc(local[i].height) == Some(chain[local[i].height])
  {
  }

  /**
   * The lazy driver. `rpc` stands for the node's answers; a function is enough because no
   * height is asked twice: `asked` lists the first rows of the window, tip first.
   */
  method DetectFork(local: seq<Stored>, rpc: nat -> Option<Hash>) returns (fork: Option<nat>, ghost asked: seq<nat>)
    requires Descending(local) && |local| <= USIZE_MAX
    ensures fork == Detect(local, rpc, 1)
    ensures AskedFirst(local, asked)
    ensures |asked| <= Max(1, 4 * MismatchRun(local, rpc, |local|))
    ensures local != [] ==> asked != []
  {
    hide HeightsOf, Falling, AskedFirst, Detect, Classify, MismatchRun, AllKnown, Descending;
    asked := [];
    NothingAsked(local);
    if |local| == 0 {
      NothingDetected(local, rpc);
      return None, [];
    }
    var chain: map<nat, Hash> := map[];
    var depth := 1;
    while true
      invariant 1 <= depth <= |local| && |asked| < depth && AskedFirst(local, asked)
      invariant depth <= Max(1, 4 * MismatchRun(local, rpc, |local|))
      invariant Cached(local, rpc, chain, |asked|)
      invariant Detect(local, rpc, 1) == Detect(local, rpc, depth)
      decreases |local| - depth
    {
      var complete: bool;
      ghost var more: seq<nat>;
      chain, complete, more := FetchUpTo(local, rpc, chain, |asked|, depth);
      AskedMore(local, asked, more);
      DetectStep(local, rpc, depth);
      asked := asked + more;
      if !complete {
        return None, asked;
      }
      var known := chain;
      var chainHashAt := (h: nat) => if h in known then Some(known[h]) else None;
      CacheAnswers(local, rpc, chain, depth);
      ClassifyReadsOnlyTheDepth(local, chainHashAt, rpc, depth);
      var scan := ClassifyFork(local, chainHashAt, depth);
      match scan
      case NoReorg => return None, asked;
      case Inconclusive => return None, asked;
      case Fork(f) => return Some(f), asked;
      case NeedDeeper =>
        var next := NextScanDepth(depth, |local|);
        if next == depth {
          assert false;
        }
        depth := next;
    }
  }

  // -------------------------------------------------- the lazy scan is a full scan

  /** The depth at which the widening scan stops when `run` rows mismatch from the tip. */
  function FinalDepth(depth: nat, run: nat, len: nat): (final: nat)
    requires 1 <= depth && run <= len <= USIZE_MAX
    ensures final <= len && (run < len ==> run < final)
    ensures final <= Max(depth, 4 * run)
    decreases len - depth
  {
    if depth > run || depth >= len then Min(depth, len)
    else FinalDepth(NextScanDepth(depth, len), run, len)
  }

  /** The rows the widening scan asks for when every answer arrives. */
  function FetchedWindow(local: seq<Stored>, at: nat -> Option<Hash>): (n: nat)
    requires |local| <= USIZE_MAX
    ensures n <= |local| && n <= Max(1, 4 * MismatchRun(local, at, |local|))
  {
    FinalDepth(1, MismatchRun(local, at, |local|), |local|)
  }

  /** The verdict of one classification of the whole window, as a rollback decision. */
  function FullScan(local: seq<Stored>, at: nat -> Option<Hash>): Option<nat> {
    match Classify(local, at, |local|)
    case Fork(f) => Some(f)
    case _ => None
  }

  /** The widening scan answers the lowest row of the mismatching run, unless an answer is missing. */
  lemma {:induction false} DetectFromDepth(local: seq<Stored>, at: nat -> Option<Hash>, depth: nat)
    requires 1 <= depth && |local| <= USIZE_MAX
    ensures var run := MismatchRun(local, at, |local|);
            Detect(local, at, depth) ==
            if AllKnown(local, at, FinalDepth(depth, run, |local|)) && run > 0
            then Some(local[run - 1].height) else None
    decreases |local| - depth
  {
    hide Classify, MismatchRun, NextScanDepth, AllKnown;
    ClassifyAtDepth(local, at, depth);
    if depth <= MismatchRun(local, at, |local|) && depth < |local| {
      DetectFromDepth(local, at, NextScanDepth(depth, |local|));
    }
  }

  /** One classification, by the length of the whole mismatching run. */
  lemma ClassifyAtDepth(local: seq<Stored>, at: nat -> Option<Hash>, depth: nat)
    requires 1 <= depth
    ensures var run, n := MismatchRun(local, at, |local|), Min(depth, |local|);
            if depth > run || depth >= |local| then
              AllKnown(local, at, n) && n > 0 ==>
                Classify(local, at, depth) == if run == 0 then NoReorg else Fork(local[run - 1].height)
            else AllKnown(local, at, n) && Classify(local, at, depth) == NeedDeeper
  {
    hide MismatchRun;
    RunOfPrefix(local, at, Min(depth, |local|));
  }

  lemma RunOfPrefix(local: seq<Stored>, at: nat -> Option<Hash>, n: nat)
    requires n <= |local|
    ensures MismatchRun(local, at, n) == Min(MismatchRun(local, at, |local|), n)
  {
    hide MismatchRun, Mismatch;
    var run, part := MismatchRun(local, at, |local|), MismatchRun(local, at, n);
    assert part < n ==> !Mismatch(local[part], at(local[part].height));
    assert run < |local| ==> !Mismatch(local[run], at(local[run].height));
  }

  lemma DetectMeaning(local: seq<Stored>, at: nat -> Option<Hash>)
    requires |local| <= USIZE_MAX
    ensures var run := MismatchRun(local, at, |local|);
            Detect(local, at, 1) ==
            if AllKnown(local, at, FetchedWindow(local, at)) && run > 0 then Some(local[run - 1].height) else None
  {
    DetectFromDepth(local, at, 1);
  }

  /**
   * The lazy scan against the full scan. Any fork it reports is the full scan's fork; the two
   * answers differ exactly when the full scan finds a fork and some row of the fetched window
   * (which reaches past the fork) has no answer.
   */
  lemma LazyScanRefinesFullScan(local: seq<Stored>, at: nat -> Option<Hash>)
    requires |local| <= USIZE_MAX
    ensures Detect(local, at, 1).Some? ==> Classify(local, at, |local|) == Fork(Detect(local, at, 1).value)
    ensures Detect(local, at, 1) == FullScan(local, at) <==>
            AllKnown(local, at, FetchedWindow(local, at)) || FullScan(local, at).None?
    ensures !AllKnown(local, at, FetchedWindow(local, at)) ==> Detect(local, at, 1).None?
  {
    DetectMeaning(local, at);
  }

  /**
   * A scan result is confirmed when a reported fork is the lowest row of the mismatching run with
   * the row below it answered, and a fully answered window with a stale tip is always reported.
   */
  ghost predicate Confirmed(w: seq<Stored>, at: nat -> Option<Hash>, run: nat, scan: Option<nat>)
    requires run <= |w|
  {
    && (scan.Some? ==> run > 0 && scan.value == w[run - 1].height && (run < |w| ==> at(w[run].height).Some?))
    && (AllKnown(w, at, |w|) && run > 0 ==> scan.Some?)
  }

  lemma ReportedForkIsConfirmed(local: seq<Stored>, at: nat -> Option<Hash>)
    requires |local| <= USIZE_MAX
    ensures Confirmed(local, at, MismatchRun(local, at, |local|), Detect(local, at, 1))
  {
    DetectMeaning(local, at);
  }
}
