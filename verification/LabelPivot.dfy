/**
 * Failures by labelled contract: join, group by (label, address, category), pivot to one point
 * per (label, address), rank by total, truncate.
 */
module LabelPivot {
  import opened Options

  // -------------------------------------------------------------------- tables

  datatype FailedTx = FailedTx(txHash: string, category: string, timestamp: int)

  datatype Label = Label(name: string, owner: Option<string>)

  /** contract_label is keyed by address, transaction by hash; `to` is None for a contract creation. */
  datatype Tables = Tables(labels: map<string, Label>, targets: map<string, Option<string>>, failed: seq<FailedTx>)

  datatype Filter = Filter(owner: Option<string>, since: Option<int>, until: Option<int>)

  datatype Joined = Joined(name: string, address: string, category: string)

  datatype RawRow = RawRow(name: string, address: string, category: string, count: nat)

  datatype Point = Point(name: string, address: string, totalFailures: nat, byCategory: map<string, nat>)

  /** A failure that reaches the join: its transaction went to a labelled contract and passes the filter. */
  predicate IsLabelled(db: Tables, f: FailedTx, filter: Filter) {
    && f.txHash in db.targets && db.targets[f.txHash].Some? && db.targets[f.txHash].value in db.labels
    && (filter.owner.Some? ==> db.labels[db.targets[f.txHash].value].owner == filter.owner)
    && (filter.since.Some? ==> f.timestamp >= filter.since.value)
    && (filter.until.Some? ==> f.timestamp <= filter.until.value)
  }

  function JoinedRow(db: Tables, f: FailedTx, filter: Filter): Joined
    requires IsLabelled(db, f, filter)
  {
    var address := db.targets[f.txHash].value;
    Joined(db.labels[address].name, address, f.category)
  }

  function JoinRows(db: Tables, failed: seq<FailedTx>, filter: Filter): seq<Joined> {
    if failed == [] then []
    else
      var n := |failed| - 1;
      JoinRows(db, failed[..n], filter)
      + if IsLabelled(db, failed[n], filter) then [JoinedRow(db, failed[n], filter)] else []
  }

  // ------------------------------------------------------------------ GROUP BY

  function CountIf(joined: seq<Joined>, p: Joined -> bool): nat {
    if joined == [] then 0
    else CountIf(joined[..|joined| - 1], p) + if p(joined[|joined| - 1]) then 1 else 0
  }

  function Count(joined: seq<Joined>, j: Joined): nat {
    CountIf(joined, x => x == j)
  }

  function GroupOf(r: RawRow): Joined {
    Joined(r.name, r.address, r.category)
  }

  ghost predicate UniqueGroups(raw: seq<RawRow>) {
    forall i, k :: 0 <= i < k < |raw| ==> GroupOf(raw[i]) != GroupOf(raw[k])
  }

  /** One row per group that occurs, with its count, in whatever order the database returns them. */
  ghost predicate IsGroupBy(raw: seq<RawRow>, joined: seq<Joined>) {
    && UniqueGroups(raw)
    && (forall i :: 0 <= i < |raw| ==> raw[i].count == Count(joined, GroupOf(raw[i])) > 0)
    && forall k :: 0 <= k < |joined| ==> GroupIn(raw, joined[k])
  }

  ghost predicate GroupIn(raw: seq<RawRow>, j: Joined) {
    exists i :: 0 <= i < |raw| && GroupOf(raw[i]) == j
  }

  /** The counts of the rows whose group satisfies `p`. */
  function SumIf(raw: seq<RawRow>, p: Joined -> bool): nat {
    if raw == [] then 0
    else SumIf(raw[..|raw| - 1], p) + if p(GroupOf(raw[|raw| - 1])) then raw[|raw| - 1].count else 0
  }

  /** The same, with the counts taken over `joined`. */
  function CountOver(raw: seq<RawRow>, joined: seq<Joined>, p: Joined -> bool): nat {
    if raw == [] then 0
    else
      var g := GroupOf(raw[|raw| - 1]);
      CountOver(raw[..|raw| - 1], joined, p) + if p(g) then Count(joined, g) else 0
  }

  lemma GroupInOneMore(raw: seq<RawRow>, j: Joined)
    requires raw != []
    ensures GroupIn(raw, j) <==> GroupIn(raw[..|raw| - 1], j) || GroupOf(raw[|raw| - 1]) == j
  {
    var before := raw[..|raw| - 1];
    assert forall i :: 0 <= i < |before| ==> before[i] == raw[i];
  }

  lemma {:induction false} CountOverOneMore(raw: seq<RawRow>, joined: seq<Joined>, j: Joined, p: Joined -> bool)
    requires UniqueGroups(raw)
    ensures CountOver(raw, joined + [j], p) == CountOver(raw, joined, p)
      + if p(j) && GroupIn(raw, j) then 1 else 0
    decreases |raw|
  {
    if raw != [] {
      var n := |raw| - 1;
      var g := GroupOf(raw[n]);
      CountOverOneMore(raw[..n], joined, j, p);
      assert (joined + [j])[..|joined|] == joined;
      assert Count(joined + [j], g) == Count(joined, g) + if j == g then 1 else 0;
      GroupInOneMore(raw, j);
    }
  }

  lemma {:induction false} CountOverIsCountIf(raw: seq<RawRow>, joined: seq<Joined>, p: Joined -> bool)
    requires UniqueGroups(raw)
    requires forall k :: 0 <= k < |joined| ==> GroupIn(raw, joined[k])
    ensures CountOver(raw, joined, p) == CountIf(joined, p)
    decreases |joined|
  {
    if joined == [] {
      NothingToCount(raw, p);
    } else {
      var n := |joined| - 1;
      assert joined == joined[..n] + [joined[n]];
      CountOverIsCountIf(raw, joined[..n], p);
      CountOverOneMore(raw, joined[..n], joined[n], p);
    }
  }

  lemma {:induction false} NothingToCount(raw: seq<RawRow>, p: Joined -> bool)
    ensures CountOver(raw, [], p) == 0
  {
    if raw != [] { NothingToCount(raw[..|raw| - 1], p); }
  }

  lemma {:induction false} SumIfIsCountOver(raw: seq<RawRow>, joined: seq<Joined>, p: Joined -> bool)
    requires forall i :: 0 <= i < |raw| ==> raw[i].count == Count(joined, GroupOf(raw[i]))
    ensures SumIf(raw, p) == CountOver(raw, joined, p)
  {
    if raw != [] { SumIfIsCountOver(raw[..|raw| - 1], joined, p); }
  }

  /** The groups partition the rows: the counts of any family of groups add up to its rows. */
  lemma GroupByConserves(raw: seq<RawRow>, joined: seq<Joined>, p: Joined -> bool)
    requires IsGroupBy(raw, joined)
    ensures SumIf(raw, p) == CountIf(joined, p)
  {
    SumIfIsCountOver(raw, joined, p);
    CountOverIsCountIf(raw, joined, p);
  }

  // -------------------------------------------------------------- sums over maps

  ghost function SumValues<K(!new)>(m: map<K, nat>): nat {
    if m == map[] then 0 else var k :| k in m; m[k] + SumValues(m - {k})
  }

  lemma {:induction false} SumValuesRemove<K(!new)>(m: map<K, nat>, k: K)
    requires k in m
    ensures SumValues(m) == m[k] + SumValues(m - {k})
    decreases |m|
  {
    var c :| c in m && SumValues(m) == m[c] + SumValues(m - {c});
    if c != k {
      SumValuesRemove(m - {c}, k);
      SumValuesRemove(m - {k}, c);
      assert m - {c} - {k} == m - {k} - {c};
    }
  }

  lemma SumValuesUpdate<K(!new)>(m: map<K, nat>, k: K, v: nat)
    ensures SumValues(m[k := v]) == v + SumValues(m - {k})
  {
    SumValuesRemove(m[k := v], k);
    assert m[k := v] - {k} == m - {k};
  }

  // ---------------------------------------------------------------------- pivot

  datatype Key = Key(name: string, address: string)

  datatype Entry = Entry(total: nat, byCategory: map<string, nat>)

  function KeyOf(r: RawRow): Key {
    Key(r.name, r.address)
  }

  function AddRow(groups: map<Key, Entry>, r: RawRow): map<Key, Entry> {
    var key := KeyOf(r);
    var entry := if key in groups then groups[key] else Entry(0, map[]);
    groups[key := Entry(entry.total + r.count, entry.byCategory[r.category := r.count])]
  }

  /** The pivot of a prefix of the rows. */
  function Groups(raw: seq<RawRow>): map<Key, Entry> {
    if raw == [] then map[] else AddRow(Groups(raw[..|raw| - 1]), raw[|raw| - 1])
  }

  function HasKey(key: Key): Joined -> bool {
    (j: Joined) => j.name == key.name && j.address == key.address
  }

  function Totals(groups: map<Key, Entry>): map<Key, nat> {
    map k | k in groups :: groups[k].total
  }

  ghost predicate KeyIn(raw: seq<RawRow>, key: Key) {
    exists i :: 0 <= i < |raw| && KeyOf(raw[i]) == key
  }

  lemma {:induction false} GroupsHaveTheKeys(raw: seq<RawRow>, key: Key)
    ensures key in Groups(raw) <==> KeyIn(raw, key)
    decreases |raw|
  {
    if raw != [] {
      var before := raw[..|raw| - 1];
      GroupsHaveTheKeys(before, key);
      assert forall i :: 0 <= i < |before| ==> before[i] == raw[i];
    }
  }

  lemma {:induction false} GroupsHaveTheCategories(raw: seq<RawRow>, key: Key, c: string)
    ensures GroupIn(raw, Joined(key.name, key.address, c)) <==> key in Groups(raw) && c in Groups(raw)[key].byCategory
    decreases |raw|
  {
    if raw != [] {
      GroupsHaveTheCategories(raw[..|raw| - 1], key, c);
      GroupInOneMore(raw, Joined(key.name, key.address, c));
    }
  }

  lemma {:induction false} GroupsHoldTheCounts(raw: seq<RawRow>, i: nat)
    requires UniqueGroups(raw) && i < |raw|
    ensures var key := KeyOf(raw[i]);
            && key in Groups(raw) && raw[i].category in Groups(raw)[key].byCategory
            && Groups(raw)[key].byCategory[raw[i].category] == raw[i].count
    decreases |raw|
  {
    var n := |raw| - 1;
    if i < n {
      assert raw[..n][i] == raw[i];
      GroupsHoldTheCounts(raw[..n], i);
      assert GroupOf(raw[i]) != GroupOf(raw[n]);
    }
  }

  /** Each group's total is the sum of its rows and of its categories. */
  lemma {:induction false} GroupTotals(raw: seq<RawRow>, key: Key)
    requires UniqueGroups(raw) && key in Groups(raw)
    ensures Groups(raw)[key].total == SumIf(raw, HasKey(key))
    ensures Groups(raw)[key].total == SumValues(Groups(raw)[key].byCategory)
    decreases |raw|
  {
    var n := |raw| - 1;
    var before, r := raw[..n], raw[n];
    var groups := Groups(before);
    assert UniqueGroups(before);
    GroupsHaveTheKeys(before, key);
    if key in groups {
      GroupTotals(before, key);
      if KeyOf(r) == key {
        var categories := groups[key].byCategory;
        SumValuesUpdate(categories, r.category, r.count);
        GroupsHaveTheCategories(before, key, r.category);
        assert forall i :: 0 <= i < n ==> before[i] == raw[i] && GroupOf(raw[i]) != GroupOf(r);
        assert r.category !in categories;
        assert categories - {r.category} == categories;
      }
    } else {
      assert forall i :: 0 <= i < n ==> KeyOf(before[i]) != key;
      NoRowsOfKey(before, key);
      assert KeyOf(r) == key;
      var none: map<string, nat> := map[];
      SumValuesUpdate(none, r.category, r.count);
      assert none - {r.category} == none;
    }
  }

  lemma {:induction false} NoRowsOfKey(raw: seq<RawRow>, key: Key)
    requires forall i :: 0 <= i < |raw| ==> KeyOf(raw[i]) != key
    ensures SumIf(raw, HasKey(key)) == 0
  {
    if raw != [] { NoRowsOfKey(raw[..|raw| - 1], key); }
  }

  /** No row is lost or counted twice over all groups. */
  lemma {:induction false} AllTotals(raw: seq<RawRow>)
    ensures SumValues(Totals(Groups(raw))) == SumIf(raw, j => true)
  {
    if raw != [] {
      var n := |raw| - 1;
      var before, r := raw[..n], raw[n];
      AllTotals(before);
      TotalsOfOneMore(Groups(before), r);
    }
  }

  lemma TotalsOfOneMore(groups: map<Key, Entry>, r: RawRow)
    ensures SumValues(Totals(AddRow(groups, r))) == SumValues(Totals(groups)) + r.count
  {
    var key, totals := KeyOf(r), Totals(groups);
    var total := if key in groups then groups[key].total else 0;
    assert Totals(AddRow(groups, r)) == totals[key := total + r.count];
    hide AddRow, Totals;
    SumValuesUpdate(totals, key, total + r.count);
    if key in groups {
      SumValuesRemove(totals, key);
    } else {
      assert totals - {key} == totals;
    }
  }

  // ------------------------------------------------------------------ the ranking

  function PointOf(key: Key, entry: Entry): Point {
    Point(key.name, key.address, entry.total, entry.byCategory)
  }

  ghost predicate Descending(points: seq<Point>) {
    forall i, k :: 0 <= i < k < |points| ==> points[i].totalFailures >= points[k].totalFailures
  }

  ghost function PointsOf(groups: map<Key, Entry>, keys: set<Key>): set<Point> {
    set k | k in keys && k in groups :: PointOf(k, groups[k])
  }

  lemma PointsOfInsert(groups: map<Key, Entry>, keys: set<Key>, k: Key)
    requires k in groups && k !in keys
    ensures PointsOf(groups, keys + {k}) == PointsOf(groups, keys) + {PointOf(k, groups[k])}
    ensures PointOf(k, groups[k]) !in PointsOf(groups, keys)
  {
  }

  /** Every group exactly once, largest total first. */
  ghost predicate IsRanking(points: seq<Point>, groups: map<Key, Entry>) {
    Descending(points) && multiset(points) == multiset(PointsOf(groups, groups.Keys))
  }

  function InsertPoint(p: Point, sorted: seq<Point>): (r: seq<Point>)
    ensures multiset(r) == multiset(sorted) + multiset{p}
  {
    if sorted == [] || sorted[0].totalFailures < p.totalFailures then [p] + sorted
    else
      assert sorted == [sorted[0]] + sorted[1..];
      [sorted[0]] + InsertPoint(p, sorted[1..])
  }

  function SortByTotal(points: seq<Point>): (r: seq<Point>)
    ensures multiset(r) == multiset(points)
  {
    if points == [] then []
    else
      assert points == [points[0]] + points[1..];
      InsertPoint(points[0], SortByTotal(points[1..]))
  }

  ghost predicate Bounded(points: seq<Point>, total: nat) {
    forall i :: 0 <= i < |points| ==> points[i].totalFailures <= total
  }

  lemma {:induction false} InsertKeepsBound(p: Point, sorted: seq<Point>, total: nat)
    requires Bounded(sorted, total) && p.totalFailures <= total
    ensures Bounded(InsertPoint(p, sorted), total)
    decreases |sorted|
  {
    if sorted != [] { InsertKeepsBound(p, sorted[1..], total); }
  }

  lemma {:induction false} InsertKeepsOrder(p: Point, sorted: seq<Point>)
    requires Descending(sorted)
    ensures Descending(InsertPoint(p, sorted))
    decreases |sorted|
  {
    if sorted != [] && sorted[0].totalFailures >= p.totalFailures {
      InsertKeepsOrder(p, sorted[1..]);
      InsertKeepsBound(p, sorted[1..], sorted[0].totalFailures);
    }
  }

  lemma {:induction false} SortDescends(points: seq<Point>)
    ensures Descending(SortByTotal(points))
    decreases |points|
  {
    if points != [] {
      SortDescends(points[1..]);
      InsertKeepsOrder(points[0], SortByTotal(points[1..]));
    }
  }

  function SumTotals(points: seq<Point>): nat {
    if points == [] then 0 else SumTotals(points[..|points| - 1]) + points[|points| - 1].totalFailures
  }

  lemma {:induction false} RankingSums(points: seq<Point>, groups: map<Key, Entry>)
    requires multiset(points) == multiset(PointsOf(groups, groups.Keys))
    ensures SumTotals(points) == SumValues(Totals(groups))
    decreases |points|
  {
    if points == [] {
      NoPoints(groups);
    } else {
      var n := |points| - 1;
      var p := points[n];
      assert points == points[..n] + [p];
      assert p in multiset(points);
      var k :| k in groups && p == PointOf(k, groups[k]);
      var rest := groups - {k};
      RestOfPoints(groups, k);
      SumValuesRemove(Totals(groups), k);
      assert Totals(groups) - {k} == Totals(rest);
      hide PointsOf, Totals, SumValues;
      assert multiset(points[..n]) == multiset(points) - multiset{p};
      RankingSums(points[..n], rest);
    }
  }

  lemma RestOfPoints(groups: map<Key, Entry>, k: Key)
    requires k in groups
    ensures var rest := groups - {k};
            multiset(PointsOf(rest, rest.Keys))
                == multiset(PointsOf(groups, groups.Keys)) - multiset{PointOf(k, groups[k])}
  {
    var rest := groups - {k};
    PointsOfInsert(groups, rest.Keys, k);
    assert rest.Keys + {k} == groups.Keys;
    assert PointsOf(rest, rest.Keys) == PointsOf(groups, rest.Keys);
  }

  lemma NoPoints(groups: map<Key, Entry>)
    requires multiset(PointsOf(groups, groups.Keys)) == multiset{}
    ensures groups == map[]
  {
    var points := PointsOf(groups, groups.Keys);
    assert forall p :: p in points ==> p in multiset(points);
    assert forall k :: k in groups ==> PointOf(k, groups[k]) in points;
  }

  // ------------------------------------------------------------------ the aggregate

  /** The entries of the hash map, in no particular order. */
  method ListPoints(groups: map<Key, Entry>) returns (points: seq<Point>)
    ensures multiset(points) == multiset(PointsOf(groups, groups.Keys))
  {
    points := [];
    var keys := groups.Keys;
    ghost var done: set<Key> := {};
    assert PointsOf(groups, done) == {};
    while keys != {}
      invariant done + keys == groups.Keys && done !! keys
      invariant multiset(points) == multiset(PointsOf(groups, done))
      decreases |keys|
    {
      hide PointsOf, PointOf;
      var key :| key in keys;
      PointsOfInsert(groups, done, key);
      points := points + [PointOf(key, groups[key])];
      keys := keys - {key};
      done := done + {key};
    }
    assert done == groups.Keys;
  }

  function Kept(limit: int, n: nat): (k: nat)
    ensures k <= n
  {
    if limit > 0 then Min(limit, n) else n
  }

  /** The front of some ranking, `limit` points long when `limit` is positive. */
  ghost predicate TopOf(out: seq<Point>, groups: map<Key, Entry>, limit: int) {
    exists ranking :: IsRanking(ranking, groups) && out == ranking[..Kept(limit, |ranking|)]
  }

  /** Pivot the grouped rows into a hash map, sort its entries, keep the first `limit` when it is positive. */
  method FailedTxByLabelAggregate(raw: seq<RawRow>, limit: int) returns (out: seq<Point>)
    ensures TopOf(out, Groups(raw), limit)
  {
    hide PointsOf;
    var groups: map<Key, Entry> := map[];
    for i := 0 to |raw|
      invariant groups == Groups(raw[..i])
    {
      assert raw[..i + 1][..i] == raw[..i];
      var key := KeyOf(raw[i]);
      var entry := if key in groups then groups[key] else Entry(0, map[]);
      groups := groups[key := Entry(entry.total + raw[i].count, entry.byCategory[raw[i].category := raw[i].count])];
    }
    assert raw[..|raw|] == raw;
    var points := ListPoints(groups);
    out := SortByTotal(points);
    SortDescends(points);
    ghost var ranking := out;
    assert IsRanking(ranking, groups);
    if limit > 0 && limit < |out| {
      out := out[..limit];
    }
    assert out == ranking[..Kept(limit, |ranking|)];
  }

  /** A point whose total and categories are the exact counts of its joined rows. */
  ghost predicate Exact(p: Point, joined: seq<Joined>) {
    && p.totalFailures == CountIf(joined, HasKey(Key(p.name, p.address)))
    && p.totalFailures == SumValues(p.byCategory)
    && forall c :: CategoryIsExact(p, joined, c)
  }

  ghost predicate CategoryIsExact(p: Point, joined: seq<Joined>, c: string) {
    var count := Count(joined, Joined(p.name, p.address, c));
    if c in p.byCategory then p.byCategory[c] == count > 0 else count == 0
  }

  ghost predicate Ranked(ranking: seq<Point>, j: Joined) {
    exists i :: 0 <= i < |ranking| && ranking[i].name == j.name && ranking[i].address == j.address
  }

  /** What the whole ranking says about the joined rows. */
  lemma RankingCountsEveryFailure(raw: seq<RawRow>, joined: seq<Joined>, ranking: seq<Point>)
    requires IsGroupBy(raw, joined) && IsRanking(ranking, Groups(raw))
    ensures SumTotals(ranking) == |joined|
    ensures forall i :: 0 <= i < |ranking| ==> Exact(ranking[i], joined)
    ensures forall k :: 0 <= k < |joined| ==> Ranked(ranking, joined[k])
  {
    AllTotals(raw);
    RankingSums(ranking, Groups(raw));
    GroupByConserves(raw, joined, j => true);
    CountAll(joined);
    hide IsRanking, IsGroupBy, Groups, CountIf, SumIf, SumValues, Exact, Ranked;
    forall i | 0 <= i < |ranking| ensures Exact(ranking[i], joined) {
      PointIsExact(raw, joined, ranking, i);
    }
    forall k | 0 <= k < |joined| ensures Ranked(ranking, joined[k]) {
      RowIsRanked(raw, joined, ranking, k);
    }
  }

  lemma PointIsExact(raw: seq<RawRow>, joined: seq<Joined>, ranking: seq<Point>, i: nat)
    requires IsGroupBy(raw, joined) && IsRanking(ranking, Groups(raw)) && i < |ranking|
    ensures Exact(ranking[i], joined)
  {
    var key := RankedKey(raw, ranking, i);
    GroupTotals(raw, key);
    hide IsRanking, IsGroupBy, Groups, CountIf, SumIf, SumValues, CategoryIsExact;
    GroupByConserves(raw, joined, HasKey(key));
    forall c ensures CategoryIsExact(ranking[i], joined, c) {
      CategoryCount(raw, joined, key, c);
    }
  }

  lemma RowIsRanked(raw: seq<RawRow>, joined: seq<Joined>, ranking: seq<Point>, k: nat)
    requires IsGroupBy(raw, joined) && IsRanking(ranking, Groups(raw)) && k < |joined|
    ensures Ranked(ranking, joined[k])
  {
    var key := Key(joined[k].name, joined[k].address);
    assert GroupIn(raw, joined[k]);
    GroupsHaveTheCategories(raw, key, joined[k].category);
    var p := PointOf(key, Groups(raw)[key]);
    assert p in PointsOf(Groups(raw), Groups(raw).Keys);
    assert p in multiset(ranking);
    var i :| 0 <= i < |ranking| && ranking[i] == p;
  }

  lemma RankedKey(raw: seq<RawRow>, ranking: seq<Point>, i: nat) returns (key: Key)
    requires IsRanking(ranking, Groups(raw)) && i < |ranking|
    ensures key == Key(ranking[i].name, ranking[i].address) && key in Groups(raw)
    ensures ranking[i] == PointOf(key, Groups(raw)[key])
  {
    assert ranking[i] in multiset(ranking);
    key :| key in Groups(raw) && ranking[i] == PointOf(key, Groups(raw)[key]);
  }

  lemma CategoryCount(raw: seq<RawRow>, joined: seq<Joined>, key: Key, c: string)
    requires IsGroupBy(raw, joined) && key in Groups(raw)
    ensures CategoryIsExact(PointOf(key, Groups(raw)[key]), joined, c)
  {
    var j := Joined(key.name, key.address, c);
    GroupsHaveTheCategories(raw, key, c);
    if c in Groups(raw)[key].byCategory {
      var i :| 0 <= i < |raw| && GroupOf(raw[i]) == j;
      GroupsHoldTheCounts(raw, i);
    } else {
      CountOfAbsent(joined, j);
    }
  }

  lemma {:induction false} CountOfAbsent(joined: seq<Joined>, j: Joined)
    requires forall k :: 0 <= k < |joined| ==> joined[k] != j
    ensures Count(joined, j) == 0
    decreases |joined|
  {
    if joined != [] { CountOfAbsent(joined[..|joined| - 1], j); }
  }

  lemma {:induction false} CountAll(joined: seq<Joined>)
    ensures CountIf(joined, j => true) == |joined|
  {
    if joined != [] { CountAll(joined[..|joined| - 1]); }
  }

  /** The truncated result: as long as asked for, sorted, and no dropped point is larger than a kept one. */
  lemma TruncationKeepsTheLargest(ranking: seq<Point>, kept: nat)
    requires Descending(ranking) && kept <= |ranking|
    ensures Descending(ranking[..kept])
    ensures forall p, q :: p in ranking[..kept] && q in ranking[kept..] ==> p.totalFailures >= q.totalFailures
    ensures SumTotals(ranking) >= SumTotals(ranking[..kept])
  {
    forall p, q | p in ranking[..kept] && q in ranking[kept..] ensures p.totalFailures >= q.totalFailures {
      var i :| 0 <= i < kept && ranking[i] == p;
      var k :| kept <= k < |ranking| && ranking[k] == q;
    }
    SumOfPrefix(ranking, kept);
  }

  /**
   * The answer: sorted, no longer than asked, every point exact; a failing contract is missing
   * only from a full answer whose points are all at least as large.
   */
  lemma AnswerCountsFailures(raw: seq<RawRow>, joined: seq<Joined>, out: seq<Point>, limit: int)
    requires IsGroupBy(raw, joined) && TopOf(out, Groups(raw), limit)
    ensures Descending(out) && (limit > 0 ==> |out| <= limit)
    ensures forall i :: 0 <= i < |out| ==> Exact(out[i], joined)
    ensures forall k :: 0 <= k < |joined| ==> Ranked(out, joined[k]) || Outranked(out, joined, joined[k], limit)
  {
    var ranking: seq<Point> :| IsRanking(ranking, Groups(raw)) && out == ranking[..Kept(limit, |ranking|)];
    RankingCountsEveryFailure(raw, joined, ranking);
    hide IsGroupBy, Groups, Exact, Ranked, Outranked;
    forall k | 0 <= k < |joined| ensures Ranked(out, joined[k]) || Outranked(out, joined, joined[k], limit) {
      RankedOrOutranked(ranking, joined, joined[k], limit);
    }
  }

  lemma RankedOrOutranked(ranking: seq<Point>, joined: seq<Joined>, j: Joined, limit: int)
    requires Descending(ranking) && Ranked(ranking, j) && forall i :: 0 <= i < |ranking| ==> Exact(ranking[i], joined)
    ensures var out := ranking[..Kept(limit, |ranking|)];
            Ranked(out, j) || Outranked(out, joined, j, limit)
  {
    var out := ranking[..Kept(limit, |ranking|)];
    var i :| 0 <= i < |ranking| && ranking[i].name == j.name && ranking[i].address == j.address;
    assert ranking[i].totalFailures == CountIf(joined, HasKey(Key(j.name, j.address))) by {
      assert Exact(ranking[i], joined);
    }
    hide Exact, CountIf, HasKey;
    if i < |out| {
      assert out[i] == ranking[i];
    } else {
      assert forall n :: 0 <= n < |out| ==> out[n] == ranking[n] && out[n].totalFailures >= ranking[i].totalFailures;
    }
  }

  ghost predicate Outranked(out: seq<Point>, joined: seq<Joined>, j: Joined, limit: int) {
    && limit > 0 && |out| == limit
    && forall i :: 0 <= i < |out| ==> out[i].totalFailures >= CountIf(joined, HasKey(Key(j.name, j.address)))
  }

  lemma {:induction false} SumOfPrefix(points: seq<Point>, n: nat)
    requires n <= |points|
    ensures SumTotals(points[..n]) <= SumTotals(points)
    decreases |points|
  {
    if n < |points| {
      SumOfPrefix(points[..|points| - 1], n);
      assert points[..|points| - 1][..n] == points[..n];
    } else {
      assert points[..n] == points;
    }
  }

  // ------------------------------------------------------------- back to the tables

  /**
   * The failures of one contract inside the filter: the transaction went to it, it has a label, of the
   * owner if one is asked for, and the time lies between the bounds, both included.
   */
  ghost function FailuresAt(db: Tables, failed: seq<FailedTx>, filter: Filter, address: string): set<nat> {
    set i | 0 <= i < |failed|
        && failed[i].txHash in db.targets && db.targets[failed[i].txHash] == Some(address)
        && address in db.labels && (filter.owner == None || db.labels[address].owner == filter.owner)
        && (filter.since == None || filter.since.value <= failed[i].timestamp)
        && (filter.until == None || failed[i].timestamp <= filter.until.value)
  }

  /** The failures of all contracts. */
  ghost function AllFailures(db: Tables, failed: seq<FailedTx>, filter: Filter): set<nat> {
    set i | 0 <= i < |failed| && failed[i].txHash in db.targets && db.targets[failed[i].txHash].Some?
        && i in FailuresAt(db, failed, filter, db.targets[failed[i].txHash].value)
  }

  ghost function OfCategory(failed: seq<FailedTx>, indices: set<nat>, c: string): set<nat> {
    set i | i in indices && i < |failed| && failed[i].category == c
  }

  /** The failures whose joined row satisfies `p`. */
  ghost function JoinedWith(db: Tables, failed: seq<FailedTx>, filter: Filter, p: Joined -> bool): set<nat> {
    set i | 0 <= i < |failed| && IsLabelled(db, failed[i], filter) && p(JoinedRow(db, failed[i], filter))
  }

  lemma {:induction false} JoinCounts(db: Tables, failed: seq<FailedTx>, filter: Filter, p: Joined -> bool)
    ensures CountIf(JoinRows(db, failed, filter), p) == |JoinedWith(db, failed, filter, p)|
    decreases |failed|
  {
    if failed != [] {
      hide IsLabelled, JoinedRow;
      var n := |failed| - 1;
      var before := JoinRows(db, failed[..n], filter);
      JoinCounts(db, failed[..n], filter, p);
      JoinedOneMore(db, failed, filter, p);
      if IsLabelled(db, failed[n], filter) {
        var all := before + [JoinedRow(db, failed[n], filter)];
        assert JoinRows(db, failed, filter) == all && all[..|all| - 1] == before;
      } else {
        assert JoinRows(db, failed, filter) == before + [] == before;
      }
    }
  }

  lemma JoinedOneMore(db: Tables, failed: seq<FailedTx>, filter: Filter, p: Joined -> bool)
    requires failed != []
    ensures var n := |failed| - 1;
            var counted := IsLabelled(db, failed[n], filter) && p(JoinedRow(db, failed[n], filter));
            |JoinedWith(db, failed, filter, p)| == |JoinedWith(db, failed[..n], filter, p)| + if counted then 1 else 0
  {
    hide IsLabelled, JoinedRow;
    var n := |failed| - 1;
    var before := JoinedWith(db, failed[..n], filter, p);
    var counted := IsLabelled(db, failed[n], filter) && p(JoinedRow(db, failed[n], filter));
    assert JoinedWith(db, failed, filter, p) == before + if counted then {n} else {};
  }

  lemma JoinedAtAddress(db: Tables, failed: seq<FailedTx>, filter: Filter, address: string)
    requires address in db.labels
    ensures JoinedWith(db, failed, filter, HasKey(Key(db.labels[address].name, address)))
         == FailuresAt(db, failed, filter, address)
  {
  }

  lemma JoinedOfCategory(db: Tables, failed: seq<FailedTx>, filter: Filter, address: string, c: string)
    requires address in db.labels
    ensures JoinedWith(db, failed, filter, j => j == Joined(db.labels[address].name, address, c))
         == OfCategory(failed, FailuresAt(db, failed, filter, address), c)
  {
  }

  lemma JoinedInAll(db: Tables, failed: seq<FailedTx>, filter: Filter)
    ensures JoinedWith(db, failed, filter, j => true) == AllFailures(db, failed, filter)
  {
  }

  /** Every joined row stands under the label its address has. */
  lemma {:induction false} JoinedRowsAreLabelled(db: Tables, failed: seq<FailedTx>, filter: Filter)
    ensures forall k :: 0 <= k < |JoinRows(db, failed, filter)| ==>
              var j := JoinRows(db, failed, filter)[k];
              j.address in db.labels && db.labels[j.address].name == j.name
  {
    if failed != [] { JoinedRowsAreLabelled(db, failed[..|failed| - 1], filter); }
  }

  /** A point that counts the failures of its contract, in all and per category; no empty category is listed. */
  ghost predicate CountsFailures(p: Point, db: Tables, filter: Filter) {
    var failures := FailuresAt(db, db.failed, filter, p.address);
    && p.address in db.labels && db.labels[p.address].name == p.name
    && p.totalFailures == |failures| > 0
    && forall c :: |OfCategory(db.failed, failures, c)| == (if c in p.byCategory then p.byCategory[c] else 0)
                   && (c in p.byCategory ==> p.byCategory[c] > 0)
  }

  /**
   * The ranking before truncation, against the tables: each point counts the failures of its labelled
   * contract inside the filter, by category, every contract with such a failure has a point, and the
   * totals add up to all of them.
   */
  lemma AggregateCountsTheTables(db: Tables, filter: Filter, raw: seq<RawRow>, ranking: seq<Point>)
    requires IsGroupBy(raw, JoinRows(db, db.failed, filter)) && IsRanking(ranking, Groups(raw))
    ensures SumTotals(ranking) == |AllFailures(db, db.failed, filter)|
    ensures forall i :: 0 <= i < |ranking| ==> CountsFailures(ranking[i], db, filter)
    ensures forall address :: FailuresAt(db, db.failed, filter, address) != {} ==>
              exists i :: 0 <= i < |ranking| && ranking[i].address == address
  {
    var joined := JoinRows(db, db.failed, filter);
    CountAll(joined);
    JoinCounts(db, db.failed, filter, j => true);
    JoinedInAll(db, db.failed, filter);
    RankingCountsEveryFailure(raw, joined, ranking);
    hide IsGroupBy, IsRanking, Groups, JoinRows, CountIf, Exact, CountsFailures, FailuresAt, AllFailures, SumTotals;
    forall i | 0 <= i < |ranking| ensures CountsFailures(ranking[i], db, filter) {
      PointCountsFailures(db, filter, raw, ranking, i);
    }
    forall address | FailuresAt(db, db.failed, filter, address) != {}
      ensures exists i :: 0 <= i < |ranking| && ranking[i].address == address
    {
      var k := FailureIsJoined(db, filter, address);
      assert Ranked(ranking, joined[k]);
    }
  }

  lemma FailureIsJoined(db: Tables, filter: Filter, address: string) returns (k: nat)
    requires FailuresAt(db, db.failed, filter, address) != {}
    ensures k < |JoinRows(db, db.failed, filter)| && JoinRows(db, db.failed, filter)[k].address == address
  {
    var i: nat :| i in FailuresAt(db, db.failed, filter, address);
    var key := Key(db.labels[address].name, address);
    JoinCounts(db, db.failed, filter, HasKey(key));
    JoinedAtAddress(db, db.failed, filter, address);
    k := RowCounted(JoinRows(db, db.failed, filter), HasKey(key));
  }

  lemma PointCountsFailures(db: Tables, filter: Filter, raw: seq<RawRow>, ranking: seq<Point>, i: nat)
    requires IsGroupBy(raw, JoinRows(db, db.failed, filter)) && IsRanking(ranking, Groups(raw)) && i < |ranking|
    ensures CountsFailures(ranking[i], db, filter)
  {
    hide IsGroupBy, IsRanking, Groups, JoinRows, CountIf, FailuresAt, OfCategory, JoinedWith, HasKey;
    var joined, p := JoinRows(db, db.failed, filter), ranking[i];
    PointIsExact(raw, joined, ranking, i);
    JoinedRowsAreLabelled(db, db.failed, filter);
    var key := RankedKey(raw, ranking, i);
    var k := SomeRowOf(raw, joined, key);
    JoinCounts(db, db.failed, filter, HasKey(key));
    JoinedAtAddress(db, db.failed, filter, p.address);
    var failures := FailuresAt(db, db.failed, filter, p.address);
    forall c ensures |OfCategory(db.failed, failures, c)| == (if c in p.byCategory then p.byCategory[c] else 0)
        && (c in p.byCategory ==> p.byCategory[c] > 0)
    {
      assert CategoryIsExact(p, joined, c);
      JoinCounts(db, db.failed, filter, j => j == Joined(p.name, p.address, c));
      JoinedOfCategory(db, db.failed, filter, p.address, c);
    }
  }

  /**
   * The answer itself, against the tables: sorted, no longer than asked, every point exact, and a
   * contract with failures is missing only from a full answer whose points have at least as many.
   */
  lemma AnswerCountsTheTables(db: Tables, filter: Filter, raw: seq<RawRow>, out: seq<Point>, limit: int)
    requires IsGroupBy(raw, JoinRows(db, db.failed, filter)) && TopOf(out, Groups(raw), limit)
    ensures Descending(out) && (limit > 0 ==> |out| <= limit)
    ensures forall i :: 0 <= i < |out| ==> CountsFailures(out[i], db, filter)
    ensures forall address :: FailuresAt(db, db.failed, filter, address) != {} ==>
              || (exists i :: 0 <= i < |out| && out[i].address == address)
              || (|out| == limit && forall i :: 0 <= i < |out| ==>
                    out[i].totalFailures >= |FailuresAt(db, db.failed, filter, address)|)
  {
    hide IsGroupBy, Groups, JoinRows, CountsFailures, FailuresAt, AllFailures, SumTotals;
    var ranking: seq<Point> :| IsRanking(ranking, Groups(raw)) && out == ranking[..Kept(limit, |ranking|)];
    AggregateCountsTheTables(db, filter, raw, ranking);
    forall address | FailuresAt(db, db.failed, filter, address) != {}
      ensures || (exists i :: 0 <= i < |out| && out[i].address == address)
              || (|out| == limit && forall i :: 0 <= i < |out| ==>
                    out[i].totalFailures >= |FailuresAt(db, db.failed, filter, address)|)
    {
      var k :| 0 <= k < |ranking| && ranking[k].address == address;
      assert ranking[k].totalFailures == |FailuresAt(db, db.failed, filter, address)| by {
        TotalOfPoint(ranking[k], db, filter);
      }
      if k < |out| {
        assert out[k].address == address;
      }
    }
  }

  lemma TotalOfPoint(p: Point, db: Tables, filter: Filter)
    requires CountsFailures(p, db, filter)
    ensures p.totalFailures == |FailuresAt(db, db.failed, filter, p.address)|
  {
  }

  lemma SomeRowOf(raw: seq<RawRow>, joined: seq<Joined>, key: Key) returns (k: nat)
    requires IsGroupBy(raw, joined) && key in Groups(raw)
    ensures k < |joined| && joined[k].name == key.name && joined[k].address == key.address
    ensures CountIf(joined, HasKey(key)) > 0
  {
    GroupsHaveTheKeys(raw, key);
    var i :| 0 <= i < |raw| && KeyOf(raw[i]) == key;
    k := RowCounted(joined, x => x == GroupOf(raw[i]));
    CountIfPositive(joined, HasKey(key), k);
  }

  lemma {:induction false} RowCounted(joined: seq<Joined>, p: Joined -> bool) returns (k: nat)
    requires CountIf(joined, p) > 0
    ensures k < |joined| && p(joined[k])
  {
    var n := |joined| - 1;
    if p(joined[n]) { k := n; } else { k := RowCounted(joined[..n], p); }
  }

  lemma {:induction false} CountIfPositive(joined: seq<Joined>, p: Joined -> bool, k: nat)
    requires k < |joined| && p(joined[k])
    ensures CountIf(joined, p) > 0
  {
    if k < |joined| - 1 { CountIfPositive(joined[..|joined| - 1], p, k); }
  }
}
