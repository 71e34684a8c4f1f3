/** `getAnalytics`: four aggregate queries over one snapshot of the tips table. */
module Analytics {
  import opened Options
  import opened Aggregates
  import TipTable

  const MS_PER_DAY := 86400000

  type Row = TipTable.Row

  /** What the request selects: a wallet, the start of the period (None for "all") and an asset. */
  datatype Selection = Selection(wallet: string, startDate: Option<int>, asset: Option<string>)

  datatype Summary = Summary(totalTips: nat, totalAmount: int, averageAmount: int, largestAmount: int)

  datatype Report = Report(
    summary: Summary,
    byAsset: seq<Group<string>>,
    timeSeries: seq<Group<(int, string)>>,
    topSupporters: seq<Group<string>>)

  // ---------- The queries ----------

  function AssetOf(t: Row): string { TipTable.AssetName(t.tip.asset) }

  predicate InPeriod(sel: Selection, t: Row) {
    t.tip.receiverWallet == sel.wallet && t.tip.status == TipTable.Completed
    && (sel.startDate.Some? ==> t.createdAt >= sel.startDate.value)
  }

  predicate Selected(sel: Selection, t: Row) {
    InPeriod(sel, t) && (sel.asset.Some? ==> AssetOf(t) == sel.asset.value)
  }

  function SelectedBy(sel: Selection): Row -> bool { (t: Row) => Selected(sel, t) }

  function SelectedTips(tips: seq<Row>, sel: Selection): seq<Row> {
    Filter(tips, SelectedBy(sel))
  }

  function Amount(): Row -> int { (t: Row) => t.tip.amount }

  function Largest(tips: seq<Row>): int {
    if tips == [] then 0
    else if |tips| == 1 || tips[|tips| - 1].tip.amount > Largest(tips[..|tips| - 1]) then tips[|tips| - 1].tip.amount
    else Largest(tips[..|tips| - 1])
  }

  /** `Math.round` of the exact average, in units of 10^-7; 0 when there are no tips. */
  function RoundedAverage(total: int, count: nat): int {
    if count == 0 then 0 else (2 * total + count) / (2 * count)
  }

  function SummaryOf(tips: seq<Row>, sel: Selection): Summary {
    var own := SelectedTips(tips, sel);
    Summary(|own|, Sum(own, Amount()), RoundedAverage(Sum(own, Amount()), |own|), Largest(own))
  }

  /** The breakdown by asset ignores the asset filter. */
  function ByAsset(tips: seq<Row>, sel: Selection): seq<Group<string>> {
    GroupBy(SelectedTips(tips, sel.(asset := None)), (t: Row) => AssetOf(t), Amount())
  }

  function InsertBy<K>(sorted: seq<Group<K>>, g: Group<K>, before: (Group<K>, Group<K>) -> bool): seq<Group<K>> {
    if sorted == [] || before(g, sorted[0]) then [g] + sorted else [sorted[0]] + InsertBy(sorted[1..], g, before)
  }

  function SortBy<K>(groups: seq<Group<K>>, before: (Group<K>, Group<K>) -> bool): seq<Group<K>> {
    if groups == [] then [] else InsertBy(SortBy(groups[1..], before), groups[0], before)
  }

  function DayAndAsset(): Row -> (int, string) { (t: Row) => (t.createdAt / MS_PER_DAY, AssetOf(t)) }

  function ByDay(): (Group<(int, string)>, Group<(int, string)>) -> bool {
    (g: Group<(int, string)>, h: Group<(int, string)>) => g.key.0 <= h.key.0
  }

  /** One row per day and asset, by day. */
  function TimeSeries(tips: seq<Row>, sel: Selection): seq<Group<(int, string)>> {
    SortBy(GroupBy(SelectedTips(tips, sel), DayAndAsset(), Amount()), ByDay())
  }

  function ByTotal(): (Group<string>, Group<string>) -> bool {
    (g: Group<string>, h: Group<string>) => g.total >= h.total
  }

  function SupporterGroups(tips: seq<Row>, sel: Selection): seq<Group<string>> {
    GroupBy(Filter(SelectedTips(tips, sel), (t: Row) => t.tip.senderWallet != ""),
            (t: Row) => t.tip.senderWallet, Amount())
  }

  function FirstFive(groups: seq<Group<string>>): seq<Group<string>> {
    if |groups| > 5 then groups[..5] else groups
  }

  /** The five supporters with the largest totals. */
  function TopSupporters(tips: seq<Row>, sel: Selection): seq<Group<string>> {
    FirstFive(SortBy(SupporterGroups(tips, sel), ByTotal()))
  }

  function GetAnalytics(tips: seq<Row>, sel: Selection): Report {
    Report(SummaryOf(tips, sel), ByAsset(tips, sel), TimeSeries(tips, sel), TopSupporters(tips, sel))
  }

  // ---------- Sorting keeps groups ----------

  lemma {:induction false} InsertByKeeps<K>(sorted: seq<Group<K>>, g: Group<K>, before: (Group<K>, Group<K>) -> bool)
    ensures Totals(InsertBy(sorted, g, before)) == Totals(sorted) + g.total
    ensures Counts(InsertBy(sorted, g, before)) == Counts(sorted) + g.count
    ensures multiset(InsertBy(sorted, g, before)) == multiset(sorted) + multiset{g}
  {
    if sorted == [] || before(g, sorted[0]) {
      assert ([g] + sorted)[1..] == sorted;
    } else {
      InsertByKeeps(sorted[1..], g, before);
      assert sorted == [sorted[0]] + sorted[1..];
    }
  }

  lemma {:induction false} SortByKeeps<K>(groups: seq<Group<K>>, before: (Group<K>, Group<K>) -> bool)
    ensures Totals(SortBy(groups, before)) == Totals(groups)
    ensures Counts(SortBy(groups, before)) == Counts(groups)
    ensures multiset(SortBy(groups, before)) == multiset(groups)
  {
    if groups != [] {
      SortByKeeps(groups[1..], before);
      InsertByKeeps(SortBy(groups[1..], before), groups[0], before);
      assert groups == [groups[0]] + groups[1..];
    }
  }

  ghost predicate InOrder<K>(groups: seq<Group<K>>, before: (Group<K>, Group<K>) -> bool) {
    forall i, j | 0 <= i < j < |groups| :: before(groups[i], groups[j])
  }

  ghost predicate Ordering<K(!new)>(before: (Group<K>, Group<K>) -> bool) {
    && (forall a, b :: before(a, b) || before(b, a))
    && forall a, b, c :: before(a, b) && before(b, c) ==> before(a, c)
  }

  lemma {:induction false} InsertInOrder<K(!new)>(
      sorted: seq<Group<K>>, g: Group<K>, before: (Group<K>, Group<K>) -> bool)
    requires InOrder(sorted, before) && Ordering(before)
    ensures InOrder(InsertBy(sorted, g, before), before)
  {
    if sorted == [] || before(g, sorted[0]) {
      var all := [g] + sorted;
      forall j | 0 <= j < |sorted|
        ensures before(g, sorted[j])
      {
        assert j > 0 ==> before(sorted[0], sorted[j]);
      }
      assert forall i, j | 0 <= i < j < |all| :: all[j] == sorted[j - 1] && (i > 0 ==> all[i] == sorted[i - 1]);
    } else {
      InsertInOrder(sorted[1..], g, before);
      InsertByKeeps(sorted[1..], g, before);
      var rest := InsertBy(sorted[1..], g, before);
      forall j | 0 <= j < |rest|
        ensures before(sorted[0], rest[j])
      {
        assert rest[j] in multiset(rest);
        if rest[j] != g {
          assert rest[j] in sorted[1..];
        }
      }
    }
  }

  lemma {:induction false} SortInOrder<K(!new)>(groups: seq<Group<K>>, before: (Group<K>, Group<K>) -> bool)
    requires Ordering(before)
    ensures InOrder(SortBy(groups, before), before)
  {
    if groups != [] {
      SortInOrder(groups[1..], before);
      InsertInOrder(SortBy(groups[1..], before), groups[0], before);
    }
  }

  // ---------- The parts of a report agree ----------

  /** The time series splits the summary: it has one row per day and asset, in the order of the
      days, and its counts and amounts add up to the summary. */
  lemma TimeSeriesAddsUp(tips: seq<Row>, sel: Selection)
    ensures var r := GetAnalytics(tips, sel);
            && Counts(r.timeSeries) == r.summary.totalTips && Totals(r.timeSeries) == r.summary.totalAmount
            && InOrder(r.timeSeries, ByDay())
            && multiset(r.timeSeries) == multiset(GroupBy(SelectedTips(tips, sel), DayAndAsset(), Amount()))
            && DistinctKeys(GroupBy(SelectedTips(tips, sel), DayAndAsset(), Amount()))
  {
    GroupsAddUp(SelectedTips(tips, sel), DayAndAsset(), Amount());
    SortByKeeps(GroupBy(SelectedTips(tips, sel), DayAndAsset(), Amount()), ByDay());
    SortInOrder(GroupBy(SelectedTips(tips, sel), DayAndAsset(), Amount()), ByDay());
  }

  /** The breakdown by asset adds up to the summary without an asset filter ... */
  lemma ByAssetAddsUp(tips: seq<Row>, sel: Selection)
    ensures var all := GetAnalytics(tips, sel.(asset := None)).summary;
            var byAsset := GetAnalytics(tips, sel).byAsset;
            Counts(byAsset) == all.totalTips && Totals(byAsset) == all.totalAmount
  {
    GroupsAddUp(SelectedTips(tips, sel.(asset := None)), (t: Row) => AssetOf(t), Amount());
  }

  lemma {:induction false} FilterTwice(tips: seq<Row>, outer: Row -> bool, inner: Row -> bool, both: Row -> bool)
    requires forall t: Row :: both(t) <==> inner(t) && outer(t)
    ensures Filter(Filter(tips, inner), outer) == Filter(tips, both)
  {
    if tips != [] {
      var before, last := tips[..|tips| - 1], tips[|tips| - 1];
      FilterTwice(before, outer, inner, both);
      FilterStep(tips, inner);
      if inner(last) {
        var kept := Filter(before, inner) + [last];
        assert kept[..|kept| - 1] == Filter(before, inner);
        FilterStep(kept, outer);
      }
    }
  }

  /** ... and its row for an asset is the summary filtered by that asset. */
  lemma AssetRowIsFilteredSummary(tips: seq<Row>, sel: Selection, asset: string)
    ensures var row := RowFor(GetAnalytics(tips, sel).byAsset, asset);
            var filtered := GetAnalytics(tips, sel.(asset := Some(asset))).summary;
            row.count == filtered.totalTips && row.total == filtered.totalAmount
  {
    var all := SelectedTips(tips, sel.(asset := None));
    var keep := (t: Row) => AssetOf(t) == asset;
    GroupIsFilteredSum(all, (t: Row) => AssetOf(t), Amount(), asset, keep);
    FilterTwice(tips, keep, SelectedBy(sel.(asset := None)), SelectedBy(sel.(asset := Some(asset))));
  }

  lemma {:induction false} TotalsOfPrefix<K>(groups: seq<Group<K>>, n: nat)
    requires n <= |groups| && forall i | 0 <= i < |groups| :: groups[i].total >= 0
    ensures 0 <= Totals(groups[..n]) <= Totals(groups)
  {
    if n > 0 {
      TotalsOfPrefix(groups[1..], n - 1);
      assert groups[..n][1..] == groups[1..][..n - 1];
    } else if groups != [] {
      TotalsOfPrefix(groups[1..], 0);
    }
  }

  lemma {:induction false} AddRowNonNegative<K>(groups: seq<Group<K>>, key: K, amount: int)
    requires amount >= 0 && forall i | 0 <= i < |groups| :: groups[i].total >= 0
    ensures forall i | 0 <= i < |AddRow(groups, key, amount)| :: AddRow(groups, key, amount)[i].total >= 0
  {
    if groups != [] && groups[0].key != key {
      AddRowNonNegative(groups[1..], key, amount);
    }
  }

  lemma {:induction false} GroupsNonNegative<T, K>(rows: seq<T>, key: T -> K, amount: T -> int)
    requires forall r | r in rows :: amount(r) >= 0
    ensures forall i | 0 <= i < |GroupBy(rows, key, amount)| :: GroupBy(rows, key, amount)[i].total >= 0
  {
    if rows != [] {
      var before, last := rows[..|rows| - 1], rows[|rows| - 1];
      GroupsNonNegative(before, key, amount);
      assert last in rows;
      AddRowNonNegative(GroupBy(before, key, amount), key(last), amount(last));
    }
  }

  lemma FirstFiveBounded(groups: seq<Group<string>>)
    requires forall i | 0 <= i < |groups| :: groups[i].total >= 0
    ensures var sorted := SortBy(groups, ByTotal());
            && InOrder(sorted, ByTotal()) && multiset(sorted) == multiset(groups)
            && Totals(FirstFive(sorted)) <= Totals(groups)
  {
    var sorted := SortBy(groups, ByTotal());
    SortByKeeps(groups, ByTotal());
    SortInOrder(groups, ByTotal());
    forall i | 0 <= i < |sorted|
      ensures sorted[i].total >= 0
    {
      assert sorted[i] in multiset(sorted);
      assert sorted[i] in groups;
    }
    if |sorted| > 5 {
      TotalsOfPrefix(sorted, 5);
    }
  }

  /** With amounts that are not negative, the top supporters together gave no more than the
      summary. They are five, or all there are if fewer; they are listed from the largest down, and
      whoever is left out gave no more than any of them. */
  lemma TopSupportersBounded(tips: seq<Row>, sel: Selection)
    requires forall t | t in tips :: t.tip.amount >= 0
    ensures var r := GetAnalytics(tips, sel);
            var all := SortBy(SupporterGroups(tips, sel), ByTotal());
            && Totals(r.topSupporters) <= r.summary.totalAmount
            && r.topSupporters <= all && |r.topSupporters| == (if |all| < 5 then |all| else 5)
            && InOrder(all, ByTotal())
            && multiset(all) == multiset(SupporterGroups(tips, sel))
  {
    SupporterGroupsBounded(tips, sel);
    FirstFiveBounded(SupporterGroups(tips, sel));
  }

  lemma SupporterGroupsBounded(tips: seq<Row>, sel: Selection)
    requires forall t | t in tips :: t.tip.amount >= 0
    ensures forall i | 0 <= i < |SupporterGroups(tips, sel)| :: SupporterGroups(tips, sel)[i].total >= 0
    ensures Totals(SupporterGroups(tips, sel)) <= SummaryOf(tips, sel).totalAmount
  {
    var own := SelectedTips(tips, sel);
    var named := (t: Row) => t.tip.senderWallet != "";
    var key := (t: Row) => t.tip.senderWallet;
    FilterSumBound(tips, SelectedBy(sel), Amount());
    FilterSumBound(own, named, Amount());
    GroupsAddUp(Filter(own, named), key, Amount());
    GroupsNonNegative(Filter(own, named), key, Amount());
  }

  /** The average shown times the number of tips is within half a unit per tip of the total, and a
      half is rounded up; without tips it is 0. */
  lemma AverageIsRounded(tips: seq<Row>, sel: Selection)
    ensures var s := GetAnalytics(tips, sel).summary;
            var error := s.averageAmount * s.totalTips - s.totalAmount;
            if s.totalTips == 0 then s.averageAmount == 0 else 0 < s.totalTips + 2 * error && 2 * error <= s.totalTips
  {
    var s := GetAnalytics(tips, sel).summary;
    if s.totalTips > 0 {
      RoundingError(s.totalAmount, s.totalTips);
    }
  }

  lemma RoundingError(total: int, count: nat)
    requires count > 0
    ensures var error := RoundedAverage(total, count) * count - total;
            0 < count + 2 * error && 2 * error <= count
  {
    var d := 2 * count;
    var q := (2 * total + count) / d;
    assert 2 * total + count == d * q + (2 * total + count) % d;
    assert d * q == 2 * (q * count);
  }

  lemma {:induction false} LargestIsMaximum(tips: seq<Row>)
    requires tips != []
    ensures exists t :: t in tips && t.tip.amount == Largest(tips)
    ensures forall t | t in tips :: t.tip.amount <= Largest(tips)
  {
    var before, last := tips[..|tips| - 1], tips[|tips| - 1];
    assert last in tips;
    if before != [] {
      LargestIsMaximum(before);
    }
    assert forall t :: t in tips <==> t in before || t == last;
  }

  /** The largest amount shown belongs to one of the tips that count and none exceeds it; without
      such tips it is 0. */
  lemma LargestIsExact(tips: seq<Row>, wallet: string, since: Option<int>, asset: Option<string>)
    ensures var largest := GetAnalytics(tips, Selection(wallet, since, asset)).summary.largestAmount;
            && (forall t | t in tips && Received(t, wallet, since, asset) :: t.tip.amount <= largest)
            && (if exists t :: t in tips && Received(t, wallet, since, asset)
                then exists t :: t in tips && Received(t, wallet, since, asset) && t.tip.amount == largest
                else largest == 0)
  {
    var sel := Selection(wallet, since, asset);
    var own := SelectedTips(tips, sel);
    forall t
      ensures t in own <==> t in tips && Received(t, wallet, since, asset)
    {
      FilterMember(tips, SelectedBy(sel), t);
    }
    if own != [] {
      LargestIsMaximum(own);
      assert own[0] in own;
    }
  }

  // ---------- The report, from the columns of the tips ----------

  /** The tips a report is about, by their columns: completed tips to the wallet, not before the start
      of the period, in the asset asked for. */
  predicate Received(t: Row, wallet: string, since: Option<int>, asset: Option<string>) {
    && t.tip.receiverWallet == wallet && t.tip.status == TipTable.Completed
    && (since.Some? ==> since.value <= t.createdAt) && (asset.Some? ==> InAsset(t, asset.value))
  }

  predicate InAsset(t: Row, name: string) { name == if t.tip.asset.XLM? then "XLM" else "USDC" }

  predicate OnDay(t: Row, day: int) { day * 86400000 <= t.createdAt < (day + 1) * 86400000 }

  function HowMany(tips: seq<Row>, keep: Row -> bool): nat {
    if tips == [] then 0 else HowMany(tips[..|tips| - 1], keep) + if keep(tips[|tips| - 1]) then 1 else 0
  }

  function HowMuch(tips: seq<Row>, keep: Row -> bool): int {
    if tips == [] then 0
    else HowMuch(tips[..|tips| - 1], keep) + if keep(tips[|tips| - 1]) then tips[|tips| - 1].tip.amount else 0
  }

  lemma {:induction false} FilterCounts(tips: seq<Row>, keep: Row -> bool, same: Row -> bool)
    requires forall t: Row :: keep(t) <==> same(t)
    ensures |Filter(tips, keep)| == HowMany(tips, same) && Sum(Filter(tips, keep), Amount()) == HowMuch(tips, same)
  {
    if tips != [] {
      var before, last := tips[..|tips| - 1], tips[|tips| - 1];
      FilterCounts(before, keep, same);
      FilterStep(tips, keep);
      SumAppend(Filter(before, keep), last, Amount());
    }
  }

  /** One row of a grouped query, counted over the table itself. */
  lemma GroupCounts<K>(tips: seq<Row>, inner: Row -> bool, key: Row -> K, k: K, same: Row -> bool)
    requires forall t: Row :: same(t) <==> inner(t) && key(t) == k
    ensures RowFor(GroupBy(Filter(tips, inner), key, Amount()), k) == Group(k, HowMany(tips, same), HowMuch(tips, same))
  {
    var keep := (t: Row) => key(t) == k;
    GroupIsFilteredSum(Filter(tips, inner), key, Amount(), k, keep);
    FilterTwice(tips, keep, inner, same);
    FilterCounts(tips, same, same);
  }

  /** The summary counts and adds up the tips the report is about. */
  lemma SummaryExactly(tips: seq<Row>, wallet: string, since: Option<int>, asset: Option<string>)
    ensures var s := GetAnalytics(tips, Selection(wallet, since, asset)).summary;
            var counts := (t: Row) => Received(t, wallet, since, asset);
            s.totalTips == HowMany(tips, counts) && s.totalAmount == HowMuch(tips, counts)
  {
    var sel := Selection(wallet, since, asset);
    FilterCounts(tips, SelectedBy(sel), (t: Row) => Received(t, wallet, since, asset));
  }

  /** The breakdown by asset has one row for each asset that occurs, with the number and the sum of
      the tips in it, whatever asset was asked for. */
  lemma ByAssetExactly(tips: seq<Row>, wallet: string, since: Option<int>, asset: Option<string>, name: string)
    ensures var rows := GetAnalytics(tips, Selection(wallet, since, asset)).byAsset;
            var counts := (t: Row) => Received(t, wallet, since, None) && InAsset(t, name);
            && DistinctKeys(rows) && (forall i | 0 <= i < |rows| :: rows[i].count > 0)
            && RowFor(rows, name) == Group(name, HowMany(tips, counts), HowMuch(tips, counts))
  {
    var sel := Selection(wallet, since, None);
    var key := (t: Row) => AssetOf(t);
    GroupsAddUp(SelectedTips(tips, sel), key, Amount());
    GroupsAreNotEmpty(SelectedTips(tips, sel), key, Amount());
    GroupCounts(tips, SelectedBy(sel), key, name, (t: Row) => Received(t, wallet, since, None) && InAsset(t, name));
  }

  lemma {:induction false} InsertKeepsRows<K>(sorted: seq<Group<K>>, g: Group<K>, before: (Group<K>, Group<K>) -> bool)
    requires DistinctKeys(sorted) && forall i | 0 <= i < |sorted| :: sorted[i].key != g.key
    ensures DistinctKeys(InsertBy(sorted, g, before))
    ensures forall k :: RowFor(InsertBy(sorted, g, before), k) == if k == g.key then g else RowFor(sorted, k)
    ensures forall x | x in InsertBy(sorted, g, before) :: x == g || x in sorted
  {
    if sorted == [] || before(g, sorted[0]) {
      assert ([g] + sorted)[1..] == sorted;
    } else {
      InsertKeepsRows(sorted[1..], g, before);
      var rest := InsertBy(sorted[1..], g, before);
      assert ([sorted[0]] + rest)[1..] == rest;
      forall j | 0 <= j < |rest|
        ensures rest[j].key != sorted[0].key
      {
        assert rest[j] in rest;
      }
    }
  }

  /** Sorting changes no row. */
  lemma {:induction false} SortKeepsRows<K>(groups: seq<Group<K>>, before: (Group<K>, Group<K>) -> bool)
    requires DistinctKeys(groups)
    ensures DistinctKeys(SortBy(groups, before)) && |SortBy(groups, before)| == |groups|
    ensures forall k :: RowFor(SortBy(groups, before), k) == RowFor(groups, k)
    ensures forall x | x in SortBy(groups, before) :: x in groups
  {
    if groups != [] {
      SortKeepsRows(groups[1..], before);
      SortByKeeps(groups, before);
      var sorted := SortBy(groups[1..], before);
      forall i | 0 <= i < |sorted|
        ensures sorted[i].key != groups[0].key
      {
        assert sorted[i] in sorted && sorted[i] in groups[1..];
      }
      InsertKeepsRows(sorted, groups[0], before);
      assert |SortBy(groups, before)| == |multiset(SortBy(groups, before))| == |multiset(groups)| == |groups|;
    }
  }

  /** The time series has one row for each day and asset that occur, in the order of the days, with the
      number and the sum of the tips of that day in that asset. */
  lemma TimeSeriesExactly(
      tips: seq<Row>, wallet: string, since: Option<int>, asset: Option<string>, day: int, name: string)
    ensures var rows := GetAnalytics(tips, Selection(wallet, since, asset)).timeSeries;
            var counts := (t: Row) => Received(t, wallet, since, asset) && OnDay(t, day) && InAsset(t, name);
            && DistinctKeys(rows) && (forall i | 0 <= i < |rows| :: rows[i].count > 0)
            && (forall i, j | 0 <= i < j < |rows| :: rows[i].key.0 <= rows[j].key.0)
            && RowFor(rows, (day, name)) == Group((day, name), HowMany(tips, counts), HowMuch(tips, counts))
  {
    var sel := Selection(wallet, since, asset);
    var groups := GroupBy(SelectedTips(tips, sel), DayAndAsset(), Amount());
    GroupsAddUp(SelectedTips(tips, sel), DayAndAsset(), Amount());
    GroupsAreNotEmpty(SelectedTips(tips, sel), DayAndAsset(), Amount());
    SortKeepsRows(groups, ByDay());
    SortInOrder(groups, ByDay());
    GroupCounts(tips, SelectedBy(sel), DayAndAsset(), (day, name),
                (t: Row) => Received(t, wallet, since, asset) && OnDay(t, day) && InAsset(t, name));
    var rows := SortBy(groups, ByDay());
    forall i | 0 <= i < |rows|
      ensures rows[i].count > 0
    {
      assert rows[i] in rows && rows[i] in groups;
    }
    forall i, j | 0 <= i < j < |rows|
      ensures rows[i].key.0 <= rows[j].key.0
    {
      assert ByDay()(rows[i], rows[j]);
    }
  }

  function FromSupporter(wallet: string, since: Option<int>, asset: Option<string>, supporter: string): Row -> bool {
    (t: Row) => Received(t, wallet, since, asset) && t.tip.senderWallet == supporter
  }

  lemma SupportersExactly(tips: seq<Row>, sel: Selection)
    ensures var groups := SupporterGroups(tips, sel);
            && DistinctKeys(groups)
            && (forall i | 0 <= i < |groups| :: groups[i].count > 0 && groups[i].key != "")
            && forall w | w != "" ::
                 var from := FromSupporter(sel.wallet, sel.startDate, sel.asset, w);
                 RowFor(groups, w) == Group(w, HowMany(tips, from), HowMuch(tips, from))
  {
    var named := (t: Row) => t.tip.senderWallet != "";
    var key := (t: Row) => t.tip.senderWallet;
    var own := SelectedTips(tips, sel);
    var both := (t: Row) => SelectedBy(sel)(t) && named(t);
    FilterTwice(tips, named, SelectedBy(sel), both);
    GroupsAddUp(Filter(own, named), key, Amount());
    GroupsAreNotEmpty(Filter(own, named), key, Amount());
    var groups := GroupBy(Filter(own, named), key, Amount());
    assert groups == SupporterGroups(tips, sel);
    forall w | w != ""
      ensures var from := FromSupporter(sel.wallet, sel.startDate, sel.asset, w);
              RowFor(groups, w) == Group(w, HowMany(tips, from), HowMuch(tips, from))
    {
      GroupCounts(tips, both, key, w, FromSupporter(sel.wallet, sel.startDate, sel.asset, w));
    }
    forall t
      ensures t in Filter(own, named) ==> key(t) != ""
    {
      FilterMember(own, named, t);
    }
    NoGroupWithoutName(Filter(own, named), key);
  }

  lemma NoGroupWithoutName(rows: seq<Row>, key: Row -> string)
    requires forall t | t in rows :: key(t) != ""
    ensures forall i | 0 <= i < |GroupBy(rows, key, Amount())| :: GroupBy(rows, key, Amount())[i].key != ""
  {
    var groups := GroupBy(rows, key, Amount());
    GroupsAddUp(rows, key, Amount());
    GroupsAreNotEmpty(rows, key, Amount());
    GroupIsFilteredSum(rows, key, Amount(), "", (t: Row) => false);
    forall i | 0 <= i < |groups|
      ensures groups[i].key != ""
    {
      RowOfOwnKey(groups, i);
      NothingKept(rows);
    }
  }

  lemma {:induction false} NothingKept(rows: seq<Row>)
    ensures Filter(rows, (t: Row) => false) == []
  {
    if rows != [] {
      NothingKept(rows[..|rows| - 1]);
    }
  }

  /** The top supporters: at most five different senders with a wallet, from the largest sum down, each
      with the number and the sum of the tips received from them; and whoever gave something and is
      not listed gave no more than any of five that are. */
  lemma TopSupportersExactly(tips: seq<Row>, wallet: string, since: Option<int>, asset: Option<string>)
    ensures var top := GetAnalytics(tips, Selection(wallet, since, asset)).topSupporters;
            && |top| <= 5 && DistinctKeys(top)
            && (forall i, j | 0 <= i < j < |top| :: top[i].total >= top[j].total)
            && (forall i | 0 <= i < |top| ::
                  var from := FromSupporter(wallet, since, asset, top[i].key);
                  && top[i].key != "" && top[i].count == HowMany(tips, from) > 0
                  && top[i].total == HowMuch(tips, from))
            && forall w | w != "" && HowMany(tips, FromSupporter(wallet, since, asset, w)) > 0 ::
                 || (exists i :: 0 <= i < |top| && top[i].key == w)
                 || (|top| == 5 && forall i | 0 <= i < 5 ::
                       top[i].total >= HowMuch(tips, FromSupporter(wallet, since, asset, w)))
  {
    var sel := Selection(wallet, since, asset);
    var groups := SupporterGroups(tips, sel);
    var all := SortBy(groups, ByTotal());
    SupportersExactly(tips, sel);
    SortKeepsRows(groups, ByTotal());
    SortInOrder(groups, ByTotal());
    var top := FirstFive(all);
    assert forall i | 0 <= i < |top| :: top[i] == all[i];
    forall i | 0 <= i < |all|
      ensures all[i].key != "" && all[i].count > 0 && RowFor(groups, all[i].key) == all[i]
    {
      assert all[i] in all && all[i] in groups;
      RowOfOwnKey(all, i);
    }
    forall i, j | 0 <= i < j < |all|
      ensures all[i].total >= all[j].total
    {
      assert ByTotal()(all[i], all[j]);
    }
    forall w | w != "" && HowMany(tips, FromSupporter(wallet, since, asset, w)) > 0
      ensures (exists i :: 0 <= i < |top| && top[i].key == w)
              || (|top| == 5 && forall i | 0 <= i < 5 ::
                    top[i].total >= HowMuch(tips, FromSupporter(wallet, since, asset, w)))
    {
      var k := RowForIsARow(all, w);
      if k < |top| {
        assert top[k].key == w;
      }
    }
  }
}
