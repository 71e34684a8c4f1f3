/** Listing tips page by page, and the index of a tip in its creator's history. */
module TipQueries {
  import opened Options
  import TipTable

  type Row = TipTable.Row

  // ---------- Filters and pages ----------

  /** A date parameter that is present: a timestamp, or text that is no date. */
  datatype DateArg = BadDate | Instant(ms: int)

  datatype FilterOptions = FilterOptions(
    page: Option<int>, limit: Option<int>, startDate: Option<DateArg>, endDate: Option<DateArg>,
    asset: Option<string>, minAmount: Option<int>, maxAmount: Option<int>,
    sortBy: Option<string>, sortOrder: Option<string>)

  datatype Error =
    | BadPage | BadLimit | BadSortBy | BadSortOrder | InvalidDate | InvalidAsset | NegativeAmount

  /** Bounds that are None do not constrain. */
  datatype Where = Where(
    from: Option<int>, until: Option<int>, asset: Option<string>, least: Option<int>, most: Option<int>)

  datatype Query = Query(where: Where, sortBy: string, sortOrder: string, skip: int, take: int)

  /** `x || default`: zero counts as absent. */
  function NumberOr(x: Option<int>, default: int): int {
    if x.Some? && x.value != 0 then x.value else default
  }

  function ReadDate(d: Option<DateArg>): Result<Option<int>, Error> {
    match d
    case None => Good(None)
    case Some(BadDate) => Bad(InvalidDate)
    case Some(Instant(ms)) => Good(Some(ms))
  }

  function ReadAsset(a: Option<string>): Result<Option<string>, Error> {
    if !Given(a) then Good(None)
    else
      var upper := TipTable.Upper(a.value);
      if upper == "XLM" || upper == "USDC" then Good(Some(upper)) else Bad(InvalidAsset)
  }

  function BuildFilterQuery(o: FilterOptions): (r: Result<Query, Error>)
    ensures r.Good? ==> r.value.take == NumberOr(o.limit, 20) && 1 <= r.value.take <= 100
    ensures r.Good? ==> r.value.skip == (NumberOr(o.page, 1) - 1) * r.value.take && NumberOr(o.page, 1) >= 1
  {
    var page, limit := NumberOr(o.page, 1), NumberOr(o.limit, 20);
    var sortBy, sortOrder := TextOr(o.sortBy, "createdAt"), TextOr(o.sortOrder, "DESC");
    var from, until, asset := ReadDate(o.startDate), ReadDate(o.endDate), ReadAsset(o.asset);
    if page < 1 then Bad(BadPage)
    else if limit < 1 || limit > 100 then Bad(BadLimit)
    else if sortBy != "createdAt" && sortBy != "amount" then Bad(BadSortBy)
    else if sortOrder != "ASC" && sortOrder != "DESC" then Bad(BadSortOrder)
    else if from.Bad? then Bad(from.error)
    else if until.Bad? then Bad(until.error)
    else if asset.Bad? then Bad(asset.error)
    else if (o.minAmount.Some? && o.minAmount.value < 0) || (o.maxAmount.Some? && o.maxAmount.value < 0) then
      Bad(NegativeAmount)
    else
      var where := Where(from.value, until.value, asset.value, o.minAmount, o.maxAmount);
      Good(Query(where, sortBy, sortOrder, (page - 1) * limit, limit))
  }

  predicate Matches(w: Where, r: Row) {
    && (w.from.Some? ==> w.from.value <= r.createdAt)
    && (w.until.Some? ==> r.createdAt <= w.until.value)
    && (w.asset.Some? ==> TipTable.AssetName(r.tip.asset) == w.asset.value)
    && (w.least.Some? ==> w.least.value <= r.tip.amount)
    && (w.most.Some? ==> r.tip.amount <= w.most.value)
  }

  /** The rows of a listing: those of the caller (`scope`) that match, in the database's order. */
  function Filtered(ordered: seq<Row>, scope: Row -> bool, w: Where): seq<Row> {
    if ordered == [] then []
    else
      (if scope(ordered[0]) && Matches(w, ordered[0]) then [ordered[0]] else []) + Filtered(ordered[1..], scope, w)
  }

  /** A listing leaves out nothing that matches and adds nothing. */
  lemma {:induction false} FilteredExactly(ordered: seq<Row>, scope: Row -> bool, w: Where, r: Row)
    ensures r in Filtered(ordered, scope, w) <==> r in ordered && scope(r) && Matches(w, r)
  {
    if ordered != [] {
      FilteredExactly(ordered[1..], scope, w, r);
      assert r in ordered <==> r == ordered[0] || r in ordered[1..];
    }
  }

  /** `order[sortBy] = sortOrder`: a may stand before b. Rows that tie may stand either way. */
  predicate InSortOrder(sortBy: string, sortOrder: string, a: Row, b: Row) {
    var (x, y) := if sortBy == "amount" then (a.tip.amount, b.tip.amount) else (a.createdAt, b.createdAt);
    if sortOrder == "ASC" then x <= y else x >= y
  }

  ghost predicate SortedFor(rows: seq<Row>, sortBy: string, sortOrder: string) {
    forall i, j | 0 <= i < j < |rows| :: InSortOrder(sortBy, sortOrder, rows[i], rows[j])
  }

  /** A listing keeps the order of the rows it is taken from. */
  lemma {:induction false} FilteredSorted(
      ordered: seq<Row>, scope: Row -> bool, w: Where, sortBy: string, sortOrder: string)
    requires SortedFor(ordered, sortBy, sortOrder)
    ensures SortedFor(Filtered(ordered, scope, w), sortBy, sortOrder)
  {
    if ordered != [] {
      var rest := Filtered(ordered[1..], scope, w);
      FilteredSorted(ordered[1..], scope, w, sortBy, sortOrder);
      forall j | 0 <= j < |rest|
        ensures InSortOrder(sortBy, sortOrder, ordered[0], rest[j])
      {
        FilteredExactly(ordered[1..], scope, w, rest[j]);
        var k :| 0 <= k < |ordered[1..]| && ordered[1..][k] == rest[j];
        assert ordered[k + 1] == rest[j];
      }
    }
  }

  // ---------- What the options ask for ----------

  /** A text parameter that is absent, empty, or one of two values. */
  predicate OneOf(x: Option<string>, a: string, b: string) {
    TipTable.Absent(x) || x == Some(a) || x == Some(b)
  }

  predicate AsksAsset(o: FilterOptions, word: string) {
    o.asset.Some? && TipTable.Spells(o.asset.value, word)
  }

  /** Which listing requests are in order. */
  predicate ValidOptions(o: FilterOptions) {
    && (o.page.Some? ==> o.page.value >= 0) && (o.limit.Some? ==> 0 <= o.limit.value <= 100)
    && OneOf(o.sortBy, "createdAt", "amount") && OneOf(o.sortOrder, "ASC", "DESC")
    && o.startDate != Some(BadDate) && o.endDate != Some(BadDate)
    && (TipTable.Absent(o.asset) || AsksAsset(o, "xlm") || AsksAsset(o, "usdc"))
    && (o.minAmount.Some? ==> o.minAmount.value >= 0) && (o.maxAmount.Some? ==> o.maxAmount.value >= 0)
  }

  function PageAsked(o: FilterOptions): int { if o.page == None || o.page == Some(0) then 1 else o.page.value }

  function SizeAsked(o: FilterOptions): int { if o.limit == None || o.limit == Some(0) then 20 else o.limit.value }

  function SortAsked(o: FilterOptions): string {
    if TipTable.Absent(o.sortBy) then "createdAt" else o.sortBy.value
  }

  function OrderAsked(o: FilterOptions): string {
    if TipTable.Absent(o.sortOrder) then "DESC" else o.sortOrder.value
  }

  /** Which rows are asked for: both dates and both amounts bound inclusively, and the asset counts
      in any case. Absent bounds and an empty asset ask for everything. */
  predicate Asked(o: FilterOptions, r: Row) {
    && (o.startDate.Some? ==> o.startDate.value.Instant? && o.startDate.value.ms <= r.createdAt)
    && (o.endDate.Some? ==> o.endDate.value.Instant? && r.createdAt <= o.endDate.value.ms)
    && (TipTable.Absent(o.asset) || AsksAsset(o, if r.tip.asset.XLM? then "xlm" else "usdc"))
    && (o.minAmount.Some? ==> o.minAmount.value <= r.tip.amount)
    && (o.maxAmount.Some? ==> r.tip.amount <= o.maxAmount.value)
  }

  /** The rows asked for, in the order of the table. */
  function Wanted(ordered: seq<Row>, scope: Row -> bool, o: FilterOptions): seq<Row> {
    if ordered == [] then []
    else
      (if scope(ordered[0]) && Asked(o, ordered[0]) then [ordered[0]] else []) + Wanted(ordered[1..], scope, o)
  }

  /** A listing leaves out no row of the caller that is asked for and adds none. */
  lemma {:induction false} WantedExactly(ordered: seq<Row>, scope: Row -> bool, o: FilterOptions, r: Row)
    ensures r in Wanted(ordered, scope, o) <==> r in ordered && scope(r) && Asked(o, r)
  {
    if ordered != [] {
      WantedExactly(ordered[1..], scope, o, r);
      assert r in ordered <==> r == ordered[0] || r in ordered[1..];
    }
  }

  lemma AssetAsked(o: FilterOptions)
    ensures ReadAsset(o.asset).Good? <==> TipTable.Absent(o.asset) || AsksAsset(o, "xlm") || AsksAsset(o, "usdc")
    ensures ReadAsset(o.asset) == Good(Some("XLM")) <==> AsksAsset(o, "xlm")
    ensures ReadAsset(o.asset) == Good(Some("USDC")) <==> AsksAsset(o, "usdc")
    ensures ReadAsset(o.asset) == Good(None) <==> TipTable.Absent(o.asset)
  {
    if o.asset.Some? {
      TipTable.AssetSpelled(o.asset.value);
    }
  }

  /** Which listing requests are accepted, and how they are sorted. */
  lemma QueryAcceptedExactly(o: FilterOptions)
    ensures BuildFilterQuery(o).Good? <==> ValidOptions(o)
    ensures BuildFilterQuery(o).Good? ==>
              var q := BuildFilterQuery(o).value;
              && q.sortBy == SortAsked(o) && q.sortOrder == OrderAsked(o)
              && q.take == SizeAsked(o) && q.skip == (PageAsked(o) - 1) * SizeAsked(o)
  {
    AssetAsked(o);
  }

  /** What an accepted request selects. */
  lemma SelectionExactly(o: FilterOptions, r: Row)
    requires BuildFilterQuery(o).Good?
    ensures Matches(BuildFilterQuery(o).value.where, r) <==> Asked(o, r)
  {
    AssetAsked(o);
    assert "XLM" != "USDC" by { assert |"XLM"| != |"USDC"|; }
    assert BuildFilterQuery(o).value.where.asset == ReadAsset(o.asset).value;
  }

  lemma {:induction false} FilteredIsWanted(ordered: seq<Row>, scope: Row -> bool, o: FilterOptions)
    requires BuildFilterQuery(o).Good?
    ensures Filtered(ordered, scope, BuildFilterQuery(o).value.where) == Wanted(ordered, scope, o)
  {
    if ordered != [] {
      SelectionExactly(o, ordered[0]);
      FilteredIsWanted(ordered[1..], scope, o);
    }
  }

  lemma {:induction false} WantedAtPage(ordered: seq<Row>, scope: Row -> bool, o: FilterOptions, n: nat)
    ensures Wanted(ordered, scope, AtPage(o, n)) == Wanted(ordered, scope, o)
  {
    if ordered != [] {
      WantedAtPage(ordered[1..], scope, o, n);
    }
  }

  // ---------- Pages ----------

  function Slice(rows: seq<Row>, skip: nat, take: nat): seq<Row> {
    if skip >= |rows| then [] else if skip + take >= |rows| then rows[skip..] else rows[skip..skip + take]
  }

  datatype Page = Page(
    data: seq<Row>, total: nat, page: int, limit: int, totalPages: int, hasNextPage: bool, hasPreviousPage: bool)

  /** `Math.ceil(total / limit)` */
  function CeilDiv(total: nat, limit: nat): nat
    requires limit > 0
  {
    (total + limit - 1) / limit
  }

  function FormatPaginatedResult(data: seq<Row>, total: nat, page: int, limit: nat): Page
    requires limit > 0
  {
    var totalPages := CeilDiv(total, limit);
    Page(data, total, page, limit, totalPages, page < totalPages, page > 1)
  }

  /** One listing request against a table in a fixed order. */
  function ListTips(ordered: seq<Row>, scope: Row -> bool, o: FilterOptions): Result<Page, Error> {
    match BuildFilterQuery(o)
    case Bad(e) => Bad(e)
    case Good(q) =>
      var rows := Filtered(ordered, scope, q.where);
      var page := NumberOr(o.page, 1);
      assert q.skip >= 0 by { ProductNonNegative(page - 1, q.take); }
      Good(FormatPaginatedResult(Slice(rows, q.skip, q.take), |rows|, page, q.take))
  }

  lemma ProductNonNegative(a: nat, b: nat)
    ensures a * b >= 0
  {
  }

  lemma ProductOneLess(a: int, b: int)
    ensures a * b == (a - 1) * b + b
  {
  }

  function AtPage(o: FilterOptions, page: nat): FilterOptions { o.(page := Some(page)) }

  /** The data of pages 1..n one after another. */
  function PagesUpTo(ordered: seq<Row>, scope: Row -> bool, o: FilterOptions, n: nat): seq<Row> {
    if n == 0 then []
    else
      var r := ListTips(ordered, scope, AtPage(o, n));
      PagesUpTo(ordered, scope, o, n - 1) + if r.Good? then r.value.data else []
  }

  /** All the rows a listing ranges over. */
  function AllRows(ordered: seq<Row>, scope: Row -> bool, o: FilterOptions): seq<Row> {
    var q := BuildFilterQuery(AtPage(o, 1));
    if q.Good? then Filtered(ordered, scope, q.value.where) else []
  }

  lemma RowsAreWanted(ordered: seq<Row>, scope: Row -> bool, o: FilterOptions)
    requires BuildFilterQuery(AtPage(o, 1)).Good?
    ensures AllRows(ordered, scope, o) == Wanted(ordered, scope, o)
  {
    FilteredIsWanted(ordered, scope, AtPage(o, 1));
    WantedAtPage(ordered, scope, o, 1);
  }

  /** Page n of a valid listing is the n-th stretch of its rows. */
  lemma PageIsSlice(ordered: seq<Row>, scope: Row -> bool, o: FilterOptions, n: nat)
    requires n >= 1 && BuildFilterQuery(AtPage(o, 1)).Good?
    ensures var rows, limit := AllRows(ordered, scope, o), NumberOr(o.limit, 20);
            && (n - 1) * limit >= 0 && limit >= 1
            && ListTips(ordered, scope, AtPage(o, n))
               == Good(FormatPaginatedResult(Slice(rows, (n - 1) * limit, limit), |rows|, n, limit))
  {
    ProductNonNegative(n - 1, NumberOr(o.limit, 20));
  }

  lemma CeilDivBounds(total: nat, limit: nat)
    requires limit > 0
    ensures total <= CeilDiv(total, limit) * limit < total + limit
  {
    var n := total + limit - 1;
    assert n == limit * (n / limit) + n % limit;
    assert CeilDiv(total, limit) * limit == limit * (n / limit);
  }

  lemma {:induction false} ProductStep(a: nat, b: nat, limit: nat)
    requires a < b
    ensures a * limit + limit <= b * limit
    decreases b
  {
    assert b * limit == (b - 1) * limit + limit;
    if a < b - 1 {
      ProductStep(a, b - 1, limit);
    }
  }

  function Prefix(rows: seq<Row>, n: nat): seq<Row> {
    if n <= |rows| then rows[..n] else rows
  }

  lemma PrefixThenSlice(rows: seq<Row>, skip: nat, take: nat)
    ensures Prefix(rows, skip) + Slice(rows, skip, take) == Prefix(rows, skip + take)
  {
  }

  lemma OnePageMore(ordered: seq<Row>, scope: Row -> bool, o: FilterOptions, n: nat, skip: nat)
    requires n >= 1 && BuildFilterQuery(AtPage(o, 1)).Good? && skip == (n - 1) * NumberOr(o.limit, 20)
    requires PagesUpTo(ordered, scope, o, n - 1) == Prefix(AllRows(ordered, scope, o), skip)
    ensures NumberOr(o.limit, 20) >= 1
    ensures PagesUpTo(ordered, scope, o, n) == Prefix(AllRows(ordered, scope, o), skip + NumberOr(o.limit, 20))
  {
    PageIsSlice(ordered, scope, o, n);
    PrefixThenSlice(AllRows(ordered, scope, o), skip, NumberOr(o.limit, 20));
  }

  lemma {:induction false} PagesAreAPrefix(ordered: seq<Row>, scope: Row -> bool, o: FilterOptions, n: nat)
    requires BuildFilterQuery(AtPage(o, 1)).Good?
    ensures n * NumberOr(o.limit, 20) >= 0
    ensures PagesUpTo(ordered, scope, o, n) == Prefix(AllRows(ordered, scope, o), n * NumberOr(o.limit, 20))
  {
    var limit := NumberOr(o.limit, 20);
    ProductNonNegative(n, limit);
    if n > 0 {
      PagesAreAPrefix(ordered, scope, o, n - 1);
      ProductOneLess(n, limit);
      OnePageMore(ordered, scope, o, n, (n - 1) * limit);
    }
  }

  /** Pagination partitions the result: for a fixed order of the table, the pages 1..totalPages of
      a valid listing hold every matching row exactly once and in order. When the table comes in the
      order that was asked for, so do the pages. */
  lemma PagesPartition(ordered: seq<Row>, scope: Row -> bool, o: FilterOptions)
    requires BuildFilterQuery(AtPage(o, 1)).Good?
    ensures var first := ListTips(ordered, scope, AtPage(o, 1));
            && first.Good? && first.value.totalPages >= 0
            && PagesUpTo(ordered, scope, o, first.value.totalPages) == Wanted(ordered, scope, o)
    ensures SortedFor(ordered, SortAsked(o), OrderAsked(o)) ==>
              SortedFor(Wanted(ordered, scope, o), SortAsked(o), OrderAsked(o))
  {
    RowsAreWanted(ordered, scope, o);
    QueryAcceptedExactly(AtPage(o, 1));
    PageIsSlice(ordered, scope, o, 1);
    var n := ListTips(ordered, scope, AtPage(o, 1)).value.totalPages;
    PagesAreAPrefix(ordered, scope, o, n);
    CeilDivBounds(|AllRows(ordered, scope, o)|, NumberOr(o.limit, 20));
    var q := BuildFilterQuery(AtPage(o, 1)).value;
    if SortedFor(ordered, q.sortBy, q.sortOrder) {
      FilteredSorted(ordered, scope, q.where, q.sortBy, q.sortOrder);
    }
  }

  /** `hasNextPage` says exactly that a row lies beyond the page, every later page is empty, and
      every page up to the last is full except perhaps the last. */
  lemma PageFlagsAreExact(ordered: seq<Row>, scope: Row -> bool, o: FilterOptions, n: nat)
    requires n >= 1 && BuildFilterQuery(AtPage(o, 1)).Good?
    ensures var rows, limit := Wanted(ordered, scope, o), SizeAsked(o);
            var p := ListTips(ordered, scope, AtPage(o, n)).value;
            && (p.hasNextPage <==> |rows| > n * limit)
            && (p.hasPreviousPage <==> n > 1)
            && (n > p.totalPages ==> p.data == [])
            && (n < p.totalPages ==> |p.data| == limit)
            && p.total == |rows|
  {
    var rows, limit := AllRows(ordered, scope, o), NumberOr(o.limit, 20);
    RowsAreWanted(ordered, scope, o);
    PageIsSlice(ordered, scope, o, n);
    CeilDivBounds(|rows|, limit);
    var pages := CeilDiv(|rows|, limit);
    assert n * limit == (n - 1) * limit + limit;
    if n < pages {
      ProductStep(n, pages, limit);
    } else if pages < n {
      ProductStep(pages, n, limit);
    }
  }

  function Least(a: int, b: int): int { if a < b then a else b }

  /** What one listing request answers, field by field: it is accepted if and only if its options are
      valid; the data are the rows asked for from position (page - 1) * limit on, at most `limit` of
      them; `total` counts all of them and `totalPages` the pages they fill; and the two flags say
      whether rows lie beyond the page and whether a page lies before it. */
  lemma ListingExactly(ordered: seq<Row>, scope: Row -> bool, o: FilterOptions)
    ensures var r := ListTips(ordered, scope, o);
            && (r.Good? <==> ValidOptions(o))
            && (r.Good? ==>
                  var (p, rows) := (r.value, Wanted(ordered, scope, o));
                  var (page, limit) := (PageAsked(o), SizeAsked(o));
                  && p.page == page >= 1 && p.limit == limit >= 1 && p.total == |rows|
                  && 0 <= (page - 1) * limit <= page * limit
                  && p.data == rows[Least((page - 1) * limit, |rows|)..Least(page * limit, |rows|)]
                  && |rows| <= p.totalPages * limit < |rows| + limit
                  && (p.hasNextPage <==> page * limit < |rows|) && (p.hasPreviousPage <==> page > 1))
  {
    QueryAcceptedExactly(o);
    if ValidOptions(o) {
      var rows, page, limit := Wanted(ordered, scope, o), PageAsked(o), SizeAsked(o);
      PageFitsOptions(o);
      ListingIsPage(ordered, scope, o, rows, page, limit);
      SliceIsStretch(rows, page, limit);
      PagesFill(|rows|, page, limit);
    }
  }

  lemma ListingIsPage(
      ordered: seq<Row>, scope: Row -> bool, o: FilterOptions, rows: seq<Row>, page: int, limit: int)
    requires ValidOptions(o) && rows == Wanted(ordered, scope, o) && page == PageAsked(o) && limit == SizeAsked(o)
    ensures page >= 1 && limit >= 1 && (page - 1) * limit >= 0
    ensures ListTips(ordered, scope, o)
         == Good(FormatPaginatedResult(Slice(rows, (page - 1) * limit, limit), |rows|, page, limit))
  {
    QueryAcceptedExactly(o);
    FilteredIsWanted(ordered, scope, o);
    PageFitsOptions(o);
    ProductNonNegative(page - 1, limit);
  }

  lemma PagesFill(total: nat, page: int, limit: int)
    requires page >= 1 && limit >= 1
    ensures total <= CeilDiv(total, limit) * limit < total + limit
    ensures page < CeilDiv(total, limit) <==> page * limit < total
  {
    CeilDivBounds(total, limit);
    var pages := CeilDiv(total, limit);
    if page < pages {
      ProductStep(page, pages, limit);
    } else if pages < page {
      ProductStep(pages, page, limit);
    }
  }

  lemma PageFitsOptions(o: FilterOptions)
    requires ValidOptions(o)
    ensures PageAsked(o) == NumberOr(o.page, 1) >= 1 && SizeAsked(o) == NumberOr(o.limit, 20) >= 1
  {
  }

  lemma SliceIsStretch(rows: seq<Row>, page: int, limit: int)
    requires page >= 1 && limit >= 1
    ensures 0 <= (page - 1) * limit <= page * limit
    ensures Slice(rows, (page - 1) * limit, limit)
         == rows[Least((page - 1) * limit, |rows|)..Least(page * limit, |rows|)]
  {
    ProductNonNegative(page - 1, limit);
    ProductOneLess(page, limit);
  }

  // ---------- The index of a tip ----------

  /** The order of the query: by creation time, then id. */
  predicate Before(a: Row, b: Row) {
    a.createdAt < b.createdAt || (a.createdAt == b.createdAt && a.id < b.id)
  }

  function InsertRow(sorted: seq<Row>, r: Row): (s: seq<Row>)
    ensures |s| == |sorted| + 1
  {
    if sorted == [] then [r]
    else if Before(r, sorted[0]) then [r] + sorted
    else [sorted[0]] + InsertRow(sorted[1..], r)
  }

  /** A creator's tips in the order of the query. */
  function CreatorTips(table: seq<Row>, creatorId: string): seq<Row> {
    if table == [] then []
    else
      var rest := CreatorTips(table[..|table| - 1], creatorId);
      if table[|table| - 1].tip.creatorId == creatorId then InsertRow(rest, table[|table| - 1]) else rest
  }

  /** `findIndex` by id. */
  function IndexOfId(rows: seq<Row>, id: nat): int {
    if rows == [] then -1
    else if rows[0].id == id then 0
    else
      var i := IndexOfId(rows[1..], id);
      if i == -1 then -1 else i + 1
  }

  function GetCreatorTipIndex(table: seq<Row>, t: Row): int {
    IndexOfId(CreatorTips(table, t.tip.creatorId), t.id)
  }

  /** How many of the creator's tips come before t. */
  function Rank(table: seq<Row>, t: Row): nat {
    if table == [] then 0
    else
      var last := table[|table| - 1];
      var earlier := last.createdAt < t.createdAt || (last.createdAt == t.createdAt && last.id < t.id);
      Rank(table[..|table| - 1], t) + if last.tip.creatorId == t.tip.creatorId && earlier then 1 else 0
  }

  ghost predicate DistinctIds(table: seq<Row>) {
    forall i, j | 0 <= i < j < |table| :: table[i].id != table[j].id
  }

  ghost predicate SortedRows(rows: seq<Row>) {
    forall i, j | 0 <= i < j < |rows| :: Before(rows[i], rows[j])
  }

  lemma {:induction false} InsertRowSorted(sorted: seq<Row>, r: Row)
    requires SortedRows(sorted) && forall i | 0 <= i < |sorted| :: sorted[i].id != r.id
    ensures SortedRows(InsertRow(sorted, r))
    ensures forall x :: x in InsertRow(sorted, r) <==> x in sorted || x == r
  {
    if sorted != [] && !Before(r, sorted[0]) {
      InsertRowSorted(sorted[1..], r);
      assert sorted == [sorted[0]] + sorted[1..];
      var rest := InsertRow(sorted[1..], r);
      forall j | 0 <= j < |rest|
        ensures Before(sorted[0], rest[j])
      {
        assert rest[j] in rest;
      }
    }
  }

  /** The query's answer is a sorted list of exactly the creator's rows. */
  lemma {:induction false} CreatorTipsSorted(table: seq<Row>, creatorId: string)
    requires DistinctIds(table)
    ensures SortedRows(CreatorTips(table, creatorId))
    ensures forall x :: x in CreatorTips(table, creatorId) <==> x in table && x.tip.creatorId == creatorId
  {
    if table != [] {
      var before, last := table[..|table| - 1], table[|table| - 1];
      CreatorTipsSorted(before, creatorId);
      assert forall x :: x in table <==> x in before || x == last;
      forall x | x in before
        ensures x.id != last.id
      {
        var i :| 0 <= i < |before| && before[i] == x;
        assert table[i] == x;
      }
      if last.tip.creatorId == creatorId {
        InsertRowSorted(CreatorTips(before, creatorId), last);
      }
    }
  }

  /** How many rows of a list come before t. */
  function CountBefore(rows: seq<Row>, t: Row): nat {
    if rows == [] then 0 else (if Before(rows[0], t) then 1 else 0) + CountBefore(rows[1..], t)
  }

  lemma {:induction false} InsertCounts(sorted: seq<Row>, r: Row, t: Row)
    ensures CountBefore(InsertRow(sorted, r), t) == CountBefore(sorted, t) + if Before(r, t) then 1 else 0
  {
    if sorted != [] && !Before(r, sorted[0]) {
      InsertCounts(sorted[1..], r, t);
    } else {
      assert ([r] + sorted)[1..] == sorted;
    }
  }

  lemma {:induction false} RankIsCount(table: seq<Row>, t: Row)
    ensures Rank(table, t) == CountBefore(CreatorTips(table, t.tip.creatorId), t)
  {
    if table != [] {
      var before, last := table[..|table| - 1], table[|table| - 1];
      RankIsCount(before, t);
      if last.tip.creatorId == t.tip.creatorId {
        InsertCounts(CreatorTips(before, t.tip.creatorId), last, t);
      }
    }
  }

  lemma {:induction false} NoneBefore(rows: seq<Row>, t: Row)
    requires forall i | 0 <= i < |rows| :: !Before(rows[i], t)
    ensures CountBefore(rows, t) == 0
  {
    if rows != [] {
      NoneBefore(rows[1..], t);
    }
  }

  lemma {:induction false} PositionIsCount(rows: seq<Row>, k: nat)
    requires SortedRows(rows) && k < |rows|
    ensures CountBefore(rows, rows[k]) == k && IndexOfId(rows, rows[k].id) <= k
    ensures (forall i, j | 0 <= i < j < |rows| :: rows[i].id != rows[j].id) ==> IndexOfId(rows, rows[k].id) == k
  {
    if k == 0 {
      NoneBefore(rows[1..], rows[0]);
    } else {
      PositionIsCount(rows[1..], k - 1);
    }
  }

  lemma CreatorTipsDistinct(table: seq<Row>, creatorId: string)
    requires DistinctIds(table)
    ensures DistinctIds(CreatorTips(table, creatorId))
  {
    CreatorTipsSorted(table, creatorId);
    var rows := CreatorTips(table, creatorId);
    forall i, j | 0 <= i < j < |rows|
      ensures rows[i].id != rows[j].id
    {
      assert rows[i] in rows && rows[j] in rows && Before(rows[i], rows[j]);
      var a :| 0 <= a < |table| && table[a] == rows[i];
      var b :| 0 <= b < |table| && table[b] == rows[j];
      assert a != b;
    }
  }

  /** The index of a stored tip is its rank: the number of its creator's tips before it. */
  lemma IndexIsRank(table: seq<Row>, t: Row)
    requires DistinctIds(table) && t in table
    ensures GetCreatorTipIndex(table, t) == Rank(table, t)
    ensures 0 <= Rank(table, t) < |CreatorTips(table, t.tip.creatorId)|
    ensures CreatorTips(table, t.tip.creatorId)[Rank(table, t)] == t
  {
    var rows := CreatorTips(table, t.tip.creatorId);
    CreatorTipsSorted(table, t.tip.creatorId);
    CreatorTipsDistinct(table, t.tip.creatorId);
    var k :| 0 <= k < |rows| && rows[k] == t;
    PositionIsCount(rows, k);
    RankIsCount(table, t);
  }

  /** The index is a bijection between a creator's n tips and 0..n-1. */
  lemma IndexIsBijection(table: seq<Row>, creatorId: string, k: nat)
    requires DistinctIds(table) && k < |CreatorTips(table, creatorId)|
    ensures exists t :: t in table && t.tip.creatorId == creatorId && GetCreatorTipIndex(table, t) == k
    ensures forall t, u | t in table && u in table && t.tip.creatorId == u.tip.creatorId == creatorId
                          && GetCreatorTipIndex(table, t) == GetCreatorTipIndex(table, u) :: t == u
  {
    var rows := CreatorTips(table, creatorId);
    CreatorTipsSorted(table, creatorId);
    CreatorTipsDistinct(table, creatorId);
    PositionIsCount(rows, k);
    assert rows[k] in rows && GetCreatorTipIndex(table, rows[k]) == k;
    forall t, u | t in table && u in table && t.tip.creatorId == u.tip.creatorId == creatorId
                  && GetCreatorTipIndex(table, t) == GetCreatorTipIndex(table, u)
      ensures t == u
    {
      IndexIsRank(table, t);
      IndexIsRank(table, u);
    }
  }

  lemma {:induction false} LaterTipsDoNotCount(table: seq<Row>, more: seq<Row>, t: Row)
    requires forall u | u in more && u.tip.creatorId == t.tip.creatorId :: u.createdAt > t.createdAt
    ensures Rank(table + more, t) == Rank(table, t)
  {
    if more == [] {
      assert table + more == table;
    } else {
      var n := |more| - 1;
      LaterTipsDoNotCount(table, more[..n], t);
      assert (table + more)[..|table + more| - 1] == table + more[..n];
      assert more[n] in more;
    }
  }

  /** Tips created strictly later never change the index of a tip. */
  lemma IndexIsStable(table: seq<Row>, more: seq<Row>, t: Row)
    requires DistinctIds(table + more) && t in table
    requires forall u | u in more && u.tip.creatorId == t.tip.creatorId :: u.createdAt > t.createdAt
    ensures GetCreatorTipIndex(table + more, t) == GetCreatorTipIndex(table, t)
  {
    assert forall i | 0 <= i < |table| :: (table + more)[i] == table[i];
    assert t in table + more;
    IndexIsRank(table, t);
    IndexIsRank(table + more, t);
    LaterTipsDoNotCount(table, more, t);
  }
}
