/**
 * The analytics screen's local aggregation: a day-of-week histogram of views, the
 * five most viewed articles, and the defaulting of missing counts to zero.
 */
module AnalyticsDashboard {
  import opened Wrappers

  // ---------------------------------------------------------------------------
  // Views per day of the week

  /** A `getDay()` result: 0 for Sunday up to 6 for Saturday. */
  type DayIndex = d: int | 0 <= d < 7

  const DayNames: seq<string> := ["Sun", "Mon", "Tue", "Wed", "Thu", "Fri", "Sat"]

  datatype DayViews = DayViews(day: string, views: nat)

  /** How many of `days` are the day `d`. */
  function CountDay(days: seq<DayIndex>, d: DayIndex): nat
    decreases |days|
  {
    if days == [] then 0
    else CountDay(days[..|days| - 1], d) + (if days[|days| - 1] == d then 1 else 0)
  }

  /** The views of a week's seven buckets added up. */
  function WeekTotal(week: seq<DayViews>): nat
    requires |week| == 7
  {
    week[0].views + week[1].views + week[2].views + week[3].views
    + week[4].views + week[5].views + week[6].views
  }

  /** Every view falls on exactly one day of the week. */
  lemma {:induction false} CountDaysAddUp(days: seq<DayIndex>)
    ensures CountDay(days, 0) + CountDay(days, 1) + CountDay(days, 2) + CountDay(days, 3)
      + CountDay(days, 4) + CountDay(days, 5) + CountDay(days, 6) == |days|
    decreases |days|
  {
    if days != [] {
      CountDaysAddUp(days[..|days| - 1]);
    }
  }

  /**
   * `processWeeklyData`: seven buckets labelled Sun to Sat, bucket `d` holding the number of
   * views on day `d`; together they hold every view.
   */
  method ProcessWeeklyData(days: seq<DayIndex>) returns (weekly: seq<DayViews>)
    ensures |weekly| == 7
    ensures forall d: DayIndex :: weekly[d].day == DayNames[d] && weekly[d].views == CountDay(days, d)
    ensures WeekTotal(weekly) == |days|
  {
    var buckets := new DayViews[7](d requires 0 <= d < 7 => DayViews(DayNames[d], 0));
    var i := 0;
    while i < |days|
      invariant 0 <= i <= |days|
      invariant forall d: DayIndex :: buckets[d] == DayViews(DayNames[d], CountDay(days[..i], d))
    {
      var d := days[i];
      buckets[d] := buckets[d].(views := buckets[d].views + 1);
      assert days[..i + 1][..i] == days[..i];
      i := i + 1;
    }
    assert days[..i] == days;
    weekly := buckets[..];
    CountDaysAddUp(days);
  }

  // ---------------------------------------------------------------------------
  // The most viewed articles

  /** An analytics row of the top-articles query: the article id and the joined title, each possibly null. */
  datatype ViewRow = ViewRow(articleId: Option<string>, title: Option<string>)

  /** An entry of the top-articles list. */
  datatype TopArticle = TopArticle(title: string, views: nat)

  const TopCount := 5

  /** `item.article_id && item.articles?.title`: both present and non-empty. */
  predicate Counted(row: ViewRow) {
    row.articleId.Some? && row.articleId.value != "" && row.title.Some? && row.title.value != ""
  }

  predicate CountsFor(row: ViewRow, id: string) {
    Counted(row) && row.articleId.value == id
  }

  /** The number of counted rows for article `id`. */
  function Views(rows: seq<ViewRow>, id: string): nat
    decreases |rows|
  {
    if rows == [] then 0
    else Views(rows[..|rows| - 1], id) + (if CountsFor(rows[|rows| - 1], id) then 1 else 0)
  }

  /** The title of the first counted row for article `id`, if there is one. */
  function FirstTitle(rows: seq<ViewRow>, id: string): Option<string>
    decreases |rows|
  {
    if rows == [] then None
    else
      var earlier := FirstTitle(rows[..|rows| - 1], id);
      if earlier.Some? then earlier
      else if CountsFor(rows[|rows| - 1], id) then Some(rows[|rows| - 1].title.value)
      else None
  }

  /** An article has a first title exactly when it has a view, and that title is the one of its earliest counted row. */
  lemma {:induction false} FirstTitleIsFirst(rows: seq<ViewRow>, id: string)
    ensures FirstTitle(rows, id).Some? <==> Views(rows, id) > 0
    ensures FirstTitle(rows, id).Some? ==>
      exists j :: 0 <= j < |rows| && CountsFor(rows[j], id) && rows[j].title.value == FirstTitle(rows, id).value
        && forall k :: 0 <= k < j ==> !CountsFor(rows[k], id)
    ensures FirstTitle(rows, id).None? ==> forall k :: 0 <= k < |rows| ==> !CountsFor(rows[k], id)
    decreases |rows|
  {
    if rows != [] {
      var prefix := rows[..|rows| - 1];
      FirstTitleIsFirst(prefix, id);
      if FirstTitle(prefix, id).Some? {
        var j :| 0 <= j < |prefix| && CountsFor(prefix[j], id) && prefix[j].title.value == FirstTitle(prefix, id).value
          && forall k :: 0 <= k < j ==> !CountsFor(prefix[k], id);
        assert rows[j] == prefix[j];
      } else {
        assert forall k :: 0 <= k < |prefix| ==> rows[k] == prefix[k];
      }
    }
  }

  /** The position of the first counted row for article `id`, or `|rows|` when it has none. */
  function FirstIndex(rows: seq<ViewRow>, id: string): (r: nat)
    ensures r <= |rows| && (r < |rows| <==> Views(rows, id) > 0)
    decreases |rows|
  {
    if rows == [] then 0
    else
      var prefix := rows[..|rows| - 1];
      if Views(prefix, id) > 0 then FirstIndex(prefix, id)
      else if CountsFor(rows[|rows| - 1], id) then |rows| - 1
      else |rows|
  }

  /** `FirstIndex` names the earliest counted row of the article. */
  lemma {:induction false} FirstIndexIsFirst(rows: seq<ViewRow>, id: string)
    ensures FirstIndex(rows, id) < |rows| ==> CountsFor(rows[FirstIndex(rows, id)], id)
    ensures forall k :: 0 <= k < FirstIndex(rows, id) && k < |rows| ==> !CountsFor(rows[k], id)
    decreases |rows|
  {
    if rows != [] {
      var prefix := rows[..|rows| - 1];
      FirstIndexIsFirst(prefix, id);
      assert forall k :: 0 <= k < |prefix| ==> rows[k] == prefix[k];
      if Views(prefix, id) == 0 {
        assert FirstIndex(prefix, id) == |prefix|;
      }
    }
  }

  predicate Distinct(s: seq<string>) {
    forall i, j :: 0 <= i < j < |s| ==> s[i] != s[j]
  }

  /** `ids` ordered by non-increasing views. */
  predicate SortedByViews(ids: seq<string>, counts: map<string, TopArticle>)
    requires forall id :: id in ids ==> id in counts
  {
    forall i, j :: 0 <= i < j < |ids| ==> counts[ids[i]].views >= counts[ids[j]].views
  }

  /** `id` placed before the first entry with fewer views, keeping the order of equal ones. */
  function InsertByViews(id: string, ids: seq<string>, counts: map<string, TopArticle>): (r: seq<string>)
    requires id in counts && forall x :: x in ids ==> x in counts
    ensures multiset(r) == multiset(ids) + multiset{id}
    ensures forall x :: x in r <==> x == id || x in ids
    decreases |ids|
  {
    if ids == [] then [id]
    else if counts[id].views >= counts[ids[0]].views then [id] + ids
    else
      assert ids == [ids[0]] + ids[1..];
      [ids[0]] + InsertByViews(id, ids[1..], counts)
  }

  /** `sort((a, b) => b.views - a.views)`: a stable sort by non-increasing views, which only rearranges. */
  function SortByViews(ids: seq<string>, counts: map<string, TopArticle>): (r: seq<string>)
    requires forall x :: x in ids ==> x in counts
    ensures multiset(r) == multiset(ids)
    ensures forall x :: x in r <==> x in ids
    decreases |ids|
  {
    if ids == [] then []
    else
      var rest := SortByViews(ids[1..], counts);
      assert ids == [ids[0]] + ids[1..];
      InsertByViews(ids[0], rest, counts)
  }

  /** No id of `s` has more than `v` views. */
  predicate AtMostViews(v: int, s: seq<string>, counts: map<string, TopArticle>)
    requires forall x :: x in s ==> x in counts
  {
    forall x :: x in s ==> counts[x].views <= v
  }

  /** The tail of a sorted list is sorted, and no entry of it has more views than the head. */
  lemma SortedTail(ids: seq<string>, counts: map<string, TopArticle>)
    requires ids != [] && forall x :: x in ids ==> x in counts
    requires SortedByViews(ids, counts)
    ensures SortedByViews(ids[1..], counts)
    ensures AtMostViews(counts[ids[0]].views, ids[1..], counts)
  {
    forall x | x in ids[1..]
      ensures counts[x].views <= counts[ids[0]].views
    {
      var k :| 0 <= k < |ids[1..]| && ids[1..][k] == x;
      assert ids[k + 1] == x;
    }
  }

  /** An id with at least the views of every entry of a sorted list may go in front of it. */
  lemma ConsSorted(id: string, s: seq<string>, counts: map<string, TopArticle>)
    requires id in counts && forall x :: x in s ==> x in counts
    requires SortedByViews(s, counts) && AtMostViews(counts[id].views, s, counts)
    ensures SortedByViews([id] + s, counts)
  {
    var r := [id] + s;
    forall i, j | 0 <= i < j < |r|
      ensures counts[r[i]].views >= counts[r[j]].views
    {
      assert r[j] == s[j - 1];
      if i > 0 {
        assert r[i] == s[i - 1];
      } else {
        assert s[j - 1] in s;
      }
    }
  }

  lemma {:induction false} InsertByViewsSorted(id: string, ids: seq<string>, counts: map<string, TopArticle>)
    requires id in counts && forall x :: x in ids ==> x in counts
    requires SortedByViews(ids, counts)
    ensures SortedByViews(InsertByViews(id, ids, counts), counts)
    decreases |ids|
  {
    if ids != [] {
      SortedTail(ids, counts);
      assert ids == [ids[0]] + ids[1..];
      if counts[id].views >= counts[ids[0]].views {
        assert AtMostViews(counts[id].views, ids, counts);
        ConsSorted(id, ids, counts);
      } else {
        var rest := InsertByViews(id, ids[1..], counts);
        InsertByViewsSorted(id, ids[1..], counts);
        assert AtMostViews(counts[ids[0]].views, rest, counts);
        ConsSorted(ids[0], rest, counts);
      }
    }
  }

  /** The sort puts the ids in order of non-increasing views. */
  lemma {:induction false} SortByViewsSorted(ids: seq<string>, counts: map<string, TopArticle>)
    requires forall x :: x in ids ==> x in counts
    ensures SortedByViews(SortByViews(ids, counts), counts)
    decreases |ids|
  {
    if ids != [] {
      SortByViewsSorted(ids[1..], counts);
      InsertByViewsSorted(ids[0], SortByViews(ids[1..], counts), counts);
    }
  }

  /** A sequence with the same elements, counted with multiplicity, as a duplicate-free one is duplicate-free. */
  lemma {:induction false} DistinctPermutation(s: seq<string>, t: seq<string>)
    requires Distinct(s) && multiset(s) == multiset(t)
    ensures Distinct(t)
  {
    forall i, j | 0 <= i < j < |t|
      ensures t[i] != t[j]
    {
      if t[i] == t[j] {
        var x := t[i];
        assert t == t[..j] + [t[j]] + t[j + 1..];
        assert x in t[..j];
        assert multiset(t)[x] >= 2;
        DistinctOnce(s, x);
      }
    }
  }

  /** No element occurs twice in a duplicate-free sequence. */
  lemma {:induction false} DistinctOnce(s: seq<string>, x: string)
    requires Distinct(s)
    ensures multiset(s)[x] <= 1
    decreases |s|
  {
    if s != [] {
      var prefix := s[..|s| - 1];
      DistinctOnce(prefix, x);
      assert s == prefix + [s[|s| - 1]];
      if s[|s| - 1] == x {
        assert x !in prefix;
      }
    }
  }

  /** What one more row changes in the views, first titles and first positions. */
  lemma CountStep(seen: seq<ViewRow>, row: ViewRow)
    ensures forall id :: Views(seen + [row], id) == Views(seen, id) + (if CountsFor(row, id) then 1 else 0)
    ensures forall id ::
      FirstTitle(seen + [row], id) == if FirstTitle(seen, id).Some? then FirstTitle(seen, id)
      else if CountsFor(row, id) then Some(row.title.value) else None
    ensures forall id ::
      FirstIndex(seen + [row], id) == if Views(seen, id) > 0 then FirstIndex(seen, id)
      else if CountsFor(row, id) then |seen| else |seen| + 1
  {
    assert (seen + [row])[..|seen|] == seen;
  }

  /**
   * The state of the counting loop after the rows `seen`: one entry per article with a
   * counted row, holding its views and first title; `order` lists these articles once
   * each, in the order of their first counted rows.
   */
  ghost predicate CountedSoFar(seen: seq<ViewRow>, counts: map<string, TopArticle>, order: seq<string>) {
    && Distinct(order)
    && (forall id :: id in counts <==> id in order)
    && (forall id :: id in counts <==> Views(seen, id) > 0)
    && (forall id :: id in counts ==>
         FirstTitle(seen, id) == Some(counts[id].title) && counts[id].views == Views(seen, id))
    && (forall id :: id !in counts ==> FirstTitle(seen, id).None?)
    && (forall a, b :: 0 <= a < b < |order| ==> FirstIndex(seen, order[a]) < FirstIndex(seen, order[b]))
  }

  /** A row that does not count leaves the counting state as it is. */
  lemma CountSkip(seen: seq<ViewRow>, row: ViewRow, counts: map<string, TopArticle>, order: seq<string>)
    requires CountedSoFar(seen, counts, order) && !Counted(row)
    ensures CountedSoFar(seen + [row], counts, order)
  {
    CountStep(seen, row);
  }

  /** A further row of a counted article adds one to its views. */
  lemma CountAgain(seen: seq<ViewRow>, row: ViewRow, counts: map<string, TopArticle>, order: seq<string>)
    requires CountedSoFar(seen, counts, order) && Counted(row) && row.articleId.value in counts
    ensures var id := row.articleId.value;
      CountedSoFar(seen + [row], counts[id := counts[id].(views := counts[id].views + 1)], order)
  {
    CountStep(seen, row);
  }

  /** The first row of an article adds its entry, with one view and the row's title, at the end of the order. */
  lemma CountFirst(seen: seq<ViewRow>, row: ViewRow, counts: map<string, TopArticle>, order: seq<string>)
    requires CountedSoFar(seen, counts, order) && Counted(row) && row.articleId.value !in counts
    ensures var id := row.articleId.value;
      CountedSoFar(seen + [row], counts[id := TopArticle(row.title.value, 1)], order + [id])
  {
    CountStep(seen, row);
    var id := row.articleId.value;
    var order' := order + [id];
    forall a, b | 0 <= a < b < |order'|
      ensures FirstIndex(seen + [row], order'[a]) < FirstIndex(seen + [row], order'[b])
    {
      assert order'[a] == order[a] && order[a] in order;
      if b < |order| {
        assert order'[b] == order[b] && order[b] in order;
      }
    }
    assert Distinct(order') by {
      forall a | 0 <= a < |order|
        ensures order'[a] != id
      {
        assert order[a] in order;
      }
    }
  }

  /**
   * The counting loop of `processTopArticles`: one entry per article with a counted row,
   * holding the title of its first row and its number of rows; `order` lists the articles
   * in the order they were first seen, the order `Object.values` returns the entries in.
   */
  method CountViews(rows: seq<ViewRow>) returns (counts: map<string, TopArticle>, order: seq<string>)
    ensures Distinct(order)
    ensures forall id :: id in counts <==> id in order
    ensures forall id :: id in counts <==> Views(rows, id) > 0
    ensures forall id :: id in counts ==>
      FirstTitle(rows, id) == Some(counts[id].title) && counts[id].views == Views(rows, id)
    ensures forall a, b :: 0 <= a < b < |order| ==> FirstIndex(rows, order[a]) < FirstIndex(rows, order[b])
  {
    counts, order := map[], [];
    var i := 0;
    while i < |rows|
      invariant 0 <= i <= |rows|
      invariant CountedSoFar(rows[..i], counts, order)
    {
      var row := rows[i];
      assert rows[..i + 1] == rows[..i] + [row];
      if Counted(row) {
        var id := row.articleId.value;
        if id in counts {
          CountAgain(rows[..i], row, counts, order);
          counts := counts[id := counts[id].(views := counts[id].views + 1)];
        } else {
          CountFirst(rows[..i], row, counts, order);
          counts := counts[id := TopArticle(row.title.value, 1)];
          order := order + [id];
        }
      } else {
        CountSkip(rows[..i], row, counts, order);
      }
      i := i + 1;
    }
    assert rows[..i] == rows;
  }

  /**
   * `processTopArticles`: at most five entries, sorted by non-increasing views, one per
   * article; each entry counts the article's rows and carries the title of its first row;
   * an article that has views and is missing from the list has no more views than the last
   * entry of a full list. The ghost `ids` names the article of each entry.
   */
  method ProcessTopArticles(rows: seq<ViewRow>) returns (top: seq<TopArticle>, ghost ids: seq<string>)
    ensures |top| == |ids| <= TopCount
    ensures Distinct(ids)
    ensures forall j :: 0 <= j < |top| ==>
      Views(rows, ids[j]) > 0 && top[j].views == Views(rows, ids[j]) && FirstTitle(rows, ids[j]) == Some(top[j].title)
    ensures forall i, j :: 0 <= i < j < |top| ==> top[i].views >= top[j].views
    ensures forall id :: Views(rows, id) > 0 && id !in ids ==> |top| == TopCount && Views(rows, id) <= top[TopCount - 1].views
  {
    var counts, order := CountViews(rows);
    var sorted := SortByViews(order, counts);
    var k := if |sorted| < TopCount then |sorted| else TopCount;
    top := Entries(sorted[..k], counts);
    ids := sorted[..k];
    SortByViewsSorted(order, counts);
    DistinctPermutation(order, sorted);
    TopFacts(rows, counts, sorted, k, top, ids);
  }

  /** What the cut to the first `k` of the sorted list keeps of the counting loop's result. */
  lemma TopFacts(rows: seq<ViewRow>, counts: map<string, TopArticle>, sorted: seq<string>, k: nat, top: seq<TopArticle>, ids: seq<string>)
    requires forall id :: id in counts <==> id in sorted
    requires forall id :: id in counts <==> Views(rows, id) > 0
    requires forall id :: id in counts ==>
      FirstTitle(rows, id) == Some(counts[id].title) && counts[id].views == Views(rows, id)
    requires Distinct(sorted) && SortedByViews(sorted, counts)
    requires k == if |sorted| < TopCount then |sorted| else TopCount
    requires ids == sorted[..k] && top == Entries(ids, counts)
    ensures |top| == |ids| <= TopCount
    ensures Distinct(ids)
    ensures forall j :: 0 <= j < |top| ==>
      Views(rows, ids[j]) > 0 && top[j].views == Views(rows, ids[j]) && FirstTitle(rows, ids[j]) == Some(top[j].title)
    ensures forall i, j :: 0 <= i < j < |top| ==> top[i].views >= top[j].views
    ensures forall id :: Views(rows, id) > 0 && id !in ids ==> |top| == TopCount && Views(rows, id) <= top[TopCount - 1].views
  {
    PrefixOf(sorted, counts, k, ids);
    TopEntries(rows, counts, ids, top);
    TopKBound(rows, counts, sorted, k, ids, top);
  }

  /** The first `k` of a sorted duplicate-free list: duplicate-free, sorted, and stored in `counts`. */
  lemma PrefixOf(sorted: seq<string>, counts: map<string, TopArticle>, k: nat, ids: seq<string>)
    requires forall x :: x in sorted ==> x in counts
    requires Distinct(sorted) && SortedByViews(sorted, counts)
    requires k <= |sorted| && ids == sorted[..k]
    ensures forall x :: x in ids ==> x in counts
    ensures Distinct(ids)
    ensures SortedByViews(ids, counts)
  {
    assert forall j :: 0 <= j < k ==> ids[j] == sorted[j];
    forall x | x in ids
      ensures x in counts
    {
      var j :| 0 <= j < k && ids[j] == x;
      assert sorted[j] in sorted;
    }
  }

  /** Each kept entry holds its article's views and first title, in the order of the ids. */
  lemma TopEntries(rows: seq<ViewRow>, counts: map<string, TopArticle>, ids: seq<string>, top: seq<TopArticle>)
    requires forall id :: id in ids ==> id in counts
    requires SortedByViews(ids, counts)
    requires forall id :: id in counts ==> Views(rows, id) > 0
    requires forall id :: id in counts ==>
      FirstTitle(rows, id) == Some(counts[id].title) && counts[id].views == Views(rows, id)
    requires top == Entries(ids, counts)
    ensures forall j :: 0 <= j < |top| ==>
      Views(rows, ids[j]) > 0 && top[j].views == Views(rows, ids[j]) && FirstTitle(rows, ids[j]) == Some(top[j].title)
    ensures forall i, j :: 0 <= i < j < |top| ==> top[i].views >= top[j].views
  {
    forall j | 0 <= j < |ids|
      ensures Views(rows, ids[j]) > 0 && top[j].views == Views(rows, ids[j]) && FirstTitle(rows, ids[j]) == Some(top[j].title)
    {
      assert ids[j] in ids;
    }
  }

  /** The entries of `ids`, in order (`Object.values` restricted to the kept ids). */
  function Entries(ids: seq<string>, counts: map<string, TopArticle>): (r: seq<TopArticle>)
    requires forall x :: x in ids ==> x in counts
    ensures |r| == |ids| && forall j :: 0 <= j < |ids| ==> r[j] == counts[ids[j]]
    decreases |ids|
  {
    if ids == [] then [] else [counts[ids[0]]] + Entries(ids[1..], counts)
  }

  /** An article left out of the first `k` of the sorted list has no more views than its last entry. */
  lemma TopKBound(rows: seq<ViewRow>, counts: map<string, TopArticle>, sorted: seq<string>, k: nat, ids: seq<string>, top: seq<TopArticle>)
    requires forall id :: id in counts <==> id in sorted
    requires forall id :: id in counts <==> Views(rows, id) > 0
    requires forall id :: id in counts ==> counts[id].views == Views(rows, id)
    requires SortedByViews(sorted, counts)
    requires k == if |sorted| < TopCount then |sorted| else TopCount
    requires ids == sorted[..k] && top == Entries(ids, counts)
    ensures forall id :: Views(rows, id) > 0 && id !in ids ==> |top| == TopCount && Views(rows, id) <= top[TopCount - 1].views
  {
    forall id | Views(rows, id) > 0 && id !in ids
      ensures |top| == TopCount && Views(rows, id) <= top[TopCount - 1].views
    {
      var p :| 0 <= p < |sorted| && sorted[p] == id;
      assert forall j :: 0 <= j < k ==> ids[j] == sorted[j];
      assert k <= p;
    }
  }

  // ---------------------------------------------------------------------------
  // The dashboard state

  /** `count || 0`: a count the query did not return is shown as zero. */
  function CountOrZero(count: Option<nat>): nat {
    match count
    case Some(n) => n
    case None => 0
  }

  datatype Analytics = Analytics(
    totalViews: nat,
    todayViews: nat,
    weeklyViews: seq<DayViews>,
    topArticles: seq<TopArticle>,
    viewsByCategory: seq<TopArticle>)

  /**
   * The state `fetchAnalytics` sets from the four query results (each of which may be
   * null): missing counts are zero, missing row lists are empty, and the views by category
   * are always empty.
   */
  method SummarizeAnalytics(
    totalCount: Option<nat>, todayCount: Option<nat>,
    weeklyDays: Option<seq<DayIndex>>, topRows: Option<seq<ViewRow>>)
    returns (a: Analytics)
    ensures a.totalViews == (if totalCount.Some? then totalCount.value else 0)
    ensures a.todayViews == (if todayCount.Some? then todayCount.value else 0)
    ensures var days := if weeklyDays.Some? then weeklyDays.value else [];
      |a.weeklyViews| == 7 && WeekTotal(a.weeklyViews) == |days|
      && forall d: DayIndex :: a.weeklyViews[d] == DayViews(DayNames[d], CountDay(days, d))
    ensures |a.topArticles| <= TopCount
    ensures forall i, j :: 0 <= i < j < |a.topArticles| ==> a.topArticles[i].views >= a.topArticles[j].views
    ensures topRows.None? ==> a.topArticles == []
    ensures a.viewsByCategory == []
  {
    var days := if weeklyDays.Some? then weeklyDays.value else [];
    var weekly := ProcessWeeklyData(days);
    var rows := if topRows.Some? then topRows.value else [];
    var top, ids := ProcessTopArticles(rows);
    assert |top| == 0 || Views(rows, ids[0]) > 0;
    a := Analytics(CountOrZero(totalCount), CountOrZero(todayCount), weekly, top, []);
  }
}
