/**
 * The computations behind `GET /api/analytics/<code>` in
 * `app/routes.py`: normalising the paging arguments, cutting one page out
 * of the newest-first click list, counting pages, and the per-day click
 * counts limited to the 30 most recent days. The clicks given to these
 * functions are those of one URL, in insertion order.
 */
module Analytics {
  import opened Wrappers
  import opened Seqs
  import opened Models

  const DefaultPage: nat := 1
  const DefaultPerPage: nat := 20
  const MaxPerPage: nat := 100
  const DailyRowLimit: nat := 30
  const SecondsPerDay: nat := 86400

  /** The `page` argument (`None` when absent or not an integer). A page
      below one becomes the first page, as `paginate(error_out=False)`
      does. */
  function Page(requested: Option<int>): (p: nat)
    ensures p >= 1
    ensures requested.Some? && requested.value >= 1 ==> p == requested.value
    ensures requested.None? || requested.value < 1 ==> p == DefaultPage
  {
    var p := requested.GetOr(DefaultPage);
    if p < 1 then DefaultPage else p
  }

  /** The `per_page` argument, first capped at 100 by the route, then
      replaced by 20 when below one by `paginate(error_out=False)`. */
  function PerPage(requested: Option<int>): (n: nat)
    ensures 1 <= n <= MaxPerPage
    ensures requested.Some? && 1 <= requested.value <= MaxPerPage ==> n == requested.value
    ensures requested.Some? && requested.value > MaxPerPage ==> n == MaxPerPage
    ensures requested.None? || requested.value < 1 ==> n == DefaultPerPage
  {
    var r := requested.GetOr(DefaultPerPage);
    var capped := if r < MaxPerPage then r else MaxPerPage;
    if capped < 1 then DefaultPerPage else capped
  }

  /** Normalised arguments are fixed points: asking again for the page and
      size that were granted grants the same. */
  lemma PagingIdempotent(page: Option<int>, perPage: Option<int>)
    ensures Page(Some(Page(page))) == Page(page)
    ensures PerPage(Some(PerPage(perPage))) == PerPage(perPage)
  {
  }

  /** How many items the pages before `page` hold. */
  function Skipped(page: nat, perPage: nat): nat
    requires page >= 1
  {
    (page - 1) * perPage
  }

  /** `paginate(...).items`: the `page`-th run of `perPage` items. */
  function Slice<T>(items: seq<T>, page: nat, perPage: nat): (r: seq<T>)
    requires page >= 1 && perPage >= 1
    ensures |r| <= perPage
    ensures forall k :: 0 <= k < |r| ==> Skipped(page, perPage) + k < |items| && r[k] == items[Skipped(page, perPage) + k]
    ensures |r| == perPage || Skipped(page, perPage) + |r| >= |items|
  {
    var start := Skipped(page, perPage);
    if start >= |items| then []
    else if start + perPage <= |items| then items[start..start + perPage]
    else items[start..]
  }

  /** `paginate(...).pages`: zero for no items, else the ceiling of
      `total / perPage`. */
  function PageCount(total: nat, perPage: nat): (n: nat)
    requires perPage >= 1
    ensures total == 0 <==> n == 0
    ensures total > 0 ==> (n - 1) * perPage < total <= n * perPage
  {
    if total == 0 then 0
    else
      var n := (total + perPage - 1) / perPage;
      assert n * perPage <= total + perPage - 1 < (n + 1) * perPage;
      n
  }

  /** Every item sits on exactly one page, at the position its index
      gives, and that page is within the page count. */
  lemma ItemOnItsPage<T>(items: seq<T>, perPage: nat, k: nat)
    requires perPage >= 1 && k < |items|
    ensures 1 <= k / perPage + 1 <= PageCount(|items|, perPage)
    ensures |Slice(items, k / perPage + 1, perPage)| > k % perPage
    ensures Slice(items, k / perPage + 1, perPage)[k % perPage] == items[k]
  {
    DivMod(k, perPage);
    PageWithin(|items|, perPage, k / perPage, k % perPage);
    SliceAt(items, perPage, k / perPage, k % perPage);
  }

  /** The page of an item exists. */
  lemma PageWithin(total: nat, perPage: nat, p: nat, q: nat)
    requires perPage >= 1 && p * perPage + q < total
    ensures p + 1 <= PageCount(total, perPage)
  {
    var n := PageCount(total, perPage);
    if n < p + 1 {
      MulMonotone(n, p, perPage);
      assert false;
    }
  }

  /** Position `q` of page `p + 1` is item `p * perPage + q`. */
  lemma SliceAt<T>(items: seq<T>, perPage: nat, p: nat, q: nat)
    requires q < perPage && p * perPage + q < |items|
    ensures |Slice(items, p + 1, perPage)| > q
    ensures Slice(items, p + 1, perPage)[q] == items[p * perPage + q]
  {
    assert Skipped(p + 1, perPage) == p * perPage;
  }

  lemma DivMod(k: nat, m: nat)
    requires m >= 1
    ensures (k / m) * m + k % m == k && k % m < m
  {
  }

  /** Multiplying by a positive factor keeps the order of the bounds. */
  lemma MulMonotone(a: nat, b: nat, m: nat)
    requires a <= b
    ensures a * m <= b * m
  {
    var d := b - a;
    assert b * m == a * m + d * m;
  }

  /** A page holds items exactly when its number is at most the count. */
  lemma PageNonEmptyIff<T>(items: seq<T>, page: nat, perPage: nat)
    requires page >= 1 && perPage >= 1
    ensures Slice(items, page, perPage) != [] <==> page <= PageCount(|items|, perPage)
  {
    var n := PageCount(|items|, perPage);
    if page <= n {
      MulMonotone(page - 1, n - 1, perPage);
    } else {
      MulMonotone(n, page - 1, perPage);
    }
  }

  /** The calendar day of an instant: `date()` of a time in seconds. */
  function Day(t: int): int {
    t / SecondsPerDay
  }

  /** How many of the clicks fell on the day. */
  function CountOn(cs: seq<ClickLog>, day: int): (n: nat)
    ensures n <= |cs|
    decreases |cs|
  {
    if |cs| == 0 then 0
    else (if Day(cs[0].clickedAt) == day then 1 else 0) + CountOn(cs[1..], day)
  }

  /** A day counts clicks exactly when some click fell on it: one
      direction finds the click, the other counts it. */
  lemma {:induction false} CountOnWitness(cs: seq<ClickLog>, day: int) returns (k: nat)
    requires CountOn(cs, day) > 0
    ensures k < |cs| && Day(cs[k].clickedAt) == day
    decreases |cs|
  {
    if Day(cs[0].clickedAt) == day {
      k := 0;
    } else {
      var j := CountOnWitness(cs[1..], day);
      k := j + 1;
    }
  }

  lemma {:induction false} CountOnCounts(cs: seq<ClickLog>, k: nat)
    requires k < |cs|
    ensures CountOn(cs, Day(cs[k].clickedAt)) > 0
    decreases |cs|
  {
    if k > 0 && Day(cs[0].clickedAt) != Day(cs[k].clickedAt) {
      assert cs[1..][k - 1] == cs[k];
      CountOnCounts(cs[1..], k - 1);
    }
  }

  /** The most recent day with a click. */
  function LatestDay(cs: seq<ClickLog>): (d: int)
    requires |cs| > 0
    ensures CountOn(cs, d) > 0
    ensures forall k :: 0 <= k < |cs| ==> Day(cs[k].clickedAt) <= d
    decreases |cs|
  {
    var here := Day(cs[0].clickedAt);
    if |cs| == 1 then
      CountOnCounts(cs, 0);
      here
    else
      var later := LatestDay(cs[1..]);
      assert forall k :: 1 <= k < |cs| ==> cs[k] == cs[1..][k - 1];
      if here >= later then
        CountOnCounts(cs, 0);
        here
      else later
  }

  /** The clicks of the days before `d`. */
  function Before(cs: seq<ClickLog>, d: int): (r: seq<ClickLog>)
    ensures |r| <= |cs|
    ensures CountOn(cs, d) > 0 ==> |r| < |cs|
    ensures forall e :: CountOn(r, e) == if e < d then CountOn(cs, e) else 0
    decreases |cs|
  {
    if |cs| == 0 then []
    else
      var rest := Before(cs[1..], d);
      if Day(cs[0].clickedAt) < d then
        var r := [cs[0]] + rest;
        assert r[1..] == rest;
        r
      else rest
  }

  /** One row of the daily breakdown. */
  datatype DayCount = DayCount(day: int, count: nat)

  /** Every row counts all the clicks of its day, and that day has some. */
  predicate CountsOfDays(cs: seq<ClickLog>, rows: seq<DayCount>) {
    forall r :: 0 <= r < |rows| ==> rows[r].count == CountOn(cs, rows[r].day) > 0
  }

  /** Newest day first, no day twice. */
  predicate Descending(rows: seq<DayCount>) {
    forall r, s :: 0 <= r < s < |rows| ==> rows[r].day > rows[s].day
  }

  /** The per-day click counts, newest day first, at most `limit` rows:
      the `GROUP BY date ORDER BY date DESC LIMIT` query. */
  function DailyCounts(cs: seq<ClickLog>, limit: nat): (rows: seq<DayCount>)
    ensures |rows| <= limit
    ensures |rows| == 0 <==> limit == 0 || |cs| == 0
    decreases |cs|
  {
    if limit == 0 || |cs| == 0 then []
    else
      var d := LatestDay(cs);
      [DayCount(d, CountOn(cs, d))] + DailyCounts(Before(cs, d), limit - 1)
  }

  /** Each row counts all the clicks of its day, which has some, and the
      rows run from the newest day back without repeating one. */
  lemma {:induction false} DailyCountsSound(cs: seq<ClickLog>, limit: nat)
    ensures CountsOfDays(cs, DailyCounts(cs, limit))
    ensures Descending(DailyCounts(cs, limit))
    decreases |cs|
  {
    if limit > 0 && |cs| > 0 {
      var d := LatestDay(cs);
      var rest := DailyCounts(Before(cs, d), limit - 1);
      assert DailyCounts(cs, limit) == [DayCount(d, CountOn(cs, d))] + rest;
      DailyCountsSound(Before(cs, d), limit - 1);
      DailyPrepend(cs, d, rest);
    }
  }

  /** The recursive step of `DailyCounts`: the latest day in front of the
      rows of the older clicks. */
  lemma DailyPrepend(cs: seq<ClickLog>, d: int, rest: seq<DayCount>)
    requires CountOn(cs, d) > 0
    requires CountsOfDays(Before(cs, d), rest)
    requires Descending(rest)
    ensures CountsOfDays(cs, [DayCount(d, CountOn(cs, d))] + rest)
    ensures Descending([DayCount(d, CountOn(cs, d))] + rest)
  {
    var older := Before(cs, d);
    forall r | 0 <= r < |rest|
      ensures rest[r].day < d && rest[r].count == CountOn(cs, rest[r].day)
    {
      assert CountOn(older, rest[r].day) > 0;
    }
    ConsCounts(cs, DayCount(d, CountOn(cs, d)), rest);
    ConsDescending(DayCount(d, CountOn(cs, d)), rest);
  }

  lemma ConsCounts(cs: seq<ClickLog>, x: DayCount, rest: seq<DayCount>)
    requires x.count == CountOn(cs, x.day) > 0
    requires forall r :: 0 <= r < |rest| ==> rest[r].count == CountOn(cs, rest[r].day) > 0
    ensures CountsOfDays(cs, [x] + rest)
  {
    var rows := [x] + rest;
    assert forall r :: 1 <= r < |rows| ==> rows[r] == rest[r - 1];
  }

  lemma ConsDescending(x: DayCount, rest: seq<DayCount>)
    requires Descending(rest)
    requires forall r :: 0 <= r < |rest| ==> rest[r].day < x.day
    ensures Descending([x] + rest)
  {
    var rows := [x] + rest;
    assert forall r :: 1 <= r < |rows| ==> rows[r] == rest[r - 1];
  }

  /** One step of `DailyCounts`: the latest day's row, then the rows of
      the older days. */
  lemma DailyStep(cs: seq<ClickLog>, limit: nat, l: nat)
    requires limit > 0 && |cs| > 0 && l == limit - 1
    ensures DailyCounts(cs, limit)
            == [DayCount(LatestDay(cs), CountOn(cs, LatestDay(cs)))] + DailyCounts(Before(cs, LatestDay(cs)), l)
  {
  }

  /** The bound that lets a day into the rows carries over to the rows
      after the head, when the day is older than the head. */
  lemma TailBound(head: DayCount, rest: seq<DayCount>, limit: nat, e: int)
    requires head.day > e
    requires var rows := [head] + rest;
             |rows| < limit || (|rows| > 0 && rows[|rows| - 1].day <= e)
    ensures |rest| < limit - 1 || (|rest| > 0 && rest[|rest| - 1].day <= e)
  {
    if |rest| > 0 {
      assert ([head] + rest)[|rest|] == rest[|rest| - 1];
    }
  }

  lemma InTail<T>(head: T, rest: seq<T>, x: T)
    requires x in rest
    ensures x in [head] + rest
  {
  }

  /** A day with clicks other than the latest is older, and the clicks
      before the latest day keep all of its clicks. */
  lemma OlderDay(cs: seq<ClickLog>, e: int)
    requires CountOn(cs, e) > 0 && e != LatestDay(cs)
    ensures e < LatestDay(cs)
    ensures CountOn(Before(cs, LatestDay(cs)), e) == CountOn(cs, e)
  {
    var k := CountOnWitness(cs, e);
  }

  /** No day is left out of the breakdown unless `limit` more recent days
      filled it: a day with clicks has its row whenever the rows are fewer
      than `limit` or the day is no older than the last row. */
  lemma {:induction false} DailyCountsComplete(cs: seq<ClickLog>, limit: nat, e: int)
    requires CountOn(cs, e) > 0
    requires var rows := DailyCounts(cs, limit);
             |rows| < limit || (|rows| > 0 && rows[|rows| - 1].day <= e)
    ensures DayCount(e, CountOn(cs, e)) in DailyCounts(cs, limit)
    decreases |cs|
  {
    var k := CountOnWitness(cs, e);
    var x := DayCount(e, CountOn(cs, e));
    var d := LatestDay(cs);
    var head := DayCount(d, CountOn(cs, d));
    var older := Before(cs, d);
    var l := limit - 1;
    var rest := DailyCounts(older, l);
    var rows := DailyCounts(cs, limit);
    DailyStep(cs, limit, l);
    if e == d {
      assert rows[0] == x;
    } else {
      OlderDay(cs, e);
      TailBound(head, rest, limit, e);
      assert x in rest by {
        DailyCountsComplete(older, l, e);
      }
      InTail(head, rest, x);
    }
  }

  /** What the analytics route returns next to the URL itself. */
  datatype Report = Report(
    url: UrlView,
    totalClicks: nat,
    daily: seq<DayCount>,
    recent: seq<ClickView>,
    page: nat,
    perPage: nat,
    total: nat,
    pages: nat)

  /** The paging arguments as read from the query string; `None` stands
      for an argument that is absent or not an integer. */
  datatype PageArgs = PageArgs(page: Option<int>, perPage: Option<int>)

  /** `recent_clicks`: page `page` of the clicks listed newest first,
      each as its dictionary. The `k`-th entry is the click `start + k`
      places from the newest, where `start` is the number of clicks on the
      earlier pages. */
  function RecentClicks(own: seq<ClickLog>, page: nat, perPage: nat): (v: seq<ClickView>)
    requires page >= 1 && perPage >= 1
    ensures |v| <= perPage
    ensures forall k :: 0 <= k < |v| ==>
              (Skipped(page, perPage) + k < |own|
               && v[k] == ClickToDict(own[|own| - 1 - (Skipped(page, perPage) + k)]))
    ensures v != [] <==> page <= PageCount(|own|, perPage)
  {
    var items := Slice(Reversed(own), page, perPage);
    PageNonEmptyIff(Reversed(own), page, perPage);
    var start := Skipped(page, perPage);
    assert forall k :: 0 <= k < |items| ==> start + k < |own| && items[k] == own[|own| - 1 - (start + k)];
    seq(|items|, k requires 0 <= k < |items| => ClickToDict(items[k]))
  }

  /** Every click is listed on exactly the page and at the position its
      rank from the newest gives. */
  lemma ClickOnItsPage(own: seq<ClickLog>, perPage: nat, k: nat)
    requires perPage >= 1 && k < |own|
    ensures 1 <= k / perPage + 1 <= PageCount(|own|, perPage)
    ensures |RecentClicks(own, k / perPage + 1, perPage)| > k % perPage
    ensures RecentClicks(own, k / perPage + 1, perPage)[k % perPage] == ClickToDict(own[|own| - 1 - k])
  {
    ItemOnItsPage(Reversed(own), perPage, k);
  }

  /** When the clock never ran backwards over the log, a page of the
      newest-first list is ordered by `clicked_at`, latest first, which is
      the order the query asks for; clicks with equal times come latest
      logged first, one of the orders the query allows for a tie. */
  lemma RecentNewestFirst(own: seq<ClickLog>, page: nat, perPage: nat)
    requires page >= 1 && perPage >= 1
    requires forall i, j :: 0 <= i <= j < |own| ==> own[i].clickedAt <= own[j].clickedAt
    ensures var v := RecentClicks(own, page, perPage);
            forall i, j :: 0 <= i <= j < |v| ==> v[i].clickedAt >= v[j].clickedAt
  {
    var v := RecentClicks(own, page, perPage);
    var start := Skipped(page, perPage);
    forall i, j | 0 <= i <= j < |v| ensures v[i].clickedAt >= v[j].clickedAt {
      assert v[i] == ClickToDict(own[|own| - 1 - (start + i)]);
      assert v[j] == ClickToDict(own[|own| - 1 - (start + j)]);
    }
  }

  /** The analytics document of URL `u`, whose clicks are `own`. */
  function Summarise(u: Url, base: string, own: seq<ClickLog>, args: PageArgs): (r: Report)
    ensures r.url == ToDict(u, base) && r.totalClicks == u.clickCount
    ensures r.page == Page(args.page) && r.perPage == PerPage(args.perPage)
    ensures r.total == |own| && r.pages == PageCount(|own|, r.perPage)
    ensures r.recent == RecentClicks(own, r.page, r.perPage)
    ensures r.daily == DailyCounts(own, DailyRowLimit) && |r.daily| <= DailyRowLimit
    ensures r.recent != [] <==> r.page <= r.pages
    ensures r.daily == [] <==> own == []
  {
    var page := Page(args.page);
    var perPage := PerPage(args.perPage);
    Report(ToDict(u, base), u.clickCount, DailyCounts(own, DailyRowLimit),
           RecentClicks(own, page, perPage), page, perPage, |own|, PageCount(|own|, perPage))
  }
}
