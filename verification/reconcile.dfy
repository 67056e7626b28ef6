/** The crawl loop of `scrapController`: starting from the lessons of the last
    stored snapshot, it walks the listing pages in order and the item URLs of
    each page in document order, skips every URL a lesson in the working list
    already has, and appends the record scraped for every other URL, valid or
    not.

    The browser is abstracted into two functions: `listing` gives the item
    URLs found on a listing page, and `fetch` gives the DOM reads of a lesson
    page. A run also records the URLs it fetched, so that "the extractor is
    not called" can be stated. */
module Reconcile {
  import opened Strings
  import opened DateParse
  import opened LessonRecord
  import opened Pagination

  function Urls(lessons: seq<Lesson>): (us: seq<string>)
    ensures |us| == |lessons|
    ensures forall k :: 0 <= k < |lessons| ==> us[k] == lessons[k].url
  {
    seq(|lessons|, k requires 0 <= k < |lessons| => lessons[k].url)
  }

  /** The working lesson list and the URLs scraped so far. */
  datatype Run = Run(lessons: seq<Lesson>, fetched: seq<string>)

  /** One item URL: skipped when a lesson already has it (`lessons.find`),
      otherwise scraped and appended. */
  function Visit(months: MonthTable, fetch: string -> PageReads, run: Run, u: string): (r: Run)
    ensures |run.lessons| <= |r.lessons| && r.lessons[..|run.lessons|] == run.lessons
    ensures u in Urls(run.lessons) ==> r == run
    ensures u !in Urls(run.lessons) ==> |r.lessons| == |run.lessons| + 1
  {
    if u in Urls(run.lessons) then run
    else Run(run.lessons + [Assemble(months, u, fetch(u))], run.fetched + [u])
  }

  /** The item loop over `items`, left to right. */
  function Scan(months: MonthTable, fetch: string -> PageReads, run: Run, items: seq<string>): (r: Run)
    ensures |run.lessons| <= |r.lessons| <= |run.lessons| + |items|
    ensures r.lessons[..|run.lessons|] == run.lessons
    decreases |items|
  {
    if |items| == 0 then run
    else
      var mid := Scan(months, fetch, run, items[..|items| - 1]);
      var r := Visit(months, fetch, mid, items[|items| - 1]);
      assert r.lessons[..|run.lessons|] == mid.lessons[..|mid.lessons|][..|run.lessons|];
      r
  }

  /** The item URLs of the listing pages, page after page. */
  function ItemUrls(pages: seq<string>, listing: string -> seq<string>): seq<string>
    decreases |pages|
  {
    if |pages| == 0 then []
    else ItemUrls(pages[..|pages| - 1], listing) + listing(pages[|pages| - 1])
  }

  /** A whole crawl from the prior lessons. */
  function Crawl(months: MonthTable, fetch: string -> PageReads, prior: seq<Lesson>,
                 pages: seq<string>, listing: string -> seq<string>): (r: Run)
    ensures |prior| <= |r.lessons| && r.lessons[..|prior|] == prior
  {
    Scan(months, fetch, Run(prior, []), ItemUrls(pages, listing))
  }

  /** The records scraped for `fetched`, in order. */
  function Extracted(months: MonthTable, fetch: string -> PageReads, fetched: seq<string>): (ls: seq<Lesson>)
    ensures |ls| == |fetched|
    ensures forall k :: 0 <= k < |fetched| ==> ls[k] == Assemble(months, fetched[k], fetch(fetched[k]))
  {
    seq(|fetched|, k requires 0 <= k < |fetched| => Assemble(months, fetched[k], fetch(fetched[k])))
  }

  /** What every run reachable from `prior` looks like: the prior lessons
      untouched, then one record per fetched URL; no URL fetched twice and
      none the prior lessons already had. */
  predicate Reachable(months: MonthTable, fetch: string -> PageReads, prior: seq<Lesson>, run: Run) {
    && run.lessons == prior + Extracted(months, fetch, run.fetched)
    && Distinct(run.fetched)
    && (forall k :: 0 <= k < |run.fetched| ==> run.fetched[k] !in Urls(prior))
  }

  lemma UrlsAppend(a: seq<Lesson>, b: seq<Lesson>)
    ensures Urls(a + b) == Urls(a) + Urls(b)
  {
  }

  lemma UrlsOfReachable(months: MonthTable, fetch: string -> PageReads, prior: seq<Lesson>, run: Run)
    requires Reachable(months, fetch, prior, run)
    ensures Urls(run.lessons) == Urls(prior) + run.fetched
  {
    UrlsAppend(prior, Extracted(months, fetch, run.fetched));
  }

  /** Each step keeps the shape of a reachable run. */
  lemma VisitReachable(months: MonthTable, fetch: string -> PageReads, prior: seq<Lesson>, run: Run, u: string)
    requires Reachable(months, fetch, prior, run)
    ensures Reachable(months, fetch, prior, Visit(months, fetch, run, u))
  {
    UrlsOfReachable(months, fetch, prior, run);
    if u !in Urls(run.lessons) {
      assert u !in Urls(prior) && u !in run.fetched;
      AppendReachable(months, fetch, prior, run, u);
    }
  }

  /** Appending the record of a URL nobody has keeps a run reachable. */
  lemma AppendReachable(months: MonthTable, fetch: string -> PageReads, prior: seq<Lesson>, run: Run, u: string)
    requires Reachable(months, fetch, prior, run)
    requires u !in Urls(prior) && u !in run.fetched
    ensures Reachable(months, fetch, prior, Run(run.lessons + [Assemble(months, u, fetch(u))], run.fetched + [u]))
  {
    var f := run.fetched;
    var l := Assemble(months, u, fetch(u));
    ExtractedSnoc(months, fetch, f, u);
    assert run.lessons + [l] == prior + (Extracted(months, fetch, f) + [l]);
    DistinctSnoc(f, u);
    NoneKnownSnoc(f, Urls(prior), u);
  }

  lemma ExtractedSnoc(months: MonthTable, fetch: string -> PageReads, fetched: seq<string>, u: string)
    ensures Extracted(months, fetch, fetched + [u]) == Extracted(months, fetch, fetched) + [Assemble(months, u, fetch(u))]
  {
  }

  lemma NoneKnownSnoc(fetched: seq<string>, known: seq<string>, u: string)
    requires forall k :: 0 <= k < |fetched| ==> fetched[k] !in known
    requires u !in known
    ensures forall k :: 0 <= k < |fetched + [u]| ==> (fetched + [u])[k] !in known
  {
    forall k | 0 <= k < |fetched| + 1
      ensures (fetched + [u])[k] !in known
    {
      if k < |fetched| {
        assert (fetched + [u])[k] == fetched[k];
      }
    }
  }

  lemma DistinctSnoc(s: seq<string>, u: string)
    requires Distinct(s) && u !in s
    ensures Distinct(s + [u])
  {
  }

  lemma {:induction false} ScanReachable(months: MonthTable, fetch: string -> PageReads, prior: seq<Lesson>, run: Run, items: seq<string>)
    requires Reachable(months, fetch, prior, run)
    ensures Reachable(months, fetch, prior, Scan(months, fetch, run, items))
    decreases |items|
  {
    if |items| > 0 {
      ScanReachable(months, fetch, prior, run, items[..|items| - 1]);
      VisitReachable(months, fetch, prior, Scan(months, fetch, run, items[..|items| - 1]), items[|items| - 1]);
    }
  }

  /** A step keeps every known URL known and makes its own URL known. */
  lemma VisitKnows(months: MonthTable, fetch: string -> PageReads, run: Run, u: string)
    ensures forall v :: v in Urls(run.lessons) ==> v in Urls(Visit(months, fetch, run, u).lessons)
    ensures u in Urls(Visit(months, fetch, run, u).lessons)
  {
    if u !in Urls(run.lessons) {
      var next := Visit(months, fetch, run, u);
      UrlsAppend(run.lessons, [Assemble(months, u, fetch(u))]);
      assert Urls(next.lessons) == Urls(run.lessons) + [u];
    }
  }

  /** A step fetches at most its own URL. */
  lemma VisitFetches(months: MonthTable, fetch: string -> PageReads, run: Run, u: string)
    ensures forall v :: v in Visit(months, fetch, run, u).fetched ==> v in run.fetched || v == u
  {
  }

  /** After the loop every item URL has a lesson. */
  lemma {:induction false} ScanCovers(months: MonthTable, fetch: string -> PageReads, run: Run, items: seq<string>)
    ensures forall u :: u in items ==> u in Urls(Scan(months, fetch, run, items).lessons)
    decreases |items|
  {
    if |items| > 0 {
      var init := items[..|items| - 1];
      var last := items[|items| - 1];
      var mid := Scan(months, fetch, run, init);
      ScanCovers(months, fetch, run, init);
      VisitKnows(months, fetch, mid, last);
      assert items == init + [last];
      forall u | u in items
        ensures u in Urls(Scan(months, fetch, run, items).lessons)
      {
        if u != last {
          assert u in init;
        }
      }
    }
  }

  /** The loop fetches item URLs only. */
  lemma {:induction false} ScanFetchesItems(months: MonthTable, fetch: string -> PageReads, run: Run, items: seq<string>)
    ensures forall u :: u in Scan(months, fetch, run, items).fetched ==> u in run.fetched || u in items
    decreases |items|
  {
    if |items| > 0 {
      var init := items[..|items| - 1];
      var last := items[|items| - 1];
      ScanFetchesItems(months, fetch, run, init);
      VisitFetches(months, fetch, Scan(months, fetch, run, init), last);
      assert items == init + [last];
    }
  }

  /** A crawl leaves the prior lessons in place, appends one record per
      fetched URL, valid or not, fetches only item URLs that no lesson had,
      each once, and loses no item URL. */
  lemma CrawlShape(months: MonthTable, fetch: string -> PageReads, prior: seq<Lesson>,
                   pages: seq<string>, listing: string -> seq<string>)
    ensures var r := Crawl(months, fetch, prior, pages, listing);
      && r.lessons == prior + Extracted(months, fetch, r.fetched)
      && Distinct(r.fetched)
      && (forall u :: u in r.fetched <==> u in ItemUrls(pages, listing) && u !in Urls(prior))
      && (forall u :: u in ItemUrls(pages, listing) ==> u in Urls(r.lessons))
  {
    var items := ItemUrls(pages, listing);
    var r := Crawl(months, fetch, prior, pages, listing);
    assert Reachable(months, fetch, prior, Run(prior, [])) by {
      assert Extracted(months, fetch, []) == [];
    }
    ScanReachable(months, fetch, prior, Run(prior, []), items);
    ScanCovers(months, fetch, Run(prior, []), items);
    ScanFetchesItems(months, fetch, Run(prior, []), items);
    UrlsOfReachable(months, fetch, prior, r);
  }

  /** The prior lessons are a prefix of the result, so the list never
      shrinks; and if the prior URLs are unique, so are the result's. */
  lemma CrawlPreservesDistinct(months: MonthTable, fetch: string -> PageReads, prior: seq<Lesson>,
                             pages: seq<string>, listing: string -> seq<string>)
    ensures var r := Crawl(months, fetch, prior, pages, listing);
      && |prior| <= |r.lessons| && r.lessons[..|prior|] == prior
      && (Distinct(Urls(prior)) ==> Distinct(Urls(r.lessons)))
  {
    var r := Crawl(months, fetch, prior, pages, listing);
    CrawlShape(months, fetch, prior, pages, listing);
    UrlsAppend(prior, Extracted(months, fetch, r.fetched));
    var all := Urls(r.lessons);
    assert all == Urls(prior) + r.fetched;
    if Distinct(Urls(prior)) {
      forall i, j | 0 <= i < j < |all|
        ensures all[i] != all[j]
      {
        if j >= |prior| && i < |prior| {
          assert all[j] in r.fetched;
          assert all[i] in Urls(prior);
        }
      }
    }
  }

  /** Once every item URL is known, the loop does nothing. */
  lemma {:induction false} ScanAllKnown(months: MonthTable, fetch: string -> PageReads, run: Run, items: seq<string>)
    requires forall u :: u in items ==> u in Urls(run.lessons)
    ensures Scan(months, fetch, run, items) == run
    decreases |items|
  {
    if |items| > 0 {
      ScanAllKnown(months, fetch, run, items[..|items| - 1]);
      assert items[|items| - 1] in items;
    }
  }

  /** Crawling the same pages again from the result fetches nothing and
      changes nothing. */
  lemma CrawlIdempotent(months: MonthTable, fetch: string -> PageReads, prior: seq<Lesson>,
                        pages: seq<string>, listing: string -> seq<string>)
    ensures var r := Crawl(months, fetch, prior, pages, listing);
      Crawl(months, fetch, r.lessons, pages, listing) == Run(r.lessons, [])
  {
    var r := Crawl(months, fetch, prior, pages, listing);
    CrawlShape(months, fetch, prior, pages, listing);
    ScanAllKnown(months, fetch, Run(r.lessons, []), ItemUrls(pages, listing));
  }

  /** The scan of a concatenation is the scan of the second part after the
      first. */
  lemma {:induction false} ScanAppend(months: MonthTable, fetch: string -> PageReads, run: Run, a: seq<string>, b: seq<string>)
    ensures Scan(months, fetch, run, a + b) == Scan(months, fetch, Scan(months, fetch, run, a), b)
    decreases |b|
  {
    if |b| == 0 {
      assert a + b == a;
    } else {
      var init, last := b[..|b| - 1], b[|b| - 1];
      assert b == init + [last];
      assert a + b == (a + init) + [last];
      ScanAppend(months, fetch, run, a, init);
      ScanSnoc(months, fetch, run, a + init, last);
      ScanSnoc(months, fetch, Scan(months, fetch, run, a), init, last);
    }
  }

  /** The item loop's step: scanning one item further is one more `Visit`. */
  lemma ScanStep(months: MonthTable, fetch: string -> PageReads, run: Run, items: seq<string>, j: nat)
    requires j < |items|
    ensures Scan(months, fetch, run, items[..j + 1]) == Visit(months, fetch, Scan(months, fetch, run, items[..j]), items[j])
  {
    assert items[..j + 1] == items[..j] + [items[j]];
    ScanSnoc(months, fetch, run, items[..j], items[j]);
  }

  /** One more item is one more step. */
  lemma ScanSnoc(months: MonthTable, fetch: string -> PageReads, run: Run, items: seq<string>, u: string)
    ensures Scan(months, fetch, run, items + [u]) == Visit(months, fetch, Scan(months, fetch, run, items), u)
  {
    assert (items + [u])[..|items|] == items;
  }

  /** `scrapController`'s loops: listing pages from the pagination, item URLs
      per page, skip the known ones, scrape and append the rest. Snapshot
      storage, notifications and logging are left to the caller. */
  method ScrapController(months: MonthTable, prior: seq<Lesson>, root: string, lastPage: int,
                         listing: string -> seq<string>, fetch: string -> PageReads)
    returns (lessons: seq<Lesson>, fetched: seq<string>)
    ensures Run(lessons, fetched) == Crawl(months, fetch, prior, PageUrls(root, lastPage), listing)
    ensures |prior| <= |lessons| && lessons[..|prior|] == prior
    ensures Distinct(Urls(prior)) ==> Distinct(Urls(lessons))
  {
    var pageUrls := RabbiPagination(root, lastPage);
    assert pageUrls == PageUrls(root, lastPage);
    lessons, fetched := prior, [];
    var i := 0;
    while i < |pageUrls|
      invariant 0 <= i <= |pageUrls|
      invariant Run(lessons, fetched) == Scan(months, fetch, Run(prior, []), ItemUrls(pageUrls[..i], listing))
    {
      var items := listing(pageUrls[i]);
      ghost var before := ItemUrls(pageUrls[..i], listing);
      lessons, fetched := ScrapPage(months, fetch, lessons, fetched, items);
      ScanAppend(months, fetch, Run(prior, []), before, items);
      assert pageUrls[..i + 1][..i] == pageUrls[..i];
      assert ItemUrls(pageUrls[..i + 1], listing) == before + items;
      i := i + 1;
    }
    assert pageUrls[..i] == pageUrls;
    CrawlPreservesDistinct(months, fetch, prior, pageUrls, listing);
  }

  /** The item loop of one listing page: every item URL not yet known is
      fetched and appended, in listing order. */
  method ScrapPage(months: MonthTable, fetch: string -> PageReads, lessons0: seq<Lesson>, fetched0: seq<string>,
                   items: seq<string>)
    returns (lessons: seq<Lesson>, fetched: seq<string>)
    ensures Run(lessons, fetched) == Scan(months, fetch, Run(lessons0, fetched0), items)
  {
    lessons, fetched := lessons0, fetched0;
    var j := 0;
    while j < |items|
      invariant 0 <= j <= |items|
      invariant Run(lessons, fetched) == Scan(months, fetch, Run(lessons0, fetched0), items[..j])
    {
      var u := items[j];
      ghost var after := Visit(months, fetch, Run(lessons, fetched), u);
      ScanStep(months, fetch, Run(lessons0, fetched0), items, j);
      if u !in Urls(lessons) {
        lessons := lessons + [Assemble(months, u, fetch(u))];
        fetched := fetched + [u];
      }
      assert Run(lessons, fetched) == after;
      j := j + 1;
    }
    assert items[..j] == items;
  }
}
