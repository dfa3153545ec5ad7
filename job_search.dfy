/**
 * flask_main.py `get_jobs`: the rows whose columns contain the search text,
 * one page of them, the number of matching rows and the page count.
 */
module JobSearch {
  import opened Strings
  import opened Paging
  import opened Jobs

  /** The ten text columns the WHERE clause tests. */
  function Columns(job: Job): seq<string> {
    [job.title, job.link, job.companyName, job.companyLink, job.source,
     job.location, job.salary, job.jobType, job.description, job.postedDate]
  }

  /** The WHERE clause: the search text occurs somewhere in one of the ten
      text columns. */
  predicate Matches(job: Job, q: string)
    ensures Matches(job, q) <==> exists c, k: nat :: c in Columns(job) && OccursAt(c, q, k)
  {
    ColumnsContain(job, q);

    || Contains(job.title, q) || Contains(job.link, q)
    || Contains(job.companyName, q) || Contains(job.companyLink, q)
    || Contains(job.source, q) || Contains(job.location, q)
    || Contains(job.salary, q) || Contains(job.jobType, q)
    || Contains(job.description, q) || Contains(job.postedDate, q)
  }

  /** Some column contains `q` exactly when `q` occurs at some position of one. */
  lemma ColumnsContain(job: Job, q: string)
    ensures (|| Contains(job.title, q) || Contains(job.link, q)
             || Contains(job.companyName, q) || Contains(job.companyLink, q)
             || Contains(job.source, q) || Contains(job.location, q)
             || Contains(job.salary, q) || Contains(job.jobType, q)
             || Contains(job.description, q) || Contains(job.postedDate, q))
      <==> exists c, k: nat :: c in Columns(job) && OccursAt(c, q, k)
  {
    var cols := Columns(job);
    forall c | c in cols {
      ContainsIff(c, q);
    }
    assert forall c :: c in cols <==> (|| c == job.title || c == job.link
                                       || c == job.companyName || c == job.companyLink || c == job.source
                                       || c == job.location || c == job.salary || c == job.jobType
                                       || c == job.description || c == job.postedDate);
  }

  /** The matching rows, in storage order. */
  function Filter(rows: seq<Row>, q: string): (r: seq<Row>)
    ensures |r| <= |rows|
    ensures forall row :: row in r <==> row in rows && Matches(row.job, q)
    decreases |rows|
  {
    if rows == [] then []
    else
      var init := rows[..|rows| - 1];
      var last := rows[|rows| - 1];
      assert rows == init + [last];
      var r := Filter(init, q);
      if Matches(last.job, q) then r + [last] else r
  }

  /** Filtering keeps the storage order of the rows it keeps. */
  lemma {:induction false} FilterKeepsOrder(rows: seq<Row>, q: string)
    requires IdsAscend(rows)
    ensures IdsAscend(Filter(rows, q))
    decreases |rows|
  {
    if rows != [] {
      var init := rows[..|rows| - 1];
      var last := rows[|rows| - 1];
      assert IdsAscend(init);
      FilterKeepsOrder(init, q);
      if Matches(last.job, q) {
        var r := Filter(init, q);
        assert Filter(rows, q) == r + [last];
        FilterIdsBelow(init, q, last.id);
      }
    }
  }

  /** The rows a filter keeps have ids below any bound of the rows it reads. */
  lemma {:induction false} FilterIdsBelow(rows: seq<Row>, q: string, b: nat)
    requires forall i :: 0 <= i < |rows| ==> rows[i].id < b
    ensures forall k :: 0 <= k < |Filter(rows, q)| ==> Filter(rows, q)[k].id < b
    decreases |rows|
  {
    if rows != [] {
      var init := rows[..|rows| - 1];
      FilterIdsBelow(init, q, b);
    }
  }

  /** Every row contains the empty search text, as `'%%'` matches any value. */
  lemma EveryJobMatchesEmptySearch(job: Job)
    ensures Matches(job, "")
  {
    ContainsEmpty(job.title);
  }

  /** An empty search lists the whole table. */
  lemma {:induction false} FilterEmptySearch(rows: seq<Row>)
    ensures Filter(rows, "") == rows
    decreases |rows|
  {
    if rows != [] {
      FilterEmptySearch(rows[..|rows| - 1]);
      EveryJobMatchesEmptySearch(rows[|rows| - 1].job);
      assert rows == rows[..|rows| - 1] + [rows[|rows| - 1]];
    }
  }

  /** The response body. */
  datatype JobsPage = JobsPage(jobs: seq<Row>, page: int, perPage: int, totalJobs: nat, totalPages: nat)

  /** Why the request fails: the database refuses a negative OFFSET or LIMIT,
      and a page size of zero divides by zero in the page count. */
  datatype SearchError = NegativeOffset | NegativeLimit | ZeroPageSize

  datatype SearchResult = Found(listing: JobsPage) | Failed(error: SearchError)

  /** `get_jobs` on the rows of the table: `LIMIT per_page OFFSET
      (page - 1) * per_page` over the matching rows, then their count. The
      offset is negative exactly when `page` is below 1 and `per_page`
      positive, or `page` above 1 and `per_page` negative; with `per_page`
      zero both queries run and the page count divides by zero. */
  function GetJobs(rows: seq<Row>, search: string, page: int, perPage: int): (r: SearchResult)
    ensures r.Failed? <==> page < 1 || perPage < 1
    ensures r.Failed? ==> (r.error == if perPage == 0 then ZeroPageSize
                                       else if (page < 1 && perPage > 0) || (page > 1 && perPage < 0) then NegativeOffset
                                       else NegativeLimit)
    ensures r.Found? ==> && r.listing.page == page && r.listing.perPage == perPage
                         && r.listing.totalJobs == |Filter(rows, search)|
                         && |r.listing.jobs| <= perPage
                         && (forall k :: 0 <= k < |r.listing.jobs| ==>
                               (page - 1) * perPage + k < r.listing.totalJobs
                               && r.listing.jobs[k] == Filter(rows, search)[(page - 1) * perPage + k])
  {
    if perPage == 0 then Failed(ZeroPageSize)
    else if (page < 1 && perPage > 0) || (page > 1 && perPage < 0) then Failed(NegativeOffset)
    else if perPage < 0 then Failed(NegativeLimit)
    else
      var matching := Filter(rows, search);
      Found(JobsPage(Page(matching, perPage, page), page, perPage, |matching|, TotalPages(|matching|, perPage)))
  }

  /** Every listed row matches the search and is a row of the table. */
  lemma ListedRowsMatch(rows: seq<Row>, search: string, page: int, perPage: int)
    requires GetJobs(rows, search, page, perPage).Found?
    ensures forall row :: row in GetJobs(rows, search, page, perPage).listing.jobs ==>
      row in rows && Matches(row.job, search)
  {
    var r := GetJobs(rows, search, page, perPage);
    var matching := Filter(rows, search);
    forall row | row in r.listing.jobs ensures row in matching {
      var k :| 0 <= k < |r.listing.jobs| && r.listing.jobs[k] == row;
    }
  }

  /** The page count is the least number of pages of `per_page` rows that holds
      every match; pages 1 to that count are non-empty, every later page is
      empty. */
  lemma PageCountMeaning(rows: seq<Row>, search: string, page: int, perPage: int)
    requires GetJobs(rows, search, page, perPage).Found?
    ensures var l := GetJobs(rows, search, page, perPage).listing;
      && (forall q: nat :: q * perPage >= l.totalJobs <==> q >= l.totalPages)
      && (page <= l.totalPages <==> l.jobs != [])
  {
    var l := GetJobs(rows, search, page, perPage).listing;
    forall q: nat ensures q * perPage >= l.totalJobs <==> q >= l.totalPages {
      TotalPagesIsLeast(l.totalJobs, perPage, q);
    }
    TotalPagesIsLeast(l.totalJobs, perPage, page - 1);
  }

  /** Walking the pages from 1 to the reported page count lists every match
      exactly once, in storage order. */
  lemma PagesListEveryMatch(rows: seq<Row>, search: string, perPage: int)
    requires perPage >= 1
    ensures var total := GetJobs(rows, search, 1, perPage).listing.totalPages;
      && (forall p :: 1 <= p <= total ==>
            GetJobs(rows, search, p, perPage).listing.jobs == Page(Filter(rows, search), perPage, p))
      && Joined(Filter(rows, search), perPage, total) == Filter(rows, search)
  {
    PagesPartition(Filter(rows, search), perPage);
  }

  /** An empty search pages through the whole table. */
  lemma EmptySearchListsEveryRow(rows: seq<Row>, page: int, perPage: int)
    requires page >= 1 && perPage >= 1
    ensures var l := GetJobs(rows, "", page, perPage).listing;
      && l.totalJobs == |rows|
      && l.jobs == Page(rows, perPage, page)
  {
    FilterEmptySearch(rows);
  }
}
