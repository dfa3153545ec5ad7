/**
 * The enrichment pass of flask_main_detail.py (`scrape_and_update_jobs`) and
 * main_detail.py (`main`): page through `(id, job_link)` ten rows at a time,
 * open each job's own page, and overwrite the row's description, job type and
 * salary with what that page shows. The two copies differ only in the element
 * the job type is read from.
 */
module DetailScraper {
  import opened Strings
  import opened Markup
  import opened Paging
  import opened Jobs

  const DetailDescriptionSel := Selector("div", "description__text description__text--rich")
  const DetailSalarySel := Selector("div", "salary compensation__salary")

  /** Which copy of the pass runs. */
  datatype Variant = FlaskDetail | MainDetail

  const FlaskJobTypeSel := Selector("span", "job-details-jobs-unified-top-card__job-insight-view-model-secondary")
  const MainJobTypeSel := Selector("span", "description__job-criteria-text description__job-criteria-text--criteria")

  /** The element the job type is read from. */
  function DetailJobTypeSel(v: Variant): Selector {
    match v
    case FlaskDetail => FlaskJobTypeSel
    case MainDetail => MainJobTypeSel
  }

  /** Rows per `SELECT id, job_link ... LIMIT %s OFFSET %s`. */
  const PageSize: nat := 10

  /** `extractAdditionalJobData`: the stripped text of each element, or the
      sentinel when the page lacks it. */
  function ExtractAdditionalJobData(page: Doc, v: Variant): (d: Detail)
    ensures IsStripped(d.description) && IsStripped(d.jobType) && IsStripped(d.salary)
    ensures DetailDescriptionSel !in page ==> d.description == NA
    ensures DetailDescriptionSel in page ==> d.description == Trim(page[DetailDescriptionSel].text)
    ensures DetailJobTypeSel(v) !in page ==> d.jobType == NA
    ensures DetailJobTypeSel(v) in page ==> d.jobType == Trim(page[DetailJobTypeSel(v)].text)
    ensures DetailSalarySel !in page ==> d.salary == NA
    ensures DetailSalarySel in page ==> d.salary == Trim(page[DetailSalarySel].text)
  {
    Detail(TextOf(page, DetailDescriptionSel), TextOf(page, DetailJobTypeSel(v)), TextOf(page, DetailSalarySel))
  }

  /** The two copies read the job type from different elements: a page that
      carries only main_detail.py's element yields the sentinel in
      flask_main_detail.py and that element's text in main_detail.py. */
  lemma VariantsDisagreeOnJobType(page: Doc)
    requires DetailJobTypeSel(MainDetail) in page && DetailJobTypeSel(FlaskDetail) !in page
    ensures ExtractAdditionalJobData(page, FlaskDetail).jobType == NA
    ensures ExtractAdditionalJobData(page, MainDetail).jobType == Trim(page[DetailJobTypeSel(MainDetail)].text)
    ensures ExtractAdditionalJobData(page, FlaskDetail).description == ExtractAdditionalJobData(page, MainDetail).description
    ensures ExtractAdditionalJobData(page, FlaskDetail).salary == ExtractAdditionalJobData(page, MainDetail).salary
  {
    assert |FlaskJobTypeSel.cls| != |MainJobTypeSel.cls|;
  }

  /** The detail behind a job link: the page `fetch` returns, read by one variant. */
  function DetailOf(fetch: string -> Doc, v: Variant): (r: string -> Detail)
    ensures forall link :: r(link) == ExtractAdditionalJobData(fetch(link), v)
  {
    link => ExtractAdditionalJobData(fetch(link), v)
  }

  /** One `update_job_data` call for a row, with the detail of its own link:
      the listing columns and id stay, and the three detail columns take the
      values of the row's own page unless the store refuses them. */
  function EnrichRow(row: Row, detailOf: string -> Detail, accepts: Job -> bool): (r: Row)
    ensures r.id == row.id && SameListing(r.job, row.job)
    ensures r.job == (if accepts(row.job.WithDetail(detailOf(row.job.link)))
                      then row.job.WithDetail(detailOf(row.job.link)) else row.job)
  {
    SetDetail(row, row.id, detailOf(row.job.link), accepts)
  }

  /** Every row enriched from its own link. */
  function EnrichAll(rows: seq<Row>, detailOf: string -> Detail, accepts: Job -> bool): (r: seq<Row>)
    ensures |r| == |rows|
  {
    seq(|rows|, k requires 0 <= k < |rows| => EnrichRow(rows[k], detailOf, accepts))
  }

  /** After the pass every row keeps its id and listing columns, and holds the
      detail of its own link unless the store refused it. */
  lemma EnrichAllMeaning(rows: seq<Row>, detailOf: string -> Detail, accepts: Job -> bool)
    ensures var r := EnrichAll(rows, detailOf, accepts);
      && (forall k :: 0 <= k < |r| ==> r[k].id == rows[k].id && SameListing(r[k].job, rows[k].job))
      && (forall k :: 0 <= k < |r| ==>
            r[k].job == (if accepts(rows[k].job.WithDetail(detailOf(rows[k].job.link)))
                         then rows[k].job.WithDetail(detailOf(rows[k].job.link)) else rows[k].job))
  {
  }

  /** The first `m` rows enriched, the others as they were. */
  function EnrichedUpTo(rows: seq<Row>, m: nat, detailOf: string -> Detail, accepts: Job -> bool): (r: seq<Row>)
    requires m <= |rows|
    ensures |r| == |rows|
  {
    EnrichAll(rows[..m], detailOf, accepts) + rows[m..]
  }

  /** Running the pass a second time with the same pages changes nothing. */
  lemma EnrichAllIdempotent(rows: seq<Row>, detailOf: string -> Detail, accepts: Job -> bool)
    ensures EnrichAll(EnrichAll(rows, detailOf, accepts), detailOf, accepts) == EnrichAll(rows, detailOf, accepts)
  {
    var once := EnrichAll(rows, detailOf, accepts);
    var twice := EnrichAll(once, detailOf, accepts);
    forall k | 0 <= k < |rows| ensures twice[k] == once[k] {
      assert once[k] == EnrichRow(rows[k], detailOf, accepts);
      assert twice[k] == EnrichRow(once[k], detailOf, accepts);
    }
  }

  /** What a row held in the three detail columns before the pass does not
      matter once the store accepts the new values. */
  lemma EnrichIgnoresPriorDetail(a: Row, b: Row, detailOf: string -> Detail, accepts: Job -> bool)
    requires a.id == b.id && SameListing(a.job, b.job)
    requires accepts(a.job.WithDetail(detailOf(a.job.link))) && accepts(b.job.WithDetail(detailOf(b.job.link)))
    ensures EnrichRow(a, detailOf, accepts) == EnrichRow(b, detailOf, accepts)
  {
    assert a.job.WithDetail(detailOf(a.job.link)) == b.job.WithDetail(detailOf(b.job.link));
  }

  /** The UPDATE of the next row in storage order enriches exactly that row:
      ids are distinct, so `WHERE id = %s` touches no other. */
  lemma EnrichStep(rows: seq<Row>, m: nat, detailOf: string -> Detail, accepts: Job -> bool)
    requires IdsAscend(rows) && m < |rows|
    ensures UpdateById(EnrichedUpTo(rows, m, detailOf, accepts), rows[m].id, detailOf(rows[m].job.link), accepts)
      == EnrichedUpTo(rows, m + 1, detailOf, accepts)
  {
    var before := EnrichedUpTo(rows, m, detailOf, accepts);
    var after := EnrichedUpTo(rows, m + 1, detailOf, accepts);
    var r := UpdateById(before, rows[m].id, detailOf(rows[m].job.link), accepts);
    forall k | 0 <= k < |rows| ensures r[k] == after[k] {
      if k < m {
        assert before[k] == EnrichAll(rows[..m], detailOf, accepts)[k];
        assert after[k] == EnrichAll(rows[..m + 1], detailOf, accepts)[k];
        assert rows[..m][k] == rows[k] == rows[..m + 1][k];
        assert rows[k].id != rows[m].id;
      } else if k == m {
        assert before[k] == rows[m];
        assert after[k] == EnrichAll(rows[..m + 1], detailOf, accepts)[m];
        assert rows[..m + 1][m] == rows[m];
      } else {
        assert before[k] == rows[k] == after[k];
        assert rows[k].id != rows[m].id;
      }
    }
  }

  lemma IdLinksExtend(rows: seq<Row>, start: nat, jobs: seq<(nat, string)>)
    requires start + |jobs| <= |rows|
    requires forall k :: 0 <= k < |jobs| ==> jobs[k] == (rows[start + k].id, rows[start + k].job.link)
    ensures IdLinks(rows[..start + |jobs|]) == IdLinks(rows[..start]) + jobs
  {
  }

  /** The page the SELECT returns while the pass is under way holds the ids and
      links of the original rows at those positions. */
  lemma ScannedPage(rows: seq<Row>, m: nat, detailOf: string -> Detail, accepts: Job -> bool,
                    offset: nat, jobs: seq<(nat, string)>)
    requires m <= |rows|
    requires jobs == IdLinks(Slice(EnrichedUpTo(rows, m, detailOf, accepts), offset, PageSize))
    ensures jobs != [] ==> offset < |rows|
    ensures jobs != [] ==> offset + |jobs| == Min(offset + PageSize, |rows|)
    ensures forall k :: 0 <= k < |jobs| ==> jobs[k] == (rows[offset + k].id, rows[offset + k].job.link)
  {
    var now := EnrichedUpTo(rows, m, detailOf, accepts);
    EnrichAllMeaning(rows[..m], detailOf, accepts);
    assert forall k :: 0 <= k < |now| ==> now[k].id == rows[k].id && now[k].job.link == rows[k].job.link by {
      forall k | 0 <= k < |now| ensures now[k].id == rows[k].id && now[k].job.link == rows[k].job.link {
        if k < m {
          assert now[k] == EnrichAll(rows[..m], detailOf, accepts)[k] && rows[..m][k] == rows[k];
        } else {
          assert now[k] == rows[k];
        }
      }
    }
  }

  /** `scrape_and_update_jobs` (flask_main_detail.py) and `main`
      (main_detail.py) with the browser replaced by `fetch`. `visited` lists
      the `(id, job_link)` pairs in the order their pages are opened and
      `queries` counts the SELECT statements. */
  method ScrapeAndUpdateJobs(t: Table, fetch: string -> Doc, v: Variant)
    returns (visited: seq<(nat, string)>, queries: nat)
    requires t.Valid()
    modifies t
    ensures t.Valid() && t.nextId == old(t.nextId)
    ensures t.rows == EnrichAll(old(t.rows), DetailOf(fetch, v), t.accepts)
    ensures visited == IdLinks(old(t.rows))
    ensures queries == TotalPages(|old(t.rows)|, PageSize) + 1
  {
    visited, queries := UpdateFromLinks(t, DetailOf(fetch, v));
  }

  /** The paging loop of the pass: SELECT ten `(id, job_link)` pairs at a time
      until a page comes back empty, UPDATE each row with the detail of its
      link, commit after each page. The detail lookup is a parameter, so the
      loop's proof does not depend on the page layout. */
  method UpdateFromLinks(t: Table, detailOf: string -> Detail)
    returns (visited: seq<(nat, string)>, queries: nat)
    requires t.Valid()
    modifies t
    ensures t.Valid() && t.nextId == old(t.nextId)
    ensures t.rows == EnrichAll(old(t.rows), detailOf, t.accepts)
    ensures visited == IdLinks(old(t.rows))
    ensures queries == TotalPages(|old(t.rows)|, PageSize) + 1
  {
    ghost var rows := t.rows;
    assert IdsAscend(rows);
    var offset := 0;
    visited := [];
    queries := 0;
    while true
      invariant t.Valid() && t.nextId == old(t.nextId)
      invariant offset == PageSize * queries && offset < |rows| + PageSize
      invariant t.rows == EnrichedUpTo(rows, Min(offset, |rows|), detailOf, t.accepts)
      invariant visited == IdLinks(rows[..Min(offset, |rows|)])
      decreases |rows| + PageSize - offset
    {
      var jobs := t.ScanPage(offset, PageSize);
      ScannedPage(rows, Min(offset, |rows|), detailOf, t.accepts, offset, jobs);
      queries := queries + 1;
      if jobs == [] {
        TotalPagesIsLeast(|rows|, PageSize, queries - 1);
        if queries > 1 {
          TotalPagesIsLeast(|rows|, PageSize, queries - 2);
        }
        break;
      }
      UpdatePage(t, jobs, detailOf, rows, offset);
      assert offset + |jobs| == Min(offset + PageSize, |rows|);
      IdLinksExtend(rows, offset, jobs);
      visited := visited + jobs;
      offset := offset + PageSize;
    }
    assert rows[..|rows|] == rows;
  }

  /** The `for job in jobs` loop over one page: one UPDATE per pair, each with
      the detail of its own link. */
  method UpdatePage(t: Table, jobs: seq<(nat, string)>, detailOf: string -> Detail, ghost rows: seq<Row>, ghost start: nat)
    requires t.Valid() && IdsAscend(rows) && start + |jobs| <= |rows|
    requires forall k :: 0 <= k < |jobs| ==> jobs[k] == (rows[start + k].id, rows[start + k].job.link)
    requires t.rows == EnrichedUpTo(rows, start, detailOf, t.accepts)
    modifies t
    ensures t.Valid() && t.nextId == old(t.nextId)
    ensures t.rows == EnrichedUpTo(rows, start + |jobs|, detailOf, t.accepts)
  {
    var j := 0;
    while j < |jobs|
      invariant 0 <= j <= |jobs|
      invariant t.Valid() && t.nextId == old(t.nextId)
      invariant t.rows == EnrichedUpTo(rows, start + j, detailOf, t.accepts)
    {
      var (id, link) := jobs[j];
      EnrichStep(rows, start + j, detailOf, t.accepts);
      t.UpdateDetail(id, detailOf(link));
      j := j + 1;
    }
  }
}
