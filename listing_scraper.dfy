/**
 * main.py: one search-results page, its cards extracted with `extractJobData`
 * and written with the title-checked `insert_job_data`, all in one transaction.
 */
module ListingScraper {
  import opened Markup
  import opened Jobs
  import opened Cards

  /** The job-link anchor of a card as main.py selects it. */
  const JobLinkSel := Selector("a", "base-card__full-link absolute top-0 right-0 bottom-0 left-0 p-0 z-[2]")

  /** `extractJobData`: the ten columns of one card, or the `KeyError` of an
      anchor without `href`. */
  function ExtractJobData(card: Doc): (r: Result<Job>)
    ensures r.Err? <==> HrefMissing(card, JobLinkSel) || HrefMissing(card, CompanySel)
    ensures r.Ok? ==> && r.value.source == Source
                      && CleanListing(r.value)
                      && AbsentIsSentinel(card, JobLinkSel, r.value)
                      && CompanyPair(card, r.value)
                      && FieldsRead(card, JobLinkSel, false, r.value)
  {
    var r := CardFields(card, JobLinkSel, false);
    if r.Ok? then CardFieldsMeaning(card, JobLinkSel, false); r else r
  }

  /** `insert_job_data`: the title check, then the INSERT when no row has the
      title; a refused INSERT is caught and leaves the table as it was. */
  method InsertJobData(t: Table, job: Job)
    requires t.Valid()
    modifies t
    ensures t.Valid()
    ensures t.State() == InsertIfAbsent(old(t.State()), job, t.accepts)
  {
    var found := t.ExistsTitle(job.title);
    if !found {
      var _ := t.Insert(job);
    }
  }

  /** `main` after the page is fetched: find the results section, then extract
      and insert card by card, then commit. */
  method ScrapeListingPage(t: Table, page: ListingPage) returns (outcome: Outcome)
    requires t.Valid()
    modifies t
    ensures t.Valid()
    ensures page.section.None? <==> outcome == NoResultsSection
    ensures outcome == NoResultsSection ==> t.rows == old(t.rows) && t.nextId == old(t.nextId)
    ensures outcome == Committed <==> page.section.Some? && AllExtracted(page.section.value, ExtractJobData)
    ensures outcome == Committed ==>
      t.State() == InsertJobs(old(t.State()), JobsOf(page.section.value, ExtractJobData), t.accepts)
    ensures outcome.Aborted? ==> t.rows == old(t.rows) && t.nextId >= old(t.nextId)
    ensures outcome.Aborted? ==> exists i: nat ::
      && FirstFailure(page.section.value, ExtractJobData, i)
      && ExtractJobData(page.section.value[i]) == Err(outcome.error)
  {
    if page.section.None? {
      return NoResultsSection;
    }
    outcome := InsertCards(t, page.section.value, ExtractJobData);
  }

  /** The card loop of `main`, with the extraction as a parameter so that the
      loop proof does not depend on the field layout: each card extracted and
      inserted if its title is new; the first card that fails rolls the
      transaction back. */
  method InsertCards(t: Table, cards: seq<Doc>, extract: Extractor) returns (outcome: Outcome)
    requires t.Valid()
    modifies t
    ensures t.Valid()
    ensures outcome != NoResultsSection
    ensures outcome == Committed <==> AllExtracted(cards, extract)
    ensures outcome == Committed ==> t.State() == InsertJobs(old(t.State()), JobsOf(cards, extract), t.accepts)
    ensures outcome.Aborted? ==> t.rows == old(t.rows) && t.nextId >= old(t.nextId)
    ensures outcome.Aborted? ==> exists i: nat :: FirstFailure(cards, extract, i) && extract(cards[i]) == Err(outcome.error)
  {
    var saved := t.rows;
    ghost var s0 := t.State();
    var i := 0;
    while i < |cards|
      invariant 0 <= i <= |cards|
      invariant t.Valid() && saved == s0.rows && s0.nextId <= t.nextId
      invariant AllExtracted(cards[..i], extract)
      invariant t.State() == InsertJobs(s0, JobsOf(cards[..i], extract), t.accepts)
    {
      var data := extract(cards[i]);
      if data.Err? {
        assert FirstFailure(cards, extract, i);
        LaterNextIdKeepsValid(s0.rows, s0.nextId, t.nextId);
        t.Rollback(saved);
        return Aborted(data.error);
      }
      InsertJobsNextCard(s0, cards, i, t.accepts, extract);
      InsertJobData(t, data.value);
      i := i + 1;
    }
    assert cards[..i] == cards;
    return Committed;
  }

  /** One more extracted card is one more `insert_job_data` call. */
  lemma InsertJobsNextCard(s: Store, cards: seq<Doc>, i: nat, accepts: Job -> bool, extract: Extractor)
    requires i < |cards| && AllExtracted(cards[..i], extract)
    requires extract(cards[i]).Ok?
    ensures AllExtracted(cards[..i + 1], extract)
    ensures InsertJobs(s, JobsOf(cards[..i + 1], extract), accepts)
      == InsertIfAbsent(InsertJobs(s, JobsOf(cards[..i], extract), accepts),
                        extract(cards[i]).value, accepts)
  {
    var done := JobsOf(cards[..i], extract);
    JobsOfSnoc(cards[..i], cards[i], extract);
    assert cards[..i + 1] == cards[..i] + [cards[i]];
    assert (done + [extract(cards[i]).value])[..|done|] == done;
  }

  /** Scraping the same page twice leaves the table as scraping it once. */
  lemma ListingRunIdempotent(s: Store, cards: seq<Doc>, accepts: Job -> bool)
    requires AllExtracted(cards, ExtractJobData)
    ensures var jobs := JobsOf(cards, ExtractJobData);
      InsertJobs(InsertJobs(s, jobs, accepts), jobs, accepts) == InsertJobs(s, jobs, accepts)
  {
    InsertJobsIdempotent(s, JobsOf(cards, ExtractJobData), accepts);
  }
}
