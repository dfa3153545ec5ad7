/**
 * One job card of the search-results list, read field by field. Both listing
 * scrapers (main.py and flask_main.py) use the same selectors except for the
 * job link, and flask_main.py also collapses whitespace in the description.
 */
module Cards {
  import opened Strings
  import opened Markup
  import opened Jobs

  const TitleSel := Selector("h3", "base-search-card__title")
  const DescriptionSel := Selector("div", "show-more-less-html__markup relative overflow-hidden")
  const CompanySel := Selector("a", "hidden-nested-link")
  const JobTypeSel := Selector("li", "job-details-jobs-unified-top-card__job-insight job-details-jobs-unified-top-card__job-insight--highlight")
  const LocationSel := Selector("span", "job-search-card__location")
  const SalarySel := Selector("div", "salary compensation__salary")
  const PostedDateSel := Selector("time", "job-search-card__listdate--new")

  /** The constant stored as `job_source`. */
  const Source: string := "LinkedIn"

  /** The ten fields of a card. The code reads them in column order; the first
      `href` lookup on an anchor without one (the job link, then the company
      link) raises and ends the extraction. */
  function CardFields(card: Doc, linkSel: Selector, collapseDescription: bool): (r: Result<Job>)
    ensures r.Err? <==> HrefMissing(card, linkSel) || HrefMissing(card, CompanySel)
    ensures r.Err? ==> r.error == MissingHref(if HrefMissing(card, linkSel) then linkSel else CompanySel)
    ensures r.Ok? ==> r.value.source == Source
  {
    if HrefMissing(card, linkSel) then Err(MissingHref(linkSel))
    else if HrefMissing(card, CompanySel) then Err(MissingHref(CompanySel))
    else Ok(CardJob(card, linkSel, collapseDescription))
  }

  /** The job a card yields when its anchors carry an `href`: clean text in
      every column, the sentinel for every element the card lacks, and a company
      name and link read from one anchor. */
  function CardJob(card: Doc, linkSel: Selector, collapseDescription: bool): (r: Job)
    requires !HrefMissing(card, linkSel) && !HrefMissing(card, CompanySel)
    ensures r.source == Source
    ensures CleanListing(r)
    ensures AbsentIsSentinel(card, linkSel, r)
    ensures CompanyPair(card, r)
  {
    var description := TextOf(card, DescriptionSel);
    var job := Job(TextOf(card, TitleSel), HrefOf(card, linkSel).value,
                   TextOf(card, CompanySel), HrefOf(card, CompanySel).value, Source,
                   TextOf(card, LocationSel), TextOf(card, SalarySel), TextOf(card, JobTypeSel),
                   if collapseDescription then Normalize(description) else description,
                   TextOf(card, PostedDateSel));
    ReadFieldsAreClean(card, linkSel, collapseDescription, job);
    ReadFieldsKeepSentinels(card, linkSel, collapseDescription, job);
    job
  }

  /** Whatever is read field by field from a card is free of surrounding
      whitespace, and its company name and link come from one anchor. */
  lemma ReadFieldsAreClean(card: Doc, linkSel: Selector, collapse: bool, job: Job)
    requires FieldsRead(card, linkSel, collapse, job)
    ensures CleanListing(job) && CompanyPair(card, job)
  {
    SourceIsStripped();
  }

  /** Whatever is read field by field from a card holds the sentinel for each
      element the card lacks. */
  lemma ReadFieldsKeepSentinels(card: Doc, linkSel: Selector, collapse: bool, job: Job)
    requires FieldsRead(card, linkSel, collapse, job)
    ensures AbsentIsSentinel(card, linkSel, job)
  {
    SentinelIsNormal();
  }

  lemma SourceIsStripped()
    ensures IsStripped(Source)
  {
    assert !IsSpace(Source[0]) && !IsSpace(Source[|Source| - 1]);
  }

  /** What an extracted card holds: each column is read from its own element,
      the description is normalised when `collapse` is set, and so every column
      is the element's trimmed text or the sentinel. */
  lemma CardFieldsMeaning(card: Doc, linkSel: Selector, collapse: bool)
    requires CardFields(card, linkSel, collapse).Ok?
    ensures var job := CardFields(card, linkSel, collapse).value;
      && FieldsRead(card, linkSel, collapse, job)
      && CleanListing(job)
      && AbsentIsSentinel(card, linkSel, job)
      && CompanyPair(card, job)
      && (collapse ==> Normal(job.description))
  {
    var job := CardJob(card, linkSel, collapse);
    assert CardFields(card, linkSel, collapse).value == job;
  }

  /** Each column of `job` is what the scraper reads from the element its
      selector names (`TextOf`, or `HrefOf` for the two links). */
  predicate FieldsRead(card: Doc, linkSel: Selector, collapse: bool, job: Job) {
    && job.title == TextOf(card, TitleSel)
    && HrefOf(card, linkSel) == Ok(job.link)
    && job.companyName == TextOf(card, CompanySel)
    && HrefOf(card, CompanySel) == Ok(job.companyLink)
    && job.source == Source
    && job.location == TextOf(card, LocationSel)
    && job.salary == TextOf(card, SalarySel)
    && job.jobType == TextOf(card, JobTypeSel)
    && job.description == (if collapse then Normalize(TextOf(card, DescriptionSel)) else TextOf(card, DescriptionSel))
    && job.postedDate == TextOf(card, PostedDateSel)
  }

  /** Every column is free of leading and trailing whitespace. */
  predicate CleanListing(job: Job) {
    && IsStripped(job.title) && IsStripped(job.link)
    && IsStripped(job.companyName) && IsStripped(job.companyLink)
    && IsStripped(job.source) && IsStripped(job.location)
    && IsStripped(job.salary) && IsStripped(job.jobType)
    && IsStripped(job.description) && IsStripped(job.postedDate)
  }

  /** A field whose element the card lacks holds the sentinel. */
  predicate AbsentIsSentinel(card: Doc, linkSel: Selector, job: Job) {
    && (TitleSel !in card ==> job.title == NA)
    && (linkSel !in card ==> job.link == NA)
    && (DescriptionSel !in card ==> job.description == NA)
    && (CompanySel !in card ==> job.companyName == NA && job.companyLink == NA)
    && (JobTypeSel !in card ==> job.jobType == NA)
    && (LocationSel !in card ==> job.location == NA)
    && (SalarySel !in card ==> job.salary == NA)
    && (PostedDateSel !in card ==> job.postedDate == NA)
  }

  /** Company name and link come from one anchor: both are the sentinel, or both
      are read from that anchor. */
  predicate CompanyPair(card: Doc, job: Job) {
    || (CompanySel !in card && job.companyName == NA && job.companyLink == NA)
    || (&& CompanySel in card && "href" in card[CompanySel].attrs
        && job.companyName == Trim(card[CompanySel].text)
        && job.companyLink == Trim(card[CompanySel].attrs["href"]))
  }

  /** `job` with the fields read through `sel` replaced by the sentinel. */
  function Blank(job: Job, sel: Selector, linkSel: Selector): Job {
    Job(
      if sel == TitleSel then NA else job.title,
      if sel == linkSel then NA else job.link,
      if sel == CompanySel then NA else job.companyName,
      if sel == CompanySel then NA else job.companyLink,
      job.source,
      if sel == LocationSel then NA else job.location,
      if sel == SalarySel then NA else job.salary,
      if sel == JobTypeSel then NA else job.jobType,
      if sel == DescriptionSel then NA else job.description,
      if sel == PostedDateSel then NA else job.postedDate)
  }

  /** A missing element costs only the fields read from it: every other field of
      the card is extracted exactly as before. */
  lemma MissingNodeBlanksOnlyItsFields(card: Doc, linkSel: Selector, collapse: bool, sel: Selector)
    requires CardFields(card, linkSel, collapse).Ok?
    ensures CardFields(card - {sel}, linkSel, collapse) == Ok(Blank(CardFields(card, linkSel, collapse).value, sel, linkSel))
  {
    var c := card - {sel};
    assert !HrefMissing(c, linkSel) by { FieldsAfterRemove(card, sel, linkSel); }
    assert !HrefMissing(c, CompanySel) by { FieldsAfterRemove(card, sel, CompanySel); }
    CardJobAfterRemove(card, linkSel, collapse, sel);
  }

  lemma CardJobAfterRemove(card: Doc, linkSel: Selector, collapse: bool, sel: Selector)
    requires !HrefMissing(card, linkSel) && !HrefMissing(card, CompanySel)
    requires !HrefMissing(card - {sel}, linkSel) && !HrefMissing(card - {sel}, CompanySel)
    ensures CardJob(card - {sel}, linkSel, collapse) == Blank(CardJob(card, linkSel, collapse), sel, linkSel)
  {
    var c := card - {sel};
    var job := CardJob(card, linkSel, collapse);
    var job' := CardJob(c, linkSel, collapse);
    var blank := Blank(job, sel, linkSel);
    assert job'.title == blank.title by { FieldsAfterRemove(card, sel, TitleSel); }
    assert job'.link == blank.link by { FieldsAfterRemove(card, sel, linkSel); }
    assert job'.companyName == blank.companyName by { FieldsAfterRemove(card, sel, CompanySel); }
    assert job'.companyLink == blank.companyLink by { FieldsAfterRemove(card, sel, CompanySel); }
    assert job'.location == blank.location by { FieldsAfterRemove(card, sel, LocationSel); }
    assert job'.salary == blank.salary by { FieldsAfterRemove(card, sel, SalarySel); }
    assert job'.jobType == blank.jobType by { FieldsAfterRemove(card, sel, JobTypeSel); }
    assert job'.postedDate == blank.postedDate by { FieldsAfterRemove(card, sel, PostedDateSel); }
    assert job'.description == blank.description by {
      FieldsAfterRemove(card, sel, DescriptionSel);
      SentinelIsNormal();
    }
  }

  lemma FieldsAfterRemove(card: Doc, sel: Selector, s: Selector)
    ensures TextOf(card - {sel}, s) == if s == sel then NA else TextOf(card, s)
    ensures HrefOf(card - {sel}, s) == if s == sel then Ok(NA) else HrefOf(card, s)
    ensures HrefMissing(card - {sel}, s) <==> s != sel && HrefMissing(card, s)
  {
  }

  /** The sentinel cannot be told apart from a company anchor whose text is
      literally `N/A`: the name is then the sentinel although the anchor is
      there and its link is read. */
  lemma SentinelCollidesWithText(card: Doc, linkSel: Selector, collapse: bool)
    requires CardFields(card, linkSel, collapse).Ok?
    requires CompanySel in card && Trim(card[CompanySel].text) == NA
    ensures "href" in card[CompanySel].attrs
    ensures CardFields(card, linkSel, collapse).value.companyName == NA
    ensures CardFields(card, linkSel, collapse).value.companyLink == Trim(card[CompanySel].attrs["href"])
  {
    CardFieldsMeaning(card, linkSel, collapse);
  }

  /** A scraper's per-card extraction: the job, or the error that ends the run. */
  type Extractor = Doc -> Result<Job>

  /** Every card extracts without raising. */
  predicate AllExtracted(cards: seq<Doc>, extract: Extractor) {
    forall i :: 0 <= i < |cards| ==> extract(cards[i]).Ok?
  }

  /** The extracted jobs of a batch of cards, card by card. */
  function JobsOf(cards: seq<Doc>, extract: Extractor): (r: seq<Job>)
    requires AllExtracted(cards, extract)
    ensures |r| == |cards|
    ensures forall i :: 0 <= i < |r| ==> Ok(r[i]) == extract(cards[i])
  {
    seq(|cards|, i requires 0 <= i < |cards| => extract(cards[i]).value)
  }

  lemma JobsOfSnoc(cards: seq<Doc>, card: Doc, extract: Extractor)
    requires AllExtracted(cards, extract) && extract(card).Ok?
    ensures AllExtracted(cards + [card], extract)
    ensures JobsOf(cards + [card], extract) == JobsOf(cards, extract) + [extract(card).value]
  {
    assert forall i :: 0 <= i < |cards| ==> (cards + [card])[i] == cards[i];
  }

  /** A fetched search-results page: the cards inside the results section
      (`find_all` over the section), or `None` when the page has no such section. */
  datatype ListingPage = ListingPage(section: Option<seq<Doc>>)

  /** How a scraping run ends. */
  datatype Outcome =
    | Committed
      /** `len(None)` raises before any connection is opened. */
    | NoResultsSection
      /** An uncaught `KeyError` ends the run before `conn.commit()`. */
    | Aborted(error: ExtractError)

  /** Card `i` is the first one of the batch that does not extract. */
  predicate FirstFailure(cards: seq<Doc>, extract: Extractor, i: nat) {
    i < |cards| && AllExtracted(cards[..i], extract) && extract(cards[i]).Err?
  }
}
