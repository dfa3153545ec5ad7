/**
 * flask_main.py `scrape_and_insert_data`: one search URL per keyword; every
 * card of every results page is extracted (description collapsed) and
 * inserted without a title check; one commit at the end of the run.
 */
module FlaskScraper {
  import opened Strings
  import opened Markup
  import opened Jobs
  import opened Cards

  /** The search keywords, in the order the URLs are visited. */
  const Keywords: seq<string> := [
    "php developer", "software engineer", "full stack developer", "backend developer",
    "frontend developer", "mern stack developer", "react developer", "Laravel developer",
    "nodejs developer", "javascript developer"]

  /** The search URL around the `{keyword}` placeholder. */
  const UrlPrefix: string := "https://www.linkedin.com" + "/jobs/search/" + "?currentJobId=4023652314"
    + "&f_TPR=r86400" + "&f_WT=2" + "&geoId=103644278" + "&keywords="
  const UrlSuffix: string := "&origin=JOB_SEARCH_PAGE" + "_SEARCH_BUTTON" + "&refresh=true"

  /** `base_url.format(keyword=keyword.replace(' ', '%20'))`: the keyword, its
      spaces encoded, between the fixed parts, so the URL holds no space. */
  function SearchUrl(k: string): (r: string)
    ensures ' ' !in r
    ensures |UrlPrefix| + |UrlSuffix| <= |r|
    ensures r[..|UrlPrefix|] == UrlPrefix && r[|r| - |UrlSuffix|..] == UrlSuffix
  {
    UrlPartsHaveNoSpace();
    UrlPrefix + EncodeSpaces(k) + UrlSuffix
  }

  /** Reads the keyword back out of a search URL. */
  function KeywordOf(url: string): Option<string> {
    if |UrlPrefix| + |UrlSuffix| <= |url| && url[..|UrlPrefix|] == UrlPrefix && url[|url| - |UrlSuffix|..] == UrlSuffix
    then Some(DecodeSpaces(url[|UrlPrefix|..|url| - |UrlSuffix|]))
    else None
  }

  /** A keyword without `%` of its own is recovered from its URL. */
  lemma UrlRoundTrip(k: string)
    requires '%' !in k
    ensures KeywordOf(SearchUrl(k)) == Some(k)
  {
    var e := EncodeSpaces(k);
    var url := SearchUrl(k);
    assert url[..|UrlPrefix|] == UrlPrefix;
    assert url[|url| - |UrlSuffix|..] == UrlSuffix;
    assert url[|UrlPrefix|..|url| - |UrlSuffix|] == e;
    DecodeEncodeSpaces(k);
  }

  lemma UrlPartsHaveNoSpace()
    ensures ' ' !in UrlPrefix && ' ' !in UrlSuffix
  {
    UrlPrefixHasNoSpace();
    assert ' ' !in "&origin=JOB_SEARCH_PAGE";
    assert ' ' !in "_SEARCH_BUTTON";
    assert ' ' !in "&refresh=true";
  }

  lemma UrlPrefixHasNoSpace()
    ensures ' ' !in UrlPrefix
  {
    UrlPathHasNoSpace();
    assert ' ' !in "&f_TPR=r86400";
    assert ' ' !in "&f_WT=2";
    assert ' ' !in "&geoId=103644278";
    assert ' ' !in "&keywords=";
  }

  lemma UrlPathHasNoSpace()
    ensures ' ' !in "https://www.linkedin.com" + "/jobs/search/" + "?currentJobId=4023652314"
  {
    assert ' ' !in "https://www.linkedin.com";
    assert ' ' !in "/jobs/search/";
    assert ' ' !in "?currentJobId=4023652314";
  }

  /** `generate_urls`: one URL per keyword, in keyword order. */
  function GenerateUrls(keywords: seq<string>): (r: seq<string>)
    ensures |r| == |keywords|
    ensures forall i :: 0 <= i < |r| ==> r[i] == SearchUrl(keywords[i]) && ' ' !in r[i]
  {
    seq(|keywords|, i requires 0 <= i < |keywords| => SearchUrl(keywords[i]))
  }

  /** Each URL carries its own keyword, so distinct keywords give distinct URLs. */
  lemma GenerateUrlsRoundTrip(keywords: seq<string>)
    requires forall i :: 0 <= i < |keywords| ==> '%' !in keywords[i]
    ensures forall i :: 0 <= i < |keywords| ==> KeywordOf(GenerateUrls(keywords)[i]) == Some(keywords[i])
    ensures forall i, j :: (0 <= i < j < |keywords| && keywords[i] != keywords[j]
      ==> GenerateUrls(keywords)[i] != GenerateUrls(keywords)[j])
  {
    forall i | 0 <= i < |keywords|
      ensures KeywordOf(GenerateUrls(keywords)[i]) == Some(keywords[i])
    {
      UrlRoundTrip(keywords[i]);
    }
  }

  /** The keywords are pairwise different and none holds a `%`. */
  lemma KeywordsAreDistinctSearches()
    ensures |Keywords| == 10
    ensures forall i :: 0 <= i < |Keywords| ==> '%' !in Keywords[i]
    ensures forall i, j :: 0 <= i < j < |Keywords| ==> Keywords[i] != Keywords[j]
  {
  }

  /** The ten URLs the scraper visits are ten different searches. */
  lemma TenDistinctSearches()
    ensures |GenerateUrls(Keywords)| == 10
    ensures forall i, j :: 0 <= i < j < 10 ==> GenerateUrls(Keywords)[i] != GenerateUrls(Keywords)[j]
  {
    KeywordsAreDistinctSearches();
    GenerateUrlsRoundTrip(Keywords);
  }

  /** The job-link anchor of a card as flask_main.py selects it. */
  const FlaskLinkSel := Selector("a", "base-card__full-link")

  /** The per-card field extraction of `scrape_and_insert_data`: the ten
      columns of one card with the description's whitespace collapsed, or the
      `KeyError` of an anchor without `href`. */
  function ExtractListingCard(card: Doc): (r: Result<Job>)
    ensures r.Err? <==> HrefMissing(card, FlaskLinkSel) || HrefMissing(card, CompanySel)
    ensures r.Ok? ==> && r.value.source == Source
                      && CleanListing(r.value)
                      && AbsentIsSentinel(card, FlaskLinkSel, r.value)
                      && CompanyPair(card, r.value)
                      && FieldsRead(card, FlaskLinkSel, true, r.value)
                      && Normal(r.value.description)
  {
    var r := CardFields(card, FlaskLinkSel, true);
    if r.Ok? then CardFieldsMeaning(card, FlaskLinkSel, true); r else r
  }

  /** The cards of a page; a page without the results section contributes none. */
  function SectionCards(p: ListingPage): seq<Doc> {
    if p.section.Some? then p.section.value else []
  }

  /** The cards of a run's pages, page after page. */
  function CycleCards(pages: seq<ListingPage>): seq<Doc> {
    if pages == [] then [] else CycleCards(pages[..|pages| - 1]) + SectionCards(pages[|pages| - 1])
  }

  /** The pages fetched for the URLs, in order. */
  function PagesOf(urls: seq<string>, fetch: string -> ListingPage): (r: seq<ListingPage>)
    ensures |r| == |urls|
    ensures forall i :: 0 <= i < |r| ==> r[i] == fetch(urls[i])
  {
    seq(|urls|, i requires 0 <= i < |urls| => fetch(urls[i]))
  }

  lemma CycleCardsNext(pages: seq<ListingPage>, u: nat)
    requires u < |pages|
    ensures CycleCards(pages[..u + 1]) == CycleCards(pages[..u]) + SectionCards(pages[u])
  {
    assert pages[..u + 1][..u] == pages[..u];
  }

  /** A page without the results section adds no card, so no insert is
      attempted for it, and the pages after it are processed as usual. */
  lemma MissingSectionAddsNothing(pages: seq<ListingPage>, p: ListingPage, rest: seq<ListingPage>)
    requires p.section.None?
    ensures CycleCards(pages + [p] + rest) == CycleCards(pages + rest)
    decreases |rest|
  {
    if rest == [] {
      assert (pages + [p])[..|pages|] == pages;
      assert pages + [p] + rest == pages + [p];
      assert pages + rest == pages;
    } else {
      var n := |rest| - 1;
      MissingSectionAddsNothing(pages, p, rest[..n]);
      assert (pages + [p] + rest)[..|pages| + 1 + n] == pages + [p] + rest[..n];
      assert (pages + rest)[..|pages| + n] == pages + rest[..n];
    }
  }

  /** The cards of the first pages come first. */
  lemma {:induction false} CycleCardsPrefix(pages: seq<ListingPage>, u: nat)
    requires u <= |pages|
    ensures CycleCards(pages[..u]) <= CycleCards(pages)
    decreases |pages|
  {
    if u < |pages| {
      var n := |pages| - 1;
      assert pages[..n][..u] == pages[..u];
      CycleCardsPrefix(pages[..n], u);
    } else {
      assert pages[..u] == pages;
    }
  }

  /** A card that fails after an extracted prefix is the first failure of the run. */
  lemma FailureInCycle(pages: seq<ListingPage>, u: nat, c: nat, error: ExtractError, extract: Extractor)
    requires u < |pages| && pages[u].section.Some? && c < |pages[u].section.value|
    requires AllExtracted(CycleCards(pages[..u]) + pages[u].section.value[..c], extract)
    requires extract(pages[u].section.value[c]) == Err(error)
    ensures exists i: nat :: && FirstFailure(CycleCards(pages), extract, i)
                             && extract(CycleCards(pages)[i]) == Err(error)
  {
    CycleCardsNext(pages, u);
    CycleCardsPrefix(pages, u + 1);
    var i := |CycleCards(pages[..u])| + c;
    FailureAfterPrefix(CycleCards(pages), CycleCards(pages[..u]), pages[u].section.value, c, extract);
    assert FirstFailure(CycleCards(pages), extract, i);
  }

  lemma FailureAfterPrefix(all: seq<Doc>, done: seq<Doc>, cards: seq<Doc>, c: nat, extract: Extractor)
    requires done + cards <= all && c < |cards|
    requires AllExtracted(done + cards[..c], extract)
    requires extract(cards[c]).Err?
    ensures FirstFailure(all, extract, |done| + c) && all[|done| + c] == cards[c]
  {
    PrefixThrough(all, done, cards, c);
  }

  lemma PrefixThrough<T>(all: seq<T>, done: seq<T>, cards: seq<T>, c: nat)
    requires done + cards <= all && c < |cards|
    ensures all[..|done| + c] == done + cards[..c] && all[|done| + c] == cards[c]
  {
    assert all[..|done| + c] == (done + cards)[..|done| + c];
    assert all[|done| + c] == (done + cards)[|done| + c];
  }

  /** One more extracted card is one more INSERT. */
  lemma AppendJobsNextCard(s: Store, xs: seq<Doc>, card: Doc, accepts: Job -> bool, extract: Extractor)
    requires AllExtracted(xs, extract) && extract(card).Ok?
    ensures AllExtracted(xs + [card], extract)
    ensures AppendJobs(s, JobsOf(xs + [card], extract), accepts)
      == TryInsert(AppendJobs(s, JobsOf(xs, extract), accepts),
                   extract(card).value, accepts)
  {
    var jobs := JobsOf(xs, extract);
    JobsOfSnoc(xs, card, extract);
    assert (jobs + [extract(card).value])[..|jobs|] == jobs;
  }

  lemma ConcatNext<T>(done: seq<T>, s: seq<T>, c: nat)
    requires c < |s|
    ensures done + s[..c + 1] == (done + s[..c]) + [s[c]]
  {
    assert s[..c + 1] == s[..c] + [s[c]];
  }

  /** The inner loop of `scrape_and_insert_data` over the cards of one results
      section: extract, then INSERT; a refused INSERT is caught and the loop
      goes on. `error` is the `KeyError` of the first card that does not
      extract, which ends the loop. */
  method InsertSectionCards(t: Table, cards: seq<Doc>, extract: Extractor, ghost s0: Store, ghost done: seq<Doc>)
    returns (error: Option<ExtractError>, ghost at: nat)
    requires t.Valid() && s0.nextId <= t.nextId
    requires AllExtracted(done, extract)
    requires t.State() == AppendJobs(s0, JobsOf(done, extract), t.accepts)
    modifies t
    ensures t.Valid() && s0.nextId <= t.nextId
    ensures error.None? ==> && AllExtracted(done + cards, extract)
                            && t.State() == AppendJobs(s0, JobsOf(done + cards, extract), t.accepts)
    ensures error.Some? ==> && at < |cards|
                            && AllExtracted(done + cards[..at], extract)
                            && extract(cards[at]) == Err(error.value)
  {
    var c := 0;
    ghost var xs := done;
    while c < |cards|
      invariant 0 <= c <= |cards| && xs == done + cards[..c]
      invariant t.Valid() && s0.nextId <= t.nextId
      invariant AllExtracted(xs, extract)
      invariant t.State() == AppendJobs(s0, JobsOf(xs, extract), t.accepts)
    {
      var data := extract(cards[c]);
      if data.Err? {
        return Some(data.error), c;
      }
      AppendJobsNextCard(s0, xs, cards[c], t.accepts, extract);
      ConcatNext(done, cards, c);
      xs := xs + [cards[c]];
      var _ := t.Insert(data.value);
      c := c + 1;
    }
    assert cards[..c] == cards;
    return None, 0;
  }

  /** `scrape_and_insert_data` with the browser replaced by `fetch`. */
  method ScrapeAndInsertData(t: Table, fetch: string -> ListingPage) returns (outcome: Outcome)
    requires t.Valid()
    modifies t
    ensures t.Valid()
    ensures outcome != NoResultsSection
    ensures var cards := CycleCards(PagesOf(GenerateUrls(Keywords), fetch));
      && (outcome == Committed <==> AllExtracted(cards, ExtractListingCard))
      && (outcome == Committed ==>
            t.State() == AppendJobs(old(t.State()), JobsOf(cards, ExtractListingCard), t.accepts))
      && (outcome.Aborted? ==> t.rows == old(t.rows) && t.nextId >= old(t.nextId))
      && (outcome.Aborted? ==> exists i: nat ::
            FirstFailure(cards, ExtractListingCard, i) && ExtractListingCard(cards[i]) == Err(outcome.error))
  {
    var urls := GenerateUrls(Keywords);
    outcome := ScrapeUrls(t, urls, fetch, ExtractListingCard);
  }

  /** The `for url in urls` loop of `scrape_and_insert_data`, then the commit;
      an uncaught `KeyError` leaves the run's INSERTs uncommitted. The per-card
      extraction is a parameter, so the loop's proof does not depend on the
      field layout; `ScrapeAndInsertData` passes `ExtractListingCard`. */
  method ScrapeUrls(t: Table, urls: seq<string>, fetch: string -> ListingPage, extract: Extractor) returns (outcome: Outcome)
    requires t.Valid()
    modifies t
    ensures t.Valid()
    ensures outcome != NoResultsSection
    ensures var cards := CycleCards(PagesOf(urls, fetch));
      && (outcome == Committed <==> AllExtracted(cards, extract))
      && (outcome == Committed ==>
            t.State() == AppendJobs(old(t.State()), JobsOf(cards, extract), t.accepts))
      && (outcome.Aborted? ==> t.rows == old(t.rows) && t.nextId >= old(t.nextId))
      && (outcome.Aborted? ==> exists i: nat ::
            FirstFailure(cards, extract, i) && extract(cards[i]) == Err(outcome.error))
  {
    ghost var pages := PagesOf(urls, fetch);
    var saved := t.rows;
    ghost var s0 := t.State();
    ghost var done: seq<Doc> := [];
    var u := 0;
    while u < |urls|
      invariant 0 <= u <= |urls|
      invariant t.Valid() && s0.nextId <= t.nextId
      invariant done == CycleCards(pages[..u])
      invariant AllExtracted(done, extract)
      invariant t.State() == AppendJobs(s0, JobsOf(done, extract), t.accepts)
    {
      var page := fetch(urls[u]);
      assert page == pages[u];
      CycleCardsNext(pages, u);
      if page.section.None? {
        assert done + SectionCards(page) == done;
        u := u + 1;
        continue;
      }
      var error, at := InsertSectionCards(t, page.section.value, extract, s0, done);
      if error.Some? {
        FailureInCycle(pages, u, at, error.value, extract);
        LaterNextIdKeepsValid(s0.rows, s0.nextId, t.nextId);
        t.Rollback(saved);
        return Aborted(error.value);
      }
      done := done + page.section.value;
      u := u + 1;
    }
    assert pages[..u] == pages;
    return Committed;
  }
}
