# LinkedIn job scraper: a Dafny model of its core

The scraper collects job postings from LinkedIn search-results pages and keeps
them in one relational table, `linkedin`. The table has an auto-increment `id`
and ten text columns. The repository contains four programs, and this project
models the core each one runs once the browser, the HTML parser, the database
driver and Flask are abstracted away:

- **main.py** scrapes one results page. It reads every job card field by field
  (`extractJobData`) and writes each card with a title check (`insert_job_data`):
  it inserts the card only when no stored row has the same title. The whole run
  is one transaction.
- **flask_main.py** `scrape_and_insert_data` builds one search URL per keyword
  (`generate_urls`). It reads the cards of each results page the same way,
  except that it uses another job-link anchor and collapses whitespace in the
  description. It inserts every card with no title check. `get_jobs` answers a
  search: the rows where one of the ten columns contains the search text, one
  `LIMIT`/`OFFSET` page of them, their count and the page count.
- **flask_main_detail.py** and **main_detail.py** run the enrichment pass. They
  page through `(id, job_link)` ten rows at a time until a page comes back
  empty. For each row they open the job's own page and overwrite three columns
  by id: description, job type and salary. The two copies read the job type
  from different elements.

How the model is built:

- **Pages.** A parsed card or page is a map from a `find(tag, class_=…)`
  selector to the element it finds: the element's text and its attributes. The
  browser is a function from a URL to such a page.
- **The table.** The `Jobs.Table` class holds the rows and the next value of
  the id sequence. Its methods run the statements the scrapers issue: the title
  check, `INSERT`, `UPDATE … WHERE id`, `SELECT id, job_link … LIMIT OFFSET`,
  and the rollback of an uncommitted run.
- **Refused rows.** The predicate `accepts` stands for the store's own
  constraints, such as the `VARCHAR(255)` columns of migration.py:14-28. A row
  it refuses raises a database error, which the scrapers catch and report.
- **Python's string operations.** `str.strip()`, `re.sub(r'\s+', ' ', …)`,
  `str.replace(' ', '%20')` and the substring test behind `LIKE '%…%'` are
  written out character by character in `Strings`.
- **Module layout.** `Cards` holds the card reading that the two listing
  scrapers share. `ListingScraper` models main.py and `FlaskScraper` models
  `scrape_and_insert_data`. `JobSearch` models `get_jobs`. `DetailScraper`
  models both enrichment passes; its `Variant` parameter selects the job-type
  element.
- **Loops.** The loops are imperative methods proved against functions on the
  table's rows. The per-card extraction (`Extractor`) and the per-link detail
  lookup are parameters of the loop methods. The scraper-level methods pass the
  concrete ones: `ExtractJobData`, `ExtractListingCard` and `DetailOf(fetch, v)`.

## Model

| member | source | states |
|---|---|---|
| Strings.Trim | main.py:52-53 | `strip()` leaves no leading or trailing whitespace, and its result is the input with a whitespace-only margin cut on each side |
| Strings.TrimIsUniqueStrip | main.py:52-53 | any stripped string obtained by cutting whitespace-only margins off `s` is `strip(s)`, so `strip()` is determined by that property |
| Strings.CollapseWhitespace | flask_main.py:94 | after `re.sub(r'\s+', ' ', s)` no two whitespace characters are adjacent and every whitespace character is a plain space; the result is empty exactly when the input is; it starts with whitespace exactly when the input does |
| Strings.CollapseKeepsText | flask_main.py:94 | collapsing whitespace keeps every non-whitespace character, in order: only whitespace is replaced |
| Strings.CollapseSplits | flask_main.py:94 | text cut after a non-whitespace character collapses piece by piece, since no whitespace run crosses the cut |
| Strings.CollapseRunBetweenWords | flask_main.py:94 | a whitespace run between two pieces of text becomes exactly one space between their collapsed forms |
| Strings.Normalize | flask_main.py:91-94 | the stored description has no margin whitespace, no two adjacent whitespace characters and only plain spaces |
| Strings.NormalizeKeepsText | flask_main.py:91-94 | the normalised description keeps every non-whitespace character of the raw one, in order |
| Strings.TrimKeepsText | main.py:52-53 | `strip()` removes whitespace only: the non-whitespace characters stay, in order |
| Strings.NormalIffFixed | flask_main.py:94 | the strings of that shape are exactly the ones the normalisation leaves unchanged |
| Strings.NormalizeIdempotent | flask_main.py:94 | normalising a normalised description changes nothing |
| Strings.StrippedIsTrimmed | main.py:52-53 | `strip()` leaves an already stripped string unchanged |
| Strings.EncodeSpaces | flask_main.py:51 | `replace(' ', '%20')` leaves no space; the result holds a `%` exactly when the keyword held a `%` or a space |
| Strings.DecodeEncodeSpaces | flask_main.py:51 | a keyword without `%` is recovered by turning every `%20` back into a space |
| Strings.Contains | flask_main.py:159-163 | `LIKE '%q%'` on one value: a value shorter than `q` never matches, and a value equal to `q` always does |
| Strings.ContainsIff | flask_main.py:159-163 | `LIKE '%q%'` holds exactly when `q` occurs at some position of the value |
| Strings.ContainsEmpty | flask_main.py:148-159 | the pattern `'%%'` built from the default empty search matches every value |
| Markup.SentinelIsNormal | flask_main.py:91-94 | the sentinel `N/A` is stripped, and the description normalisation leaves it unchanged |
| Markup.TextOf | main.py:52-53 | a field is the stripped text of its element, or exactly `N/A` when the element is absent |
| Markup.HrefOf | main.py:54-56 | a link is the stripped `href` of its anchor, or `N/A` when the anchor is absent; an anchor without `href` is the `KeyError` and nothing else is |
| Paging.Page | flask_main.py:154-164 | page `p` of `per_page` rows holds at most `per_page` rows, is empty exactly when `per_page` is 0 or `(p - 1) * per_page` is past the end, and its row `k` is row `(p - 1) * per_page + k` |
| Paging.Slice | flask_main.py:164 | `LIMIT n OFFSET m` returns `min(n, len - m)` rows, none when the offset is past the end, and row `k` of the result is row `m + k` |
| Paging.TotalPages | flask_main.py:183 | the page count is 0 for no rows, and otherwise `(pages - 1) * per_page < total <= pages * per_page` |
| Paging.TotalPagesIsLeast | flask_main.py:183 | `q` pages of `per_page` rows hold every row exactly when `q` is at least the page count |
| Paging.JoinedIsPrefix | flask_main.py:154-164 | pages 1 to `q` together are the first `q * per_page` rows, in order |
| Paging.PagesPartition | flask_main.py:154-183 | pages 1 to the page count are non-empty and together hold every row once, in order; every later page is empty |
| Paging.PaginationExample | flask_main.py:183 | 25 rows at 10 per page make 3 pages of 10, 10 and 5 rows, and page 4 is empty |
| Jobs.HasTitle | main.py:94-98 | the `SELECT 1 … WHERE job_title = %s LIMIT 1` scan finds a row exactly when some stored row has that title |
| Jobs.TryInsert | flask_main.py:117-121 | one INSERT keeps the ids valid, keeps every existing row and the sequence's order, and stores the title exactly when it was stored already or the row is accepted |
| Jobs.InsertIfAbsent | main.py:92-123 | a stored title leaves the table unchanged; otherwise an accepted card becomes one new row with the next id and a refused one changes nothing; the title ends up stored exactly when it was before or the card is accepted; distinct titles stay distinct |
| Jobs.InsertJobs | main.py:156-158 | the title-checked writer over a batch keeps the ids valid and the existing rows, and keeps stored titles pairwise distinct |
| Jobs.InsertJobsStoresTitles | main.py:94-117 | after the batch, the title of every card the store accepts is stored |
| Jobs.InsertJobsNoChange | main.py:94-119 | a batch whose accepted titles are all stored already changes nothing |
| Jobs.InsertJobsIdempotent | main.py:156-158 | writing the same batch twice leaves the table as writing it once |
| Jobs.InsertJobsSkipsRepeat | main.py:94-101 | with the title check, a second copy of a card adds nothing |
| Jobs.AppendJobs | flask_main.py:117-121 | the unchecked writer adds one row per accepted card and advances the id sequence by as many, keeping the existing rows; a refused card is skipped and the batch goes on |
| Jobs.AppendJobsRows | flask_main.py:117-121 | the rows a batch adds are exactly its accepted cards, in batch order, with ids `nextId`, `nextId + 1`, … taken from the sequence; the old rows stay in front |
| Jobs.AppendJobsDuplicates | flask_main.py:117-121 | without the title check the same accepted card written twice gives two rows with one title, so titles are no longer distinct |
| Jobs.SetDetail | flask_main_detail.py:64-76 | the UPDATE on one row keeps its id and listing columns; a row with another id is unchanged; otherwise the row holds the new detail when the store accepts it and its old values when not |
| Jobs.UpdateById | flask_main_detail.py:64-76 | the UPDATE by id keeps the number of rows |
| Jobs.UpdateByIdMeaning | flask_main_detail.py:64-76 | the UPDATE keeps every id and every column but the three detail ones; rows with another id are unchanged; the row with that id takes the new detail when the store accepts it, and any row whose new detail the store refuses keeps its old values; an id not in the table changes nothing |
| Jobs.IdLinks | flask_main_detail.py:110-111 | `SELECT id, job_link` yields one `(id, link)` pair per row, in row order |
| Jobs.Table.constructor | migration.py:14-28 | a new table is empty and its id sequence starts at 1 |
| Jobs.Table.ExistsTitle | main.py:94-98 | the title check finds a row exactly when some stored row has that title |
| Jobs.Table.Insert | flask_main.py:117-121 | an accepted row is appended with the next id and the sequence advances; a refused one changes nothing; the new state is `TryInsert` of the old |
| Jobs.Table.UpdateDetail | flask_main_detail.py:64-79 | the table becomes `UpdateById` of the old rows; the sequence and the ids' validity are kept |
| Jobs.Table.ScanPage | flask_main_detail.py:110-111 | the page is the `(id, link)` pairs of the `LIMIT`/`OFFSET` slice; it holds at most `limit` pairs and is empty exactly when the offset is past the end or the limit is 0 |
| Jobs.Table.Rollback | main.py:163-172 | a run that ends before the commit leaves the committed rows as they were, while the id sequence keeps its value |
| Cards.CardFields | main.py:51-89 | extraction fails exactly when the job-link or the company anchor has no `href`, and names the first such anchor in reading order; `job_source` is always `LinkedIn` |
| Cards.CardJob | main.py:78-89 | the ten-column record of a card whose anchors carry `href`: `job_source` is `LinkedIn`, every column is stripped, every absent element gives `N/A`, and company name and link come from one anchor |
| Cards.ReadFieldsAreClean | main.py:51-76 | any record read field by field from a card is stripped in every column, and its company name and link come from one anchor |
| Cards.ReadFieldsKeepSentinels | main.py:51-76 | any record read field by field from a card holds `N/A` in every column whose element the card lacks |
| Cards.CardFieldsMeaning | main.py:51-89 | each column of an extracted card is read from its own element: the title, location, salary, job type, posted date and company name are the element's stripped text or `N/A`, the two links the anchor's stripped `href` or `N/A`; the description is the stripped text, normalised in flask_main.py; so every column is stripped, every absent element gives `N/A`, and company name and link come from one anchor |
| Cards.MissingNodeBlanksOnlyItsFields | flask_main.py:87-112 | removing one element from a card turns only the fields read from it into `N/A`; every other field is extracted as before |
| Cards.SentinelCollidesWithText | main.py:61-64 | a company anchor whose text is literally `N/A` yields the sentinel as the name although the anchor is there and its link is read |
| Cards.JobsOf | main.py:156-157 | a batch's jobs are its cards' extractions, card by card |
| ListingScraper.ExtractJobData | main.py:51-89 | main.py's card reading fails exactly on a job-link or company anchor without `href`; otherwise each column is read from its own element (stripped text or `href`, `N/A` when absent), the source is `LinkedIn`, the description is the element's stripped text, and so all ten columns are stripped and the company pair comes from one anchor |
| ListingScraper.InsertJobData | main.py:92-123 | the title check followed by the INSERT leaves the table as `InsertIfAbsent` of the old one |
| ListingScraper.ScrapeListingPage | main.py:143-172 | a page without the results section ends the run with the table unchanged; the run commits exactly when every card extracts, and the table is then the title-checked writer applied to the cards; otherwise the first failing card's `KeyError` ends the run and its rows are rolled back |
| ListingScraper.InsertCards | main.py:156-161 | the card loop commits exactly when every card extracts, with the table as the title-checked writer over the batch; otherwise it reports the first failing card's error and restores the rows |
| ListingScraper.ListingRunIdempotent | main.py:156-158 | scraping the same page twice leaves the table as scraping it once |
| FlaskScraper.UrlRoundTrip | flask_main.py:50-51 | a keyword without `%` is read back from its search URL |
| FlaskScraper.SearchUrl | flask_main.py:50-51 | a search URL is the fixed prefix, the encoded keyword and the fixed suffix, and contains no space |
| FlaskScraper.GenerateUrls | flask_main.py:49-51 | one URL per keyword, in keyword order, each the search URL of its keyword and free of spaces |
| FlaskScraper.GenerateUrlsRoundTrip | flask_main.py:49-51 | each URL carries its own keyword, so distinct keywords give distinct URLs |
| FlaskScraper.KeywordsAreDistinctSearches | flask_main.py:43-45 | there are ten keywords, pairwise different and without `%` |
| FlaskScraper.TenDistinctSearches | flask_main.py:43-51 | the scraper visits ten pairwise different search URLs |
| FlaskScraper.ExtractListingCard | flask_main.py:86-115 | flask_main.py's card reading fails exactly on a job-link or company anchor without `href`; otherwise each column is read from its own element (stripped text or `href`, `N/A` when absent), the source is `LinkedIn`, the description is the normalised text of its element, and so all ten columns are stripped and the company pair comes from one anchor |
| FlaskScraper.PagesOf | flask_main.py:68-74 | the pages fetched are the pages of the URLs, in URL order |
| FlaskScraper.MissingSectionAddsNothing | flask_main.py:78-81 | a page without the results section contributes no card and so no INSERT, and the pages after it are processed as usual |
| FlaskScraper.InsertSectionCards | flask_main.py:86-121 | each card of a section is extracted and INSERTed in order, refused rows skipped; the first card that does not extract stops the loop with its error |
| FlaskScraper.ScrapeUrls | flask_main.py:68-125 | the run commits exactly when every card of every page extracts, with the table as the unchecked writer over all cards in page order; otherwise the first failing card's `KeyError` ends the run, the rows are rolled back and the id sequence has only moved forward |
| FlaskScraper.ScrapeAndInsertData | flask_main.py:55-127 | the same, for the ten keyword URLs and flask_main.py's card reading |
| JobSearch.Matches | flask_main.py:159-163 | the WHERE clause holds exactly when the search text occurs at some position of one of the ten text columns |
| JobSearch.Filter | flask_main.py:161-163 | a row is listed exactly when it is a stored row and one of its ten columns contains the search text; no more rows than stored |
| JobSearch.FilterKeepsOrder | flask_main.py:161-164 | the matching rows keep the table's row order |
| JobSearch.EveryJobMatchesEmptySearch | flask_main.py:148-163 | every row matches the default empty search |
| JobSearch.FilterEmptySearch | flask_main.py:148-163 | an empty search selects the whole table |
| JobSearch.GetJobs | flask_main.py:146-189 | for a `per_page` and offset within PostgreSQL's `bigint` range, the request fails exactly when `page < 1` or `per_page < 1`: a zero page size divides by zero, and otherwise the database refuses a negative OFFSET before a negative LIMIT; a served page echoes `page` and `per_page`, counts the matches, and lists at most `per_page` matches starting at `(page - 1) * per_page` |
| JobSearch.ListedRowsMatch | flask_main.py:161-170 | every listed row is a stored row that matches the search |
| JobSearch.PageCountMeaning | flask_main.py:176-183 | the page count is the least number of pages that holds every match, and a page is non-empty exactly when its number is at most the page count |
| JobSearch.PagesListEveryMatch | flask_main.py:154-183 | requesting pages 1 to the page count lists every match exactly once, in order |
| JobSearch.EmptySearchListsEveryRow | flask_main.py:148-183 | an empty search counts every row and pages through the whole table |
| DetailScraper.ExtractAdditionalJobData | flask_main_detail.py:47-60 | description, job type and salary are each the stripped text of their own element, or `N/A` when the page lacks it; main_detail.py:37-50 is the `MainDetail` variant |
| DetailScraper.VariantsDisagreeOnJobType | main_detail.py:40-42 | a page carrying only main_detail.py's job-type element gives `N/A` in flask_main_detail.py and that element's text in main_detail.py, and the same description and salary in both |
| DetailScraper.DetailOf | flask_main_detail.py:121-126 | the detail of a link is the additional data read from the page the browser returns for that link |
| DetailScraper.EnrichRow | flask_main_detail.py:118-129 | one row's `update_job_data` keeps its id and listing columns and sets the three detail columns to the values of its own page, unless the store refuses them |
| DetailScraper.EnrichAll | flask_main_detail.py:118-129 | the pass keeps the number of rows |
| DetailScraper.EnrichAllMeaning | flask_main_detail.py:118-129 | after the pass every row keeps its id and listing columns, and holds the detail of its own link unless the store refuses it |
| DetailScraper.EnrichAllIdempotent | flask_main_detail.py:118-129 | running the pass again against the same pages changes nothing |
| DetailScraper.EnrichIgnoresPriorDetail | flask_main_detail.py:118-129 | what a row held in the three detail columns before the pass does not affect the result; the overwrite is unconditional |
| DetailScraper.EnrichStep | flask_main_detail.py:64-76 | since ids are distinct, the UPDATE for the next row in order enriches exactly that row |
| DetailScraper.ScannedPage | flask_main_detail.py:110-111 | during the pass, a page holds the ids and links of the original rows at its positions; a non-empty page starts inside the table and reaches `min(offset + 10, rows)` |
| DetailScraper.ScrapeAndUpdateJobs | flask_main_detail.py:83-135 | the pass terminates, enriches every row from its own link, visits each `(id, link)` pair exactly once in row order, inserts and deletes nothing, and issues `ceil(n / 10) + 1` SELECTs for `n` rows |
| DetailScraper.UpdateFromLinks | main_detail.py:71-123 | the paging loop with the detail lookup as a parameter: the same four facts |
| DetailScraper.UpdatePage | flask_main_detail.py:118-129 | the UPDATEs of one page enrich exactly the rows at the page's positions |

## Left out

- Browser work is not modelled: Selenium setup, navigation, scrolling, sleeps and navigation failures. A page is what a total function `fetch` returns for a URL.
- HTML parsing is not modelled. A card or page is a map from `find(tag, class_=…)` selectors to the first element each one matches. The `find_all` over the results section is the sequence of cards in `ListingPage`.
- The database driver is not modelled: connections, cursors, `close`, and the PostgreSQL rule that after one failed statement every later statement of the transaction fails too. A refused row is decided by `accepts` on that row alone.
- The id that PostgreSQL's sequence consumes for a refused INSERT is not modelled: a refused INSERT leaves `nextId` unchanged.
- DetailScraper.ScrapeAndUpdateJobs: overstates the pass for a row whose job link is `N/A`, which happens whenever a card lacks its job-link anchor. `driver.get("N/A")` (flask_main_detail.py:35, main_detail.py:27) raises a WebDriver error that is neither `psycopg2.Error` nor `mysql.connector.Error` (flask_main_detail.py:137, main_detail.py:125), so the real pass stops at that row: later rows are not enriched and the current page's UPDATEs are not committed. The model's `fetch` is total and enriches every row.
- `cursor(dictionary=True)` at flask_main.py:157 is a mysql-connector keyword that psycopg2's `cursor()` does not take, so `get_jobs` as written fails at that call. `JobSearch.GetJobs` models the query the endpoint evidently intends, with rows returned as records.
- Flask routes, `jsonify`, CORS, request JSON parsing and `int()` on a malformed `page` or `limit` are not modelled; `GetJobs` takes integers.
- The APScheduler job, environment loading, credentials and `print` logging are not modelled. So is the error reporting of `update_job_data` and `insert_job_data`: a caught error is modelled only by its effect, which is that the row is left as it was.
- The SQL functions `LIKE` and `COUNT(*)` are modelled for a search text without `%`, `_` or `\`. The first two would act as wildcards, and a backslash is `LIKE`'s default escape character. Matching is case-sensitive, as PostgreSQL's `LIKE` is.
- `SELECT … LIMIT OFFSET` has no `ORDER BY`, so the database promises no order. The model fixes one order, ascending id order, and assumes that an UPDATE does not move a row within it. With MySQL's default InnoDB engine (migration.py:15-16 names no other), main_detail.py's scan follows the primary key, so that order holds there. PostgreSQL writes a new row version on every UPDATE, and a later page's sequential scan can find it elsewhere in the table.
- DetailScraper.ScrapeAndUpdateJobs: "each `(id, link)` pair exactly once, in row order" and the count of `ceil(n / 10) + 1` SELECTs hold for the PostgreSQL copy (flask_main_detail.py:110, 129, 132) only under that assumption. There, rows moved by the committed UPDATEs of earlier pages can be skipped by a later page or enriched twice.
- JobSearch.GetJobs: integer width is not modelled. PostgreSQL's `LIMIT` and `OFFSET` are `bigint`, so a `per_page` or an offset `(page - 1) * per_page` outside -2^63 to 2^63 - 1 raises a range error (flask_main.py:154, 164-168). When either value is out of that range the database raises a range error. The model instead serves a page when neither value is negative, and reports `NegativeOffset` or `NegativeLimit` when one of them is.
- Whitespace is a fixed list of characters: the ASCII and Latin-1 whitespace plus the Unicode space separators. The list is what Python's `str.isspace()` accepts, not a derivation from the Unicode database.
- The sentinel `N/A` is indistinguishable from a field whose text is literally `N/A` (`Cards.SentinelCollidesWithText`).
- A run's effect on the table is modelled. The order of the statements against a live database and concurrent writers are not.
- main_detail.py uses mysql-connector and flask_main_detail.py uses psycopg2. Both passes are modelled on one table, because they run the same statements.
