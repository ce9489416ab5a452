# SearchEngine index store and services, in Dafny

This project models the core of a Spring Boot search engine for Russian-language
sites. The engine crawls configured sites and stores pages. For each page it
stores lemmas (per-site word frequencies) and postings (page, lemma, rank). It
answers ranked queries with snippets, and it reports statistics. The model
covers:

- the store and the repository queries over it (`Entities`, `Repositories`).
  `Tables` is one snapshot of the four tables, with their id counters. The
  derived and JPQL queries are functions of a snapshot. `Repositories.Database`
  is the mutable store: its methods perform the writes in place, and each is
  specified by a function from the old snapshot to the new one.
- lemma extraction, `LemmaFinder` (`LemmaFinder`): tokenising, the particle
  filter and the counting loop. The morphology analyser is a parameter
  (`Morphology`, with `morphInfo` and `normalForms`).
- search and ranking, `SearchServiceImpl` (`SearchService`):
  - stop-lemma filtering and the frequency order;
  - posting-list intersection;
  - absolute and relative relevance;
  - snippets;
  - the relevance sort and the `offset`/`limit` slice, with Java's 32-bit
    `offset + limit`.
- the response value factories of `SearchResponseDto` (`SearchResponse`).
- single-page indexing, `PageIndexingServiceImpl.indexPage` (`PageIndexing`): an
  in-place update of the `Database`, specified by the function `Indexed`.
- the site crawler, `SiteCrawler` (`SiteCrawler`). One task is the function
  `Run`. The class `Crawler` performs a task in place (`Compute`) and runs the
  fork/join tree as a sequential worklist (`Crawl`, whose end state is the
  function `CrawlFrom`).
- the indexing job, `IndexingServiceImpl` (`IndexingService`), as a state
  machine over site statuses. The class `Indexer` keeps the registry of running
  crawls as a set of site ids.
- the statistics, `StatisticsServiceImpl` (`Statistics`).
- Java `int` arithmetic where the source relies on it (`JavaInt`).

The store invariant `Entities.Consistent` says:
- ids are unique and below their counters;
- pages reference sites, and lemmas reference sites;
- postings reference pages, and their ranks are at least one;
- lemma frequencies are at least one;
- there is one lemma row per text and site.

The empty store is consistent (`EmptyTablesConsistent`), and every write of
the services keeps the invariant:
- starting the configured sites: `StartedKeepsConsistent`, from
  `StartOneKeepsConsistent`;
- indexing one page: `IndexPageKeepsConsistent`;
- a crawl task and a whole crawl: `RunKeepsConsistent` and
  `CrawlKeepsConsistent`;
- the end of a crawl: `CompletedKeepsConsistent`;
- the stop sweep: `StopAllKeepsConsistent`.

The methods `Indexer.StartIndexing`, `Indexer.Complete`,
`Indexer.StopIndexing`, `Crawler.Crawl` and `IndexPage` carry the same promise
in their contracts. A page row
references its site through the `site_id` key, so a crawl task whose site row
is gone stores no page. The insert fails, and the task's catch finds no row to
mark (`RunWithoutSiteRow`).

HTTP responses, parsed documents, link lists, the clock, the random generator
and thread interruption are inputs. A crawl task receives them as an `Answer`,
and a page fetch as a `Response`. Hash-map and hash-set iteration orders are
left open: the methods pick any element, and a ghost out-parameter records the
order they chose.

## Model

| member | source | states |
|---|---|---|
| JavaInt.NarrowToInt | src/main/java/searchengine/services/StatisticsServiceImpl.java:36-37 | the `(int)` cast of a count: the result is a Java int congruent to the input modulo 2^32, and the input itself when it fits |
| JavaInt.AddInt | src/main/java/searchengine/services/SearchServiceImpl.java:89 | Java int addition: the sum wrapped to a Java int, the exact sum when it fits |
| LemmaFinder.Normalize | src/main/java/searchengine/services/tools/LemmaFinder.java:54-55 | lower-casing and replacing every character other than `а`–`я` and whitespace by a space keeps the length and leaves only Russian letters and whitespace, with a letter exactly where the lower-cased input has one |
| LemmaFinder.SplitToRussianWords | src/main/java/searchengine/services/tools/LemmaFinder.java:53-58 | the split never returns an empty array; every token is empty or made only of `а`–`я`; an empty token occurs only as the single token of a letter-free text |
| LemmaFinder.SplitOfJoinedWords | src/main/java/searchengine/services/tools/LemmaFinder.java:53-58 | round trip: splitting Russian words joined by spaces gives back exactly those words |
| LemmaFinder.WordsOfUnwords | src/main/java/searchengine/services/tools/LemmaFinder.java:56-57 | trimming and splitting on whitespace runs inverts joining non-empty space-free words with single spaces |
| LemmaFinder.YoSeparatesWords | src/main/java/searchengine/services/tools/LemmaFinder.java:55 | `ё` lies outside `а`–`я`, so it splits a word in two |
| LemmaFinder.LetterFreeTextHasNoWords | src/main/java/searchengine/services/tools/LemmaFinder.java:53-58 | a text with no Russian letter splits into the single empty token |
| LemmaFinder.AnyWordBaseBelongToParticle | src/main/java/searchengine/services/tools/LemmaFinder.java:12-51 | true iff some upper-cased morphology string contains "МЕЖД", "ПРЕДЛ" or "СОЮЗ" |
| LemmaFinder.CollectLemmas | src/main/java/searchengine/services/tools/LemmaFinder.java:27-45 | the loop that skips blank tokens, particles and tokens without normal forms and adds one to the count of the first normal form yields the tally of the accepted tokens' first normal forms |
| LemmaFinder.TallySum | src/main/java/searchengine/services/tools/LemmaFinder.java:42 | the counts of a tally add up to the number of elements tallied |
| LemmaFinder.CollectedCounts | src/main/java/searchengine/services/tools/LemmaFinder.java:29-44 | every count of the result is at least one, and the counts sum to the number of accepted tokens |
| LemmaFinder.AcceptedFormsMembership | src/main/java/searchengine/services/tools/LemmaFinder.java:31-42 | a form is contributed iff some token is accepted with it as its first normal form |
| LemmaFinder.AcceptedFormsCount | src/main/java/searchengine/services/tools/LemmaFinder.java:40-42 | a form is contributed once per token accepted with it |
| LemmaFinder.CollectedKeys | src/main/java/searchengine/services/tools/LemmaFinder.java:31-42 | a key is in the result iff it is the first normal form of an accepted token, and its count is the number of such tokens |
| LemmaFinder.LetterFreeTextHasNoLemmas | src/main/java/searchengine/services/tools/LemmaFinder.java:31-32 | empty or letter-free text gives the empty map |
| SearchResponse.Ok | src/main/java/searchengine/dto/search/SearchResponseDto.java:14-20 | `result` is true, with the given data and count and no error |
| SearchResponse.OkEmpty | src/main/java/searchengine/dto/search/SearchResponseDto.java:22-24 | `result` is true, with empty data, count 0 and no error |
| SearchResponse.Error | src/main/java/searchengine/dto/search/SearchResponseDto.java:26-31 | `result` is false, `error` is the message, data is null and the count is 0 |
| SearchResponse.FactoriesDistinct | src/main/java/searchengine/dto/search/SearchResponseDto.java:14-31 | `okEmpty()` equals `ok([], 0)`; no `ok` equals an `error`; `ok(d, c)` is `okEmpty()` only for empty data and count 0 |
| Repositories.Filter | src/main/java/searchengine/repositories/PageRepository.java:14-16 | the rows kept are exactly the rows satisfying the test, so `count` and the `countBy` queries count exactly the matching rows |
| Repositories.FindFirst | src/main/java/searchengine/repositories/PageRepository.java:13 | an `Optional` query is empty iff no row matches, and otherwise returns a matching row |
| Repositories.FindSiteById | src/main/java/searchengine/services/crawler/SiteCrawler.java:108 | empty iff no site has the id, and otherwise the site with that id |
| Repositories.FindSiteByUrl | src/main/java/searchengine/services/IndexingServiceImpl.java:46 | empty iff no site has the url, and otherwise a site with that url |
| Repositories.FindPageByPathAndSite | src/main/java/searchengine/repositories/PageRepository.java:13 | empty iff no page has both the path and the site, and otherwise such a page |
| Repositories.Count | src/main/java/searchengine/repositories/PageRepository.java:14-16 | a count is at most the number of rows, zero iff no row matches, and the number of rows iff every row matches |
| Repositories.CountPagesBySiteId | src/main/java/searchengine/repositories/PageRepository.java:15 | at most the number of pages, and zero iff no page is on that site |
| Repositories.CountPagesBySiteUrl | src/main/java/searchengine/repositories/PageRepository.java:16 | at most the number of pages, and zero iff no page belongs to a site with that url |
| Repositories.CountLemmasBySiteId | src/main/java/searchengine/repositories/LemmaRepository.java:17 | at most the number of lemma rows, and zero iff no lemma row is on that site |
| Repositories.CountBySiteUrlIsBySiteId | src/main/java/searchengine/repositories/PageRepository.java:15-16 | with one site per url and per id, counting a site's pages by its url equals counting them by its id |
| Repositories.FindLemmaByLemmaAndSite | src/main/java/searchengine/repositories/LemmaRepository.java:14 | empty iff no row has both the text and the site, and otherwise such a row |
| Repositories.FindLemmaIsTheRow | src/main/java/searchengine/repositories/LemmaRepository.java:14 | with one row per text and site, the row found is the row itself |
| Repositories.FindTotalFrequencyByLemma | src/main/java/searchengine/repositories/LemmaRepository.java:19-24 | the SUM is null iff no row on any site has the text |
| Repositories.TotalFrequencyPositive | src/main/java/searchengine/repositories/LemmaRepository.java:19-24 | in a consistent store a non-null SUM is at least one |
| Repositories.FindPageIdByLemma | src/main/java/searchengine/repositories/SearchIndexRepository.java:16-21 | a page id is listed iff some posting on that page has a lemma with that text, on any site |
| Repositories.FindRankByPageIdAndLemma | src/main/java/searchengine/repositories/SearchIndexRepository.java:24-33 | null iff no posting joins that page to a lemma with that text; otherwise the rank of such a posting |
| Repositories.RankIffListed | src/main/java/searchengine/repositories/SearchIndexRepository.java:16-33 | a rank exists exactly for the pages the page-id query lists |
| Repositories.WithoutSite | src/main/java/searchengine/services/IndexingServiceImpl.java:51 | deleting a site removes exactly the sites with that id and leaves the other tables alone |
| Repositories.WithoutPagesOfSite | src/main/java/searchengine/repositories/PageRepository.java:12 | exactly that site's pages go; the other tables are unchanged |
| Repositories.WithoutLemmasOfSite | src/main/java/searchengine/repositories/LemmaRepository.java:15 | exactly that site's lemma rows go; the other tables are unchanged |
| Repositories.WithoutPostingsOfPage | src/main/java/searchengine/repositories/SearchIndexRepository.java:14 | exactly that page's postings go; the other tables are unchanged |
| Repositories.WithoutPage | src/main/java/searchengine/services/PageIndexingServiceImpl.java:61 | exactly the page with that id goes; the other tables are unchanged |
| Repositories.InsertPageKeepsConsistent | src/main/java/searchengine/services/crawler/SiteCrawler.java:97-105 | a page row added on a site that exists gets a fresh id and keeps a consistent store consistent |
| Repositories.UpdateSiteKeepsConsistent | src/main/java/searchengine/services/IndexingServiceImpl.java:124-132 | saving a site row keeps a consistent store consistent |
| Repositories.SavedSiteIsFound | src/main/java/searchengine/services/IndexingServiceImpl.java:124-132 | saving an existing site keeps the ids distinct, the saved row is then found by its id, and every other id finds what it found before |
| Repositories.Database.DeletePagesBySite | src/main/java/searchengine/repositories/PageRepository.java:12 | the store becomes `WithoutPagesOfSite` of the old store |
| Repositories.Database.DeleteLemmasBySite | src/main/java/searchengine/repositories/LemmaRepository.java:15 | the store becomes `WithoutLemmasOfSite` of the old store |
| Repositories.Database.DeletePostingsByPage | src/main/java/searchengine/repositories/SearchIndexRepository.java:14 | the store becomes `WithoutPostingsOfPage` of the old store |
| Repositories.Database.DeleteAllPostings | src/main/java/searchengine/services/IndexingServiceImpl.java:48 | every posting goes and nothing else changes |
| Repositories.Database.DeleteAllLemmas | src/main/java/searchengine/services/IndexingServiceImpl.java:49 | every lemma row goes and nothing else changes |
| Repositories.Database.SaveNewSite | src/main/java/searchengine/services/IndexingServiceImpl.java:54-59 | the new site gets the next id, the given status, time, url and name, and no error, and is appended |
| Repositories.Database.SaveNewPage | src/main/java/searchengine/services/crawler/SiteCrawler.java:97-105 | the new page gets the next id and the given site, path, code and content, and is appended |
| Repositories.Database.DeletePage | src/main/java/searchengine/services/PageIndexingServiceImpl.java:61 | the store becomes `WithoutPage` of the old one: exactly the page with that id goes, and nothing else changes |
| Repositories.Database.SaveSite | src/main/java/searchengine/services/crawler/SiteCrawler.java:107-114 | the row with the site's id is replaced by the site |
| Repositories.Database.DeleteSite | src/main/java/searchengine/services/IndexingServiceImpl.java:51 | the store becomes `WithoutSite` of the old one: exactly the site rows with that id go, and nothing else changes |
| Repositories.Database.SaveNewLemma | src/main/java/searchengine/services/PageIndexingServiceImpl.java:84-93 | the new lemma row gets the next id and is appended |
| Repositories.Database.SaveLemma | src/main/java/searchengine/services/PageIndexingServiceImpl.java:92-93 | the row with the lemma's id is replaced |
| Repositories.Database.SaveNewPosting | src/main/java/searchengine/services/PageIndexingServiceImpl.java:95-99 | a posting for the page and lemma, with the rank, is appended under the next id |
| SearchService.Threshold | src/main/java/searchengine/services/SearchServiceImpl.java:105 | `max(1, round(totalPages*share))`: at least one, and the nearest integer to the product whenever the product is at least one half |
| SearchService.InsertBy | src/main/java/searchengine/services/SearchServiceImpl.java:117-121 | inserting into a list sorted by the key keeps it sorted, adds exactly the one element, and keeps it duplicate-free |
| SearchService.SortBy | src/main/java/searchengine/services/SearchServiceImpl.java:117-121 | the sort is ordered by the key, keeps the length and the elements, and keeps a duplicate-free list duplicate-free |
| SearchService.FilterLemmas | src/main/java/searchengine/services/SearchServiceImpl.java:100-122 | a query lemma is kept iff its total frequency is non-null, positive and at most the threshold; the threshold is computed from the pages of the given site url or of all sites; each kept lemma appears once, in non-decreasing order of total frequency |
| SearchService.Candidates | src/main/java/searchengine/services/SearchServiceImpl.java:45-55 | none when no lemma survives; otherwise exactly the pages listed for every surviving lemma |
| SearchService.IntersectPageIds | src/main/java/searchengine/services/SearchServiceImpl.java:45-55 | the `retainAll` loop computes the candidates |
| SearchService.SumRanks | src/main/java/searchengine/services/SearchServiceImpl.java:128-134 | the inner loop sums the page's ranks over the lemmas, with a missing rank counting 0 |
| SearchService.CalculateAbsRelevance | src/main/java/searchengine/services/SearchServiceImpl.java:124-140 | one entry per candidate page, holding its absolute relevance |
| SearchService.CandidateRelevanceAtLeastLemmas | src/main/java/searchengine/services/SearchServiceImpl.java:124-140 | with positive ranks, a page listed for every lemma has absolute relevance at least the number of lemmas |
| SearchService.MaxRelevance | src/main/java/searchengine/services/SearchServiceImpl.java:62 | `Collections.max`: a value of the map that no value exceeds |
| SearchService.CandidateRelevanceInUnitInterval | src/main/java/searchengine/services/SearchServiceImpl.java:64-67 | a candidate's relative relevance lies in (0, 1] |
| SearchService.RelevanceNormalised | src/main/java/searchengine/services/SearchServiceImpl.java:59-67 | with the maximum taken over the candidates, every relative relevance lies in (0, 1] and the best page's is exactly 1 |
| SearchService.Anchor | src/main/java/searchengine/services/SearchServiceImpl.java:144-154 | -1 iff no word occurs; otherwise the least position of any word, and the index of the first word in the list that occurs there |
| SearchService.FindAnchor | src/main/java/searchengine/services/SearchServiceImpl.java:144-154 | the loop finds the anchor's position and word |
| SearchService.Window | src/main/java/searchengine/services/SearchServiceImpl.java:165-167 | `[max(0, i-r), min(len, i+r))` with `r = maxLen/2`: it contains the anchor, has at most `maxLen` characters, and each end is either clipped or `r` from the anchor |
| SearchService.SnippetWindowBounded | src/main/java/searchengine/services/SearchServiceImpl.java:156-169 | the snippet is the highlighting of a piece of the text of at most `maxLen` characters: as much of the start as fits when no word matched, otherwise a piece covering the first match, followed by "..." |
| SearchService.CyrillicReplacementIsExact | src/main/java/searchengine/services/SearchServiceImpl.java:160-172 | a `(?i)` replacement of a word without Latin letters is a plain case-sensitive replacement |
| SearchService.UnmatchedCyrillicWordsNotHighlighted | src/main/java/searchengine/services/SearchServiceImpl.java:160-172 | for words without Latin letters, a text in which none of them occurs with its own case (every occurrence capitalised, say) comes back unhighlighted |
| SearchService.CapitalisedRussianWordNotHighlighted | src/main/java/searchengine/services/SearchServiceImpl.java:172 | an example of the above: "Дом" is not highlighted for the lemma "дом" |
| SearchService.HighlightAll | src/main/java/searchengine/services/SearchServiceImpl.java:171-173 | the loop wraps every word in turn, as `Highlight` does |
| SearchService.BuildSnippet | src/main/java/searchengine/services/SearchServiceImpl.java:142-176 | the snippet is the highlighted first `min(maxLen, len)` characters without an ellipsis when no word occurs; otherwise it is the highlighted window around the anchor followed by "..." |
| SearchService.InsertByRelevance | src/main/java/searchengine/services/SearchServiceImpl.java:87 | inserting into a list sorted by decreasing relevance keeps it sorted and adds exactly that result |
| SearchService.SortByRelevance | src/main/java/searchengine/services/SearchServiceImpl.java:87 | the sort orders by non-increasing relevance and is a permutation |
| SearchService.Paginate | src/main/java/searchengine/services/SearchServiceImpl.java:89-90 | `subList(offset, min(offset+limit, size))`, with `offset+limit` wrapped to 32 bits: it fails iff `offset < 0` or `offset` exceeds the end, and the failure is an index error iff `offset < 0`; otherwise it returns consecutive elements from `offset` on |
| SearchService.PaginateWithinRange | src/main/java/searchengine/services/SearchServiceImpl.java:89-92 | within range the page is `data[offset..min(offset+limit, size)]` and its length is `min(limit, size-offset)` |
| SearchService.PaginateBeyondEndFails | src/main/java/searchengine/services/SearchServiceImpl.java:89-90 | an offset past the end is an error, not an empty page |
| SearchService.PaginateOverflowFails | src/main/java/searchengine/services/SearchServiceImpl.java:89 | for every offset within the hits, a `limit` with `offset + limit` past the `int` range makes `subList` throw `IllegalArgumentException` |
| SearchService.Respond | src/main/java/searchengine/services/SearchServiceImpl.java:92 | a page becomes `ok(page, page.size())`, so `count` is the page's length; a failed slice is thrown |
| SearchService.ResultFor | src/main/java/searchengine/services/SearchServiceImpl.java:71-83 | the hit describes the page with that id and the site row it references: the site's url and name, the page's path, the title and the snippet of its parsed content, and the given relevance |
| SearchService.HitFor | src/main/java/searchengine/services/SearchServiceImpl.java:71-83 | one pass of the loop body builds exactly the hit `ResultFor` describes |
| SearchService.CollectResults | src/main/java/searchengine/services/SearchServiceImpl.java:69-85 | one result per candidate page, in the set's iteration order |
| SearchService.AnswerFor | src/main/java/searchengine/services/SearchServiceImpl.java:45-92 | no candidates gives `okEmpty`; otherwise the maximum relevance is at least one, the results are one per candidate, sorted by non-increasing relevance, and the answer is their `offset`/`limit` page |
| SearchService.LemmasOfQuery | src/main/java/searchengine/services/SearchServiceImpl.java:36-41 | a null or blank query gives no lemmas; otherwise the analyser's lemmas of the query, or failure when the analyser cannot be loaded |
| SearchService.Search | src/main/java/searchengine/services/SearchServiceImpl.java:34-98 | a null or blank query, a failed analyser load or an empty candidate set gives `okEmpty`; the filtered lemmas are the surviving query lemmas, once each, by frequency; otherwise the answer is the ranked page of `AnswerFor` |
| Text.Replace | src/main/java/searchengine/services/PageIndexingServiceImpl.java:56 | `String.replace`: replacing a non-empty target by itself changes nothing, and by a replacement of its own length keeps the length |
| PageIndexing.PagePath | src/main/java/searchengine/services/PageIndexingServiceImpl.java:56 | a url on the site gives a path starting with "/", and the root url itself gives "/" |
| PageIndexing.StoredContent | src/main/java/searchengine/services/PageIndexingServiceImpl.java:69-73 | content is stored only below status 400, and then it is the whole body |
| PageIndexing.PagePathOfSiteUrl | src/main/java/searchengine/services/PageIndexingServiceImpl.java:56 | for the root url followed by a rest without it, the path is "/" followed by that rest |
| PageIndexing.ClearedConsistent | src/main/java/searchengine/services/PageIndexingServiceImpl.java:58-62 | removing an existing page keeps the store consistent, keeps the sites, and changes nothing when there is no page at the path |
| PageIndexing.ClearedRows | src/main/java/searchengine/services/PageIndexingServiceImpl.java:58-62 | removing an existing page deletes exactly that page, exactly its postings and exactly the site's lemma rows |
| PageIndexing.ClearedLemmas | src/main/java/searchengine/services/PageIndexingServiceImpl.java:60 | after removing an existing page, no lemma of the site remains, and rows of other sites are found as before |
| PageIndexing.IndexedPages | src/main/java/searchengine/services/PageIndexingServiceImpl.java:58-75 | the sites stay; the pages are the old ones minus the page at that path, plus the new page with the next id |
| PageIndexing.IndexedLemmas | src/main/java/searchengine/services/PageIndexingServiceImpl.java:58-93 | each lemma of the page has frequency one more than before (one more than 0 after a removal wiped the site's rows); every other text and site finds what it found before, except the wiped site |
| PageIndexing.IndexedPostingsKept | src/main/java/searchengine/services/PageIndexingServiceImpl.java:58-62 | the postings kept are the old ones minus the removed page's, and none of them is on the new page |
| PageIndexing.IndexedPostingsNew | src/main/java/searchengine/services/PageIndexingServiceImpl.java:79-100 | exactly one posting is added per lemma of the page, on the new page, pointing at the lemma's row, with the lemma's occurrence count as rank |
| PageIndexing.IndexedConsistent | src/main/java/searchengine/services/PageIndexingServiceImpl.java:58-100 | indexing a page keeps a consistent store consistent |
| PageIndexing.AddLemmaTo | src/main/java/searchengine/services/PageIndexingServiceImpl.java:80-99 | one loop step: find or create the row, raise its frequency, save a posting |
| PageIndexing.ClearOldPage | src/main/java/searchengine/services/PageIndexingServiceImpl.java:58-62 | deletes the postings of the page at the path, every lemma of the site and the page |
| PageIndexing.AddPageLemmas | src/main/java/searchengine/services/PageIndexingServiceImpl.java:79-100 | the loop visits every entry of the lemma map once, in some order, and performs the steps in that order |
| PageIndexing.IndexPage | src/main/java/searchengine/services/PageIndexingServiceImpl.java:34-108 | no site with the root url, a failed analyser load or a failed fetch returns false with the store unchanged; otherwise it returns true and the store is `Indexed` of the old one, with the site's id, the derived path, the status code, the content rule and the page's lemma map; a consistent store stays consistent |
| PageIndexing.IndexPageKeepsConsistent | src/main/java/searchengine/services/PageIndexingServiceImpl.java:34-108 | a successful `indexPage` on a consistent store leaves it consistent, whatever the map's order |
| SiteCrawler.GetPath | src/main/java/searchengine/services/crawler/SiteCrawler.java:168-173 | null iff the url does not start with the site url; otherwise a path starting with "/" that, with or without its leading slash, completes the site url to the url |
| SiteCrawler.GetPathOfSiteUrl | src/main/java/searchengine/services/crawler/SiteCrawler.java:171 | the site url itself has path "/" |
| SiteCrawler.GetPathOfPath | src/main/java/searchengine/services/crawler/SiteCrawler.java:172 | a remainder starting with "/" is the path unchanged |
| SiteCrawler.GetPathSlashOptional | src/main/java/searchengine/services/crawler/SiteCrawler.java:172 | a remainder without a leading "/" gets one, so the site url followed by `x` and followed by `/x` have the same path `/x` |
| SiteCrawler.RandomDelay | src/main/java/searchengine/services/crawler/SiteCrawler.java:163-166 | `nextInt(min, max + 1)` with Java int arithmetic: it fails iff `min > max` or `max + 1` overflows, and otherwise lies in `[min, max]` |
| SiteCrawler.RandomDelayCovers | src/main/java/searchengine/services/crawler/SiteCrawler.java:163-166 | every delay in `[min, max]` can be drawn |
| SiteCrawler.ContentRule | src/main/java/searchengine/services/crawler/SiteCrawler.java:83-95 | stored content is non-empty only for a status below 400 and a content type that, lower-cased, starts with "text/html" |
| SiteCrawler.ContentTypeCaseIgnored | src/main/java/searchengine/services/crawler/SiteCrawler.java:85 | the content-type test ignores case |
| SiteCrawler.StripFragment | src/main/java/searchengine/services/crawler/SiteCrawler.java:129-130 | the result has no '#', is a prefix of the url, and is the url itself when it has no '#' |
| SiteCrawler.ChildrenAreGood | src/main/java/searchengine/services/crawler/SiteCrawler.java:120-139 | every spawned url comes from a non-blank link of the site with its fragment stripped, has no '#', and has a path not yet visited |
| SiteCrawler.GoodLinksAreChildren | src/main/java/searchengine/services/crawler/SiteCrawler.java:120-139 | conversely, every non-blank link that already is such a url is spawned |
| SiteCrawler.Crawler.constructor | src/main/java/searchengine/services/crawler/SiteCrawler.java:36-46 | a task starts uninterrupted with the given site, store and delays, and with the given visited set, or a new empty one when none is given |
| SiteCrawler.Crawler.Interrupt | src/main/java/searchengine/services/IndexingServiceImpl.java:102 | the interrupt that `shutdownNow` delivers sets the task's interrupt flag and leaves `visited` alone |
| SiteCrawler.Crawler.ScanLinks | src/main/java/searchengine/services/crawler/SiteCrawler.java:117-139 | the link loop builds the child urls of the links, in order |
| SiteCrawler.TouchedSite | src/main/java/searchengine/services/crawler/SiteCrawler.java:107-114 | a stored page refreshes only the site's time, and changes nothing when the site row is gone; other sites are untouched |
| SiteCrawler.FailedSite | src/main/java/searchengine/services/crawler/SiteCrawler.java:149-160 | a failed task sets the site's error to "Ошибка обхода: " and the message ("null" for a null message), refreshes its time and keeps its status; other sites are untouched |
| SiteCrawler.Run | src/main/java/searchengine/services/crawler/SiteCrawler.java:49-161 | a crawl task changes only the site rows, the pages and the page counter of the store, and only adds to `visited` |
| SiteCrawler.RunWithoutSiteRow | src/main/java/searchengine/services/crawler/SiteCrawler.java:97-160 | when the crawl's site row is gone, a task changes no table and forks no child: the page insert breaks the `site_id` key and the catch finds no row to mark |
| SiteCrawler.RunKeepsConsistent | src/main/java/searchengine/services/crawler/SiteCrawler.java:49-161 | a crawl task on a consistent store leaves it consistent |
| SiteCrawler.RunKeepsSiteRows | src/main/java/searchengine/services/crawler/SiteCrawler.java:107-114 | with one row per site id, a crawl task changes no site row except its own site's, and that one only in its time and error |
| SiteCrawler.RunGrows | src/main/java/searchengine/services/crawler/SiteCrawler.java:55-105 | every crawl task keeps the crawl's pages appended, on its site, one per newly visited path |
| SiteCrawler.RunInterrupted | src/main/java/searchengine/services/crawler/SiteCrawler.java:50-53 | an interrupted task changes nothing and spawns nothing |
| SiteCrawler.RunAdmission | src/main/java/searchengine/services/crawler/SiteCrawler.java:55-105 | a url outside the site or with a visited path changes nothing; otherwise the path joins `visited`, and at most one page is stored, at that path, on the site, under the next id |
| SiteCrawler.RunContent | src/main/java/searchengine/services/crawler/SiteCrawler.java:83-105 | a stored page carries the response's status code, and non-empty content only for a successful HTML answer |
| SiteCrawler.RunChildren | src/main/java/searchengine/services/crawler/SiteCrawler.java:116-139 | spawned urls are good children with respect to `visited` after admission, and come only from a parsed HTML page |
| SiteCrawler.RunFailure | src/main/java/searchengine/services/crawler/SiteCrawler.java:149-160 | a fetch that throws stores no page, spawns nothing, records the crawl error and the time on the site, and is not rethrown |
| SiteCrawler.NewPagesStep | src/main/java/searchengine/services/crawler/SiteCrawler.java:61-105 | one more admitted page keeps the crawl's pages one per newly visited path |
| SiteCrawler.CrawlFrom | src/main/java/searchengine/services/crawler/SiteCrawler.java:141-146 | a whole crawl, run as a worklist, changes only the site rows, the pages and the page counter, and only adds to `visited` |
| SiteCrawler.CrawlGrows | src/main/java/searchengine/services/crawler/SiteCrawler.java:55-146 | a whole crawl only appends pages, on its site, one per newly visited path |
| SiteCrawler.CrawlKeepsConsistent | src/main/java/searchengine/services/crawler/SiteCrawler.java:55-160 | a whole crawl, whatever the worklist, on a consistent store leaves it consistent |
| SiteCrawler.CrawlKeepsSiteRows | src/main/java/searchengine/services/crawler/SiteCrawler.java:107-160 | with one row per site id, a whole crawl changes no other site's row, and its own only in time and error |
| SiteCrawler.Crawler.Compute | src/main/java/searchengine/services/crawler/SiteCrawler.java:49-161 | one task performed in place leaves the store, `visited` and the interrupt flag as `Run` says, and returns its children |
| SiteCrawler.Crawler.Drain | src/main/java/searchengine/services/crawler/SiteCrawler.java:141-146 | the worklist loop leaves the store, `visited` and the interrupt flag as `CrawlFrom` says |
| SiteCrawler.Crawler.Crawl | src/main/java/searchengine/services/crawler/SiteCrawler.java:55-146 | the crawl ends in the state `CrawlFrom` gives; it only grows `visited` and only appends pages, on the crawl's site, at newly visited paths, one per path; it leaves the lemmas, the postings and their counters alone; with one row per site id, it changes no other site's row, and its own only in time and error; it keeps a consistent store consistent |
| IndexingService.StartOneEffect | src/main/java/searchengine/services/IndexingServiceImpl.java:45-60 | the site url then finds a new INDEXING site with the next id, the configured name and no error; sites with other urls are kept; an old site with the url takes all postings, all lemmas and its own pages with it |
| IndexingService.StartedSites | src/main/java/searchengine/services/IndexingServiceImpl.java:44-60 | after the loop over the configuration every configured url finds an INDEXING site without error and with a fresh id, and every unconfigured site is kept |
| IndexingService.StartOneKeepsConsistent | src/main/java/searchengine/services/IndexingServiceImpl.java:45-60 | starting one site keeps a consistent store consistent |
| IndexingService.StartedKeepsConsistent | src/main/java/searchengine/services/IndexingServiceImpl.java:44-60 | starting every configured site keeps a consistent store consistent |
| IndexingService.CompletedSite | src/main/java/searchengine/services/IndexingServiceImpl.java:73-132 | normal completion turns INDEXING into INDEXED with the time and leaves any other status untouched; an escaped exception sets FAILED, the time, and "Ошибка индексации: " and the message; a missing site changes nothing; nothing else changes |
| IndexingService.CompletedKeepsConsistent | src/main/java/searchengine/services/IndexingServiceImpl.java:73-132 | writing a crawl's completion keeps a consistent store consistent |
| IndexingService.StopAllKeepsConsistent | src/main/java/searchengine/services/IndexingServiceImpl.java:104-115 | the stop sweep keeps a consistent store consistent |
| IndexingService.StopAllEffect | src/main/java/searchengine/services/IndexingServiceImpl.java:104-115 | the sweep turns every INDEXING site into FAILED with "Индексация остановлена пользователем" and the time, leaves the other sites as they were, leaves no site INDEXING, and leaves the other tables alone |
| IndexingService.Indexer.IsIndexingInProgress | src/main/java/searchengine/services/IndexingServiceImpl.java:120-122 | true when a site's crawl is registered, and false only when none is |
| IndexingService.Indexer.StartSite | src/main/java/searchengine/services/IndexingServiceImpl.java:45-60 | the transaction performs `StartOne` in place and returns the new site, with the next id |
| IndexingService.Indexer.StartAll | src/main/java/searchengine/services/IndexingServiceImpl.java:44-90 | the loop performs `Started` in place, and the ids it registers are the fresh ids, one per configured site |
| IndexingService.Indexer.StartIndexing | src/main/java/searchengine/services/IndexingServiceImpl.java:37-92 | returns false and changes nothing while a crawl is registered; otherwise starts every configured site and registers exactly the new ids; a consistent store stays consistent |
| IndexingService.Indexer.Complete | src/main/java/searchengine/services/IndexingServiceImpl.java:73-88 | the site's completion is written and its id leaves the registry; a consistent store stays consistent |
| IndexingService.Indexer.StopIndexing | src/main/java/searchengine/services/IndexingServiceImpl.java:95-118 | returns false and changes nothing when no crawl is registered; otherwise sweeps the sites and empties the registry; a consistent store stays consistent |
| Statistics.StatusNameInjective | src/main/java/searchengine/services/StatisticsServiceImpl.java:44 | `Status.name()` tells the statuses apart |
| Statistics.AnyIndexing | src/main/java/searchengine/services/StatisticsServiceImpl.java:32 | true iff some site is INDEXING |
| Statistics.Items | src/main/java/searchengine/services/StatisticsServiceImpl.java:40-54 | one item per site, in order, with its url, name, status name, time and error, and its page and lemma counts by site id |
| Statistics.GetStatistics | src/main/java/searchengine/services/StatisticsServiceImpl.java:26-65 | `result` is true; the totals are the site count, the page and lemma counts cast to int, and whether some site is INDEXING; the detailed list is `Items` of the sites |
| Statistics.PagesAddUp | src/main/java/searchengine/services/StatisticsServiceImpl.java:30-48 | when every page belongs to exactly one listed site, the per-site page counts add up to the number of pages |
| Statistics.LemmasAddUp | src/main/java/searchengine/services/StatisticsServiceImpl.java:31-49 | likewise for lemma rows |
| Statistics.DetailedAddsUpToTotal | src/main/java/searchengine/services/StatisticsServiceImpl.java:27-51 | in a consistent store whose counts fit an int, the detailed counts add up to the totals |
| Statistics.NotIndexingAfterStop | src/main/java/searchengine/services/IndexingServiceImpl.java:104-115 | after the stop sweep the statistics report no indexing |
| Statistics.IndexingAfterStart | src/main/java/searchengine/services/IndexingServiceImpl.java:44-60 | after a start with at least one configured site the statistics report indexing |

## Left out

- HTTP and HTML are inputs. The fetch, `response.parse()`, the document's text
  and title, `a[href]` selection with `absUrl`, and `clearHtml` are foreign
  libraries. A `Response` holds the status code, content type and body; `parse`
  maps a body to a `Document` (text, title, links).
- The Russian morphology library is an input (`Morphology`). A failed
  `LemmaFinder.getInstance` is an absent analyser: `search` then answers
  `okEmpty`, and `indexPage` returns false before any write.
- Concurrency is not modelled:
  - the fork/join pools, `CompletableFuture`, `awaitQuiescence` and
    `shutdownNow`;
  - a crawl is a sequential worklist bounded by a `fuel` number of tasks, so
    `Crawl` says nothing about what happens after the fuel runs out;
  - interleaving of tasks on the shared `visited` set and the store;
  - each transaction is one atomic step.
- SiteCrawler.Crawler.Compute: the interrupt check inside the link loop is not
  modelled. An interrupt arrives only through a crawl task's `Answer` (during the
  sleep) or `Interrupt`.
- SiteCrawler.Run: a negative delay, an empty `nextInt` range, or a
  `maxDelayMillis + 1` that overflows makes the source throw
  `IllegalArgumentException` out of `compute`. That exception is not caught by
  the crawl task that raised it. For a child task, the parent's `join` rethrows
  it, and the parent's catch records a crawl error on the site. The model ends
  such a crawl task with no effect beyond admitting its path, and drops that
  error record.
- `SiteCrawler.reset` and `SiteCrawler.stop` are not modelled. The crawler
  class that `IndexingServiceImpl` refers to, with static `reset`/`stop` and an
  8-argument constructor, is not part of this model. It differs from the
  `SiteCrawler` modelled here.
- IndexingService.Indexer.IsIndexingInProgress: the source asks whether some
  registered pool is not yet terminated. The model asks whether the registry is
  non-empty. A pool leaves the registry when its crawl completes or the job is
  stopped, so the two agree once pools end with their crawls.
- Floating point is not modelled:
  - `maxLemmaShare` and relative relevance are `real`;
  - ranks are `int` and absolute relevance is an exact integer sum, not a
    `float` sum;
  - `Math.round` is taken to the nearest integer, with halves rounding up,
    without its `long` saturation.
- SearchService.Search: it requires a consistent store, the invariant that
  every store the services build satisfies. Without it,
  `page.get()` on a missing page and a zero maximum relevance would be
  possible; the model does not describe those failures.
- SearchService.HighlightAll: the word is used literally, not as a regular
  expression. Only ASCII letters fold case, as `(?i)` does without
  `UNICODE_CASE`; query lemmas hold only `а`–`я`.
- Text case mapping covers the ASCII letters and the Cyrillic block
  U+0400–U+045F; other Unicode case mappings are not modelled.
- `getRootUrl` (URL parsing) is an input of `IndexPage`, and `existsByUrl`
  followed by `findByUrl` is one lookup.
- Repositories.FindTotalFrequencyByLemma: the SUM is an unbounded integer, and
  a frequency's `int` overflow is not modelled.
- Statistics.Items: `countBySiteId` returns an unbounded count; only the totals'
  `(int)` casts are modelled.
- PageIndexing.IndexPage: the model assumes the store has no foreign key from a
  posting to its lemma. Re-indexing a page deletes every lemma row of its site
  while other pages' postings still point at them. With the key that the
  `SearchIndex` mapping declares (`lemma_id`, not nullable), that delete would
  fail and `indexPage` would throw; the model performs the delete and leaves
  those postings pointing at lemma rows that no longer exist.
- A query that finds several rows where the source expects one
  (`NonUniqueResultException`) returns the first row instead.
- The configuration's site list is a sequence; `IndexingConfig` is otherwise
  not modelled.
- Timestamps are an opaque `now` supplied by the caller.
- `SiteRepository.java`, `Site.java`, `Lemma.java` and the statistics DTO
  classes are not part of this model. Their shape follows from their use in the
  services. `existsByUrl`, `findByUrl`, `findById`, `findAll`, `save`, `delete`
  and `deleteAll` are modelled by the functions and `Database` methods above.
- `ApiController`, the `SearchService` interface and the logging are not
  modelled.
- `startIndexing` deletes all postings and all lemmas of every site when it
  replaces an old site, not only that site's rows; `Replaced` does the same.
- The site url given to `search` changes only the frequency threshold. The
  candidate pages come from every site, in `Search` as in the source.
- SearchService.Search: `maxSnippetLength` is a `nat`. A negative configured
  length makes the source's `substring` throw; that failure is not modelled.
- SearchService.Window: `firstIndex + radius` is an unbounded integer. The
  source's `int` addition wraps for texts near 2^31 characters; that is not
  modelled.
