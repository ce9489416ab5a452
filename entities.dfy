/**
 * The persistent entities of the search engine (the JPA classes `Site`,
 * `Page`, `Lemma` and `SearchIndex`) and the store that holds their rows.
 * References between entities are kept as ids; a `Tables` value is one
 * snapshot of the four tables together with the next identity of each.
 */
module Entities {
  import opened Wrappers

  datatype Status = INDEXING | INDEXED | FAILED

  /** `LocalDateTime.now()` values are opaque time stamps supplied by the caller. */
  type Time = int

  datatype Site = Site(id: int, status: Status, statusTime: Time, lastError: Option<string>, url: string, name: string)

  /** A crawled page: its site, its site-relative path, the HTTP status code and the stored content. */
  datatype Page = Page(id: int, siteId: int, path: string, code: int, content: string)

  /** A normal form on one site, with the number of pages of that site it was counted on. */
  datatype Lemma = Lemma(id: int, siteId: int, text: string, frequency: int)

  /** A posting of the inverted index: the number of occurrences (`rank`) of a lemma on a page. */
  datatype SearchIndex = SearchIndex(id: int, pageId: int, lemmaId: int, rank: int)

  datatype Tables = Tables(
    sites: seq<Site>,
    pages: seq<Page>,
    lemmas: seq<Lemma>,
    postings: seq<SearchIndex>,
    nextSiteId: int,
    nextPageId: int,
    nextLemmaId: int,
    nextIndexId: int)

  const EmptyTables := Tables([], [], [], [], 1, 1, 1, 1)

  function SiteId(s: Site): int { s.id }
  function SiteUrl(s: Site): string { s.url }
  function PageId(p: Page): int { p.id }
  function LemmaId(l: Lemma): int { l.id }
  function LemmaKey(l: Lemma): (string, int) { (l.text, l.siteId) }

  /** No two rows of `s` share a key. */
  ghost predicate DistinctBy<T, K>(s: seq<T>, key: T -> K) {
    forall i, j :: 0 <= i < j < |s| ==> key(s[i]) != key(s[j])
  }

  /** No element occurs twice in `s`. */
  predicate Distinct<T(==)>(s: seq<T>) {
    forall i, j :: 0 <= i < j < |s| ==> s[i] != s[j]
  }

  predicate HasSite(t: Tables, siteId: int) {
    exists i :: 0 <= i < |t.sites| && t.sites[i].id == siteId
  }

  predicate HasPage(t: Tables, pageId: int) {
    exists i :: 0 <= i < |t.pages| && t.pages[i].id == pageId
  }

  /** Identities are distinct and below the next identity to be handed out. */
  ghost predicate IdentitiesFresh(t: Tables) {
    && (forall s :: s in t.sites ==> s.id < t.nextSiteId)
    && (forall p :: p in t.pages ==> p.id < t.nextPageId)
    && (forall l :: l in t.lemmas ==> l.id < t.nextLemmaId)
    && DistinctBy(t.sites, SiteId)
    && DistinctBy(t.pages, PageId)
    && DistinctBy(t.lemmas, LemmaId)
  }

  /** Every page belongs to a site, every lemma row to a site, every posting to a page. */
  ghost predicate ReferencesResolve(t: Tables) {
    && (forall p :: p in t.pages ==> HasSite(t, p.siteId))
    && (forall l :: l in t.lemmas ==> HasSite(t, l.siteId))
    && (forall x :: x in t.postings ==> HasPage(t, x.pageId))
  }

  /**
   * The invariant every operation of the engine keeps: fresh distinct
   * identities, resolvable references, one lemma row per text and site,
   * and positive frequencies and ranks.
   */
  ghost predicate Consistent(t: Tables) {
    && IdentitiesFresh(t)
    && ReferencesResolve(t)
    && DistinctBy(t.lemmas, LemmaKey)
    && (forall l :: l in t.lemmas ==> l.frequency >= 1)
    && (forall x :: x in t.postings ==> x.rank >= 1)
  }

  lemma EmptyTablesConsistent()
    ensures Consistent(EmptyTables)
  {
  }
}
