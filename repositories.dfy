/**
 * The Spring Data repositories over the store: the derived and JPQL
 * queries as functions of a `Tables` snapshot, the writes as functions
 * from one snapshot to the next, and `Database`, the mutable store whose
 * methods perform those writes in place.
 */
module Repositories {
  import opened Wrappers
  import opened Entities

  /** The rows of `s` that satisfy `keep`, in their order. */
  function Filter<T(!new)>(s: seq<T>, keep: T -> bool): (r: seq<T>)
    ensures |r| <= |s|
    ensures forall x :: x in r <==> x in s && keep(x)
    ensures |r| == |s| <==> forall x :: x in s ==> keep(x)
  {
    if s == [] then []
    else (if keep(s[0]) then [s[0]] else []) + Filter(s[1..], keep)
  }

  /** Dropping rows never makes two keys clash. */
  lemma {:induction false} FilterKeepsDistinct<T(!new), K>(s: seq<T>, keep: T -> bool, key: T -> K)
    requires DistinctBy(s, key)
    ensures DistinctBy(Filter(s, keep), key)
  {
    if s != [] {
      assert DistinctBy(s[1..], key) by {
        forall i, j | 0 <= i < j < |s[1..]| ensures key(s[1..][i]) != key(s[1..][j]) {
          assert s[1..][i] == s[i + 1] && s[1..][j] == s[j + 1];
        }
      }
      FilterKeepsDistinct(s[1..], keep, key);
      var rest := Filter(s[1..], keep);
      if keep(s[0]) {
        var r := [s[0]] + rest;
        forall i, j | 0 <= i < j < |r| ensures key(r[i]) != key(r[j]) {
          if i == 0 {
            assert r[j] == rest[j - 1] && rest[j - 1] in s[1..];
            var m :| 0 <= m < |s[1..]| && s[1..][m] == r[j];
            assert s[m + 1] == r[j];
          } else {
            assert r[i] == rest[i - 1] && r[j] == rest[j - 1];
          }
        }
      } else {
        assert Filter(s, keep) == rest;
      }
    }
  }

  /** The number of rows of `s` that satisfy `p`. */
  function Count<T(!new)>(s: seq<T>, p: T -> bool): (r: nat)
    ensures r <= |s|
    ensures r == 0 <==> forall x :: x in s ==> !p(x)
    ensures r == |s| <==> forall x :: x in s ==> p(x)
  {
    var kept := Filter(s, p);
    assert kept != [] ==> kept[0] in kept;
    |kept|
  }

  /** The position of the first row satisfying `p`, or -1. */
  function FirstIndex<T>(s: seq<T>, p: T -> bool): (i: int)
    ensures -1 <= i < |s|
    ensures i == -1 ==> forall j :: 0 <= j < |s| ==> !p(s[j])
    ensures 0 <= i ==> p(s[i]) && forall j :: 0 <= j < i ==> !p(s[j])
  {
    if s == [] then -1
    else if p(s[0]) then 0
    else
      var k := FirstIndex(s[1..], p);
      if k == -1 then -1 else k + 1
  }

  /** The first row satisfying `p`: what a query returning `Optional` gives back. */
  function FindFirst<T(!new)>(s: seq<T>, p: T -> bool): (r: Option<T>)
    ensures r.None? <==> forall x :: x in s ==> !p(x)
    ensures r.Some? ==> r.value in s && p(r.value)
  {
    var i := FirstIndex(s, p);
    if i == -1 then None else Some(s[i])
  }

  /** When `x` is the only row satisfying `p` up to equality, it is the one found. */
  lemma FindFirstOnly<T(!new)>(s: seq<T>, p: T -> bool, x: T)
    requires x in s && p(x)
    requires forall y :: y in s && p(y) ==> y == x
    ensures FindFirst(s, p) == Some(x)
  {
  }

  /** Under a distinct key, the row carrying a key is the only one carrying it. */
  lemma DistinctKeyDeterminesRow<T, K>(s: seq<T>, key: T -> K, x: T, y: T)
    requires DistinctBy(s, key)
    requires x in s && y in s && key(x) == key(y)
    ensures x == y
  {
    var i :| 0 <= i < |s| && s[i] == x;
    var j :| 0 <= j < |s| && s[j] == y;
    assert key(s[i]) == key(s[j]);
    assert i == j;
  }

  /** Every row whose id matches `row.id` is replaced by `row`: `save` of an existing entity. */
  function ReplaceById<T>(s: seq<T>, id: T -> int, row: T): (r: seq<T>)
    ensures |r| == |s|
    ensures forall i :: 0 <= i < |s| ==> r[i] == (if id(s[i]) == id(row) then row else s[i])
  {
    seq(|s|, i requires 0 <= i < |s| => if id(s[i]) == id(row) then row else s[i])
  }

  // ---------------------------------------------------------------- SiteRepository

  function FindSiteByUrl(t: Tables, url: string): (r: Option<Site>)
    ensures r.None? <==> forall s :: s in t.sites ==> s.url != url
    ensures r.Some? ==> r.value in t.sites && r.value.url == url
  {
    FindFirst(t.sites, (s: Site) => s.url == url)
  }

  function FindSiteById(t: Tables, siteId: int): (r: Option<Site>)
    ensures r.None? <==> !HasSite(t, siteId)
    ensures r.Some? ==> r.value in t.sites && r.value.id == siteId
  {
    var r := FindFirst(t.sites, (s: Site) => s.id == siteId);
    if r.None? then
      assert forall i :: 0 <= i < |t.sites| ==> t.sites[i] in t.sites;
      r
    else r
  }

  // ---------------------------------------------------------------- PageRepository

  function FindPageByPathAndSite(t: Tables, path: string, siteId: int): (r: Option<Page>)
    ensures r.None? <==> forall p :: p in t.pages ==> !(p.path == path && p.siteId == siteId)
    ensures r.Some? ==> r.value in t.pages && r.value.path == path && r.value.siteId == siteId
  {
    FindFirst(t.pages, (p: Page) => p.path == path && p.siteId == siteId)
  }

  function FindPageById(t: Tables, pageId: int): (r: Option<Page>)
    ensures r.None? <==> !HasPage(t, pageId)
    ensures r.Some? ==> r.value in t.pages && r.value.id == pageId
  {
    var r := FindFirst(t.pages, (p: Page) => p.id == pageId);
    if r.None? then
      assert forall i :: 0 <= i < |t.pages| ==> t.pages[i] in t.pages;
      r
    else r
  }

  function CountPagesBySiteId(t: Tables, siteId: int): (r: nat)
    ensures r <= |t.pages|
    ensures r == 0 <==> forall p :: p in t.pages ==> p.siteId != siteId
  {
    Count(t.pages, (p: Page) => p.siteId == siteId)
  }

  /** The url of the site a page belongs to, when that site exists. */
  predicate SiteUrlIs(t: Tables, siteId: int, url: string) {
    exists i :: 0 <= i < |t.sites| && t.sites[i].id == siteId && t.sites[i].url == url
  }

  function CountPagesBySiteUrl(t: Tables, url: string): (r: nat)
    ensures r <= |t.pages|
    ensures r == 0 <==> forall p :: p in t.pages ==> !SiteUrlIs(t, p.siteId, url)
  {
    Count(t.pages, (p: Page) => SiteUrlIs(t, p.siteId, url))
  }

  /** Two tests that agree on every row count the same rows. */
  lemma {:induction false} CountAgrees<T(!new)>(s: seq<T>, p: T -> bool, q: T -> bool)
    requires forall x :: x in s ==> p(x) == q(x)
    ensures Count(s, p) == Count(s, q)
  {
    if s != [] {
      assert forall x :: x in s[1..] ==> x in s;
      CountAgrees(s[1..], p, q);
      assert s[0] in s;
    }
  }

  /**
   * With one site per url and per id, counting a site's pages by its url
   * gives the same number as counting them by its id.
   */
  lemma CountBySiteUrlIsBySiteId(t: Tables, site: Site)
    requires DistinctBy(t.sites, SiteUrl) && DistinctBy(t.sites, SiteId)
    requires site in t.sites
    ensures CountPagesBySiteUrl(t, site.url) == CountPagesBySiteId(t, site.id)
  {
    forall p: Page | p in t.pages ensures SiteUrlIs(t, p.siteId, site.url) == (p.siteId == site.id) {
      var k :| 0 <= k < |t.sites| && t.sites[k] == site;
      if SiteUrlIs(t, p.siteId, site.url) {
        var i :| 0 <= i < |t.sites| && t.sites[i].id == p.siteId && t.sites[i].url == site.url;
        assert t.sites[i] in t.sites;
        DistinctKeyDeterminesRow(t.sites, SiteUrl, t.sites[i], site);
      }
    }
    CountAgrees(t.pages, (p: Page) => SiteUrlIs(t, p.siteId, site.url), (p: Page) => p.siteId == site.id);
  }

  // ---------------------------------------------------------------- LemmaRepository

  function FindLemmaByLemmaAndSite(t: Tables, text: string, siteId: int): (r: Option<Lemma>)
    ensures r.None? <==> forall l :: l in t.lemmas ==> !(l.text == text && l.siteId == siteId)
    ensures r.Some? ==> r.value in t.lemmas && r.value.text == text && r.value.siteId == siteId
  {
    FindFirst(t.lemmas, (l: Lemma) => l.text == text && l.siteId == siteId)
  }

  /** With one row per text and site, the row found is the row with that text and site. */
  lemma FindLemmaIsTheRow(t: Tables, l: Lemma)
    requires DistinctBy(t.lemmas, LemmaKey)
    requires l in t.lemmas
    ensures FindLemmaByLemmaAndSite(t, l.text, l.siteId) == Some(l)
  {
    var r := FindLemmaByLemmaAndSite(t, l.text, l.siteId);
    assert LemmaKey(r.value) == LemmaKey(l);
    DistinctKeyDeterminesRow(t.lemmas, LemmaKey, r.value, l);
  }

  function CountLemmasBySiteId(t: Tables, siteId: int): (r: nat)
    ensures r <= |t.lemmas|
    ensures r == 0 <==> forall l :: l in t.lemmas ==> l.siteId != siteId
  {
    Count(t.lemmas, (l: Lemma) => l.siteId == siteId)
  }

  function SumFrequency(ls: seq<Lemma>): int {
    if ls == [] then 0 else ls[0].frequency + SumFrequency(ls[1..])
  }

  /** `SUM(l.frequency)` over the rows with that text on every site; SQL gives NULL for no rows. */
  function FindTotalFrequencyByLemma(t: Tables, text: string): (r: Option<int>)
    ensures r.None? <==> forall l :: l in t.lemmas ==> l.text != text
  {
    var rows := Filter(t.lemmas, (l: Lemma) => l.text == text);
    if rows == [] then None
    else
      assert rows[0] in rows;
      Some(SumFrequency(rows))
  }

  lemma {:induction false} SumFrequencyAtLeastRows(ls: seq<Lemma>)
    requires forall l :: l in ls ==> l.frequency >= 1
    ensures SumFrequency(ls) >= |ls|
    decreases |ls|
  {
    if ls != [] {
      assert ls[0] in ls;
      assert forall l :: l in ls[1..] ==> l in ls;
      SumFrequencyAtLeastRows(ls[1..]);
    }
  }

  /** In a consistent store, the total frequency of a text that has rows is positive. */
  lemma TotalFrequencyPositive(t: Tables, text: string)
    requires Consistent(t)
    requires FindTotalFrequencyByLemma(t, text).Some?
    ensures FindTotalFrequencyByLemma(t, text).value >= 1
  {
    var rows := Filter(t.lemmas, (l: Lemma) => l.text == text);
    SumFrequencyAtLeastRows(rows);
  }

  // ---------------------------------------------------------------- SearchIndexRepository

  /** The posting's lemma row exists and carries `text` (the join `si.text.text = :lemma`). */
  predicate LemmaTextIs(t: Tables, lemmaId: int, text: string) {
    exists i :: 0 <= i < |t.lemmas| && t.lemmas[i].id == lemmaId && t.lemmas[i].text == text
  }

  function PostingsOfLemma(t: Tables, text: string): seq<SearchIndex> {
    Filter(t.postings, (x: SearchIndex) => LemmaTextIs(t, x.lemmaId, text))
  }

  /** `findPageIdByLemma`: the page of every posting whose lemma has that text, on any site. */
  function FindPageIdByLemma(t: Tables, text: string): (r: seq<int>)
    ensures forall pageId :: pageId in r <==>
      exists x :: x in t.postings && x.pageId == pageId && LemmaTextIs(t, x.lemmaId, text)
  {
    var ps := PostingsOfLemma(t, text);
    var r := seq(|ps|, i requires 0 <= i < |ps| => ps[i].pageId);
    forall pageId ensures pageId in r <==> exists x :: x in ps && x.pageId == pageId {
      if pageId in r {
        var i :| 0 <= i < |r| && r[i] == pageId;
        assert ps[i] in ps;
      } else {
        forall x | x in ps ensures x.pageId != pageId {
          var i :| 0 <= i < |ps| && ps[i] == x;
          assert r[i] == x.pageId;
        }
      }
    }
    r
  }

  /** `findRankByPageIdAndLemma`: the rank of the posting of that page and lemma text, or null. */
  function FindRankByPageIdAndLemma(t: Tables, pageId: int, text: string): (r: Option<int>)
    ensures r.None? <==> forall x :: x in t.postings ==> !(x.pageId == pageId && LemmaTextIs(t, x.lemmaId, text))
    ensures r.Some? ==> exists x :: x in t.postings && x.pageId == pageId && LemmaTextIs(t, x.lemmaId, text) && x.rank == r.value
  {
    var x := FindFirst(t.postings, (x: SearchIndex) => x.pageId == pageId && LemmaTextIs(t, x.lemmaId, text));
    if x.None? then None else Some(x.value.rank)
  }

  /** A page has a rank for a text exactly when the page-id query for that text lists it. */
  lemma RankIffListed(t: Tables, pageId: int, text: string)
    ensures FindRankByPageIdAndLemma(t, pageId, text).Some? <==> pageId in FindPageIdByLemma(t, text)
  {
  }

  // ---------------------------------------------------------------- writes

  function InsertSite(t: Tables, status: Status, time: Time, url: string, name: string): Tables {
    t.(sites := t.sites + [Site(t.nextSiteId, status, time, None, url, name)], nextSiteId := t.nextSiteId + 1)
  }

  /** `siteRepository.save` of a loaded site: the row with its id takes the new values. */
  function UpdateSite(t: Tables, s: Site): Tables {
    t.(sites := ReplaceById(t.sites, SiteId, s))
  }

  function WithoutSite(t: Tables, siteId: int): (r: Tables)
    ensures forall s :: s in r.sites <==> s in t.sites && s.id != siteId
    ensures r.pages == t.pages && r.lemmas == t.lemmas && r.postings == t.postings
  {
    t.(sites := Filter(t.sites, (s: Site) => s.id != siteId))
  }

  /** Saving a site row keeps every row's id in place, so the ids stay distinct. */
  lemma SavedSiteKeepsIds(t: Tables, s: Site)
    requires DistinctBy(t.sites, SiteId)
    ensures |UpdateSite(t, s).sites| == |t.sites|
    ensures forall i :: 0 <= i < |t.sites| ==> UpdateSite(t, s).sites[i].id == t.sites[i].id
    ensures DistinctBy(UpdateSite(t, s).sites, SiteId)
  {
    var u := UpdateSite(t, s);
    forall i, j | 0 <= i < j < |u.sites| ensures SiteId(u.sites[i]) != SiteId(u.sites[j]) {
      assert SiteId(t.sites[i]) != SiteId(t.sites[j]);
    }
  }

  /** Saving a loaded site: its id now finds the saved row, every other id finds what it found. */
  lemma SavedSiteIsFound(t: Tables, s: Site)
    requires DistinctBy(t.sites, SiteId) && HasSite(t, s.id)
    ensures DistinctBy(UpdateSite(t, s).sites, SiteId)
    ensures FindSiteById(UpdateSite(t, s), s.id) == Some(s)
    ensures forall id :: id != s.id ==> FindSiteById(UpdateSite(t, s), id) == FindSiteById(t, id)
  {
    SavedSiteKeepsIds(t, s);
    var u := UpdateSite(t, s);
    var k :| 0 <= k < |t.sites| && t.sites[k].id == s.id;
    assert u.sites[k] == s;
    var r := FindSiteById(u, s.id);
    DistinctKeyDeterminesRow(u.sites, SiteId, r.value, s);
    forall id | id != s.id ensures FindSiteById(u, id) == FindSiteById(t, id) {
      OtherSiteStillFound(t, s, id);
    }
  }

  lemma OtherSiteStillFound(t: Tables, s: Site, id: int)
    requires DistinctBy(t.sites, SiteId) && id != s.id
    ensures FindSiteById(UpdateSite(t, s), id) == FindSiteById(t, id)
  {
    SavedSiteKeepsIds(t, s);
    var u := UpdateSite(t, s);
    var a := FindSiteById(t, id);
    var b := FindSiteById(u, id);
    if a.Some? {
      var i :| 0 <= i < |t.sites| && t.sites[i] == a.value;
      assert u.sites[i] == a.value;
      DistinctKeyDeterminesRow(u.sites, SiteId, b.value, a.value);
    }
  }

  function InsertPage(t: Tables, siteId: int, path: string, code: int, content: string): Tables {
    t.(pages := t.pages + [Page(t.nextPageId, siteId, path, code, content)], nextPageId := t.nextPageId + 1)
  }

  /** A new page row on an existing site keeps a consistent store consistent. */
  lemma InsertPageKeepsConsistent(c: Tables, siteId: int, path: string, code: int, content: string)
    requires Consistent(c) && HasSite(c, siteId)
    ensures Consistent(InsertPage(c, siteId, path, code, content))
    ensures HasPage(InsertPage(c, siteId, path, code, content), c.nextPageId)
  {
    var r := InsertPage(c, siteId, path, code, content);
    assert r.pages[|c.pages|].id == c.nextPageId;
    assert forall x :: x in r.postings ==> HasPage(r, x.pageId) by {
      forall x | x in r.postings ensures HasPage(r, x.pageId) {
        var i :| 0 <= i < |c.pages| && c.pages[i].id == x.pageId;
        assert r.pages[i] == c.pages[i];
      }
    }
  }

  /**
   * Saving a site row keeps a consistent store consistent: the row replaces
   * the rows with its id, if any, so every row keeps its id.
   */
  lemma UpdateSiteKeepsConsistent(t: Tables, row: Site)
    requires Consistent(t)
    ensures Consistent(UpdateSite(t, row))
  {
    var u := UpdateSite(t, row);
    forall id ensures HasSite(u, id) <==> HasSite(t, id) {
      if HasSite(t, id) {
        var i :| 0 <= i < |t.sites| && t.sites[i].id == id;
        assert u.sites[i].id == id;
      }
      if HasSite(u, id) {
        var i :| 0 <= i < |u.sites| && u.sites[i].id == id;
        assert t.sites[i].id == id;
      }
    }
    forall s | s in u.sites ensures s.id < u.nextSiteId {
      var i :| 0 <= i < |u.sites| && u.sites[i] == s;
      assert t.sites[i] in t.sites;
    }
    forall i, j | 0 <= i < j < |u.sites| ensures SiteId(u.sites[i]) != SiteId(u.sites[j]) {
      assert SiteId(t.sites[i]) != SiteId(t.sites[j]);
    }
  }

  /** `pageRepository.delete(page)`: the row with that id goes. */
  function WithoutPage(t: Tables, pageId: int): (r: Tables)
    ensures forall p :: p in r.pages <==> p in t.pages && p.id != pageId
    ensures r.sites == t.sites && r.lemmas == t.lemmas && r.postings == t.postings
  {
    t.(pages := Filter(t.pages, (p: Page) => p.id != pageId))
  }

  /** `pageRepository.deleteBySite`: exactly that site's pages go. */
  function WithoutPagesOfSite(t: Tables, siteId: int): (r: Tables)
    ensures forall p :: p in r.pages <==> p in t.pages && p.siteId != siteId
    ensures r.sites == t.sites && r.lemmas == t.lemmas && r.postings == t.postings
  {
    t.(pages := Filter(t.pages, (p: Page) => p.siteId != siteId))
  }

  function InsertLemma(t: Tables, siteId: int, text: string, frequency: int): Tables {
    t.(lemmas := t.lemmas + [Lemma(t.nextLemmaId, siteId, text, frequency)], nextLemmaId := t.nextLemmaId + 1)
  }

  function UpdateLemma(t: Tables, l: Lemma): Tables {
    t.(lemmas := ReplaceById(t.lemmas, LemmaId, l))
  }

  /** `lemmaRepository.deleteBySite`: exactly that site's lemma rows go. */
  function WithoutLemmasOfSite(t: Tables, siteId: int): (r: Tables)
    ensures forall l :: l in r.lemmas <==> l in t.lemmas && l.siteId != siteId
    ensures r.sites == t.sites && r.pages == t.pages && r.postings == t.postings
  {
    t.(lemmas := Filter(t.lemmas, (l: Lemma) => l.siteId != siteId))
  }

  function InsertPosting(t: Tables, pageId: int, lemmaId: int, rank: int): Tables {
    t.(postings := t.postings + [SearchIndex(t.nextIndexId, pageId, lemmaId, rank)], nextIndexId := t.nextIndexId + 1)
  }

  /** `searchIndexRepository.deleteByPage`: exactly that page's postings go. */
  function WithoutPostingsOfPage(t: Tables, pageId: int): (r: Tables)
    ensures forall x :: x in r.postings <==> x in t.postings && x.pageId != pageId
    ensures r.sites == t.sites && r.pages == t.pages && r.lemmas == t.lemmas
  {
    t.(postings := Filter(t.postings, (x: SearchIndex) => x.pageId != pageId))
  }

  /**
   * The mutable store.  Each method is one repository call and changes
   * exactly the table it names, as the corresponding function on `Tables`.
   */
  class Database {
    var sites: seq<Site>
    var pages: seq<Page>
    var lemmas: seq<Lemma>
    var postings: seq<SearchIndex>
    var nextSiteId: int
    var nextPageId: int
    var nextLemmaId: int
    var nextIndexId: int

    function Tables(): Tables
      reads this
    {
      Entities.Tables(sites, pages, lemmas, postings, nextSiteId, nextPageId, nextLemmaId, nextIndexId)
    }

    constructor ()
      ensures Tables() == EmptyTables
    {
      sites, pages, lemmas, postings := [], [], [], [];
      nextSiteId, nextPageId, nextLemmaId, nextIndexId := 1, 1, 1, 1;
    }

    method SaveNewSite(status: Status, time: Time, url: string, name: string) returns (site: Site)
      modifies this
      ensures site == Site(old(nextSiteId), status, time, None, url, name)
      ensures Tables() == InsertSite(old(Tables()), status, time, url, name)
    {
      site := Site(nextSiteId, status, time, None, url, name);
      sites := sites + [site];
      nextSiteId := nextSiteId + 1;
    }

    method SaveSite(s: Site)
      modifies this
      ensures Tables() == UpdateSite(old(Tables()), s)
    {
      sites := ReplaceById(sites, SiteId, s);
    }

    method DeleteSite(siteId: int)
      modifies this
      ensures Tables() == WithoutSite(old(Tables()), siteId)
    {
      sites := Filter(sites, (s: Site) => s.id != siteId);
    }

    method SaveNewPage(siteId: int, path: string, code: int, content: string) returns (page: Page)
      modifies this
      ensures page == Page(old(nextPageId), siteId, path, code, content)
      ensures Tables() == InsertPage(old(Tables()), siteId, path, code, content)
    {
      page := Page(nextPageId, siteId, path, code, content);
      pages := pages + [page];
      nextPageId := nextPageId + 1;
    }

    method DeletePage(pageId: int)
      modifies this
      ensures Tables() == WithoutPage(old(Tables()), pageId)
    {
      pages := Filter(pages, (p: Page) => p.id != pageId);
    }

    method DeletePagesBySite(siteId: int)
      modifies this
      ensures Tables() == WithoutPagesOfSite(old(Tables()), siteId)
    {
      pages := Filter(pages, (p: Page) => p.siteId != siteId);
    }

    method SaveNewLemma(siteId: int, text: string, frequency: int) returns (l: Lemma)
      modifies this
      ensures l == Lemma(old(nextLemmaId), siteId, text, frequency)
      ensures Tables() == InsertLemma(old(Tables()), siteId, text, frequency)
    {
      l := Lemma(nextLemmaId, siteId, text, frequency);
      lemmas := lemmas + [l];
      nextLemmaId := nextLemmaId + 1;
    }

    method SaveLemma(l: Lemma)
      modifies this
      ensures Tables() == UpdateLemma(old(Tables()), l)
    {
      lemmas := ReplaceById(lemmas, LemmaId, l);
    }

    method DeleteLemmasBySite(siteId: int)
      modifies this
      ensures Tables() == WithoutLemmasOfSite(old(Tables()), siteId)
    {
      lemmas := Filter(lemmas, (l: Lemma) => l.siteId != siteId);
    }

    method DeleteAllLemmas()
      modifies this
      ensures Tables() == old(Tables()).(lemmas := [])
    {
      lemmas := [];
    }

    method SaveNewPosting(pageId: int, lemmaId: int, rank: int)
      modifies this
      ensures Tables() == InsertPosting(old(Tables()), pageId, lemmaId, rank)
    {
      postings := postings + [SearchIndex(nextIndexId, pageId, lemmaId, rank)];
      nextIndexId := nextIndexId + 1;
    }

    method DeletePostingsByPage(pageId: int)
      modifies this
      ensures Tables() == WithoutPostingsOfPage(old(Tables()), pageId)
    {
      postings := Filter(postings, (x: SearchIndex) => x.pageId != pageId);
    }

    method DeleteAllPostings()
      modifies this
      ensures Tables() == old(Tables()).(postings := [])
    {
      postings := [];
    }
  }
}
