/**
 * `StatisticsServiceImpl.getStatistics`: totals over the whole store and
 * one detailed item per site, read from a snapshot of the tables.
 */
module Statistics {
  import opened Wrappers
  import opened Entities
  import opened Repositories
  import opened JavaInt
  import IndexingService

  datatype TotalStatistics = TotalStatistics(sites: int, pages: int, lemmas: int, indexing: bool)

  datatype DetailedItem = DetailedItem(
    url: string, name: string, status: string, statusTime: Time, error: Option<string>, pages: int, lemmas: int)

  datatype StatisticsData = StatisticsData(total: TotalStatistics, detailed: seq<DetailedItem>)

  datatype StatisticsResponse = StatisticsResponse(result: bool, statistics: StatisticsData)

  /** `Status.name()`: the constant's own identifier. */
  function StatusName(s: Status): (r: string)
    ensures |r| > 0
  {
    match s
    case INDEXING => "INDEXING"
    case INDEXED => "INDEXED"
    case FAILED => "FAILED"
  }

  /** Different statuses show different names, so the name identifies the status. */
  lemma StatusNameInjective(a: Status, b: Status)
    ensures StatusName(a) == StatusName(b) <==> a == b
  {
    if a != b {
      assert StatusName(a)[0] != StatusName(b)[0] || StatusName(a)[5] != StatusName(b)[5];
    }
  }

  /** `anyMatch(s -> s.getStatus() == Status.INDEXING)` over the `findAll` list. */
  function AnyIndexing(sites: seq<Site>): (r: bool)
    ensures r <==> exists s :: s in sites && s.status == INDEXING
  {
    if sites == [] then false
    else sites[0].status == INDEXING || AnyIndexing(sites[1..])
  }

  /** The item built for one site. */
  function Item(t: Tables, s: Site): DetailedItem {
    DetailedItem(s.url, s.name, StatusName(s.status), s.statusTime, s.lastError,
                 CountPagesBySiteId(t, s.id), CountLemmasBySiteId(t, s.id))
  }

  /** The `map` over the sites, in their order. */
  function Items(t: Tables, sites: seq<Site>): (r: seq<DetailedItem>)
    ensures |r| == |sites|
    ensures forall i :: 0 <= i < |sites| ==>
      && r[i].url == sites[i].url && r[i].name == sites[i].name
      && r[i].status == StatusName(sites[i].status) && r[i].statusTime == sites[i].statusTime
      && r[i].error == sites[i].lastError
      && r[i].pages == CountPagesBySiteId(t, sites[i].id)
      && r[i].lemmas == CountLemmasBySiteId(t, sites[i].id)
  {
    if sites == [] then [] else [Item(t, sites[0])] + Items(t, sites[1..])
  }

  /** `getStatistics`. */
  function GetStatistics(t: Tables): (r: StatisticsResponse)
    ensures r.result
    ensures r.statistics.total.sites == |t.sites|
    ensures r.statistics.total.pages == NarrowToInt(|t.pages|)
    ensures r.statistics.total.lemmas == NarrowToInt(|t.lemmas|)
    ensures r.statistics.total.indexing <==> exists s :: s in t.sites && s.status == INDEXING
    ensures r.statistics.detailed == Items(t, t.sites)
  {
    var total := TotalStatistics(|t.sites|, NarrowToInt(|t.pages|), NarrowToInt(|t.lemmas|), AnyIndexing(t.sites));
    StatisticsResponse(true, StatisticsData(total, Items(t, t.sites)))
  }

  // ---------------------------------------------------------------- the per-site counts add up

  function SumPages(items: seq<DetailedItem>): int {
    if items == [] then 0 else items[0].pages + SumPages(items[1..])
  }

  function SumLemmas(items: seq<DetailedItem>): int {
    if items == [] then 0 else items[0].lemmas + SumLemmas(items[1..])
  }

  /** How many rows of `sites` carry the id. */
  function Occurrences(sites: seq<Site>, id: int): (r: nat)
    ensures r <= |sites|
  {
    if sites == [] then 0 else (if sites[0].id == id then 1 else 0) + Occurrences(sites[1..], id)
  }

  lemma {:induction false} OccurrencesNone(sites: seq<Site>, id: int)
    requires forall s :: s in sites ==> s.id != id
    ensures Occurrences(sites, id) == 0
    decreases |sites|
  {
    if sites != [] {
      assert forall s :: s in sites[1..] ==> s in sites;
      OccurrencesNone(sites[1..], id);
    }
  }

  /** With distinct ids, an id that occurs at all occurs once. */
  lemma {:induction false} OccurrencesOne(sites: seq<Site>, id: int)
    requires DistinctBy(sites, SiteId)
    requires exists s :: s in sites && s.id == id
    ensures Occurrences(sites, id) == 1
    decreases |sites|
  {
    var tail := sites[1..];
    assert DistinctBy(tail, SiteId) by {
      forall i, j | 0 <= i < j < |tail| ensures SiteId(tail[i]) != SiteId(tail[j]) {
        assert tail[i] == sites[i + 1] && tail[j] == sites[j + 1];
      }
    }
    if sites[0].id == id {
      forall s | s in tail ensures s.id != id {
        var k :| 0 <= k < |tail| && tail[k] == s;
        assert SiteId(sites[0]) != SiteId(sites[k + 1]);
      }
      OccurrencesNone(tail, id);
    } else {
      var s :| s in sites && s.id == id;
      assert s in tail;
      OccurrencesOne(tail, id);
    }
  }

  /** Dropping the first page row takes one page off the count of every site with that row's site id. */
  lemma {:induction false} PagesSplit(t: Tables, sites: seq<Site>)
    requires t.pages != []
    ensures SumPages(Items(t, sites)) == SumPages(Items(t.(pages := t.pages[1..]), sites)) + Occurrences(sites, t.pages[0].siteId)
    decreases |sites|
  {
    if sites != [] {
      PagesSplit(t, sites[1..]);
      var items := Items(t, sites);
      var rest := Items(t.(pages := t.pages[1..]), sites);
      assert items[1..] == Items(t, sites[1..]);
      assert rest[1..] == Items(t.(pages := t.pages[1..]), sites[1..]);
    }
  }

  /** Dropping the first lemma row takes one row off the count of every site with that row's site id. */
  lemma {:induction false} LemmasSplit(t: Tables, sites: seq<Site>)
    requires t.lemmas != []
    ensures SumLemmas(Items(t, sites)) == SumLemmas(Items(t.(lemmas := t.lemmas[1..]), sites)) + Occurrences(sites, t.lemmas[0].siteId)
    decreases |sites|
  {
    if sites != [] {
      LemmasSplit(t, sites[1..]);
      var items := Items(t, sites);
      var rest := Items(t.(lemmas := t.lemmas[1..]), sites);
      assert items[1..] == Items(t, sites[1..]);
      assert rest[1..] == Items(t.(lemmas := t.lemmas[1..]), sites[1..]);
    }
  }

  /** When every page belongs to exactly one of `sites`, the per-site page counts add up to the number of pages. */
  lemma {:induction false} PagesAddUp(t: Tables, sites: seq<Site>)
    requires DistinctBy(sites, SiteId)
    requires forall p :: p in t.pages ==> exists s :: s in sites && s.id == p.siteId
    ensures SumPages(Items(t, sites)) == |t.pages|
    decreases |t.pages|
  {
    if t.pages == [] {
      ZeroCounts(t, sites);
    } else {
      var u := t.(pages := t.pages[1..]);
      assert t.pages[0] in t.pages;
      assert forall p :: p in u.pages ==> p in t.pages;
      PagesAddUp(u, sites);
      PagesSplit(t, sites);
      OccurrencesOne(sites, t.pages[0].siteId);
    }
  }

  /** When every lemma row belongs to exactly one of `sites`, the per-site counts add up to the number of rows. */
  lemma {:induction false} LemmasAddUp(t: Tables, sites: seq<Site>)
    requires DistinctBy(sites, SiteId)
    requires forall l :: l in t.lemmas ==> exists s :: s in sites && s.id == l.siteId
    ensures SumLemmas(Items(t, sites)) == |t.lemmas|
    decreases |t.lemmas|
  {
    if t.lemmas == [] {
      ZeroCounts(t, sites);
    } else {
      var u := t.(lemmas := t.lemmas[1..]);
      assert t.lemmas[0] in t.lemmas;
      assert forall l :: l in u.lemmas ==> l in t.lemmas;
      LemmasAddUp(u, sites);
      LemmasSplit(t, sites);
      OccurrencesOne(sites, t.lemmas[0].siteId);
    }
  }

  /** With no page rows every page count is zero, and likewise for lemma rows. */
  lemma {:induction false} ZeroCounts(t: Tables, sites: seq<Site>)
    ensures t.pages == [] ==> SumPages(Items(t, sites)) == 0
    ensures t.lemmas == [] ==> SumLemmas(Items(t, sites)) == 0
    decreases |sites|
  {
    if sites != [] {
      ZeroCounts(t, sites[1..]);
      assert Items(t, sites)[1..] == Items(t, sites[1..]);
    }
  }

  /**
   * In a consistent store whose row counts fit an `int`, the detailed
   * items' page and lemma counts add up to the totals.
   */
  lemma DetailedAddsUpToTotal(t: Tables)
    requires Consistent(t)
    requires |t.pages| <= IntMax && |t.lemmas| <= IntMax
    ensures var r := GetStatistics(t).statistics;
      SumPages(r.detailed) == r.total.pages && SumLemmas(r.detailed) == r.total.lemmas
  {
    forall p | p in t.pages ensures exists s :: s in t.sites && s.id == p.siteId {
      var i :| 0 <= i < |t.sites| && t.sites[i].id == p.siteId;
      assert t.sites[i] in t.sites;
    }
    forall l | l in t.lemmas ensures exists s :: s in t.sites && s.id == l.siteId {
      var i :| 0 <= i < |t.sites| && t.sites[i].id == l.siteId;
      assert t.sites[i] in t.sites;
    }
    PagesAddUp(t, t.sites);
    LemmasAddUp(t, t.sites);
  }

  // ---------------------------------------------------------------- against the indexing state machine

  /** Right after a stop no site is INDEXING, so the statistics no longer report indexing. */
  lemma NotIndexingAfterStop(t: Tables, now: Time)
    requires DistinctBy(t.sites, SiteId)
    ensures !GetStatistics(IndexingService.StopAll(t, t.sites, now)).statistics.total.indexing
  {
    IndexingService.StopAllEffect(t, now);
  }

  /** Right after a start with at least one configured site, the statistics report indexing. */
  lemma IndexingAfterStart(t: Tables, config: seq<IndexingService.SiteConfig>, now: Time)
    requires IndexingService.SitesOk(t) && config != []
    ensures GetStatistics(IndexingService.Started(t, config, now)).statistics.total.indexing
  {
    var r := IndexingService.Started(t, config, now);
    IndexingService.StartedSites(t, config, now);
    assert config[0] in config;
    var s := FindSiteByUrl(r, config[0].url).value;
    assert s in r.sites;
  }
}
