/**
 * `IndexingServiceImpl`: the site status state machine around the crawls.
 * `startIndexing` replaces every configured site by a created INDEXING row
 * and registers a crawl for it; the end of a crawl moves its site to
 * INDEXED (normal end) or FAILED (escaped exception) and unregisters it;
 * `stopIndexing` fails every site still INDEXING and clears the registry.
 *
 * The registry of running pools is the set of their site ids; the crawl
 * itself runs elsewhere (see `SiteCrawler`) and reports back through
 * `Complete`.  Each store effect is a function on `Tables`; the class
 * `Indexer` performs it with repository calls.
 */
module IndexingService {
  import opened Wrappers
  import opened Entities
  import opened Repositories

  /** One configured site: its url and display name. */
  datatype SiteConfig = SiteConfig(url: string, name: string)


  // ---------------------------------------------------------------- start

  /** The store without the previous site's pages and row, and without any posting or lemma row at all. */
  function Replaced(t: Tables, previous: Site): Tables {
    WithoutSite(WithoutPagesOfSite(t.(postings := [], lemmas := []), previous.id), previous.id)
  }

  /** One configured site: any previous site with its url is removed, then a new INDEXING row is saved. */
  function StartOne(t: Tables, c: SiteConfig, now: Time): Tables {
    var cleared := match FindSiteByUrl(t, c.url)
      case Some(previous) => Replaced(t, previous)
      case None => t;
    InsertSite(cleared, INDEXING, now, c.url, c.name)
  }

  /** Every configured site in order. */
  function Started(t: Tables, config: seq<SiteConfig>, now: Time): Tables
    decreases |config|
  {
    if config == [] then t
    else StartOne(Started(t, config[..|config| - 1], now), config[|config| - 1], now)
  }

  /** Registering the next id keeps the registry a run of consecutive ids. */
  lemma RegisteredNext(ids: set<int>, first: int, n: nat, id: int)
    requires forall x :: x in ids <==> first <= x < first + n
    requires id == first + n
    ensures forall x :: x in ids + {id} <==> first <= x < first + n + 1
  {
  }

  /** The site table's keys: urls and ids are unique, and every id is below the next one. */
  ghost predicate SitesOk(t: Tables) {
    && DistinctBy(t.sites, SiteUrl) && DistinctBy(t.sites, SiteId)
    && forall s :: s in t.sites ==> s.id < t.nextSiteId
  }

  /** The removal of the previous site of a url: no row of that url is left, every other row stays. */
  lemma ClearedSites(t: Tables, c: SiteConfig)
    requires SitesOk(t)
    ensures var cleared := match FindSiteByUrl(t, c.url) case Some(previous) => Replaced(t, previous) case None => t;
      && SitesOk(cleared) && cleared.nextSiteId == t.nextSiteId
      && (forall s :: s in cleared.sites <==> s in t.sites && s.url != c.url)
  {
    var found := FindSiteByUrl(t, c.url);
    if found.Some? {
      var previous := found.value;
      var cleared := Replaced(t, previous);
      FilterKeepsDistinct(t.sites, (s: Site) => s.id != previous.id, SiteUrl);
      FilterKeepsDistinct(t.sites, (s: Site) => s.id != previous.id, SiteId);
      forall s | s in t.sites ensures s in cleared.sites <==> s.url != c.url {
        if s.url == c.url {
          DistinctKeyDeterminesRow(t.sites, SiteUrl, s, previous);
        } else if s.id == previous.id {
          DistinctKeyDeterminesRow(t.sites, SiteId, s, previous);
        }
      }
    }
  }

  /** A row with a new url and the next id keeps the site keys. */
  lemma InsertedSite(t: Tables, c: SiteConfig, now: Time)
    requires SitesOk(t) && forall s :: s in t.sites ==> s.url != c.url
    ensures var r := InsertSite(t, INDEXING, now, c.url, c.name);
      && SitesOk(r)
      && FindSiteByUrl(r, c.url) == Some(Site(t.nextSiteId, INDEXING, now, None, c.url, c.name))
  {
    var r := InsertSite(t, INDEXING, now, c.url, c.name);
    var created := Site(t.nextSiteId, INDEXING, now, None, c.url, c.name);
    assert r.sites == t.sites + [created];
    AppendSiteKeepsIds(t.sites, created, t.nextSiteId);
    assert DistinctBy(r.sites, SiteUrl) by {
      forall i, j | 0 <= i < j < |r.sites| ensures SiteUrl(r.sites[i]) != SiteUrl(r.sites[j]) {
        assert r.sites[i] == t.sites[i] && t.sites[i] in t.sites;
        if j < |t.sites| {
          assert r.sites[j] == t.sites[j];
        }
      }
    }
    assert created in r.sites;
    DistinctKeyDeterminesRow(r.sites, SiteUrl, FindSiteByUrl(r, c.url).value, created);
  }

  /**
   * One step: the configured url now finds the new INDEXING row, sites of
   * other urls stay, and a previous site of that url takes its pages and
   * every posting and lemma row of the store with it.
   */
  lemma StartOneEffect(t: Tables, c: SiteConfig, now: Time)
    requires SitesOk(t)
    ensures var r := StartOne(t, c, now);
      && SitesOk(r)
      && FindSiteByUrl(r, c.url) == Some(Site(t.nextSiteId, INDEXING, now, None, c.url, c.name))
      && (forall s :: s in r.sites && s.url != c.url <==> s in t.sites && s.url != c.url)
      && r.nextSiteId == t.nextSiteId + 1
    ensures var r := StartOne(t, c, now);
      match FindSiteByUrl(t, c.url)
      case None => r.pages == t.pages && r.lemmas == t.lemmas && r.postings == t.postings
      case Some(previous) =>
        && r.postings == [] && r.lemmas == []
        && (forall p :: p in r.pages <==> p in t.pages && p.siteId != previous.id)
  {
    ClearedSites(t, c);
    var cleared := match FindSiteByUrl(t, c.url) case Some(previous) => Replaced(t, previous) case None => t;
    InsertedSite(cleared, c, now);
  }

  /** Started rows get consecutive ids. */
  lemma StartedNextId(t: Tables, config: seq<SiteConfig>, now: Time)
    ensures Started(t, config, now).nextSiteId == t.nextSiteId + |config|
    decreases |config|
  {
    if config != [] {
      StartedNextId(t, config[..|config| - 1], now);
    }
  }

  /** One more configured entry is one more step of the fold. */
  lemma StartedStep(t: Tables, config: seq<SiteConfig>, i: nat, now: Time)
    requires i < |config|
    ensures Started(t, config[..i + 1], now) == StartOne(Started(t, config[..i], now), config[i], now)
    ensures Started(t, config[..i], now).nextSiteId == t.nextSiteId + i
  {
    assert config[..i + 1][..i] == config[..i];
    StartedNextId(t, config[..i], now);
  }

  /**
   * After the whole start: every configured url finds an INDEXING row with
   * no error, created by this start; every site whose url is not configured
   * is still there.
   */
  lemma {:induction false} StartedSites(t: Tables, config: seq<SiteConfig>, now: Time)
    requires SitesOk(t)
    ensures var r := Started(t, config, now);
      && SitesOk(r)
      && (forall c :: c in config ==>
            && FindSiteByUrl(r, c.url).Some?
            && FindSiteByUrl(r, c.url).value.status == INDEXING
            && FindSiteByUrl(r, c.url).value.lastError.None?
            && t.nextSiteId <= FindSiteByUrl(r, c.url).value.id < t.nextSiteId + |config|)
      && (forall s :: s in t.sites && (forall c :: c in config ==> c.url != s.url) ==> s in r.sites)
    decreases |config|
  {
    if config != [] {
      var init := config[..|config| - 1];
      var last := config[|config| - 1];
      StartedSites(t, init, now);
      StartedNextId(t, init, now);
      var m := Started(t, init, now);
      StartOneEffect(m, last, now);
      var r := Started(t, config, now);
      forall c | c in config
        ensures FindSiteByUrl(r, c.url).Some? && FindSiteByUrl(r, c.url).value.status == INDEXING
        ensures FindSiteByUrl(r, c.url).value.lastError.None?
        ensures t.nextSiteId <= FindSiteByUrl(r, c.url).value.id < t.nextSiteId + |config|
      {
        if c.url != last.url {
          assert c in init;
          var s := FindSiteByUrl(m, c.url).value;
          assert s in r.sites;
          DistinctKeyDeterminesRow(r.sites, SiteUrl, FindSiteByUrl(r, c.url).value, s);
        }
      }
      forall s | s in t.sites && (forall c :: c in config ==> c.url != s.url) ensures s in r.sites {
        assert forall c :: c in init ==> c in config;
        assert last in config;
      }
    }
  }

  /** Starting keeps a consistent store consistent. */
  lemma StartOneKeepsConsistent(t: Tables, c: SiteConfig, now: Time)
    requires Consistent(t)
    ensures Consistent(StartOne(t, c, now))
  {
    var found := FindSiteByUrl(t, c.url);
    var r := StartOne(t, c, now);
    if found.Some? {
      var previous := found.value;
      var cleared := Replaced(t, previous);
      FilterKeepsDistinct(t.sites, (s: Site) => s.id != previous.id, SiteId);
      FilterKeepsDistinct(t.pages, (p: Page) => p.siteId != previous.id, PageId);
      forall p | p in cleared.pages ensures HasSite(cleared, p.siteId) {
        var i :| 0 <= i < |t.sites| && t.sites[i].id == p.siteId;
        assert t.sites[i] in cleared.sites;
        var j :| 0 <= j < |cleared.sites| && cleared.sites[j] == t.sites[i];
      }
      assert Consistent(cleared);
      InsertSiteKeepsConsistent(cleared, now, c);
    } else {
      InsertSiteKeepsConsistent(t, now, c);
    }
  }

  /** A new site row keeps a consistent store consistent. */
  lemma InsertSiteKeepsConsistent(t: Tables, now: Time, c: SiteConfig)
    requires Consistent(t)
    ensures Consistent(InsertSite(t, INDEXING, now, c.url, c.name))
  {
    var r := InsertSite(t, INDEXING, now, c.url, c.name);
    AppendSiteKeepsIds(t.sites, r.sites[|t.sites|], t.nextSiteId);
    forall id | HasSite(t, id) ensures HasSite(r, id) {
      var i :| 0 <= i < |t.sites| && t.sites[i].id == id;
      assert r.sites[i] == t.sites[i];
    }
  }

  /** A row with an id above every id of `s` keeps the ids of `s` distinct. */
  lemma AppendSiteKeepsIds(s: seq<Site>, x: Site, next: int)
    requires DistinctBy(s, SiteId) && (forall y :: y in s ==> y.id < next) && x.id == next
    ensures DistinctBy(s + [x], SiteId)
  {
    forall i, j | 0 <= i < j < |s + [x]| ensures SiteId((s + [x])[i]) != SiteId((s + [x])[j]) {
      assert (s + [x])[i] == s[i] && s[i] in s;
      if j < |s| {
        assert (s + [x])[j] == s[j];
      }
    }
  }

  // ---------------------------------------------------------------- completion

  /** How a crawl's future ended: normally, or by an exception with its message (possibly null). */
  datatype Ending = Normal | Escaped(message: Option<string>)

  function IndexingError(message: Option<string>): string {
    "Ошибка индексации: " + (if message.Some? then message.value else "null")
  }

  /** `updateSite` after the crawl: INDEXING becomes INDEXED, any other status stays; or the failure is recorded. */
  function Completed(t: Tables, siteId: int, ending: Ending, now: Time): Tables {
    match FindSiteById(t, siteId)
    case None => t
    case Some(s) =>
      match ending
      case Normal => UpdateSite(t, if s.status == INDEXING then s.(status := INDEXED, statusTime := now) else s)
      case Escaped(message) => UpdateSite(t, s.(status := FAILED, lastError := Some(IndexingError(message)), statusTime := now))
  }

  /** The transitions of a completed crawl's site; no other site and no other table changes. */
  lemma CompletedSite(t: Tables, siteId: int, ending: Ending, now: Time)
    requires DistinctBy(t.sites, SiteId)
    ensures var r := Completed(t, siteId, ending, now);
      && r.pages == t.pages && r.lemmas == t.lemmas && r.postings == t.postings
      && (forall id :: id != siteId ==> FindSiteById(r, id) == FindSiteById(t, id))
    ensures FindSiteById(t, siteId).None? ==> Completed(t, siteId, ending, now) == t
    ensures FindSiteById(t, siteId).Some? ==>
      var s := FindSiteById(t, siteId).value;
      var after := FindSiteById(Completed(t, siteId, ending, now), siteId);
      && after.Some?
      && after.value.url == s.url && after.value.name == s.name
      && (ending.Normal? && s.status == INDEXING ==>
            after.value.status == INDEXED && after.value.statusTime == now && after.value.lastError == s.lastError)
      && (ending.Normal? && s.status != INDEXING ==> after.value == s)
      && (ending.Escaped? ==>
            && after.value.status == FAILED && after.value.statusTime == now
            && after.value.lastError == Some("Ошибка индексации: " + (if ending.message.Some? then ending.message.value else "null")))
  {
    var found := FindSiteById(t, siteId);
    if found.Some? {
      var s := found.value;
      match ending {
        case Normal =>
          SavedSiteIsFound(t, if s.status == INDEXING then s.(status := INDEXED, statusTime := now) else s);
        case Escaped(message) =>
          SavedSiteIsFound(t, s.(status := FAILED, lastError := Some(IndexingError(message)), statusTime := now));
      }
    }
  }

  // ---------------------------------------------------------------- stop

  const StoppedByUser: string := "Индексация остановлена пользователем"

  /** A site as the stop sweep leaves it. */
  function Stopped(s: Site, now: Time): Site {
    if s.status == INDEXING then s.(status := FAILED, lastError := Some(StoppedByUser), statusTime := now) else s
  }

  /** The sweep over the `findAll` list, saving each site that was INDEXING. */
  function StopAll(t: Tables, sites: seq<Site>, now: Time): Tables
    decreases |sites|
  {
    if sites == [] then t
    else
      var m := StopAll(t, sites[..|sites| - 1], now);
      var s := sites[|sites| - 1];
      if s.status == INDEXING then UpdateSite(m, Stopped(s, now)) else m
  }

  /** The sweep over a prefix of the rows: that prefix is stopped, the rest is as it was. */
  lemma {:induction false} StopAllPrefix(t: Tables, k: nat, now: Time)
    requires DistinctBy(t.sites, SiteId) && k <= |t.sites|
    ensures var r := StopAll(t, t.sites[..k], now);
      && |r.sites| == |t.sites|
      && (forall i :: 0 <= i < |t.sites| ==> r.sites[i] == if i < k then Stopped(t.sites[i], now) else t.sites[i])
      && r.pages == t.pages && r.lemmas == t.lemmas && r.postings == t.postings
    decreases k
  {
    if k > 0 {
      StopAllPrefix(t, k - 1, now);
      assert t.sites[..k][..k - 1] == t.sites[..k - 1];
      var m := StopAll(t, t.sites[..k - 1], now);
      var s := t.sites[k - 1];
      var r := StopAll(t, t.sites[..k], now);
      forall i | 0 <= i < |t.sites|
        ensures r.sites[i] == if i < k then Stopped(t.sites[i], now) else t.sites[i]
      {
        assert SiteId(m.sites[i]) == SiteId(t.sites[i]);
        if i != k - 1 {
          if i < k - 1 {
            assert SiteId(t.sites[i]) != SiteId(t.sites[k - 1]);
          } else {
            assert SiteId(t.sites[k - 1]) != SiteId(t.sites[i]);
          }
        }
      }
    }
  }

  /** The sweep fails every INDEXING site with the stop message and leaves every other row as it was. */
  lemma StopAllEffect(t: Tables, now: Time)
    requires DistinctBy(t.sites, SiteId)
    ensures var r := StopAll(t, t.sites, now);
      && |r.sites| == |t.sites|
      && (forall i :: 0 <= i < |t.sites| && t.sites[i].status == INDEXING ==>
            r.sites[i] == t.sites[i].(status := FAILED, lastError := Some("Индексация остановлена пользователем"), statusTime := now))
      && (forall i :: 0 <= i < |t.sites| && t.sites[i].status != INDEXING ==> r.sites[i] == t.sites[i])
      && (forall s :: s in r.sites ==> s.status != INDEXING)
      && r.pages == t.pages && r.lemmas == t.lemmas && r.postings == t.postings
  {
    StopAllPrefix(t, |t.sites|, now);
    assert t.sites[..|t.sites|] == t.sites;
  }

  // ---------------------------------------------------------------- the store invariant

  /** Starting every configured site keeps a consistent store consistent. */
  lemma {:induction false} StartedKeepsConsistent(t: Tables, config: seq<SiteConfig>, now: Time)
    requires Consistent(t)
    ensures Consistent(Started(t, config, now))
    decreases |config|
  {
    if config != [] {
      StartedKeepsConsistent(t, config[..|config| - 1], now);
      StartOneKeepsConsistent(Started(t, config[..|config| - 1], now), config[|config| - 1], now);
    }
  }

  /** The end of a crawl keeps a consistent store consistent. */
  lemma CompletedKeepsConsistent(t: Tables, siteId: int, ending: Ending, now: Time)
    requires Consistent(t)
    ensures Consistent(Completed(t, siteId, ending, now))
  {
    match FindSiteById(t, siteId)
    case None =>
    case Some(s) =>
      match ending
      case Normal =>
        UpdateSiteKeepsConsistent(t, if s.status == INDEXING then s.(status := INDEXED, statusTime := now) else s);
      case Escaped(message) =>
        UpdateSiteKeepsConsistent(t, s.(status := FAILED, lastError := Some(IndexingError(message)), statusTime := now));
  }

  /** The stop sweep keeps a consistent store consistent, whatever list of sites it walks. */
  lemma {:induction false} StopAllKeepsConsistent(t: Tables, sites: seq<Site>, now: Time)
    requires Consistent(t)
    ensures Consistent(StopAll(t, sites, now))
    decreases |sites|
  {
    if sites != [] {
      var m := StopAll(t, sites[..|sites| - 1], now);
      StopAllKeepsConsistent(t, sites[..|sites| - 1], now);
      UpdateSiteKeepsConsistent(m, Stopped(sites[|sites| - 1], now));
    }
  }

  // ---------------------------------------------------------------- the service

  /** The service: the store and the ids of the sites whose crawl pool is registered and running. */
  class Indexer {
    const db: Database
    var running: set<int>

    constructor (db: Database)
      ensures this.db == db && running == {}
    {
      this.db := db;
      running := {};
    }

    /** `isIndexingInProgress`: some registered pool is still running. */
    predicate IsIndexingInProgress()
      reads this
      ensures forall id :: id in running ==> IsIndexingInProgress()
      ensures !IsIndexingInProgress() ==> forall id :: id !in running
    {
      running != {}
    }

    /** One entry of the configuration: the old site of its url removed, the new INDEXING row saved. */
    method StartSite(c: SiteConfig, now: Time) returns (site: Site)
      modifies db
      ensures site.id == old(db.nextSiteId)
      ensures db.Tables() == StartOne(old(db.Tables()), c, now)
    {
      var previous := FindSiteByUrl(db.Tables(), c.url);
      if previous.Some? {
        db.DeleteAllPostings();
        db.DeleteAllLemmas();
        db.DeletePagesBySite(previous.value.id);
        db.DeleteSite(previous.value.id);
      }
      site := db.SaveNewSite(INDEXING, now, c.url, c.name);
    }

    /** The `i`-th round of the loop over the configuration. */
    method StartEntry(ghost t: Tables, config: seq<SiteConfig>, i: nat, now: Time) returns (id: int)
      requires i < |config| && db.Tables() == Started(t, config[..i], now)
      modifies db
      ensures id == t.nextSiteId + i
      ensures db.Tables() == Started(t, config[..i + 1], now)
    {
      StartedStep(t, config, i, now);
      var site := StartSite(config[i], now);
      id := site.id;
    }

    /** The loop over the configuration: every entry started in order, the new ids collected. */
    method StartAll(config: seq<SiteConfig>, now: Time) returns (ids: set<int>)
      modifies db
      ensures db.Tables() == Started(old(db.Tables()), config, now)
      ensures forall id :: id in ids <==> old(db.nextSiteId) <= id < old(db.nextSiteId) + |config|
    {
      ghost var t := db.Tables();
      ids := {};
      var i := 0;
      while i < |config|
        invariant 0 <= i <= |config|
        invariant db.Tables() == Started(t, config[..i], now)
        invariant forall id :: id in ids <==> t.nextSiteId <= id < t.nextSiteId + i
      {
        var id := StartEntry(t, config, i, now);
        RegisteredNext(ids, t.nextSiteId, i, id);
        ids := ids + {id};
        i := i + 1;
      }
      assert config[..i] == config;
    }

    /** `startIndexing` with the configured sites and the current time. */
    method StartIndexing(config: seq<SiteConfig>, now: Time) returns (started: bool)
      modifies this, db
      ensures started <==> old(running) == {}
      ensures !started ==> running == old(running) && db.Tables() == old(db.Tables())
      ensures started ==> db.Tables() == Started(old(db.Tables()), config, now)
      ensures started ==> forall id :: id in running <==> old(db.nextSiteId) <= id < old(db.nextSiteId) + |config|
      ensures Consistent(old(db.Tables())) ==> Consistent(db.Tables())
    {
      if IsIndexingInProgress() {
        return false;
      }
      running := StartAll(config, now);
      started := true;
      if Consistent(old(db.Tables())) {
        StartedKeepsConsistent(old(db.Tables()), config, now);
      }
    }

    /** The end of a crawl's future: the site's transition, then its pool leaves the registry. */
    method Complete(siteId: int, ending: Ending, now: Time)
      modifies this, db
      ensures db.Tables() == Completed(old(db.Tables()), siteId, ending, now)
      ensures running == old(running) - {siteId}
      ensures Consistent(old(db.Tables())) ==> Consistent(db.Tables())
    {
      var found := FindSiteById(db.Tables(), siteId);
      if found.Some? {
        var s := found.value;
        match ending {
          case Normal =>
            if s.status == INDEXING {
              s := s.(status := INDEXED, statusTime := now);
            }
          case Escaped(message) =>
            s := s.(status := FAILED, lastError := Some(IndexingError(message)), statusTime := now);
        }
        db.SaveSite(s);
      }
      running := running - {siteId};
      if Consistent(old(db.Tables())) {
        CompletedKeepsConsistent(old(db.Tables()), siteId, ending, now);
      }
    }

    /** `stopIndexing`: when indexing is in progress, the sweep over all sites, then the registry is emptied. */
    method StopIndexing(now: Time) returns (stopped: bool)
      modifies this, db
      ensures stopped <==> old(running) != {}
      ensures !stopped ==> running == old(running) && db.Tables() == old(db.Tables())
      ensures stopped ==> db.Tables() == StopAll(old(db.Tables()), old(db.sites), now) && running == {}
      ensures Consistent(old(db.Tables())) ==> Consistent(db.Tables())
    {
      if !IsIndexingInProgress() {
        return false;
      }
      ghost var t := db.Tables();
      var sites := db.sites;
      var i := 0;
      while i < |sites|
        invariant 0 <= i <= |sites|
        invariant db.Tables() == StopAll(t, sites[..i], now)
      {
        assert sites[..i + 1][..i] == sites[..i];
        var s := sites[i];
        if s.status == INDEXING {
          db.SaveSite(Stopped(s, now));
        }
        i := i + 1;
      }
      assert sites[..i] == sites;
      if Consistent(t) {
        StopAllKeepsConsistent(t, sites, now);
      }
      running := {};
      stopped := true;
    }
  }
}
