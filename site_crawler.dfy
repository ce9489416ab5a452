/**
 * `SiteCrawler`: the crawl of one site.  Each task takes one url of the
 * site, admits its path into the crawl's shared `visited` set, waits a
 * random politeness delay, fetches the url, stores the page and refreshes
 * the site's status time, and spawns a task for every unvisited link of
 * the site found on an HTML page.
 *
 * One task is specified by the function `Run` on a `CrawlState`; the class
 * `Crawler` performs it in place (`Compute`) and runs the crawl tasks one after
 * the other from a worklist (`Crawl`).  The network, the clock, the random
 * generator and thread interruption are the caller's `Answer` for a url.
 */
module SiteCrawler {
  import opened Wrappers
  import opened Text
  import opened Entities
  import opened Repositories
  import opened Web
  import opened JavaInt

  // ---------------------------------------------------------------- paths

  /**
   * `getPath(url, siteUrl)`: the site-relative path of a url of the site,
   * always starting with "/", or `None` for a url outside the site.
   */
  function GetPath(url: string, siteUrl: string): (r: Option<string>)
    ensures r.None? <==> !StartsWith(url, siteUrl)
    ensures r.Some? ==> |r.value| >= 1 && r.value[0] == '/'
    ensures r.Some? ==> url == siteUrl + r.value || url == siteUrl + r.value[1..]
  {
    if !StartsWith(url, siteUrl) then None
    else
      var path := url[|siteUrl|..];
      assert url == siteUrl + path;
      if path == [] then Some("/")
      else if path[0] == '/' then Some(path)
      else Some("/" + path)
  }

  /** The site url itself is the root path. */
  lemma GetPathOfSiteUrl(siteUrl: string)
    ensures GetPath(siteUrl, siteUrl) == Some("/")
  {
    assert siteUrl[|siteUrl|..] == [];
  }

  /** A path starting with "/" appended to the site url is given back unchanged. */
  lemma GetPathOfPath(siteUrl: string, path: string)
    requires |path| >= 1 && path[0] == '/'
    ensures GetPath(siteUrl + path, siteUrl) == Some(path)
  {
    assert (siteUrl + path)[..|siteUrl|] == siteUrl;
    assert (siteUrl + path)[|siteUrl|..] == path;
  }

  /** A remainder without its leading "/" gives the same path as with it: both urls share one `visited` entry. */
  lemma GetPathSlashOptional(siteUrl: string, rest: string)
    requires rest != [] && rest[0] != '/'
    ensures GetPath(siteUrl + rest, siteUrl) == GetPath(siteUrl + "/" + rest, siteUrl) == Some("/" + rest)
  {
    assert (siteUrl + rest)[..|siteUrl|] == siteUrl;
    assert (siteUrl + rest)[|siteUrl|..] == rest;
    assert siteUrl + "/" + rest == siteUrl + ("/" + rest);
    GetPathOfPath(siteUrl, "/" + rest);
  }

  // ---------------------------------------------------------------- politeness delay

  /**
   * `getRandomDelay`: `nextInt(minDelay, maxDelay + 1)` with `draw` the
   * generator's raw output.  `None` is the `IllegalArgumentException` of an
   * empty range, which `maxDelay + 1` also produces when it wraps.
   */
  function RandomDelay(minDelay: int, maxDelay: int, draw: nat): (r: Option<int>)
    requires IsInt(minDelay) && IsInt(maxDelay)
    ensures r.None? <==> minDelay > maxDelay || maxDelay == IntMax
    ensures r.Some? ==> minDelay <= r.value <= maxDelay
  {
    var bound := AddInt(maxDelay, 1);
    if minDelay >= bound then None
    else Some(minDelay + draw % (bound - minDelay))
  }

  /** Every delay of the range is drawn for some output of the generator. */
  lemma RandomDelayCovers(minDelay: int, maxDelay: int, d: int)
    requires IsInt(minDelay) && IsInt(maxDelay) && maxDelay < IntMax
    requires minDelay <= d <= maxDelay
    ensures RandomDelay(minDelay, maxDelay, d - minDelay) == Some(d)
  {
    assert AddInt(maxDelay, 1) == maxDelay + 1;
    var range := maxDelay + 1 - minDelay;
    assert 0 <= d - minDelay < range;
    assert (d - minDelay) % range == d - minDelay;
  }

  // ---------------------------------------------------------------- content

  /** The content type, lower-cased, starts with "text/html". */
  predicate IsHtml(contentType: Option<string>) {
    contentType.Some? && StartsWith(Lower(contentType.value), "text/html")
  }

  /** The answer is parsed (and its links followed) exactly when it is a success and HTML. */
  predicate Parses(r: Response) {
    r.statusCode < 400 && IsHtml(r.contentType)
  }

  /** The content the crawler stores: the parsed document's HTML, or nothing. */
  function CrawledContent(r: Response, parse: string -> Document): string {
    if Parses(r) then parse(r.body).outerHtml else ""
  }

  /** Stored content is non-empty only for a status below 400 with an HTML content type. */
  lemma ContentRule(r: Response, parse: string -> Document)
    ensures CrawledContent(r, parse) != "" ==> r.statusCode < 400 && IsHtml(r.contentType)
    ensures !Parses(r) ==> CrawledContent(r, parse) == ""
  {
  }

  /** Upper-case content types count: "Text/HTML; charset=utf-8" is HTML. */
  lemma ContentTypeCaseIgnored(rest: string)
    ensures IsHtml(Some("Text/HTML" + rest))
  {
    var l := Lower("Text/HTML" + rest);
    assert l[..9] == "text/html";
  }

  // ---------------------------------------------------------------- links

  /** Everything from the first '#' dropped. */
  function StripFragment(u: string): (r: string)
    ensures '#' !in r
    ensures StartsWith(u, r)
    ensures '#' !in u ==> r == u
  {
    var h := IndexOf(u, "#");
    if h == -1 then
      assert '#' !in u by {
        forall j | 0 <= j < |u| ensures u[j] != '#' {
          assert !OccursAt(u, "#", j);
          assert u[j..j + 1] == [u[j]];
        }
      }
      u
    else
      assert '#' !in u[..h] by {
        forall j | 0 <= j < h ensures u[..h][j] != '#' {
          assert !OccursAt(u, "#", j);
          assert u[j..j + 1] == [u[j]];
        }
      }
      assert u[h..h + 1] == "#" && u[h] == u[h..h + 1][0];
      assert u[h] in u;
      u[..h]
  }

  /** The url a link of the page spawns a task for, if any. */
  function ChildUrl(link: string, siteUrl: string, visited: set<string>): Option<string> {
    if IsBlank(link) || !StartsWith(link, siteUrl) then None
    else
      var u := StripFragment(link);
      match GetPath(u, siteUrl)
      case None => None
      case Some(path) => if path in visited then None else Some(u)
  }

  /** The child urls of the links, in link order. */
  function ChildUrls(links: seq<string>, siteUrl: string, visited: set<string>): seq<string> {
    if links == [] then []
    else
      var init := ChildUrls(links[..|links| - 1], siteUrl, visited);
      match ChildUrl(links[|links| - 1], siteUrl, visited)
      case None => init
      case Some(u) => init + [u]
  }

  /** What a child is: a url of the site without a fragment whose path has not been visited. */
  predicate GoodChild(u: string, siteUrl: string, visited: set<string>) {
    && StartsWith(u, siteUrl) && '#' !in u
    && GetPath(u, siteUrl).Some? && GetPath(u, siteUrl).value !in visited
  }

  /** Every spawned url is a good child, and comes from a non-blank link of the site. */
  lemma {:induction false} ChildrenAreGood(links: seq<string>, siteUrl: string, visited: set<string>)
    ensures forall u :: u in ChildUrls(links, siteUrl, visited) ==> GoodChild(u, siteUrl, visited)
    ensures forall u :: u in ChildUrls(links, siteUrl, visited) ==>
      exists l :: l in links && !IsBlank(l) && StartsWith(l, siteUrl) && StripFragment(l) == u
    decreases |links|
  {
    if links != [] {
      var init := links[..|links| - 1];
      var last := links[|links| - 1];
      ChildrenAreGood(init, siteUrl, visited);
      forall u | u in ChildUrls(links, siteUrl, visited)
        ensures GoodChild(u, siteUrl, visited)
        ensures exists l :: l in links && !IsBlank(l) && StartsWith(l, siteUrl) && StripFragment(l) == u
      {
        if u in ChildUrls(init, siteUrl, visited) {
          var l :| l in init && !IsBlank(l) && StartsWith(l, siteUrl) && StripFragment(l) == u;
          assert l in links;
        } else {
          assert ChildUrl(last, siteUrl, visited) == Some(u);
          var r := StripFragment(last);
          assert StartsWith(r, siteUrl);
        }
      }
    }
  }

  /** Conversely, a non-blank link that already is a good child is spawned. */
  lemma {:induction false} GoodLinksAreChildren(links: seq<string>, siteUrl: string, visited: set<string>)
    ensures forall l :: l in links && !IsBlank(l) && GoodChild(l, siteUrl, visited) ==>
      l in ChildUrls(links, siteUrl, visited)
    decreases |links|
  {
    if links != [] {
      var init := links[..|links| - 1];
      GoodLinksAreChildren(init, siteUrl, visited);
      forall l | l in links && !IsBlank(l) && GoodChild(l, siteUrl, visited)
        ensures l in ChildUrls(links, siteUrl, visited)
      {
        if l != links[|links| - 1] {
          var i :| 0 <= i < |links| && links[i] == l;
          assert init[i] == l;
        }
      }
    }
  }

  // ---------------------------------------------------------------- site row updates

  /** After a stored page: the site row, when it still exists, gets the current time. */
  function Touched(t: Tables, siteId: int, now: Time): (r: Tables)
    ensures r == t.(sites := r.sites)
  {
    match FindSiteById(t, siteId)
    case Some(s) => UpdateSite(t, s.(statusTime := now))
    case None => t
  }

  /** The message of a crawl error; Java prints a null message as "null". */
  function CrawlError(message: Option<string>): string {
    "Ошибка обхода: " + (if message.Some? then message.value else "null")
  }

  /** After a failed task: the site row, when it still exists, records the error and the current time. */
  function CrawlFailed(t: Tables, siteId: int, message: Option<string>, now: Time): (r: Tables)
    ensures r == t.(sites := r.sites)
  {
    match FindSiteById(t, siteId)
    case Some(s) => UpdateSite(t, s.(lastError := Some(CrawlError(message)), statusTime := now))
    case None => t
  }

  /**
   * `after` is the site table `before` in which only the rows of `siteId`
   * may have a new time and error; every other column and row is as it was.
   */
  ghost predicate SiteTimesOnly(before: seq<Site>, after: seq<Site>, siteId: int) {
    && |after| == |before|
    && forall i :: 0 <= i < |before| ==>
         && after[i].(statusTime := before[i].statusTime, lastError := before[i].lastError) == before[i]
         && (before[i].id != siteId ==> after[i] == before[i])
  }

  lemma SiteTimesOnlyTransitive(a: seq<Site>, b: seq<Site>, c: seq<Site>, siteId: int)
    requires SiteTimesOnly(a, b, siteId) && SiteTimesOnly(b, c, siteId)
    ensures SiteTimesOnly(a, c, siteId)
  {
    forall i | 0 <= i < |a|
      ensures c[i].(statusTime := a[i].statusTime, lastError := a[i].lastError) == a[i]
    {
      assert b[i].(statusTime := a[i].statusTime, lastError := a[i].lastError) == a[i];
      assert c[i].(statusTime := b[i].statusTime, lastError := b[i].lastError) == b[i];
    }
  }

  /** Rows that keep their ids keep them distinct. */
  lemma SiteTimesOnlyKeepsIds(a: seq<Site>, b: seq<Site>, siteId: int)
    requires SiteTimesOnly(a, b, siteId) && DistinctBy(a, SiteId)
    ensures DistinctBy(b, SiteId)
  {
    forall i, j | 0 <= i < j < |b| ensures SiteId(b[i]) != SiteId(b[j]) {
      assert b[i].(statusTime := a[i].statusTime, lastError := a[i].lastError) == a[i];
      assert b[j].(statusTime := a[j].statusTime, lastError := a[j].lastError) == a[j];
      assert SiteId(a[i]) != SiteId(a[j]);
    }
  }

  /** Saving a site's row with only its time and error changed leaves the rest of the site table alone. */
  lemma RefreshedRow(t: Tables, current: Site, row: Site)
    requires DistinctBy(t.sites, SiteId) && current in t.sites
    requires row.(statusTime := current.statusTime, lastError := current.lastError) == current
    ensures SiteTimesOnly(t.sites, UpdateSite(t, row).sites, current.id)
  {
    forall i | 0 <= i < |t.sites| && t.sites[i].id == current.id ensures t.sites[i] == current {
      DistinctKeyDeterminesRow(t.sites, SiteId, t.sites[i], current);
    }
  }

  /** A stored page refreshes the site's time and nothing else of it; other sites are untouched. */
  lemma TouchedSite(t: Tables, siteId: int, now: Time)
    requires DistinctBy(t.sites, SiteId)
    ensures FindSiteById(t, siteId).Some? ==>
      FindSiteById(Touched(t, siteId, now), siteId) == Some(FindSiteById(t, siteId).value.(statusTime := now))
    ensures FindSiteById(t, siteId).None? ==> Touched(t, siteId, now) == t
    ensures forall id :: id != siteId ==> FindSiteById(Touched(t, siteId, now), id) == FindSiteById(t, id)
    ensures SiteTimesOnly(t.sites, Touched(t, siteId, now).sites, siteId)
  {
    var found := FindSiteById(t, siteId);
    if found.Some? {
      SavedSiteIsFound(t, found.value.(statusTime := now));
      RefreshedRow(t, found.value, found.value.(statusTime := now));
    }
  }

  /** A failure sets the error text and time but keeps the status; other sites are untouched. */
  lemma FailedSite(t: Tables, siteId: int, message: Option<string>, now: Time)
    requires DistinctBy(t.sites, SiteId)
    ensures FindSiteById(t, siteId).Some? ==>
      var s := FindSiteById(CrawlFailed(t, siteId, message, now), siteId);
      && s.Some? && s.value.status == FindSiteById(t, siteId).value.status
      && s.value.lastError == Some("Ошибка обхода: " + (if message.Some? then message.value else "null"))
      && s.value.statusTime == now
      && s.value.url == FindSiteById(t, siteId).value.url
    ensures FindSiteById(t, siteId).None? ==> CrawlFailed(t, siteId, message, now) == t
    ensures forall id :: id != siteId ==> FindSiteById(CrawlFailed(t, siteId, message, now), id) == FindSiteById(t, id)
    ensures SiteTimesOnly(t.sites, CrawlFailed(t, siteId, message, now).sites, siteId)
  {
    var found := FindSiteById(t, siteId);
    if found.Some? {
      var row := found.value.(lastError := Some(CrawlError(message)), statusTime := now);
      SavedSiteIsFound(t, row);
      RefreshedRow(t, found.value, row);
    }
  }

  // ---------------------------------------------------------------- one task

  /** How the politeness sleep ended: the full delay, or woken by an interrupt. */
  datatype Pause = Slept | WokenByInterrupt

  /** The fetch: an answer (HTTP errors included), or an exception with its message (which may be null). */
  datatype Fetch = Answered(response: Response) | Threw(message: Option<string>)

  /** What the world does for one task: the generator's output, the sleep, the fetch, the clock. */
  datatype Answer = Answer(draw: nat, pause: Pause, fetch: Fetch, now: Time)

  /** The state one crawl shares between its tasks: the store, the visited paths, the interrupt flag. */
  datatype CrawlState = CrawlState(tables: Tables, visited: set<string>, interrupted: bool)

  datatype Outcome = Outcome(state: CrawlState, children: seq<string>)

  /** `compute()` for `url`, on the crawl's site, with the delay range of the configuration. */
  function Run(s: CrawlState, site: Site, minDelay: int, maxDelay: int, parse: string -> Document,
               url: string, a: Answer): (o: Outcome)
    requires IsInt(minDelay) && IsInt(maxDelay)
    ensures o.state.tables
      == s.tables.(sites := o.state.tables.sites, pages := o.state.tables.pages, nextPageId := o.state.tables.nextPageId)
    ensures s.visited <= o.state.visited
  {
    if s.interrupted then Outcome(s, [])
    else match GetPath(url, site.url)
      case None => Outcome(s, [])
      case Some(path) =>
        if path in s.visited then Outcome(s, [])
        else
          var admitted := s.(visited := s.visited + {path});
          match RandomDelay(minDelay, maxDelay, a.draw)
          case None => Outcome(admitted, [])
          case Some(d) =>
            if d < 0 then Outcome(admitted, [])
            else if a.pause == WokenByInterrupt then Outcome(admitted.(interrupted := true), [])
            else match a.fetch
              case Threw(message) =>
                Outcome(admitted.(tables := CrawlFailed(s.tables, site.id, message, a.now)), [])
              case Answered(r) =>
                // Without its site row the page insert breaks the `site_id` key; the catch then finds no row to mark.
                if FindSiteById(s.tables, site.id).None? then Outcome(admitted, [])
                else
                  var stored := InsertPage(s.tables, site.id, path, r.statusCode, CrawledContent(r, parse));
                  Outcome(admitted.(tables := Touched(stored, site.id, a.now)),
                          if Parses(r) then ChildUrls(parse(r.body).links, site.url, admitted.visited) else [])
  }

  /** An interrupted task changes nothing and spawns nothing. */
  lemma RunInterrupted(s: CrawlState, site: Site, minDelay: int, maxDelay: int, parse: string -> Document,
                       url: string, a: Answer)
    requires IsInt(minDelay) && IsInt(maxDelay) && s.interrupted
    ensures Run(s, site, minDelay, maxDelay, parse, url, a) == Outcome(s, [])
  {
  }

  /**
   * Admission: a task whose path is missing or already visited changes
   * nothing; otherwise the path joins `visited`, and the crawl task stores at most
   * one page, at that path, on the crawl's site.
   */
  lemma RunAdmission(s: CrawlState, site: Site, minDelay: int, maxDelay: int, parse: string -> Document,
                     url: string, a: Answer)
    requires IsInt(minDelay) && IsInt(maxDelay)
    ensures var o := Run(s, site, minDelay, maxDelay, parse, url, a);
      var path := GetPath(url, site.url);
      if s.interrupted || path.None? || path.value in s.visited then o == Outcome(s, [])
      else
        && o.state.visited == s.visited + {path.value}
        && (|| o.state.tables.pages == s.tables.pages
            || exists code, content :: o.state.tables.pages == s.tables.pages + [Page(s.tables.nextPageId, site.id, path.value, code, content)])
    ensures var o := Run(s, site, minDelay, maxDelay, parse, url, a);
      o.state.tables.pages != s.tables.pages ==> o.state.tables.nextPageId == s.tables.nextPageId + 1
  {
  }

  /** A page a crawl task stores holds content only for a successful HTML answer, and then the parsed document. */
  lemma RunContent(s: CrawlState, site: Site, minDelay: int, maxDelay: int, parse: string -> Document,
                   url: string, a: Answer)
    requires IsInt(minDelay) && IsInt(maxDelay)
    ensures var o := Run(s, site, minDelay, maxDelay, parse, url, a);
      forall i :: |s.tables.pages| <= i < |o.state.tables.pages| ==>
        && a.fetch.Answered? && o.state.tables.pages[i].code == a.fetch.response.statusCode
        && (o.state.tables.pages[i].content != "" ==>
              a.fetch.response.statusCode < 400 && IsHtml(a.fetch.response.contentType))
  {
    var o := Run(s, site, minDelay, maxDelay, parse, url, a);
    if |o.state.tables.pages| > |s.tables.pages| {
      ContentRule(a.fetch.response, parse);
    }
  }

  /** Spawned urls are good children with respect to the set as it is after admission. */
  lemma RunChildren(s: CrawlState, site: Site, minDelay: int, maxDelay: int, parse: string -> Document,
                    url: string, a: Answer)
    requires IsInt(minDelay) && IsInt(maxDelay)
    ensures var o := Run(s, site, minDelay, maxDelay, parse, url, a);
      forall u :: u in o.children ==> GoodChild(u, site.url, o.state.visited)
    ensures var o := Run(s, site, minDelay, maxDelay, parse, url, a);
      o.children != [] ==> a.fetch.Answered? && Parses(a.fetch.response)
  {
    var o := Run(s, site, minDelay, maxDelay, parse, url, a);
    if o.children != [] {
      ChildrenAreGood(parse(a.fetch.response.body).links, site.url, o.state.visited);
    }
  }

  /** A fetch that throws leaves the pages alone and records the error on the site, keeping its status. */
  lemma RunFailure(s: CrawlState, site: Site, minDelay: int, maxDelay: int, parse: string -> Document,
                   url: string, a: Answer)
    requires IsInt(minDelay) && IsInt(maxDelay) && DistinctBy(s.tables.sites, SiteId)
    requires a.fetch.Threw? && a.pause == Slept && minDelay >= 0
    requires !s.interrupted && GetPath(url, site.url).Some? && GetPath(url, site.url).value !in s.visited
    requires minDelay <= maxDelay < IntMax && FindSiteById(s.tables, site.id).Some?
    ensures var o := Run(s, site, minDelay, maxDelay, parse, url, a);
      var before := FindSiteById(s.tables, site.id).value;
      && o.state.tables.pages == s.tables.pages
      && FindSiteById(o.state.tables, site.id)
           == Some(before.(lastError := Some(CrawlError(a.fetch.message)), statusTime := a.now))
      && o.children == []
  {
    FailedSite(s.tables, site.id, a.fetch.message, a.now);
  }

  /** A crawl task changes no site row but the crawl site's, and that one only in its time and error. */
  lemma RunKeepsSiteRows(s: CrawlState, site: Site, minDelay: int, maxDelay: int, parse: string -> Document,
                         url: string, a: Answer)
    requires IsInt(minDelay) && IsInt(maxDelay) && DistinctBy(s.tables.sites, SiteId)
    ensures SiteTimesOnly(s.tables.sites, Run(s, site, minDelay, maxDelay, parse, url, a).state.tables.sites, site.id)
  {
    var o := Run(s, site, minDelay, maxDelay, parse, url, a);
    var path := GetPath(url, site.url);
    var delay := RandomDelay(minDelay, maxDelay, a.draw);
    if s.interrupted || path.None? || path.value in s.visited || delay.None? || delay.value < 0
       || a.pause == WokenByInterrupt || (a.fetch.Answered? && FindSiteById(s.tables, site.id).None?) {
      assert o.state.tables == s.tables;
    } else if a.fetch.Threw? {
      assert o.state.tables == CrawlFailed(s.tables, site.id, a.fetch.message, a.now);
      FailedSite(s.tables, site.id, a.fetch.message, a.now);
    } else {
      var r := a.fetch.response;
      var stored := InsertPage(s.tables, site.id, path.value, r.statusCode, CrawledContent(r, parse));
      assert o.state.tables == Touched(stored, site.id, a.now);
      TouchedSite(stored, site.id, a.now);
    }
  }

  /** A task whose site row is gone stores nothing and spawns nothing: the failed page insert is caught and finds no row to mark. */
  lemma RunWithoutSiteRow(s: CrawlState, site: Site, minDelay: int, maxDelay: int, parse: string -> Document,
                          url: string, a: Answer)
    requires IsInt(minDelay) && IsInt(maxDelay) && !HasSite(s.tables, site.id)
    ensures var o := Run(s, site, minDelay, maxDelay, parse, url, a);
      o.state.tables == s.tables && o.children == []
  {
  }

  /** A crawl task keeps a consistent store consistent: it stores a page only while its site row exists. */
  lemma RunKeepsConsistent(s: CrawlState, site: Site, minDelay: int, maxDelay: int, parse: string -> Document,
                           url: string, a: Answer)
    requires IsInt(minDelay) && IsInt(maxDelay) && Consistent(s.tables)
    ensures Consistent(Run(s, site, minDelay, maxDelay, parse, url, a).state.tables)
  {
    var o := Run(s, site, minDelay, maxDelay, parse, url, a);
    var path := GetPath(url, site.url);
    var delay := RandomDelay(minDelay, maxDelay, a.draw);
    var found := FindSiteById(s.tables, site.id);
    if s.interrupted || path.None? || path.value in s.visited || delay.None? || delay.value < 0
       || a.pause == WokenByInterrupt || (a.fetch.Answered? && found.None?) {
      assert o.state.tables == s.tables;
    } else if a.fetch.Threw? {
      if found.Some? {
        UpdateSiteKeepsConsistent(s.tables, found.value.(lastError := Some(CrawlError(a.fetch.message)), statusTime := a.now));
      }
    } else {
      var r := a.fetch.response;
      var stored := InsertPage(s.tables, site.id, path.value, r.statusCode, CrawledContent(r, parse));
      InsertPageKeepsConsistent(s.tables, site.id, path.value, r.statusCode, CrawledContent(r, parse));
      assert o.state.tables == Touched(stored, site.id, a.now);
      var current := FindSiteById(stored, site.id);
      if current.Some? {
        UpdateSiteKeepsConsistent(stored, current.value.(statusTime := a.now));
      }
    }
  }

  // ---------------------------------------------------------------- the crawl

  /**
   * The pages from index `n` on are on `siteId`, at paths of `fresh`, and no
   * two of them share a path.
   */
  ghost predicate NewPages(pages: seq<Page>, n: nat, siteId: int, added: set<string>) {
    && n <= |pages|
    && (forall i :: n <= i < |pages| ==> pages[i].siteId == siteId && pages[i].path in added)
    && (forall i, j :: n <= i < j < |pages| ==> pages[i].path != pages[j].path)
  }

  /** One admitted page more keeps the pages of the crawl one per path. */
  lemma NewPagesStep(pages: seq<Page>, n: nat, siteId: int, v0: set<string>, visited: set<string>, p: Page)
    requires NewPages(pages, n, siteId, visited - v0)
    requires p.siteId == siteId && p.path !in visited && p.path !in v0
    ensures NewPages(pages + [p], n, siteId, (visited + {p.path}) - v0)
  {
    var r := pages + [p];
    forall i, j | n <= i < j < |r| ensures r[i].path != r[j].path {
      if j == |pages| {
        assert r[i] == pages[i];
      } else {
        assert r[i] == pages[i] && r[j] == pages[j];
      }
    }
  }

  /**
   * Since the crawl began with pages `p0` and visited paths `v0`: both only
   * grew, and the pages added are on `siteId`, one per newly visited path.
   */
  ghost predicate GrownSince(p0: seq<Page>, v0: set<string>, siteId: int, s: CrawlState) {
    && v0 <= s.visited
    && |p0| <= |s.tables.pages| && s.tables.pages[..|p0|] == p0
    && NewPages(s.tables.pages, |p0|, siteId, s.visited - v0)
  }

  /** Every crawl task keeps that growth. */
  lemma RunGrows(s: CrawlState, site: Site, minDelay: int, maxDelay: int, parse: string -> Document,
                 url: string, a: Answer, p0: seq<Page>, v0: set<string>)
    requires IsInt(minDelay) && IsInt(maxDelay) && GrownSince(p0, v0, site.id, s)
    ensures GrownSince(p0, v0, site.id, Run(s, site, minDelay, maxDelay, parse, url, a).state)
  {
    var o := Run(s, site, minDelay, maxDelay, parse, url, a);
    RunAdmission(s, site, minDelay, maxDelay, parse, url, a);
    if o.state.tables.pages != s.tables.pages {
      var path := GetPath(url, site.url).value;
      var code, content :| o.state.tables.pages == s.tables.pages + [Page(s.tables.nextPageId, site.id, path, code, content)];
      NewPagesStep(s.tables.pages, |p0|, site.id, v0, s.visited, Page(s.tables.nextPageId, site.id, path, code, content));
      assert o.state.tables.pages[..|p0|] == s.tables.pages[..|p0|];
    }
  }

  /**
   * The fork/join tree of one crawl run as a worklist: the first url's task
   * runs, its children join the back of the list, for at most `fuel` tasks.
   */
  function CrawlFrom(s: CrawlState, site: Site, minDelay: int, maxDelay: int, parse: string -> Document,
                     world: string -> Answer, work: seq<string>, fuel: nat): (r: CrawlState)
    requires IsInt(minDelay) && IsInt(maxDelay)
    ensures r.tables == s.tables.(sites := r.tables.sites, pages := r.tables.pages, nextPageId := r.tables.nextPageId)
    ensures s.visited <= r.visited
    decreases fuel
  {
    if work == [] || fuel == 0 then s
    else
      var o := Run(s, site, minDelay, maxDelay, parse, work[0], world(work[0]));
      CrawlFrom(o.state, site, minDelay, maxDelay, parse, world, work[1..] + o.children, fuel - 1)
  }

  /** One turn of the worklist: the first url's task, then the rest of the list and its children. */
  lemma CrawlFromStep(s: CrawlState, site: Site, minDelay: int, maxDelay: int, parse: string -> Document,
                      world: string -> Answer, work: seq<string>, fuel: nat)
    requires IsInt(minDelay) && IsInt(maxDelay) && work != [] && fuel != 0
    ensures var o := Run(s, site, minDelay, maxDelay, parse, work[0], world(work[0]));
      CrawlFrom(s, site, minDelay, maxDelay, parse, world, work, fuel)
        == CrawlFrom(o.state, site, minDelay, maxDelay, parse, world, work[1..] + o.children, fuel - 1)
  {
  }

  /** A whole crawl keeps a consistent store consistent. */
  lemma {:induction false} CrawlKeepsConsistent(s: CrawlState, site: Site, minDelay: int, maxDelay: int,
                                                parse: string -> Document, world: string -> Answer,
                                                work: seq<string>, fuel: nat)
    requires IsInt(minDelay) && IsInt(maxDelay) && Consistent(s.tables)
    ensures Consistent(CrawlFrom(s, site, minDelay, maxDelay, parse, world, work, fuel).tables)
    decreases fuel
  {
    if work != [] && fuel != 0 {
      var o := Run(s, site, minDelay, maxDelay, parse, work[0], world(work[0]));
      RunKeepsConsistent(s, site, minDelay, maxDelay, parse, work[0], world(work[0]));
      CrawlKeepsConsistent(o.state, site, minDelay, maxDelay, parse, world, work[1..] + o.children, fuel - 1);
    }
  }

  /** A whole crawl keeps the growth of `GrownSince`: its pages are on its site, one per newly visited path. */
  lemma {:induction false} CrawlGrows(s: CrawlState, site: Site, minDelay: int, maxDelay: int,
                                      parse: string -> Document, world: string -> Answer,
                                      work: seq<string>, fuel: nat, p0: seq<Page>, v0: set<string>)
    requires IsInt(minDelay) && IsInt(maxDelay) && GrownSince(p0, v0, site.id, s)
    ensures GrownSince(p0, v0, site.id, CrawlFrom(s, site, minDelay, maxDelay, parse, world, work, fuel))
    decreases fuel
  {
    if work != [] && fuel != 0 {
      var o := Run(s, site, minDelay, maxDelay, parse, work[0], world(work[0]));
      RunGrows(s, site, minDelay, maxDelay, parse, work[0], world(work[0]), p0, v0);
      CrawlGrows(o.state, site, minDelay, maxDelay, parse, world, work[1..] + o.children, fuel - 1, p0, v0);
    }
  }

  /** A whole crawl changes no site row but its own site's, and that one only in its time and error. */
  lemma {:induction false} CrawlKeepsSiteRows(s: CrawlState, site: Site, minDelay: int, maxDelay: int,
                                              parse: string -> Document, world: string -> Answer,
                                              work: seq<string>, fuel: nat)
    requires IsInt(minDelay) && IsInt(maxDelay) && DistinctBy(s.tables.sites, SiteId)
    ensures SiteTimesOnly(s.tables.sites, CrawlFrom(s, site, minDelay, maxDelay, parse, world, work, fuel).tables.sites, site.id)
    decreases fuel
  {
    if work != [] && fuel != 0 {
      var o := Run(s, site, minDelay, maxDelay, parse, work[0], world(work[0]));
      RunKeepsSiteRows(s, site, minDelay, maxDelay, parse, work[0], world(work[0]));
      SiteTimesOnlyKeepsIds(s.tables.sites, o.state.tables.sites, site.id);
      CrawlKeepsSiteRows(o.state, site, minDelay, maxDelay, parse, world, work[1..] + o.children, fuel - 1);
      SiteTimesOnlyTransitive(s.tables.sites, o.state.tables.sites,
        CrawlFrom(o.state, site, minDelay, maxDelay, parse, world, work[1..] + o.children, fuel - 1).tables.sites, site.id);
    }
  }

  /**
   * A crawl in progress: the site it crawls, the store, the shared `visited`
   * set and the interrupt flag of its threads.
   */
  class Crawler {
    const site: Site
    const db: Database
    const minDelay: int
    const maxDelay: int
    var visited: set<string>
    var interrupted: bool

    /** A root task: a `null` visited set is replaced by a new empty one. */
    constructor (site: Site, db: Database, minDelay: int, maxDelay: int, visited: Option<set<string>>)
      requires IsInt(minDelay) && IsInt(maxDelay)
      ensures this.site == site && this.db == db && this.minDelay == minDelay && this.maxDelay == maxDelay
      ensures this.visited == (if visited.Some? then visited.value else {})
      ensures !interrupted
    {
      this.site := site;
      this.db := db;
      this.minDelay := minDelay;
      this.maxDelay := maxDelay;
      this.visited := if visited.Some? then visited.value else {};
      interrupted := false;
    }

    ghost predicate Valid()
      reads this
    {
      IsInt(minDelay) && IsInt(maxDelay)
    }

    function State(): CrawlState
      reads this, db
    {
      CrawlState(db.Tables(), visited, interrupted)
    }

    /** Another thread interrupts the crawl (`shutdownNow` of its pool). */
    method Interrupt()
      modifies this
      ensures interrupted && visited == old(visited)
    {
      interrupted := true;
    }

    /** The link scan of a parsed page, against the visited set as it is now. */
    method ScanLinks(links: seq<string>) returns (children: seq<string>)
      ensures children == ChildUrls(links, site.url, visited)
    {
      children := [];
      var i := 0;
      while i < |links|
        invariant 0 <= i <= |links|
        invariant children == ChildUrls(links[..i], site.url, visited)
      {
        assert links[..i + 1][..i] == links[..i];
        var link := links[i];
        if !IsBlank(link) && StartsWith(link, site.url) {
          var u := StripFragment(link);
          var path := GetPath(u, site.url);
          if path.Some? && path.value !in visited {
            children := children + [u];
          }
        }
        i := i + 1;
      }
      assert links[..i] == links;
    }

    /** `compute()` for `url`: one task, in place. */
    method Compute(url: string, parse: string -> Document, a: Answer) returns (children: seq<string>)
      requires Valid()
      modifies this, db
      ensures Valid()
      ensures Outcome(State(), children) == Run(old(State()), site, minDelay, maxDelay, parse, url, a)
    {
      children := [];
      if interrupted {
        return;
      }
      var path := GetPath(url, site.url);
      if path.None? || path.value in visited {
        return;
      }
      visited := visited + {path.value};
      var delay := RandomDelay(minDelay, maxDelay, a.draw);
      if delay.None? || delay.value < 0 {
        return;
      }
      if a.pause == WokenByInterrupt {
        interrupted := true;
        return;
      }
      match a.fetch {
        case Threw(message) =>
          var current := FindSiteById(db.Tables(), site.id);
          if current.Some? {
            db.SaveSite(current.value.(lastError := Some(CrawlError(message)), statusTime := a.now));
          }
        case Answered(r) =>
          if FindSiteById(db.Tables(), site.id).None? {
            return;
          }
          var page := db.SaveNewPage(site.id, path.value, r.statusCode, CrawledContent(r, parse));
          var current := FindSiteById(db.Tables(), site.id);
          if current.Some? {
            db.SaveSite(current.value.(statusTime := a.now));
          }
          if Parses(r) {
            children := ScanLinks(parse(r.body).links);
          }
      }
    }

    /** Runs the worklist `todo` for at most `fuel` tasks, as `CrawlFrom` does. */
    method Drain(todo: seq<string>, parse: string -> Document, world: string -> Answer, fuel: nat)
      requires Valid()
      modifies this, db
      ensures Valid()
      ensures State() == CrawlFrom(old(State()), site, minDelay, maxDelay, parse, world, todo, fuel)
    {
      ghost var s0 := State();
      var work := todo;
      var steps := 0;
      while work != [] && steps < fuel
        invariant Valid()
        invariant steps <= fuel
        invariant CrawlFrom(State(), site, minDelay, maxDelay, parse, world, work, fuel - steps)
               == CrawlFrom(s0, site, minDelay, maxDelay, parse, world, todo, fuel)
        decreases fuel - steps
      {
        var url := work[0];
        CrawlFromStep(State(), site, minDelay, maxDelay, parse, world, work, fuel - steps);
        work := work[1..];
        var children := Compute(url, parse, world(url));
        work := work + children;
        steps := steps + 1;
      }
    }

    /**
     * The fork/join tree run as a worklist from `rootUrl`, for at most `fuel`
     * tasks, with `world` answering for every url.  The pages it stores are
     * on the crawl's site, at newly visited paths, one per path.
     */
    method Crawl(rootUrl: string, parse: string -> Document, world: string -> Answer, fuel: nat)
      requires Valid()
      modifies this, db
      ensures Valid()
      ensures old(visited) <= visited
      ensures |old(db.pages)| <= |db.pages| && db.pages[..|old(db.pages)|] == old(db.pages)
      ensures NewPages(db.pages, |old(db.pages)|, site.id, visited - old(visited))
      ensures State() == CrawlFrom(old(State()), site, minDelay, maxDelay, parse, world, [rootUrl], fuel)
      ensures db.lemmas == old(db.lemmas) && db.postings == old(db.postings)
      ensures db.nextSiteId == old(db.nextSiteId) && db.nextLemmaId == old(db.nextLemmaId)
      ensures db.nextIndexId == old(db.nextIndexId)
      ensures DistinctBy(old(db.sites), SiteId) ==> SiteTimesOnly(old(db.sites), db.sites, site.id)
      ensures Consistent(old(db.Tables())) ==> Consistent(db.Tables())
    {
      ghost var s0 := State();
      Drain([rootUrl], parse, world, fuel);
      assert s0.tables.pages[..|s0.tables.pages|] == s0.tables.pages;
      CrawlGrows(s0, site, minDelay, maxDelay, parse, world, [rootUrl], fuel, s0.tables.pages, s0.visited);
      if DistinctBy(s0.tables.sites, SiteId) {
        CrawlKeepsSiteRows(s0, site, minDelay, maxDelay, parse, world, [rootUrl], fuel);
      }
      if Consistent(s0.tables) {
        CrawlKeepsConsistent(s0, site, minDelay, maxDelay, parse, world, [rootUrl], fuel);
      }
    }
  }
}
