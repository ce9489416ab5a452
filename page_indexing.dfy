/**
 * `PageIndexingServiceImpl.indexPage`: (re)indexing one page of a site that
 * is already known.  An existing page at the same path is removed first,
 * together with its postings and every lemma row of its site; the new page
 * is stored, and every lemma of its text is found or created with its
 * frequency raised by one and gets one posting carrying its count.
 *
 * The store effect is specified by the function `Indexed`; the method
 * `IndexPage` performs it call by call on a `Database`.
 */
module PageIndexing {
  import opened Wrappers
  import opened Text
  import opened Entities
  import opened Repositories
  import opened LemmaFinder
  import opened Web

  /** The page path: every occurrence of the root url in the url becomes "/". */
  function PagePath(url: string, rootUrl: string): (r: string)
    ensures rootUrl != [] && StartsWith(url, rootUrl) ==> StartsWith(r, "/")
    ensures rootUrl != [] && url == rootUrl ==> r == "/"
  {
    assert url == rootUrl && rootUrl != [] ==> url[|rootUrl|..] == [] && Replace([], rootUrl, "/") == [];
    Replace(url, rootUrl, "/")
  }

  /** For a url that is the root url followed by a rest not containing it again, the path is "/" and that rest. */
  lemma PagePathOfSiteUrl(rootUrl: string, rest: string)
    requires rootUrl != [] && !Contains(rest, rootUrl)
    ensures PagePath(rootUrl + rest, rootUrl) == "/" + rest
  {
    ReplaceLeadingOnly(rootUrl, rest, "/");
  }

  /** What is stored as the page content: the body below status 400, nothing otherwise. */
  function StoredContent(r: Response): (content: string)
    ensures content != "" ==> r.statusCode < 400
    ensures r.statusCode < 400 ==> content == r.body
  {
    if r.statusCode < 400 then r.body else ""
  }

  /** The frequency of the (text, site) row, or 0 when there is none: the value a new `Lemma` starts from. */
  function Frequency(t: Tables, text: string, siteId: int): int {
    match FindLemmaByLemmaAndSite(t, text, siteId)
    case Some(l) => l.frequency
    case None => 0
  }

  /** `setFrequency(getFrequency() + 1)` on a row. */
  function Raised(l: Lemma): Lemma {
    l.(frequency := l.frequency + 1)
  }

  /** A found row is saved with its frequency raised and posted under its id. */
  function AddFound(t: Tables, l: Lemma, pageId: int, count: int): Tables {
    InsertPosting(UpdateLemma(t, Raised(l)), pageId, l.id, count)
  }

  /** A missing row is created with frequency 0 + 1 and posted under its new id. */
  function AddMissing(t: Tables, siteId: int, text: string, pageId: int, count: int): Tables {
    InsertPosting(InsertLemma(t, siteId, text, 1), pageId, t.nextLemmaId, count)
  }

  /** One entry of the page's lemma map: find or create the row, add one to its frequency, post the count. */
  function AddLemma(t: Tables, siteId: int, pageId: int, text: string, count: int): Tables {
    match FindLemmaByLemmaAndSite(t, text, siteId)
    case Some(l) => AddFound(t, l, pageId, count)
    case None => AddMissing(t, siteId, text, pageId, count)
  }

  /** The entries `keys` of the lemma map `counts`, added in that order. */
  function AddLemmas(t: Tables, siteId: int, pageId: int, keys: seq<string>, counts: map<string, int>): Tables
    requires forall k :: k in keys ==> k in counts
    decreases |keys|
  {
    if keys == [] then t
    else
      var last := keys[|keys| - 1];
      AddLemma(AddLemmas(t, siteId, pageId, keys[..|keys| - 1], counts), siteId, pageId, last, counts[last])
  }

  /** The store once an existing page at `path` is gone: its postings, every lemma row of the site, the page. */
  function Cleared(t: Tables, siteId: int, path: string): Tables {
    match FindPageByPathAndSite(t, path, siteId)
    case Some(p) => WithoutPage(WithoutLemmasOfSite(WithoutPostingsOfPage(t, p.id), siteId), p.id)
    case None => t
  }

  /** The whole store update of `indexPage` for a page answered with `code` and `content`. */
  function Indexed(t: Tables, siteId: int, path: string, code: int, content: string,
                   counts: map<string, int>, keys: seq<string>): Tables
    requires forall k :: k in keys ==> k in counts
  {
    var c := Cleared(t, siteId, path);
    AddLemmas(InsertPage(c, siteId, path, code, content), siteId, c.nextPageId, keys, counts)
  }

  // ---------------------------------------------------------------- one lemma

  /** When the rows of one key are the same in two snapshots, so is the finder's answer for it. */
  lemma FindAgrees(t: Tables, r: Tables, x: string, s: int)
    requires DistinctBy(t.lemmas, LemmaKey) && DistinctBy(r.lemmas, LemmaKey)
    requires forall l :: l in r.lemmas && LemmaKey(l) == (x, s) <==> l in t.lemmas && LemmaKey(l) == (x, s)
    ensures FindLemmaByLemmaAndSite(r, x, s) == FindLemmaByLemmaAndSite(t, x, s)
  {
    var a := FindLemmaByLemmaAndSite(t, x, s);
    if a.Some? {
      assert LemmaKey(a.value) == (x, s);
      FindLemmaIsTheRow(r, a.value);
    }
  }

  /** The finder reads only the lemma table. */
  lemma FindReadsLemmas(t: Tables, r: Tables)
    requires r.lemmas == t.lemmas
    ensures forall x, s :: FindLemmaByLemmaAndSite(r, x, s) == FindLemmaByLemmaAndSite(t, x, s)
  {
  }

  /** With distinct ids, saving a row replaces exactly the row with its id. */
  lemma ReplaceAt(s: seq<Lemma>, i: int, row: Lemma)
    requires DistinctBy(s, LemmaId) && 0 <= i < |s| && s[i].id == row.id
    ensures ReplaceById(s, LemmaId, row) == s[i := row]
  {
    var r := ReplaceById(s, LemmaId, row);
    forall j | 0 <= j < |s| ensures r[j] == s[i := row][j] {
      if j < i {
        assert LemmaId(s[j]) != LemmaId(s[i]);
      } else if i < j {
        assert LemmaId(s[i]) != LemmaId(s[j]);
      }
    }
  }

  /** The part of `Consistent` about the lemma table. */
  ghost predicate LemmaRowsOk(t: Tables) {
    && DistinctBy(t.lemmas, LemmaKey) && DistinctBy(t.lemmas, LemmaId)
    && forall m :: m in t.lemmas ==> m.id < t.nextLemmaId && HasSite(t, m.siteId) && m.frequency >= 1
  }

  /** Every key other than (text, site) finds the same row in `r` as in `t`. */
  ghost predicate OtherKeysKept(t: Tables, r: Tables, text: string, siteId: int) {
    forall x, s :: (x, s) != (text, siteId) ==> FindLemmaByLemmaAndSite(r, x, s) == FindLemmaByLemmaAndSite(t, x, s)
  }

  /** Overwriting one row with a row of the same key leaves the finder's answer for every other key. */
  lemma OverwriteKeepsOtherKeys(t: Tables, u: Tables, i: int, row: Lemma)
    requires DistinctBy(t.lemmas, LemmaKey)
    requires 0 <= i < |t.lemmas| && LemmaKey(row) == LemmaKey(t.lemmas[i]) && u.lemmas == t.lemmas[i := row]
    ensures DistinctBy(u.lemmas, LemmaKey)
    ensures OtherKeysKept(t, u, row.text, row.siteId)
  {
    assert forall j :: 0 <= j < |u.lemmas| ==> LemmaKey(u.lemmas[j]) == LemmaKey(t.lemmas[j]);
    forall x, s | (x, s) != (row.text, row.siteId)
      ensures FindLemmaByLemmaAndSite(u, x, s) == FindLemmaByLemmaAndSite(t, x, s)
    {
      forall m ensures m in u.lemmas && LemmaKey(m) == (x, s) <==> m in t.lemmas && LemmaKey(m) == (x, s) {
        if m in t.lemmas && LemmaKey(m) == (x, s) {
          var j :| 0 <= j < |t.lemmas| && t.lemmas[j] == m;
          assert u.lemmas[j] == m;
        }
      }
      FindAgrees(t, u, x, s);
    }
  }

  /** Saving a found row with its frequency raised: that row changes, the others stay. */
  lemma UpdatedRow(t: Tables, l: Lemma)
    requires LemmaRowsOk(t) && l in t.lemmas
    ensures var u := UpdateLemma(t, Raised(l));
      && LemmaRowsOk(u)
      && FindLemmaByLemmaAndSite(u, l.text, l.siteId) == Some(Raised(l))
      && OtherKeysKept(t, u, l.text, l.siteId)
  {
    var l' := Raised(l);
    var i :| 0 <= i < |t.lemmas| && t.lemmas[i] == l;
    ReplaceAt(t.lemmas, i, l');
    var u := UpdateLemma(t, l');
    assert u.lemmas == t.lemmas[i := l'];
    OverwriteKeepsOtherKeys(t, u, i, l');
    OverwriteRowsOk(t, u, i, l');
    assert l' in u.lemmas;
    FindLemmaIsTheRow(u, l');
  }

  /** Overwriting a row by one with the same id and key, a frequency of at least one, keeps the lemma rows fit. */
  lemma OverwriteRowsOk(t: Tables, u: Tables, i: int, row: Lemma)
    requires LemmaRowsOk(t) && 0 <= i < |t.lemmas|
    requires row.id == t.lemmas[i].id && row.siteId == t.lemmas[i].siteId && row.frequency >= 1
    requires u == t.(lemmas := t.lemmas[i := row]) && DistinctBy(u.lemmas, LemmaKey)
    ensures LemmaRowsOk(u)
  {
    assert t.lemmas[i] in t.lemmas;
    forall m | m in u.lemmas ensures m.id < u.nextLemmaId && HasSite(u, m.siteId) && m.frequency >= 1 {
      var j :| 0 <= j < |u.lemmas| && u.lemmas[j] == m;
      if j != i {
        assert t.lemmas[j] in t.lemmas;
      }
    }
    assert DistinctBy(u.lemmas, LemmaId) by {
      assert forall j :: 0 <= j < |u.lemmas| ==> LemmaId(u.lemmas[j]) == LemmaId(t.lemmas[j]);
    }
  }

  /** A row whose key no row of `s` has keeps `s` free of duplicate keys. */
  lemma AppendKeepsDistinct<T, K>(s: seq<T>, x: T, key: T -> K)
    requires DistinctBy(s, key) && forall y :: y in s ==> key(y) != key(x)
    ensures DistinctBy(s + [x], key)
  {
    forall i, j | 0 <= i < j < |s + [x]| ensures key((s + [x])[i]) != key((s + [x])[j]) {
      if j == |s| {
        assert (s + [x])[i] == s[i] && s[i] in s;
      } else {
        assert (s + [x])[i] == s[i] && (s + [x])[j] == s[j];
      }
    }
  }

  /** Inserting a row for a missing key: the new row is found, the others stay. */
  lemma InsertedRow(t: Tables, siteId: int, text: string)
    requires LemmaRowsOk(t) && HasSite(t, siteId)
    requires FindLemmaByLemmaAndSite(t, text, siteId).None?
    ensures var u := InsertLemma(t, siteId, text, 1);
      && LemmaRowsOk(u)
      && FindLemmaByLemmaAndSite(u, text, siteId) == Some(Lemma(t.nextLemmaId, siteId, text, 1))
      && OtherKeysKept(t, u, text, siteId)
  {
    var nl := Lemma(t.nextLemmaId, siteId, text, 1);
    var u := InsertLemma(t, siteId, text, 1);
    assert u.lemmas == t.lemmas + [nl];
    AppendKeepsDistinct(t.lemmas, nl, LemmaKey);
    AppendKeepsDistinct(t.lemmas, nl, LemmaId);
    FindLemmaIsTheRow(u, nl);
    forall x, s | (x, s) != (text, siteId)
      ensures FindLemmaByLemmaAndSite(u, x, s) == FindLemmaByLemmaAndSite(t, x, s)
    {
      FindAgrees(t, u, x, s);
    }
  }

  /** What one `AddLemma` step does to the lemma rows and the postings. */
  ghost predicate AddedOne(t: Tables, r: Tables, siteId: int, pageId: int, text: string, count: int) {
    && LemmaRowsOk(r)
    && r.sites == t.sites && r.pages == t.pages
    && r.nextSiteId == t.nextSiteId && r.nextPageId == t.nextPageId
    && r.nextIndexId == t.nextIndexId + 1
    && FindLemmaByLemmaAndSite(r, text, siteId).Some?
    && FindLemmaByLemmaAndSite(r, text, siteId).value.frequency == Frequency(t, text, siteId) + 1
    && OtherKeysKept(t, r, text, siteId)
    && r.postings == t.postings + [SearchIndex(t.nextIndexId, pageId, FindLemmaByLemmaAndSite(r, text, siteId).value.id, count)]
  }

  lemma AddLemmaStep(t: Tables, siteId: int, pageId: int, text: string, count: int)
    requires LemmaRowsOk(t) && HasSite(t, siteId)
    ensures AddedOne(t, AddLemma(t, siteId, pageId, text, count), siteId, pageId, text, count)
  {
    var found := FindLemmaByLemmaAndSite(t, text, siteId);
    if found.Some? {
      var l := found.value;
      var u := UpdateLemma(t, Raised(l));
      UpdatedRow(t, l);
      var r := InsertPosting(u, pageId, l.id, count);
      assert AddLemma(t, siteId, pageId, text, count) == r;
      assert Frequency(t, text, siteId) == l.frequency;
      FindReadsLemmas(u, r);
    } else {
      var u := InsertLemma(t, siteId, text, 1);
      InsertedRow(t, siteId, text);
      var r := InsertPosting(u, pageId, t.nextLemmaId, count);
      assert AddLemma(t, siteId, pageId, text, count) == r;
      assert Frequency(t, text, siteId) == 0;
      FindReadsLemmas(u, r);
    }
  }

  /** Lemma rows that fit, and postings of existing pages with positive ranks, keep the store consistent. */
  lemma AddedOneKeepsConsistent(t: Tables, r: Tables, siteId: int, pageId: int, text: string, count: int)
    requires Consistent(t) && HasPage(t, pageId) && count >= 1
    requires AddedOne(t, r, siteId, pageId, text, count)
    ensures Consistent(r)
  {
    assert forall m :: m in r.lemmas ==> HasSite(r, m.siteId);
    assert forall x :: x in r.postings ==> x in t.postings || x.pageId == pageId;
  }

  // ---------------------------------------------------------------- all lemmas of the page

  /** Adding lemmas touches neither sites nor pages, and appends one posting per key. */
  ghost predicate Framed(t: Tables, r: Tables, keys: seq<string>) {
    && r.sites == t.sites && r.pages == t.pages
    && r.nextSiteId == t.nextSiteId && r.nextPageId == t.nextPageId
    && r.nextIndexId == t.nextIndexId + |keys|
    && |r.postings| == |t.postings| + |keys|
    && r.postings[..|t.postings|] == t.postings
  }

  /** Each key's row on the site is found with its frequency raised by one; every other key finds what it found. */
  ghost predicate RowsRaised(t: Tables, r: Tables, siteId: int, keys: seq<string>) {
    && (forall k :: k in keys ==>
          && FindLemmaByLemmaAndSite(r, k, siteId).Some?
          && FindLemmaByLemmaAndSite(r, k, siteId).value.frequency == Frequency(t, k, siteId) + 1)
    && (forall x, s :: !(s == siteId && x in keys) ==> FindLemmaByLemmaAndSite(r, x, s) == FindLemmaByLemmaAndSite(t, x, s))
  }

  /**
   * The postings after the first `n` are one per key in order: on `pageId`,
   * for the key's row on the site, with the key's count as rank.
   */
  ghost predicate PostedAfter(r: Tables, n: nat, siteId: int, pageId: int, keys: seq<string>, counts: map<string, int>)
    requires forall k :: k in keys ==> k in counts
  {
    && |r.postings| == n + |keys|
    && forall i :: 0 <= i < |keys| ==>
      && FindLemmaByLemmaAndSite(r, keys[i], siteId).Some?
      && r.postings[n + i].pageId == pageId
      && r.postings[n + i].lemmaId == FindLemmaByLemmaAndSite(r, keys[i], siteId).value.id
      && r.postings[n + i].rank == counts[keys[i]]
  }

  /** Adding the entries one by one changes only lemma rows and postings, appending one posting per key. */
  lemma {:induction false} AddLemmasFrame(t: Tables, siteId: int, pageId: int, keys: seq<string>, counts: map<string, int>)
    requires LemmaRowsOk(t) && HasSite(t, siteId)
    requires forall k :: k in keys ==> k in counts
    ensures LemmaRowsOk(AddLemmas(t, siteId, pageId, keys, counts))
    ensures Framed(t, AddLemmas(t, siteId, pageId, keys, counts), keys)
    decreases |keys|
  {
    if keys != [] {
      var init := keys[..|keys| - 1];
      var last := keys[|keys| - 1];
      AddLemmasFrame(t, siteId, pageId, init, counts);
      var m := AddLemmas(t, siteId, pageId, init, counts);
      assert HasSite(m, siteId);
      AddLemmaStep(m, siteId, pageId, last, counts[last]);
      var r := AddLemma(m, siteId, pageId, last, counts[last]);
      assert r.postings[..|t.postings|] == m.postings[..|t.postings|];
    }
  }

  /** Adding the entries one by one keeps a consistent store consistent. */
  lemma {:induction false} AddLemmasConsistent(t: Tables, siteId: int, pageId: int, keys: seq<string>, counts: map<string, int>)
    requires Consistent(t) && HasSite(t, siteId) && HasPage(t, pageId)
    requires forall k :: k in keys ==> k in counts && counts[k] >= 1
    ensures Consistent(AddLemmas(t, siteId, pageId, keys, counts))
    decreases |keys|
  {
    if keys != [] {
      var init := keys[..|keys| - 1];
      var last := keys[|keys| - 1];
      AddLemmasConsistent(t, siteId, pageId, init, counts);
      AddLemmasFrame(t, siteId, pageId, init, counts);
      var m := AddLemmas(t, siteId, pageId, init, counts);
      assert HasSite(m, siteId) && HasPage(m, pageId);
      AddLemmaStep(m, siteId, pageId, last, counts[last]);
      AddedOneKeepsConsistent(m, AddLemma(m, siteId, pageId, last, counts[last]), siteId, pageId, last, counts[last]);
    }
  }

  /** Adding distinct entries one by one raises each key's frequency by one and leaves every other key. */
  lemma {:induction false} AddLemmasRows(t: Tables, siteId: int, pageId: int, keys: seq<string>, counts: map<string, int>)
    requires LemmaRowsOk(t) && HasSite(t, siteId)
    requires Distinct(keys) && forall k :: k in keys ==> k in counts
    ensures RowsRaised(t, AddLemmas(t, siteId, pageId, keys, counts), siteId, keys)
    decreases |keys|
  {
    if keys != [] {
      var init := keys[..|keys| - 1];
      var last := keys[|keys| - 1];
      assert keys == init + [last];
      assert Distinct(init) && last !in init;
      AddLemmasRows(t, siteId, pageId, init, counts);
      AddLemmasFrame(t, siteId, pageId, init, counts);
      var m := AddLemmas(t, siteId, pageId, init, counts);
      assert HasSite(m, siteId);
      AddLemmaStep(m, siteId, pageId, last, counts[last]);
      var r := AddLemma(m, siteId, pageId, last, counts[last]);
      assert Frequency(m, last, siteId) == Frequency(t, last, siteId) by {
        assert FindLemmaByLemmaAndSite(m, last, siteId) == FindLemmaByLemmaAndSite(t, last, siteId);
      }
      forall k | k in keys
        ensures FindLemmaByLemmaAndSite(r, k, siteId).Some?
        ensures FindLemmaByLemmaAndSite(r, k, siteId).value.frequency == Frequency(t, k, siteId) + 1
      {
        if k != last {
          assert FindLemmaByLemmaAndSite(r, k, siteId) == FindLemmaByLemmaAndSite(m, k, siteId);
        }
      }
      forall x, s | !(s == siteId && x in keys)
        ensures FindLemmaByLemmaAndSite(r, x, s) == FindLemmaByLemmaAndSite(t, x, s)
      {
        assert FindLemmaByLemmaAndSite(r, x, s) == FindLemmaByLemmaAndSite(m, x, s);
      }
    }
  }

  /** Adding distinct entries one by one appends one posting per key, in order, with the key's row and count. */
  lemma {:induction false} AddLemmasPostings(t: Tables, siteId: int, pageId: int, keys: seq<string>, counts: map<string, int>)
    requires LemmaRowsOk(t) && HasSite(t, siteId)
    requires Distinct(keys) && forall k :: k in keys ==> k in counts
    ensures PostedAfter(AddLemmas(t, siteId, pageId, keys, counts), |t.postings|, siteId, pageId, keys, counts)
    decreases |keys|
  {
    if keys != [] {
      var init := keys[..|keys| - 1];
      var last := keys[|keys| - 1];
      assert keys == init + [last];
      assert Distinct(init) && last !in init;
      AddLemmasPostings(t, siteId, pageId, init, counts);
      AddLemmasFrame(t, siteId, pageId, init, counts);
      var m := AddLemmas(t, siteId, pageId, init, counts);
      assert HasSite(m, siteId);
      AddLemmaStep(m, siteId, pageId, last, counts[last]);
      PostedStep(m, AddLemma(m, siteId, pageId, last, counts[last]), |t.postings|, siteId, pageId, init, last, counts);
    }
  }

  /** One step keeps the postings of the earlier keys and posts the next one after them. */
  lemma PostedStep(m: Tables, r: Tables, n: nat, siteId: int, pageId: int, init: seq<string>, last: string, counts: map<string, int>)
    requires forall k :: k in init + [last] ==> k in counts
    requires last !in init
    requires PostedAfter(m, n, siteId, pageId, init, counts)
    requires AddedOne(m, r, siteId, pageId, last, counts[last])
    ensures PostedAfter(r, n, siteId, pageId, init + [last], counts)
  {
    var keys := init + [last];
    forall i | 0 <= i < |keys|
      ensures FindLemmaByLemmaAndSite(r, keys[i], siteId).Some?
      ensures r.postings[n + i].pageId == pageId
      ensures r.postings[n + i].lemmaId == FindLemmaByLemmaAndSite(r, keys[i], siteId).value.id
      ensures r.postings[n + i].rank == counts[keys[i]]
    {
      if i < |init| {
        assert keys[i] == init[i] && init[i] in init;
        assert FindLemmaByLemmaAndSite(r, keys[i], siteId) == FindLemmaByLemmaAndSite(m, keys[i], siteId);
        assert r.postings[n + i] == m.postings[n + i];
      } else {
        assert keys[i] == last && n + i == |m.postings|;
      }
    }
  }

  // ---------------------------------------------------------------- removal of an old page

  /** Removing the old page at the path keeps the store consistent; without one, nothing changes. */
  lemma ClearedConsistent(t: Tables, siteId: int, path: string)
    requires Consistent(t)
    ensures Consistent(Cleared(t, siteId, path))
    ensures Cleared(t, siteId, path).sites == t.sites
    ensures Cleared(t, siteId, path).nextPageId == t.nextPageId
    ensures FindPageByPathAndSite(t, path, siteId).None? ==> Cleared(t, siteId, path) == t
  {
    var found := FindPageByPathAndSite(t, path, siteId);
    if found.Some? {
      var gone := found.value.id;
      var c := Cleared(t, siteId, path);
      FilterKeepsDistinct(t.lemmas, (l: Lemma) => l.siteId != siteId, LemmaId);
      FilterKeepsDistinct(t.lemmas, (l: Lemma) => l.siteId != siteId, LemmaKey);
      FilterKeepsDistinct(t.pages, (p: Page) => p.id != gone, PageId);
      forall x | x in c.postings ensures HasPage(c, x.pageId) {
        var i :| 0 <= i < |t.pages| && t.pages[i].id == x.pageId;
        assert t.pages[i] in c.pages;
      }
      assert forall p :: p in c.pages ==> HasSite(c, p.siteId);
      assert forall l :: l in c.lemmas ==> HasSite(c, l.siteId);
    }
  }

  /** Removing the old page deletes that page, its postings and the site's lemma rows, and nothing else. */
  lemma ClearedRows(t: Tables, siteId: int, path: string)
    requires FindPageByPathAndSite(t, path, siteId).Some?
    ensures var c := Cleared(t, siteId, path);
      var gone := FindPageByPathAndSite(t, path, siteId).value.id;
      && (forall p :: p in c.pages <==> p in t.pages && p.id != gone)
      && (forall x :: x in c.postings <==> x in t.postings && x.pageId != gone)
      && (forall l :: l in c.lemmas <==> l in t.lemmas && l.siteId != siteId)
  {
  }

  /** After the removal no lemma row of the site is left, and rows of other sites are found as before. */
  lemma ClearedLemmas(t: Tables, siteId: int, path: string)
    requires Consistent(t) && FindPageByPathAndSite(t, path, siteId).Some?
    ensures forall x :: FindLemmaByLemmaAndSite(Cleared(t, siteId, path), x, siteId).None?
    ensures forall x, s :: s != siteId ==>
      FindLemmaByLemmaAndSite(Cleared(t, siteId, path), x, s) == FindLemmaByLemmaAndSite(t, x, s)
  {
    ClearedConsistent(t, siteId, path);
    ClearedRows(t, siteId, path);
    var c := Cleared(t, siteId, path);
    forall x, s | s != siteId
      ensures FindLemmaByLemmaAndSite(c, x, s) == FindLemmaByLemmaAndSite(t, x, s)
    {
      FindAgrees(t, c, x, s);
    }
  }

  // ---------------------------------------------------------------- the whole update

  /** The store after the removal and the new page row, before any lemma. */
  function WithPage(t: Tables, siteId: int, path: string, code: int, content: string): Tables {
    InsertPage(Cleared(t, siteId, path), siteId, path, code, content)
  }

  /** The removal and the new page keep the store consistent; the lemmas are then added to the new page. */
  lemma WithPageConsistent(t: Tables, siteId: int, path: string, code: int, content: string,
                           counts: map<string, int>, keys: seq<string>)
    requires Consistent(t) && HasSite(t, siteId)
    requires forall k :: k in keys ==> k in counts
    ensures Consistent(WithPage(t, siteId, path, code, content))
    ensures HasSite(WithPage(t, siteId, path, code, content), siteId)
    ensures HasPage(WithPage(t, siteId, path, code, content), t.nextPageId)
    ensures Indexed(t, siteId, path, code, content, counts, keys) ==
      AddLemmas(WithPage(t, siteId, path, code, content), siteId, t.nextPageId, keys, counts)
  {
    ClearedConsistent(t, siteId, path);
    InsertPageKeepsConsistent(Cleared(t, siteId, path), siteId, path, code, content);
  }

  /** The lemma-table part of `Consistent`. */
  lemma ConsistentRowsOk(t: Tables)
    requires Consistent(t)
    ensures LemmaRowsOk(t)
  {
  }

  /** The store before any lemma, table by table: the removal's tables plus the new page. */
  lemma WithPageShape(t: Tables, siteId: int, path: string, code: int, content: string,
                      counts: map<string, int>, keys: seq<string>)
    requires Consistent(t) && HasSite(t, siteId)
    requires forall k :: k in keys ==> k in counts
    ensures var c := Cleared(t, siteId, path);
      var w := WithPage(t, siteId, path, code, content);
      && LemmaRowsOk(w) && HasSite(w, siteId)
      && c.sites == t.sites && c.nextPageId == t.nextPageId
      && w.sites == t.sites && w.lemmas == c.lemmas && w.postings == c.postings
      && w.pages == c.pages + [Page(t.nextPageId, siteId, path, code, content)]
      && Indexed(t, siteId, path, code, content, counts, keys) == AddLemmas(w, siteId, t.nextPageId, keys, counts)
  {
    WithPageConsistent(t, siteId, path, code, content, counts, keys);
    ConsistentRowsOk(WithPage(t, siteId, path, code, content));
    ClearedConsistent(t, siteId, path);
  }

  /** No posting of a consistent store is on a page id not yet handed out. */
  lemma PostingsOnIssuedPages(t: Tables)
    requires Consistent(t)
    ensures forall x :: x in t.postings ==> x.pageId < t.nextPageId
  {
    forall x | x in t.postings ensures x.pageId < t.nextPageId {
      var i :| 0 <= i < |t.pages| && t.pages[i].id == x.pageId;
      assert t.pages[i] in t.pages;
    }
  }

  /** The removal keeps a subset of the postings. */
  lemma ClearedPostings(t: Tables, siteId: int, path: string)
    ensures var found := FindPageByPathAndSite(t, path, siteId);
      forall x :: x in Cleared(t, siteId, path).postings <==> x in t.postings && (found.None? || x.pageId != found.value.id)
  {
    if FindPageByPathAndSite(t, path, siteId).Some? {
      ClearedRows(t, siteId, path);
    }
  }

  /** The removal keeps the pages other than the one at the path. */
  lemma ClearedPages(t: Tables, siteId: int, path: string)
    ensures var found := FindPageByPathAndSite(t, path, siteId);
      forall p :: p in Cleared(t, siteId, path).pages <==> p in t.pages && (found.None? || p.id != found.value.id)
  {
    if FindPageByPathAndSite(t, path, siteId).Some? {
      ClearedRows(t, siteId, path);
    }
  }

  /** `indexPage` keeps the store consistent. */
  lemma IndexedConsistent(t: Tables, siteId: int, path: string, code: int, content: string,
                          counts: map<string, int>, keys: seq<string>)
    requires Consistent(t) && HasSite(t, siteId)
    requires forall k :: k in keys ==> k in counts && counts[k] >= 1
    ensures Consistent(Indexed(t, siteId, path, code, content, counts, keys))
  {
    WithPageConsistent(t, siteId, path, code, content, counts, keys);
    AddLemmasConsistent(WithPage(t, siteId, path, code, content), siteId, t.nextPageId, keys, counts);
  }

  /** The sites stay, and the new page takes the place of any page at the path. */
  lemma IndexedPages(t: Tables, siteId: int, path: string, code: int, content: string,
                     counts: map<string, int>, keys: seq<string>)
    requires Consistent(t) && HasSite(t, siteId)
    requires forall k :: k in keys ==> k in counts
    ensures Indexed(t, siteId, path, code, content, counts, keys).sites == t.sites
    ensures var found := FindPageByPathAndSite(t, path, siteId);
      forall p :: p in Indexed(t, siteId, path, code, content, counts, keys).pages <==>
        p == Page(t.nextPageId, siteId, path, code, content) || (p in t.pages && (found.None? || p.id != found.value.id))
  {
    WithPageShape(t, siteId, path, code, content, counts, keys);
    AddLemmasFrame(WithPage(t, siteId, path, code, content), siteId, t.nextPageId, keys, counts);
    ClearedPages(t, siteId, path);
  }

  /**
   * Each lemma of the page has its frequency raised by one over what the
   * removal left (0 once the site's rows were wiped); every other row is
   * found as before, except that a removal wipes all rows of the site.
   */
  lemma IndexedLemmas(t: Tables, siteId: int, path: string, code: int, content: string,
                      counts: map<string, int>, keys: seq<string>)
    requires Consistent(t) && HasSite(t, siteId)
    requires Distinct(keys) && forall k :: k in keys ==> k in counts
    ensures var r := Indexed(t, siteId, path, code, content, counts, keys);
      var found := FindPageByPathAndSite(t, path, siteId);
      forall k :: k in keys ==>
        && FindLemmaByLemmaAndSite(r, k, siteId).Some?
        && FindLemmaByLemmaAndSite(r, k, siteId).value.frequency == (if found.Some? then 0 else Frequency(t, k, siteId)) + 1
    ensures var r := Indexed(t, siteId, path, code, content, counts, keys);
      var found := FindPageByPathAndSite(t, path, siteId);
      forall x, s :: !(s == siteId && x in keys) ==>
        FindLemmaByLemmaAndSite(r, x, s) == (if s == siteId && found.Some? then None else FindLemmaByLemmaAndSite(t, x, s))
  {
    WithPageShape(t, siteId, path, code, content, counts, keys);
    var w := WithPage(t, siteId, path, code, content);
    AddLemmasRows(w, siteId, t.nextPageId, keys, counts);
    WithPageFinds(t, siteId, path, code, content);
  }

  /** Before any lemma is added, a removal has wiped the site's rows; otherwise every key finds what it found. */
  lemma WithPageFinds(t: Tables, siteId: int, path: string, code: int, content: string)
    requires Consistent(t)
    ensures var w := WithPage(t, siteId, path, code, content);
      var found := FindPageByPathAndSite(t, path, siteId);
      forall x, s :: FindLemmaByLemmaAndSite(w, x, s) == (if s == siteId && found.Some? then None else FindLemmaByLemmaAndSite(t, x, s))
    ensures var w := WithPage(t, siteId, path, code, content);
      var found := FindPageByPathAndSite(t, path, siteId);
      forall k :: Frequency(w, k, siteId) == (if found.Some? then 0 else Frequency(t, k, siteId))
  {
    var c := Cleared(t, siteId, path);
    FindReadsLemmas(c, WithPage(t, siteId, path, code, content));
    if FindPageByPathAndSite(t, path, siteId).Some? {
      ClearedLemmas(t, siteId, path);
    }
  }

  /** The postings left are those of the store minus the removed page's, and none is on the new page. */
  lemma IndexedPostingsKept(t: Tables, siteId: int, path: string, code: int, content: string,
                            counts: map<string, int>, keys: seq<string>)
    requires Consistent(t) && HasSite(t, siteId)
    requires forall k :: k in keys ==> k in counts
    ensures |Indexed(t, siteId, path, code, content, counts, keys).postings| >= |keys|
    ensures var r := Indexed(t, siteId, path, code, content, counts, keys);
      var found := FindPageByPathAndSite(t, path, siteId);
      forall x :: x in r.postings[..|r.postings| - |keys|] <==> x in t.postings && (found.None? || x.pageId != found.value.id)
    ensures var r := Indexed(t, siteId, path, code, content, counts, keys);
      forall x :: x in r.postings[..|r.postings| - |keys|] ==> x.pageId != t.nextPageId
  {
    WithPageShape(t, siteId, path, code, content, counts, keys);
    var w := WithPage(t, siteId, path, code, content);
    AddLemmasFrame(w, siteId, t.nextPageId, keys, counts);
    ClearedPostings(t, siteId, path);
    PostingsOnIssuedPages(t);
  }

  /** The new page gets exactly the last postings, one per lemma in the order added, with the lemma's row and count. */
  lemma IndexedPostingsNew(t: Tables, siteId: int, path: string, code: int, content: string,
                           counts: map<string, int>, keys: seq<string>)
    requires Consistent(t) && HasSite(t, siteId)
    requires Distinct(keys) && forall k :: k in keys ==> k in counts
    ensures var r := Indexed(t, siteId, path, code, content, counts, keys);
      |r.postings| >= |keys| && PostedAfter(r, |r.postings| - |keys|, siteId, t.nextPageId, keys, counts)
  {
    WithPageShape(t, siteId, path, code, content, counts, keys);
    var w := WithPage(t, siteId, path, code, content);
    AddLemmasFrame(w, siteId, t.nextPageId, keys, counts);
    AddLemmasPostings(w, siteId, t.nextPageId, keys, counts);
  }

  // ---------------------------------------------------------------- the service

  /** The lemma map of a fetched body: the visible text of the parsed document, counted by `collectLemmas`. */
  function PageLemmas(morph: Morphology, parse: string -> Document, body: string): map<string, int> {
    Tally(AcceptedForms(morph, SplitToRussianWords(parse(body).text)))
  }

  /** One iteration of the lemma loop, as repository calls on the store. */
  method AddLemmaTo(db: Database, siteId: int, pageId: int, text: string, count: int)
    modifies db
    ensures db.Tables() == AddLemma(old(db.Tables()), siteId, pageId, text, count)
  {
    var found := FindLemmaByLemmaAndSite(db.Tables(), text, siteId);
    if found.Some? {
      db.SaveLemma(Raised(found.value));
      db.SaveNewPosting(pageId, found.value.id, count);
    } else {
      var l := db.SaveNewLemma(siteId, text, 0 + 1);
      db.SaveNewPosting(pageId, l.id, count);
    }
  }

  /** The removal of an existing page at the path: its postings, the site's lemma rows, then the page. */
  method ClearOldPage(db: Database, siteId: int, path: string)
    modifies db
    ensures db.Tables() == Cleared(old(db.Tables()), siteId, path)
  {
    var oldPage := FindPageByPathAndSite(db.Tables(), path, siteId);
    if oldPage.Some? {
      db.DeletePostingsByPage(oldPage.value.id);
      db.DeleteLemmasBySite(siteId);
      db.DeletePage(oldPage.value.id);
    }
  }

  /** The lemma loop: every entry of the map once, in the ghost order `keys`. */
  method AddPageLemmas(db: Database, siteId: int, pageId: int, lemmas: map<string, int>) returns (ghost keys: seq<string>)
    modifies db
    ensures Distinct(keys) && (forall k :: k in keys <==> k in lemmas)
    ensures db.Tables() == AddLemmas(old(db.Tables()), siteId, pageId, keys, lemmas)
  {
    keys := [];
    var rest := lemmas.Keys;
    while rest != {}
      invariant rest <= lemmas.Keys
      invariant Distinct(keys)
      invariant forall k :: k in keys <==> k in lemmas && k !in rest
      invariant db.Tables() == AddLemmas(old(db.Tables()), siteId, pageId, keys, lemmas)
      decreases rest
    {
      var k :| k in rest;
      AddLemmaTo(db, siteId, pageId, k, lemmas[k]);
      assert (keys + [k])[..|keys|] == keys;
      keys := keys + [k];
      rest := rest - {k};
    }
  }

  /**
   * `indexPage(url)` with the site's root url, the morphology analyser
   * (`None` when loading it failed) and the HTTP answer (`None` when the
   * request failed) handed in.  `keys` is the order in which the lemma map
   * was walked.
   */
  method IndexPage(db: Database, analyser: Option<Morphology>, parse: string -> Document,
                   url: string, rootUrl: string, fetched: Option<Response>)
    returns (indexed: bool, ghost keys: seq<string>)
    modifies db
    ensures FindSiteByUrl(old(db.Tables()), rootUrl).None? || analyser.None? || fetched.None? ==>
      !indexed && db.Tables() == old(db.Tables())
    ensures FindSiteByUrl(old(db.Tables()), rootUrl).Some? && analyser.Some? && fetched.Some? ==>
      var counts := PageLemmas(analyser.value, parse, fetched.value.body);
      && indexed
      && Distinct(keys) && (forall k :: k in keys <==> k in counts)
      && db.Tables() == Indexed(old(db.Tables()), FindSiteByUrl(old(db.Tables()), rootUrl).value.id,
                                PagePath(url, rootUrl), fetched.value.statusCode, StoredContent(fetched.value), counts, keys)
    ensures Consistent(old(db.Tables())) ==> Consistent(db.Tables())
  {
    keys := [];
    var site := FindSiteByUrl(db.Tables(), rootUrl);
    if site.None? || analyser.None? || fetched.None? {
      return false, keys;
    }
    var siteId := site.value.id;
    var response := fetched.value;
    var path := PagePath(url, rootUrl);
    ClearOldPage(db, siteId, path);
    var page := db.SaveNewPage(siteId, path, response.statusCode, StoredContent(response));
    var lemmas := CollectLemmas(analyser.value, parse(response.body).text);
    keys := AddPageLemmas(db, siteId, page.id, lemmas);
    indexed := true;
    if Consistent(old(db.Tables())) {
      IndexPageKeepsConsistent(old(db.Tables()), site.value, analyser.value, parse, url, rootUrl, response, keys);
    }
  }

  /** A successful `indexPage` on a consistent store, in whatever order the map is walked, leaves it consistent. */
  lemma IndexPageKeepsConsistent(t: Tables, site: Site, morph: Morphology, parse: string -> Document,
                                 url: string, rootUrl: string, response: Response, keys: seq<string>)
    requires Consistent(t) && FindSiteByUrl(t, rootUrl) == Some(site)
    requires forall k :: k in keys ==> k in PageLemmas(morph, parse, response.body)
    ensures Consistent(Indexed(t, site.id, PagePath(url, rootUrl), response.statusCode, StoredContent(response),
                               PageLemmas(morph, parse, response.body), keys))
  {
    CollectedCounts(morph, SplitToRussianWords(parse(response.body).text));
    var i :| 0 <= i < |t.sites| && t.sites[i] == site;
    IndexedConsistent(t, site.id, PagePath(url, rootUrl), response.statusCode, StoredContent(response),
                      PageLemmas(morph, parse, response.body), keys);
  }
}
