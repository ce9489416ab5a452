/**
 * `SearchServiceImpl`: answering a query from the index.  The query is
 * reduced to lemmas; lemmas too frequent for the threshold are dropped and
 * the rest ordered by ascending total frequency; the candidate pages are
 * those listed for every remaining lemma; each candidate gets the sum of
 * its ranks as absolute relevance and that sum over the maximum as
 * relative relevance; hits are sorted by descending relevance and cut to
 * `offset`/`limit`.
 */
module SearchService {
  import opened Wrappers
  import opened Text
  import opened Entities
  import opened Repositories
  import opened LemmaFinder
  import opened SearchResponse
  import opened Web
  import opened JavaInt

  function Min(a: int, b: int): int { if a <= b then a else b }
  function Max(a: int, b: int): int { if a >= b then a else b }

  // ---------------------------------------------------------------- query lemmas

  /**
   * The lemmas of the query: none for a missing or blank query, otherwise
   * what `collectLemmas` counts.  `analyser` is `None` when loading the
   * morphology dictionaries failed.
   */
  function QueryLemmas(analyser: Option<Morphology>, query: Option<string>): map<string, int> {
    if query.None? || IsBlank(query.value) || analyser.None? then map[]
    else Tally(AcceptedForms(analyser.value, SplitToRussianWords(query.value)))
  }

  // ---------------------------------------------------------------- filterLemmas

  /**
   * `Math.max(1, Math.round(totalPages * maxLemmaShare))`: the share of the
   * page count rounded half up, and never below 1.
   */
  function Threshold(totalPages: int, share: real): (r: int)
    ensures r >= 1
    ensures r == 1 || (r as real - 0.5 <= totalPages as real * share < r as real + 0.5)
    ensures totalPages as real * share >= 0.5 ==> r as real - 0.5 <= totalPages as real * share < r as real + 0.5
  {
    var rounded := (totalPages as real * share + 0.5).Floor;
    if rounded < 1 then 1 else rounded
  }

  /** The page count the threshold is taken from: the site's pages when a site is given, else all pages. */
  function TotalPages(t: Tables, siteUrl: Option<string>): nat {
    match siteUrl
    case Some(url) => CountPagesBySiteUrl(t, url)
    case None => |t.pages|
  }

  function TotalFrequency(t: Tables, text: string): int {
    match FindTotalFrequencyByLemma(t, text)
    case Some(f) => f
    case None => 0
  }

  /** A query lemma is kept when its total frequency exists, is positive and does not exceed the threshold. */
  predicate Survives(t: Tables, text: string, threshold: int) {
    var f := FindTotalFrequencyByLemma(t, text);
    f.Some? && f.value > 0 && f.value <= threshold
  }

  lemma DistinctCons<T>(x: T, rest: seq<T>)
    requires Distinct(rest) && x !in rest
    ensures Distinct([x] + rest)
  {
    var r := [x] + rest;
    forall i, j | 0 <= i < j < |r| ensures r[i] != r[j] {
      assert r[j] == rest[j - 1];
      if i > 0 {
        assert r[i] == rest[i - 1];
      }
    }
  }

  lemma DistinctTail<T>(s: seq<T>)
    requires s != [] && Distinct(s)
    ensures Distinct(s[1..]) && s[0] !in s[1..]
  {
    forall i, j | 0 <= i < j < |s[1..]| ensures s[1..][i] != s[1..][j] {
      assert s[1..][i] == s[i + 1] && s[1..][j] == s[j + 1];
    }
    forall j | 0 <= j < |s[1..]| ensures s[1..][j] != s[0] {
      assert s[1..][j] == s[j + 1];
    }
  }

  predicate SortedBy(s: seq<string>, key: string -> int) {
    forall i, j :: 0 <= i < j < |s| ==> key(s[i]) <= key(s[j])
  }

  predicate SortedByFrequency(t: Tables, s: seq<string>) {
    forall i, j :: 0 <= i < j < |s| ==> TotalFrequency(t, s[i]) <= TotalFrequency(t, s[j])
  }

  /** Insertion after every element of no greater key, which keeps equal keys in arrival order. */
  function InsertBy(sorted: seq<string>, k: string, key: string -> int): (r: seq<string>)
    requires SortedBy(sorted, key)
    ensures SortedBy(r, key)
    ensures |r| == |sorted| + 1
    ensures forall x :: x in r <==> x in sorted || x == k
    ensures Distinct(sorted) && k !in sorted ==> Distinct(r)
  {
    if sorted == [] then [k]
    else if key(k) < key(sorted[0]) then [k] + sorted
    else
      var rest := InsertBy(sorted[1..], k, key);
      assert forall x :: x in rest ==> key(sorted[0]) <= key(x);
      assert Distinct(sorted) && k !in sorted ==> Distinct([sorted[0]] + rest) by {
        if Distinct(sorted) && k !in sorted {
          DistinctTail(sorted);
          DistinctCons(sorted[0], rest);
        }
      }
      [sorted[0]] + rest
  }

  /** A stable sort by ascending key. */
  function SortBy(s: seq<string>, key: string -> int): (r: seq<string>)
    ensures SortedBy(r, key)
    ensures |r| == |s|
    ensures forall x :: x in r <==> x in s
    ensures Distinct(s) ==> Distinct(r)
  {
    if s == [] then []
    else
      var front := SortBy(s[..|s| - 1], key);
      assert forall x :: x in s <==> x in s[..|s| - 1] || x == s[|s| - 1];
      InsertBy(front, s[|s| - 1], key)
  }

  /**
   * `filterLemmas`: the query lemmas that survive the threshold, each once,
   * in non-decreasing order of total frequency.
   */
  method FilterLemmas(t: Tables, lemmasFromQuery: map<string, int>, siteUrl: Option<string>, share: real)
    returns (filtered: seq<string>)
    ensures forall k :: k in filtered <==>
      k in lemmasFromQuery && Survives(t, k, Threshold(TotalPages(t, siteUrl), share))
    ensures Distinct(filtered)
    ensures SortedByFrequency(t, filtered)
  {
    var threshold := Threshold(TotalPages(t, siteUrl), share);
    var survivors: seq<string> := [];
    var remaining := lemmasFromQuery.Keys;
    while remaining != {}
      invariant remaining <= lemmasFromQuery.Keys
      invariant forall k :: k in survivors <==> k in lemmasFromQuery && k !in remaining && Survives(t, k, threshold)
      invariant Distinct(survivors)
      decreases remaining
    {
      var k :| k in remaining;
      var freq := FindTotalFrequencyByLemma(t, k);
      if freq.Some? && freq.value > 0 && freq.value <= threshold {
        survivors := survivors + [k];
      }
      remaining := remaining - {k};
    }
    // the stream `sorted(Map.Entry.comparingByValue())`: the value of each entry is its total frequency
    filtered := SortBy(survivors, k => TotalFrequency(t, k));
  }

  /** The first element of a non-empty sequence is one of its elements. */
  lemma HeadIsMember<T>(s: seq<T>)
    ensures |s| > 0 ==> s[0] in s
  {
  }

  /** A non-empty set has an element to pick: a witness for `:|` over it. */
  lemma Element<T>(s: set<T>) returns (x: T)
    requires s != {}
    ensures x in s
  {
    x :| x in s;
  }

  // ---------------------------------------------------------------- candidate pages

  function PageSet(t: Tables, text: string): set<int> {
    set p | p in FindPageIdByLemma(t, text)
  }

  /**
   * The candidate pages: `null` before the first lemma, then the pages of
   * the first lemma narrowed by `retainAll` with the pages of each next one.
   */
  function Candidates(t: Tables, lemmas: seq<string>): (r: Option<set<int>>)
    ensures r.None? <==> lemmas == []
    ensures r.Some? ==> forall p :: p in r.value <==> forall k :: k in lemmas ==> p in PageSet(t, k)
  {
    if lemmas == [] then None
    else
      var last := lemmas[|lemmas| - 1];
      var front := Candidates(t, lemmas[..|lemmas| - 1]);
      assert forall k :: k in lemmas <==> k in lemmas[..|lemmas| - 1] || k == last;
      if front.None? then Some(PageSet(t, last))
      else Some(front.value * PageSet(t, last))
  }

  /** The loop over the filtered lemmas that narrows the candidate set. */
  method IntersectPageIds(t: Tables, filtered: seq<string>) returns (pageIds: Option<set<int>>)
    ensures pageIds == Candidates(t, filtered)
  {
    pageIds := None;
    for i := 0 to |filtered|
      invariant pageIds == Candidates(t, filtered[..i])
    {
      assert filtered[..i + 1][..i] == filtered[..i];
      var pages := FindPageIdByLemma(t, filtered[i]);
      if pageIds.None? {
        pageIds := Some(set p | p in pages);
      } else {
        pageIds := Some(pageIds.value * set p | p in pages);
      }
    }
    assert filtered[..|filtered|] == filtered;
  }

  // ---------------------------------------------------------------- relevance

  function RankOrZero(t: Tables, pageId: int, text: string): int {
    match FindRankByPageIdAndLemma(t, pageId, text)
    case Some(r) => r
    case None => 0
  }

  /** The absolute relevance of a page: its ranks summed over the lemmas, a missing rank counting 0. */
  function AbsRelevance(t: Tables, pageId: int, lemmas: seq<string>): int {
    if lemmas == [] then 0
    else AbsRelevance(t, pageId, lemmas[..|lemmas| - 1]) + RankOrZero(t, pageId, lemmas[|lemmas| - 1])
  }

  /** A listed page has a rank for the text, and ranks are positive, so it scores at least one for it. */
  lemma ListedRankPositive(t: Tables, pageId: int, text: string)
    requires forall x :: x in t.postings ==> x.rank >= 1
    requires pageId in PageSet(t, text)
    ensures RankOrZero(t, pageId, text) >= 1
  {
    RankIffListed(t, pageId, text);
  }

  /** In a consistent store every rank is positive, so a page listed for every lemma scores at least one per lemma. */
  lemma {:induction false} CandidateRelevanceAtLeastLemmas(t: Tables, pageId: int, lemmas: seq<string>)
    requires forall x :: x in t.postings ==> x.rank >= 1
    requires forall k :: k in lemmas ==> pageId in PageSet(t, k)
    ensures AbsRelevance(t, pageId, lemmas) >= |lemmas|
    decreases |lemmas|
  {
    if lemmas != [] {
      var n := |lemmas| - 1;
      assert forall k :: k in lemmas[..n] ==> k in lemmas;
      CandidateRelevanceAtLeastLemmas(t, pageId, lemmas[..n]);
      assert lemmas[n] in lemmas;
      ListedRankPositive(t, pageId, lemmas[n]);
    }
  }

  /** In a consistent store no page has negative relevance. */
  lemma {:induction false} AbsRelevanceNonNegative(t: Tables, pageId: int, lemmas: seq<string>)
    requires Consistent(t)
    ensures AbsRelevance(t, pageId, lemmas) >= 0
    decreases |lemmas|
  {
    if lemmas != [] {
      AbsRelevanceNonNegative(t, pageId, lemmas[..|lemmas| - 1]);
    }
  }

  /** The inner loop of `calculateAbsRelevance`: one page's ranks summed over the lemmas. */
  method SumRanks(t: Tables, pageId: int, filtered: seq<string>) returns (sum: int)
    ensures sum == AbsRelevance(t, pageId, filtered)
  {
    sum := 0;
    for i := 0 to |filtered|
      invariant sum == AbsRelevance(t, pageId, filtered[..i])
    {
      assert filtered[..i + 1][..i] == filtered[..i];
      var rank := FindRankByPageIdAndLemma(t, pageId, filtered[i]);
      if rank.Some? {
        sum := sum + rank.value;
      }
    }
    assert filtered[..|filtered|] == filtered;
  }

  /** `calculateAbsRelevance`: the absolute relevance of every candidate page. */
  method CalculateAbsRelevance(t: Tables, pageIds: set<int>, filtered: seq<string>) returns (abs: map<int, int>)
    ensures abs.Keys == pageIds
    ensures forall id :: id in abs ==> abs[id] == AbsRelevance(t, id, filtered)
  {
    abs := map[];
    var remaining := pageIds;
    while remaining != {}
      invariant remaining <= pageIds
      invariant abs.Keys == pageIds - remaining
      invariant forall id :: id in abs ==> abs[id] == AbsRelevance(t, id, filtered)
      decreases remaining
    {
      ghost var some := Element(remaining);
      var id: int :| id in remaining;
      var sum := SumRanks(t, id, filtered);
      abs := abs[id := sum];
      remaining := remaining - {id};
    }
  }

  /** `maxRel` is the greatest absolute relevance among the candidates, and is attained. */
  ghost predicate IsMaxRelevance(t: Tables, lemmas: seq<string>, pageIds: set<int>, maxRel: int) {
    && (exists id :: id in pageIds && AbsRelevance(t, id, lemmas) == maxRel)
    && (forall id :: id in pageIds ==> AbsRelevance(t, id, lemmas) <= maxRel)
  }

  /** `Collections.max(absRelevance.values())`. */
  method MaxRelevance(abs: map<int, int>) returns (m: int)
    requires abs != map[]
    ensures exists id :: id in abs && abs[id] == m
    ensures forall id :: id in abs ==> abs[id] <= m
  {
    ghost var some := Element(abs.Keys);
    var first: int :| first in abs;
    m := abs[first];
    var remaining := abs.Keys - {first};
    while remaining != {}
      invariant remaining <= abs.Keys
      invariant first in abs && first !in remaining
      invariant exists id :: id in abs && abs[id] == m
      invariant forall id :: id in abs && id !in remaining ==> abs[id] <= m
      decreases remaining
    {
      ghost var some := Element(remaining);
      var id: int :| id in remaining;
      if abs[id] > m {
        m := abs[id];
      }
      remaining := remaining - {id};
    }
  }

  /** The relative relevance: the absolute relevance over the maximum. */
  function Relevance(t: Tables, lemmas: seq<string>, pageId: int, maxRel: int): real
    requires maxRel != 0
  {
    AbsRelevance(t, pageId, lemmas) as real / maxRel as real
  }

  lemma RatioInUnitInterval(a: int, b: int)
    requires 1 <= a <= b
    ensures 0.0 < a as real / b as real <= 1.0
  {
    var q := a as real / b as real;
    assert q * b as real == a as real;
  }

  lemma RatioOfItself(a: int)
    requires a != 0
    ensures a as real / a as real == 1.0
  {
  }

  /** One candidate's relative relevance lies in (0, 1]. */
  lemma CandidateRelevanceInUnitInterval(t: Tables, lemmas: seq<string>, pageId: int, maxRel: int)
    requires Consistent(t) && lemmas != []
    requires forall k :: k in lemmas ==> pageId in PageSet(t, k)
    requires AbsRelevance(t, pageId, lemmas) <= maxRel
    ensures maxRel >= 1
    ensures 0.0 < Relevance(t, lemmas, pageId, maxRel) <= 1.0
  {
    CandidateRelevanceAtLeastLemmas(t, pageId, lemmas);
    RatioInUnitInterval(AbsRelevance(t, pageId, lemmas), maxRel);
  }

  /**
   * Over a non-empty candidate set of a non-empty lemma list, every relative
   * relevance lies in (0, 1] and the best page has exactly 1.
   */
  lemma RelevanceNormalised(t: Tables, lemmas: seq<string>, maxRel: int)
    requires Consistent(t) && lemmas != []
    requires Candidates(t, lemmas).Some? && Candidates(t, lemmas).value != {}
    requires IsMaxRelevance(t, lemmas, Candidates(t, lemmas).value, maxRel)
    ensures maxRel >= 1
    ensures forall id :: id in Candidates(t, lemmas).value ==> 0.0 < Relevance(t, lemmas, id, maxRel) <= 1.0
    ensures exists id :: id in Candidates(t, lemmas).value && Relevance(t, lemmas, id, maxRel) == 1.0
  {
    var cands := Candidates(t, lemmas).value;
    var best :| best in cands && AbsRelevance(t, best, lemmas) == maxRel;
    CandidateRelevanceInUnitInterval(t, lemmas, best, maxRel);
    forall id | id in cands ensures 0.0 < Relevance(t, lemmas, id, maxRel) <= 1.0 {
      CandidateRelevanceInUnitInterval(t, lemmas, id, maxRel);
    }
    RatioOfItself(maxRel);
    assert Relevance(t, lemmas, best, maxRel) == 1.0;
  }

  // ---------------------------------------------------------------- buildSnippet

  /** Where `word` first occurs in `text`, both lowered: `text.toLowerCase().indexOf(word.toLowerCase())`. */
  function Position(text: string, word: string): (r: int)
    ensures r == -1 || 0 <= r <= |text|
  {
    IndexOf(Lower(text), Lower(word))
  }

  /** The position of every word. */
  function Positions(text: string, words: seq<string>): (ps: seq<int>)
    ensures |ps| == |words|
    ensures forall i :: 0 <= i < |words| ==> ps[i] == Position(text, words[i])
  {
    seq(|words|, i requires 0 <= i < |words| => Position(text, words[i]))
  }

  /**
   * The least non-negative entry of `ps` and the first index holding it,
   * scanning left to right with a strict comparison; (-1, -1) when every
   * entry is -1.
   */
  function LeastPosition(ps: seq<int>): (r: (int, int))
    requires forall i :: 0 <= i < |ps| ==> ps[i] >= -1
    ensures r.0 == -1 <==> r.1 == -1
    ensures r.0 == -1 <==> forall j :: 0 <= j < |ps| ==> ps[j] == -1
    ensures r.1 != -1 ==> 0 <= r.1 < |ps| && ps[r.1] == r.0
    ensures forall j :: 0 <= j < |ps| && ps[j] != -1 ==> r.0 <= ps[j]
    ensures r.1 != -1 ==> forall j :: 0 <= j < r.1 ==> ps[j] != r.0
  {
    if ps == [] then (-1, -1)
    else
      var n := |ps| - 1;
      var acc := LeastPosition(ps[..n]);
      if ps[n] != -1 && (acc.0 == -1 || ps[n] < acc.0) then (ps[n], n) else acc
  }

  /**
   * The snippet anchor: the least position of any word, and the index of
   * the first word in the list found there; (-1, -1) when no word occurs.
   */
  function Anchor(text: string, words: seq<string>): (r: (int, int))
    ensures r.0 == -1 <==> forall j :: 0 <= j < |words| ==> Position(text, words[j]) == -1
    ensures r.1 != -1 ==> 0 <= r.1 < |words| && Position(text, words[r.1]) == r.0 && 0 <= r.0 <= |text|
    ensures forall j :: 0 <= j < |words| && Position(text, words[j]) != -1 ==> r.0 <= Position(text, words[j])
    ensures r.1 != -1 ==> forall j :: 0 <= j < r.1 ==> Position(text, words[j]) != r.0
    ensures r.0 == -1 <==> r.1 == -1
  {
    LeastPosition(Positions(text, words))
  }

  /** The scan over the words that finds the anchor and the word found there. */
  method FindAnchor(text: string, words: seq<string>) returns (firstIndex: int, firstWord: Option<string>)
    ensures firstIndex == Anchor(text, words).0
    ensures firstWord == (if firstIndex == -1 then None else Some(words[Anchor(text, words).1]))
  {
    ghost var ps := Positions(text, words);
    firstIndex := -1;
    firstWord := None;
    for i := 0 to |words|
      invariant firstIndex == LeastPosition(ps[..i]).0
      invariant firstWord == (if firstIndex == -1 then None else Some(words[LeastPosition(ps[..i]).1]))
    {
      assert ps[..i + 1][..i] == ps[..i];
      var idx := IndexOf(Lower(text), Lower(words[i]));
      assert idx == ps[i];
      if idx != -1 && (firstIndex == -1 || idx < firstIndex) {
        firstIndex := idx;
        firstWord := Some(words[i]);
      }
    }
    assert ps[..|words|] == ps;
  }

  /** The window around the anchor: at most `maxLen / 2` characters on each side, clipped to the text. */
  function Window(textLength: nat, anchor: nat, maxLen: nat): (r: (nat, nat))
    requires anchor <= textLength
    ensures r.0 <= anchor <= r.1 <= textLength
    ensures r.1 - r.0 <= maxLen
    ensures r.0 == 0 || anchor - r.0 == maxLen / 2
    ensures r.1 == textLength || r.1 - anchor == maxLen / 2
    ensures anchor < textLength && maxLen >= 2 ==> anchor < r.1
  {
    var radius := maxLen / 2;
    (Max(0, anchor - radius), Min(textLength, anchor + radius))
  }

  /**
   * `s.replaceAll("(?i)" + target, repl)` for a target without regular
   * expression syntax: every non-overlapping match, ignoring ASCII case only.
   */
  function ReplaceIgnoringAsciiCase(s: string, target: string, repl: string): string
    decreases |s|
  {
    if target == [] then
      (if s == [] then repl else repl + [s[0]] + ReplaceIgnoringAsciiCase(s[1..], target, repl))
    else if |s| < |target| then s
    else if MatchesIgnoringAsciiCase(s, target, 0) then repl + ReplaceIgnoringAsciiCase(s[|target|..], target, repl)
    else [s[0]] + ReplaceIgnoringAsciiCase(s[1..], target, repl)
  }

  predicate HasNoAsciiLetter(w: string) {
    forall i :: 0 <= i < |w| ==> !('A' <= w[i] <= 'Z') && !('a' <= w[i] <= 'z')
  }

  /**
   * For a word without ASCII letters, as every Russian lemma is, the
   * case-insensitive replacement is the exact one: capitalised Cyrillic
   * occurrences are not matched.
   */
  lemma {:induction false} CyrillicReplacementIsExact(s: string, target: string, repl: string)
    requires HasNoAsciiLetter(target)
    ensures ReplaceIgnoringAsciiCase(s, target, repl) == Replace(s, target, repl)
    decreases |s|
  {
    if target == [] {
      if s != [] {
        CyrillicReplacementIsExact(s[1..], target, repl);
      }
    } else if |s| >= |target| {
      assert MatchesIgnoringAsciiCase(s, target, 0) <==> s[..|target|] == target by {
        if MatchesIgnoringAsciiCase(s, target, 0) {
          forall j | 0 <= j < |target| ensures s[..|target|][j] == target[j] {
            assert AsciiFold(s[j]) == AsciiFold(target[j]);
          }
        }
      }
      CyrillicReplacementIsExact(s[|target|..], target, repl);
      CyrillicReplacementIsExact(s[1..], target, repl);
    }
  }

  /** Every word, in list order, wrapped in `<b>…</b>` wherever it matches. */
  function Highlight(s: string, words: seq<string>): string {
    if words == [] then s
    else
      var w := words[|words| - 1];
      ReplaceIgnoringAsciiCase(Highlight(s, words[..|words| - 1]), w, "<b>" + w + "</b>")
  }

  /**
   * Words without ASCII letters, as Russian lemmas are, are marked only where
   * they occur with their own case: a text in which none of them occurs that
   * way (every occurrence capitalised, say) comes back unmarked, because
   * `(?i)` folds ASCII letters only.
   */
  lemma {:induction false} UnmatchedCyrillicWordsNotHighlighted(s: string, words: seq<string>)
    requires forall i :: 0 <= i < |words| ==> HasNoAsciiLetter(words[i]) && !Contains(s, words[i])
    ensures Highlight(s, words) == s
    decreases |words|
  {
    if words != [] {
      var w := words[|words| - 1];
      UnmatchedCyrillicWordsNotHighlighted(s, words[..|words| - 1]);
      assert w != [] by {
        assert !OccursAt(s, w, 0);
      }
      CyrillicReplacementIsExact(s, w, "<b>" + w + "</b>");
      ReplaceWithoutOccurrence(s, w, "<b>" + w + "</b>");
    }
  }

  /** For example, "Дом" is not marked for the lemma "дом". */
  lemma CapitalisedRussianWordNotHighlighted()
    ensures Highlight("Дом", ["дом"]) == "Дом"
  {
    var s: string := "Дом";
    assert !OccursAt(s, "дом", 0) by {
      assert s[0] != "дом"[0];
    }
    assert forall i :: OccursAt(s, "дом", i) ==> i == 0;
    UnmatchedCyrillicWordsNotHighlighted(s, ["дом"]);
  }

  /**
   * `buildSnippet` on the text of a page: without an anchor, the first
   * `maxLen` characters highlighted; with one, the window around it
   * highlighted and followed by "...".
   */
  function Snippet(text: string, words: seq<string>, maxLen: nat): string {
    var a := Anchor(text, words);
    if a.0 == -1 then Highlight(text[..Min(maxLen, |text|)], words)
    else
      var w := Window(|text|, a.0, maxLen);
      Highlight(text[w.0..w.1], words) + "..."
  }

  /**
   * The snippet is the highlighting of a piece `text[i..j]` of at most
   * `maxLen` characters: without a match, as much of the start of the text
   * as fits; with one, a piece around the first match, followed by "...".
   */
  lemma SnippetWindowBounded(text: string, words: seq<string>, maxLen: nat)
    ensures var a := Anchor(text, words).0;
      exists i, j ::
        && 0 <= i <= j <= |text| && j - i <= maxLen
        && (a == -1 ==> i == 0 && (j == |text| || j == maxLen) && Snippet(text, words, maxLen) == Highlight(text[i..j], words))
        && (a != -1 ==> i <= a <= j && (a < |text| && maxLen >= 2 ==> a < j)
                        && Snippet(text, words, maxLen) == Highlight(text[i..j], words) + "...")
  {
    var a := Anchor(text, words).0;
    if a == -1 {
      var j := Min(maxLen, |text|);
      assert Snippet(text, words, maxLen) == Highlight(text[0..j], words);
    } else {
      var w := Window(|text|, a, maxLen);
      assert Snippet(text, words, maxLen) == Highlight(text[w.0..w.1], words) + "...";
    }
  }

  /** The highlighting loop. */
  method HighlightAll(s: string, words: seq<string>) returns (r: string)
    ensures r == Highlight(s, words)
  {
    r := s;
    for i := 0 to |words|
      invariant r == Highlight(s, words[..i])
    {
      assert words[..i + 1][..i] == words[..i];
      r := ReplaceIgnoringAsciiCase(r, words[i], "<b>" + words[i] + "</b>");
    }
    assert words[..|words|] == words;
  }

  method BuildSnippet(text: string, words: seq<string>, maxLen: nat) returns (snippet: string)
    ensures snippet == Snippet(text, words, maxLen)
  {
    var firstIndex, firstWord := FindAnchor(text, words);
    if firstIndex == -1 {
      snippet := HighlightAll(text[..Min(maxLen, |text|)], words);
      return;
    }
    var w := Window(|text|, firstIndex, maxLen);
    snippet := HighlightAll(text[w.0..w.1], words);
    snippet := snippet + "...";
  }

  // ---------------------------------------------------------------- hits, order and paging

  /** The hit for one candidate page: its site's url and name, its path, title, snippet and relevance. */
  function ResultFor(t: Tables, parse: string -> Document, words: seq<string>, maxLen: nat, relevance: real, pageId: int): (r: SearchResult)
    requires ReferencesResolve(t) && HasPage(t, pageId)
    ensures r.relevance == relevance
    ensures exists page, site ::
              && page in t.pages && page.id == pageId && site in t.sites && site.id == page.siteId
              && r.site == site.url && r.siteName == site.name && r.uri == page.path
              && r.title == parse(page.content).title && r.snippet == Snippet(parse(page.content).text, words, maxLen)
  {
    var page := FindPageById(t, pageId).value;
    assert HasSite(t, page.siteId);
    var site := FindSiteById(t, page.siteId).value;
    var doc := parse(page.content);
    SearchResult(site.url, site.name, page.path, doc.title, Snippet(doc.text, words, maxLen), relevance)
  }

  predicate SortedByRelevance(s: seq<SearchResult>) {
    forall i, j :: 0 <= i < j < |s| ==> s[i].relevance >= s[j].relevance
  }

  /** A hit of larger relevance than the first goes in front of a sorted list. */
  lemma PrependedLarger(sorted: seq<SearchResult>, x: SearchResult)
    requires SortedByRelevance(sorted) && (sorted == [] || x.relevance > sorted[0].relevance)
    ensures SortedByRelevance([x] + sorted)
  {
    var r := [x] + sorted;
    forall i, j | 0 <= i < j < |r| ensures r[i].relevance >= r[j].relevance {
      assert r[j] == sorted[j - 1];
      if i > 0 {
        assert r[i] == sorted[i - 1];
      } else if j > 1 {
        assert sorted[0].relevance >= sorted[j - 1].relevance;
      }
    }
  }

  /** The first hit stays in front of a sorted tail into which a hit of no larger relevance was inserted. */
  lemma KeptHead(sorted: seq<SearchResult>, x: SearchResult, rest: seq<SearchResult>)
    requires sorted != [] && SortedByRelevance(sorted) && x.relevance <= sorted[0].relevance
    requires SortedByRelevance(rest) && multiset(rest) == multiset(sorted[1..]) + multiset{x}
    ensures SortedByRelevance([sorted[0]] + rest)
    ensures multiset([sorted[0]] + rest) == multiset(sorted) + multiset{x}
  {
    assert sorted == [sorted[0]] + sorted[1..];
    var r := [sorted[0]] + rest;
    forall j | 0 < j < |r| ensures r[0].relevance >= r[j].relevance {
      var y := r[j];
      assert y == rest[j - 1];
      assert y in multiset(rest);
      if y != x {
        assert y in multiset(sorted[1..]);
        var k :| 0 <= k < |sorted[1..]| && sorted[1..][k] == y;
        assert sorted[k + 1] == y;
      }
    }
    forall i, j | 0 <= i < j < |r| ensures r[i].relevance >= r[j].relevance {
      if i > 0 {
        assert r[i] == rest[i - 1] && r[j] == rest[j - 1];
      }
    }
  }

  /** Insertion after every hit of no smaller relevance: the stable descending sort. */
  function InsertByRelevance(sorted: seq<SearchResult>, x: SearchResult): (r: seq<SearchResult>)
    requires SortedByRelevance(sorted)
    ensures SortedByRelevance(r)
    ensures multiset(r) == multiset(sorted) + multiset{x}
  {
    if sorted == [] || x.relevance > sorted[0].relevance then
      PrependedLarger(sorted, x);
      [x] + sorted
    else
      assert SortedByRelevance(sorted[1..]) by {
        forall i, j | 0 <= i < j < |sorted[1..]| ensures sorted[1..][i].relevance >= sorted[1..][j].relevance {
          assert sorted[1..][i] == sorted[i + 1] && sorted[1..][j] == sorted[j + 1];
        }
      }
      var rest := InsertByRelevance(sorted[1..], x);
      KeptHead(sorted, x, rest);
      [sorted[0]] + rest
  }

  /** `data.sort(...)` by descending relevance. */
  function SortByRelevance(s: seq<SearchResult>): (r: seq<SearchResult>)
    ensures SortedByRelevance(r)
    ensures multiset(r) == multiset(s)
  {
    if s == [] then []
    else
      assert s == s[..|s| - 1] + [s[|s| - 1]];
      InsertByRelevance(SortByRelevance(s[..|s| - 1]), s[|s| - 1])
  }

  datatype SubListError = IndexOutOfBounds | IllegalArgument

  /** `subList(offset, min(offset + limit, size))`, or the exception it throws. */
  datatype Paged<T> = Slice(items: seq<T>) | Failed(error: SubListError)

  function Paginate<T>(data: seq<T>, offset: Int32, limit: Int32): (r: Paged<T>)
    ensures r.Failed? <==> offset < 0 || offset > Min(AddInt(offset, limit), |data|)
    ensures r == Failed(IndexOutOfBounds) <==> offset < 0
    ensures r.Slice? ==> |r.items| <= |data| - offset && forall i :: 0 <= i < |r.items| ==> r.items[i] == data[offset + i]
  {
    var end := Min(AddInt(offset, limit), |data|);
    if offset < 0 then Failed(IndexOutOfBounds)
    else if offset > end then Failed(IllegalArgument)
    else Slice(data[offset..end])
  }

  /** With the window inside the list and no overflow, the page is the next `limit` hits or all that remain. */
  lemma PaginateWithinRange<T>(data: seq<T>, offset: Int32, limit: Int32)
    requires 0 <= offset <= |data| && 0 <= limit && offset + limit < 0x8000_0000
    ensures Paginate(data, offset, limit) == Slice(data[offset..Min(offset + limit, |data|)])
    ensures |Paginate(data, offset, limit).items| == Min(limit, |data| - offset)
  {
  }

  /** An offset past the end of the hits is an error, not an empty page. */
  lemma PaginateBeyondEndFails<T>(data: seq<T>, offset: Int32, limit: Int32)
    requires offset > |data|
    ensures Paginate(data, offset, limit) == Failed(IllegalArgument)
  {
  }

  /** A `limit` large enough to overflow `offset + limit` makes even a valid offset fail. */
  lemma PaginateOverflowFails<T>(data: seq<T>, offset: Int32, limit: Int32)
    requires 0 <= offset <= |data| && offset + limit > IntMax
    ensures Paginate(data, offset, limit) == Failed(IllegalArgument)
  {
    var sum := offset + limit;
    assert IsInt(offset) && IsInt(limit);
    assert IntMax < sum <= 2 * IntMax;
    assert NarrowToInt(sum) == sum - 0x1_0000_0000;
  }

  /** The answer of `search`, or the exception `subList` throws out of it. */
  datatype SearchOutcome = Returned(response: SearchResponseDto) | Thrown(error: SubListError)

  function Respond(p: Paged<SearchResult>): (r: SearchOutcome)
    ensures p.Slice? ==> r == Returned(Ok(p.items, |p.items|))
    ensures p.Failed? ==> r == Thrown(p.error)
  {
    match p
    case Slice(items) => Returned(Ok(items, |items|))
    case Failed(e) => Thrown(e)
  }

  /** The hits in the order the candidate pages were visited. */
  function Results(t: Tables, parse: string -> Document, words: seq<string>, maxLen: nat, maxRel: int, order: seq<int>): (r: seq<SearchResult>)
    requires ReferencesResolve(t) && maxRel != 0
    requires forall id :: id in order ==> HasPage(t, id)
    ensures |r| == |order|
  {
    seq(|order|, i requires 0 <= i < |order| =>
      ResultFor(t, parse, words, maxLen, Relevance(t, words, order[i], maxRel), order[i]))
  }

  /** The pages of postings exist in a consistent store, so every candidate page does. */
  lemma CandidatesArePages(t: Tables, lemmas: seq<string>)
    requires Consistent(t) && Candidates(t, lemmas).Some?
    ensures forall id :: id in Candidates(t, lemmas).value ==> HasPage(t, id)
  {
    forall id | id in Candidates(t, lemmas).value ensures HasPage(t, id) {
      assert lemmas[0] in lemmas;
      assert id in FindPageIdByLemma(t, lemmas[0]);
    }
  }

  /** One more visited page adds its hit at the end. */
  lemma ResultsStep(t: Tables, parse: string -> Document, words: seq<string>, maxLen: nat, maxRel: int, order: seq<int>, id: int)
    requires ReferencesResolve(t) && maxRel != 0
    requires forall x :: x in order ==> HasPage(t, x)
    requires HasPage(t, id)
    ensures forall x :: x in order + [id] ==> HasPage(t, x)
    ensures Results(t, parse, words, maxLen, maxRel, order + [id])
      == Results(t, parse, words, maxLen, maxRel, order) + [ResultFor(t, parse, words, maxLen, Relevance(t, words, id, maxRel), id)]
  {
    var r := Results(t, parse, words, maxLen, maxRel, order + [id]);
    var q := Results(t, parse, words, maxLen, maxRel, order) + [ResultFor(t, parse, words, maxLen, Relevance(t, words, id, maxRel), id)];
    forall i | 0 <= i < |r| ensures r[i] == q[i] {
      assert (order + [id])[i] == if i < |order| then order[i] else id;
    }
  }

  /** The hit for one candidate page, as the loop body builds it. */
  method HitFor(t: Tables, parse: string -> Document, words: seq<string>, maxLen: nat, relevance: real, id: int)
    returns (hit: SearchResult)
    requires ReferencesResolve(t) && HasPage(t, id)
    ensures hit == ResultFor(t, parse, words, maxLen, relevance, id)
  {
    var page := FindPageById(t, id);
    assert HasSite(t, page.value.siteId);
    var site := FindSiteById(t, page.value.siteId);
    var title := parse(page.value.content).title;
    var snippet := BuildSnippet(parse(page.value.content).text, words, maxLen);
    hit := SearchResult(site.value.url, site.value.name, page.value.path, title, snippet, relevance);
  }

  /** The loop that builds one hit per candidate page. */
  method CollectResults(t: Tables, parse: string -> Document, words: seq<string>, maxLen: nat,
                        rel: map<int, real>, maxRel: int, pageIds: set<int>)
    returns (data: seq<SearchResult>, ghost order: seq<int>)
    requires ReferencesResolve(t) && maxRel != 0
    requires forall id :: id in pageIds ==> HasPage(t, id)
    requires forall id :: id in pageIds ==> id in rel && rel[id] == Relevance(t, words, id, maxRel)
    ensures Distinct(order) && forall id :: id in order <==> id in pageIds
    ensures data == Results(t, parse, words, maxLen, maxRel, order)
  {
    data := [];
    order := [];
    var remaining := pageIds;
    while remaining != {}
      invariant remaining <= pageIds
      invariant Distinct(order) && forall id :: id in order <==> id in pageIds && id !in remaining
      invariant data == Results(t, parse, words, maxLen, maxRel, order)
      decreases remaining
    {
      ghost var some := Element(remaining);
      var id: int :| id in remaining;
      var hit := HitFor(t, parse, words, maxLen, rel[id], id);
      ResultsStep(t, parse, words, maxLen, maxRel, order, id);
      data := data + [hit];
      order := order + [id];
      remaining := remaining - {id};
    }
  }

  /**
   * The answer for a non-empty candidate set: `maxRel` is the largest
   * absolute relevance, `order` visits every candidate once, `ranked` holds
   * one hit per candidate sorted by descending relevance, and the outcome
   * is the requested page of `ranked`.
   */
  ghost predicate RankedAnswer(t: Tables, parse: string -> Document, maxSnippetLength: nat, filtered: seq<string>,
                               candidates: set<int>, offset: Int32, limit: Int32,
                               outcome: SearchOutcome, maxRel: int, order: seq<int>, ranked: seq<SearchResult>)
  {
    && maxRel >= 1
    && IsMaxRelevance(t, filtered, candidates, maxRel)
    && Distinct(order) && (forall id :: id in order <==> id in candidates)
    && (forall id :: id in order ==> HasPage(t, id))
    && ReferencesResolve(t)
    && multiset(ranked) == multiset(Results(t, parse, filtered, maxSnippetLength, maxRel, order))
    && SortedByRelevance(ranked)
    && outcome == Respond(Paginate(ranked, offset, limit))
  }

  /**
   * The part of `search` after `filterLemmas`: the candidate pages, their
   * relevance, one hit per page, the descending sort and the page of hits.
   */
  method AnswerFor(t: Tables, parse: string -> Document, maxSnippetLength: nat,
                   filtered: seq<string>, offset: Int32, limit: Int32)
    returns (outcome: SearchOutcome, ghost maxRel: int, ghost order: seq<int>, ghost ranked: seq<SearchResult>)
    requires Consistent(t)
    ensures Candidates(t, filtered).None? || Candidates(t, filtered).value == {} ==> outcome == Returned(OkEmpty())
    ensures Candidates(t, filtered).Some? && Candidates(t, filtered).value != {} ==>
      RankedAnswer(t, parse, maxSnippetLength, filtered, Candidates(t, filtered).value, offset, limit, outcome, maxRel, order, ranked)
  {
    maxRel, order, ranked := 0, [], [];
    var pageIds := IntersectPageIds(t, filtered);
    if pageIds.None? || pageIds.value == {} {
      outcome := Returned(OkEmpty());
      return;
    }
    CandidatesArePages(t, filtered);
    var abs := CalculateAbsRelevance(t, pageIds.value, filtered);
    var maxAbs := MaxRelevance(abs);
    maxRel := maxAbs;
    assert IsMaxRelevance(t, filtered, pageIds.value, maxAbs);
    RelevanceNormalised(t, filtered, maxAbs);
    var rel := map id | id in abs :: abs[id] as real / maxAbs as real;
    var data;
    data, order := CollectResults(t, parse, filtered, maxSnippetLength, rel, maxAbs, pageIds.value);
    var sorted := SortByRelevance(data);
    ranked := sorted;
    outcome := Respond(Paginate(sorted, offset, limit));
  }

  /** The lemmas of a non-blank query; `failed` when the analyser could not be loaded. */
  method LemmasOfQuery(analyser: Option<Morphology>, query: Option<string>)
    returns (failed: bool, lemmasFromQuery: map<string, int>)
    ensures failed <==> query.Some? && !IsBlank(query.value) && analyser.None?
    ensures !failed ==> lemmasFromQuery == QueryLemmas(analyser, query)
  {
    failed := false;
    lemmasFromQuery := map[];
    if query.Some? && !IsBlank(query.value) {
      if analyser.None? {
        failed := true;
        return;
      }
      lemmasFromQuery := CollectLemmas(analyser.value, query.value);
    }
  }

  /**
   * `search`.  The analyser is `None` when the morphology could not be
   * loaded; `parse` stands for the HTML parser.  The ghost results expose
   * the filtered lemmas, the maximum relevance, the order the candidate set
   * was visited in and the sorted hits before paging.
   */
  method Search(t: Tables, analyser: Option<Morphology>, parse: string -> Document,
                maxLemmaShare: real, maxSnippetLength: nat,
                query: Option<string>, siteUrl: Option<string>, offset: Int32, limit: Int32)
    returns (outcome: SearchOutcome, ghost filtered: seq<string>, ghost maxRel: int,
             ghost order: seq<int>, ghost ranked: seq<SearchResult>)
    requires Consistent(t)
    ensures query.None? || IsBlank(query.value) ==> outcome == Returned(OkEmpty())
    ensures query.Some? && !IsBlank(query.value) && analyser.None? ==> outcome == Returned(OkEmpty())
    ensures forall k :: k in filtered <==>
      k in QueryLemmas(analyser, query) && Survives(t, k, Threshold(TotalPages(t, siteUrl), maxLemmaShare))
    ensures Distinct(filtered) && SortedByFrequency(t, filtered)
    ensures Candidates(t, filtered).None? || Candidates(t, filtered).value == {} ==> outcome == Returned(OkEmpty())
    ensures Candidates(t, filtered).Some? && Candidates(t, filtered).value != {} ==>
      RankedAnswer(t, parse, maxSnippetLength, filtered, Candidates(t, filtered).value, offset, limit, outcome, maxRel, order, ranked)
  {
    filtered, maxRel, order, ranked := [], 0, [], [];
    var failed, lemmasFromQuery := LemmasOfQuery(analyser, query);
    if failed {
      outcome := Returned(OkEmpty());
      return;
    }
    var fl := FilterLemmas(t, lemmasFromQuery, siteUrl, maxLemmaShare);
    filtered := fl;
    HeadIsMember(fl);
    outcome, maxRel, order, ranked := AnswerFor(t, parse, maxSnippetLength, fl, offset, limit);
  }
}
