/**
 * `LemmaFinder`: turns a text into a map from normal forms (lemmas) to the
 * number of words of the text that have that normal form.  The Russian
 * morphology analyser is foreign and is passed in as a pair of functions.
 */
module LemmaFinder {
  import opened Wrappers
  import opened Text

  /** The analyser's two queries: `getMorphInfo(word)` and `getNormalForms(word)`. */
  datatype Morphology = Morphology(morphInfo: string -> seq<string>, normalForms: string -> seq<string>)

  /** Morphology tags of interjections, prepositions and conjunctions. */
  const ParticleNames: seq<string> := ["МЕЖД", "ПРЕДЛ", "СОЮЗ"]

  /** The character class `а-я`: U+0430..U+044F, which leaves out `ё`. */
  predicate IsRussianLetter(c: char) {
    '\U{430}' <= c <= '\U{44F}'
  }

  predicate AllRussian(w: string) {
    forall i :: 0 <= i < |w| ==> IsRussianLetter(w[i])
  }

  predicate NoSpace(w: string) {
    forall i :: 0 <= i < |w| ==> !IsRegexSpace(w[i])
  }

  /** A word as the tokeniser can produce it: non-empty, only `а-я`. */
  predicate IsRussianWord(w: string) {
    w != [] && AllRussian(w)
  }

  /**
   * `text.toLowerCase(Locale.ROOT).replaceAll("[^а-я\\s]", " ")`: every
   * character is lowered; what is then neither in `а-я` nor in `\s` becomes a space.
   */
  function Normalize(text: string): (r: string)
    ensures |r| == |text|
    ensures forall i :: 0 <= i < |r| ==> IsRussianLetter(r[i]) || IsRegexSpace(r[i])
    ensures forall i :: 0 <= i < |r| ==> (IsRussianLetter(r[i]) <==> IsRussianLetter(LowerChar(text[i])))
  {
    seq(|text|, i requires 0 <= i < |text| =>
      var c := LowerChar(text[i]);
      if IsRussianLetter(c) || IsRegexSpace(c) then c else ' ')
  }

  /** The length of the leading run of characters outside `\s`. */
  function RunLength(t: string): (n: nat)
    ensures n <= |t|
    ensures forall i :: 0 <= i < n ==> !IsRegexSpace(t[i])
    ensures n < |t| ==> IsRegexSpace(t[n])
  {
    if t == [] || IsRegexSpace(t[0]) then 0 else 1 + RunLength(t[1..])
  }

  /** `trim().split("\\s+")` of a non-blank string: its maximal runs of characters outside `\s`. */
  function Words(t: string): (ws: seq<string>)
    ensures forall w :: w in ws ==> w != [] && NoSpace(w)
    ensures forall w :: w in ws ==> forall i :: 0 <= i < |w| ==> w[i] in t
    decreases |t|
  {
    if t == [] then []
    else if IsRegexSpace(t[0]) then Words(t[1..])
    else
      var n := RunLength(t);
      assert forall i :: 0 <= i < n ==> t[..n][i] in t;
      [t[..n]] + Words(t[n..])
  }

  /** Words separated by single spaces: the inverse of `Words`. */
  function Unwords(ws: seq<string>): string {
    if ws == [] then []
    else if |ws| == 1 then ws[0]
    else ws[0] + " " + Unwords(ws[1..])
  }

  /**
   * `splitToRussianWords`: the maximal runs of `а-я` letters of the lowered
   * text, or the single empty token when there is none (Java's `split` of an
   * empty string).
   */
  function SplitToRussianWords(text: string): (tokens: seq<string>)
    ensures tokens != []
    ensures forall w :: w in tokens ==> w == [] || IsRussianWord(w)
    ensures [] in tokens ==> tokens == [[]]
  {
    var ws := Words(Normalize(text));
    WordsAreRussian(Normalize(text));
    if ws == [] then [[]] else ws
  }

  lemma WordsAreRussian(t: string)
    requires forall i :: 0 <= i < |t| ==> IsRussianLetter(t[i]) || IsRegexSpace(t[i])
    ensures forall w :: w in Words(t) ==> IsRussianWord(w)
  {
    forall w | w in Words(t) ensures IsRussianWord(w) {
      forall i | 0 <= i < |w| ensures IsRussianLetter(w[i]) {
        assert w[i] in t;
      }
    }
  }

  lemma {:induction false} RunLengthOfWord(w: string, rest: string)
    requires NoSpace(w)
    requires rest == [] || IsRegexSpace(rest[0])
    ensures RunLength(w + rest) == |w|
    decreases |w|
  {
    if w != [] {
      assert (w + rest)[1..] == w[1..] + rest;
      RunLengthOfWord(w[1..], rest);
    } else {
      assert w + rest == rest;
    }
  }

  lemma WordsOfLeadingWord(w: string, rest: string)
    requires w != [] && NoSpace(w)
    requires rest == [] || IsRegexSpace(rest[0])
    ensures Words(w + rest) == [w] + Words(rest)
  {
    var t := w + rest;
    RunLengthOfWord(w, rest);
    assert t[..|w|] == w;
    assert t[|w|..] == rest;
  }

  lemma WordsOfLeadingSpace(u: string)
    ensures Words(" " + u) == Words(u)
  {
    assert (" " + u)[1..] == u;
  }

  lemma WordsOfSingle(w: string)
    requires w != [] && NoSpace(w)
    ensures Words(w) == [w]
  {
    WordsOfLeadingWord(w, []);
    assert w + [] == w;
  }

  /** One more word in front of a joined list that splits back. */
  lemma WordsOfJoined(w: string, ws: seq<string>)
    requires w != [] && NoSpace(w) && ws != []
    requires Words(Unwords(ws)) == ws
    ensures Words(Unwords([w] + ws)) == [w] + ws
  {
    var u := Unwords(ws);
    assert ([w] + ws)[1..] == ws;
    assert Unwords([w] + ws) == w + (" " + u);
    WordsOfLeadingWord(w, " " + u);
    WordsOfLeadingSpace(u);
  }

  /** Splitting words joined by single spaces gives the words back. */
  lemma {:induction false} WordsOfUnwords(ws: seq<string>)
    requires forall w :: w in ws ==> w != [] && NoSpace(w)
    ensures Words(Unwords(ws)) == ws
    decreases |ws|
  {
    if |ws| == 1 {
      assert ws[0] in ws;
      WordsOfSingle(ws[0]);
      assert ws == [ws[0]];
    } else if |ws| > 1 {
      var w := ws[0];
      assert w in ws;
      assert forall x :: x in ws[1..] ==> x in ws;
      WordsOfUnwords(ws[1..]);
      WordsOfJoined(w, ws[1..]);
      assert ws == [w] + ws[1..];
    }
  }

  lemma {:induction false} NormalizeRussianText(t: string)
    requires forall i :: 0 <= i < |t| ==> IsRussianLetter(t[i]) || t[i] == ' '
    ensures Normalize(t) == t
  {
    assert forall i :: 0 <= i < |t| ==> LowerChar(t[i]) == t[i];
  }

  lemma {:induction false} UnwordsRussian(ws: seq<string>)
    requires forall w :: w in ws ==> IsRussianWord(w)
    ensures forall i :: 0 <= i < |Unwords(ws)| ==> IsRussianLetter(Unwords(ws)[i]) || Unwords(ws)[i] == ' '
    ensures ws != [] ==> Unwords(ws) != []
    decreases |ws|
  {
    if |ws| == 1 {
      assert ws[0] in ws;
    } else if |ws| > 1 {
      assert ws[0] in ws;
      assert forall x :: x in ws[1..] ==> x in ws;
      UnwordsRussian(ws[1..]);
      var u := Unwords(ws[1..]);
      assert Unwords(ws) == ws[0] + " " + u;
      forall i | 0 <= i < |Unwords(ws)|
        ensures IsRussianLetter(Unwords(ws)[i]) || Unwords(ws)[i] == ' '
      {
        if i < |ws[0]| {
          assert Unwords(ws)[i] == ws[0][i];
        } else if i > |ws[0]| {
          assert Unwords(ws)[i] == u[i - |ws[0]| - 1];
        }
      }
    }
  }

  /**
   * Tokenising round trip: Russian words joined by single spaces are split
   * back into exactly those words.
   */
  lemma SplitOfJoinedWords(ws: seq<string>)
    requires ws != [] && forall w :: w in ws ==> IsRussianWord(w)
    ensures SplitToRussianWords(Unwords(ws)) == ws
  {
    UnwordsRussian(ws);
    NormalizeRussianText(Unwords(ws));
    forall w | w in ws ensures w != [] && NoSpace(w) {
      assert forall i :: 0 <= i < |w| ==> IsRussianLetter(w[i]);
    }
    WordsOfUnwords(ws);
  }

  lemma NormalizeConcat(x: string, y: string)
    ensures Normalize(x + y) == Normalize(x) + Normalize(y)
  {
    var xy := x + y;
    forall i | 0 <= i < |xy| ensures Normalize(xy)[i] == (Normalize(x) + Normalize(y))[i] {
      if i < |x| {
        assert xy[i] == x[i];
      } else {
        assert xy[i] == y[i - |x|];
      }
    }
  }

  /** `ё` lies outside `а-я`, so it separates two words as a space would. */
  lemma YoSeparatesWords(a: string, b: string)
    requires IsRussianWord(a) && IsRussianWord(b)
    ensures SplitToRussianWords(a + "ё" + b) == [a, b]
  {
    var yo := Normalize("ё");
    assert yo == " " by {
      assert LowerChar('ё') == 'ё';
    }
    NormalizeConcat(a + "ё", b);
    NormalizeConcat(a, "ё");
    NormalizeRussianText(a);
    NormalizeRussianText(b);
    var joined := Unwords([a, b]);
    assert [a, b][1..] == [b];
    assert Unwords([b]) == b;
    assert joined == a + " " + b;
    assert Normalize(a + "ё" + b) == joined;
    SplitOfJoinedWords([a, b]);
    NormalizeRussianText(joined) by {
      UnwordsRussian([a, b]);
    }
    assert Normalize(a + "ё" + b) == Normalize(joined);
  }

  lemma {:induction false} WordsOfSpaces(t: string)
    requires forall i :: 0 <= i < |t| ==> IsRegexSpace(t[i])
    ensures Words(t) == []
    decreases |t|
  {
    if t != [] {
      WordsOfSpaces(t[1..]);
    }
  }

  /** A text with no letter of `а-я` (after lowering) is split into the single empty token. */
  lemma LetterFreeTextHasNoWords(text: string)
    requires forall i :: 0 <= i < |text| ==> !IsRussianLetter(LowerChar(text[i]))
    ensures SplitToRussianWords(text) == [[]]
  {
    WordsOfSpaces(Normalize(text));
  }

  /** `anyWordBaseBelongToParticle`: some upper-cased morphology string contains a particle tag. */
  function AnyWordBaseBelongToParticle(wordBaseForms: seq<string>): (r: bool)
    ensures r <==> exists i, j :: 0 <= i < |wordBaseForms| && 0 <= j < |ParticleNames|
                                  && Contains(Upper(wordBaseForms[i]), ParticleNames[j])
  {
    exists i, j :: 0 <= i < |wordBaseForms| && 0 <= j < |ParticleNames|
                   && IndexOf(Upper(wordBaseForms[i]), ParticleNames[j]) != -1
  }

  /**
   * What one token contributes to `collectLemmas`: nothing when it is blank,
   * a particle, or has no normal form; otherwise its first normal form.
   */
  function TokenLemma(morph: Morphology, word: string): Option<string> {
    if IsBlank(word) then None
    else if AnyWordBaseBelongToParticle(morph.morphInfo(word)) then None
    else if morph.normalForms(word) == [] then None
    else Some(morph.normalForms(word)[0])
  }

  function Contribution(form: Option<string>): seq<string> {
    match form
    case Some(f) => [f]
    case None => []
  }

  /** The normal forms the accepted tokens contribute, in token order. */
  function AcceptedForms(morph: Morphology, words: seq<string>): seq<string> {
    if words == [] then []
    else AcceptedForms(morph, words[..|words| - 1]) + Contribution(TokenLemma(morph, words[|words| - 1]))
  }

  lemma AcceptedFormsPrefix(morph: Morphology, words: seq<string>, i: nat)
    requires i < |words|
    ensures AcceptedForms(morph, words[..i + 1]) == AcceptedForms(morph, words[..i]) + Contribution(TokenLemma(morph, words[i]))
  {
    assert words[..i + 1][..i] == words[..i];
  }

  /** The occurrence count of every element of `forms`. */
  function Tally(forms: seq<string>): map<string, int> {
    map k | k in multiset(forms) :: multiset(forms)[k]
  }

  /** The sum of the values of a map. */
  ghost function MapSum(m: map<string, int>): int
    decreases |m|
  {
    if m == map[] then 0
    else
      var k :| k in m;
      m[k] + MapSum(m - {k})
  }

  lemma {:induction false} MapSumRemove(m: map<string, int>, k: string)
    requires k in m
    ensures MapSum(m) == m[k] + MapSum(m - {k})
    decreases |m|
  {
    var j :| j in m && MapSum(m) == m[j] + MapSum(m - {j});
    if j != k {
      assert k in m - {j};
      MapSumRemove(m - {j}, k);
      assert j in m - {k};
      MapSumRemove(m - {k}, j);
      assert (m - {j}) - {k} == (m - {k}) - {j};
    }
  }

  lemma TallySnoc(forms: seq<string>, f: string)
    ensures Tally(forms + [f]) == Tally(forms)[f := (if f in Tally(forms) then Tally(forms)[f] else 0) + 1]
  {
    assert multiset(forms + [f]) == multiset(forms) + multiset{f};
  }

  /** The counts add up to the number of counted forms. */
  lemma {:induction false} TallySum(forms: seq<string>)
    ensures MapSum(Tally(forms)) == |forms|
    decreases |forms|
  {
    if forms == [] {
      assert Tally(forms) == map[];
    } else {
      var init, f := forms[..|forms| - 1], forms[|forms| - 1];
      assert forms == init + [f];
      TallySum(init);
      TallySnoc(init, f);
      var m := Tally(init);
      var m' := Tally(forms);
      assert f in m';
      MapSumRemove(m', f);
      if f in m {
        MapSumRemove(m, f);
        assert m' - {f} == m - {f};
      } else {
        assert m' - {f} == m;
      }
    }
  }

  /**
   * `collectLemmas`: for every token in turn, skip it when it is blank, a
   * particle, or without normal forms; otherwise add one to the count of its
   * first normal form.
   */
  method CollectLemmas(morph: Morphology, text: string) returns (lemmas: map<string, int>)
    ensures lemmas == Tally(AcceptedForms(morph, SplitToRussianWords(text)))
  {
    var words := SplitToRussianWords(text);
    lemmas := map[];
    for i := 0 to |words|
      invariant lemmas == Tally(AcceptedForms(morph, words[..i]))
    {
      ghost var before := AcceptedForms(morph, words[..i]);
      AcceptedFormsPrefix(morph, words, i);
      var word := words[i];
      if IsBlank(word) {
        assert before + [] == before;
        continue;
      }
      var morphInfo := morph.morphInfo(word);
      if AnyWordBaseBelongToParticle(morphInfo) {
        assert before + [] == before;
        continue;
      }
      var normalForms := morph.normalForms(word);
      if |normalForms| == 0 {
        assert before + [] == before;
        continue;
      }
      var normalForm := normalForms[0];
      assert TokenLemma(morph, word) == Some(normalForm);
      TallySnoc(before, normalForm);
      lemmas := lemmas[normalForm := (if normalForm in lemmas then lemmas[normalForm] else 0) + 1];
    }
    assert words[..|words|] == words;
  }

  /** Every count is at least one, and the counts sum to the number of accepted tokens. */
  lemma CollectedCounts(morph: Morphology, words: seq<string>)
    ensures forall k :: k in Tally(AcceptedForms(morph, words)) ==> Tally(AcceptedForms(morph, words))[k] >= 1
    ensures MapSum(Tally(AcceptedForms(morph, words))) == |AcceptedForms(morph, words)|
  {
    TallySum(AcceptedForms(morph, words));
  }

  /** The number of tokens whose first normal form is `k`. */
  function TokensWithLemma(morph: Morphology, words: seq<string>, k: string): nat {
    if words == [] then 0
    else TokensWithLemma(morph, words[..|words| - 1], k)
         + (if TokenLemma(morph, words[|words| - 1]) == Some(k) then 1 else 0)
  }

  lemma {:induction false} AcceptedFormsMembership(morph: Morphology, words: seq<string>, k: string)
    ensures k in AcceptedForms(morph, words) <==> exists i :: 0 <= i < |words| && TokenLemma(morph, words[i]) == Some(k)
    decreases |words|
  {
    if words != [] {
      var n := |words| - 1;
      AcceptedFormsMembership(morph, words[..n], k);
      if exists i :: 0 <= i < n && TokenLemma(morph, words[..n][i]) == Some(k) {
        var i :| 0 <= i < n && TokenLemma(morph, words[..n][i]) == Some(k);
        assert words[i] == words[..n][i];
      }
      if exists i :: 0 <= i < |words| && TokenLemma(morph, words[i]) == Some(k) {
        var i :| 0 <= i < |words| && TokenLemma(morph, words[i]) == Some(k);
        if i < n {
          assert words[..n][i] == words[i];
        }
      }
    }
  }

  lemma {:induction false} AcceptedFormsCount(morph: Morphology, words: seq<string>, k: string)
    ensures multiset(AcceptedForms(morph, words))[k] == TokensWithLemma(morph, words, k)
    decreases |words|
  {
    if words != [] {
      var n := |words| - 1;
      AcceptedFormsCount(morph, words[..n], k);
      assert multiset(AcceptedForms(morph, words))
          == multiset(AcceptedForms(morph, words[..n])) + multiset(Contribution(TokenLemma(morph, words[n])));
    }
  }

  /**
   * Every key of the result is the first normal form of some accepted token,
   * and its count is the number of tokens with that first normal form.
   */
  lemma CollectedKeys(morph: Morphology, words: seq<string>, k: string)
    ensures k in Tally(AcceptedForms(morph, words)) <==> exists i :: 0 <= i < |words| && TokenLemma(morph, words[i]) == Some(k)
    ensures k in Tally(AcceptedForms(morph, words)) ==> Tally(AcceptedForms(morph, words))[k] == TokensWithLemma(morph, words, k)
  {
    AcceptedFormsMembership(morph, words, k);
    AcceptedFormsCount(morph, words, k);
  }

  /** A text without `а-я` letters yields no lemmas at all. */
  lemma LetterFreeTextHasNoLemmas(morph: Morphology, text: string)
    requires forall i :: 0 <= i < |text| ==> !IsRussianLetter(LowerChar(text[i]))
    ensures Tally(AcceptedForms(morph, SplitToRussianWords(text))) == map[]
  {
    LetterFreeTextHasNoWords(text);
    assert IsBlank([]);
    var tokens: seq<string> := [[]];
    assert tokens[..0] == [];
  }
}
