/**
 * Text normalisation and trigger detection (preprocessing.py): special
 * character removal, longest-first whole-word phrase substitution, intent
 * and region detection, and the full token pipeline.
 *
 * The module-level tables of the source (PHRASE_MAP, REGION_MAP,
 * SPECIAL_INTENT_MAP, the stopword list and the stemmer) are bundled in a
 * `Lexicon` value and passed in.
 */
module Preprocessing {
  import opened Common
  import opened Text
  import opened Seqs
  import opened Sorting

  /** Whatever the caller passes: Python accepts any object, and checks for `str`. */
  datatype Input = Str(s: string) | NotString

  /** A configuration table in its iteration order: (trigger phrase, code). */
  type Table = seq<(string, string)>

  /** The lexical resources loaded once at start-up. */
  datatype Lexicon = Lexicon(
    phraseMap: Table,
    regionMap: Table,
    intentMap: Table,
    stopwords: set<string>,
    stem: string -> string)

  // ---------------------------------------------------------------------
  // remove_special_characters and the digit removal of full_preprocessing
  // ---------------------------------------------------------------------

  /** The characters `[a-zA-Z0-9\s]` keeps. */
  predicate IsKept(c: char)
  {
    IsAsciiLetter(c) || IsAsciiDigit(c) || IsSpace(c)
  }

  predicate IsNotDigit(c: char)
  {
    !IsAsciiDigit(c)
  }

  /**
   * `remove_special_characters`: "" for a non-string; otherwise the input
   * with every character outside `[a-zA-Z0-9\s]` deleted. The result is a
   * subsequence of the input holding every copy of each kept character and
   * nothing else, so it is the input with exactly the other characters
   * taken out.
   */
  function RemoveSpecialCharacters(text: Input): (r: string)
    ensures text.NotString? ==> r == ""
    ensures forall i :: 0 <= i < |r| ==> IsKept(r[i])
    ensures text.Str? ==> |r| <= |text.s| && IsSubsequence(r, text.s)
    ensures text.Str? ==> forall c :: IsKept(c) ==> multiset(r)[c] == multiset(text.s)[c]
    ensures text.Str? && (forall i :: 0 <= i < |text.s| ==> IsKept(text.s[i])) ==> r == text.s
  {
    match text
    case NotString => ""
    case Str(s) =>
      FilterIsSubsequence(s, IsKept);
      FilterMultiset(s, IsKept);
      FilterSeq(s, IsKept)
  }

  /**
   * `re.sub(r'\d', '', ...)`: every digit is taken out, every copy of every
   * other character stays, in order.
   */
  function RemoveDigits(s: string): (r: string)
    ensures forall i :: 0 <= i < |r| ==> !IsAsciiDigit(r[i])
    ensures forall c :: !IsAsciiDigit(c) ==> multiset(r)[c] == multiset(s)[c]
    ensures IsSubsequence(r, s)
  {
    FilterIsSubsequence(s, IsNotDigit);
    FilterMultiset(s, IsNotDigit);
    FilterSeq(s, IsNotDigit)
  }

  predicate IsLetterOrSpace(c: char)
  {
    IsAsciiLetter(c) || IsSpace(c)
  }

  /** The first two cleaning steps together keep exactly the ASCII letters and whitespace. */
  lemma CleaningKeepsLettersAndSpace(s: string)
    ensures RemoveDigits(RemoveSpecialCharacters(Str(s))) == FilterSeq(s, IsLetterOrSpace)
  {
    var cleaned := RemoveSpecialCharacters(Str(s));
    assert cleaned == FilterSeq(s, IsKept);
    assert RemoveDigits(cleaned) == FilterSeq(cleaned, IsNotDigit);
    KeptThenNotDigit(s);
  }

  lemma KeptThenNotDigit(s: string)
    ensures FilterSeq(FilterSeq(s, IsKept), IsNotDigit) == FilterSeq(s, IsLetterOrSpace)
  {
    var both := x => IsKept(x) && IsNotDigit(x);
    FilterFilter(s, IsKept, IsNotDigit);
    forall c: char
      ensures both(c) == IsLetterOrSpace(c)
    {
      assert IsAsciiDigit(c) ==> !IsAsciiLetter(c) && !IsSpace(c);
    }
    FilterCongruent(s, both, IsLetterOrSpace);
  }

  // ---------------------------------------------------------------------
  // substitute_complex_phrases
  // ---------------------------------------------------------------------

  function PhraseLength(entry: (string, string)): real
  {
    |entry.0| as real
  }

  /**
   * `sorted(phrase_map.items(), key=len(phrase), reverse=True)`: the same
   * entries, longest phrase first, and phrases of equal length in table
   * order (Python's sort is stable).
   */
  function SortPhrases(phraseMap: Table): (r: Table)
    ensures multiset(r) == multiset(phraseMap)
    ensures forall i, j :: 0 <= i < j < |r| ==> |r[i].0| >= |r[j].0|
    ensures forall n :: WithKey(r, PhraseLength, n) == WithKey(phraseMap, PhraseLength, n)
  {
    var r := SortBy(phraseMap, PhraseLength, true);
    assert forall i, j :: 0 <= i < j < |r| ==> PhraseLength(r[i]) >= PhraseLength(r[j]);
    SortByStable(phraseMap, PhraseLength, true);
    r
  }

  /** The text after replacing, in order, each phrase of `phrases` by its token. */
  function ApplyPhrases(text: string, phrases: Table): string
    decreases |phrases|
  {
    if phrases == [] then text
    else
      var last := phrases[|phrases| - 1];
      ReplaceWholeWord(ApplyPhrases(text, phrases[..|phrases| - 1]), last.0, last.1)
  }

  /** What `substitute_complex_phrases(text, phrase_map)` returns. */
  function SubstitutedText(text: string, phraseMap: Table): string
  {
    ApplyPhrases(Lower(text), SortPhrases(phraseMap))
  }

  /**
   * `substitute_complex_phrases`: lowercase the text, then replace each
   * phrase, longest first, wherever it stands as a whole word.
   */
  method SubstituteComplexPhrases(text: string, phraseMap: Table) returns (textLower: string)
    ensures textLower == ApplyPhrases(Lower(text), SortPhrases(phraseMap))
  {
    textLower := Lower(text);
    var sortedPhrases := SortPhrases(phraseMap);
    for k := 0 to |sortedPhrases|
      invariant textLower == ApplyPhrases(Lower(text), sortedPhrases[..k])
    {
      assert sortedPhrases[..k + 1][..k] == sortedPhrases[..k];
      var (phrase, token) := sortedPhrases[k];
      textLower := ReplaceWholeWord(textLower, phrase, token);
    }
    assert sortedPhrases[..|sortedPhrases|] == sortedPhrases;
  }

  /**
   * A phrase that stands exactly once as a whole word in the lowercased
   * text is replaced there by its token, and nothing else changes.
   */
  lemma SubstituteSinglePhrase(text: string, phrase: string, token: string, j: nat)
    requires phrase != "" && WholeWordAt(Lower(text), phrase, j)
    requires forall k :: 0 <= k <= |text| && k != j ==> !WholeWordAt(Lower(text), phrase, k)
    ensures SubstitutedText(text, [(phrase, token)]) == Lower(text)[..j] + token + Lower(text)[j + |phrase|..]
  {
    var sorted := SortPhrases([(phrase, token)]);
    assert sorted[0] in multiset(sorted);
    assert sorted == [(phrase, token)];
    assert ApplyPhrases(Lower(text), sorted) == ReplaceWholeWord(Lower(text), phrase, token);
    ReplaceWholeWordOnce(Lower(text), phrase, token, j);
  }

  /** With no phrases configured the text only gets lowercased. */
  lemma SubstituteEmptyMap(text: string)
    ensures SubstitutedText(text, []) == Lower(text)
  {
  }

  lemma {:induction false} ApplyIdentityPhrases(text: string, phrases: Table)
    requires forall k :: 0 <= k < |phrases| ==> phrases[k].0 == phrases[k].1
    ensures ApplyPhrases(text, phrases) == text
    decreases |phrases|
  {
    if phrases != [] {
      var init := phrases[..|phrases| - 1];
      ApplyIdentityPhrases(text, init);
      ReplaceWholeWordSelf(text, phrases[|phrases| - 1].0);
    }
  }

  /** Entries that map a phrase to itself leave the lowercased text as it is. */
  lemma SubstituteIdentityMap(text: string, phraseMap: Table)
    requires forall k :: 0 <= k < |phraseMap| ==> phraseMap[k].0 == phraseMap[k].1
    ensures SubstitutedText(text, phraseMap) == Lower(text)
  {
    var sorted := SortPhrases(phraseMap);
    forall k | 0 <= k < |sorted| ensures sorted[k].0 == sorted[k].1 {
      assert sorted[k] in multiset(phraseMap);
      assert sorted[k] in phraseMap;
    }
    ApplyIdentityPhrases(Lower(text), sorted);
  }

  // ---------------------------------------------------------------------
  // detect_intent and detect_region_and_filter_query
  // ---------------------------------------------------------------------

  /** Index of the first entry, in table order, whose trigger occurs in `s`. */
  function FirstTrigger(table: Table, s: string): (r: Option<nat>)
    ensures r.Some? ==> r.value < |table| && IsSubstring(table[r.value].0, s)
    ensures r.Some? ==> forall j :: 0 <= j < r.value ==> !IsSubstring(table[j].0, s)
    ensures r.None? <==> forall j :: 0 <= j < |table| ==> !IsSubstring(table[j].0, s)
  {
    if table == [] then None
    else if IsSubstring(table[0].0, s) then Some(0)
    else
      match FirstTrigger(table[1..], s)
      case None => None
      case Some(i) => Some(i + 1)
  }

  /**
   * The pair both detectors return: the lowercased query with the first
   * matching trigger deleted and the whitespace collapsed, and that
   * trigger's code. Both directions hold: no code exactly when no trigger
   * occurs, and otherwise the code of the first trigger in table order.
   */
  function DetectTrigger(query: string, table: Table): (r: (string, Option<string>))
    ensures IsCollapsed(r.0)
    ensures r.1.None? <==> forall j :: 0 <= j < |table| ==> !IsSubstring(table[j].0, Lower(query))
    ensures r.1.None? ==> r.0 == CollapseSpaces(Lower(query))
    ensures r.1.Some? ==>
      (exists i :: 0 <= i < |table| && IsSubstring(table[i].0, Lower(query))
         && (forall j :: 0 <= j < i ==> !IsSubstring(table[j].0, Lower(query)))
         && r.1 == Some(table[i].1)
         && r.0 == CollapseSpaces(DeleteAll(Lower(query), table[i].0)))
  {
    var lower := Lower(query);
    match FirstTrigger(table, lower)
    case None =>
      CollapseSpacesCollapsed(lower);
      (CollapseSpaces(lower), None)
    case Some(i) =>
      CollapseSpacesCollapsed(DeleteAll(lower, table[i].0));
      (CollapseSpaces(DeleteAll(lower, table[i].0)), Some(table[i].1))
  }

  /** The loop both detectors run: first match in table order, then `break`. */
  method ScanTriggers(queryText: string, table: Table) returns (filtered: string, found: Option<string>)
    ensures (filtered, found) == DetectTrigger(queryText, table)
  {
    var queryTextLower := Lower(queryText);
    found := None;
    var k := 0;
    while k < |table|
      invariant k <= |table|
      invariant queryTextLower == Lower(queryText) && found.None?
      invariant forall j :: 0 <= j < k ==> !IsSubstring(table[j].0, queryTextLower)
    {
      var (term, code) := table[k];
      if IsSubstring(term, queryTextLower) {
        found := Some(code);
        queryTextLower := DeleteAll(queryTextLower, term);
        break;
      }
      k := k + 1;
    }
    filtered := CollapseSpaces(queryTextLower);
  }

  /**
   * `detect_intent`: returns `None` and the whitespace-collapsed lowercased
   * query when no trigger occurs; otherwise the code of the first trigger
   * in table order, with every occurrence of that trigger deleted.
   */
  method DetectIntent(queryText: string, intentMap: Table) returns (filtered: string, intent: Option<string>)
    ensures (filtered, intent) == DetectTrigger(queryText, intentMap)
    ensures IsCollapsed(filtered)
    ensures intent.None? <==> forall j :: 0 <= j < |intentMap| ==> !IsSubstring(intentMap[j].0, Lower(queryText))
    ensures intent.None? ==> filtered == CollapseSpaces(Lower(queryText))
    ensures intent.Some? ==>
      (exists i :: 0 <= i < |intentMap| && IsSubstring(intentMap[i].0, Lower(queryText))
         && (forall j :: 0 <= j < i ==> !IsSubstring(intentMap[j].0, Lower(queryText)))
         && intent == Some(intentMap[i].1)
         && filtered == CollapseSpaces(DeleteAll(Lower(queryText), intentMap[i].0)))
  {
    filtered, intent := ScanTriggers(queryText, intentMap);
  }

  /** `detect_region_and_filter_query`: the same contract over the region table. */
  method DetectRegionAndFilterQuery(queryText: string, regionMap: Table) returns (filtered: string, region: Option<string>)
    ensures (filtered, region) == DetectTrigger(queryText, regionMap)
    ensures IsCollapsed(filtered)
    ensures region.None? <==> forall j :: 0 <= j < |regionMap| ==> !IsSubstring(regionMap[j].0, Lower(queryText))
    ensures region.None? ==> filtered == CollapseSpaces(Lower(queryText))
    ensures region.Some? ==>
      (exists i :: 0 <= i < |regionMap| && IsSubstring(regionMap[i].0, Lower(queryText))
         && (forall j :: 0 <= j < i ==> !IsSubstring(regionMap[j].0, Lower(queryText)))
         && region == Some(regionMap[i].1)
         && filtered == CollapseSpaces(DeleteAll(Lower(queryText), regionMap[i].0)))
  {
    filtered, region := ScanTriggers(queryText, regionMap);
  }

  // ---------------------------------------------------------------------
  // full_preprocessing
  // ---------------------------------------------------------------------

  /** The whitespace-separated words of the cleaned, phrase-substituted text. */
  function Words(s: string, phraseMap: Table): seq<string>
  {
    var cleaned := RemoveDigits(RemoveSpecialCharacters(Str(s)));
    SplitWords(Lower(SubstitutedText(cleaned, phraseMap)))
  }

  function StemAll(words: seq<string>, stem: string -> string): (r: seq<string>)
    ensures |r| == |words|
    ensures forall k :: 0 <= k < |r| ==> r[k] == stem(words[k])
  {
    if words == [] then [] else [stem(words[0])] + StemAll(words[1..], stem)
  }

  predicate IsLong(w: string)
  {
    |w| > 1
  }

  /** The stems of the non-stopword words, before short stems are dropped. */
  function Stems(s: string, lex: Lexicon): seq<string>
  {
    StemAll(FilterSeq(Words(s, lex.phraseMap), w => w !in lex.stopwords), lex.stem)
  }

  /**
   * `full_preprocessing`: [] for a non-string; otherwise the stems of the
   * non-stopword words, in order, without stems of length 0 or 1. Every
   * copy of a long stem is kept, so a word that occurs twice is counted
   * twice by the term frequencies downstream.
   */
  function FullPreprocessing(text: Input, lex: Lexicon): (r: seq<string>)
    ensures text.NotString? ==> r == []
    ensures forall k :: 0 <= k < |r| ==> |r[k]| >= 2
    ensures text.Str? ==> |r| <= |Words(text.s, lex.phraseMap)|
    ensures text.Str? ==> forall t :: multiset(r)[t] == if |t| >= 2 then multiset(Stems(text.s, lex))[t] else 0
  {
    match text
    case NotString => []
    case Str(s) =>
      var kept := FilterSeq(Words(s, lex.phraseMap), w => w !in lex.stopwords);
      FilterMultiset(StemAll(kept, lex.stem), IsLong);
      FilterSeq(StemAll(kept, lex.stem), IsLong)
  }

  /** The output keeps the order of the words it comes from: it is a subsequence of the stems. */
  lemma FullPreprocessingOrder(s: string, lex: Lexicon)
    ensures IsSubsequence(FullPreprocessing(Str(s), lex), Stems(s, lex))
  {
    var kept := FilterSeq(Words(s, lex.phraseMap), w => w !in lex.stopwords);
    FilterIsSubsequence(StemAll(kept, lex.stem), IsLong);
  }

  /** Every output token is the stem of some non-stopword word of the text. */
  lemma FullPreprocessingProvenance(s: string, lex: Lexicon)
    ensures forall t <- FullPreprocessing(Str(s), lex) ::
              exists w <- Words(s, lex.phraseMap) :: w !in lex.stopwords && lex.stem(w) == t
  {
    assert FullPreprocessing(Str(s), lex) == FilterSeq(Stems(s, lex), IsLong);
    StemProvenance(s, lex);
  }

  lemma StemProvenance(s: string, lex: Lexicon)
    ensures forall t <- Stems(s, lex) ::
              exists w <- Words(s, lex.phraseMap) :: w !in lex.stopwords && lex.stem(w) == t
  {
    var words := Words(s, lex.phraseMap);
    var kept := FilterSeq(words, w => w !in lex.stopwords);
    var stems := StemAll(kept, lex.stem);
    assert stems == Stems(s, lex);
    forall t <- stems
      ensures exists w <- words :: w !in lex.stopwords && lex.stem(w) == t
    {
      var k :| 0 <= k < |stems| && stems[k] == t;
      assert kept[k] in words;
    }
  }

  /** The stem of every non-stopword word is in the output unless it is shorter than 2. */
  lemma FullPreprocessingComplete(s: string, lex: Lexicon)
    ensures forall w <- Words(s, lex.phraseMap) ::
              w !in lex.stopwords && |lex.stem(w)| >= 2 ==> lex.stem(w) in FullPreprocessing(Str(s), lex)
  {
    var words := Words(s, lex.phraseMap);
    var kept := FilterSeq(words, w => w !in lex.stopwords);
    var stems := StemAll(kept, lex.stem);
    assert FullPreprocessing(Str(s), lex) == FilterSeq(stems, IsLong);
    forall w <- words | w !in lex.stopwords && |lex.stem(w)| >= 2
      ensures lex.stem(w) in FilterSeq(stems, IsLong)
    {
      assert w in kept;
      var k :| 0 <= k < |kept| && kept[k] == w;
      assert stems[k] == lex.stem(w);
      assert IsLong(stems[k]);
    }
  }
}
