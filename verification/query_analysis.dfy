/**
 * `analyze_full_query` (mesin_pencari.py): intent detection, region
 * detection, normalisation, then the fluff, fallback and intent-upgrade
 * rules that turn the pieces into (tokens, intent, region).
 */
module QueryAnalysis {
  import opened Common
  import opened Text
  import opened Preprocessing

  /** The triple `analyze_full_query` returns. */
  datatype Analysis = Analysis(tokens: seq<string>, intent: Option<string>, region: Option<string>)

  /** Generic request words, already in stemmed form, that carry no topic. */
  const FluffWords: set<string> := {"cari", "tampil", "lihat", "berikan", "saran", "rekomendasikan"}

  /** The default topical token used when a query has only directives. */
  const FallbackToken: string := "kemah"

  /** The text left for the vector-space search and the two detected codes. */
  function Detected(queryText: string, lex: Lexicon): (string, Option<string>, Option<string>)
  {
    var (queryAfterIntent, specialIntent) := DetectTrigger(queryText, lex.intentMap);
    var (finalVsmText, regionFilter) := DetectTrigger(queryAfterIntent, lex.regionMap);
    (finalVsmText, specialIntent, regionFilter)
  }

  /** The tokens produced from the text that is left after both detectors. */
  function DetectedTokens(queryText: string, lex: Lexicon): seq<string>
  {
    FullPreprocessing(Str(Detected(queryText, lex).0), lex)
  }

  predicate AllFluff(tokens: seq<string>)
  {
    forall t <- tokens :: t in FluffWords
  }

  /**
   * The rules `analyze_full_query` applies to the preprocessed tokens and
   * the two detected codes, as a relation between them and the triple `a`
   * it returns:
   *  - the region is passed through unchanged;
   *  - with a region, tokens made only of fluff words are replaced by the
   *    fallback token, and so is an empty token list when an intent or a
   *    region is present; otherwise the tokens are returned as they are;
   *  - the result has tokens whenever it has an intent or a region, and
   *    none only when there was nothing at all;
   *  - no token is made up except the fallback token;
   *  - a detected intent is never changed; a missing one becomes "ALL"
   *    exactly when a region is present and every token was fluff.
   * Presence follows Python truthiness (`Truthy`).
   */
  predicate FollowsQueryRules(tokens: seq<string>, intent: Option<string>, region: Option<string>, a: Analysis)
  {
    && a.region == region
    && (Truthy(region) && AllFluff(tokens) ==> a.tokens == [FallbackToken])
    && (!Truthy(region) ==> a.tokens == if tokens == [] && Truthy(intent) then [FallbackToken] else tokens)
    && (Truthy(region) && !AllFluff(tokens) ==> a.tokens == tokens)
    && (a.tokens == [] <==> tokens == [] && !Truthy(intent) && !Truthy(region))
    && (Truthy(a.intent) || Truthy(a.region) ==> a.tokens != [])
    && (forall t <- a.tokens :: t in tokens || t == FallbackToken)
    && (Truthy(intent) ==> a.intent == intent)
    && (a.intent != intent <==> !Truthy(intent) && Truthy(region) && AllFluff(tokens))
    && (a.intent != intent ==> a.intent == Some(ListAllIntent))
  }

  /** The rules themselves, as `analyze_full_query` applies them after preprocessing. */
  function ApplyQueryRules(tokens: seq<string>, intent: Option<string>, region: Option<string>): (a: Analysis)
    ensures FollowsQueryRules(tokens, intent, region, a)
  {
    var vsmTokens := if Truthy(region) && tokens != [] && AllFluff(tokens) then [] else tokens;
    if vsmTokens == [] && (Truthy(intent) || Truthy(region)) then
      var intent' := if !Truthy(intent) && Truthy(region) then Some(ListAllIntent) else intent;
      Analysis([FallbackToken], intent', region)
    else
      Analysis(vsmTokens, intent, region)
  }

  /**
   * `analyze_full_query`: intent detection, then region detection on what
   * is left, then `full_preprocessing`, then the rules above, which hold
   * between the detected codes and tokens and the result. Every token of
   * the result is at least two characters long.
   */
  function AnalyzeFullQuery(queryText: string, lex: Lexicon): (a: Analysis)
    ensures var (_, intent, region) := Detected(queryText, lex);
      FollowsQueryRules(DetectedTokens(queryText, lex), intent, region, a)
    ensures forall t <- a.tokens :: |t| >= 2
  {
    var (finalVsmText, specialIntent, regionFilter) := Detected(queryText, lex);
    var vsmTokens := FullPreprocessing(Str(finalVsmText), lex);
    ApplyQueryRules(vsmTokens, specialIntent, regionFilter)
  }
}
