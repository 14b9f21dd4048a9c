# Camping-place search: a Dafny model of the vector-space search core

This project models the search engine behind a camping-place recommender. The engine has three parts:

- **Query understanding.** `detect_intent` and `detect_region_and_filter_query` each find one trigger phrase in the query. The trigger is taken in table order and deleted, and its code is returned. `full_preprocessing` then does the following:
  - removes special characters and digits;
  - substitutes multi-word phrases, longest first and as whole words;
  - lowercases and splits on whitespace;
  - drops stopwords, stems, and drops stems of length 0 or 1.

  `analyze_full_query` applies the fluff rule, the `kemah` fallback token and the upgrade of the intent to `ALL`.
- **Ranking.** `search_by_keyword` has two paths:
  - The listing path (`ALL`) lists every venue once, filtered by region and sorted by average rating.
  - Every other intent runs the ranking path. It builds the query vector: tf × idf for every query term with an IDF entry. It collects the documents on those terms' posting lists and scores each one by a dot product. It sorts the documents by score, keeps the best document of each venue that passes the region filter, and finally re-sorts by rating for `RATING_TOP` and `RATING_BOTTOM`.
- **Index build.** The top-level code of `utils.py`:
  - computes document frequencies, counted once per document;
  - computes the IDF table `log10(N / df)`;
  - builds one posting list per term, with postings appended at the tail in corpus order, each carrying (document id, tf × idf);
  - builds the metadata table with each venue's mean rating.

Files and modules:

| file | module | contents |
|---|---|---|
| `common.dfy` | `Common` | `Option`, Python truthiness of an optional string, the `ALL` intent code |
| `text.dfy` | `Text` | character classes, `str.lower`, `in`, `str.replace(p, '')`, `split()`/`" ".join`, `\b`-anchored replacement |
| `seqs.dfy` | `Seqs` | list comprehensions with a filter, counting, first-occurrence order of dict keys |
| `sorting.dfy` | `Sorting` | `sorted`/`list.sort` by a real key, as an insertion sort, with its permutation and order properties |
| `terms.dfy` | `Terms` | the term-frequency loop used by both the query and the index build; tf × idf |
| `preprocessing.dfy` | `Preprocessing` | `preprocessing.py` |
| `query_analysis.dfy` | `QueryAnalysis` | `analyze_full_query` |
| `inverted_index.dfy` | `InvertedIndex` | the IDF table, posting lists and metadata rows the search reads |
| `ranking.dfy` | `Ranking` | `search_by_keyword` |
| `indexing.dfy` | `Indexing` | the index build in `utils.py` |

The stemmer, the stopword set, `log10`, and the phrase, region and intent tables are parameters. A table is a sequence of pairs in the dictionary's iteration order. Methods model the loops that update dictionaries, sets and lists. The functions that specify those methods carry the properties, as lemmas.

Three details of the code that the model keeps as written:

- The code lowercases the text but not the phrase (`preprocessing.py:5-15`), so a phrase that contains an upper-case letter never matches the lowercased input. It can still match a token that an earlier, longer phrase inserted: with the table `{"kamar mandi": "KM", "KM": "wc"}`, `kamar mandi` becomes `KM` and then `wc`. `Preprocessing.SubstituteComplexPhrases` matches the phrase as it is written, against the text as it stands after the longer phrases, so it keeps this behaviour.
- The region test lowercases only the location (`mesin_pencari.py:52`, `mesin_pencari.py:124`). `Ranking.InRegion` tests the region string as given against the lowercased location, and `Ranking.RegionFilterFacts` proves that a region with an upper-case letter matches nothing.
- `sort_values` (`mesin_pencari.py:55`) uses a sort that is not stable. The listing contract (`Ranking.IsListing`) therefore promises no order among equal ratings. The Python sorts (`sorted`, `list.sort`) are stable, and `Sorting.SortByStable` proves that of the model's sort.

## Model

| member | source | states |
|---|---|---|
| Text.Lower | preprocessing.py:5 | `str.lower()` keeps the length, leaves no ASCII upper-case letter, and changes only upper-case letters, each to its lower-case partner |
| Text.IsSubstring | preprocessing.py:40 | `p in s`: the empty string and `s` itself are in `s`; nothing longer than `s` is |
| Text.DeleteAll | preprocessing.py:42 | `str.replace(p, '')` never lengthens the text; it leaves the text unchanged when `p` is empty or does not occur, and removes at least one copy of a non-empty `p` that occurs |
| Text.DeleteAllFirst | preprocessing.py:42 | with the first occurrence of a non-empty `p` at `j`: the text before `j` is kept, that occurrence is dropped, and deletion goes on after it; with `DeleteAll`'s no-occurrence case this fixes the result for every text |
| Text.SplitWords | preprocessing.py:94 | `split()` yields non-empty words without whitespace which, put back together, are exactly the text with its whitespace removed |
| Text.SplitSingleWord | preprocessing.py:94 | a text that is one word splits into exactly that word |
| Text.SplitAtSpace | preprocessing.py:94 | a whitespace character separates words: splitting `a + [c] + b` gives the words of `a` followed by the words of `b`; with `SplitSingleWord` and the empty text this fixes the split of every text |
| Text.JoinWordsCollapsed | preprocessing.py:48 | `" ".join` of split words has no leading or trailing whitespace and exactly one space between words |
| Text.CollapseSpacesCollapsed | preprocessing.py:71 | the detectors' rebuilt text is collapsed |
| Text.SplitJoin | preprocessing.py:48 | splitting a joined list of words gives the words back |
| Text.CollapseSpacesIdempotent | preprocessing.py:48 | collapsing whitespace a second time changes nothing |
| Text.ReplaceWholeWordSelf | preprocessing.py:12-15 | replacing `\bp\b` by `p` leaves the text unchanged |
| Text.ReplaceWholeWordNoMatch | preprocessing.py:12-15 | where `\bp\b` never matches, the replacement leaves the text unchanged |
| Text.ReplaceFromNextMatch | preprocessing.py:12-15 | `re.sub` scanning from any position copies the text up to the next whole-word match of a non-empty phrase, puts the token in place of the match, and resumes right after it; with the no-match case this fixes `ReplaceWholeWord` for every text |
| Text.ReplaceEmptyPhraseAroundWord | preprocessing.py:12-15 | the empty phrase gives the pattern `\b\b`, which matches at every word boundary: a text that is one run of word characters gets the token at its start and at its end |
| Text.ReplaceWholeWordOnce | preprocessing.py:12-15 | a phrase that stands exactly once as a whole word is replaced there by the token, and the rest of the text is kept |
| Seqs.FilterSeq | preprocessing.py:96 | a filtering comprehension keeps exactly the elements that pass, returns the input when all pass, and is never longer |
| Seqs.FilterIsSubsequence | preprocessing.py:101 | a filtering comprehension keeps the order of what it keeps |
| Seqs.FilterMultiset | preprocessing.py:101 | a filtering comprehension keeps every copy of each element that passes and no copy of any other |
| Seqs.Distinct | mesin_pencari.py:75-77 | the keys of a counting dict: no repeats, and exactly the elements of the input |
| Seqs.DistinctOrder | mesin_pencari.py:75-77 | the keys of a counting dict come in first-occurrence order: a key stands before another only if it occurs in the input before every occurrence of the other |
| Seqs.CountPositive | mesin_pencari.py:75-77 | a count is positive exactly for elements that occur, and at most the length |
| Sorting.SortBy | mesin_pencari.py:110 | the sort returns a permutation of its input, ordered by the key in the requested direction |
| Sorting.SortByStable | mesin_pencari.py:142 | the sort is stable: for every key value, the elements with that key come out in their input order, in either direction |
| Sorting.TiesKeepOrder | mesin_pencari.py:142-146 | a reordering that keeps each key's elements in input order (a stable sort) keeps, among elements with equal keys, the order the input had on a second key |
| Sorting.SortByOrdered | mesin_pencari.py:138-148 | sorting a list that is already in order returns it unchanged |
| Sorting.SortByPairwise | mesin_pencari.py:138-148 | sorting keeps any relation that held between all pairs of positions, such as distinct names |
| Terms.TermFrequencies | mesin_pencari.py:75-77 | keys are exactly the tokens, each mapped to its positive occurrence count |
| Preprocessing.RemoveSpecialCharacters | preprocessing.py:77-81 | "" for a non-string; otherwise a subsequence of the input made only of characters of `[a-zA-Z0-9\s]`, holding every copy of each such character |
| Preprocessing.RemoveDigits | preprocessing.py:89 | `re.sub(r'\d', '', ...)` leaves no digit, keeps every copy of every other character, in order |
| Preprocessing.CleaningKeepsLettersAndSpace | preprocessing.py:88-89 | the two cleaning steps together keep exactly the ASCII letters and whitespace, in order |
| Preprocessing.SortPhrases | preprocessing.py:7 | the phrase table sorted longest phrase first is a permutation of the table, with phrases of equal length in table order |
| Preprocessing.SubstituteComplexPhrases | preprocessing.py:2-21 | the loop's result is the lowercased text run through `ReplaceWholeWord` for each phrase, longest phrase first; what one replacement does is fixed by `Text.ReplaceFromNextMatch` and `Text.ReplaceWholeWordNoMatch` |
| Preprocessing.SubstituteSinglePhrase | preprocessing.py:2-21 | with one phrase that stands once as a whole word in the lowercased text, the result is that text with the phrase replaced by its token there and nothing else changed |
| Preprocessing.SubstituteEmptyMap | preprocessing.py:2-21 | with no phrases the result is the lowercased input |
| Preprocessing.ApplyIdentityPhrases | preprocessing.py:9-15 | phrases that map to themselves leave the text unchanged |
| Preprocessing.SubstituteIdentityMap | preprocessing.py:2-21 | with only self-mapping phrases the result is the lowercased input |
| Preprocessing.FirstTrigger | preprocessing.py:39-44 | finds the first table entry whose key is a substring of the text, or reports that none is |
| Preprocessing.DetectTrigger | preprocessing.py:35-50 | both directions of the detector contract: no code iff no key occurs (then the text is only collapsed); otherwise the first matching key's code, with every copy of that key deleted; the text is collapsed |
| Preprocessing.ScanTriggers | preprocessing.py:39-48 | the scan-and-break loop computes the detector's result |
| Preprocessing.DetectIntent | preprocessing.py:55-73 | `detect_intent` meets the detector contract over the intent table; at most one intent |
| Preprocessing.DetectRegionAndFilterQuery | preprocessing.py:29-50 | `detect_region_and_filter_query` meets the same contract over the region table |
| Preprocessing.StemAll | preprocessing.py:99 | one stem per word, position by position |
| Preprocessing.FullPreprocessing | preprocessing.py:84-102 | [] for a non-string; every token has length at least 2; no more tokens than words; each string of length at least 2 occurs in the output exactly as often as among the stems of the non-stopword words, and no shorter string occurs |
| Preprocessing.FullPreprocessingOrder | preprocessing.py:91-101 | the output is a subsequence of the stems of the non-stopword words |
| Preprocessing.FullPreprocessingProvenance | preprocessing.py:91-101 | every output token is the stem of a non-stopword word of the text |
| Preprocessing.FullPreprocessingComplete | preprocessing.py:91-101 | the stem of every non-stopword word with length at least 2 is in the output |
| QueryAnalysis.ApplyQueryRules | mesin_pencari.py:17-34 | the result follows the rules (`QueryAnalysis.FollowsQueryRules`): the region passes through; all-fluff tokens with a region become `['kemah']`; empty tokens with an intent or region become `['kemah']`; otherwise the tokens are unchanged; there are no tokens only when there was nothing at all; tokens are non-empty whenever an intent or region is present; every token is an input token or `kemah`; a detected intent is never changed; the intent becomes `ALL` exactly when none was detected, a region was, and every token was fluff |
| QueryAnalysis.AnalyzeFullQuery | mesin_pencari.py:1-36 | the same rules hold between the codes the two detectors find, the preprocessed tokens of the text they leave, and the result; every result token has length at least 2 |
| InvertedIndex.MetaLookup | mesin_pencari.py:117-120 | `.loc[d]` finds a row with id `d`, or fails exactly when no row has that id |
| Ranking.RegionFilterFacts | mesin_pencari.py:50-52 | no region (or "") lets every location through; the case of the location does not matter; a region with an upper-case letter matches no location |
| Ranking.DistinctNamesAfterSort | mesin_pencari.py:138-148 | re-sorting keeps venue names distinct |
| Ranking.ListingDistinct | mesin_pencari.py:47 | the listing has one record per venue, and only venues of the metadata |
| Ranking.ListingProvenance | mesin_pencari.py:47-65 | every listing record is the first row of its venue, passes the region filter, and has score 0.0 |
| Ranking.ListingCovers | mesin_pencari.py:47-65 | every venue whose first row passes the region filter is listed |
| Ranking.ListAllVenues | mesin_pencari.py:44-68 | the listing path returns the listed records sorted by average rating, highest first |
| Ranking.ListingResult | mesin_pencari.py:44-68 | the listing output is a listing: distinct names, non-increasing average rating, each record from a region-matching venue with score 0.0, every such venue present |
| Ranking.KnownTermsSnoc | mesin_pencari.py:82-92 | the terms weighed are the query terms with an IDF entry, in query order: one more term is kept exactly when it has an entry (membership both ways comes from `Seqs.FilterSeq`) |
| Ranking.KnownTermsNone | mesin_pencari.py:82-92 | terms without IDF entries are all skipped |
| Ranking.WeightMapFacts | mesin_pencari.py:82-84 | `query_weights` has exactly the weighed terms as keys, each mapped to count × idf |
| Ranking.ScaledWeightProduct | mesin_pencari.py:102-107 | a term adds query weight × the document's posting weight |
| Ranking.UnknownQueryInvolvesNothing | mesin_pencari.py:82-95 | a query with no token in the IDF table weighs nothing and involves no document, so the search returns [] |
| Ranking.InvolvedOverContains | mesin_pencari.py:86-90 | every document on a weighed term's list is involved |
| Ranking.CollectDocs | mesin_pencari.py:87-90 | walking a list adds exactly its documents to the set |
| Ranking.QueryVector | mesin_pencari.py:75-92 | the query weights and the involved documents equal their specifications |
| Ranking.WeighQueryTerms | mesin_pencari.py:79-92 | the loop over `query_tf` weighs exactly the known terms, in key order |
| Ranking.WeighTerm | mesin_pencari.py:83-90 | one known term adds its weight and its documents |
| Ranking.AddPostingWeights | mesin_pencari.py:101-107 | walking one list adds posting weight × query weight to each of its documents and leaves the keys unchanged |
| Ranking.DotProductScores | mesin_pencari.py:97-107 | each involved document's score is the sum over weighed terms of (count × idf) × posting weight |
| Ranking.ScoreItems | mesin_pencari.py:110 | `doc_scores.items()` lists exactly the (document, score) pairs, each document once |
| Ranking.ScoreOutsideInvolved | mesin_pencari.py:94-107 | a document that is not involved scores 0 |
| Ranking.AggregateByVenue | mesin_pencari.py:112-136 | the loop with `unique_names` computes the aggregation |
| Ranking.AggregateDistinct | mesin_pencari.py:127-130 | aggregated venue names are distinct |
| Ranking.AggregateProvenance | mesin_pencari.py:116-136 | every record comes from a ranked document with metadata that passes the region filter, carrying that document's score |
| Ranking.AggregateCovers | mesin_pencari.py:116-136 | every surviving document's venue has a record |
| Ranking.AggregateOrdered | mesin_pencari.py:110-136 | records come out in non-increasing score order |
| Ranking.AggregateKeepsBest | mesin_pencari.py:110-136 | each venue's record scores at least as high as every surviving document of that venue |
| Ranking.AggregateResult | mesin_pencari.py:110-136 | sorted score items aggregate to a ranking result in score order |
| Ranking.RankingAfterSort | mesin_pencari.py:138-148 | re-sorting a ranking result on any key keeps it a ranking result |
| Ranking.ApplyIntentSort | mesin_pencari.py:138-148 | the result is a permutation of the records: sorted by rating for `RATING_TOP` (descending) and `RATING_BOTTOM` (ascending), otherwise unchanged; records of equal rating keep their incoming order, so records that arrive in descending score order have equal ratings in descending score order afterwards (`TiesInScoreOrder`) |
| Ranking.SearchByKeyword | mesin_pencari.py:39-148 | `ALL`: a listing. Otherwise: distinct names, each record the best surviving document of its venue, every surviving involved document represented; [] when nothing is involved; order by rating for the rating intents, with equal ratings kept in descending score order, and by score otherwise |
| Indexing.Documents | utils.py:33-34 | one token list per corpus row, same ids, every token of length at least 2 |
| Indexing.DocFreqBounds | utils.py:36-45 | a document frequency is at most N, and positive exactly for the words that occur |
| Indexing.CountDocumentFrequencies | utils.py:39-41 | `df_counts` has exactly the occurring words as keys, each mapped to its number of containing documents |
| Indexing.ComputeIdf | utils.py:43-45 | the IDF table has the counted words as keys, each mapped to `log10(N / df)` |
| Indexing.InitPostingLists | utils.py:48-53 | one empty list per counted word |
| Indexing.AppendPosting | utils.py:66-70 | a tail append adds one posting at the end of one list; earlier postings and other lists are unchanged |
| Indexing.IndexDocument | utils.py:59-70 | each distinct term of a document gets that document's posting at the tail of its list |
| Indexing.IndexPostings | utils.py:55-70 | after the scan, each list holds the postings of the documents containing the term, in corpus order |
| Indexing.PostingsCountIsDocFreq | utils.py:39-70 | a list has as many postings as its term's document frequency |
| Indexing.PostingsAreContainingDocs | utils.py:55-70 | a posting is in the list exactly when it belongs to a document containing the term, with weight count × idf |
| Indexing.PostingsOncePerDoc | utils.py:55-70 | with distinct ids, no document appears twice in a list |
| Indexing.EveryVenueCounted | utils.py:74 | every venue in the corpus has at least one row |
| Indexing.Metadata | utils.py:73-77 | one row per corpus row with its fields; rows of the same venue carry the same average, which is the mean of that venue's ratings |
| Indexing.RatingSumWithin | utils.py:74 | with every rating of a venue in [lo, hi], the sum lies between lo and hi summed per row |
| Indexing.AverageWithin | utils.py:74-76 | a venue's average lies between its lowest and highest rating |
| Indexing.BuildIndex | utils.py:31-77 | the IDF table has exactly the occurring words, with 1 ≤ df ≤ N and `log10(N / df)`; every indexed term has a list of its expected postings; metadata is the merged table |

## Left out

- Text.Lower: `str.lower` is modelled on ASCII letters only. Other characters are left unchanged.
- Text.IsWordChar: `\b` is modelled with ASCII word characters, while Python's `\w` also takes non-ASCII letters and digits. Inside `full_preprocessing` the cleaned text holds only ASCII letters and whitespace (Unicode whitespace such as U+00A0 survives cleaning, and neither side counts it as a word character), so the two agree there. Tokens inserted by earlier phrases can hold any character, so the model is exact when the phrases and tokens of the table are made of ASCII characters.
- Input decoding, Unicode normalisation and the Unicode classes of `\w` and `\d` are not modelled. Strings are sequences of characters. `\d` matches every Unicode decimal digit, and `Preprocessing.RemoveDigits` removes ASCII digits only. At `preprocessing.py:89` the two agree, because cleaning has already removed every character other than ASCII letters, ASCII digits and whitespace.
- Preprocessing.SubstituteComplexPhrases: the `re.error` fallback (`preprocessing.py:17-19`) is not modelled, and the token is inserted literally. `re.sub` reads `str(token)` as a replacement template: a token holding `\n` inserts a newline, and one holding a bad escape or group reference such as `\d` or `\1` raises `re.error`, after which the code replaces every plain occurrence of the phrase, word boundaries or not. The model is exact for tokens without backslashes.
- Ranking.InRegion: pandas `str.contains` (`mesin_pencari.py:52`) is a regular-expression search. It is modelled as a plain substring test, which is the same for region codes without pattern characters.
- Ranking.ListAllVenues: `drop_duplicates` then `sort_values` is modelled by an insertion sort. The listing contract, `Ranking.IsListing`, promises no order among equal ratings, because pandas does not.
- Ranking.ScoreItems: the order of `doc_scores.items()` comes from set iteration. It is a nondeterministic choice in the model, and no tie order among equal scores is promised.
- Indexing.CountDocumentFrequencies, Indexing.ComputeIdf and Indexing.InitPostingLists: they iterate sets and dictionaries in arbitrary order, which the model chooses nondeterministically. The results do not depend on that order.
- Posting lists: `Node`/`SlinkedList` (`preprocessing.py:105-113`) are modelled as sequences of postings without the sentinel head node. The search never reads the head as a posting. The walk to the tail and the mutation of `nextval` are modelled as an append to the term's sequence. Aliasing between nodes is not modelled.
- Indexing.PostingsOncePerDoc: it needs distinct `Doc_ID`s, which the corpus is assumed to have.
- InvertedIndex.MetaLookup: it takes the first row with id `d`. With a repeated `Doc_ID`, `.loc[d]` returns several rows, and `meta['Lokasi'].lower()` or `name not in unique_names` then raises (`mesin_pencari.py:118-129`); the model does not fail there.
- Missing `Nama_Tempat`, `Lokasi` or `Rating` cells are not modelled: `Indexing.CorpusRow` and `InvertedIndex.MetaRow` always hold a name, a location and a rating, while the code fills only `Teks_Mentah` (`utils.py:33`). On a missing cell the code behaves in three ways the model does not:
  - a venue with no location is left out of a region-filtered listing (`str.contains(..., na=False)`, `mesin_pencari.py:52`);
  - in the ranking path, `meta['Lokasi'].lower()` (`mesin_pencari.py:124`) raises `AttributeError` on a missing location, which the `except KeyError` at `mesin_pencari.py:119` does not catch, so a region-filtered search that ranks such a document fails where the model returns records;
  - `groupby('Nama_Tempat')['Rating'].mean()` (`utils.py:74`) skips missing ratings and drops rows with no name, whose `Avg_Rating` is then NaN after the left merge (`utils.py:76`), while `Indexing.RatingSum` and `Indexing.RowCount` count every row.
- Floating point: ratings, IDF values, weights and scores are mathematical reals. Rounding is not modelled. `log10` is a parameter.
- The stemmer and the stopword set are parameters. Nothing is assumed about them.
- Configuration tables (the `Table` type of `Preprocessing`): a table stands for `dict.items()` and is not required to have distinct keys. A dict built with a repeated key keeps one entry, at the first key's position with the last value; given such a table the model would use each entry instead, so `FirstTrigger` would find the first value and `SortPhrases` would keep both entries. Tables read from a dict have distinct keys, where the two agree.
- `load_map_from_csv`, `log_pencarian`, CSV, file and console I/O, and the Streamlit and Flask front ends are not part of this model.
- Indexing.Documents: a `Teks_Mentah` cell is text, a non-string value or missing. `fillna('')` turns a missing cell into "", and a non-string value takes the `NotString` case of `full_preprocessing`. Which non-string values pandas can hold there is not modelled.
- pandas `groupby`, `merge` and `set_index` are modelled by their result: one metadata row per corpus row, carrying its venue's mean rating.
