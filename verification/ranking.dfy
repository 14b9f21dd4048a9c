/**
 * `search_by_keyword` (mesin_pencari.py): the listing path for intent
 * "ALL", and the ranking path — query vector, dot-product scores over the
 * posting lists, best document per venue, and the rating re-sort.
 */
module Ranking {
  import opened Common
  import opened Text
  import opened Seqs
  import opened Sorting
  import opened Terms
  import opened InvertedIndex

  /** One result: name, location, avg_rating and top_vsm_score. */
  datatype Record = Record(name: string, location: string, avgRating: real, topScore: real)

  const RatingTopIntent: string := "RATING_TOP"
  const RatingBottomIntent: string := "RATING_BOTTOM"

  function AvgRatingOf(r: Record): real
  {
    r.avgRating
  }

  function TopScoreOf(r: Record): real
  {
    r.topScore
  }

  /** The sort key of a (doc_id, score) item. */
  function ItemScore(item: (int, real)): real
  {
    item.1
  }

  /** The region filter: no region, or the lowercased location contains it. */
  predicate InRegion(region: Option<string>, location: string)
  {
    !Truthy(region) || IsSubstring(region.value, Lower(location))
  }

  /**
   * What the filter lets through: everything when no region (or "") is
   * given; otherwise the test ignores the case of the location, but not
   * that of the region, so a region with an upper-case letter matches no
   * location at all.
   */
  lemma RegionFilterFacts(region: Option<string>, location: string)
    ensures !Truthy(region) ==> InRegion(region, location)
    ensures InRegion(region, location) == InRegion(region, Lower(location))
    ensures Truthy(region) && (exists k :: 0 <= k < |region.value| && 'A' <= region.value[k] <= 'Z')
      ==> !InRegion(region, location)
  {
    assert Lower(Lower(location)) == Lower(location);
    if Truthy(region) && InRegion(region, location) {
      var p, lower := region.value, Lower(location);
      var i :| 0 <= i <= |lower| && OccursAt(p, lower, i);
      forall k | 0 <= k < |p|
        ensures !('A' <= p[k] <= 'Z')
      {
        assert p[k] == lower[i..i + |p|][k] == lower[i + k];
      }
    }
  }

  predicate DistinctNames(recs: seq<Record>)
  {
    forall i, j :: 0 <= i < j < |recs| ==> recs[i].name != recs[j].name
  }

  function Names(recs: seq<Record>): set<string>
  {
    set r <- recs :: r.name
  }

  lemma DistinctNamesAfterSort(recs: seq<Record>, key: Record -> real, descending: bool)
    requires DistinctNames(recs)
    ensures DistinctNames(SortBy(recs, key, descending))
  {
    var rel := (a: Record, b: Record) => a.name != b.name;
    forall i, j | 0 <= i < |recs| && 0 <= j < |recs| && i != j
      ensures rel(recs[i], recs[j])
    {
      if i > j {
        assert recs[j].name != recs[i].name;
      }
    }
    SortByPairwise(recs, key, descending, rel);
  }

  // ---------------------------------------------------------------------
  // Listing path (special_intent == 'ALL')
  // ---------------------------------------------------------------------

  function RowNames(metadata: seq<MetaRow>): set<string>
  {
    set row <- metadata :: row.name
  }

  /** Row `i` is the first row of its venue: the one `drop_duplicates` keeps. */
  predicate IsFirstOfVenue(metadata: seq<MetaRow>, i: nat)
    requires i < |metadata|
  {
    metadata[i].name !in RowNames(metadata[..i])
  }

  /** The listing record of a metadata row: its venue, location and average, score 0.0. */
  function VenueRecord(row: MetaRow): Record
  {
    Record(row.name, row.location, row.avgRating, 0.0)
  }

  /** `r` is the listing record of row `i`, a first row whose location matches the region. */
  predicate ListedFrom(r: Record, metadata: seq<MetaRow>, i: nat, region: Option<string>)
    requires i < |metadata|
  {
    IsFirstOfVenue(metadata, i) && InRegion(region, metadata[i].location) && r == VenueRecord(metadata[i])
  }

  /** The first row of each venue, kept when it passes the region filter, in row order. */
  function ListingRecords(metadata: seq<MetaRow>, region: Option<string>): seq<Record>
  {
    if metadata == [] then []
    else
      var init := metadata[..|metadata| - 1];
      var row := metadata[|metadata| - 1];
      var prev := ListingRecords(init, region);
      if row.name !in RowNames(init) && InRegion(region, row.location) then prev + [VenueRecord(row)]
      else prev
  }

  lemma FirstOfVenuePrefix(metadata: seq<MetaRow>, n: nat, i: nat)
    requires i < n <= |metadata|
    ensures IsFirstOfVenue(metadata[..n], i) == IsFirstOfVenue(metadata, i)
  {
    assert metadata[..n][..i] == metadata[..i];
  }

  /** One listing record per venue, and only venues of the metadata. */
  lemma {:induction false} ListingDistinct(metadata: seq<MetaRow>, region: Option<string>)
    ensures DistinctNames(ListingRecords(metadata, region))
    ensures Names(ListingRecords(metadata, region)) <= RowNames(metadata)
  {
    if metadata != [] {
      var n := |metadata| - 1;
      var init := metadata[..n];
      var row := metadata[n];
      ListingDistinct(init, region);
      assert metadata == init + [row];
      var prev := ListingRecords(init, region);
      var recs := ListingRecords(metadata, region);
      assert RowNames(metadata) == RowNames(init) + {row.name};
      if row.name !in RowNames(init) && InRegion(region, row.location) {
        assert recs == prev + [VenueRecord(row)];
        assert Names(recs) == Names(prev) + {row.name};
        forall i, j | 0 <= i < j < |recs| ensures recs[i].name != recs[j].name {
          assert recs[i] == prev[i];
          if j < |prev| {
            assert recs[j] == prev[j];
          } else {
            assert prev[i].name in Names(prev);
          }
        }
      }
    }
  }

  /** Every listing record is the record of a region-matching first row. */
  lemma {:induction false} ListingProvenance(metadata: seq<MetaRow>, region: Option<string>)
    ensures forall r <- ListingRecords(metadata, region) ::
      exists i :: 0 <= i < |metadata| && ListedFrom(r, metadata, i, region)
  {
    if metadata != [] {
      var n := |metadata| - 1;
      var init := metadata[..n];
      ListingProvenance(init, region);
      forall r <- ListingRecords(metadata, region)
        ensures exists i :: 0 <= i < |metadata| && ListedFrom(r, metadata, i, region)
      {
        if r in ListingRecords(init, region) {
          var i :| 0 <= i < n && ListedFrom(r, init, i, region);
          FirstOfVenuePrefix(metadata, n, i);
          assert ListedFrom(r, metadata, i, region);
        } else {
          assert metadata[..n] == init;
          assert ListedFrom(r, metadata, n, region);
        }
      }
    }
  }

  /** Every region-matching first row has its record in the listing. */
  lemma {:induction false} ListingCovers(metadata: seq<MetaRow>, region: Option<string>)
    ensures forall i :: 0 <= i < |metadata| && IsFirstOfVenue(metadata, i) && InRegion(region, metadata[i].location)
              ==> VenueRecord(metadata[i]) in ListingRecords(metadata, region)
  {
    if metadata != [] {
      var n := |metadata| - 1;
      var init := metadata[..n];
      ListingCovers(init, region);
      forall i | 0 <= i < n && IsFirstOfVenue(metadata, i) && InRegion(region, metadata[i].location)
        ensures VenueRecord(metadata[i]) in ListingRecords(metadata, region)
      {
        FirstOfVenuePrefix(metadata, n, i);
        assert init[i] == metadata[i];
      }
    }
  }

  /**
   * The listing path: every venue once (its first row), kept when its
   * lowercased location contains the region, highest average rating first,
   * each with top_vsm_score 0.0.
   */
  method ListAllVenues(metadata: seq<MetaRow>, regionFilter: Option<string>) returns (finalRecommendations: seq<Record>)
    ensures finalRecommendations == SortBy(ListingRecords(metadata, regionFilter), AvgRatingOf, true)
  {
    var seenNames: set<string> := {};
    var uniquePlaces: seq<Record> := [];
    for i := 0 to |metadata|
      invariant seenNames == RowNames(metadata[..i])
      invariant uniquePlaces == ListingRecords(metadata[..i], regionFilter)
    {
      var row := metadata[i];
      assert metadata[..i + 1][..i] == metadata[..i];
      assert RowNames(metadata[..i + 1]) == RowNames(metadata[..i]) + {row.name};
      if row.name !in seenNames {
        seenNames := seenNames + {row.name};
        if !Truthy(regionFilter) || IsSubstring(regionFilter.value, Lower(row.location)) {
          uniquePlaces := uniquePlaces + [VenueRecord(row)];
        }
      }
    }
    assert metadata[..|metadata|] == metadata;
    finalRecommendations := SortBy(uniquePlaces, AvgRatingOf, true);
  }

  // ---------------------------------------------------------------------
  // Query vector and dot-product scores
  // ---------------------------------------------------------------------

  /** The test `t in idf` of line 82, as a function value for `FilterSeq`. */
  function HasIdf(idf: map<string, real>): string -> bool
  {
    t => t in idf
  }

  /** The terms of `terms` that have an IDF entry, in order. */
  function KnownTerms(terms: seq<string>, idf: map<string, real>): seq<string>
  {
    FilterSeq(terms, HasIdf(idf))
  }

  /** Terms none of which has an IDF entry keep nothing. */
  lemma {:induction false} KnownTermsNone(terms: seq<string>, idf: map<string, real>)
    requires forall t <- terms :: t !in idf
    ensures KnownTerms(terms, idf) == []
  {
    if terms != [] {
      KnownTermsNone(terms[1..], idf);
    }
  }

  /** Scanning one more term keeps it exactly when it has an IDF entry. */
  lemma KnownTermsSnoc(init: seq<string>, t: string, idf: map<string, real>)
    ensures KnownTerms(init + [t], idf) == KnownTerms(init, idf) + (if t in idf then [t] else [])
  {
    FilterAppend(init, [t], HasIdf(idf));
    assert [t][1..] == [];
  }

  /** The keys of `query_weights`: distinct query terms with an IDF entry, in first-occurrence order. */
  function WeightedTerms(tokens: seq<string>, idf: map<string, real>): seq<string>
  {
    KnownTerms(Distinct(tokens), idf)
  }

  /** `query_weights[t]`: count of `t` in the query times its IDF. */
  function QueryWeight(tokens: seq<string>, idf: map<string, real>, t: string): real
    requires t in idf
  {
    TfIdf(Count(tokens, t), idf[t])
  }

  /**
   * What the postings of `ps` add to document `d`'s score when the term's
   * query weight is `wq`: each posting for `d` adds its weight times `wq`.
   */
  function ScaledWeight(ps: seq<Posting>, wq: real, d: int): real
  {
    if ps == [] then 0.0
    else
      var p := ps[|ps| - 1];
      ScaledWeight(ps[..|ps| - 1], wq, d) + (if p.doc == d then p.weight * wq else 0.0)
  }

  /** The contribution of one term is its query weight times the document's posting weight. */
  lemma {:induction false} ScaledWeightProduct(ps: seq<Posting>, wq: real, d: int)
    ensures ScaledWeight(ps, wq, d) == wq * PostingWeight(ps, d)
  {
    if ps != [] {
      ScaledWeightProduct(ps[..|ps| - 1], wq, d);
    }
  }

  /** `query_weights` once the terms of `terms` have been weighed. */
  function WeightMap(terms: seq<string>, tokens: seq<string>, idf: map<string, real>): map<string, real>
    requires forall t <- terms :: t in idf
  {
    if terms == [] then map[]
    else
      var t := terms[|terms| - 1];
      WeightMap(terms[..|terms| - 1], tokens, idf)[t := QueryWeight(tokens, idf, t)]
  }

  /** The weighed terms are exactly the keys, each mapped to its query weight. */
  lemma {:induction false} WeightMapFacts(terms: seq<string>, tokens: seq<string>, idf: map<string, real>)
    requires forall t <- terms :: t in idf
    ensures forall t :: t in WeightMap(terms, tokens, idf) <==> t in terms
    ensures forall t :: t in WeightMap(terms, tokens, idf) ==> WeightMap(terms, tokens, idf)[t] == QueryWeight(tokens, idf, t)
  {
    if terms != [] {
      var t := terms[|terms| - 1];
      WeightMapFacts(terms[..|terms| - 1], tokens, idf);
      assert terms == terms[..|terms| - 1] + [t];
    }
  }

  /** Sum over `terms` of query weight times the document's posting weight. */
  function DotProduct(terms: seq<string>, tokens: seq<string>, idx: SearchIndex, d: int): real
    requires forall t <- terms :: t in idx.idf && t in idx.postings
  {
    if terms == [] then 0.0
    else
      var t := terms[|terms| - 1];
      DotProduct(terms[..|terms| - 1], tokens, idx, d) + ScaledWeight(idx.postings[t], QueryWeight(tokens, idx.idf, t), d)
  }

  /** The score of document `d` for the query. */
  function Score(tokens: seq<string>, idx: SearchIndex, d: int): real
    requires Consistent(idx)
  {
    DotProduct(WeightedTerms(tokens, idx.idf), tokens, idx, d)
  }

  function InvolvedOver(terms: seq<string>, idx: SearchIndex): set<int>
    requires forall t <- terms :: t in idx.postings
  {
    if terms == [] then {}
    else InvolvedOver(terms[..|terms| - 1], idx) + DocsIn(idx.postings[terms[|terms| - 1]])
  }

  /** `involved_docs`: every document with a posting under a weighted query term. */
  function InvolvedDocs(tokens: seq<string>, idx: SearchIndex): set<int>
    requires Consistent(idx)
  {
    InvolvedOver(WeightedTerms(tokens, idx.idf), idx)
  }

  /** A query none of whose tokens has an IDF entry weights no term and involves no document. */
  lemma UnknownQueryInvolvesNothing(tokens: seq<string>, idx: SearchIndex)
    requires Consistent(idx)
    requires forall t <- tokens :: t !in idx.idf
    ensures WeightedTerms(tokens, idx.idf) == []
    ensures InvolvedDocs(tokens, idx) == {}
  {
    KnownTermsNone(Distinct(tokens), idx.idf);
  }

  lemma {:induction false} InvolvedOverContains(terms: seq<string>, idx: SearchIndex, k: nat)
    requires forall t <- terms :: t in idx.postings
    requires k < |terms|
    ensures DocsIn(idx.postings[terms[k]]) <= InvolvedOver(terms, idx)
  {
    if k < |terms| - 1 {
      var init := terms[..|terms| - 1];
      assert init[k] == terms[k];
      InvolvedOverContains(init, idx, k);
    }
  }

  /** Lines 87-90: walk a posting list and add each document to the set. */
  method CollectDocs(postingList: seq<Posting>, docs: set<int>) returns (involved: set<int>)
    ensures involved == docs + DocsIn(postingList)
  {
    involved := docs;
    var j := 0;
    while j < |postingList|
      invariant j <= |postingList|
      invariant involved == docs + DocsIn(postingList[..j])
    {
      assert postingList[..j + 1][..j] == postingList[..j];
      involved := involved + {postingList[j].doc};
      j := j + 1;
    }
    assert postingList[..|postingList|] == postingList;
  }

  /**
   * Lines 75-92: count the query terms, give each term with an IDF entry
   * the weight tf × idf (skipping the others), and collect every document
   * on those terms' posting lists.
   */
  method QueryVector(queryTokens: seq<string>, idx: SearchIndex)
    returns (queryWeights: map<string, real>, weightOrder: seq<string>, involvedDocs: set<int>)
    requires Consistent(idx)
    ensures weightOrder == WeightedTerms(queryTokens, idx.idf)
    ensures queryWeights == WeightMap(weightOrder, queryTokens, idx.idf)
    ensures involvedDocs == InvolvedDocs(queryTokens, idx)
  {
    var queryTf, tfOrder := TermFrequencies(queryTokens);
    queryWeights, weightOrder, involvedDocs := WeighQueryTerms(tfOrder, queryTf, queryTokens, idx);
  }

  /** Lines 79-92: the loop over `query_tf.items()`, in key order. */
  method WeighQueryTerms(tfOrder: seq<string>, queryTf: map<string, nat>, queryTokens: seq<string>, idx: SearchIndex)
    returns (queryWeights: map<string, real>, weightOrder: seq<string>, involvedDocs: set<int>)
    requires Consistent(idx)
    requires forall t <- tfOrder :: t in queryTf && queryTf[t] == Count(queryTokens, t)
    ensures weightOrder == KnownTerms(tfOrder, idx.idf)
    ensures queryWeights == WeightMap(weightOrder, queryTokens, idx.idf)
    ensures involvedDocs == InvolvedOver(weightOrder, idx)
  {
    queryWeights, weightOrder, involvedDocs := map[], [], {};
    for k := 0 to |tfOrder|
      invariant weightOrder == KnownTerms(tfOrder[..k], idx.idf)
      invariant queryWeights == WeightMap(weightOrder, queryTokens, idx.idf)
      invariant forall t <- weightOrder :: t in idx.postings
      invariant involvedDocs == InvolvedOver(weightOrder, idx)
    {
      var term := tfOrder[k];
      assert tfOrder[..k + 1] == tfOrder[..k] + [term];
      KnownTermsSnoc(tfOrder[..k], term, idx.idf);
      if term in idx.idf {
        queryWeights, weightOrder, involvedDocs :=
          WeighTerm(term, queryTf[term], queryTokens, idx, queryWeights, weightOrder, involvedDocs);
      }
    }
    assert tfOrder[..|tfOrder|] == tfOrder;
  }

  /**
   * Lines 83-90 for one term with an IDF entry: record its weight tf × idf
   * and add the documents of its posting list to the involved ones.
   */
  method WeighTerm(term: string, tf: nat, queryTokens: seq<string>, idx: SearchIndex,
                   queryWeights: map<string, real>, weightOrder: seq<string>, involvedDocs: set<int>)
    returns (queryWeights': map<string, real>, weightOrder': seq<string>, involvedDocs': set<int>)
    requires Consistent(idx) && term in idx.idf && tf == Count(queryTokens, term)
    requires forall t <- weightOrder :: t in idx.idf
    requires queryWeights == WeightMap(weightOrder, queryTokens, idx.idf)
    requires involvedDocs == InvolvedOver(weightOrder, idx)
    ensures weightOrder' == weightOrder + [term]
    ensures queryWeights' == WeightMap(weightOrder', queryTokens, idx.idf)
    ensures involvedDocs' == InvolvedOver(weightOrder', idx)
  {
    weightOrder' := weightOrder + [term];
    assert weightOrder'[..|weightOrder|] == weightOrder;
    queryWeights' := queryWeights[term := TfIdf(tf, idx.idf[term])];
    involvedDocs' := CollectDocs(idx.postings[term], involvedDocs);
  }

  /** Lines 102-107: add posting weight × query weight to the score of each document of a posting list. */
  method AddPostingWeights(scores: map<int, real>, postingList: seq<Posting>, wq: real) returns (docScores: map<int, real>)
    requires DocsIn(postingList) <= scores.Keys
    ensures docScores.Keys == scores.Keys
    ensures forall d :: d in docScores ==> docScores[d] == scores[d] + ScaledWeight(postingList, wq, d)
  {
    docScores := scores;
    var j := 0;
    while j < |postingList|
      invariant j <= |postingList|
      invariant docScores.Keys == scores.Keys
      invariant forall d :: d in docScores ==> docScores[d] == scores[d] + ScaledWeight(postingList[..j], wq, d)
    {
      var docId := postingList[j].doc;
      var wd := postingList[j].weight;
      DocsInMember(postingList, j);
      assert postingList[..j + 1][..j] == postingList[..j];
      docScores := docScores[docId := docScores[docId] + wd * wq];
      j := j + 1;
    }
    assert postingList[..|postingList|] == postingList;
  }

  /**
   * Lines 97-107: start every involved document at 0 and add, for each
   * weighted term and each of its postings, posting weight × query weight.
   * The result is each involved document's dot-product score.
   */
  method DotProductScores(queryTokens: seq<string>, idx: SearchIndex,
                          queryWeights: map<string, real>, weightOrder: seq<string>, involvedDocs: set<int>)
    returns (docScores: map<int, real>)
    requires Consistent(idx)
    requires weightOrder == WeightedTerms(queryTokens, idx.idf)
    requires queryWeights == WeightMap(weightOrder, queryTokens, idx.idf)
    requires involvedDocs == InvolvedDocs(queryTokens, idx)
    ensures docScores.Keys == involvedDocs
    ensures forall d :: d in docScores ==> docScores[d] == Score(queryTokens, idx, d)
  {
    docScores := map d | d in involvedDocs :: 0.0;
    for k := 0 to |weightOrder|
      invariant docScores.Keys == involvedDocs
      invariant forall d :: d in docScores ==> docScores[d] == DotProduct(weightOrder[..k], queryTokens, idx, d)
    {
      var term := weightOrder[k];
      WeightMapFacts(weightOrder, queryTokens, idx.idf);
      InvolvedOverContains(weightOrder, idx, k);
      assert weightOrder[..k + 1][..k] == weightOrder[..k];
      docScores := AddPostingWeights(docScores, idx.postings[term], queryWeights[term]);
    }
    assert weightOrder[..|weightOrder|] == weightOrder;
  }

  /**
   * `doc_scores.items()`: every (document, score) pair once. The dict was
   * built from a set, so the order is whatever the set gives.
   */
  method ScoreItems(docScores: map<int, real>) returns (items: seq<(int, real)>)
    ensures forall k :: 0 <= k < |items| ==> items[k].0 in docScores && items[k].1 == docScores[items[k].0]
    ensures forall d :: d in docScores ==> (d, docScores[d]) in items
    ensures forall i, j :: 0 <= i < j < |items| ==> items[i].0 != items[j].0
  {
    items := [];
    var rest := docScores.Items;
    while rest != {}
      invariant rest <= docScores.Items
      invariant forall k :: 0 <= k < |items| ==> items[k] in docScores.Items && items[k] !in rest
      invariant forall i, j :: 0 <= i < j < |items| ==> items[i].0 != items[j].0
      invariant forall item <- docScores.Items :: item in rest || item in items
      decreases rest
    {
      var item :| item in rest;
      items := items + [item];
      rest := rest - {item};
    }
    forall d | d in docScores ensures (d, docScores[d]) in items {
      assert (d, docScores[d]) in docScores.Items;
    }
  }

  /** A document outside every weighted term's posting list scores 0. */
  lemma {:induction false} ScaledWeightOutside(ps: seq<Posting>, wq: real, d: int)
    requires d !in DocsIn(ps)
    ensures ScaledWeight(ps, wq, d) == 0.0
  {
    if ps != [] {
      ScaledWeightOutside(ps[..|ps| - 1], wq, d);
    }
  }

  lemma {:induction false} DotProductOutside(terms: seq<string>, tokens: seq<string>, idx: SearchIndex, d: int)
    requires forall t <- terms :: t in idx.idf && t in idx.postings
    requires d !in InvolvedOver(terms, idx)
    ensures DotProduct(terms, tokens, idx, d) == 0.0
  {
    if terms != [] {
      DotProductOutside(terms[..|terms| - 1], tokens, idx, d);
      var t := terms[|terms| - 1];
      ScaledWeightOutside(idx.postings[t], QueryWeight(tokens, idx.idf, t), d);
    }
  }

  /** Only involved documents can score anything: every other document scores 0. */
  lemma ScoreOutsideInvolved(tokens: seq<string>, idx: SearchIndex, d: int)
    requires Consistent(idx)
    requires d !in InvolvedDocs(tokens, idx)
    ensures Score(tokens, idx, d) == 0.0
  {
    DotProductOutside(WeightedTerms(tokens, idx.idf), tokens, idx, d);
  }

  // ---------------------------------------------------------------------
  // Aggregation to venues
  // ---------------------------------------------------------------------

  /** The document has metadata and its location passes the region filter. */
  predicate Survives(d: int, region: Option<string>, metadata: seq<MetaRow>)
  {
    var meta := MetaLookup(metadata, d);
    meta.Some? && InRegion(region, meta.value.location)
  }

  function RecordFor(item: (int, real), metadata: seq<MetaRow>): Record
    requires MetaLookup(metadata, item.0).Some?
  {
    var row := MetaLookup(metadata, item.0).value;
    Record(row.name, row.location, row.avgRating, item.1)
  }

  function VenueOf(d: int, metadata: seq<MetaRow>): string
    requires MetaLookup(metadata, d).Some?
  {
    MetaLookup(metadata, d).value.name
  }

  /** `r` is the record of a surviving (document, score) item. */
  predicate BuiltFrom(r: Record, item: (int, real), region: Option<string>, metadata: seq<MetaRow>)
  {
    Survives(item.0, region, metadata) && r == RecordFor(item, metadata)
  }

  /** Some record of `venue` carries at least `score`. */
  predicate Represented(recs: seq<Record>, venue: string, score: real)
  {
    exists r <- recs :: r.name == venue && score <= r.topScore
  }

  /** The records the loop of lines 116-136 appends, for a prefix of the ranked items. */
  function Aggregate(ranked: seq<(int, real)>, region: Option<string>, metadata: seq<MetaRow>): seq<Record>
  {
    if ranked == [] then []
    else
      var prev := Aggregate(ranked[..|ranked| - 1], region, metadata);
      var item := ranked[|ranked| - 1];
      if Survives(item.0, region, metadata) && VenueOf(item.0, metadata) !in Names(prev) then
        prev + [RecordFor(item, metadata)]
      else prev
  }

  /**
   * Lines 112-136: walk the ranked documents, skip those without metadata
   * or outside the region, and keep the first document of each venue.
   */
  method AggregateByVenue(ranked: seq<(int, real)>, regionFilter: Option<string>, metadata: seq<MetaRow>)
    returns (finalRecommendations: seq<Record>)
    ensures finalRecommendations == Aggregate(ranked, regionFilter, metadata)
  {
    finalRecommendations := [];
    var uniqueNames: set<string> := {};
    for k := 0 to |ranked|
      invariant finalRecommendations == Aggregate(ranked[..k], regionFilter, metadata)
      invariant uniqueNames == Names(finalRecommendations)
    {
      assert ranked[..k + 1][..k] == ranked[..k];
      var (docId, vsmScore) := ranked[k];
      var meta := MetaLookup(metadata, docId);
      if meta.None? {
        continue;
      }
      if Truthy(regionFilter) && !IsSubstring(regionFilter.value, Lower(meta.value.location)) {
        continue;
      }
      var name := meta.value.name;
      if name !in uniqueNames {
        var rec := Record(name, meta.value.location, meta.value.avgRating, vsmScore);
        assert Names(finalRecommendations + [rec]) == uniqueNames + {name};
        uniqueNames := uniqueNames + {name};
        finalRecommendations := finalRecommendations + [rec];
      }
    }
    assert ranked[..|ranked|] == ranked;
  }

  /** Aggregation keeps one record per venue. */
  lemma {:induction false} AggregateDistinct(ranked: seq<(int, real)>, region: Option<string>, metadata: seq<MetaRow>)
    ensures DistinctNames(Aggregate(ranked, region, metadata))
  {
    if ranked != [] {
      var item := ranked[|ranked| - 1];
      AggregateDistinct(ranked[..|ranked| - 1], region, metadata);
      var prev := Aggregate(ranked[..|ranked| - 1], region, metadata);
      var recs := Aggregate(ranked, region, metadata);
      if Survives(item.0, region, metadata) && VenueOf(item.0, metadata) !in Names(prev) {
        assert recs == prev + [RecordFor(item, metadata)];
        forall i, j | 0 <= i < j < |recs| ensures recs[i].name != recs[j].name {
          assert recs[i] == prev[i];
          if j < |prev| {
            assert recs[j] == prev[j];
          } else {
            assert prev[i].name in Names(prev);
          }
        }
      }
    }
  }

  /** Every aggregated record is the record of a surviving ranked item. */
  lemma {:induction false} AggregateProvenance(ranked: seq<(int, real)>, region: Option<string>, metadata: seq<MetaRow>)
    ensures forall r <- Aggregate(ranked, region, metadata) ::
      exists k :: 0 <= k < |ranked| && BuiltFrom(r, ranked[k], region, metadata)
  {
    if ranked != [] {
      var n := |ranked| - 1;
      var init := ranked[..n];
      AggregateProvenance(init, region, metadata);
      forall r <- Aggregate(ranked, region, metadata)
        ensures exists k :: 0 <= k < |ranked| && BuiltFrom(r, ranked[k], region, metadata)
      {
        if r in Aggregate(init, region, metadata) {
          var k :| 0 <= k < n && BuiltFrom(r, init[k], region, metadata);
          assert ranked[k] == init[k];
        } else {
          assert BuiltFrom(r, ranked[n], region, metadata);
        }
      }
    }
  }

  /** The venue of every surviving ranked item has a record. */
  lemma {:induction false} AggregateCovers(ranked: seq<(int, real)>, region: Option<string>, metadata: seq<MetaRow>)
    ensures forall k :: 0 <= k < |ranked| && Survives(ranked[k].0, region, metadata)
              ==> VenueOf(ranked[k].0, metadata) in Names(Aggregate(ranked, region, metadata))
  {
    if ranked != [] {
      var n := |ranked| - 1;
      var init := ranked[..n];
      AggregateCovers(init, region, metadata);
      var prev := Aggregate(init, region, metadata);
      var recs := Aggregate(ranked, region, metadata);
      assert Names(prev) <= Names(recs);
      forall k | 0 <= k < n ensures ranked[k] == init[k] { }
    }
  }

  /** With the items in non-increasing score order, no earlier record scores below the last item. */
  lemma EarlierRecordsScoreHigher(ranked: seq<(int, real)>, region: Option<string>, metadata: seq<MetaRow>)
    requires ranked != [] && Ordered(ranked, ItemScore, true)
    ensures forall r <- Aggregate(ranked[..|ranked| - 1], region, metadata) :: ranked[|ranked| - 1].1 <= r.topScore
  {
    var n := |ranked| - 1;
    var init := ranked[..n];
    AggregateProvenance(init, region, metadata);
    forall r <- Aggregate(init, region, metadata) ensures ranked[n].1 <= r.topScore {
      var k :| 0 <= k < n && BuiltFrom(r, init[k], region, metadata);
      assert ranked[k] == init[k];
      assert InOrder(ItemScore(ranked[k]), ItemScore(ranked[n]), true);
    }
  }

  lemma OrderedPrefix<T>(s: seq<T>, n: nat, key: T -> real, descending: bool)
    requires n <= |s| && Ordered(s, key, descending)
    ensures Ordered(s[..n], key, descending)
  {
    var p := s[..n];
    forall i, j | 0 <= i < j < |p| ensures InOrder(key(p[i]), key(p[j]), descending) {
      assert p[i] == s[i] && p[j] == s[j];
    }
  }

  /** Items in non-increasing score order give records in non-increasing score order. */
  lemma {:induction false} AggregateOrdered(ranked: seq<(int, real)>, region: Option<string>, metadata: seq<MetaRow>)
    requires Ordered(ranked, ItemScore, true)
    ensures Ordered(Aggregate(ranked, region, metadata), TopScoreOf, true)
  {
    if ranked != [] {
      var n := |ranked| - 1;
      var item := ranked[n];
      OrderedPrefix(ranked, n, ItemScore, true);
      AggregateOrdered(ranked[..n], region, metadata);
      EarlierRecordsScoreHigher(ranked, region, metadata);
      var prev := Aggregate(ranked[..n], region, metadata);
      var recs := Aggregate(ranked, region, metadata);
      if Survives(item.0, region, metadata) && VenueOf(item.0, metadata) !in Names(prev) {
        assert recs == prev + [RecordFor(item, metadata)];
        forall i, j | 0 <= i < j < |recs| ensures InOrder(TopScoreOf(recs[i]), TopScoreOf(recs[j]), true) {
          assert recs[i] == prev[i];
          if j < |prev| {
            assert recs[j] == prev[j];
          }
        }
      }
    }
  }

  /**
   * Items in non-increasing score order: each venue's record carries the
   * highest score among that venue's surviving items.
   */
  lemma {:induction false} AggregateKeepsBest(ranked: seq<(int, real)>, region: Option<string>, metadata: seq<MetaRow>)
    requires Ordered(ranked, ItemScore, true)
    ensures forall k :: 0 <= k < |ranked| && Survives(ranked[k].0, region, metadata)
              ==> Represented(Aggregate(ranked, region, metadata), VenueOf(ranked[k].0, metadata), ranked[k].1)
  {
    if ranked != [] {
      var n := |ranked| - 1;
      var init := ranked[..n];
      var item := ranked[n];
      OrderedPrefix(ranked, n, ItemScore, true);
      AggregateKeepsBest(init, region, metadata);
      EarlierRecordsScoreHigher(ranked, region, metadata);
      var prev := Aggregate(init, region, metadata);
      var recs := Aggregate(ranked, region, metadata);
      assert forall r <- prev :: r in recs;
      forall k | 0 <= k < |ranked| && Survives(ranked[k].0, region, metadata)
        ensures Represented(recs, VenueOf(ranked[k].0, metadata), ranked[k].1)
      {
        if k < n {
          assert ranked[k] == init[k];
          var r :| r in prev && r.name == VenueOf(init[k].0, metadata) && init[k].1 <= r.topScore;
        } else if VenueOf(item.0, metadata) in Names(prev) {
          var r :| r in prev && r.name == VenueOf(item.0, metadata);
        } else {
          assert RecordFor(item, metadata) in recs;
        }
      }
    }
  }

  // ---------------------------------------------------------------------
  // The whole search
  // ---------------------------------------------------------------------

  /**
   * The result of the listing path, up to the order of equal ratings:
   * each region-matching venue once, as the record of its first metadata
   * row (so with score 0.0), highest average rating first.
   */
  ghost predicate IsListing(recs: seq<Record>, region: Option<string>, metadata: seq<MetaRow>)
  {
    && DistinctNames(recs)
    && Ordered(recs, AvgRatingOf, true)
    && (forall r <- recs :: exists i :: 0 <= i < |metadata| && ListedFrom(r, metadata, i, region))
    && (forall i :: 0 <= i < |metadata| && IsFirstOfVenue(metadata, i) && InRegion(region, metadata[i].location)
          ==> VenueRecord(metadata[i]) in recs)
  }

  /**
   * The result of the ranking path, whatever the final order: one record
   * per venue; each record is a surviving involved document with its
   * score; and the venue of every surviving involved document appears
   * with at least that document's score.
   */
  ghost predicate IsRanking(recs: seq<Record>, tokens: seq<string>, region: Option<string>, idx: SearchIndex)
    requires Consistent(idx)
  {
    && DistinctNames(recs)
    && (forall r <- recs ::
          exists d :: d in InvolvedDocs(tokens, idx) && BuiltFrom(r, (d, Score(tokens, idx, d)), region, idx.metadata))
    && (forall d :: d in InvolvedDocs(tokens, idx) && Survives(d, region, idx.metadata)
          ==> Represented(recs, VenueOf(d, idx.metadata), Score(tokens, idx, d)))
  }

  lemma ListingResult(metadata: seq<MetaRow>, region: Option<string>)
    ensures IsListing(SortBy(ListingRecords(metadata, region), AvgRatingOf, true), region, metadata)
  {
    var recs := ListingRecords(metadata, region);
    var sorted := SortBy(recs, AvgRatingOf, true);
    ListingDistinct(metadata, region);
    ListingProvenance(metadata, region);
    ListingCovers(metadata, region);
    DistinctNamesAfterSort(recs, AvgRatingOf, true);
    PermutationMembers(sorted, recs);
    PermutationMembers(recs, sorted);
  }

  /** Re-sorting a ranking result, on any key, keeps it a ranking result. */
  lemma RankingAfterSort(recs: seq<Record>, tokens: seq<string>, region: Option<string>, idx: SearchIndex,
                         key: Record -> real, descending: bool)
    requires Consistent(idx) && IsRanking(recs, tokens, region, idx)
    ensures IsRanking(SortBy(recs, key, descending), tokens, region, idx)
  {
    var sorted := SortBy(recs, key, descending);
    DistinctNamesAfterSort(recs, key, descending);
    PermutationMembers(sorted, recs);
    PermutationMembers(recs, sorted);
    forall d | d in InvolvedDocs(tokens, idx) && Survives(d, region, idx.metadata)
      ensures Represented(sorted, VenueOf(d, idx.metadata), Score(tokens, idx, d))
    {
      var r :| r in recs && r.name == VenueOf(d, idx.metadata) && Score(tokens, idx, d) <= r.topScore;
      assert r in sorted;
    }
  }

  /** Aggregating the score items, sorted by score, gives a ranking result in score order. */
  lemma AggregateResult(items: seq<(int, real)>, tokens: seq<string>, region: Option<string>, idx: SearchIndex)
    requires Consistent(idx)
    requires forall k :: 0 <= k < |items| ==> items[k].0 in InvolvedDocs(tokens, idx) && items[k].1 == Score(tokens, idx, items[k].0)
    requires forall d :: d in InvolvedDocs(tokens, idx) ==> (d, Score(tokens, idx, d)) in items
    ensures var recs := Aggregate(SortBy(items, ItemScore, true), region, idx.metadata);
      IsRanking(recs, tokens, region, idx) && Ordered(recs, TopScoreOf, true)
  {
    var ranked := SortBy(items, ItemScore, true);
    AggregateDistinct(ranked, region, idx.metadata);
    AggregateOrdered(ranked, region, idx.metadata);
    RankedProvenance(items, ranked, tokens, region, idx);
    RankedRepresents(items, ranked, tokens, region, idx);
  }

  lemma RankedProvenance(items: seq<(int, real)>, ranked: seq<(int, real)>, tokens: seq<string>, region: Option<string>, idx: SearchIndex)
    requires Consistent(idx)
    requires multiset(ranked) == multiset(items)
    requires forall k :: 0 <= k < |items| ==> items[k].0 in InvolvedDocs(tokens, idx) && items[k].1 == Score(tokens, idx, items[k].0)
    ensures forall r <- Aggregate(ranked, region, idx.metadata) ::
      exists d :: d in InvolvedDocs(tokens, idx) && BuiltFrom(r, (d, Score(tokens, idx, d)), region, idx.metadata)
  {
    var recs := Aggregate(ranked, region, idx.metadata);
    AggregateProvenance(ranked, region, idx.metadata);
    PermutationMembers(ranked, items);
    forall r <- recs
      ensures exists d :: d in InvolvedDocs(tokens, idx) && BuiltFrom(r, (d, Score(tokens, idx, d)), region, idx.metadata)
    {
      var k :| 0 <= k < |ranked| && BuiltFrom(r, ranked[k], region, idx.metadata);
      assert ranked[k] in items;
      var m :| 0 <= m < |items| && items[m] == ranked[k];
      assert ranked[k] == (ranked[k].0, Score(tokens, idx, ranked[k].0));
    }
  }

  lemma RankedRepresents(items: seq<(int, real)>, ranked: seq<(int, real)>, tokens: seq<string>, region: Option<string>, idx: SearchIndex)
    requires Consistent(idx)
    requires multiset(ranked) == multiset(items) && Ordered(ranked, ItemScore, true)
    requires forall d :: d in InvolvedDocs(tokens, idx) ==> (d, Score(tokens, idx, d)) in items
    ensures forall d :: d in InvolvedDocs(tokens, idx) && Survives(d, region, idx.metadata) ==>
              Represented(Aggregate(ranked, region, idx.metadata), VenueOf(d, idx.metadata), Score(tokens, idx, d))
  {
    var recs := Aggregate(ranked, region, idx.metadata);
    AggregateKeepsBest(ranked, region, idx.metadata);
    PermutationMembers(items, ranked);
    forall d | d in InvolvedDocs(tokens, idx) && Survives(d, region, idx.metadata)
      ensures Represented(recs, VenueOf(d, idx.metadata), Score(tokens, idx, d))
    {
      assert (d, Score(tokens, idx, d)) in ranked;
      var k :| 0 <= k < |ranked| && ranked[k] == (d, Score(tokens, idx, d));
    }
  }

  /** Records with equal average ratings stand in descending order of their best score. */
  predicate TiesInScoreOrder(recs: seq<Record>)
  {
    forall i, j :: 0 <= i < j < |recs| && recs[i].avgRating == recs[j].avgRating ==> recs[i].topScore >= recs[j].topScore
  }

  /**
   * Lines 138-148: re-sort the aggregated records by average rating,
   * highest first for "RATING_TOP" and lowest first for "RATING_BOTTOM";
   * any other intent leaves them as they are. Either way the result is a
   * permutation of the records, and records of equal rating keep their
   * order (the score order they arrive in), as `list.sort` is stable.
   */
  method ApplyIntentSort(recs: seq<Record>, specialIntent: Option<string>) returns (sorted: seq<Record>)
    ensures multiset(sorted) == multiset(recs)
    ensures forall v :: WithKey(sorted, AvgRatingOf, v) == WithKey(recs, AvgRatingOf, v)
    ensures specialIntent == Some(RatingTopIntent) ==> sorted == SortBy(recs, AvgRatingOf, true)
    ensures specialIntent == Some(RatingBottomIntent) ==> sorted == SortBy(recs, AvgRatingOf, false)
    ensures specialIntent != Some(RatingTopIntent) && specialIntent != Some(RatingBottomIntent) ==> sorted == recs
    ensures Ordered(recs, TopScoreOf, true) ==> TiesInScoreOrder(sorted)
  {
    if specialIntent == Some(RatingTopIntent) {
      sorted := SortBy(recs, AvgRatingOf, true);
      SortByStable(recs, AvgRatingOf, true);
    } else if specialIntent == Some(RatingBottomIntent) {
      sorted := SortBy(recs, AvgRatingOf, false);
      SortByStable(recs, AvgRatingOf, false);
    } else {
      sorted := recs;
    }
    if Ordered(recs, TopScoreOf, true) {
      TiesKeepOrder(recs, sorted, AvgRatingOf, TopScoreOf, true);
    }
  }

  /**
   * `search_by_keyword`. Intent "ALL" lists venues; any other intent ranks
   * the involved documents by score, keeps the best document of each
   * venue, and re-sorts by average rating for "RATING_TOP" (highest
   * first) and "RATING_BOTTOM" (lowest first); otherwise the records stay
   * in score order.
   */
  method SearchByKeyword(queryTokens: seq<string>, specialIntent: Option<string>, regionFilter: Option<string>, idx: SearchIndex)
    returns (finalRecommendations: seq<Record>)
    requires Consistent(idx)
    ensures specialIntent == Some(ListAllIntent) ==> IsListing(finalRecommendations, regionFilter, idx.metadata)
    ensures specialIntent != Some(ListAllIntent) ==> IsRanking(finalRecommendations, queryTokens, regionFilter, idx)
    ensures specialIntent != Some(ListAllIntent) && InvolvedDocs(queryTokens, idx) == {} ==> finalRecommendations == []
    ensures specialIntent == Some(RatingTopIntent) ==> Ordered(finalRecommendations, AvgRatingOf, true)
    ensures specialIntent == Some(RatingBottomIntent) ==> Ordered(finalRecommendations, AvgRatingOf, false)
    ensures specialIntent !in {Some(ListAllIntent), Some(RatingTopIntent), Some(RatingBottomIntent)}
      ==> Ordered(finalRecommendations, TopScoreOf, true)
    ensures specialIntent in {Some(RatingTopIntent), Some(RatingBottomIntent)} ==> TiesInScoreOrder(finalRecommendations)
  {
    if specialIntent == Some(ListAllIntent) {
      finalRecommendations := ListAllVenues(idx.metadata, regionFilter);
      ListingResult(idx.metadata, regionFilter);
      return;
    }
    if queryTokens == [] {
      assert WeightedTerms(queryTokens, idx.idf) == [];
      return [];
    }
    var queryWeights, weightOrder, involvedDocs := QueryVector(queryTokens, idx);
    if involvedDocs == {} {
      return [];
    }
    var docScores := DotProductScores(queryTokens, idx, queryWeights, weightOrder, involvedDocs);
    var items := ScoreItems(docScores);
    var ranked := SortBy(items, ItemScore, true);
    finalRecommendations := AggregateByVenue(ranked, regionFilter, idx.metadata);
    AggregateResult(items, queryTokens, regionFilter, idx);
    if specialIntent == Some(RatingTopIntent) {
      RankingAfterSort(finalRecommendations, queryTokens, regionFilter, idx, AvgRatingOf, true);
    } else if specialIntent == Some(RatingBottomIntent) {
      RankingAfterSort(finalRecommendations, queryTokens, regionFilter, idx, AvgRatingOf, false);
    }
    finalRecommendations := ApplyIntentSort(finalRecommendations, specialIntent);
  }
}
