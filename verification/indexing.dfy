/**
 * The offline index build (utils.py, top-level code): tokens for every
 * corpus row, document frequencies, the IDF table, one posting list per
 * term filled in corpus order, and the metadata table with the per-venue
 * average rating.
 */
module Indexing {
  import opened Common
  import opened Seqs
  import opened Terms
  import opened Preprocessing
  import opened InvertedIndex

  /** A row of `df_corpus`: Doc_ID, Teks_Mentah (possibly missing), Nama_Tempat, Lokasi, Rating. */
  datatype CorpusRow = CorpusRow(docId: int, text: Option<Input>, name: string, location: string, rating: real)

  /** A document as the build sees it: its id and its `Clean_Tokens`. */
  datatype IndexedDoc = IndexedDoc(docId: int, tokens: seq<string>)

  /** `fillna('')`: a missing text becomes the empty string. */
  function FilledText(cell: Option<Input>): Input
  {
    match cell
    case None => Str("")
    case Some(x) => x
  }

  /** Every corpus row with its preprocessed tokens, in corpus order. */
  function Documents(corpus: seq<CorpusRow>, lex: Lexicon): (docs: seq<IndexedDoc>)
    ensures |docs| == |corpus|
    ensures forall k :: 0 <= k < |docs| ==> docs[k].docId == corpus[k].docId
    ensures forall k :: 0 <= k < |docs| ==> forall w <- docs[k].tokens :: |w| >= 2
  {
    seq(|corpus|, k requires 0 <= k < |corpus| =>
      IndexedDoc(corpus[k].docId, FullPreprocessing(FilledText(corpus[k].text), lex)))
  }

  // ---------------------------------------------------------------------
  // Document frequencies and IDF (lines 36-45)
  // ---------------------------------------------------------------------

  /** `d.get(w, 0)`. */
  function Get(m: map<string, nat>, w: string): nat
  {
    if w in m then m[w] else 0
  }

  /** The number of documents whose tokens contain `w`. */
  function DocFreq(docs: seq<IndexedDoc>, w: string): nat
  {
    if docs == [] then 0
    else DocFreq(docs[..|docs| - 1], w) + (if w in docs[|docs| - 1].tokens then 1 else 0)
  }

  /** Some document contains `w`. */
  predicate Occurs(docs: seq<IndexedDoc>, w: string)
  {
    exists k :: 0 <= k < |docs| && w in docs[k].tokens
  }

  /** A document frequency counts documents: at most N, and positive exactly for the words that occur. */
  lemma {:induction false} DocFreqBounds(docs: seq<IndexedDoc>, w: string)
    ensures DocFreq(docs, w) <= |docs|
    ensures DocFreq(docs, w) > 0 <==> Occurs(docs, w)
  {
    if docs != [] {
      var init := docs[..|docs| - 1];
      DocFreqBounds(init, w);
      if Occurs(init, w) {
        var k :| 0 <= k < |init| && w in init[k].tokens;
        assert docs[k] == init[k];
      }
      if Occurs(docs, w) && !(w in docs[|docs| - 1].tokens) {
        var k :| 0 <= k < |docs| && w in docs[k].tokens;
        assert init[k] == docs[k];
      }
    }
  }

  /**
   * Lines 37-41: for every document, add 1 to the count of each distinct
   * word of its tokens (the loop runs over `set(tokens)`, in whatever order
   * the set gives).
   */
  method CountDocumentFrequencies(docs: seq<IndexedDoc>) returns (dfCounts: map<string, nat>)
    ensures forall w :: w in dfCounts <==> Occurs(docs, w)
    ensures forall w :: w in dfCounts ==> dfCounts[w] == DocFreq(docs, w)
  {
    dfCounts := map[];
    for i := 0 to |docs|
      invariant forall w :: Get(dfCounts, w) == DocFreq(docs[..i], w)
      invariant forall w :: w in dfCounts ==> dfCounts[w] > 0
    {
      var tokens := docs[i].tokens;
      var before := dfCounts;
      var rest := set w <- tokens;
      while rest != {}
        invariant rest <= set w <- tokens
        invariant forall w :: Get(dfCounts, w) == Get(before, w) + (if w in tokens && w !in rest then 1 else 0)
        invariant forall w :: w in dfCounts ==> dfCounts[w] > 0
        decreases rest
      {
        var word :| word in rest;
        dfCounts := dfCounts[word := Get(dfCounts, word) + 1];
        rest := rest - {word};
      }
      assert docs[..i + 1][..i] == docs[..i];
    }
    assert docs[..|docs|] == docs;
    forall w ensures w in dfCounts <==> Occurs(docs, w) {
      DocFreqBounds(docs, w);
      assert w in dfCounts <==> Get(dfCounts, w) > 0;
    }
  }

  /**
   * Lines 43-45: `idf_scores[t] = log10(N / df[t])` for every counted term.
   * `log10` is a parameter; the division is on reals and every count is
   * positive, so it never divides by zero.
   */
  method ComputeIdf(dfCounts: map<string, nat>, n: nat, log10: real -> real) returns (idfScores: map<string, real>)
    requires forall t :: t in dfCounts ==> dfCounts[t] > 0
    ensures idfScores.Keys == dfCounts.Keys
    ensures forall t :: t in idfScores ==> idfScores[t] == log10(n as real / dfCounts[t] as real)
  {
    idfScores := map[];
    var rest := dfCounts.Keys;
    while rest != {}
      invariant rest <= dfCounts.Keys
      invariant idfScores.Keys == dfCounts.Keys - rest
      invariant forall t :: t in idfScores ==> idfScores[t] == log10(n as real / dfCounts[t] as real)
      decreases rest
    {
      var term :| term in rest;
      idfScores := idfScores[term := log10(n as real / dfCounts[term] as real)];
      rest := rest - {term};
    }
  }

  // ---------------------------------------------------------------------
  // Posting lists (lines 48-70)
  // ---------------------------------------------------------------------

  /** Lines 48-53: one list per counted word; the sentinel head is not a posting, so each list starts empty. */
  method InitPostingLists(words: set<string>) returns (lists: map<string, seq<Posting>>)
    ensures lists.Keys == words
    ensures forall t :: t in lists ==> lists[t] == []
  {
    lists := map[];
    var rest := words;
    while rest != {}
      invariant rest <= words
      invariant lists.Keys == words - rest
      invariant forall t :: t in lists ==> lists[t] == []
      decreases rest
    {
      var word :| word in rest;
      lists := lists[word := []];
      rest := rest - {word};
    }
  }

  /**
   * Lines 66-70: walk to the last node of `term`'s list and link a new
   * node after it. The new posting goes at the end of that one list; the
   * earlier postings and every other list stay as they were.
   */
  function AppendPosting(lists: map<string, seq<Posting>>, term: string, p: Posting): (r: map<string, seq<Posting>>)
    requires term in lists
    ensures r.Keys == lists.Keys
    ensures |r[term]| == |lists[term]| + 1 && r[term][..|lists[term]|] == lists[term] && r[term][|lists[term]|] == p
    ensures forall t :: t in lists && t != term ==> r[t] == lists[t]
  {
    lists[term := lists[term] + [p]]
  }

  /** The posting a document contributes to `t`'s list: its id and tf × idf. */
  function PostingFor(doc: IndexedDoc, idf: map<string, real>, t: string): Posting
    requires t in idf
  {
    Posting(doc.docId, TfIdf(Count(doc.tokens, t), idf[t]))
  }

  /** `t`'s list after indexing `docs`: one posting for each document that contains `t`, in corpus order. */
  function ExpectedPostings(docs: seq<IndexedDoc>, idf: map<string, real>, t: string): seq<Posting>
    requires t in idf
  {
    if docs == [] then []
    else
      var last := docs[|docs| - 1];
      ExpectedPostings(docs[..|docs| - 1], idf, t) + (if t in last.tokens then [PostingFor(last, idf, t)] else [])
  }

  /** Every token of every document has a list. */
  predicate Covers(docs: seq<IndexedDoc>, keys: set<string>)
  {
    forall k :: 0 <= k < |docs| ==> forall w <- docs[k].tokens :: w in keys
  }

  /** Lines 59-70 for one document: append its posting to the list of each of its distinct terms. */
  method IndexDocument(lists: map<string, seq<Posting>>, doc: IndexedDoc, idf: map<string, real>)
    returns (updated: map<string, seq<Posting>>)
    requires forall w <- doc.tokens :: w in lists
    requires forall t :: t in lists ==> t in idf
    ensures updated.Keys == lists.Keys
    ensures forall t :: t in updated ==>
              updated[t] == lists[t] + (if t in doc.tokens then [PostingFor(doc, idf, t)] else [])
  {
    var tfInDoc, termOrder := TermFrequencies(doc.tokens);
    updated := lists;
    for j := 0 to |termOrder|
      invariant updated.Keys == lists.Keys
      invariant forall t :: t in updated ==>
                  updated[t] == lists[t] + (if t in termOrder[..j] then [PostingFor(doc, idf, t)] else [])
    {
      var term := termOrder[j];
      assert termOrder[..j + 1] == termOrder[..j] + [term];
      assert term !in termOrder[..j];
      var tfidf := TfIdf(tfInDoc[term], idf[term]);
      updated := AppendPosting(updated, term, Posting(doc.docId, tfidf));
    }
    assert termOrder[..|termOrder|] == termOrder;
  }

  /** Lines 55-70: index the documents in corpus order. */
  method IndexPostings(docs: seq<IndexedDoc>, idf: map<string, real>, empty: map<string, seq<Posting>>)
    returns (lists: map<string, seq<Posting>>)
    requires Covers(docs, empty.Keys)
    requires forall t :: t in empty ==> empty[t] == [] && t in idf
    ensures lists.Keys == empty.Keys
    ensures forall t :: t in lists ==> lists[t] == ExpectedPostings(docs, idf, t)
  {
    lists := empty;
    for i := 0 to |docs|
      invariant lists.Keys == empty.Keys
      invariant forall t :: t in lists ==> lists[t] == ExpectedPostings(docs[..i], idf, t)
    {
      assert docs[..i + 1][..i] == docs[..i];
      lists := IndexDocument(lists, docs[i], idf);
    }
    assert docs[..|docs|] == docs;
  }

  /** A term's list has one posting per document that contains it: as many as its document frequency. */
  lemma {:induction false} PostingsCountIsDocFreq(docs: seq<IndexedDoc>, idf: map<string, real>, t: string)
    requires t in idf
    ensures |ExpectedPostings(docs, idf, t)| == DocFreq(docs, t)
  {
    if docs != [] {
      PostingsCountIsDocFreq(docs[..|docs| - 1], idf, t);
    }
  }

  /**
   * A posting is in `t`'s list exactly when it is the posting of a
   * document containing `t`: the right document, with weight
   * (occurrences of `t` in it) × idf.
   */
  lemma {:induction false} PostingsAreContainingDocs(docs: seq<IndexedDoc>, idf: map<string, real>, t: string)
    requires t in idf
    ensures forall p <- ExpectedPostings(docs, idf, t) ::
              exists k :: 0 <= k < |docs| && t in docs[k].tokens && p == PostingFor(docs[k], idf, t)
    ensures forall k :: 0 <= k < |docs| && t in docs[k].tokens ==> PostingFor(docs[k], idf, t) in ExpectedPostings(docs, idf, t)
  {
    if docs != [] {
      var n := |docs| - 1;
      var init := docs[..n];
      PostingsAreContainingDocs(init, idf, t);
      forall k | 0 <= k < n ensures docs[k] == init[k] { }
    }
  }

  /** No two postings name the same document. */
  predicate DistinctDocs(ps: seq<Posting>)
  {
    forall i, j :: 0 <= i < j < |ps| ==> ps[i].doc != ps[j].doc
  }

  /** With distinct document ids, no document appears twice in a list. */
  lemma {:induction false} PostingsOncePerDoc(docs: seq<IndexedDoc>, idf: map<string, real>, t: string)
    requires t in idf
    requires forall i, j :: 0 <= i < j < |docs| ==> docs[i].docId != docs[j].docId
    ensures DistinctDocs(ExpectedPostings(docs, idf, t))
  {
    if docs != [] {
      var n := |docs| - 1;
      var init := docs[..n];
      PostingsOncePerDoc(init, idf, t);
      PostingsAreContainingDocs(init, idf, t);
      var prev := ExpectedPostings(init, idf, t);
      var ps := ExpectedPostings(docs, idf, t);
      assert DistinctDocs(prev);
      if t in docs[n].tokens {
        var last := PostingFor(docs[n], idf, t);
        assert ps == prev + [last];
        forall i, j | 0 <= i < j < |ps| ensures ps[i].doc != ps[j].doc {
          assert ps[i] == prev[i];
          if j < |prev| {
            assert ps[j] == prev[j];
          } else {
            assert ps[j] == last;
            assert prev[i] in prev;
            var k :| 0 <= k < n && t in init[k].tokens && prev[i] == PostingFor(init[k], idf, t);
            assert init[k] == docs[k];
          }
        }
      } else {
        assert ps == prev;
      }
    }
  }

  // ---------------------------------------------------------------------
  // Metadata (lines 73-77)
  // ---------------------------------------------------------------------

  /** The number of rows of venue `name`. */
  function RowCount(corpus: seq<CorpusRow>, name: string): nat
  {
    if corpus == [] then 0
    else RowCount(corpus[..|corpus| - 1], name) + (if corpus[|corpus| - 1].name == name then 1 else 0)
  }

  /** The sum of the ratings of venue `name`. */
  function RatingSum(corpus: seq<CorpusRow>, name: string): real
  {
    if corpus == [] then 0.0
    else RatingSum(corpus[..|corpus| - 1], name) + (if corpus[|corpus| - 1].name == name then corpus[|corpus| - 1].rating else 0.0)
  }

  lemma {:induction false} RowCountPositive(corpus: seq<CorpusRow>, k: nat)
    requires k < |corpus|
    ensures RowCount(corpus, corpus[k].name) > 0
  {
    if k < |corpus| - 1 {
      var init := corpus[..|corpus| - 1];
      assert init[k] == corpus[k];
      RowCountPositive(init, k);
    }
  }

  /** Every venue of the corpus has at least one row, so its mean is defined. */
  lemma EveryVenueCounted(corpus: seq<CorpusRow>)
    ensures forall k :: 0 <= k < |corpus| ==> RowCount(corpus, corpus[k].name) > 0
  {
    forall k | 0 <= k < |corpus| ensures RowCount(corpus, corpus[k].name) > 0 {
      RowCountPositive(corpus, k);
    }
  }

  /** `groupby('Nama_Tempat')['Rating'].mean()` for one venue. */
  function AvgRating(corpus: seq<CorpusRow>, name: string): real
    requires RowCount(corpus, name) > 0
  {
    RatingSum(corpus, name) / RowCount(corpus, name) as real
  }

  function MetaRowOf(corpus: seq<CorpusRow>, k: nat): MetaRow
    requires k < |corpus|
  {
    var row := corpus[k];
    RowCountPositive(corpus, k);
    MetaRow(row.docId, row.name, row.location, row.rating, AvgRating(corpus, row.name))
  }

  /**
   * Lines 73-77: one metadata row per corpus row, in corpus order, with
   * its venue's mean rating merged in. Rows of the same venue carry the
   * same average.
   */
  function Metadata(corpus: seq<CorpusRow>): (rows: seq<MetaRow>)
    ensures |rows| == |corpus|
    ensures forall k :: 0 <= k < |rows| ==>
              (rows[k].docId == corpus[k].docId && rows[k].name == corpus[k].name
               && rows[k].location == corpus[k].location && rows[k].rating == corpus[k].rating)
    ensures forall i, j :: 0 <= i < |rows| && 0 <= j < |rows| && rows[i].name == rows[j].name ==> rows[i].avgRating == rows[j].avgRating
    ensures forall k :: 0 <= k < |rows| ==>
              (RowCount(corpus, rows[k].name) > 0
               && rows[k].avgRating == RatingSum(corpus, rows[k].name) / RowCount(corpus, rows[k].name) as real)
  {
    EveryVenueCounted(corpus);
    seq(|corpus|, k requires 0 <= k < |corpus| => MetaRowOf(corpus, k))
  }

  /** The ratings of venue `name` all lie in [lo, hi]. */
  predicate RatingsWithin(corpus: seq<CorpusRow>, name: string, lo: real, hi: real)
  {
    forall k :: 0 <= k < |corpus| && corpus[k].name == name ==> lo <= corpus[k].rating <= hi
  }

  /** `x` added once for every row of venue `name`. */
  function ConstSum(corpus: seq<CorpusRow>, name: string, x: real): real
  {
    if corpus == [] then 0.0
    else ConstSum(corpus[..|corpus| - 1], name, x) + (if corpus[|corpus| - 1].name == name then x else 0.0)
  }

  /** With every rating of `name` in [lo, hi], the sum of its ratings lies between those of lo's and hi's. */
  lemma {:induction false} RatingSumWithin(corpus: seq<CorpusRow>, name: string, lo: real, hi: real)
    requires RatingsWithin(corpus, name, lo, hi)
    ensures ConstSum(corpus, name, lo) <= RatingSum(corpus, name) <= ConstSum(corpus, name, hi)
  {
    if corpus != [] {
      var n := |corpus| - 1;
      var init := corpus[..n];
      assert RatingsWithin(init, name, lo, hi) by {
        forall k | 0 <= k < |init| && init[k].name == name ensures lo <= init[k].rating <= hi {
          assert init[k] == corpus[k];
        }
      }
      RatingSumWithin(init, name, lo, hi);
    }
  }

  lemma {:induction false} ConstSumIsProduct(corpus: seq<CorpusRow>, name: string, x: real)
    ensures ConstSum(corpus, name, x) == RowCount(corpus, name) as real * x
  {
    if corpus != [] {
      var init := corpus[..|corpus| - 1];
      ConstSumIsProduct(init, name, x);
      var c := RowCount(init, name) as real;
      assert (c + 1.0) * x == c * x + x;
    }
  }

  /** The ratings of `name` sum to between count × lo and count × hi. */
  lemma SumBetweenProducts(corpus: seq<CorpusRow>, name: string, lo: real, hi: real)
    requires RatingsWithin(corpus, name, lo, hi)
    ensures RowCount(corpus, name) as real * lo <= RatingSum(corpus, name) <= RowCount(corpus, name) as real * hi
  {
    RatingSumWithin(corpus, name, lo, hi);
    ConstSumIsProduct(corpus, name, lo);
    ConstSumIsProduct(corpus, name, hi);
  }

  /** A mean lies between the smallest and the largest of the ratings it averages. */
  lemma AverageWithin(corpus: seq<CorpusRow>, name: string, lo: real, hi: real)
    requires RowCount(corpus, name) > 0
    requires RatingsWithin(corpus, name, lo, hi)
    ensures lo <= AvgRating(corpus, name) <= hi
  {
    var sum, count := RatingSum(corpus, name), RowCount(corpus, name) as real;
    SumBetweenProducts(corpus, name, lo, hi);
    QuotientWithin(sum, count, lo, hi);
    assert AvgRating(corpus, name) == sum / count;
  }

  lemma QuotientWithin(s: real, c: real, lo: real, hi: real)
    requires c > 0.0 && c * lo <= s <= c * hi
    ensures lo <= s / c <= hi
  {
    var q := s / c;
    assert q * c == s;
  }

  // ---------------------------------------------------------------------
  // The whole build
  // ---------------------------------------------------------------------

  /**
   * Lines 31-77. With `docs` the preprocessed corpus: the IDF table has
   * exactly the words that occur, each with log10(N / df); every indexed
   * term has a posting list, and that list holds, in corpus order, the
   * posting of each document containing the term; the metadata is the
   * merged table.
   */
  method BuildIndex(corpus: seq<CorpusRow>, lex: Lexicon, log10: real -> real) returns (idx: SearchIndex)
    ensures Consistent(idx)
    ensures forall t :: t in idx.idf <==> Occurs(Documents(corpus, lex), t)
    ensures forall t :: t in idx.idf ==>
              (1 <= DocFreq(Documents(corpus, lex), t) <= |corpus|
               && idx.idf[t] == log10(|corpus| as real / DocFreq(Documents(corpus, lex), t) as real))
    ensures idx.postings.Keys == idx.idf.Keys
    ensures forall t :: t in idx.postings ==> idx.postings[t] == ExpectedPostings(Documents(corpus, lex), idx.idf, t)
    ensures idx.metadata == Metadata(corpus)
  {
    var docs := Documents(corpus, lex);
    var n := |corpus|;
    var dfCounts := CountDocumentFrequencies(docs);
    forall t | t in dfCounts ensures 1 <= dfCounts[t] <= n {
      DocFreqBounds(docs, t);
    }
    var idfScores := ComputeIdf(dfCounts, n, log10);
    var empty := InitPostingLists(dfCounts.Keys);
    assert Covers(docs, empty.Keys) by {
      forall k, w | 0 <= k < |docs| && w in docs[k].tokens ensures w in empty.Keys {
        assert Occurs(docs, w);
      }
    }
    var lists := IndexPostings(docs, idfScores, empty);
    idx := SearchIndex(idfScores, lists, Metadata(corpus));
  }
}
