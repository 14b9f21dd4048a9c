/**
 * The tables the index build produces and the search reads: the IDF
 * table, one posting list per term, and the per-document metadata.
 *
 * A posting list is the sequence of nodes that follow the head node of
 * the source's `SlinkedList`; the head (document 0, no weight) is never
 * read as a posting, so the sequence leaves it out.
 */
module InvertedIndex {
  import opened Common

  /** A posting node: document id and TF-IDF weight. */
  datatype Posting = Posting(doc: int, weight: real)

  /** A row of `df_metadata`: Doc_ID, Nama_Tempat, Lokasi, Rating, Avg_Rating. */
  datatype MetaRow = MetaRow(docId: int, name: string, location: string, rating: real, avgRating: real)

  /** `idf_scores`, `linked_list_data` and `df_metadata`, loaded once and never changed. */
  datatype SearchIndex = SearchIndex(
    idf: map<string, real>,
    postings: map<string, seq<Posting>>,
    metadata: seq<MetaRow>)

  /** Every term with an IDF entry has a posting list (the search indexes one by the other). */
  predicate Consistent(idx: SearchIndex)
  {
    forall t :: t in idx.idf ==> t in idx.postings
  }

  /** The documents named by a posting list. */
  function DocsIn(ps: seq<Posting>): set<int>
  {
    if ps == [] then {} else DocsIn(ps[..|ps| - 1]) + {ps[|ps| - 1].doc}
  }

  lemma {:induction false} DocsInMember(ps: seq<Posting>, j: nat)
    requires j < |ps|
    ensures ps[j].doc in DocsIn(ps)
  {
    if j < |ps| - 1 {
      DocsInMember(ps[..|ps| - 1], j);
    }
  }

  /**
   * Total weight that the postings of `ps` give document `d`: its weight
   * when it has one posting, 0.0 when it has none.
   */
  function PostingWeight(ps: seq<Posting>, d: int): real
  {
    if ps == [] then 0.0
    else PostingWeight(ps[..|ps| - 1], d) + (if ps[|ps| - 1].doc == d then ps[|ps| - 1].weight else 0.0)
  }

  /** `df_metadata.loc[d]`: the row whose Doc_ID is `d`. */
  function MetaLookup(metadata: seq<MetaRow>, d: int): (r: Option<MetaRow>)
    ensures r.Some? ==> r.value in metadata && r.value.docId == d
    ensures r.None? <==> forall row <- metadata :: row.docId != d
  {
    if metadata == [] then None
    else if metadata[0].docId == d then Some(metadata[0])
    else MetaLookup(metadata[1..], d)
  }
}
