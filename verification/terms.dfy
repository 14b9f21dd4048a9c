/**
 * The term-frequency loop that appears twice in the source: `query_tf`
 * in `search_by_keyword` and `tf_in_doc` in the index build.
 */
module Terms {
  import opened Seqs

  /**
   * `tf[word] = tf.get(word, 0) + 1` for every token: the keys are the
   * distinct tokens, each mapped to its number of occurrences; the key
   * order is given by `Distinct`.
   */
  method TermFrequencies(tokens: seq<string>) returns (tf: map<string, nat>, keyOrder: seq<string>)
    ensures keyOrder == Distinct(tokens)
    ensures forall t :: t in tf <==> t in tokens
    ensures forall t :: t in tf ==> tf[t] == Count(tokens, t) && tf[t] > 0
  {
    tf, keyOrder := map[], [];
    for i := 0 to |tokens|
      invariant keyOrder == Distinct(tokens[..i])
      invariant forall t :: t in tf <==> t in tokens[..i]
      invariant forall t :: t in tf ==> tf[t] == Count(tokens[..i], t)
    {
      var word := tokens[i];
      assert tokens[..i + 1][..i] == tokens[..i];
      assert tokens[..i + 1] == tokens[..i] + [word];
      if word !in tf {
        keyOrder := keyOrder + [word];
      }
      tf := tf[word := (if word in tf then tf[word] else 0) + 1];
      forall t | t in tf ensures tf[t] == Count(tokens[..i + 1], t) {
        assert Count(tokens[..i + 1], t) == Count(tokens[..i], t) + (if word == t then 1 else 0);
        CountPositive(tokens[..i], t);
      }
    }
    assert tokens[..|tokens|] == tokens;
    forall t | t in tf ensures tf[t] > 0 {
      CountPositive(tokens, t);
    }
  }

  /** `tf * idf`: the weight of a term that occurs `tf` times, for the query and for a document alike. */
  function TfIdf(tf: nat, idf: real): real
  {
    tf as real * idf
  }
}
