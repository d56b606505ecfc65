/**
 * Keyword expansion and the similarity score of the basic semantic vector store
 * (`_expand_query_semantically` and `_calculate_semantic_similarity`).
 *
 * A query is lower-cased and extended with the expansion list of every base term of a
 * fixed table that occurs in it. A text is scored by how often those terms occur in
 * it, relative to its number of words and to the number of terms:
 * `min(10 * (matches / words) * (matches / terms), 1)`.
 */
module Scoring {
  import opened StringOps

  /** One row of the semantic mapping table: a base term and the terms it expands to. */
  datatype Mapping = Mapping(base: string, expansions: seq<string>)

  /** The semantic mapping table, in its insertion (and so iteration) order. */
  const SemanticMappings: seq<Mapping> := [
    Mapping("attention", ["attention", "self-attention", "attention mechanism", "attentional"]),
    Mapping("transformer", ["transformer", "transformer model", "attention is all you need"]),
    Mapping("neural", ["neural", "neural network", "deep learning", "machine learning"]),
    Mapping("encoder", ["encoder", "decoder", "encoder-decoder", "sequence"]),
    Mapping("reference", ["reference", "citation", "cite", "paper", "publication"]),
    Mapping("list", ["list", "enumeration", "items", "references", "bibliography"]),
    Mapping("model", ["model", "architecture", "network", "system"]),
    Mapping("learning", ["learning", "training", "machine learning", "deep learning"]),
    Mapping("network", ["network", "neural network", "architecture", "model"])
  ]

  // ---------------------------------------------------------------- query expansion

  /** The expansions the rows of `table` contribute for the lower-cased query `q`, in row order. */
  function Expansions(table: seq<Mapping>, q: string): seq<string> {
    if table == [] then []
    else
      var row := table[|table| - 1];
      Expansions(table[..|table| - 1], q) + (if Contains(q, row.base) then row.expansions else [])
  }

  /** `_expand_query_semantically(query)` as a function of the query. */
  function ExpandedTerms(query: string): seq<string> {
    [Lower(query)] + Expansions(SemanticMappings, Lower(query))
  }

  /** The expansion loop: start from the lower-cased query and append the expansion list of
      each row whose base term occurs in it. */
  method ExpandQuery(query: string) returns (terms: seq<string>)
    ensures terms == ExpandedTerms(query)
  {
    var queryLower := Lower(query);
    terms := [queryLower];
    var i := 0;
    while i < |SemanticMappings|
      invariant 0 <= i <= |SemanticMappings|
      invariant terms == [queryLower] + Expansions(SemanticMappings[..i], queryLower)
    {
      var row := SemanticMappings[i];
      assert SemanticMappings[..i + 1][..i] == SemanticMappings[..i];
      if Contains(queryLower, row.base) {
        terms := terms + row.expansions;
      }
      i := i + 1;
    }
    assert SemanticMappings[..i] == SemanticMappings;
  }

  /** A term is contributed by the table exactly when some row whose base term occurs in
      the query lists it. */
  lemma {:induction false} ExpansionsMembers(table: seq<Mapping>, q: string, t: string)
    ensures t in Expansions(table, q) <==>
      exists j :: 0 <= j < |table| && Contains(q, table[j].base) && t in table[j].expansions
  {
    if table != [] {
      var init := table[..|table| - 1];
      ExpansionsMembers(init, q, t);
      if t in Expansions(init, q) {
        var j :| 0 <= j < |init| && Contains(q, init[j].base) && t in init[j].expansions;
        assert table[j] == init[j];
      }
      if exists j :: 0 <= j < |table| && Contains(q, table[j].base) && t in table[j].expansions {
        var j :| 0 <= j < |table| && Contains(q, table[j].base) && t in table[j].expansions;
        if j < |init| {
          assert init[j] == table[j];
        }
      }
    }
  }

  /** The expanded query is the lower-cased query followed by exactly the expansions of the
      base terms it contains; when it contains none, it is the lower-cased query alone. */
  lemma ExpandedTermsSpec(query: string, t: string)
    ensures ExpandedTerms(query)[0] == Lower(query)
    ensures t in ExpandedTerms(query) <==>
      || t == Lower(query)
      || exists j :: 0 <= j < |SemanticMappings| && Contains(Lower(query), SemanticMappings[j].base)
                     && t in SemanticMappings[j].expansions
  {
    ExpansionsMembers(SemanticMappings, Lower(query), t);
  }

  /** Without any base term in the query, nothing is added. */
  lemma {:induction false} NoBaseTermNoExpansion(table: seq<Mapping>, q: string)
    requires forall j :: 0 <= j < |table| ==> !Contains(q, table[j].base)
    ensures Expansions(table, q) == []
  {
    if table != [] {
      var init := table[..|table| - 1];
      assert forall j :: 0 <= j < |init| ==> init[j] == table[j];
      NoBaseTermNoExpansion(init, q);
    }
  }

  // ---------------------------------------------------------------- similarity

  /** The sum of `text_lower.count(term)` over the terms. */
  function TotalMatches(terms: seq<string>, textLower: string): nat {
    if terms == [] then 0
    else TotalMatches(terms[..|terms| - 1], textLower) + Count(textLower, terms[|terms| - 1])
  }

  function MinReal(a: real, b: real): real { if a <= b then a else b }

  /** `min((m / w) * (m / t) * 10, 1.0)` for `m` matches, `w` words and `t` terms. */
  function Similarity(m: nat, w: nat, t: nat): real
    requires w > 0 && t > 0
  {
    MinReal(((m as real / w as real) * (m as real / t as real)) * 10.0, 1.0)
  }

  /** `_calculate_semantic_similarity(terms, text)`: zero without terms or without words. */
  function Score(terms: seq<string>, text: string): real {
    var t := |terms|;
    var w := WordCount(text);
    if t > 0 && w > 0 then Similarity(TotalMatches(terms, Lower(text)), w, t) else 0.0
  }

  /** The scoring loop over the terms. */
  method CalculateSimilarity(terms: seq<string>, text: string) returns (score: real)
    ensures score == Score(terms, text)
  {
    var textLower := Lower(text);
    var totalMatches := 0;
    var totalTerms := |terms|;
    var i := 0;
    while i < |terms|
      invariant 0 <= i <= |terms|
      invariant totalMatches == TotalMatches(terms[..i], textLower)
    {
      assert terms[..i + 1][..i] == terms[..i];
      var matches := Count(textLower, terms[i]);
      if matches > 0 {
        totalMatches := totalMatches + matches;
      }
      i := i + 1;
    }
    assert terms[..i] == terms;
    score := 0.0;
    if totalTerms > 0 {
      var textWords := WordCount(text);
      if textWords > 0 {
        var similarity := (totalMatches as real / textWords as real) * (totalMatches as real / totalTerms as real);
        score := MinReal(similarity * 10.0, 1.0);
        assert score == Similarity(totalMatches, textWords, totalTerms);
      }
    }
  }

  /** The similarity written as one fraction. */
  lemma SimilarityFraction(m: nat, w: nat, t: nat)
    requires w > 0 && t > 0
    ensures ((m as real / w as real) * (m as real / t as real)) * 10.0
      == (10 * m * m) as real / (w * t) as real
  {
    var a, b, c := m as real, w as real, t as real;
    assert (a / b) * (a / c) == (a * a) / (b * c);
    assert (w * t) as real == b * c;
    assert (10 * m * m) as real == 10.0 * (a * a);
  }

  /** The score lies in `[0, 1]`, is 0 exactly when nothing matches, and reaches the cap 1
      exactly when `10 * m * m >= w * t`. */
  lemma SimilarityRange(m: nat, w: nat, t: nat)
    requires w > 0 && t > 0
    ensures 0.0 <= Similarity(m, w, t) <= 1.0
    ensures Similarity(m, w, t) == 0.0 <==> m == 0
    ensures Similarity(m, w, t) == 1.0 <==> 10 * m * m >= w * t
  {
    SimilarityFraction(m, w, t);
    var num, den := (10 * m * m) as real, (w * t) as real;
    assert den > 0.0;
    if m > 0 {
      assert 10 * m * m > 0;
    }
    assert num / den >= 1.0 <==> num >= den;
  }

  /** More matches never lower the score. */
  lemma SimilarityMonotone(m1: nat, m2: nat, w: nat, t: nat)
    requires w > 0 && t > 0 && m1 <= m2
    ensures Similarity(m1, w, t) <= Similarity(m2, w, t)
  {
    SimilarityFraction(m1, w, t);
    SimilarityFraction(m2, w, t);
    assert m1 * m1 <= m1 * m2 <= m2 * m2;
    var den := (w * t) as real;
    assert (10 * m1 * m1) as real / den <= (10 * m2 * m2) as real / den;
  }

  /** No occurrence of any term means no matches: `count` is positive exactly when the term
      is a substring. */
  lemma {:induction false} TotalMatchesZeroIff(terms: seq<string>, textLower: string)
    ensures TotalMatches(terms, textLower) == 0 <==> forall k :: 0 <= k < |terms| ==> !Contains(textLower, terms[k])
  {
    if terms != [] {
      var init := terms[..|terms| - 1];
      TotalMatchesZeroIff(init, textLower);
      CountPositiveIffContains(textLower, terms[|terms| - 1]);
      assert forall k :: 0 <= k < |init| ==> init[k] == terms[k];
    }
  }

  /** The score is between 0 and 1; it is 0 exactly when there are no terms, the text has
      no words, or no term occurs in the lower-cased text; and it is 1 exactly at the cap. */
  lemma ScoreSpec(terms: seq<string>, text: string)
    ensures 0.0 <= Score(terms, text) <= 1.0
    ensures Score(terms, text) == 0.0 <==>
      || terms == []
      || AllSpace(text)
      || forall k :: 0 <= k < |terms| ==> !Contains(Lower(text), terms[k])
    ensures terms != [] && !AllSpace(text) ==>
      var m, w := TotalMatches(terms, Lower(text)), WordCount(text);
      (Score(terms, text) == 1.0 <==> 10 * m * m >= w * |terms|)
  {
    WordCountZeroIffAllSpace(text);
    TotalMatchesZeroIff(terms, Lower(text));
    if terms != [] && WordCount(text) > 0 {
      SimilarityRange(TotalMatches(terms, Lower(text)), WordCount(text), |terms|);
    }
  }

  /** An empty term, such as the expansion of an empty query, always matches: Python counts
      it `len(text) + 1` times. */
  lemma EmptyTermMatches(terms: seq<string>, text: string)
    requires [] in terms && !AllSpace(text)
    ensures Score(terms, text) > 0.0
  {
    var k :| 0 <= k < |terms| && terms[k] == [];
    assert OccursAt(Lower(text), [], 0);
    ScoreSpec(terms, text);
  }
}
