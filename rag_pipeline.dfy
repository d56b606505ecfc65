/**
 * The pure steps of the improved RAG system around its retriever and its language model:
 * parsing the model's query variations (`_enhance_query`), de-duplicating and capping the
 * ensemble retriever's documents (`_get_relevant_documents`) and assembling the reply of
 * `ask_question`. What the retriever and the model return are inputs here.
 */
module RagPipeline {
  import opened Wrappers
  import opened StringOps
  import opened ListOps

  // ---------------------------------------------------------------- _enhance_query

  /** At most this many queries are returned, the original question included. */
  const MaxQueries := 4

  /** A line of the model's reply that names a variation: not blank and, stripped, starting
      with one of the one-digit numbers `1`, `2` or `3`. */
  predicate Numbered(line: string) {
    var t := Strip(line);
    t != [] && '1' <= t[0] <= '3'
  }

  /** The variation a line names: what follows its first `.`, stripped, or the whole line,
      stripped, when it has no `.`. */
  function VariationOf(line: string): string {
    if '.' in line then Strip(line[IndexOf(line, '.') + 1..]) else Strip(line)
  }

  /** The variation the line contributes: one when it is numbered and its variation is
      neither empty nor the question itself. */
  function LineVariation(line: string, question: string): Option<string> {
    if Numbered(line) && VariationOf(line) != [] && VariationOf(line) != question
    then Some(VariationOf(line)) else None
  }

  /** The values present in `xs`, in order. */
  function Somes(xs: seq<Option<string>>): seq<string> {
    if xs == [] then []
    else
      var n := |xs| - 1;
      Somes(xs[..n]) + (if xs[n].Some? then [xs[n].value] else [])
  }

  /** What each line contributes. */
  function LineVariations(lines: seq<string>, question: string): (vs: seq<Option<string>>)
    ensures |vs| == |lines|
  {
    seq(|lines|, i requires 0 <= i < |lines| => LineVariation(lines[i], question))
  }

  /** The variations the lines yield, in line order. */
  function Variations(lines: seq<string>, question: string): seq<string> {
    Somes(LineVariations(lines, question))
  }

  /** The lines of the model's reply: `response.strip().split('\n')`. */
  function ReplyLines(reply: string): seq<string> {
    SplitOn(Strip(reply), '\n')
  }

  /** `_enhance_query(question)` when the model replied `reply`, or raised (`None`). */
  function EnhancedQueries(question: string, reply: Option<string>): seq<string> {
    match reply
    case None => [question]
    case Some(r) => Take([question] + Variations(ReplyLines(r), question), MaxQueries)
  }

  /** The parsing loop of `_enhance_query`. */
  method EnhanceQuery(question: string, reply: Option<string>) returns (variations: seq<string>)
    ensures variations == EnhancedQueries(question, reply)
  {
    if reply.None? {
      // the model call raised: fall back to the question alone
      return [question];
    }
    var lines := SplitOn(Strip(reply.value), '\n');
    ghost var opts := LineVariations(lines, question);
    variations := [question];
    var i := 0;
    while i < |lines|
      invariant 0 <= i <= |lines|
      invariant variations == [question] + Somes(opts[..i])
    {
      var v := ParseLine(lines[i], question);
      assert opts[i] == v;
      assert opts[..i + 1][..i] == opts[..i];
      if v.Some? {
        variations := variations + [v.value];
      }
      i := i + 1;
    }
    assert opts[..i] == opts;
    variations := Take(variations, MaxQueries);
  }

  /** One line of the loop of `_enhance_query`. */
  method ParseLine(line: string, question: string) returns (v: Option<string>)
    ensures v == LineVariation(line, question)
  {
    v := None;
    var stripped := Strip(line);
    if stripped != [] && '1' <= stripped[0] <= '3' {
      var variation := if '.' in line then Strip(line[IndexOf(line, '.') + 1..]) else stripped;
      if variation != [] && variation != question {
        v := Some(variation);
      }
    }
  }

  /** A value is present exactly when some element holds it. */
  lemma {:induction false} SomesMembers(xs: seq<Option<string>>, v: string)
    ensures v in Somes(xs) <==> Some(v) in xs
  {
    if xs != [] {
      var n := |xs| - 1;
      SomesMembers(xs[..n], v);
      assert xs == xs[..n] + [xs[n]];
    }
  }

  /** A string is a kept variation exactly when some line yields it. */
  lemma VariationsMembers(lines: seq<string>, question: string, v: string)
    ensures v in Variations(lines, question) <==>
      exists j :: 0 <= j < |lines| && LineVariation(lines[j], question) == Some(v)
  {
    var opts := LineVariations(lines, question);
    SomesMembers(opts, v);
    if Some(v) in opts {
      var j :| 0 <= j < |opts| && opts[j] == Some(v);
    }
    if exists j :: 0 <= j < |lines| && LineVariation(lines[j], question) == Some(v) {
      var j :| 0 <= j < |lines| && LineVariation(lines[j], question) == Some(v);
      assert opts[j] == Some(v);
    }
  }

  /** The first two clauses spell out the parsing rule itself, which is the definition of
      `LineVariation`: a line contributes exactly when, stripped, it starts with `1`, `2` or
      `3` and the text after its first `.` (or the whole line without one), stripped, is
      neither empty nor the question. The third is the consequence: what a line contributes
      is trimmed on both sides. */
  lemma LineVariationSpec(line: string, question: string)
    ensures LineVariation(line, question).Some? <==>
      && Strip(line) != [] && '1' <= Strip(line)[0] <= '3'
      && VariationOf(line) != [] && VariationOf(line) != question
    ensures LineVariation(line, question).Some? ==>
      var v := LineVariation(line, question).value;
      && v == (if '.' in line then Strip(line[IndexOf(line, '.') + 1..]) else Strip(line))
      && !IsSpace(v[0]) && !IsSpace(v[|v| - 1])
  {
    if '.' in line {
      StripSpec(line[IndexOf(line, '.') + 1..]);
    } else {
      StripSpec(line);
    }
  }

  /** The queries start with the question and number at most four: one more than the
      variations found, capped at four. A failed model call gives the question alone. */
  lemma EnhancedQueriesLength(question: string, reply: Option<string>)
    ensures var qs := EnhancedQueries(question, reply);
      && qs != [] && qs[0] == question && |qs| <= MaxQueries
      && (reply.None? ==> qs == [question])
      && (reply.Some? ==>
            |qs| == Min(MaxQueries, 1 + |Variations(ReplyLines(reply.value), question)|))
  {
  }

  /** Every query after the first is what some line of the reply contributes, and they come
      in the order of the lines: they are the first variations the lines yield. */
  lemma EnhancedQueriesFromReply(question: string, reply: string)
    ensures var qs := EnhancedQueries(question, Some(reply));
      forall k :: 1 <= k < |qs| ==>
        exists j :: 0 <= j < |ReplyLines(reply)| && LineVariation(ReplyLines(reply)[j], question) == Some(qs[k])
    ensures var qs := EnhancedQueries(question, Some(reply));
      1 <= |qs| && qs[1..] == Variations(ReplyLines(reply), question)[..|qs| - 1]
  {
    var lines := ReplyLines(reply);
    var vs := Variations(lines, question);
    var qs := EnhancedQueries(question, Some(reply));
    assert qs == ([question] + vs)[..|qs|];
    forall k | 1 <= k < |qs|
      ensures exists j :: 0 <= j < |lines| && LineVariation(lines[j], question) == Some(qs[k])
    {
      assert qs[k] == vs[k - 1];
      VariationsMembers(lines, question, qs[k]);
    }
  }

  /** The question alone comes back exactly when no line of the reply contributes. */
  lemma NoVariationsOnlyQuestion(question: string, reply: string)
    ensures EnhancedQueries(question, Some(reply)) == [question] <==>
      forall j :: 0 <= j < |ReplyLines(reply)| ==> LineVariation(ReplyLines(reply)[j], question).None?
  {
    var lines := ReplyLines(reply);
    var opts := LineVariations(lines, question);
    var vs := Variations(lines, question);
    if vs != [] {
      SomesMembers(opts, vs[0]);
      var j :| 0 <= j < |opts| && opts[j] == Some(vs[0]);
      assert LineVariation(lines[j], question).Some?;
      assert EnhancedQueries(question, Some(reply))[1] == vs[0];
    } else {
      forall j | 0 <= j < |lines|
        ensures LineVariation(lines[j], question).None?
      {
        if opts[j].Some? {
          SomesMembers(opts, opts[j].value);
        }
      }
    }
  }

  // ---------------------------------------------------------------- _get_relevant_documents

  /** A document returned by the ensemble retriever: its text and the metadata the reply uses. */
  datatype RetrievedDoc = RetrievedDoc(pageContent: string, fileName: Option<string>, chunkIndex: Option<int>)

  /** What asking the retriever gives: no retriever was built, the call raised, or documents. */
  datatype Retrieval =
    | NoRetriever
    | RetrievalError
    | Retrieved(docs: seq<RetrievedDoc>)

  /** The page contents of `docs`. */
  function ContentSet(docs: seq<RetrievedDoc>): set<string> {
    if docs == [] then {} else ContentSet(docs[..|docs| - 1]) + {docs[|docs| - 1].pageContent}
  }

  /** No two documents share a page content. */
  ghost predicate DistinctContents(docs: seq<RetrievedDoc>) {
    forall i, j :: 0 <= i < j < |docs| ==> docs[i].pageContent != docs[j].pageContent
  }

  /** The first document of each page content, in order. */
  function Dedup(docs: seq<RetrievedDoc>): seq<RetrievedDoc> {
    if docs == [] then []
    else
      var n := |docs| - 1;
      Dedup(docs[..n]) + (if docs[n].pageContent in ContentSet(docs[..n]) then [] else [docs[n]])
  }

  /** `_get_relevant_documents(question)` as a function of what the retriever returned. */
  function RelevantDocuments(retrieval: Retrieval, topK: int): seq<RetrievedDoc> {
    match retrieval
    case NoRetriever => []
    case RetrievalError => []
    case Retrieved(docs) => Take(Dedup(docs), topK * 2)
  }

  /** The de-duplication loop of `_get_relevant_documents` and its cap of `2 * TOP_K`. */
  method GetRelevantDocuments(retrieval: Retrieval, topK: int) returns (unique: seq<RetrievedDoc>)
    ensures unique == RelevantDocuments(retrieval, topK)
  {
    if !retrieval.Retrieved? {
      return [];
    }
    var docs := retrieval.docs;
    var seen: set<string> := {};
    unique := [];
    var i := 0;
    while i < |docs|
      invariant 0 <= i <= |docs|
      invariant seen == ContentSet(docs[..i])
      invariant unique == Dedup(docs[..i])
    {
      assert docs[..i + 1][..i] == docs[..i];
      if docs[i].pageContent !in seen {
        seen := seen + {docs[i].pageContent};
        unique := unique + [docs[i]];
      }
      i := i + 1;
    }
    assert docs[..i] == docs;
    unique := Take(unique, topK * 2);
  }

  /** A content is seen exactly when some document has it. */
  lemma {:induction false} ContentSetMembers(docs: seq<RetrievedDoc>)
    ensures forall c :: c in ContentSet(docs) <==> exists i :: 0 <= i < |docs| && docs[i].pageContent == c
  {
    if docs != [] {
      var n := |docs| - 1;
      ContentSetMembers(docs[..n]);
      assert forall i :: 0 <= i < n ==> docs[..n][i] == docs[i];
    }
  }

  /** De-duplication keeps the documents in their order. */
  lemma {:induction false} DedupInOrder(docs: seq<RetrievedDoc>)
    ensures SubseqOf(Dedup(docs), docs)
  {
    if docs == [] {
      SubseqOfRefl(docs);
    } else {
      var n := |docs| - 1;
      DedupInOrder(docs[..n]);
      var keep := docs[n].pageContent !in ContentSet(docs[..n]);
      SubseqOfSnoc(Dedup(docs[..n]), docs[..n], docs[n], keep);
      assert docs == docs[..n] + [docs[n]];
      assert Dedup(docs) == if keep then Dedup(docs[..n]) + [docs[n]] else Dedup(docs[..n]);
    }
  }

  /** De-duplication loses no page content. */
  lemma {:induction false} DedupContents(docs: seq<RetrievedDoc>)
    ensures ContentSet(Dedup(docs)) == ContentSet(docs)
  {
    if docs != [] {
      var n := |docs| - 1;
      var u := Dedup(docs);
      DedupContents(docs[..n]);
      assert docs[..|docs| - 1] == docs[..n];
      if docs[n].pageContent !in ContentSet(docs[..n]) {
        assert u == Dedup(docs[..n]) + [docs[n]];
        assert u[..|u| - 1] == Dedup(docs[..n]);
      } else {
        assert u == Dedup(docs[..n]);
      }
    }
  }

  /** De-duplication keeps each page content once. */
  lemma {:induction false} DedupDistinctContents(docs: seq<RetrievedDoc>)
    ensures DistinctContents(Dedup(docs))
  {
    if docs != [] {
      var n := |docs| - 1;
      var prev := Dedup(docs[..n]);
      var u := Dedup(docs);
      DedupDistinctContents(docs[..n]);
      DedupContents(docs[..n]);
      ContentSetMembers(prev);
      forall i, j | 0 <= i < j < |u|
        ensures u[i].pageContent != u[j].pageContent
      {
        assert u[i] == prev[i];
        if j < |prev| {
          assert u[j] == prev[j];
        }
      }
    }
  }

  /** Each kept document is the first one with its page content. */
  lemma {:induction false} DedupKeepsFirst(docs: seq<RetrievedDoc>)
    ensures forall d :: d in Dedup(docs) ==>
      exists i :: 0 <= i < |docs| && docs[i] == d && forall j :: 0 <= j < i ==> docs[j].pageContent != d.pageContent
  {
    if docs != [] {
      var n := |docs| - 1;
      var init := docs[..n];
      DedupKeepsFirst(init);
      ContentSetMembers(init);
      forall d | d in Dedup(docs)
        ensures exists i :: 0 <= i < |docs| && docs[i] == d && forall j :: 0 <= j < i ==> docs[j].pageContent != d.pageContent
      {
        if d in Dedup(init) {
          var i :| 0 <= i < |init| && init[i] == d && forall j :: 0 <= j < i ==> init[j].pageContent != d.pageContent;
          assert docs[i] == d;
          assert forall j :: 0 <= j < i ==> docs[j] == init[j];
        } else {
          assert d == docs[n];
          assert forall j :: 0 <= j < n ==> docs[j] == init[j];
        }
      }
    }
  }

  /** A list without repeated contents is its own de-duplication. */
  lemma {:induction false} DedupDistinct(docs: seq<RetrievedDoc>)
    requires DistinctContents(docs)
    ensures Dedup(docs) == docs
  {
    if docs != [] {
      var n := |docs| - 1;
      var init := docs[..n];
      DistinctPrefix(docs, n);
      DedupDistinct(init);
      ContentSetMembers(init);
      forall i | 0 <= i < n
        ensures init[i].pageContent != docs[n].pageContent
      {
        assert init[i] == docs[i];
      }
      assert docs == init + [docs[n]];
    }
  }

  /** The relevant documents have distinct contents, come in retrieval order, number at most
      `2 * TOP_K`, and de-duplicating them again, or selecting from them again, changes
      nothing. */
  lemma RelevantDocumentsSpec(retrieval: Retrieval, topK: int)
    ensures !retrieval.Retrieved? ==> RelevantDocuments(retrieval, topK) == []
    ensures retrieval.Retrieved? ==> SubseqOf(RelevantDocuments(retrieval, topK), retrieval.docs)
    ensures DistinctContents(RelevantDocuments(retrieval, topK))
    ensures topK >= 0 ==> |RelevantDocuments(retrieval, topK)| <= 2 * topK
    ensures Dedup(RelevantDocuments(retrieval, topK)) == RelevantDocuments(retrieval, topK)
    ensures topK >= 0 ==>
      RelevantDocuments(Retrieved(RelevantDocuments(retrieval, topK)), topK) == RelevantDocuments(retrieval, topK)
  {
    var r := RelevantDocuments(retrieval, topK);
    if retrieval.Retrieved? {
      var u := Dedup(retrieval.docs);
      DedupInOrder(retrieval.docs);
      DedupDistinctContents(retrieval.docs);
      assert r == u[..|r|];
      SubseqOfPrefix(u, retrieval.docs, |r|);
      DistinctPrefix(u, |r|);
    }
    DedupDistinct(r);
  }

  /** A prefix of a list with distinct contents has distinct contents. */
  lemma DistinctPrefix(docs: seq<RetrievedDoc>, n: nat)
    requires DistinctContents(docs) && n <= |docs|
    ensures DistinctContents(docs[..n])
  {
    forall i, j | 0 <= i < j < n
      ensures docs[..n][i].pageContent != docs[..n][j].pageContent
    {
      assert docs[..n][i] == docs[i] && docs[..n][j] == docs[j];
    }
  }

  // ---------------------------------------------------------------- ask_question

  /** The separator between documents in the model's context. */
  const ContextSeparator: string := "\n\n---\n\n"
  const NoDocumentsMessage: string := "No relevant documents found to answer your question."
  const ErrorPrefix: string := "Error processing your question: "

  /** What the model call of `ask_question` gave: an answer, or the message of what it raised. */
  datatype Generation = Generated(text: string) | GenerationFailed(message: string)

  /** One entry of the reply's `sources`. */
  datatype Source = Source(fileName: string, chunkIndex: int, rank: nat)

  /** The reply of `ask_question`; a failure carries no sources and no similarity scores. */
  datatype Reply =
    | Answered(answer: string, sources: seq<Source>, contextLength: nat, numSources: nat, retrievalMethod: string)
    | NotAnswered(answer: string)

  /** The page contents of the documents, in order. */
  function Contents(docs: seq<RetrievedDoc>): (cs: seq<string>)
    ensures |cs| == |docs|
  {
    seq(|docs|, i requires 0 <= i < |docs| => docs[i].pageContent)
  }

  /** The source entry of the `i`-th document (`rank` counts from 1). */
  function SourceAt(docs: seq<RetrievedDoc>, i: nat): Source
    requires i < |docs|
  {
    Source(docs[i].fileName.GetOr("Unknown"), docs[i].chunkIndex.GetOr(0), i + 1)
  }

  /** The source entries of the documents. */
  function SourcesOf(docs: seq<RetrievedDoc>): (ss: seq<Source>)
    ensures |ss| == |docs|
  {
    seq(|docs|, i requires 0 <= i < |docs| => SourceAt(docs, i))
  }

  /** The context handed to the model. */
  function Context(docs: seq<RetrievedDoc>): string {
    Join(Contents(docs), ContextSeparator)
  }

  /** The reply for the relevant documents `docs` and the model's outcome. */
  function ReplyFor(docs: seq<RetrievedDoc>, includeSources: bool, generation: Generation): Reply {
    if docs == [] then NotAnswered(NoDocumentsMessage)
    else match generation
      case GenerationFailed(msg) => NotAnswered(ErrorPrefix + msg)
      case Generated(text) =>
        Answered(text, if includeSources then SourcesOf(docs) else [], |Context(docs)|, |docs|, "ensemble")
  }

  /** `ask_question(question, include_sources)` as a function of what the retriever and the
      model returned. */
  function Ask(retrieval: Retrieval, topK: int, includeSources: bool, generation: Generation): Reply {
    ReplyFor(RelevantDocuments(retrieval, topK), includeSources, generation)
  }

  /** The assembly loop of `ask_question`, given the relevant documents. */
  method AssembleReply(docs: seq<RetrievedDoc>, includeSources: bool, generation: Generation) returns (reply: Reply)
    ensures reply == ReplyFor(docs, includeSources, generation)
  {
    if docs == [] {
      return NotAnswered(NoDocumentsMessage);
    }
    var contextParts: seq<string> := [];
    var sources: seq<Source> := [];
    var i := 0;
    while i < |docs|
      invariant 0 <= i <= |docs|
      invariant contextParts == Contents(docs)[..i]
      invariant sources == SourcesOf(docs)[..i]
    {
      contextParts := contextParts + [docs[i].pageContent];
      sources := sources + [Source(docs[i].fileName.GetOr("Unknown"), docs[i].chunkIndex.GetOr(0), i + 1)];
      i := i + 1;
    }
    assert contextParts == Contents(docs) && sources == SourcesOf(docs);
    var context := Join(contextParts, ContextSeparator);
    match generation {
      case GenerationFailed(msg) =>
        reply := NotAnswered(ErrorPrefix + msg);
      case Generated(text) =>
        reply := Answered(text, if includeSources then sources else [], |context|, |sources|, "ensemble");
    }
  }

  /** `ask_question`: retrieve, then assemble. */
  method AskQuestion(retrieval: Retrieval, topK: int, includeSources: bool, generation: Generation) returns (reply: Reply)
    ensures reply == Ask(retrieval, topK, includeSources, generation)
  {
    var docs := GetRelevantDocuments(retrieval, topK);
    reply := AssembleReply(docs, includeSources, generation);
  }

  /** The reply: nothing relevant means the fixed message whatever the model would say; an
      answer lists its sources ranked 1, 2, … in retrieval order with the documents' file
      names and chunk indexes (defaults `Unknown` and 0), counts every document even when the
      sources are withheld, and reports the context's length: the contents' lengths plus 7
      per separator. Every content occurs in the context. */
  lemma ReplySpec(docs: seq<RetrievedDoc>, includeSources: bool, generation: Generation)
    ensures docs == [] ==> ReplyFor(docs, includeSources, generation) == NotAnswered(NoDocumentsMessage)
    ensures docs != [] && generation.GenerationFailed? ==>
      ReplyFor(docs, includeSources, generation) == NotAnswered(ErrorPrefix + generation.message)
    ensures docs != [] && generation.Generated? ==>
      var r := ReplyFor(docs, includeSources, generation);
      && r.Answered? && r.answer == generation.text
      && r.numSources == |docs| >= 1
      && r.contextLength == TotalLength(Contents(docs)) + 7 * (|docs| - 1)
      && (includeSources ==> |r.sources| == |docs| && forall i :: 0 <= i < |docs| ==>
            && r.sources[i].rank == i + 1
            && (docs[i].fileName.Some? ==> r.sources[i].fileName == docs[i].fileName.value)
            && (docs[i].fileName.None? ==> r.sources[i].fileName == "Unknown")
            && (docs[i].chunkIndex.Some? ==> r.sources[i].chunkIndex == docs[i].chunkIndex.value)
            && (docs[i].chunkIndex.None? ==> r.sources[i].chunkIndex == 0))
      && (!includeSources ==> r.sources == [])
    ensures forall i :: 0 <= i < |docs| ==> Contains(Context(docs), docs[i].pageContent)
  {
    if docs != [] {
      JoinLength(Contents(docs), ContextSeparator);
    }
    JoinContainsParts(Contents(docs), ContextSeparator);
    assert forall i :: 0 <= i < |docs| ==> Contents(docs)[i] == docs[i].pageContent;
  }

  /** Without a retriever, or when it raises, the reply is the fixed message. */
  lemma NoRetrievalNoAnswer(retrieval: Retrieval, topK: int, includeSources: bool, generation: Generation)
    requires !retrieval.Retrieved? || retrieval.docs == [] || (0 <= topK && topK * 2 == 0)
    ensures Ask(retrieval, topK, includeSources, generation) == NotAnswered(NoDocumentsMessage)
  {
  }

  /** The number of sources never exceeds `2 * TOP_K`, and the reported count is the length
      of the source list. */
  lemma AskSourcesBounded(retrieval: Retrieval, topK: int, generation: Generation)
    requires topK >= 0
    ensures var r := Ask(retrieval, topK, true, generation);
      r.Answered? ==> r.numSources == |r.sources| <= 2 * topK
  {
    RelevantDocumentsSpec(retrieval, topK);
  }
}
