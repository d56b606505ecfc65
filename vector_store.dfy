/**
 * `BasicSemanticVectorStore`: an in-memory list of chunk entries with add, search,
 * statistics, delete-by-file-name and clear. Persistence to the JSON file is a no-op here:
 * the list read at start-up is a constructor argument, and every operation acts on the list
 * in memory.
 */
module VectorStore {
  import opened Wrappers
  import opened StringOps
  import opened ListOps
  import opened Chunker
  import opened Scoring
  import opened Ranking

  // ---------------------------------------------------------------- data

  /** A document handed to `add_documents`. An absent `text` key is the empty text; the
      optional keys are `file_name`, `file_path` and `processing_info.method`. */
  datatype SourceDocument = SourceDocument(
    text: string,
    fileName: Option<string>,
    filePath: Option<string>,
    processingMethod: Option<string>)

  /** The metadata stored with every chunk. */
  datatype Metadata = Metadata(
    fileName: string,
    filePath: string,
    chunkIndex: nat,
    totalChunks: nat,
    chunkSize: nat,
    processingMethod: string)

  /** One stored chunk. */
  datatype Entry = Entry(id: string, text: string, metadata: Metadata)

  /** The reply of `add_documents`; a document with text but no `file_name` raises a
      `KeyError`, which the handler turns into `{'success': False, 'error': "'file_name'"}`. */
  datatype AddResult =
    | AddSuccess(totalChunksAdded: nat, totalDocumentsProcessed: nat)
    | AddFailure(error: string)

  /** One hit of `search_similar`. */
  datatype SearchResult = SearchResult(
    document: string,
    metadata: Metadata,
    similarityScore: real,
    distance: real,
    rank: nat)

  /** The reply of `get_collection_stats`; the Python list of file names is a set here. */
  datatype CollectionStats = CollectionStats(
    totalDocuments: nat,
    uniqueFiles: nat,
    fileNames: set<string>,
    estimatedTotalChunks: nat)

  /** The reply of `delete_documents`. */
  datatype DeleteResult =
    | Deleted(deletedChunks: nat, deletedFiles: seq<string>)
    | DeleteFailure(error: string)

  /** The reply of `clear_collection`. */
  datatype ClearResult = Cleared(message: string)

  const KeyErrorFileName: string := "'file_name'"
  const NoMatchMessage: string := "No matching documents found"
  const ClearedMessage: string := "Collection cleared"

  // ---------------------------------------------------------------- add_documents

  /** The id of chunk `i` of a file: `f"{file_name}_{i}"`. */
  function ChunkId(fileName: string, i: nat): string {
    fileName + "_" + NatToString(i)
  }

  /** The entry for chunk `i` of a document whose file name is `fileName`. */
  function MakeEntry(d: SourceDocument, fileName: string, chunks: seq<string>, i: nat): Entry
    requires i < |chunks|
  {
    Entry(ChunkId(fileName, i), chunks[i],
      Metadata(fileName, d.filePath.GetOr(""), i, |chunks|, |chunks[i]|, d.processingMethod.GetOr("unknown")))
  }

  /** The entries for all chunks of one document, in chunk order. */
  function EntriesFor(d: SourceDocument, fileName: string, chunks: seq<string>): (es: seq<Entry>)
    ensures |es| == |chunks|
  {
    seq(|chunks|, i requires 0 <= i < |chunks| => MakeEntry(d, fileName, chunks, i))
  }

  /** The chunks of every document, in document order (`chunk_text(doc['text'])`). */
  function ChunkLists(docs: seq<SourceDocument>, size: int, overlap: int): (cl: seq<seq<string>>)
    requires ValidParams(size, overlap)
    ensures |cl| == |docs|
  {
    seq(|docs|, i requires 0 <= i < |docs| => Chunks(docs[i].text, size, overlap))
  }

  /** A document with chunks `cs` stops the run: it has chunks but no file name to build
      their ids from. */
  predicate MissingFileName(d: SourceDocument, cs: seq<string>) {
    d.text != [] && d.fileName.None? && cs != []
  }

  /** The entries a document with chunks `cs` contributes: none for an empty text, one per
      chunk otherwise. */
  function DocEntries(d: SourceDocument, cs: seq<string>): seq<Entry> {
    if d.text != [] && d.fileName.Some? then EntriesFor(d, d.fileName.value, cs) else []
  }

  /** Some document before position `i` of `docs`, chunked as `cl`, stops the run. */
  function FailsBefore(docs: seq<SourceDocument>, cl: seq<seq<string>>, i: nat): bool
    requires |cl| == |docs| && i <= |docs|
  {
    i > 0 && (FailsBefore(docs, cl, i - 1) || MissingFileName(docs[i - 1], cl[i - 1]))
  }

  /** The entries appended for the documents before position `i`, in order, up to the first
      document that stops the run. */
  function AddedBefore(docs: seq<SourceDocument>, cl: seq<seq<string>>, i: nat): seq<Entry>
    requires |cl| == |docs| && i <= |docs|
  {
    if i == 0 then []
    else if FailsBefore(docs, cl, i - 1) then AddedBefore(docs, cl, i - 1)
    else AddedBefore(docs, cl, i - 1) + DocEntries(docs[i - 1], cl[i - 1])
  }

  /** The reply of `add_documents(docs)`. */
  function AddReply(docs: seq<SourceDocument>, cl: seq<seq<string>>): AddResult
    requires |cl| == |docs|
  {
    if FailsBefore(docs, cl, |docs|) then AddFailure(KeyErrorFileName)
    else AddSuccess(|AddedBefore(docs, cl, |docs|)|, |docs|)
  }

  // ---------------------------------------------------------------- search_similar

  /** The `(index, score)` pairs of the entries scoring at least `threshold`, in store order. */
  function Candidates(docs: seq<Entry>, terms: seq<string>, threshold: real): (cs: seq<Scored>)
    ensures forall x :: x in cs ==> x.index < |docs|
  {
    if docs == [] then []
    else
      var n := |docs| - 1;
      var s := Score(terms, docs[n].text);
      Candidates(docs[..n], terms, threshold) + (if s >= threshold then [Scored(n, s)] else [])
  }

  /** The first `topK` candidates after the stable sort by descending score. */
  function TopCandidates(docs: seq<Entry>, terms: seq<string>, topK: int, threshold: real): (top: seq<Scored>)
    ensures forall x :: x in top ==> x.index < |docs|
  {
    var cs := Candidates(docs, terms, threshold);
    var sorted := SortByScoreDesc(cs);
    SortPermutes(cs);
    TakeMembers(sorted, topK);
    assert forall x :: x in sorted ==> x in multiset(sorted);
    Take(sorted, topK)
  }

  /** The hit for the candidate at position `j` of the ranking. */
  function ResultAt(docs: seq<Entry>, c: Scored, j: nat): SearchResult
    requires c.index < |docs|
  {
    SearchResult(docs[c.index].text, docs[c.index].metadata, c.score, 1.0 - c.score, j + 1)
  }

  /** The hits for the ranked candidates `top`, ranked from 1. */
  function ResultsOf(docs: seq<Entry>, top: seq<Scored>): (rs: seq<SearchResult>)
    requires forall x :: x in top ==> x.index < |docs|
    ensures |rs| == |top|
  {
    seq(|top|, j requires 0 <= j < |top| => ResultAt(docs, top[j], j))
  }

  /** `search_similar(query, top_k, threshold)` as a function of the store. */
  function SearchResults(docs: seq<Entry>, query: string, topK: int, threshold: real): seq<SearchResult> {
    ResultsOf(docs, TopCandidates(docs, ExpandedTerms(query), topK, threshold))
  }

  lemma {:induction false} TakeMembers(s: seq<Scored>, k: int)
    ensures forall x :: x in Take(s, k) ==> x in s
  {
    assert Take(s, k) == s[..|Take(s, k)|];
  }

  // ---------------------------------------------------------------- get_collection_stats

  /** The file names of the entries. */
  function FileNames(docs: seq<Entry>): set<string> {
    if docs == [] then {} else FileNames(docs[..|docs| - 1]) + {docs[|docs| - 1].metadata.fileName}
  }

  /** The sum of the entries' `total_chunks`. */
  function SumTotalChunks(docs: seq<Entry>): nat {
    if docs == [] then 0 else SumTotalChunks(docs[..|docs| - 1]) + docs[|docs| - 1].metadata.totalChunks
  }

  /** `get_collection_stats()` as a function of the store. */
  function StatsOf(docs: seq<Entry>): CollectionStats {
    CollectionStats(|docs|, |FileNames(docs)|, FileNames(docs), SumTotalChunks(docs))
  }

  // ---------------------------------------------------------------- delete_documents

  /** The entries whose file name is not listed, in store order. */
  function Survivors(docs: seq<Entry>, names: seq<string>): seq<Entry> {
    if docs == [] then []
    else
      var d := docs[|docs| - 1];
      Survivors(docs[..|docs| - 1], names) + (if d.metadata.fileName !in names then [d] else [])
  }

  /** The reply for deleting from `before`, leaving `after`. */
  function DeleteReply(before: seq<Entry>, after: seq<Entry>, names: seq<string>): DeleteResult {
    if |before| - |after| > 0 then Deleted(|before| - |after|, names) else DeleteFailure(NoMatchMessage)
  }

  // ---------------------------------------------------------------- the store

  class SemanticStore {
    /** `self.documents`. */
    var documents: seq<Entry>
    /** `CHUNK_SIZE`, `CHUNK_OVERLAP`, `TOP_K_RESULTS` and `SIMILARITY_THRESHOLD` from the configuration. */
    const chunkSize: int
    const chunkOverlap: int
    const topK: int
    const threshold: real

    /** The configured sizes let the chunker terminate. `__init__` does not check them, and
        only `add_documents` chunks, so only it needs this. */
    predicate Valid() {
      ValidParams(chunkSize, chunkOverlap)
    }

    /** A store holding the entries read at start-up. */
    constructor (loaded: seq<Entry>, chunkSize: int, chunkOverlap: int, topK: int, threshold: real)
      ensures documents == loaded
      ensures this.chunkSize == chunkSize && this.chunkOverlap == chunkOverlap
      ensures this.topK == topK && this.threshold == threshold
    {
      documents := loaded;
      this.chunkSize := chunkSize;
      this.chunkOverlap := chunkOverlap;
      this.topK := topK;
      this.threshold := threshold;
    }

    /** `add_documents(documents)`: appends the entries of every document with text, one per
        chunk, and stops at the first document with chunks but no file name. */
    method AddDocuments(docs: seq<SourceDocument>) returns (result: AddResult)
      requires Valid()
      modifies this
      ensures documents == old(documents) + AddedBefore(docs, ChunkLists(docs, chunkSize, chunkOverlap), |docs|)
      ensures result == AddReply(docs, ChunkLists(docs, chunkSize, chunkOverlap))
    {
      ghost var cl := ChunkLists(docs, chunkSize, chunkOverlap);
      var totalAdded := 0;
      var failed := false;
      var i := 0;
      while i < |docs| && !failed
        invariant 0 <= i <= |docs|
        invariant failed == FailsBefore(docs, cl, i)
        invariant documents == old(documents) + AddedBefore(docs, cl, i)
        invariant totalAdded == |AddedBefore(docs, cl, i)|
      {
        var stored, added := AddDocument(docs[i], cl[i]);
        assert AddedBefore(docs, cl, i + 1) == AddedBefore(docs, cl, i) + DocEntries(docs[i], cl[i]);
        if stored {
          totalAdded := totalAdded + added;
        } else {
          assert DocEntries(docs[i], cl[i]) == [];
          failed := true;
        }
        i := i + 1;
      }
      if failed {
        FailureSticks(docs, cl, i);
        // `doc['file_name']` raised a `KeyError`, caught by the handler
        result := AddFailure(KeyErrorFileName);
      } else {
        result := AddSuccess(totalAdded, |docs|);
      }
    }

    /** The body of the loop over the documents: skip a document without text, else chunk it
        and store its chunks; `stored` is false when it has chunks but no file name, and then
        nothing of it is stored (`doc['file_name']` raises at the first chunk). */
    method AddDocument(doc: SourceDocument, ghost cs: seq<string>) returns (stored: bool, added: nat)
      requires Valid() && cs == Chunks(doc.text, chunkSize, chunkOverlap)
      modifies this
      ensures stored == !MissingFileName(doc, cs)
      ensures stored ==> documents == old(documents) + DocEntries(doc, cs) && added == |DocEntries(doc, cs)|
      ensures !stored ==> documents == old(documents)
    {
      if doc.text == [] {
        return true, 0;
      }
      var chunks := ChunkText(doc.text, chunkSize, chunkOverlap);
      if chunks == [] {
        return true, 0;
      }
      if doc.fileName.None? {
        return false, 0;
      }
      StoreChunks(doc, doc.fileName.value, chunks);
      return true, |chunks|;
    }

    /** The loop over the chunks of one document: append one entry per chunk. */
    method StoreChunks(doc: SourceDocument, fileName: string, chunks: seq<string>)
      modifies this
      ensures documents == old(documents) + EntriesFor(doc, fileName, chunks)
    {
      var i := 0;
      while i < |chunks|
        invariant 0 <= i <= |chunks|
        invariant documents == old(documents) + EntriesFor(doc, fileName, chunks)[..i]
      {
        var metadata := Metadata(fileName, doc.filePath.GetOr(""), i, |chunks|, |chunks[i]|,
          doc.processingMethod.GetOr("unknown"));
        var entry := Entry(ChunkId(fileName, i), chunks[i], metadata);
        assert EntriesFor(doc, fileName, chunks)[..i + 1] == EntriesFor(doc, fileName, chunks)[..i] + [entry];
        documents := documents + [entry];
        i := i + 1;
      }
      assert EntriesFor(doc, fileName, chunks)[..i] == EntriesFor(doc, fileName, chunks);
    }

    /** `search_similar(query, top_k, threshold)`; absent arguments take the configured values. */
    method SearchSimilar(query: string, topKArg: Option<int>, thresholdArg: Option<real>) returns (results: seq<SearchResult>)
      ensures results == SearchResults(documents, query, topKArg.GetOr(topK), thresholdArg.GetOr(threshold))
    {
      var k := topKArg.GetOr(topK);
      var thr := thresholdArg.GetOr(threshold);
      var expandedTerms := ExpandQuery(query);
      var similarities := ScoreDocuments(expandedTerms, thr);
      // `similarities.sort(key=lambda x: x[1], reverse=True)`
      similarities := SortByScoreDesc(similarities);
      var top := Take(similarities, k);
      assert top == TopCandidates(documents, expandedTerms, k, thr);
      results := BuildResults(top);
    }

    /** The scoring loop of the search: the `(index, score)` pairs reaching the threshold. */
    method ScoreDocuments(terms: seq<string>, thr: real) returns (similarities: seq<Scored>)
      ensures similarities == Candidates(documents, terms, thr)
    {
      similarities := [];
      var i := 0;
      while i < |documents|
        invariant 0 <= i <= |documents|
        invariant similarities == Candidates(documents[..i], terms, thr)
      {
        assert documents[..i + 1][..i] == documents[..i];
        var similarityScore := CalculateSimilarity(terms, documents[i].text);
        if similarityScore >= thr {
          similarities := similarities + [Scored(i, similarityScore)];
        }
        i := i + 1;
      }
      assert documents[..i] == documents;
    }

    /** The result loop of the search: one hit per ranked candidate, numbered from 1. */
    method BuildResults(top: seq<Scored>) returns (results: seq<SearchResult>)
      requires forall x :: x in top ==> x.index < |documents|
      ensures results == ResultsOf(documents, top)
    {
      results := [];
      var j := 0;
      while j < |top|
        invariant 0 <= j <= |top|
        invariant |results| == j
        invariant forall m :: 0 <= m < j ==> results[m] == ResultAt(documents, top[m], m)
      {
        var doc := documents[top[j].index];
        var similarityScore := top[j].score;
        results := results + [SearchResult(doc.text, doc.metadata, similarityScore, 1.0 - similarityScore, |results| + 1)];
        j := j + 1;
      }
    }

    /** `get_collection_stats()`. */
    method GetCollectionStats() returns (stats: CollectionStats)
      ensures stats == StatsOf(documents)
    {
      var fileNames: set<string> := {};
      var totalChunks := 0;
      var i := 0;
      while i < |documents|
        invariant 0 <= i <= |documents|
        invariant fileNames == FileNames(documents[..i])
        invariant totalChunks == SumTotalChunks(documents[..i])
      {
        assert documents[..i + 1][..i] == documents[..i];
        fileNames := fileNames + {documents[i].metadata.fileName};
        totalChunks := totalChunks + documents[i].metadata.totalChunks;
        i := i + 1;
      }
      assert documents[..i] == documents;
      stats := CollectionStats(|documents|, |fileNames|, fileNames, totalChunks);
    }

    /** `delete_documents(file_names)`: keeps the entries of other files, in order. */
    method DeleteDocuments(names: seq<string>) returns (result: DeleteResult)
      modifies this
      ensures documents == Survivors(old(documents), names)
      ensures result == DeleteReply(old(documents), documents, names)
    {
      var originalCount := |documents|;
      var kept: seq<Entry> := [];
      var i := 0;
      while i < |documents|
        invariant 0 <= i <= |documents|
        invariant kept == Survivors(documents[..i], names)
      {
        assert documents[..i + 1][..i] == documents[..i];
        if documents[i].metadata.fileName !in names {
          kept := kept + [documents[i]];
        }
        i := i + 1;
      }
      assert documents[..i] == documents;
      documents := kept;
      var deletedCount := originalCount - |documents|;
      if deletedCount > 0 {
        result := Deleted(deletedCount, names);
      } else {
        result := DeleteFailure(NoMatchMessage);
      }
    }

    /** `clear_collection()`. */
    method ClearCollection() returns (result: ClearResult)
      modifies this
      ensures documents == []
      ensures result == Cleared(ClearedMessage)
    {
      documents := [];
      result := Cleared(ClearedMessage);
    }
  }

  // ---------------------------------------------------------------- properties

  // ---------------------------------------------------------------- chunk ids

  /** Distinct (file name, chunk index) pairs get distinct ids: the part after the last `_`
      is all digits, so the `_` that ends the file name is determined. */
  lemma ChunkIdInjective(f: string, i: nat, g: string, j: nat)
    ensures ChunkId(f, i) == ChunkId(g, j) <==> f == g && i == j
  {
    if ChunkId(f, i) == ChunkId(g, j) {
      var s := ChunkId(f, i);
      var di, dj := NatToString(i), NatToString(j);
      // the `_` after each file name is followed only by digits, so both `_` are the same one
      assert s[|f|] == '_' && s[|g|] == '_';
      assert forall k :: |f| < k < |s| ==> s[k] == di[k - |f| - 1];
      assert forall k :: |g| < k < |s| ==> s[k] == dj[k - |g| - 1];
      assert |f| == |g|;
      assert f == s[..|f|] == g;
      assert di == s[|f| + 1..] == dj;
      NatToStringRoundTrip(i);
      NatToStringRoundTrip(j);
    }
  }

  /** What the store writes for a chunk: the id names the file and the chunk index, the index
      is below the recorded chunk count and the recorded size is the text's length. */
  ghost predicate WellFormed(e: Entry) {
    && e.id == ChunkId(e.metadata.fileName, e.metadata.chunkIndex)
    && e.metadata.chunkIndex < e.metadata.totalChunks
    && e.metadata.chunkSize == |e.text|
  }

  /** The entries of one document are well formed, carry its chunks in order under its file
      name, record the document's chunk count, its file path (default empty) and its
      processing method (default `unknown`), and have pairwise distinct ids. */
  lemma EntriesForSpec(d: SourceDocument, f: string, chunks: seq<string>)
    ensures forall i :: 0 <= i < |chunks| ==>
      var e := EntriesFor(d, f, chunks)[i];
      && WellFormed(e) && e.text == chunks[i] && e.metadata.fileName == f && e.metadata.chunkIndex == i
      && e.metadata.totalChunks == |chunks|
      && (d.filePath.Some? ==> e.metadata.filePath == d.filePath.value)
      && (d.filePath.None? ==> e.metadata.filePath == "")
      && (d.processingMethod.Some? ==> e.metadata.processingMethod == d.processingMethod.value)
      && (d.processingMethod.None? ==> e.metadata.processingMethod == "unknown")
    ensures forall i, j :: 0 <= i < j < |chunks| ==> EntriesFor(d, f, chunks)[i].id != EntriesFor(d, f, chunks)[j].id
  {
    forall i, j | 0 <= i < j < |chunks|
      ensures EntriesFor(d, f, chunks)[i].id != EntriesFor(d, f, chunks)[j].id
    {
      ChunkIdInjective(f, i, f, j);
    }
  }

  /** `add_documents([d, d])` for a document with a file name and chunks appends its entries
      twice: the first chunk's id `f"{file_name}_0"` is stored twice. Ids are unique only as
      long as no file is added again. */
  lemma AddTwiceDuplicatesIds(d: SourceDocument, f: string, cs: seq<string>)
    requires d.text != [] && d.fileName == Some(f) && cs != []
    ensures var added := AddedBefore([d, d], [cs, cs], 2);
      && added == EntriesFor(d, f, cs) + EntriesFor(d, f, cs)
      && added[0].id == ChunkId(f, 0) && added[|cs|].id == ChunkId(f, 0)
      && 0 < |cs| < |added|
    ensures AddReply([d, d], [cs, cs]) == AddSuccess(2 * |cs|, 2)
  {
    var docs, cl := [d, d], [cs, cs];
    var es := EntriesFor(d, f, cs);
    assert !FailsBefore(docs, cl, 1);
    assert AddedBefore(docs, cl, 1) == es;
    assert AddedBefore(docs, cl, 2) == es + es;
    assert (es + es)[|cs|] == es[0];
  }

  // ---------------------------------------------------------------- add properties

  /** A run fails exactly when some document has chunks but no file name. */
  lemma {:induction false} FailsBeforeIff(docs: seq<SourceDocument>, cl: seq<seq<string>>, i: nat)
    requires |cl| == |docs| && i <= |docs|
    ensures FailsBefore(docs, cl, i) <==> exists k :: 0 <= k < i && MissingFileName(docs[k], cl[k])
  {
    if i > 0 {
      FailsBeforeIff(docs, cl, i - 1);
    }
  }

  /** `add_documents` succeeds exactly when no document with chunks lacks a file name; then
      it reports every document as processed, and the count it reports is the number of
      entries appended, so the store's `total_documents` grows by exactly that count. */
  lemma AddReplyCounts(store: seq<Entry>, docs: seq<SourceDocument>, cl: seq<seq<string>>)
    requires |cl| == |docs|
    ensures AddReply(docs, cl).AddSuccess? <==>
      forall k :: 0 <= k < |docs| ==> !MissingFileName(docs[k], cl[k])
    ensures AddReply(docs, cl).AddFailure? ==> AddReply(docs, cl).error == KeyErrorFileName
    ensures AddReply(docs, cl).AddSuccess? ==>
      && AddReply(docs, cl).totalDocumentsProcessed == |docs|
      && StatsOf(store + AddedBefore(docs, cl, |docs|)).totalDocuments
           == StatsOf(store).totalDocuments + AddReply(docs, cl).totalChunksAdded
  {
    FailsBeforeIff(docs, cl, |docs|);
  }

  /** Every entry a run appends is well formed. */
  lemma {:induction false} AddedWellFormed(docs: seq<SourceDocument>, cl: seq<seq<string>>, i: nat)
    requires |cl| == |docs| && i <= |docs|
    ensures forall e :: e in AddedBefore(docs, cl, i) ==> WellFormed(e)
  {
    if i > 0 {
      AddedWellFormed(docs, cl, i - 1);
      var d := docs[i - 1];
      if d.text != [] && d.fileName.Some? {
        EntriesForSpec(d, d.fileName.value, cl[i - 1]);
      }
    }
  }

  /** Every entry a run appends holds chunk `k` of some document with a file name, recorded
      under that name with index `k` and that document's chunk count. */
  lemma {:induction false} AddedFrom(docs: seq<SourceDocument>, cl: seq<seq<string>>, i: nat)
    requires |cl| == |docs| && i <= |docs|
    ensures forall e :: e in AddedBefore(docs, cl, i) ==>
      exists j :: 0 <= j < i && docs[j].fileName == Some(e.metadata.fileName)
                  && e.metadata.chunkIndex < |cl[j]| && e.text == cl[j][e.metadata.chunkIndex]
                  && e.metadata.totalChunks == |cl[j]|
  {
    if i > 0 {
      AddedFrom(docs, cl, i - 1);
      var d := docs[i - 1];
      if d.text != [] && d.fileName.Some? {
        EntriesForSpec(d, d.fileName.value, cl[i - 1]);
        forall e | e in DocEntries(d, cl[i - 1])
          ensures docs[i - 1].fileName == Some(e.metadata.fileName)
                  && e.metadata.chunkIndex < |cl[i - 1]| && e.text == cl[i - 1][e.metadata.chunkIndex]
                  && e.metadata.totalChunks == |cl[i - 1]|
        {
          var k :| 0 <= k < |cl[i - 1]| && DocEntries(d, cl[i - 1])[k] == e;
        }
      }
    }
  }

  /** With the store's chunking, every appended entry holds a non-empty trimmed chunk of one
      of the documents, of at most `size + 100` characters, under that document's file name
      and with that document's number of chunks. */
  lemma AddedEntriesSpec(docs: seq<SourceDocument>, size: int, overlap: int)
    requires ValidParams(size, overlap)
    ensures forall e :: e in AddedBefore(docs, ChunkLists(docs, size, overlap), |docs|) ==>
      && WellFormed(e)
      && e.text != [] && |e.text| <= size + SnapMargin
      && exists i :: 0 <= i < |docs| && docs[i].fileName == Some(e.metadata.fileName)
                     && e.text in Chunks(docs[i].text, size, overlap)
                     && e.metadata.totalChunks == |Chunks(docs[i].text, size, overlap)|
  {
    var cl := ChunkLists(docs, size, overlap);
    AddedWellFormed(docs, cl, |docs|);
    AddedFrom(docs, cl, |docs|);
    forall e | e in AddedBefore(docs, cl, |docs|)
      ensures && e.text != [] && |e.text| <= size + SnapMargin
              && exists i :: 0 <= i < |docs| && docs[i].fileName == Some(e.metadata.fileName)
                             && e.text in Chunks(docs[i].text, size, overlap)
                             && e.metadata.totalChunks == |Chunks(docs[i].text, size, overlap)|
    {
      var i :| 0 <= i < |docs| && docs[i].fileName == Some(e.metadata.fileName)
               && e.metadata.chunkIndex < |cl[i]| && e.text == cl[i][e.metadata.chunkIndex]
               && e.metadata.totalChunks == |cl[i]|;
      ChunksAreTrimmedPieces(docs[i].text, size, overlap);
      assert e.text in cl[i];
    }
  }

  /** Once a document has failed, later documents add nothing. */
  lemma {:induction false} FailureSticks(docs: seq<SourceDocument>, cl: seq<seq<string>>, i: nat)
    requires |cl| == |docs| && i <= |docs|
    requires FailsBefore(docs, cl, i)
    ensures FailsBefore(docs, cl, |docs|)
    ensures AddedBefore(docs, cl, |docs|) == AddedBefore(docs, cl, i)
    decreases |docs| - i
  {
    if i < |docs| {
      FailureSticks(docs, cl, i + 1);
    }
  }

  // ---------------------------------------------------------------- search properties

  /** A pair is a candidate exactly when it names an entry whose score reaches the threshold,
      with that score; candidates are in store order. */
  lemma {:induction false} CandidatesSpec(docs: seq<Entry>, terms: seq<string>, threshold: real)
    ensures InStoreOrder(Candidates(docs, terms, threshold))
    ensures forall x :: x in Candidates(docs, terms, threshold) <==>
      x.index < |docs| && x.score == Score(terms, docs[x.index].text) && x.score >= threshold
  {
    if docs != [] {
      var n := |docs| - 1;
      var init := docs[..n];
      CandidatesSpec(init, terms, threshold);
      var cs := Candidates(docs, terms, threshold);
      var ci := Candidates(init, terms, threshold);
      assert forall i :: 0 <= i < n ==> init[i] == docs[i];
      forall i, j | 0 <= i < j < |cs|
        ensures cs[i].index < cs[j].index
      {
        assert cs[i] == ci[i] && cs[i] in ci;
        if j < |ci| {
          assert cs[j] == ci[j];
        }
      }
    }
  }

  /** The first `k` of a ranked list are ranked, and every element left out comes after
      every element kept. */
  lemma RankedPrefix(sorted: seq<Scored>, k: int)
    requires Ranked(sorted)
    ensures Ranked(Take(sorted, k)) && NonIncreasing(Take(sorted, k))
    ensures forall x, y :: x in sorted && x !in Take(sorted, k) && y in Take(sorted, k) ==> Before(y, x)
  {
    var top := Take(sorted, k);
    forall i, j | 0 <= i < j < |top|
      ensures Before(top[i], top[j])
    {
      assert top[i] == sorted[i] && top[j] == sorted[j];
    }
    forall x, y | x in sorted && x !in top && y in top
      ensures Before(y, x)
    {
      var p :| 0 <= p < |sorted| && sorted[p] == x;
      var q :| 0 <= q < |top| && top[q] == y;
      assert sorted[q] == y;
    }
  }

  /** The ranked candidates: drawn from the candidates, ranked by descending score with ties in
      store order, as many as `top_k` asks for, and no left-out candidate ranks above a kept one. */
  lemma TopCandidatesSpec(docs: seq<Entry>, terms: seq<string>, topK: int, threshold: real)
    ensures var cs, top := Candidates(docs, terms, threshold), TopCandidates(docs, terms, topK, threshold);
      && (forall x :: x in top ==> x in cs)
      && Ranked(top)
      && NonIncreasing(top)
      && (topK >= 0 ==> |top| == if topK <= |cs| then topK else |cs|)
      && (forall x, y :: x in cs && x !in top && y in top ==> Before(y, x))
  {
    var cs := Candidates(docs, terms, threshold);
    var sorted := SortByScoreDesc(cs);
    var top := TopCandidates(docs, terms, topK, threshold);
    CandidatesSpec(docs, terms, threshold);
    SortSpec(cs);
    RankedPrefix(sorted, topK);
    assert top == Take(sorted, topK);
    forall x | x in top
      ensures x in cs
    {
      assert x in multiset(sorted);
    }
    forall x | x in cs
      ensures x in sorted
    {
      assert x in multiset(sorted);
    }
  }

  /** Each hit is numbered from 1 in order, has distance `1 - score`, a score in `[threshold, 1]`
      that is its own text's score, and the text and metadata of a stored entry; scores never
      increase along the list. */
  lemma SearchSpec(docs: seq<Entry>, query: string, topK: int, threshold: real)
    ensures var terms, rs := ExpandedTerms(query), SearchResults(docs, query, topK, threshold);
      && (topK >= 0 ==> |rs| <= topK)
      && (forall j :: 0 <= j < |rs| ==>
            && rs[j].rank == j + 1
            && rs[j].distance == 1.0 - rs[j].similarityScore
            && rs[j].similarityScore == Score(terms, rs[j].document)
            && threshold <= rs[j].similarityScore <= 1.0
            && exists i :: 0 <= i < |docs| && docs[i].text == rs[j].document && docs[i].metadata == rs[j].metadata)
      && (forall i, j :: 0 <= i < j < |rs| ==> rs[i].similarityScore >= rs[j].similarityScore)
  {
    var terms := ExpandedTerms(query);
    var top := TopCandidates(docs, terms, topK, threshold);
    var rs := SearchResults(docs, query, topK, threshold);
    TopCandidatesSpec(docs, terms, topK, threshold);
    CandidatesSpec(docs, terms, threshold);
    forall j | 0 <= j < |rs|
      ensures && rs[j].similarityScore == Score(terms, rs[j].document)
              && threshold <= rs[j].similarityScore <= 1.0
              && exists i :: 0 <= i < |docs| && docs[i].text == rs[j].document && docs[i].metadata == rs[j].metadata
    {
      assert top[j] in top;
      ScoreSpec(terms, docs[top[j].index].text);
    }
  }

  // ---------------------------------------------------------------- statistics properties

  /** The file names are exactly those of the entries; there are no more of them than entries. */
  lemma {:induction false} FileNamesSpec(docs: seq<Entry>)
    ensures forall f :: f in FileNames(docs) <==> exists i :: 0 <= i < |docs| && docs[i].metadata.fileName == f
    ensures |FileNames(docs)| <= |docs|
  {
    if docs != [] {
      var n := |docs| - 1;
      var init := docs[..n];
      FileNamesSpec(init);
      assert forall i :: 0 <= i < n ==> init[i] == docs[i];
      var x := docs[n].metadata.fileName;
      if x in FileNames(init) {
        assert FileNames(docs) == FileNames(init);
      } else {
        assert |FileNames(init) + {x}| == |FileNames(init)| + 1;
      }
    }
  }

  /** Statistics add up over a concatenation, as after `add_documents`. */
  lemma {:induction false} StatsAppend(a: seq<Entry>, b: seq<Entry>)
    ensures FileNames(a + b) == FileNames(a) + FileNames(b)
    ensures SumTotalChunks(a + b) == SumTotalChunks(a) + SumTotalChunks(b)
  {
    if b != [] {
      var n := |b| - 1;
      StatsAppend(a, b[..n]);
      assert (a + b)[..|a + b| - 1] == a + b[..n];
      assert (a + b)[|a + b| - 1] == b[n];
    } else {
      assert a + b == a;
    }
  }

  /** Entries that all record `c` chunks add up to `|es| * c`. */
  lemma {:induction false} SumTotalChunksConst(es: seq<Entry>, c: nat)
    requires forall e :: e in es ==> e.metadata.totalChunks == c
    ensures SumTotalChunks(es) == |es| * c
  {
    if es != [] {
      var n := |es| - 1;
      assert forall e :: e in es[..n] ==> e in es;
      SumTotalChunksConst(es[..n], c);
      assert es[n] in es;
      assert (|es| - 1) * c + c == |es| * c;
    }
  }

  /** A store holding one document's `n` chunks reports one file and `n * n` "estimated total
      chunks", because every entry contributes the document's whole chunk count. */
  lemma StatsOfOneDocument(d: SourceDocument, f: string, chunks: seq<string>)
    requires chunks != []
    ensures StatsOf(EntriesFor(d, f, chunks)) == CollectionStats(|chunks|, 1, {f}, |chunks| * |chunks|)
  {
    var es := EntriesFor(d, f, chunks);
    SumTotalChunksConst(es, |chunks|);
    FileNamesSpec(es);
    assert es[0].metadata.fileName == f;
    assert FileNames(es) == {f};
  }

  // ---------------------------------------------------------------- delete properties

  /** The survivors keep their original order. */
  lemma {:induction false} SurvivorsInOrder(docs: seq<Entry>, names: seq<string>)
    ensures SubseqOf(Survivors(docs, names), docs)
  {
    if docs == [] {
      SubseqOfRefl(docs);
    } else {
      var n := |docs| - 1;
      var d := docs[n];
      SurvivorsInOrder(docs[..n], names);
      SubseqOfSnoc(Survivors(docs[..n], names), docs[..n], d, d.metadata.fileName !in names);
      assert Survivors(docs, names) ==
        if d.metadata.fileName !in names then Survivors(docs[..n], names) + [d] else Survivors(docs[..n], names);
      assert docs == docs[..n] + [d];
    }
  }

  /** The survivors are exactly the entries of unlisted files. */
  lemma {:induction false} SurvivorsMembers(docs: seq<Entry>, names: seq<string>)
    ensures forall e :: e in Survivors(docs, names) <==> e in docs && e.metadata.fileName !in names
  {
    if docs != [] {
      var n := |docs| - 1;
      SurvivorsMembers(docs[..n], names);
      assert docs == docs[..n] + [docs[n]];
    }
  }

  /** Deleting removes something exactly when some entry's file is listed; otherwise the
      store is unchanged. */
  lemma {:induction false} SurvivorsLength(docs: seq<Entry>, names: seq<string>)
    ensures |Survivors(docs, names)| <= |docs|
    ensures |Survivors(docs, names)| == |docs| <==> forall e :: e in docs ==> e.metadata.fileName !in names
    ensures (forall e :: e in docs ==> e.metadata.fileName !in names) ==> Survivors(docs, names) == docs
  {
    if docs != [] {
      var n := |docs| - 1;
      var d := docs[n];
      SurvivorsLength(docs[..n], names);
      assert docs == docs[..n] + [d];
      if forall e :: e in docs ==> e.metadata.fileName !in names {
        assert forall e :: e in docs[..n] ==> e in docs;
      }
      if exists e :: e in docs[..n] && e.metadata.fileName in names {
        var e :| e in docs[..n] && e.metadata.fileName in names;
        assert e in docs;
      }
    }
  }

  /** Deleting every entry's file leaves nothing. */
  lemma {:induction false} SurvivorsNone(docs: seq<Entry>, names: seq<string>)
    requires forall e :: e in docs ==> e.metadata.fileName in names
    ensures Survivors(docs, names) == []
  {
    if docs != [] {
      var n := |docs| - 1;
      assert forall e :: e in docs[..n] ==> e in docs;
      SurvivorsNone(docs[..n], names);
      assert docs[n] in docs;
    }
  }

  /** Deleting the same file names again changes nothing. */
  lemma DeleteIdempotent(docs: seq<Entry>, names: seq<string>)
    ensures Survivors(Survivors(docs, names), names) == Survivors(docs, names)
  {
    SurvivorsMembers(docs, names);
    SurvivorsLength(Survivors(docs, names), names);
  }

  /** `delete_documents` reports failure exactly when no entry belongs to a listed file, and
      then the store is unchanged. */
  lemma DeleteReplySpec(docs: seq<Entry>, names: seq<string>)
    ensures DeleteReply(docs, Survivors(docs, names), names).DeleteFailure? <==>
      forall e :: e in docs ==> e.metadata.fileName !in names
    ensures DeleteReply(docs, Survivors(docs, names), names).Deleted? ==>
      DeleteReply(docs, Survivors(docs, names), names).deletedChunks
        == |docs| - |Survivors(docs, names)|
  {
    SurvivorsLength(docs, names);
  }

  /** Filtering distributes over concatenation. */
  lemma {:induction false} SurvivorsAppend(a: seq<Entry>, b: seq<Entry>, names: seq<string>)
    ensures Survivors(a + b, names) == Survivors(a, names) + Survivors(b, names)
  {
    if b != [] {
      var n := |b| - 1;
      SurvivorsAppend(a, b[..n], names);
      assert (a + b)[..|a + b| - 1] == a + b[..n];
      assert (a + b)[|a + b| - 1] == b[n];
    } else {
      assert a + b == a;
    }
  }

  /** Adding documents whose file names are then deleted gives back the store, provided no
      stored entry belonged to those files before. */
  lemma AddThenDeleteRestores(store: seq<Entry>, docs: seq<SourceDocument>, cl: seq<seq<string>>, names: seq<string>)
    requires |cl| == |docs|
    requires forall e :: e in store ==> e.metadata.fileName !in names
    requires forall i :: 0 <= i < |docs| && docs[i].fileName.Some? ==> docs[i].fileName.value in names
    ensures Survivors(store + AddedBefore(docs, cl, |docs|), names) == store
  {
    var added := AddedBefore(docs, cl, |docs|);
    AddedFrom(docs, cl, |docs|);
    SurvivorsAppend(store, added, names);
    SurvivorsLength(store, names);
    forall e | e in added
      ensures e.metadata.fileName in names
    {
      var i :| 0 <= i < |docs| && docs[i].fileName == Some(e.metadata.fileName)
               && e.metadata.chunkIndex < |cl[i]| && e.text == cl[i][e.metadata.chunkIndex];
    }
    SurvivorsNone(added, names);
  }

  // ---------------------------------------------------------------- clear properties

  /** After clearing, the statistics are all zero and every search finds nothing. */
  lemma ClearedStoreIsEmpty(query: string, topK: int, threshold: real)
    ensures StatsOf([]) == CollectionStats(0, 0, {}, 0)
    ensures SearchResults([], query, topK, threshold) == []
  {
  }
}
