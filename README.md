# Retrieval core of the research-paper RAG assistant, in Dafny

This project models the retrieval core of a research-paper question-answering system.

The first part is the basic semantic vector store (`BasicSemanticVectorStore`). It is an in-memory list of chunk entries, and it offers these operations:

- a sentence-snapping chunker;
- a fixed synonym-table query expander;
- a substring-count similarity score;
- a filtered, stably sorted top-k search;
- add, delete-by-file-name, clear and collection statistics.

The second part is the pure post-processing of the improved RAG system (`ImprovedResearchRAGSystem`):

- parsing the language model's query variations;
- de-duplicating and capping the ensemble retriever's documents;
- assembling the answer, its sources and its context.

Modules:

- `StringOps`: the few Python `str` operations the core relies on. These are `strip`, ASCII `lower`, `in`, non-overlapping `count`, `rfind`, `split()`, `split(c)`, `join` and `str(n)`.
- `ListOps`: Python's `s[:k]` and the subsequence relation.
- `Chunker`: `chunk_text`. It is a spec function `Chunks` over the list of windows `Cuts`, plus the loop `ChunkText` proved equal to it.
- `Scoring`: `_expand_query_semantically` and `_calculate_semantic_similarity`. Each has a spec function and its loop.
- `Ranking`: the stable `sort(key=score, reverse=True)`, specified by an insertion sort. It is proved to be the only ranked permutation of its input.
- `VectorStore`: the class `SemanticStore`, whose field `documents` is `self.documents`. Its methods update that field, and each method is proved against a spec function of the old state.
- `RagPipeline`: `_enhance_query`, `_get_relevant_documents` and the assembly part of `ask_question`. Each has a spec function and its loop, and:
  - the model's reply is an input;
  - the retriever's output is an input;
  - the outcome of the answer generation is an input.

Modelling choices that follow the code:

- The chunker needs `0 < size`, `overlap < size` and `overlap <= max(size // 2 + 1, size - 100)` (`ValidParams`). A snapped cut lies at least `MinSnap(size) = max(size // 2 + 2, size - 99)` past its window's start, so under these bounds every window starts after the previous one (`AdvanceAtLeast`). For every larger overlap below `size` there is a text whose second window would start no later than the first (`StallingText`). The configured defaults `CHUNK_SIZE = 1000` and `CHUNK_OVERLAP = 200` are valid, and so is any overlap up to 900 with that size (`DefaultSizesValid`).
- The sentence search window spans up to 200 characters around the nominal cut (`start + size - 100` to `start + size + 100`). The code comment at vector_store_basic_semantic.py:117 speaks of "the last 100 characters", and the model follows the code.
- The last window is emitted even when it lies inside the previous one. This happens because the loop stops only once `end - overlap` reaches the end of the text.
- `add_documents` only appends (vector_store_basic_semantic.py:180), so adding the same document twice stores its first chunk's id twice (`AddTwiceDuplicatesIds`).
- A document with text but without `file_name` raises `KeyError` in the middle of the run. The handler then replies `{'success': False, 'error': "'file_name'"}`, and the entries appended before that point stay in the list.
- Scores are exact rationals (`real`).
- The query-variation prompt ends with `1. ` (rag_system_improved.py:207-208). If the reply continues that line, its first line carries no number, and `Numbered` drops it. Only a numbered line contributes (`LineVariationSpec`).

## Model

| member | source | states |
|---|---|---|
| StringOps.LStrip | vector_store_basic_semantic.py:132 | `lstrip()` removes exactly a whitespace prefix: what remains is a suffix that does not start with whitespace |
| StringOps.RStrip | vector_store_basic_semantic.py:132 | `rstrip()` removes exactly a whitespace suffix |
| StringOps.StripIsLStripRStrip | vector_store_basic_semantic.py:132 | `strip()` is `lstrip()` followed by `rstrip()` |
| StringOps.StripSpec | vector_store_basic_semantic.py:132-133 | a stripped text is a piece of the input, has no whitespace at either end, and is empty exactly when the input is all whitespace |
| StringOps.LStripRStripSpec | vector_store_basic_semantic.py:132-133 | the same three facts for `rstrip()` applied after `lstrip()` |
| StringOps.Slice | vector_store_basic_semantic.py:132 | a slice with bounds inside the text is the sub-sequence between them; a clamped slice is never longer than `hi - lo` |
| StringOps.SliceContained | vector_store_basic_semantic.py:132 | every slice is a piece of the text |
| StringOps.Lower | vector_store_basic_semantic.py:64 | lower-casing keeps the length |
| StringOps.ContainsTransitive | vector_store_basic_semantic.py:132 | a piece of a piece of a text is a piece of the text |
| StringOps.CountPositiveIffContains | vector_store_basic_semantic.py:84-86 | `count` is positive exactly when the pattern occurs |
| StringOps.CountFitsInText | vector_store_basic_semantic.py:84 | non-overlapping occurrences of a non-empty pattern fit in the text |
| StringOps.RFind | vector_store_basic_semantic.py:122-124 | `rfind` gives -1 or an index inside `[lo, hi)` holding the character |
| StringOps.RFindLast | vector_store_basic_semantic.py:122-124 | no occurrence of the character lies after the index `rfind` reports |
| StringOps.WordCountZeroIffAllSpace | vector_store_basic_semantic.py:91-92 | `len(text.split())` is 0 exactly when the text is all whitespace |
| StringOps.IndexOf | rag_system_improved.py:225 | the index of the first occurrence of the character |
| StringOps.SplitOn | rag_system_improved.py:219 | `split('\n')` gives at least one part and no part contains the separator |
| StringOps.JoinSplitOn | rag_system_improved.py:219 | joining the parts of `split(c)` with `c` gives the text back |
| StringOps.JoinLength | rag_system_improved.py:410 | a joined text is as long as its parts plus one separator between each pair of neighbours |
| StringOps.JoinContainsParts | rag_system_improved.py:410 | every part occurs in the joined text |
| StringOps.NatToString | vector_store_basic_semantic.py:157 | `str(i)` is a non-empty run of decimal digits |
| StringOps.NatToStringRoundTrip | vector_store_basic_semantic.py:157 | reading the digits of `str(i)` gives `i` back |
| StringOps.IsSpace | vector_store_basic_semantic.py:91 | defines Python's `str.isspace()` for one character: space, `\t` to `\r`, `\x1c` to `\x1f`, `\x85`, `\xa0`, `\u1680`, `\u2000` to `\u200a`, `\u2028`, `\u2029`, `\u202f`, `\u205f` and `\u3000` |
| StringOps.Strip | vector_store_basic_semantic.py:132 | defines `strip()`: drop the leading whitespace, then the trailing whitespace |
| StringOps.Count | vector_store_basic_semantic.py:84 | defines `s.count(p)`: `len(s) + 1` for an empty pattern, otherwise the non-overlapping occurrences found from left to right |
| StringOps.WordCount | vector_store_basic_semantic.py:91 | defines `len(text.split())`: the number of positions where a run of non-whitespace characters begins |
| StringOps.Join | rag_system_improved.py:410 | defines `sep.join(parts)`: `""` for no parts, the part itself for one, and the parts with `sep` between neighbours otherwise |
| ListOps.Take | vector_store_basic_semantic.py:225 | `s[:k]` is a prefix of `s`, of length `min(k, len)` for `k >= 0` and `max(len + k, 0)` for negative `k` |
| ListOps.SubseqOfRefl | rag_system_improved.py:245-251 | a list is a subsequence of itself |
| ListOps.SubseqOfPrefix | rag_system_improved.py:253 | a prefix of a subsequence is a subsequence |
| ListOps.SubseqOfSnoc | rag_system_improved.py:247-251 | extending both lists by an element, kept or dropped, keeps the subsequence relation |
| Chunker.MinAdvance | vector_store_basic_semantic.py:118-137 | the least step between the starts of consecutive windows, `min(size, MinSnap(size)) - overlap`, is positive for valid sizes |
| Chunker.StallingText | vector_store_basic_semantic.py:116-137 | for every `overlap < size` outside `ValidParams` some text longer than `size` has a first cut with `end - overlap <= 0`, so the second window would not start after the first |
| Chunker.DefaultSizesValid | config.py:26-27 | the default chunk size 1000 with overlap 200 is valid; overlap 900 is the largest valid one for that size |
| Chunker.SearchStart | vector_store_basic_semantic.py:118 | defines the search window's first index `max(start + chunk_size - 100, start)` |
| Chunker.SearchEnd | vector_store_basic_semantic.py:119 | defines the search window's end `min(start + chunk_size + 100, len(text))` |
| Chunker.SentenceEnd | vector_store_basic_semantic.py:122-127 | the last sentence-terminal index of the search window is -1 or a `.`, `!` or `?` inside it |
| Chunker.SentenceEndLast | vector_store_basic_semantic.py:122-127 | no sentence terminal lies after the one found |
| Chunker.SentenceEndIsMaxOfRFinds | vector_store_basic_semantic.py:122-127 | the maximum of the three `rfind` results is the last sentence terminal of the window |
| Chunker.CutEnd | vector_store_basic_semantic.py:113-130 | a window's end lies past its start and at most `size + 100` further; it is either the nominal cut or at least `start + MinSnap(size)` = `start + max(size // 2 + 2, size - 99)` |
| Chunker.CutEndSnaps | vector_store_basic_semantic.py:116-130 | the window's end is the nominal cut when that is past the text, or when no terminal past the midpoint lies in the search window; otherwise it is one past the last terminal of the search window, which lies past the midpoint |
| Chunker.FindCut | vector_store_basic_semantic.py:113-130 | the cut-finding step computes `CutEnd` |
| Chunker.Cuts | vector_store_basic_semantic.py:112-139 | defines the windows the loop visits from `start`: none once `start >= len(text)`, otherwise `[start, CutEnd(start))` followed by the windows from `end - overlap` |
| Chunker.Piece | vector_store_basic_semantic.py:132 | defines one window's text `text[start:end].strip()` |
| Chunker.NonEmpty | vector_store_basic_semantic.py:133-134 | defines the `if chunk:` filter: the non-empty strings, in order |
| Chunker.Chunks | vector_store_basic_semantic.py:106-141 | defines `chunk_text`: `[]` for empty text, `[text]` when `len(text) <= chunk_size`, otherwise the non-empty stripped texts of the windows `Cuts(text, 0)` |
| Chunker.AdvanceAtLeast | vector_store_basic_semantic.py:137 | the next start exceeds the current one by at least `MinAdvance` |
| Chunker.CutsEnds | vector_store_basic_semantic.py:112-139 | windows exist exactly when the start is inside the text; the first window starts there, and the last window's next start reaches the end of the text |
| Chunker.CutsShape | vector_store_basic_semantic.py:112-132 | every window starts inside the text, ends at its `CutEnd` and spans at most `size + 100` characters |
| Chunker.CutsChained | vector_store_basic_semantic.py:136-139 | each window starts `overlap` characters before the previous cut, and after the previous start |
| Chunker.CutsFirst | vector_store_basic_semantic.py:110-113 | the first window is `[start, CutEnd(start))` |
| Chunker.CutsIncreasing | vector_store_basic_semantic.py:136-139 | window starts strictly increase, so no window repeats |
| Chunker.CutsStep | vector_store_basic_semantic.py:112-139 | one loop iteration: a window, then the windows from `end - overlap`, which lies past `start` |
| Chunker.CutAt | vector_store_basic_semantic.py:112-139 | window `k` of the whole text ends at its `CutEnd`; the next starts at `end - overlap`, and only the last one's next start reaches the end of the text |
| Chunker.NonEmptySnoc | vector_store_basic_semantic.py:133-134 | keeping a window's text only when it is non-empty, one window at a time |
| Chunker.NonEmptyMembers | vector_store_basic_semantic.py:133-134 | the chunks are exactly the non-empty stripped windows |
| Chunker.WindowIsTrimmed | vector_store_basic_semantic.py:132-134 | a short window's non-empty stripped text is a trimmed piece of the text within the bound |
| Chunker.WindowsAreTrimmed | vector_store_basic_semantic.py:132-134 | every chunk of short windows is a trimmed piece of the text within the bound |
| Chunker.ChunkText | vector_store_basic_semantic.py:98-141 | the loop returns `Chunks`: `[]` for empty text, `[text]` unstripped when `len(text) <= size` |
| Chunker.ChunksAreTrimmedPieces | vector_store_basic_semantic.py:106-134 | short text gives `[]` or `[text]`; every chunk of longer text is a non-empty, trimmed piece of the text of at most `size + 100` characters |
| Chunker.CutsCover | vector_store_basic_semantic.py:112-139 | with a non-negative overlap every character from the start on lies in some window |
| Chunker.CoveredCons | vector_store_basic_semantic.py:112-139 | adding a window in front keeps a character covered |
| Chunker.CutsCount | vector_store_basic_semantic.py:112-139 | the loop runs at most `ceil((len - start) / MinAdvance)` times |
| Scoring.ExpandQuery | vector_store_basic_semantic.py:62-72 | the expansion loop computes `ExpandedTerms` |
| Scoring.SemanticMappings | vector_store_basic_semantic.py:31-41 | the nine rows of the keyword table with their expansion lists, in insertion order, which is the order `items()` visits them |
| Scoring.Expansions | vector_store_basic_semantic.py:68-70 | defines the concatenated expansion lists of the rows whose base term occurs in the lower-cased query, in row order |
| Scoring.ExpandedTerms | vector_store_basic_semantic.py:62-72 | defines `_expand_query_semantically(query)`: the lower-cased query followed by `Expansions` |
| Scoring.ExpansionsMembers | vector_store_basic_semantic.py:68-70 | a term is added exactly when some row whose base term occurs in the query lists it |
| Scoring.ExpandedTermsSpec | vector_store_basic_semantic.py:64-72 | the first term is the lower-cased query; a term is present exactly when it is the lower-cased query or an expansion of a base term occurring in it |
| Scoring.NoBaseTermNoExpansion | vector_store_basic_semantic.py:68-72 | without a base term in the query nothing is added |
| Scoring.CalculateSimilarity | vector_store_basic_semantic.py:74-96 | the scoring loop computes `Score` |
| Scoring.TotalMatches | vector_store_basic_semantic.py:79-86 | defines the sum of `text_lower.count(term)` over the terms; adding only positive counts, as the code does, gives the same sum |
| Scoring.Similarity | vector_store_basic_semantic.py:93-94 | defines `min((m / w) * (m / t) * 10, 1.0)` in exact arithmetic |
| Scoring.Score | vector_store_basic_semantic.py:74-96 | defines `_calculate_semantic_similarity`: `10·m²/(w·t)` capped at 1 for `m` total matches in the lower-cased text, `w` words and `t` terms; 0 when there are no terms or no words |
| Scoring.SimilarityFraction | vector_store_basic_semantic.py:93-94 | the score before the cap is `10*m*m / (w*t)` |
| Scoring.SimilarityRange | vector_store_basic_semantic.py:93-94 | the capped score lies in `[0, 1]`, is 0 exactly when nothing matches, and is 1 exactly when `10*m*m >= w*t` |
| Scoring.SimilarityMonotone | vector_store_basic_semantic.py:93-94 | more matches never lower the score |
| Scoring.TotalMatchesZeroIff | vector_store_basic_semantic.py:82-86 | the total match count is 0 exactly when no term occurs in the lower-cased text |
| Scoring.ScoreSpec | vector_store_basic_semantic.py:74-96 | the score lies in `[0, 1]`; it is 0 exactly when there are no terms, no words, or no term occurs; it is 1 exactly at the cap |
| Scoring.EmptyTermMatches | vector_store_basic_semantic.py:84 | an empty term (the expansion of an empty query) always matches a text with words |
| Ranking.Insert | vector_store_basic_semantic.py:222 | inserting adds one element |
| Ranking.SortByScoreDesc | vector_store_basic_semantic.py:222 | sorting keeps the length |
| Ranking.InsertPermutes | vector_store_basic_semantic.py:222 | inserting adds exactly that element |
| Ranking.InsertRanked | vector_store_basic_semantic.py:222 | inserting an element later in store order keeps a list ranked |
| Ranking.SortPermutes | vector_store_basic_semantic.py:222 | sorting permutes the list |
| Ranking.SortRanks | vector_store_basic_semantic.py:222 | sorting a list in store order ranks it by descending score, ties in store order (Python's sort is stable) |
| Ranking.RankedUnique | vector_store_basic_semantic.py:222 | at most one arrangement of a collection is ranked |
| Ranking.SortSpec | vector_store_basic_semantic.py:222 | the sorted list is a permutation, ranked, non-increasing in score, and the only ranked permutation |
| VectorStore.EntriesFor | vector_store_basic_semantic.py:156-180 | one entry per chunk |
| VectorStore.ChunkLists | vector_store_basic_semantic.py:153 | one chunk list per document |
| VectorStore.ChunkId | vector_store_basic_semantic.py:157 | defines the id `f"{file_name}_{i}"` |
| VectorStore.MakeEntry | vector_store_basic_semantic.py:156-179 | defines the entry of chunk `i`: its id, its text, and metadata `file_name`, `file_path` (default `""`), `chunk_index = i`, `total_chunks = len(chunks)`, `chunk_size = len(chunk)` and `processing_method` (default `"unknown"`) |
| VectorStore.MissingFileName | vector_store_basic_semantic.py:148-157 | defines when a document stops the run: it has text and chunks but no `file_name`, so `doc['file_name']` raises at its first chunk |
| VectorStore.DocEntries | vector_store_basic_semantic.py:148-180 | defines a document's contribution: nothing without text or without a file name, otherwise one entry per chunk |
| VectorStore.FailsBefore | vector_store_basic_semantic.py:148-157 | defines whether some document before position `i` stops the run |
| VectorStore.AddedBefore | vector_store_basic_semantic.py:148-181 | defines the entries appended for the first `i` documents, in order, up to the document that stops the run |
| VectorStore.AddReply | vector_store_basic_semantic.py:185-199 | defines the reply of `add_documents`: the `'file_name'` error when a document stops the run, otherwise `total_chunks_added` and `total_documents_processed = len(documents)` |
| VectorStore.Candidates | vector_store_basic_semantic.py:213-219 | every candidate points into the store |
| VectorStore.TopCandidates | vector_store_basic_semantic.py:221-225 | every kept candidate points into the store |
| VectorStore.ResultsOf | vector_store_basic_semantic.py:225-233 | one result per kept candidate |
| VectorStore.TakeMembers | vector_store_basic_semantic.py:225 | a slice holds only elements of the list |
| VectorStore.SearchResults | vector_store_basic_semantic.py:201-236 | defines `search_similar`: the results for the top candidates of the expanded query |
| VectorStore.FileNames | vector_store_basic_semantic.py:248-253 | defines the set of the entries' file names |
| VectorStore.SumTotalChunks | vector_store_basic_semantic.py:249-254 | defines the sum of the entries' `total_chunks` |
| VectorStore.StatsOf | vector_store_basic_semantic.py:242-261 | defines `get_collection_stats()`: the entry count, the number and set of file names, and the summed `total_chunks` |
| VectorStore.Survivors | vector_store_basic_semantic.py:273-276 | defines the entries whose file name is not listed, in store order |
| VectorStore.DeleteReply | vector_store_basic_semantic.py:278-293 | defines the reply of `delete_documents`: the deleted count and names when something was deleted, otherwise `No matching documents found` |
| VectorStore.SemanticStore.constructor | vector_store_basic_semantic.py:17-28 | the store starts with the loaded entries and the configured sizes, whatever they are; only `AddDocuments` needs them to be `ValidParams` |
| VectorStore.SemanticStore.AddDocuments | vector_store_basic_semantic.py:143-199 | the old entries stay; `AddedBefore` is appended (per document with text, one entry per chunk, up to the first document without file name); the reply is `AddReply` |
| VectorStore.SemanticStore.AddDocument | vector_store_basic_semantic.py:148-181 | one document: skipped when its text is empty, a `KeyError` when it has chunks but no file name, otherwise its entries are appended |
| VectorStore.SemanticStore.StoreChunks | vector_store_basic_semantic.py:156-181 | the inner loop appends exactly the document's entries |
| VectorStore.SemanticStore.SearchSimilar | vector_store_basic_semantic.py:201-236 | the search returns `SearchResults` for the given or configured `top_k` and threshold |
| VectorStore.SemanticStore.ScoreDocuments | vector_store_basic_semantic.py:213-219 | the scoring loop returns the candidates at or above the threshold, in store order |
| VectorStore.SemanticStore.BuildResults | vector_store_basic_semantic.py:225-233 | the result loop returns `ResultsOf` |
| VectorStore.SemanticStore.GetCollectionStats | vector_store_basic_semantic.py:242-261 | the statistics loop returns `StatsOf` of the store |
| VectorStore.SemanticStore.DeleteDocuments | vector_store_basic_semantic.py:267-293 | the store becomes its survivors, and the reply is `DeleteReply` |
| VectorStore.SemanticStore.ClearCollection | vector_store_basic_semantic.py:302-312 | the store becomes empty and the reply is `Collection cleared` |
| VectorStore.ChunkIdInjective | vector_store_basic_semantic.py:157 | two chunk ids are equal exactly when the file names and indexes are |
| VectorStore.EntriesForSpec | vector_store_basic_semantic.py:156-178 | entry `i` is well formed (id `f"{file_name}_{i}"`, `chunk_index = i < total_chunks`, `chunk_size = len(chunk)`), holds chunk `i`, records `total_chunks = len(chunks)`, the file path (default `""`) and the processing method (default `"unknown"`), and the ids are distinct |
| VectorStore.AddTwiceDuplicatesIds | vector_store_basic_semantic.py:148-183 | `add_documents([d, d])` for a document with a file name and chunks succeeds, appends its entries twice, and stores the id `f"{file_name}_0"` at two positions |
| VectorStore.FailsBeforeIff | vector_store_basic_semantic.py:148-160 | the run stops exactly when some earlier document has chunks but no file name |
| VectorStore.AddReplyCounts | vector_store_basic_semantic.py:143-199 | the add succeeds exactly when no document lacks a file name; otherwise the error is `'file_name'`; on success every document counts as processed and `total_documents` grows by exactly `total_chunks_added` |
| VectorStore.AddedWellFormed | vector_store_basic_semantic.py:156-166 | every appended entry is well formed |
| VectorStore.AddedFrom | vector_store_basic_semantic.py:148-180 | every appended entry is chunk `chunk_index` of an earlier document with that file name, and records that document's number of chunks |
| VectorStore.AddedEntriesSpec | vector_store_basic_semantic.py:148-181 | every appended entry is well formed, non-empty, at most `size + 100` long, and one of the chunks of a document with its file name whose chunk count it records |
| VectorStore.FailureSticks | vector_store_basic_semantic.py:194-199 | after the first failing document nothing more is appended and the reply is the failure |
| VectorStore.CandidatesSpec | vector_store_basic_semantic.py:213-219 | the candidates are in store order, and a pair is one exactly when it is an entry's index with its score at or above the threshold |
| VectorStore.RankedPrefix | vector_store_basic_semantic.py:225 | a prefix of a ranked list is ranked, and every left-out element comes after every kept one |
| VectorStore.TopCandidatesSpec | vector_store_basic_semantic.py:221-225 | the top candidates are candidates, ranked, non-increasing, `min(top_k, count)` of them, and no left-out candidate ranks before a kept one |
| VectorStore.SearchSpec | vector_store_basic_semantic.py:201-236 | at most `top_k` results; result `j` has rank `j + 1`, distance `1 - score`, the score of its text, a score between the threshold and 1, and it comes from a stored entry; scores never increase |
| VectorStore.FileNamesSpec | vector_store_basic_semantic.py:248-253 | a file name is listed exactly when some entry has it, and there are no more names than entries |
| VectorStore.StatsAppend | vector_store_basic_semantic.py:245-254 | the file names and the chunk total of a concatenation are the union and the sum |
| VectorStore.SumTotalChunksConst | vector_store_basic_semantic.py:254 | entries that agree on `total_chunks` sum to their count times it |
| VectorStore.StatsOfOneDocument | vector_store_basic_semantic.py:242-261 | a store holding one document of `n` chunks reports `n` documents, one file and `n*n` estimated chunks |
| VectorStore.SurvivorsInOrder | vector_store_basic_semantic.py:273-276 | the survivors keep their original order |
| VectorStore.SurvivorsMembers | vector_store_basic_semantic.py:273-276 | an entry survives exactly when it was stored and its file name is not listed |
| VectorStore.SurvivorsLength | vector_store_basic_semantic.py:270-278 | deleting never adds; nothing is removed exactly when no entry matches, and then the store is unchanged |
| VectorStore.SurvivorsNone | vector_store_basic_semantic.py:273-276 | when every entry matches, nothing survives |
| VectorStore.DeleteIdempotent | vector_store_basic_semantic.py:273-276 | deleting the same names twice is deleting them once |
| VectorStore.DeleteReplySpec | vector_store_basic_semantic.py:278-293 | the reply is `No matching documents found` exactly when nothing matches; otherwise `deleted_chunks` is the number removed |
| VectorStore.SurvivorsAppend | vector_store_basic_semantic.py:273-276 | deleting from a concatenation deletes from each part |
| VectorStore.AddThenDeleteRestores | vector_store_basic_semantic.py:143-199 | adding documents and then deleting their file names restores a store that held none of them |
| VectorStore.ClearedStoreIsEmpty | vector_store_basic_semantic.py:302-312 | an empty store reports zero statistics and finds nothing |
| RagPipeline.LineVariations | rag_system_improved.py:222-227 | one contribution per line |
| RagPipeline.Numbered | rag_system_improved.py:223 | defines a numbered line: stripped, it is non-empty and starts with `1`, `2` or `3` |
| RagPipeline.VariationOf | rag_system_improved.py:225 | defines a line's variation: the text after its first `.`, stripped, or the whole line stripped when it has no `.` |
| RagPipeline.LineVariation | rag_system_improved.py:223-227 | defines a line's contribution: its variation when the line is numbered and the variation is neither empty nor the question, otherwise none |
| RagPipeline.Variations | rag_system_improved.py:222-227 | defines the contributions of the lines, in line order |
| RagPipeline.ReplyLines | rag_system_improved.py:219 | defines `response.strip().split('\n')` |
| RagPipeline.EnhancedQueries | rag_system_improved.py:211-233 | defines `_enhance_query`: `[question]` when the model call raises, otherwise the first four of the question followed by the variations |
| RagPipeline.EnhanceQuery | rag_system_improved.py:211-233 | the parsing loop computes `EnhancedQueries`, and a failed model call gives `[question]` |
| RagPipeline.ParseLine | rag_system_improved.py:223-227 | one line's contribution |
| RagPipeline.SomesMembers | rag_system_improved.py:222-227 | a value is kept exactly when some line contributes it |
| RagPipeline.VariationsMembers | rag_system_improved.py:222-227 | a variation is kept exactly when some line contributes it |
| RagPipeline.LineVariationSpec | rag_system_improved.py:223-226 | a line contributes exactly when, stripped, it starts with `1`, `2` or `3`, and the text after its first `.` (or the whole line without one), stripped, is non-empty and not the question; the contribution has no whitespace at either end |
| RagPipeline.EnhancedQueriesLength | rag_system_improved.py:219-233 | the queries start with the question and number `min(4, 1 + variations)`; a failed model call gives `[question]` |
| RagPipeline.EnhancedQueriesFromReply | rag_system_improved.py:219-229 | every query after the first is what some line of the reply contributes |
| RagPipeline.NoVariationsOnlyQuestion | rag_system_improved.py:220-229 | the question alone comes back exactly when no line contributes |
| RagPipeline.GetRelevantDocuments | rag_system_improved.py:235-257 | the de-duplication loop computes `RelevantDocuments` |
| RagPipeline.Dedup | rag_system_improved.py:244-251 | defines the first document of each page content, in retrieval order |
| RagPipeline.RelevantDocuments | rag_system_improved.py:235-257 | defines `_get_relevant_documents`: `[]` without a retriever or when retrieval raises, otherwise the first `2 * TOP_K` de-duplicated documents |
| RagPipeline.ContentSetMembers | rag_system_improved.py:245-250 | a content has been seen exactly when some document has it |
| RagPipeline.DedupInOrder | rag_system_improved.py:244-251 | de-duplication keeps the documents in their order |
| RagPipeline.DedupContents | rag_system_improved.py:244-251 | de-duplication loses no page content |
| RagPipeline.DedupDistinctContents | rag_system_improved.py:244-251 | no two kept documents share a page content |
| RagPipeline.DedupKeepsFirst | rag_system_improved.py:244-251 | each kept document is the first with its page content |
| RagPipeline.DedupDistinct | rag_system_improved.py:244-251 | a list without repeated contents is left as it is |
| RagPipeline.DistinctPrefix | rag_system_improved.py:253 | a prefix of a list with distinct contents has distinct contents |
| RagPipeline.RelevantDocumentsSpec | rag_system_improved.py:235-257 | `[]` without a retriever or on error; otherwise a subsequence of the retriever's output with distinct contents, at most `2 * TOP_K` long, unchanged by a second de-duplication and by a second selection |
| RagPipeline.Contents | rag_system_improved.py:402-403 | one context part per document |
| RagPipeline.SourcesOf | rag_system_improved.py:402-408 | one source per document |
| RagPipeline.SourceAt | rag_system_improved.py:404-408 | defines the source of document `i`: `file_name` (default `Unknown`), `chunk_index` (default 0) and rank `i + 1` |
| RagPipeline.Context | rag_system_improved.py:410 | defines the context: the page contents joined with `\n\n---\n\n` |
| RagPipeline.ReplyFor | rag_system_improved.py:390-432 | defines the reply for the relevant documents: the fixed message without documents, the error text when generation raises, otherwise the answer with the sources (or none), the context length, the document count and `ensemble` |
| RagPipeline.Ask | rag_system_improved.py:382-432 | defines `ask_question`: `ReplyFor` of the relevant documents |
| RagPipeline.AssembleReply | rag_system_improved.py:388-423 | the assembly loop computes `ReplyFor` |
| RagPipeline.AskQuestion | rag_system_improved.py:382-432 | the question is answered as `Ask`: retrieval, then assembly |
| RagPipeline.ReplySpec | rag_system_improved.py:390-429 | no documents give the fixed message; a failed generation gives the error message; an answer has ranks `1..n` in retrieval order, file names and chunk indexes defaulting to `Unknown` and 0, `num_sources = n` even when the sources are withheld, and a context length of the contents plus 7 per separator; each content occurs in the context |
| RagPipeline.NoRetrievalNoAnswer | rag_system_improved.py:388-396 | without a retriever, on a retrieval error, or with nothing retrieved, the reply is the fixed message whatever the model would say |
| RagPipeline.AskSourcesBounded | rag_system_improved.py:402-421 | an answer lists as many sources as it counts, at most `2 * TOP_K` |

## Left out

- JSON persistence (`_load_documents`, `_save_documents`): file I/O. The loaded list is a constructor argument and saving is a no-op.
- Configuration from the environment (chunk size, overlap, `TOP_K_RESULTS`, `SIMILARITY_THRESHOLD`): these are constructor arguments and parameters.
- `added_at` timestamps: they need a clock.
- `metadata.update(doc['metadata'])`: user metadata is assumed not to override the computed keys, so it is not stored.
- Exception handlers other than the `KeyError` on `file_name`:
  - the search's `[]` and the statistics' `{}` are not modelled;
  - entries are assumed to hold `text` and a complete `metadata`, so the `.get` defaults on stored entries are not modelled.
- The file-name list of `get_collection_stats` is a set here; the order of Python's `list(set)` is not modelled.
- Floating point: scores and the threshold comparison use exact reals; IEEE rounding is not modelled.
- `str.lower()`: only ASCII letters are lower-cased; Unicode case mapping is not modelled.
- Chunker.ChunkText: requires `ValidParams(size, overlap)`, which excludes three cases. With `overlap >= size`, a window that is not snapped makes the next start `start + size - overlap <= start`, so the loop does not move forward. With `size <= 0`, a window's end `start + size` lies at or before its start, and Python reads a negative slice bound from the end of the text. With a larger overlap below `size`, some text makes the next window start no later than the current one (`StallingText`); what the Python loop does then (repeat a start forever, or step back, possibly to a negative index that Python slicing reads from the end) is not modelled.
- VectorStore.SemanticStore.AddDocuments: requires `Valid()`, that is `ValidParams` of the configured sizes, because it chunks every document. `__init__` does not check the sizes, so the constructor accepts any. Search, statistics, deletion and clearing do not chunk, and they need nothing of the sizes.
- `chunk_text` with omitted arguments: the store always passes its configured sizes, and the chunker takes them explicitly.
- `hash(page_content)` in the de-duplication is modelled as content equality; hash collisions are ignored.
- The language model, the LangChain chains, the embeddings, FAISS and the ensemble, multi-query and compression retrievers are outside the model. Their outputs enter as the `reply`, `Retrieval` and `Generation` inputs.
- VectorStore.TopCandidatesSpec: the count `min(top_k, count)` is stated only for a non-negative `top_k`. A negative `top_k` drops that many candidates from the end, which `Take` models but no lemma states.
- RagPipeline.AskQuestion: the outer exception handler of `ask_question` is modelled only for a failing answer generation; other failures inside it are not modelled.
- The `success` and `similarity_scores` keys are implicit: `Answered` is a success, and `NotAnswered` is a failure with empty sources and scores.
- Local and Azure storage, PDF extraction and the command-line and web front ends are not part of this model.
