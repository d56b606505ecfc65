/**
 * The sentence-snapping chunker of the basic semantic vector store
 * (`BasicSemanticVectorStore.chunk_text`).
 *
 * Text longer than `size` is cut into windows. Each window starts at `start`
 * and is nominally `size` characters long. When that nominal cut lies
 * inside the text, the cut moves to just after the last `.`, `!` or `?` found in
 * `[max(start + size - 100, start), min(start + size + 100, len))`, provided
 * that mark lies past `start + size / 2`. Each stripped, non-empty window becomes a
 * chunk. The next window starts `overlap` characters before the previous cut.
 * The loop stops once that next start reaches the end of the text.
 */
module Chunker {
  import opened StringOps

  /** The margin searched on either side of the nominal cut for a sentence end. */
  const SnapMargin: int := 100

  /** Sentence-terminal punctuation. */
  predicate IsTerminal(c: char) {
    c == '.' || c == '!' || c == '?'
  }

  /** Chunk sizes and overlaps for which every window starts strictly after the previous one
      on every text: a nominal cut advances when `overlap < size`, and a snapped cut, which
      lies at least `Max(size / 2 + 2, size - 99)` past the start, advances when the overlap
      is below that distance. For a larger overlap, a text with a sentence end at the
      earliest snapping position makes the next window start no later than the current one. */
  predicate ValidParams(size: int, overlap: int) {
    0 < size && overlap < size && overlap <= Max(size / 2 + 1, size - SnapMargin)
  }

  /** The least distance from a window's start to a snapped cut. */
  function MinSnap(size: int): int {
    Max(size / 2 + 2, size - SnapMargin + 1)
  }

  /** The least distance between the starts of consecutive windows. */
  function MinAdvance(size: int, overlap: int): (d: int)
    requires ValidParams(size, overlap)
    ensures d >= 1
  {
    Min(size - overlap, MinSnap(size) - overlap)
  }

  /** The bounds of the sentence-end search window around the nominal cut `start + size`. */
  function SearchStart(start: int, size: int): int {
    Max(start + size - SnapMargin, start)
  }

  function SearchEnd(text: string, start: int, size: int): int {
    Min(start + size + SnapMargin, |text|)
  }

  /** The last sentence-terminal index in `[lo, hi)`, or -1 when there is none. */
  function SentenceEnd(text: string, lo: int, hi: int): (r: int)
    requires 0 <= lo && hi <= |text|
    ensures r == -1 || (lo <= r < hi && IsTerminal(text[r]))
    decreases hi - lo
  {
    if hi <= lo then -1
    else if IsTerminal(text[hi - 1]) then hi - 1
    else SentenceEnd(text, lo, hi - 1)
  }

  /** No sentence-terminal character follows the one `SentenceEnd` reports. */
  lemma {:induction false} SentenceEndLast(text: string, lo: int, hi: int)
    requires 0 <= lo && hi <= |text|
    ensures forall k :: lo <= k < hi && k > SentenceEnd(text, lo, hi) ==> !IsTerminal(text[k])
    decreases hi - lo
  {
    if lo < hi && !IsTerminal(text[hi - 1]) {
      SentenceEndLast(text, lo, hi - 1);
    }
  }

  /** The source's `max(text.rfind('.', lo, hi), text.rfind('!', lo, hi), text.rfind('?', lo, hi))`
      is exactly the last sentence end of the range. */
  lemma {:induction false} SentenceEndIsMaxOfRFinds(text: string, lo: int, hi: int)
    requires 0 <= lo && hi <= |text|
    ensures Max(Max(RFind(text, '.', lo, hi), RFind(text, '!', lo, hi)), RFind(text, '?', lo, hi))
      == SentenceEnd(text, lo, hi)
  {
    RFindLast(text, '.', lo, hi);
    RFindLast(text, '!', lo, hi);
    RFindLast(text, '?', lo, hi);
    SentenceEndLast(text, lo, hi);
  }

  /** The cut of the window starting at `start`: the nominal `start + size`, or one
      past the last sentence end of the search window when that end lies past the
      middle of the window. */
  function CutEnd(text: string, start: nat, size: int): (end: nat)
    requires 0 < size && start < |text|
    ensures start < end <= start + size + SnapMargin
    ensures end == start + size || start + MinSnap(size) <= end <= |text|
  {
    if start + size < |text| then
      var sentenceEnd := SentenceEnd(text, SearchStart(start, size), SearchEnd(text, start, size));
      if sentenceEnd > start + size / 2 then sentenceEnd + 1 else start + size
    else start + size
  }

  /** Where the cut lands: at the nominal `start + size` when that is past the text or
      when no sentence end of the search window lies past the middle of the window;
      otherwise just after the last sentence end of the search window. */
  lemma {:induction false} CutEndSnaps(text: string, start: nat, size: int)
    requires 0 < size && start < |text|
    ensures var end, lo, hi := CutEnd(text, start, size), SearchStart(start, size), SearchEnd(text, start, size);
      && (start + size >= |text| ==> end == start + size)
      && (start + size < |text| ==>
           || (&& end == start + size
               && forall k :: lo <= k < hi && k > start + size / 2 ==> !IsTerminal(text[k]))
           || (&& lo <= end - 1 < hi
               && end - 1 > start + size / 2
               && IsTerminal(text[end - 1])
               && forall k :: end - 1 < k < hi ==> !IsTerminal(text[k])))
  {
    SentenceEndLast(text, SearchStart(start, size), SearchEnd(text, start, size));
  }

  /** One iteration of the chunking loop: the window `[start, end)` before clamping. */
  datatype Cut = Cut(start: nat, end: nat)

  /** The windows the loop visits, from the one starting at `start` on. */
  function Cuts(text: string, start: nat, size: int, overlap: int): seq<Cut>
    requires ValidParams(size, overlap)
    decreases |text| - start
  {
    if start >= |text| then []
    else
      var end := CutEnd(text, start, size);
      [Cut(start, end)] + Cuts(text, end - overlap, size, overlap)
  }

  /** `text[start:end].strip()`. */
  function Piece(text: string, c: Cut): string {
    Strip(Slice(text, c.start, c.end))
  }

  /** The stripped text of each window, in order. */
  function WindowTexts(text: string, cs: seq<Cut>): (ws: seq<string>)
    ensures |ws| == |cs|
  {
    seq(|cs|, k requires 0 <= k < |cs| => Piece(text, cs[k]))
  }

  /** The non-empty strings of `ps`, in order (`if chunk: chunks.append(chunk)`). */
  function NonEmpty(ps: seq<string>): seq<string> {
    if ps == [] then [] else (if ps[0] != [] then [ps[0]] else []) + NonEmpty(ps[1..])
  }

  /** The windows exist exactly when `start` is inside the text; the first starts at
      `start`, and only the last one's next start reaches the end of the text. */
  lemma {:induction false} CutsEnds(text: string, start: nat, size: int, overlap: int)
    requires ValidParams(size, overlap)
    ensures var cs := Cuts(text, start, size, overlap);
      && (start < |text| <==> cs != [])
      && (cs != [] ==> cs[0].start == start && cs[|cs| - 1].end - overlap >= |text|)
    decreases |text| - start
  {
    if start < |text| {
      var next := CutEnd(text, start, size) - overlap;
      CutsEnds(text, next, size, overlap);
      CutsStep(text, start, size, overlap);
    }
  }

  /** Every window starts inside the text, no earlier than `start`, its cut is the
      one `CutEnd` chooses for that start, and it is at most `size + SnapMargin` long. */
  lemma {:induction false} CutsShape(text: string, start: nat, size: int, overlap: int)
    requires ValidParams(size, overlap)
    ensures var cs := Cuts(text, start, size, overlap);
      forall k :: 0 <= k < |cs| ==>
        && start <= cs[k].start < |text|
        && cs[k].end == CutEnd(text, cs[k].start, size)
    ensures WindowsWithin(Cuts(text, start, size, overlap), size + SnapMargin)
    decreases |text| - start
  {
    if start < |text| {
      var next := CutEnd(text, start, size) - overlap;
      CutsShape(text, next, size, overlap);
      CutsStep(text, start, size, overlap);
      var cs := Cuts(text, start, size, overlap);
      var rest := Cuts(text, next, size, overlap);
      assert forall k :: 1 <= k < |cs| ==> cs[k] == rest[k - 1];
    }
  }

  /** No window is longer than `bound`. */
  ghost predicate WindowsWithin(cs: seq<Cut>, bound: int) {
    forall k :: 0 <= k < |cs| ==> cs[k].end <= cs[k].start + bound
  }

  /** Window `k` starts `overlap` characters before the cut of window `k - 1`. */
  ghost predicate Linked(cs: seq<Cut>, overlap: int, k: int)
    requires 0 < k < |cs|
  {
    cs[k].start == cs[k - 1].end - overlap
  }

  /** Consecutive windows are chained by the overlap, and each starts after the previous one. */
  lemma {:induction false} CutsChained(text: string, start: nat, size: int, overlap: int)
    requires ValidParams(size, overlap)
    ensures var cs := Cuts(text, start, size, overlap);
      forall k :: 0 < k < |cs| ==> Linked(cs, overlap, k)
    ensures StepwiseIncreasing(Cuts(text, start, size, overlap))
    decreases |text| - start
  {
    if start < |text| {
      var end := CutEnd(text, start, size);
      var next := end - overlap;
      CutsStep(text, start, size, overlap);
      CutsChained(text, next, size, overlap);
      var cs := Cuts(text, start, size, overlap);
      var rest := Cuts(text, next, size, overlap);
      if rest != [] {
        CutsFirst(text, next, size, overlap);
      }
      forall k | 0 < k < |cs|
        ensures Linked(cs, overlap, k) && cs[k - 1].start < cs[k].start
      {
        if k > 1 {
          assert Linked(rest, overlap, k - 1);
        }
      }
    }
  }

  /** The first window starts at `start` and is cut where `CutEnd` says. */
  lemma {:induction false} CutsFirst(text: string, start: nat, size: int, overlap: int)
    requires ValidParams(size, overlap) && start < |text|
    ensures var cs := Cuts(text, start, size, overlap);
      cs != [] && cs[0] == Cut(start, CutEnd(text, start, size))
  {
  }

  /** Each window starts after the one before it. */
  ghost predicate StepwiseIncreasing(cs: seq<Cut>) {
    forall m :: 0 < m < |cs| ==> cs[m - 1].start < cs[m].start
  }

  /** Window starts strictly increase, so no window is visited twice. */
  lemma {:induction false} CutsIncreasing(text: string, start: nat, size: int, overlap: int)
    requires ValidParams(size, overlap)
    ensures var cs := Cuts(text, start, size, overlap);
      forall j, k :: 0 <= j < k < |cs| ==> cs[j].start < cs[k].start
  {
    CutsChained(text, start, size, overlap);
    var cs := Cuts(text, start, size, overlap);
    forall j, k | 0 <= j < k < |cs|
      ensures cs[j].start < cs[k].start
    {
      StepsIncrease(cs, j, k);
    }
  }

  lemma {:induction false} StepsIncrease(cs: seq<Cut>, j: nat, k: nat)
    requires j < k < |cs|
    requires StepwiseIncreasing(cs)
    ensures cs[j].start < cs[k].start
    decreases k - j
  {
    if j + 1 < k {
      StepsIncrease(cs, j + 1, k);
    }
  }

  /** Unfolding the windows by one iteration of the loop. */
  lemma {:induction false} CutsStep(text: string, start: nat, size: int, overlap: int)
    requires ValidParams(size, overlap) && start < |text|
    ensures var end := CutEnd(text, start, size);
      && end - overlap > start
      && Cuts(text, start, size, overlap) == [Cut(start, end)] + Cuts(text, end - overlap, size, overlap)
  {
  }

  /** Taking one more string keeps it at the end when it is not empty. */
  lemma {:induction false} NonEmptySnoc(ps: seq<string>, i: nat)
    requires i < |ps|
    ensures NonEmpty(ps[..i + 1]) == NonEmpty(ps[..i]) + (if ps[i] != [] then [ps[i]] else [])
  {
    if i > 0 {
      NonEmptySnoc(ps[1..], i - 1);
      assert ps[..i + 1][1..] == ps[1..][..i];
      assert ps[..i][1..] == ps[1..][..i - 1];
    }
  }

  /** The filter keeps exactly the non-empty strings. */
  lemma {:induction false} NonEmptyMembers(ps: seq<string>)
    ensures forall c :: c in NonEmpty(ps) <==> c in ps && c != []
  {
    if ps != [] {
      NonEmptyMembers(ps[1..]);
      assert ps == [ps[0]] + ps[1..];
    }
  }

  /** What the loop needs to know about window `k`: it starts inside the text, its cut is
      `CutEnd`'s, and the next window starts `overlap` before that cut, unless that is past the
      end of the text and window `k` is the last. */
  lemma {:induction false} CutAt(text: string, size: int, overlap: int, k: nat)
    requires ValidParams(size, overlap)
    requires k < |Cuts(text, 0, size, overlap)|
    ensures var cs := Cuts(text, 0, size, overlap);
      && cs[k].start < |text|
      && cs[k].end == CutEnd(text, cs[k].start, size)
      && (k + 1 < |cs| ==> cs[k + 1].start == cs[k].end - overlap)
      && (k + 1 == |cs| ==> cs[k].end - overlap >= |text|)
  {
    CutsShape(text, 0, size, overlap);
    CutsEnds(text, 0, size, overlap);
    CutsChained(text, 0, size, overlap);
    var cs := Cuts(text, 0, size, overlap);
    if k + 1 < |cs| {
      assert Linked(cs, overlap, k + 1);
    }
  }

  /** The chunks of `text`: the store's chunking as a function of its inputs. */
  function Chunks(text: string, size: int, overlap: int): seq<string>
    requires ValidParams(size, overlap)
  {
    if text == [] then []
    else if |text| <= size then [text]
    else NonEmpty(WindowTexts(text, Cuts(text, 0, size, overlap)))
  }

  /** The body of the chunking loop up to the cut: start from the nominal cut and, when
      it lies inside the text, snap it to the latest `.`, `!` or `?` found by `rfind`
      around it, if that lies past the middle of the window. */
  method FindCut(text: string, start: nat, size: int) returns (end: nat)
    requires 0 < size && start < |text|
    ensures end == CutEnd(text, start, size)
  {
    end := start + size;
    if end < |text| {
      // look for a sentence end within the margin around the nominal cut
      var searchStart := Max(start + size - SnapMargin, start);
      var searchEnd := Min(end + SnapMargin, |text|);
      var lastPeriod := RFind(text, '.', searchStart, searchEnd);
      var lastExclamation := RFind(text, '!', searchStart, searchEnd);
      var lastQuestion := RFind(text, '?', searchStart, searchEnd);
      var sentenceEnd := Max(Max(lastPeriod, lastExclamation), lastQuestion);
      SentenceEndIsMaxOfRFinds(text, searchStart, searchEnd);
      if sentenceEnd > start + size / 2 {
        end := sentenceEnd + 1;
      }
    }
  }

  /** `chunk_text(text, size, overlap)`. */
  method ChunkText(text: string, size: int, overlap: int) returns (chunks: seq<string>)
    requires ValidParams(size, overlap)
    ensures chunks == Chunks(text, size, overlap)
    ensures text == [] ==> chunks == []
    ensures 0 < |text| <= size ==> chunks == [text]
  {
    if text == [] || |text| <= size {
      chunks := if text != [] then [text] else [];
      return;
    }
    chunks := [];
    var start: nat := 0;
    ghost var cs := Cuts(text, 0, size, overlap);
    ghost var i := 0;
    CutsShape(text, 0, size, overlap);
    CutsEnds(text, 0, size, overlap);
    while start < |text|
      invariant 0 <= i <= |cs|
      invariant i < |cs| ==> start == cs[i].start
      invariant i == |cs| ==> start >= |text|
      invariant chunks == NonEmpty(WindowTexts(text, cs)[..i])
      decreases |text| - start
    {
      CutAt(text, size, overlap, i);
      var end := FindCut(text, start, size);
      var chunk := Strip(Slice(text, start, end));
      NonEmptySnoc(WindowTexts(text, cs), i);
      if chunk != [] {
        chunks := chunks + [chunk];
      }
      start := end - overlap;
      i := i + 1;
      if start >= |text| {
        break;
      }
    }
    assert WindowTexts(text, cs)[..i] == WindowTexts(text, cs);
  }

  // ------------------------------------------------------------------ properties

  /** A chunk as the store promises it: not empty, free of surrounding whitespace, and a
      piece of the text no longer than `bound`. */
  ghost predicate TrimmedPiece(text: string, c: string, bound: int) {
    && c != []
    && |c| <= bound
    && Contains(text, c)
    && !IsSpace(c[0]) && !IsSpace(c[|c| - 1])
  }

  /** A window no longer than `bound` yields, when its stripped text is not empty, a
      trimmed piece of the text no longer than `bound`. */
  lemma {:induction false} WindowIsTrimmed(text: string, c: Cut, bound: int)
    requires c.end <= c.start + bound
    ensures Piece(text, c) != [] ==> TrimmedPiece(text, Piece(text, c), bound)
  {
    var w := Slice(text, c.start, c.end);
    var p := Strip(w);
    StripSpec(w);
    SliceContained(text, c.start, c.end);
    if p != [] {
      ContainsTransitive(text, w, p);
    }
  }

  /** Windows no longer than `bound` yield only trimmed pieces of the text no longer than `bound`. */
  lemma {:induction false} WindowsAreTrimmed(text: string, cs: seq<Cut>, bound: int)
    requires WindowsWithin(cs, bound)
    ensures forall c :: c in NonEmpty(WindowTexts(text, cs)) ==> TrimmedPiece(text, c, bound)
  {
    var ws := WindowTexts(text, cs);
    NonEmptyMembers(ws);
    forall c | c in NonEmpty(ws)
      ensures TrimmedPiece(text, c, bound)
    {
      var k :| 0 <= k < |ws| && ws[k] == c;
      WindowIsTrimmed(text, cs[k], bound);
    }
  }

  /** Every chunk is non-empty, free of surrounding whitespace and a piece of the text
      no longer than `size + SnapMargin`; text no longer than `size` is kept whole. */
  lemma {:induction false} ChunksAreTrimmedPieces(text: string, size: int, overlap: int)
    requires ValidParams(size, overlap)
    ensures |text| <= size ==> Chunks(text, size, overlap) == (if text == [] then [] else [text])
    ensures |text| > size ==> forall c :: c in Chunks(text, size, overlap) ==> TrimmedPiece(text, c, size + SnapMargin)
    ensures forall c :: c in Chunks(text, size, overlap) ==> c != [] && |c| <= size + SnapMargin && Contains(text, c)
  {
    if |text| > size {
      CutsShape(text, 0, size, overlap);
      WindowsAreTrimmed(text, Cuts(text, 0, size, overlap), size + SnapMargin);
    } else if text != [] {
      assert OccursAt(text, text, 0);
    }
  }

  /** Character `i` lies in window `c`. */
  ghost predicate InCut(c: Cut, i: int) {
    c.start <= i < c.end
  }

  /** Character `i` lies in some window of `cs`. */
  ghost predicate Covered(cs: seq<Cut>, i: int) {
    exists k :: 0 <= k < |cs| && InCut(cs[k], i)
  }

  /** Every character from `start` on lies inside some window (no gaps) when the
      overlap is not negative. */
  lemma {:induction false} CutsCover(text: string, start: nat, size: int, overlap: int, i: int)
    requires ValidParams(size, overlap) && 0 <= overlap
    requires start <= i < |text|
    ensures Covered(Cuts(text, start, size, overlap), i)
    decreases |text| - start
  {
    var end := CutEnd(text, start, size);
    CutsStep(text, start, size, overlap);
    if i >= end {
      var next := end - overlap;
      CutsCover(text, next, size, overlap, i);
      CoveredCons(Cut(start, end), Cuts(text, next, size, overlap), i);
    } else {
      assert InCut(Cuts(text, start, size, overlap)[0], i);
    }
  }

  /** Putting a window in front keeps a covered character covered. */
  lemma {:induction false} CoveredCons(c: Cut, rest: seq<Cut>, i: int)
    requires Covered(rest, i)
    ensures Covered([c] + rest, i)
  {
    var k :| 0 <= k < |rest| && InCut(rest[k], i);
    assert ([c] + rest)[k + 1] == rest[k];
  }

  /** `n * d`, written as repeated addition to keep the counting argument linear. */
  function Times(n: nat, d: int): int {
    if n == 0 then 0 else Times(n - 1, d) + d
  }

  /** The loop runs at most `ceil((len - start) / MinAdvance)` times. */
  lemma {:induction false} CutsCount(text: string, start: nat, size: int, overlap: int)
    requires ValidParams(size, overlap)
    ensures Times(|Cuts(text, start, size, overlap)|, MinAdvance(size, overlap)) < Max(|text| - start, 0) + MinAdvance(size, overlap)
    decreases |text| - start
  {
    if start < |text| {
      var next := CutEnd(text, start, size) - overlap;
      CutsStep(text, start, size, overlap);
      AdvanceAtLeast(text, start, size, overlap);
      CutsCount(text, next, size, overlap);
      var n := |Cuts(text, next, size, overlap)|;
      var d := MinAdvance(size, overlap);
      assert |Cuts(text, start, size, overlap)| == n + 1;
      assert Times(n + 1, d) == Times(n, d) + d;
    }
  }

  /** The sizes are also necessary: for any larger overlap, a text whose only sentence end
      sits at the earliest snapping position makes the second window start no later than
      the first, so the loop repeats or steps back. */
  lemma StallingText(size: int, overlap: int)
    requires 0 < size && overlap < size && !ValidParams(size, overlap)
    ensures exists text: string :: size < |text| && CutEnd(text, 0, size) - overlap <= 0
  {
    var p := MinSnap(size) - 1;
    var text: string := seq(size + SnapMargin + 1, i => if i == p then '.' else 'a');
    var lo, hi := SearchStart(0, size), SearchEnd(text, 0, size);
    assert lo <= p < hi && IsTerminal(text[p]);
    SentenceEndLast(text, lo, hi);
    var r := SentenceEnd(text, lo, hi);
    assert forall k :: lo <= k < hi && k != p ==> !IsTerminal(text[k]);
    assert r == p;
    assert CutEnd(text, 0, size) == MinSnap(size);
  }

  /** The configured defaults, 1000 characters with an overlap of 200, are valid sizes,
      and so is any overlap up to 900 with that size. */
  lemma DefaultSizesValid()
    ensures ValidParams(1000, 200) && ValidParams(1000, 900) && !ValidParams(1000, 901)
  {
  }

  /** Each window starts at least `MinAdvance` after the previous one. */
  lemma {:induction false} AdvanceAtLeast(text: string, start: nat, size: int, overlap: int)
    requires ValidParams(size, overlap) && start < |text|
    ensures CutEnd(text, start, size) - overlap >= start + MinAdvance(size, overlap)
  {
  }
}
