/**
 * `DocumentProcessor.chunk_text_with_page_info`: splits the text of each PDF
 * page into overlapping windows of at most `chunk_size` characters, cutting a
 * window short at its last sentence break ('.' or newline) when that break
 * lies far enough into the window, and tags every chunk with its page number.
 */
module Chunker {
  import opened PyStr

  const DefaultChunkSize := 1000
  const DefaultOverlap := 200

  /** A `(text, page_number)` pair: the shape of both the input pages and the output chunks. */
  datatype TextPage = TextPage(text: string, pageNumber: int)

  /**
   * How the sentence-break test is read. `AsWritten` compares the break's
   * index inside the window with `start + chunk_size // 2`, as the code does;
   * `Intended` compares it with `chunk_size // 2`, the middle of the window.
   */
  datatype CutRule = AsWritten | Intended

  /**
   * Parameters for which every window advances: a window is at least
   * `chunk_size // 2 + 2` characters long when it is cut at a break and
   * `chunk_size` otherwise, so the overlap must be smaller than both. The
   * defaults 1000/200 qualify; for larger overlaps the loop need not end.
   */
  predicate ValidWindowing(chunkSize: int, overlap: int) {
    chunkSize >= 1 && overlap < chunkSize && overlap <= chunkSize / 2 + 1
  }

  predicate IsBreak(c: char) {
    c == '.' || c == '\n'
  }

  /** `max(chunk.rfind('.'), chunk.rfind('\n'))`: the last sentence break, or -1. */
  function LastBreak(chunk: string): (b: int)
    ensures -1 <= b < |chunk|
  {
    var period := RFind(chunk, '.');
    var newline := RFind(chunk, '\n');
    if period >= newline then period else newline
  }

  lemma LastBreakIsLast(chunk: string)
    ensures LastBreak(chunk) >= 0 ==> IsBreak(chunk[LastBreak(chunk)])
    ensures forall j :: LastBreak(chunk) < j < |chunk| ==> !IsBreak(chunk[j])
  {
    RFindIsLast(chunk, '.');
    RFindIsLast(chunk, '\n');
  }

  function Threshold(rule: CutRule, start: int, chunkSize: int): int {
    match rule
    case AsWritten => start + chunkSize / 2
    case Intended => chunkSize / 2
  }

  /**
   * The (unclamped) `end` of the window that begins at `start`. It never
   * exceeds `start + chunk_size`, and it is either exactly that or, after a cut
   * at a break, at least `chunk_size // 2 + 2` past `start`.
   */
  function WindowEnd(text: string, start: int, chunkSize: int, rule: CutRule): (end: int)
    requires 0 <= start < |text| && chunkSize >= 1
    ensures start < end <= start + chunkSize
    ensures end == start + chunkSize || chunkSize / 2 + 2 <= end - start
  {
    if start + chunkSize < |text| then
      var b := LastBreak(text[start..start + chunkSize]);
      if b > Threshold(rule, start, chunkSize) then start + b + 1 else start + chunkSize
    else
      start + chunkSize
  }

  /** `text[start:end]` for the window's `end`, clamped to the text as Python slicing is. */
  function Window(text: string, start: int, chunkSize: int, rule: CutRule): (w: string)
    requires 0 <= start < |text| && chunkSize >= 1
    ensures |w| <= chunkSize
  {
    var end := WindowEnd(text, start, chunkSize, rule);
    text[start..if end < |text| then end else |text|]
  }

  /** Where the next window begins: `end - overlap`, always past `start` for valid parameters. */
  function NextStart(text: string, start: int, chunkSize: int, overlap: int, rule: CutRule): (next: int)
    requires 0 <= start < |text| && ValidWindowing(chunkSize, overlap)
    ensures next > start
  {
    WindowEnd(text, start, chunkSize, rule) - overlap
  }

  /** The chunks the inner `while` loop emits for one long page, from `start` on. */
  function PageWindows(text: string, page: int, start: nat, chunkSize: int, overlap: int, rule: CutRule): seq<TextPage>
    requires ValidWindowing(chunkSize, overlap)
    decreases |text| - start
  {
    if start >= |text| then []
    else
      [TextPage(Strip(Window(text, start, chunkSize, rule)), page)]
      + PageWindows(text, page, NextStart(text, start, chunkSize, overlap, rule), chunkSize, overlap, rule)
  }

  /** The chunks emitted for one page: a short page is kept whole and unstripped. */
  function PageChunks(p: TextPage, chunkSize: int, overlap: int, rule: CutRule): seq<TextPage>
    requires ValidWindowing(chunkSize, overlap)
  {
    if |p.text| <= chunkSize then [p]
    else PageWindows(p.text, p.pageNumber, 0, chunkSize, overlap, rule)
  }

  /** The whole result: the pages' chunks one page after another. */
  function Chunks(pages: seq<TextPage>, chunkSize: int, overlap: int, rule: CutRule): seq<TextPage>
    requires ValidWindowing(chunkSize, overlap)
  {
    if pages == [] then []
    else Chunks(pages[..|pages| - 1], chunkSize, overlap, rule) + PageChunks(pages[|pages| - 1], chunkSize, overlap, rule)
  }

  /** The loop of `chunk_text_with_page_info`, page by page. */
  method ChunkTextWithPageInfo(pages: seq<TextPage>, chunkSize: int, overlap: int, rule: CutRule)
    returns (chunks: seq<TextPage>)
    requires ValidWindowing(chunkSize, overlap)
    ensures chunks == Chunks(pages, chunkSize, overlap, rule)
  {
    chunks := [];
    for i := 0 to |pages|
      invariant chunks == Chunks(pages[..i], chunkSize, overlap, rule)
    {
      var text, pageNum := pages[i].text, pages[i].pageNumber;
      var piece;
      if |text| <= chunkSize {
        piece := [pages[i]];
      } else {
        piece := SplitPage(text, pageNum, chunkSize, overlap, rule);
      }
      assert piece == PageChunks(pages[i], chunkSize, overlap, rule);
      ChunksPrefixStep(pages, i, chunkSize, overlap, rule);
      chunks := chunks + piece;
    }
    assert pages[..|pages|] == pages;
  }

  /** The inner `while` loop of `chunk_text_with_page_info`: the windows of one long page. */
  method SplitPage(text: string, pageNum: int, chunkSize: int, overlap: int, rule: CutRule)
    returns (windows: seq<TextPage>)
    requires ValidWindowing(chunkSize, overlap)
    ensures windows == PageWindows(text, pageNum, 0, chunkSize, overlap, rule)
  {
    windows := [];
    var start := 0;
    ghost var whole := PageWindows(text, pageNum, start, chunkSize, overlap, rule);
    assert windows + whole == whole;
    while start < |text|
      invariant 0 <= start
      invariant windows + PageWindows(text, pageNum, start, chunkSize, overlap, rule) == whole
      decreases |text| - start
    {
      var end, chunk := NextWindow(text, start, chunkSize, rule);
      WindowStepAt(text, pageNum, start, chunk, chunkSize, overlap, rule);
      SnocShift(windows, TextPage(Strip(chunk), pageNum), PageWindows(text, pageNum, NextStart(text, start, chunkSize, overlap, rule), chunkSize, overlap, rule));
      windows := windows + [TextPage(Strip(chunk), pageNum)];
      ghost var prevStart := start;
      start := end - overlap;
      assert start == NextStart(text, prevStart, chunkSize, overlap, rule);
      if start >= |text| {
        break;
      }
    }
    assert PageWindows(text, pageNum, start, chunkSize, overlap, rule) == [];
    assert windows + [] == windows;
  }

  /**
   * The body of the inner loop up to the slice: the window's `end`, pulled back
   * to just after the last sentence break when the test on that break passes,
   * and the window's text.
   */
  method NextWindow(text: string, start: int, chunkSize: int, rule: CutRule) returns (end: int, chunk: string)
    requires 0 <= start < |text| && chunkSize >= 1
    ensures end == WindowEnd(text, start, chunkSize, rule)
    ensures chunk == Window(text, start, chunkSize, rule)
  {
    end := start + chunkSize;
    chunk := text[start..if end < |text| then end else |text|];
    if end < |text| {
      var lastPeriod := RFind(chunk, '.');
      var lastNewline := RFind(chunk, '\n');
      var boundary := if lastPeriod >= lastNewline then lastPeriod else lastNewline;
      if boundary > Threshold(rule, start, chunkSize) {
        end := start + boundary + 1;
        chunk := text[start..end];
      }
    }
  }

  /** One turn of the inner loop: the window at `start`, then the windows from `end - overlap`. */
  lemma WindowStep(text: string, page: int, start: nat, chunkSize: int, overlap: int, rule: CutRule)
    requires ValidWindowing(chunkSize, overlap) && start < |text|
    ensures PageWindows(text, page, start, chunkSize, overlap, rule)
            == [TextPage(Strip(Window(text, start, chunkSize, rule)), page)]
               + PageWindows(text, page, NextStart(text, start, chunkSize, overlap, rule), chunkSize, overlap, rule)
  {
  }

  /** `WindowStep` for the `chunk` the loop body cut. */
  lemma WindowStepAt(text: string, page: int, start: nat, chunk: string, chunkSize: int, overlap: int, rule: CutRule)
    requires ValidWindowing(chunkSize, overlap) && start < |text|
    requires chunk == Window(text, start, chunkSize, rule)
    ensures PageWindows(text, page, start, chunkSize, overlap, rule)
            == [TextPage(Strip(chunk), page)] + PageWindows(text, page, NextStart(text, start, chunkSize, overlap, rule), chunkSize, overlap, rule)
  {
    WindowStep(text, page, start, chunkSize, overlap, rule);
  }

  lemma SnocShift<T>(done: seq<T>, x: T, rest: seq<T>)
    ensures (done + [x]) + rest == done + ([x] + rest)
  {
  }

  lemma ChunksPrefixStep(pages: seq<TextPage>, i: int, chunkSize: int, overlap: int, rule: CutRule)
    requires ValidWindowing(chunkSize, overlap) && 0 <= i < |pages|
    ensures Chunks(pages[..i + 1], chunkSize, overlap, rule)
            == Chunks(pages[..i], chunkSize, overlap, rule) + PageChunks(pages[i], chunkSize, overlap, rule)
  {
    assert pages[..i + 1] == pages[..i] + [pages[i]];
    ChunksSnoc(pages[..i], pages[i], chunkSize, overlap, rule);
  }

  lemma ChunksSnoc(pages: seq<TextPage>, p: TextPage, chunkSize: int, overlap: int, rule: CutRule)
    requires ValidWindowing(chunkSize, overlap)
    ensures Chunks(pages + [p], chunkSize, overlap, rule) == Chunks(pages, chunkSize, overlap, rule) + PageChunks(p, chunkSize, overlap, rule)
  {
    assert (pages + [p])[..|pages + [p]| - 1] == pages;
  }

  // ---------------------------------------------------------------------------
  // Properties of the chunking

  lemma {:induction false} ChunksAppend(a: seq<TextPage>, b: seq<TextPage>, chunkSize: int, overlap: int, rule: CutRule)
    requires ValidWindowing(chunkSize, overlap)
    ensures Chunks(a + b, chunkSize, overlap, rule) == Chunks(a, chunkSize, overlap, rule) + Chunks(b, chunkSize, overlap, rule)
    decreases |b|
  {
    if b == [] {
      assert a + b == a;
    } else {
      var b', last := b[..|b| - 1], b[|b| - 1];
      assert Chunks(a + b, chunkSize, overlap, rule) == Chunks(a + b', chunkSize, overlap, rule) + PageChunks(last, chunkSize, overlap, rule) by {
        assert a + b == (a + b') + [last];
        ChunksSnoc(a + b', last, chunkSize, overlap, rule);
      }
      ChunksAppend(a, b', chunkSize, overlap, rule);
    }
  }

  /**
   * Every window of a long page is at most `chunk_size` long, is a contiguous
   * slice of the page text, and carries the page's number; a page always
   * yields at least one window.
   */
  lemma {:induction false} PageWindowsShape(text: string, page: int, start: nat, chunkSize: int, overlap: int, rule: CutRule)
    requires ValidWindowing(chunkSize, overlap)
    ensures start < |text| ==> PageWindows(text, page, start, chunkSize, overlap, rule) != []
    ensures AllChunksOfPage(PageWindows(text, page, start, chunkSize, overlap, rule), text, page, chunkSize)
    decreases |text| - start
  {
    if start < |text| {
      PageWindowsShape(text, page, NextStart(text, start, chunkSize, overlap, rule), chunkSize, overlap, rule);
      PageWindowsCons(text, page, start, chunkSize, overlap, rule);
    }
  }

  /** The inductive step of `PageWindowsShape`: the head window joins chunks already known to be of the page. */
  lemma PageWindowsCons(text: string, page: int, start: nat, chunkSize: int, overlap: int, rule: CutRule)
    requires ValidWindowing(chunkSize, overlap) && start < |text|
    requires AllChunksOfPage(PageWindows(text, page, NextStart(text, start, chunkSize, overlap, rule), chunkSize, overlap, rule), text, page, chunkSize)
    ensures PageWindows(text, page, start, chunkSize, overlap, rule) != []
    ensures AllChunksOfPage(PageWindows(text, page, start, chunkSize, overlap, rule), text, page, chunkSize)
  {
    var head := TextPage(Strip(Window(text, start, chunkSize, rule)), page);
    var rest := PageWindows(text, page, NextStart(text, start, chunkSize, overlap, rule), chunkSize, overlap, rule);
    WindowStep(text, page, start, chunkSize, overlap, rule);
    HeadIsChunkOfPage(text, page, start, chunkSize, rule);
    AllChunksCons(head, rest, text, page, chunkSize);
  }

  /** The window at `start`, stripped, is a slice of the page no longer than `chunk_size`. */
  lemma HeadIsChunkOfPage(text: string, page: int, start: nat, chunkSize: int, rule: CutRule)
    requires 0 <= start < |text| && chunkSize >= 1
    ensures ChunkOfPage(TextPage(Strip(Window(text, start, chunkSize, rule)), page), text, page, chunkSize)
  {
    var end := WindowEnd(text, start, chunkSize, rule);
    StrippedSliceIsSlice(text, start, if end < |text| then end else |text|);
  }

  /** Stripping a slice of `text` leaves a slice of `text`. */
  lemma StrippedSliceIsSlice(text: string, lo: int, hi: int)
    requires 0 <= lo <= hi <= |text|
    ensures IsSliceOf(Strip(text[lo..hi]), text)
  {
    var w := text[lo..hi];
    var a := LeadingSpace(w);
    StripIsSlice(w);
    SliceOfSlice(text, lo, hi, a, a + |Strip(w)|);
    assert OccursAt(text, Strip(w), lo + a);
  }

  lemma AllChunksCons(head: TextPage, rest: seq<TextPage>, text: string, page: int, chunkSize: int)
    requires ChunkOfPage(head, text, page, chunkSize) && AllChunksOfPage(rest, text, page, chunkSize)
    ensures AllChunksOfPage([head] + rest, text, page, chunkSize)
  {
    var ws := [head] + rest;
    forall i | 0 <= i < |ws| ensures ChunkOfPage(ws[i], text, page, chunkSize) {
      if i > 0 {
        assert ws[i] == rest[i - 1];
      }
    }
  }

  ghost predicate AllChunksOfPage(ws: seq<TextPage>, text: string, page: int, chunkSize: int) {
    forall i :: 0 <= i < |ws| ==> ChunkOfPage(ws[i], text, page, chunkSize)
  }

  /** A chunk cut from page `page` whose text is `text`. */
  ghost predicate ChunkOfPage(c: TextPage, text: string, page: int, chunkSize: int) {
    c.pageNumber == page && |c.text| <= chunkSize && IsSliceOf(c.text, text)
  }

  /** `c` is `text[a:a + len(c)]` for some `a`. */
  ghost predicate IsSliceOf(c: string, text: string) {
    exists a :: OccursAt(text, c, a)
  }

  /** The chunks of one page: the page itself when it fits, its windows otherwise. */
  lemma PageChunksShape(p: TextPage, chunkSize: int, overlap: int, rule: CutRule)
    requires ValidWindowing(chunkSize, overlap)
    ensures PageChunks(p, chunkSize, overlap, rule) != []
    ensures AllChunksOfPage(PageChunks(p, chunkSize, overlap, rule), p.text, p.pageNumber, chunkSize)
  {
    if |p.text| <= chunkSize {
      assert OccursAt(p.text, p.text, 0);
    } else {
      PageWindowsShape(p.text, p.pageNumber, 0, chunkSize, overlap, rule);
    }
  }

  /** `c` is a chunk cut from one of `pages`. */
  ghost predicate ChunkOfSomePage(c: TextPage, pages: seq<TextPage>, chunkSize: int) {
    exists j :: 0 <= j < |pages| && ChunkOfPage(c, pages[j].text, pages[j].pageNumber, chunkSize)
  }

  ghost predicate AllChunksOfPages(cs: seq<TextPage>, pages: seq<TextPage>, chunkSize: int) {
    forall i :: 0 <= i < |cs| ==> ChunkOfSomePage(cs[i], pages, chunkSize)
  }

  /**
   * Every chunk is at most `chunk_size` characters long, is a contiguous slice
   * of a page's text and carries that page's number.
   */
  lemma {:induction false} ChunksBounded(pages: seq<TextPage>, chunkSize: int, overlap: int, rule: CutRule)
    requires ValidWindowing(chunkSize, overlap)
    ensures AllChunksOfPages(Chunks(pages, chunkSize, overlap, rule), pages, chunkSize)
    decreases |pages|
  {
    if pages != [] {
      var init, last := pages[..|pages| - 1], pages[|pages| - 1];
      ChunksBounded(init, chunkSize, overlap, rule);
      PageChunksShape(last, chunkSize, overlap, rule);
      ChunksOfPagesSnoc(Chunks(init, chunkSize, overlap, rule), PageChunks(last, chunkSize, overlap, rule), init, last, chunkSize);
      assert init + [last] == pages;
    }
  }

  lemma ChunksOfPagesSnoc(done: seq<TextPage>, tail: seq<TextPage>, init: seq<TextPage>, last: TextPage, chunkSize: int)
    requires AllChunksOfPages(done, init, chunkSize)
    requires AllChunksOfPage(tail, last.text, last.pageNumber, chunkSize)
    ensures AllChunksOfPages(done + tail, init + [last], chunkSize)
  {
    var pages := init + [last];
    var cs := done + tail;
    forall i | 0 <= i < |cs| ensures ChunkOfSomePage(cs[i], pages, chunkSize) {
      if i < |done| {
        assert cs[i] == done[i];
        var j :| 0 <= j < |init| && ChunkOfPage(done[i], init[j].text, init[j].pageNumber, chunkSize);
        assert pages[j] == init[j];
      } else {
        assert cs[i] == tail[i - |done|];
        assert pages[|init|] == last;
      }
    }
  }

  /** Every page yields at least one chunk, so there are at least as many chunks as pages. */
  lemma {:induction false} ChunksCoverPages(pages: seq<TextPage>, chunkSize: int, overlap: int, rule: CutRule)
    requires ValidWindowing(chunkSize, overlap)
    ensures |Chunks(pages, chunkSize, overlap, rule)| >= |pages|
    decreases |pages|
  {
    if pages != [] {
      ChunksCoverPages(pages[..|pages| - 1], chunkSize, overlap, rule);
      PageChunksShape(pages[|pages| - 1], chunkSize, overlap, rule);
    }
  }

  /** A page that fits is emitted as one chunk, unchanged; so a document of short pages is its own chunk list. */
  lemma {:induction false} ShortPagesUnchanged(pages: seq<TextPage>, chunkSize: int, overlap: int, rule: CutRule)
    requires ValidWindowing(chunkSize, overlap)
    requires forall i :: 0 <= i < |pages| ==> |pages[i].text| <= chunkSize
    ensures Chunks(pages, chunkSize, overlap, rule) == pages
    decreases |pages|
  {
    if pages != [] {
      ShortPagesUnchanged(pages[..|pages| - 1], chunkSize, overlap, rule);
    }
  }

  /** The set of page numbers carried by a list of pages or chunks. */
  function PageNumbers(ps: seq<TextPage>): set<int> {
    set i | 0 <= i < |ps| :: ps[i].pageNumber
  }

  lemma PageNumbersAppend(a: seq<TextPage>, b: seq<TextPage>)
    ensures PageNumbers(a + b) == PageNumbers(a) + PageNumbers(b)
  {
    var ab := a + b;
    forall n | n in PageNumbers(ab) ensures n in PageNumbers(a) + PageNumbers(b) {
      var i :| 0 <= i < |ab| && ab[i].pageNumber == n;
      if i < |a| { assert ab[i] == a[i]; } else { assert ab[i] == b[i - |a|]; }
    }
    forall n | n in PageNumbers(a) + PageNumbers(b) ensures n in PageNumbers(ab) {
      if n in PageNumbers(a) {
        var i :| 0 <= i < |a| && a[i].pageNumber == n;
        assert ab[i] == a[i];
      } else {
        var i :| 0 <= i < |b| && b[i].pageNumber == n;
        assert ab[|a| + i] == b[i];
      }
    }
  }

  lemma PageChunksNumbers(p: TextPage, chunkSize: int, overlap: int, rule: CutRule)
    requires ValidWindowing(chunkSize, overlap)
    ensures PageNumbers(PageChunks(p, chunkSize, overlap, rule)) == {p.pageNumber}
  {
    PageChunksShape(p, chunkSize, overlap, rule);
    var tail := PageChunks(p, chunkSize, overlap, rule);
    assert ChunkOfPage(tail[0], p.text, p.pageNumber, chunkSize);
    assert p.pageNumber in PageNumbers(tail);
  }

  /** The set of page numbers on the chunks is exactly the set of page numbers of the input. */
  lemma {:induction false} ChunkPageNumbers(pages: seq<TextPage>, chunkSize: int, overlap: int, rule: CutRule)
    requires ValidWindowing(chunkSize, overlap)
    ensures PageNumbers(Chunks(pages, chunkSize, overlap, rule)) == PageNumbers(pages)
    decreases |pages|
  {
    if pages != [] {
      var init, last := pages[..|pages| - 1], pages[|pages| - 1];
      ChunkPageNumbers(init, chunkSize, overlap, rule);
      PageChunksNumbers(last, chunkSize, overlap, rule);
      PageNumbersAppend(Chunks(init, chunkSize, overlap, rule), PageChunks(last, chunkSize, overlap, rule));
      assert pages == init + [last];
      PageNumbersAppend(init, [last]);
      assert PageNumbers([last]) == {last.pageNumber} by { assert [last][0] == last; }
    }
  }

  predicate PagesOrdered(ps: seq<TextPage>) {
    forall i, j :: 0 <= i < j < |ps| ==> ps[i].pageNumber <= ps[j].pageNumber
  }

  /** Appending chunks all numbered `n` to an ordered list whose numbers are at most `n` keeps it ordered. */
  lemma OrderedSnoc(a: seq<TextPage>, b: seq<TextPage>, n: int)
    requires PagesOrdered(a)
    requires forall x :: x in PageNumbers(a) ==> x <= n
    requires PageNumbers(b) == {n}
    ensures PagesOrdered(a + b)
  {
    var ab := a + b;
    forall i, j | 0 <= i < j < |ab| ensures ab[i].pageNumber <= ab[j].pageNumber {
      if j < |a| {
        assert ab[i] == a[i] && ab[j] == a[j];
      } else if i < |a| {
        assert ab[i] == a[i] && ab[j] == b[j - |a|];
        assert a[i].pageNumber in PageNumbers(a);
        assert b[j - |a|].pageNumber in PageNumbers(b);
      } else {
        assert ab[i] == b[i - |a|] && ab[j] == b[j - |a|];
        assert b[i - |a|].pageNumber in PageNumbers(b);
        assert b[j - |a|].pageNumber in PageNumbers(b);
      }
    }
  }

  /**
   * Chunks come out in page order: when the page numbers of the input do not
   * decrease (as PDF extraction produces them), neither do those of the chunks.
   */
  lemma {:induction false} ChunksInPageOrder(pages: seq<TextPage>, chunkSize: int, overlap: int, rule: CutRule)
    requires ValidWindowing(chunkSize, overlap)
    requires PagesOrdered(pages)
    ensures PagesOrdered(Chunks(pages, chunkSize, overlap, rule))
    decreases |pages|
  {
    if pages != [] {
      var init, last := pages[..|pages| - 1], pages[|pages| - 1];
      assert PagesOrdered(init) by {
        forall i, j | 0 <= i < j < |init| ensures init[i].pageNumber <= init[j].pageNumber {
          assert init[i] == pages[i] && init[j] == pages[j];
        }
      }
      ChunksInPageOrder(init, chunkSize, overlap, rule);
      ChunkPageNumbers(init, chunkSize, overlap, rule);
      PageChunksNumbers(last, chunkSize, overlap, rule);
      forall x | x in PageNumbers(init) ensures x <= last.pageNumber {
        var i :| 0 <= i < |init| && init[i].pageNumber == x;
        assert init[i] == pages[i];
      }
      OrderedSnoc(Chunks(init, chunkSize, overlap, rule), PageChunks(last, chunkSize, overlap, rule), last.pageNumber);
    }
  }

  // ---------------------------------------------------------------------------
  // The sentence-break test of line 301

  /**
   * As written, the test can never succeed once a window starts at or after
   * `chunk_size - 1 - chunk_size // 2` (index 499 with the defaults): the break
   * index inside the window is below `chunk_size`, but it is compared with
   * `start + chunk_size // 2`. With the defaults this is every window after the
   * first whenever the first window was not cut or was cut at a break at window
   * index 698 or later. A break in the second half of such a window is ignored,
   * while the intended test cuts the window there.
   */
  lemma AsWrittenIgnoresSentenceBreak(text: string, start: int, chunkSize: int, k: int)
    requires chunkSize >= 1 && 0 <= start && start + chunkSize < |text|
    requires start + chunkSize / 2 >= chunkSize - 1
    requires start + chunkSize / 2 < k < start + chunkSize && IsBreak(text[k])
    requires !IsBreak(text[start + chunkSize - 1])
    ensures WindowEnd(text, start, chunkSize, AsWritten) == start + chunkSize
    ensures k < WindowEnd(text, start, chunkSize, Intended) < start + chunkSize
  {
    var w := text[start..start + chunkSize];
    LastBreakIsLast(w);
    assert IsBreak(w[k - start]);
    assert !IsBreak(w[chunkSize - 1]);
  }

  /**
   * With the intended test, a window that is not the last one and holds a
   * sentence break past its middle ends right after its last break.
   */
  lemma IntendedCutsAtLastBreak(text: string, start: int, chunkSize: int, k: int)
    requires chunkSize >= 1 && 0 <= start && start + chunkSize < |text|
    requires start + chunkSize / 2 < k < start + chunkSize && IsBreak(text[k])
    ensures k < WindowEnd(text, start, chunkSize, Intended)
    ensures IsBreak(text[WindowEnd(text, start, chunkSize, Intended) - 1])
    ensures forall j :: WindowEnd(text, start, chunkSize, Intended) <= j < start + chunkSize ==> !IsBreak(text[j])
  {
    var w := text[start..start + chunkSize];
    LastBreakIsLast(w);
    assert IsBreak(w[k - start]);
    forall j | start + LastBreak(w) + 1 <= j < start + chunkSize ensures !IsBreak(text[j]) {
      assert text[j] == w[j - start];
    }
  }
}
