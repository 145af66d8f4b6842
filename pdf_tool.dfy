/**
  The two operations of pdf_tool.py: merging several PDF files into one and
  copying a range of pages of one PDF file into a new file.

  The PDF library is a stub. Opening a path yields the document's pages, an
  ordered sequence of an opaque page type `P` (`open: Path -> seq<P>`). The
  file written and the lines printed are recorded, in order, in a trace of
  events that each operation returns.
 */
module PdfTool {
  import opened Ranges

  type Path = string

  /** The observable effects of an operation, in the order they happen. */
  datatype Event<P> =
    | OutOfRangeWarning(pageNumber: int)   // "Warning: Page {i + 1} is out of range ..."
    | WriteFile(file: Path, pages: seq<P>) // a writer or merger saved these pages to file
    | CloseMerger                          // merger.close()
    | SplitSaved(file: Path)               // "Split PDF saved as ..."
    | NoPagesWritten                       // "No pages were written to the output file."
    | MergedSaved(file: Path)              // "Merged PDFs saved as ..."

  /** What an operation leaves behind: the pages collected by its writer or
      merger, and the trace of its effects. */
  datatype Outcome<P> = Outcome(collected: seq<P>, trace: seq<Event<P>>)

  // ---------------------------------------------------------------------
  // Observing a trace
  // ---------------------------------------------------------------------

  /** The file writes of a trace, in order. */
  function Writes<P>(trace: seq<Event<P>>): seq<Event<P>>
  {
    if trace == [] then []
    else (if trace[0].WriteFile? then [trace[0]] else []) + Writes(trace[1..])
  }

  /** The page numbers named by the out-of-range warnings of a trace, in order. */
  function WarnedPages<P>(trace: seq<Event<P>>): seq<int>
  {
    if trace == [] then []
    else (if trace[0].OutOfRangeWarning? then [trace[0].pageNumber] else []) + WarnedPages(trace[1..])
  }

  /** One warning event per page number, in order. */
  function Warnings<P>(pageNumbers: seq<int>): seq<Event<P>>
  {
    if pageNumbers == [] then []
    else [OutOfRangeWarning(pageNumbers[0])] + Warnings(pageNumbers[1..])
  }

  /** What a single event contributes to the observations of a trace. */
  lemma ObserveOne<P>(e: Event<P>)
    ensures Writes([e]) == (if e.WriteFile? then [e] else [])
    ensures WarnedPages([e]) == (if e.OutOfRangeWarning? then [e.pageNumber] else [])
  {
  }

  lemma {:induction false} WritesAppend<P>(a: seq<Event<P>>, b: seq<Event<P>>)
    ensures Writes(a + b) == Writes(a) + Writes(b)
    decreases |a|
  {
    if a != [] {
      assert (a + b)[1..] == a[1..] + b;
      WritesAppend(a[1..], b);
    } else {
      assert a + b == b;
    }
  }

  lemma {:induction false} WarnedPagesAppend<P>(a: seq<Event<P>>, b: seq<Event<P>>)
    ensures WarnedPages(a + b) == WarnedPages(a) + WarnedPages(b)
    decreases |a|
  {
    if a != [] {
      assert (a + b)[1..] == a[1..] + b;
      WarnedPagesAppend(a[1..], b);
    } else {
      assert a + b == b;
    }
  }

  /** Warning events write nothing, and the warnings they carry are exactly
      the page numbers they were made from. */
  lemma {:induction false} WarningsObserved<P>(pageNumbers: seq<int>)
    ensures Writes(Warnings<P>(pageNumbers)) == []
    ensures WarnedPages(Warnings<P>(pageNumbers)) == pageNumbers
    ensures forall e :: e in Warnings<P>(pageNumbers) ==> e.OutOfRangeWarning?
    decreases |pageNumbers|
  {
    if pageNumbers != [] {
      WarningsObserved<P>(pageNumbers[1..]);
    }
  }

  // ---------------------------------------------------------------------
  // split_pdf
  // ---------------------------------------------------------------------

  /** The pages whose 0-based index i satisfies lo <= i < hi and lies inside
      the document: one contiguous slice, clamped to the document. */
  function PagesIn<P>(pages: seq<P>, lo: int, hi: int): seq<P>
  {
    var a := Max(lo, 0);
    var b := Min(hi, |pages|);
    if a < b then pages[a..b] else []
  }

  /** The 1-based page numbers i + 1 of the indices lo <= i < hi that lie
      outside a document of n pages, in increasing order: first the negative
      indices, then those at or past the end. */
  function SkippedIn(n: nat, lo: int, hi: int): seq<int>
  {
    Range(lo + 1, Min(hi, 0) + 1) + Range(Max(lo, n) + 1, hi + 1)
  }

  /** What split_pdf does, stated on the whole range at once: the in-bounds
      slice of indices startPage-1 .. endPage-1 is collected, one warning is
      printed per index outside the document, and the collected pages are
      written if and only if there is at least one. */
  function SplitSpec<P>(pages: seq<P>, startPage: int, endPage: int, outputFile: Path): Outcome<P>
  {
    var collected := PagesIn(pages, startPage - 1, endPage);
    Outcome(collected, Warnings(SkippedIn(|pages|, startPage - 1, endPage)) + SplitTail(collected, outputFile))
  }

  /** The events after the loop of split_pdf: a write and a confirmation when
      the writer holds a page, the "no pages" line otherwise. */
  function SplitTail<P>(collected: seq<P>, outputFile: Path): seq<Event<P>>
  {
    if |collected| > 0 then [WriteFile(outputFile, collected), SplitSaved(outputFile)]
    else [NoPagesWritten]
  }

  /** One more visited index adds its page when it lies inside the document. */
  lemma PagesInStep<P>(pages: seq<P>, lo: int, i: int)
    requires lo <= i
    ensures PagesIn(pages, lo, i + 1)
         == PagesIn(pages, lo, i) + (if 0 <= i < |pages| then [pages[i]] else [])
  {
    if 0 <= i < |pages| {
      assert pages[Max(lo, 0)..i + 1] == pages[Max(lo, 0)..i] + [pages[i]];
    }
  }

  /** One more visited index adds its page number when it lies outside the
      document. */
  lemma SkippedInStep(n: nat, lo: int, i: int)
    requires lo <= i
    ensures SkippedIn(n, lo, i + 1) == SkippedIn(n, lo, i) + (if 0 <= i < n then [] else [i + 1])
  {
    if i < 0 {
      RangeSnoc(lo + 1, i + 1);
      assert Range(Max(lo, n) + 1, i + 2) == [];
    } else if i >= n {
      RangeSnoc(Max(lo, n) + 1, i + 1);
    }
  }

  /** When the loop stops at i, it has visited the whole range [lo, hi):
      either i reached hi, or the range was empty and the loop never ran. */
  lemma RangeDone<P>(pages: seq<P>, lo: int, i: int, hi: int)
    requires lo <= i && hi <= i && (i <= hi || i == lo)
    ensures PagesIn(pages, lo, i) == PagesIn(pages, lo, hi)
    ensures SkippedIn(|pages|, lo, i) == SkippedIn(|pages|, lo, hi)
  {
  }

  /** split_pdf: visits the indices startPage-1 .. endPage-1 one at a time,
      adding the in-bounds pages to the writer and printing a warning for each
      other index, then writes the writer only if it holds a page. No range
      is rejected: an out-of-range index is skipped and the loop continues. */
  method SplitPdf<P>(open: Path -> seq<P>, inputFile: Path, startPage: int, endPage: int, outputFile: Path)
    returns (r: Outcome<P>)
    ensures r == SplitSpec(open(inputFile), startPage, endPage, outputFile)
  {
    var pages := open(inputFile);
    var n := |pages|;
    var lo := startPage - 1;
    var collected: seq<P> := [];
    var warned: seq<int> := [];
    var i := lo;
    while i < endPage
      invariant lo <= i && (i <= endPage || i == lo)
      invariant collected == PagesIn(pages, lo, i)
      invariant warned == SkippedIn(n, lo, i)
    {
      PagesInStep(pages, lo, i);
      SkippedInStep(n, lo, i);
      if 0 <= i < n {
        collected := collected + [pages[i]];
      } else {
        warned := warned + [i + 1];
      }
      i := i + 1;
    }
    RangeDone(pages, lo, i, endPage);
    var tail: seq<Event<P>>;
    if |collected| > 0 {
      tail := [WriteFile(outputFile, collected), SplitSaved(outputFile)];
    } else {
      tail := [NoPagesWritten];
    }
    var trace := Warnings(warned) + tail;
    r := Outcome(collected, trace);
  }

  /** The collected pages are the contiguous, order-preserving slice of the
      document that starts at index max(startPage-1, 0): every in-bounds index
      of the range contributes its page, at its place, and nothing else does. */
  lemma SplitCollectsInBoundsSlice<P>(pages: seq<P>, startPage: int, endPage: int, outputFile: Path)
    ensures var r := SplitSpec(pages, startPage, endPage, outputFile);
      var first := Max(startPage - 1, 0);
      && |r.collected| == Max(0, Min(endPage, |pages|) - first)
      && (r.collected != [] ==>
            first + |r.collected| <= |pages| && r.collected == pages[first..first + |r.collected|])
      && forall i :: startPage - 1 <= i < endPage && 0 <= i < |pages| ==>
           0 <= i - first < |r.collected| && r.collected[i - first] == pages[i]
  {
  }

  /** A warning is printed for page number w exactly when index w-1 is
      visited and lies outside the document; the warnings come in increasing
      page order, so no index is warned about twice. */
  lemma SplitWarnsOutOfRange<P>(pages: seq<P>, startPage: int, endPage: int, outputFile: Path)
    ensures var warned := WarnedPages(SplitSpec(pages, startPage, endPage, outputFile).trace);
      && (forall w :: w in warned <==> startPage <= w <= endPage && !(1 <= w <= |pages|))
      && (forall j, k :: 0 <= j < k < |warned| ==> warned[j] < warned[k])
  {
    SplitTraceShape(pages, startPage, endPage, outputFile);
    var skipped := SkippedIn(|pages|, startPage - 1, endPage);
    forall w
      ensures w in skipped <==> startPage <= w <= endPage && !(1 <= w <= |pages|)
    {
      SkippedInMembership(|pages|, startPage - 1, endPage, w);
    }
    SkippedInIncreasing(|pages|, startPage - 1, endPage);
  }

  /** Page number w is skipped exactly when index w-1 is in [lo, hi) and
      outside the document. */
  lemma SkippedInMembership(n: nat, lo: int, hi: int, w: int)
    ensures w in SkippedIn(n, lo, hi) <==> lo + 1 <= w <= hi && !(1 <= w <= n)
  {
    RangeMembership(lo + 1, Min(hi, 0) + 1, w);
    RangeMembership(Max(lo, n) + 1, hi + 1, w);
  }

  /** The skipped page numbers are strictly increasing. */
  lemma SkippedInIncreasing(n: nat, lo: int, hi: int)
    ensures var s := SkippedIn(n, lo, hi);
      forall j, k :: 0 <= j < k < |s| ==> s[j] < s[k]
  {
    var a, b := Range(lo + 1, Min(hi, 0) + 1), Range(Max(lo, n) + 1, hi + 1);
    RangeIncreasing(lo + 1, Min(hi, 0) + 1);
    RangeIncreasing(Max(lo, n) + 1, hi + 1);
    RangeAt(lo + 1, Min(hi, 0) + 1);
    RangeAt(Max(lo, n) + 1, hi + 1);
    forall j, k | 0 <= j < k < |a + b|
      ensures (a + b)[j] < (a + b)[k]
    {
      if k < |a| {
        assert (a + b)[j] == a[j] && (a + b)[k] == a[k];
      } else if j >= |a| {
        assert (a + b)[j] == b[j - |a|] && (a + b)[k] == b[k - |a|];
      } else {
        assert (a + b)[j] == a[j] && a[j] <= 0;
        assert (a + b)[k] == b[k - |a|] && b[k - |a|] >= 1;
      }
    }
  }

  /** Splitting never aborts: every visited index either contributes a page
      or a warning, so together they account for the whole range. */
  lemma SplitAccountsForEveryIndex<P>(pages: seq<P>, startPage: int, endPage: int, outputFile: Path)
    ensures var r := SplitSpec(pages, startPage, endPage, outputFile);
      |r.collected| + |WarnedPages(r.trace)| == Max(0, endPage - startPage + 1)
  {
    var n, lo, hi := |pages|, startPage - 1, endPage;
    SplitTraceShape(pages, startPage, endPage, outputFile);
    RangeAt(lo + 1, Min(hi, 0) + 1);
    RangeAt(Max(lo, n) + 1, hi + 1);
  }

  /** The output file is written once if at least one page was collected and
      never otherwise; the "no pages" line is printed exactly in the other case. */
  lemma SplitWritesIffNonEmpty<P>(pages: seq<P>, startPage: int, endPage: int, outputFile: Path)
    ensures var r := SplitSpec(pages, startPage, endPage, outputFile);
      && Writes(r.trace) == (if r.collected != [] then [WriteFile(outputFile, r.collected)] else [])
      && (NoPagesWritten in r.trace <==> r.collected == [])
      && (SplitSaved(outputFile) in r.trace <==> r.collected != [])
  {
    var r := SplitSpec(pages, startPage, endPage, outputFile);
    var ws := Warnings<P>(SkippedIn(|pages|, startPage - 1, endPage));
    SplitTraceShape(pages, startPage, endPage, outputFile);
    SplitTailObserved(r.collected, outputFile);
    WarningsObserved<P>(SkippedIn(|pages|, startPage - 1, endPage));
    assert r.trace == ws + SplitTail(r.collected, outputFile);
  }

  /** The events after the loop write the collected pages once when there
      are any, and carry no warning. */
  lemma SplitTailObserved<P>(collected: seq<P>, outputFile: Path)
    ensures Writes(SplitTail(collected, outputFile))
         == (if collected != [] then [WriteFile(outputFile, collected)] else [])
    ensures WarnedPages(SplitTail(collected, outputFile)) == []
  {
    var tail := SplitTail(collected, outputFile);
    if collected != [] {
      assert tail == [tail[0]] + [tail[1]];
      ObserveOne(tail[0]);
      ObserveOne(tail[1]);
      WritesAppend([tail[0]], [tail[1]]);
      WarnedPagesAppend([tail[0]], [tail[1]]);
    } else {
      ObserveOne(tail[0]);
    }
  }

  /** The warnings of a split are those of SkippedIn, and its writes are
      those of the events after the loop. */
  lemma SplitTraceShape<P>(pages: seq<P>, startPage: int, endPage: int, outputFile: Path)
    ensures var r := SplitSpec(pages, startPage, endPage, outputFile);
      && WarnedPages(r.trace) == SkippedIn(|pages|, startPage - 1, endPage)
      && Writes(r.trace) == Writes(SplitTail(r.collected, outputFile))
  {
    var r := SplitSpec(pages, startPage, endPage, outputFile);
    var skipped := SkippedIn(|pages|, startPage - 1, endPage);
    var ws := Warnings<P>(skipped);
    var tail := SplitTail(r.collected, outputFile);
    WarningsObserved<P>(skipped);
    SplitTailObserved(r.collected, outputFile);
    WarnedPagesAppend(ws, tail);
    WritesAppend(ws, tail);
  }

  /** When the first page comes after the last, the loop does not run:
      nothing is collected, nothing is warned about and nothing is written. */
  lemma SplitEmptyRange<P>(pages: seq<P>, startPage: int, endPage: int, outputFile: Path)
    requires startPage > endPage
    ensures SplitSpec(pages, startPage, endPage, outputFile) == Outcome([], [NoPagesWritten])
  {
  }

  /** A range inside the document is copied whole, in order, without warnings. */
  lemma SplitWithinDocument<P>(pages: seq<P>, startPage: int, endPage: int, outputFile: Path)
    requires 1 <= startPage <= endPage <= |pages|
    ensures var r := SplitSpec(pages, startPage, endPage, outputFile);
      && r.collected == pages[startPage - 1..endPage]
      && |r.collected| == endPage - startPage + 1
      && WarnedPages(r.trace) == []
      && Writes(r.trace) == [WriteFile(outputFile, pages[startPage - 1..endPage])]
  {
    SplitTraceShape(pages, startPage, endPage, outputFile);
    SplitWritesIffNonEmpty(pages, startPage, endPage, outputFile);
  }

  // ---------------------------------------------------------------------
  // merge_pdfs
  // ---------------------------------------------------------------------

  /** The pages of the listed documents, one document after the other, in
      list order. */
  function MergedPages<P>(open: Path -> seq<P>, paths: seq<Path>): seq<P>
    decreases |paths|
  {
    if paths == [] then []
    else MergedPages(open, paths[..|paths| - 1]) + open(paths[|paths| - 1])
  }

  /** The total number of pages of the listed documents. */
  function TotalPages<P>(open: Path -> seq<P>, paths: seq<Path>): nat
    decreases |paths|
  {
    if paths == [] then 0 else |open(paths[0])| + TotalPages(open, paths[1..])
  }

  /** What merge_pdfs does: every listed document is appended to the merger,
      which is written once to the output file, then closed. */
  function MergeSpec<P>(open: Path -> seq<P>, pdfList: seq<Path>, outputFile: Path): Outcome<P>
  {
    var merged := MergedPages(open, pdfList);
    Outcome(merged, [WriteFile(outputFile, merged), CloseMerger, MergedSaved(outputFile)])
  }

  /** merge_pdfs: appends each listed document's pages to one merger, in list
      order, then writes the merger once and closes it. */
  method MergePdfs<P>(open: Path -> seq<P>, pdfList: seq<Path>, outputFile: Path)
    returns (r: Outcome<P>)
    ensures r == MergeSpec(open, pdfList, outputFile)
  {
    var merged: seq<P> := [];
    for k := 0 to |pdfList|
      invariant merged == MergedPages(open, pdfList[..k])
    {
      assert pdfList[..k + 1][..k] == pdfList[..k];
      merged := merged + open(pdfList[k]);
    }
    assert pdfList[..|pdfList|] == pdfList;
    r := Outcome(merged, [WriteFile(outputFile, merged), CloseMerger, MergedSaved(outputFile)]);
  }

  /** Merging two lists is merging each and concatenating: documents keep
      their list order and no document is reordered or dropped. */
  lemma {:induction false} MergedPagesConcat<P>(open: Path -> seq<P>, a: seq<Path>, b: seq<Path>)
    ensures MergedPages(open, a + b) == MergedPages(open, a) + MergedPages(open, b)
    decreases |b|
  {
    if b == [] {
      assert a + b == a;
    } else {
      var front := b[..|b| - 1];
      assert (a + b)[..|a + b| - 1] == a + front;
      MergedPagesConcat(open, a, front);
    }
  }

  /** Merging keeps every page: the output has as many pages as the inputs
      together, so nothing is deduplicated. */
  lemma {:induction false} MergedPagesLength<P>(open: Path -> seq<P>, paths: seq<Path>)
    ensures |MergedPages(open, paths)| == TotalPages(open, paths)
    decreases |paths|
  {
    if paths != [] {
      assert paths == [paths[0]] + paths[1..];
      MergedPagesConcat(open, [paths[0]], paths[1..]);
      MergedPagesLength(open, paths[1..]);
    }
  }

  /** Merging documents A and B yields the pages of A followed by those of B. */
  lemma MergeTwo<P>(open: Path -> seq<P>, first: Path, second: Path)
    ensures MergedPages(open, [first, second]) == open(first) + open(second)
  {
    assert [first][..0] == [];
    assert MergedPages(open, [first]) == open(first);
    assert [first, second][..1] == [first];
  }

  /** The merged file is written exactly once, with every page, and the
      merger is closed only after that write. */
  lemma MergeWritesOnceThenCloses<P>(open: Path -> seq<P>, pdfList: seq<Path>, outputFile: Path)
    ensures var r := MergeSpec(open, pdfList, outputFile);
      && Writes(r.trace) == [WriteFile(outputFile, MergedPages(open, pdfList))]
      && r.trace[0].WriteFile? && r.trace[1] == CloseMerger
      && WarnedPages(r.trace) == []
  {
    var r := MergeSpec(open, pdfList, outputFile);
    var t := r.trace;
    assert t == [t[0]] + ([t[1]] + [t[2]]);
    ObserveOne(t[0]);
    ObserveOne(t[1]);
    ObserveOne(t[2]);
    WritesAppend([t[1]], [t[2]]);
    WritesAppend([t[0]], [t[1]] + [t[2]]);
    WarnedPagesAppend([t[1]], [t[2]]);
    WarnedPagesAppend([t[0]], [t[1]] + [t[2]]);
  }
}
