# PDF-Utility: page-range splitting and merging

This project models the two operations of `pdf_tool.py`:

- `split_pdf` copies the pages `start_page..end_page` (1-based, inclusive) of one PDF file into a new file. It visits the 0-based indices `start_page-1 .. end_page-1` one at a time. An index inside the document adds its page to the writer. Any other index prints one warning naming page `i+1` and the loop carries on. After the loop the writer is saved only if it holds at least one page. Otherwise a "No pages were written" line is printed.
- `merge_pdfs` appends every listed file to one merger, in list order. It writes the merger once, closes it and prints a confirmation.

The PDF library is a stub. Opening a path gives the document's pages as a `seq<P>` of an opaque page type `P`, through a total function `open: Path -> seq<P>`. The file writes and printed lines are not performed. Each operation returns them, in order, as a trace of `Event`s, together with the pages its writer or merger collected (`Outcome`).

Files:

- `ranges.dfy` (module `Ranges`): Python's `range(a, b)` as `Range(a, b)`, with its length, elements, membership and ordering.
- `pdf_tool.dfy` (module `PdfTool`): the trace observers `Writes` and `WarnedPages`, and the two operations. `SplitPdf` and `MergePdfs` are methods with loops that accumulate pages. Each is proved equal to a specification function (`SplitSpec`, `MergeSpec`), which states the whole result at once. The lemmas then prove what the source promises about those functions.

`split_pdf` validates no range and raises no range error. A start after the end, a start below 1 and an end past the last page are all accepted. Out-of-range indices only print warnings, and an empty selection only skips the write.

## Model

| member | source | states |
|---|---|---|
| PdfTool.SplitPdf | pdf_tool.py:23-49 | The per-index loop yields the in-bounds slice of indices `start_page-1 .. end_page-1`. It prints one warning per index outside the document. Then it writes the file and prints the confirmation if a page was collected, and prints only the "no pages" line otherwise. Every range is accepted. |
| PdfTool.SplitCollectsInBoundsSlice | pdf_tool.py:37-40 | The collected pages form one contiguous, order-preserving slice starting at index `max(start_page-1, 0)`. There are `max(0, min(end_page, n) - max(start_page-1, 0))` of them. Every in-bounds index of the range contributes its own page at its own position. |
| PdfTool.SplitWarnsOutOfRange | pdf_tool.py:37-42 | Page number `w` gets a warning if and only if `start_page <= w <= end_page` and `w` is not in `1..n`. The warnings are strictly increasing, so no index gets two. |
| PdfTool.SplitAccountsForEveryIndex | pdf_tool.py:37-42 | Pages collected plus warnings printed equals `max(0, end_page - start_page + 1)`. Every visited index yields exactly one of the two, and none aborts the loop. |
| PdfTool.SplitWritesIffNonEmpty | pdf_tool.py:44-49 | The trace holds exactly one write, of the collected pages, when at least one page was collected, and no write otherwise. The "no pages" line appears exactly when nothing was collected. The confirmation line appears exactly when something was. |
| PdfTool.SplitEmptyRange | pdf_tool.py:37-49 | When `start_page > end_page` nothing is collected, warned about or written. The only event is the "no pages" line. |
| PdfTool.SplitWithinDocument | pdf_tool.py:36-47 | For `1 <= start_page <= end_page <= n` the output is exactly `pages[start_page-1 .. end_page)`. It has `end_page - start_page + 1` pages, prints no warning and is written once. |
| PdfTool.SkippedInMembership | pdf_tool.py:37-42 | An index of the visited range is skipped (warned about under its 1-based number) if and only if it lies outside the document. |
| PdfTool.MergePdfs | pdf_tool.py:4-20 | The loop appends each listed document's pages to the accumulator, in list order. The result is then written once, the merger is closed, and the confirmation is printed. |
| PdfTool.MergedPagesConcat | pdf_tool.py:13-14 | Merging the list `a + b` gives the merge of `a` followed by the merge of `b`. Documents keep their list order. |
| PdfTool.MergedPagesLength | pdf_tool.py:13-14 | The merged output has as many pages as all inputs together, so nothing is dropped or deduplicated. |
| PdfTool.MergeTwo | pdf_tool.py:13-14 | Merging `[A, B]` gives the pages of `A` followed by the pages of `B`. |
| PdfTool.MergeWritesOnceThenCloses | pdf_tool.py:16-20 | The trace holds exactly one write, containing every merged page. The merger is closed right after that write, and nothing is warned about. |
| Ranges.RangeAt | pdf_tool.py:37 | `range(a, b)` has `max(0, b - a)` elements and its k-th element is `a + k`. |
| Ranges.RangeMembership | pdf_tool.py:37 | `x` is in `range(a, b)` if and only if `a <= x < b`. |

## Left out

- PyPDF2 (`PdfReader`, `PdfWriter`, `PdfMerger`, page objects): a foreign library. Opening a file is the function `open: Path -> seq<P>`. A write is a `WriteFile` event carrying the page sequence.
- Library and I/O exceptions that the code does not handle: `PdfReader` or `merger.append` failing on a missing or corrupt input, and the output write failing (`open(output_file, "wb")`, `writer.write`, `merger.write`, pdf_tool.py:16-17 and 45-46). In the model `open` is total and every write succeeds. So the model does not capture a `merge_pdfs` whose write raises, skipping `merger.close()` and the confirmation line.
- Real file I/O (`open(..., "wb")`) and console output: these are trace events, not effects. Message text is identified by the event kind and its data (page number, file name), not by formatted strings.
- The `__main__` block (pdf_tool.py:53-66): demonstration prints with no logic.
- CLI argument parsing, exit codes, overwrite checks, passwords and encryption, rotate, crop and optimize: `pdf_tool.py` contains none of them.
