# Pagination core of the rich text editor

This project models the core of a rich text editor that paginates its document the way a
word processor does. The core is one greedy page-breaking rule. A block starts a new page
exactly when the page already holds some height (`running > 0`) and adding the block would
exceed the page's usable height (`running + h > usable`). After a break the running height
is the block's own height; otherwise it grows by that height. The editor applies this rule
in three places:

- **The live engine** (`calculatePageBreaks`). It places numbered page-break widgets
  between the editor's top-level blocks. The plugin state (`init`/`apply`) carries the
  widgets and the page count between passes, and the paper's minimum height is computed
  from the page count.
- **The preview flow**. It concatenates the `outerHTML` of the container's element children
  into page strings, and falls back to a single page holding the whole content.
- **The PDF grouping** (`renderPagesOffScreen`). It first strips every `rte-page-break`
  element, then fills a buffer of elements that `flushPage` turns into a page of the
  paper's size. It falls back to one blank page.

Around the rule sit four smaller pieces:

- the document-integrity filter, which refuses a transaction that would leave the
  document with no block;
- the debouncer that delays recalculation;
- the page formats (A4 and Letter, one-inch margins, `PAGE_GAP = 40`,
  `PAGINATION_DEBOUNCE_MS = 100`);
- `classNames`.

Layout of the project:

- `page_flow.dfy` states the rule once. `Paginate` gives the break positions and the final
  running height of a height sequence. `Group` cuts any sequence of items into the pages
  those breaks define.
- The three loops are imperative methods proved equal to functions built on `Paginate` and
  `Group`:
  - `Pagination.CalculatePageBreaks`, a loop pushing widgets;
  - `PreviewPagination.FlowPreview`, a loop over page strings;
  - `PdfRenderer.RenderPagesOffScreen`, a loop over the `PageAssembler` class whose fields
    are the page list, the element buffer and the running height.
- What the source promises is then proved about those functions:
  - page count = breaks + 1;
  - every block on exactly one page, in order;
  - pages fit unless they hold one oversized block;
  - the three flows agree with each other.
- The debouncer is a `Debouncer` class whose methods are proved to follow pure step
  functions. Its timers are explicit state, and a timer firing is an explicit event.

Block heights come from DOM measurement in the source. Here they are given: a `nat` per
block for the live engine and the preview, and a `measure: Node -> nat` oracle for the PDF
flow. A block the DOM does not render is a zero entry.

Where the code and its comments or documentation disagree, the model follows the code:

- **A4 height.** `Math.round(11.69 * 96)` is 1122, not the 1123 written in the comment
  (src/constants.ts:10). So A4's usable height is 930.
- **Zero-height blocks.** These are said never to start a page, but the code does start a
  page before a zero-height block when the running height already exceeds the usable
  height, i.e. after an oversized block. `PageFlow.OversizedBlockEndsPage` states this.
  Leading zero-height blocks never break (`PageFlow.LeadingZeroBlocksNeverBreak`).
- **Page count between passes.** `pageCount` is widgets + 1 right after a pass, but not
  necessarily between passes. `apply` on a document edit keeps `pageCount`, while remapping
  can drop a widget whose position was deleted
  (`Pagination.EditCanDropWidgetKeepingPageCount`). Between passes what holds is
  weaker: the widgets' page numbers stay ascending and all lie below `pageCount`
  (`Pagination.ApplyKeepsWellFormed`).

## Model

| member | source | states |
|---|---|---|
| PageFormats.Round | src/constants.ts:9-10 | `Math.round` (half rounds up) lands within one half of its argument |
| PageFormats.Dimensions | src/constants.ts:4-28 | all margins are one inch (96 px); A4 is 794 × 1122 and Letter 816 × 1056; usable heights 930 and 864 and usable widths 602 and 624, all positive |
| PageFlow.Paginate | src/extensions/pagination/PaginationPlugin.ts:26-51 | the break positions of the greedy rule are strictly increasing, never the first block and always inside the document; the final running height is at most the total height |
| PageFlow.Group | src/preview/usePreviewPagination.ts:43-61 | the pages of a non-empty sequence are one more than the breaks, and none is empty; no items give no pages |
| PageFlow.PaginateStep | src/extensions/pagination/PaginationPlugin.ts:36-51 | one more block either breaks (running height becomes the block's height, break recorded) or extends the page (running height grows by it) |
| PageFlow.GroupStep | src/preview/usePreviewPagination.ts:49-56 | one more item opens a new page holding just that item on a break, or is appended to the last page |
| PageFlow.ClosedOpenStep | src/pdf/pdfRenderer.ts:65-77 | the finished pages and the page under construction evolve as the loops do: on overflow the open page is closed and a new one holds the item, otherwise the item joins the open page |
| PageFlow.OpenFirst | src/pdf/pdfRenderer.ts:71-76 | the first item never overflows and opens the first page |
| PageFlow.OpenAfterBreak | src/preview/usePreviewPagination.ts:49-52 | on overflow the non-empty open page is closed and the item starts the next |
| PageFlow.OpenExtended | src/preview/usePreviewPagination.ts:53-56 | without overflow the item joins the non-empty open page |
| PageFlow.ClosedOpenFinish | src/pdf/pdfRenderer.ts:79 | after the last item, closing the non-empty open page gives exactly the grouping |
| PageFlow.BreakIff | src/extensions/pagination/PaginationPlugin.ts:36 | a break is placed before block i if and only if the running height before it is positive and adding its height exceeds the usable height |
| PageFlow.RunningIsLastPage | src/extensions/pagination/PaginationPlugin.ts:48-50 | the final running height is the total height of the last page |
| PageFlow.LeadingZeroBlocksNeverBreak | src/extensions/pagination/PaginationPlugin.ts:36 | no break is placed at the first block nor at any of the zero-height blocks leading the document |
| PageFlow.SumOfZeros | src/extensions/pagination/PaginationPlugin.ts:36 | blocks that are all zero-height add up to no height |
| PageFlow.ZeroSum | src/extensions/pagination/PaginationPlugin.ts:36 | a run of blocks with no total height holds only zero-height blocks |
| PageFlow.PagesFit | src/extensions/pagination/PaginationPlugin.ts:26-50 | every page's total height is within the usable height unless all its blocks but the last are zero-height, i.e. it holds one oversized block after leading zero-height blocks |
| PageFlow.PagesAreFull | src/extensions/pagination/PaginationPlugin.ts:36 | every page but the last has positive height and would overflow with the first block of the next page |
| PageFlow.GroupSlices | src/pdf/pdfRenderer.ts:56-58 | page k holds exactly the items between consecutive boundaries `[0] + breaks + [n]`, so the pages begin at the break positions |
| PageFlow.SlicedNewPage | src/preview/usePreviewPagination.ts:49-52 | a break adds a page holding just the new item and a boundary at its index |
| PageFlow.SlicedExtend | src/preview/usePreviewPagination.ts:53-56 | extending the last page moves the last boundary past the new item |
| PageFlow.FlattenGroup | src/pdf/pdfRenderer.ts:56-79 | concatenating the pages gives back the items: nothing dropped, duplicated or reordered |
| PageFlow.FlattenGroupLast | src/pdf/pdfRenderer.ts:71-76 | the last block comes last in the concatenated pages, whether it opens a page or joins the last one |
| PageFlow.BreaksOfPrefix | src/extensions/pagination/PaginationPlugin.ts:32-52 | the breaks of a prefix of the document are a prefix of the document's breaks, and the later breaks lie beyond the prefix |
| PageFlow.OversizedBlockEndsPage | src/extensions/pagination/PaginationPlugin.ts:36 | a block taller than the usable height is always followed by a break, even before a zero-height block |
| PageFlow.ThreeBlocksOnA4 | src/extensions/pagination/PaginationPlugin.ts:36 | three 400 px blocks on A4 (usable 930) break once, before the third |
| Seqs.FlattenAppend | src/preview/usePreviewPagination.ts:54 | concatenation of page contents distributes over appending page lists |
| Seqs.FlattenAppendOne | src/preview/usePreviewPagination.ts:50 | appending one page appends its contents |
| Seqs.FlattenExtendLast | src/preview/usePreviewPagination.ts:54 | appending a fragment to the last page appends it to the concatenation |
| Seqs.FlattenSingleton | src/preview/usePreviewPagination.ts:51 | a single page's contents are its items |
| Seqs.FlattenSingletons | src/pdf/pdfRenderer.ts:56-58 | one-item pages concatenate back to the items |
| Seqs.FlattenFlatten | src/pdf/pdfRenderer.ts:56-58 | concatenating each page's concatenation is concatenating everything |
| Seqs.FlattenMember | src/pdf/pdfRenderer.ts:56-58 | an item of the concatenation lies on some page |
| DocumentProtection.MetaOnlyAllowed | src/extensions/DocumentProtection/DocumentProtectionPlugin.ts:19 | a transaction that does not change the document is always allowed |
| DocumentProtection.EmptyingRejected | src/extensions/DocumentProtection/DocumentProtectionPlugin.ts:23 | a document change leaving no block is refused |
| DocumentProtection.NonEmptyAllowed | src/extensions/DocumentProtection/DocumentProtectionPlugin.ts:25 | a document change leaving at least one block is allowed |
| DocumentProtection.NeverEmptied | src/extensions/DocumentProtection/DocumentProtectionPlugin.ts:17-26 | starting from a document with a block, any sequence of proposed transactions, each filtered, keeps at least one block |
| DocumentProtection.DeleteScenarios | src/extensions/DocumentProtection/DocumentProtectionPlugin.ts:23-25 | deleting the only block is refused; deleting one of two blocks goes through |
| Pagination.Decimal | src/extensions/pagination/PaginationPlugin.ts:43 | a page number renders as a non-empty string of decimal digits |
| Pagination.DecimalRoundTrip | src/extensions/pagination/PaginationPlugin.ts:43 | reading the rendered digits back gives the page number |
| Pagination.KeyInjective | src/extensions/pagination/PaginationPlugin.ts:43 | two widgets with the same `page-break-<n>` key show the same page number |
| Pagination.KeysDistinct | src/extensions/pagination/PaginationPlugin.ts:38-47 | the widgets of one pass have pairwise distinct keys |
| Pagination.PassStep | src/extensions/pagination/PaginationPlugin.ts:32-51 | one block of the pass advances the offset by its size and either pushes a widget at its offset numbered one more than the widgets so far, running height reset to its own, or adds its height |
| Pagination.CalculatePageBreaks | src/extensions/pagination/PaginationPlugin.ts:21-55 | the loop's widgets are those of the greedy rule, numbered 1, 2, … in order, and the page count is widgets + 1 |
| Pagination.OffsetIncreasing | src/extensions/pagination/PaginationPlugin.ts:32 | block offsets strictly increase in document order |
| Pagination.MarkerIff | src/extensions/pagination/PaginationPlugin.ts:36-46 | a widget sits at block i's offset if and only if block i overflows the page |
| Pagination.PaperHoldsStackedPages | src/extensions/pagination/PaginationPlugin.ts:70-73 | the paper's minimum height is the pages stacked with a bottom margin, the gap and a top margin between each two; one page needs exactly the page height |
| Pagination.MapDecorations | src/extensions/pagination/PaginationPlugin.ts:100 | remapping keeps a subset of the widgets, in order, with their page numbers; when no position is deleted all page numbers survive |
| Pagination.AscendingCons | src/extensions/pagination/PaginationPlugin.ts:100 | a widget kept in front of ascending survivors keeps the page numbers ascending |
| Pagination.PageNumbersCons | src/extensions/pagination/PaginationPlugin.ts:100 | the page numbers of a list with a widget in front start with that widget's number |
| Pagination.InitIsEmptyPass | src/extensions/pagination/PaginationPlugin.ts:86-91 | the initial state (no widgets, one page) is what a pass over an empty document gives |
| Pagination.ConsistentIsWellFormed | src/extensions/pagination/PaginationPlugin.ts:54 | a state produced by a pass has at least one page and ascending widget numbers below the page count |
| Pagination.ApplyKeepsWellFormed | src/extensions/pagination/PaginationPlugin.ts:93-105 | a meta transaction replaces the state wholesale, a document edit keeps the page count, any other transaction leaves the state unchanged, and from a well-formed state the widget numbers stay ascending and below the page count |
| Pagination.EditCanDropWidgetKeepingPageCount | src/extensions/pagination/PaginationPlugin.ts:98-102 | an edit deleting the only widget's position leaves no widget and two pages |
| Pagination.Recalculate | src/extensions/pagination/PaginationPlugin.ts:115-134 | nothing happens when the editor is not connected; otherwise the transaction carries the pass's state as meta, changes no document, stays out of the undo history, and the paper gets the height for the pass's page count |
| Pagination.RecalculationIsCommitted | src/extensions/pagination/PaginationPlugin.ts:127-133 | the recalculation transaction passes the integrity filter and its state replaces the plugin state |
| PreviewPagination.Children | src/preview/usePreviewPagination.ts:38 | every child is an element node of the content, there are no more children than nodes, and there are none exactly when the content is only text |
| PreviewPagination.ChildrenAppend | src/preview/usePreviewPagination.ts:38 | the children of two runs of nodes are the first run's followed by the second's, so document order is kept |
| PreviewPagination.ChildrenOne | src/preview/usePreviewPagination.ts:38 | a single node is a child exactly when it is an element: every element is kept, loose text is not |
| PreviewPagination.FlattenNonEmpty | src/preview/usePreviewPagination.ts:59 | a page whose last fragment is non-empty has non-empty html |
| PreviewPagination.PagesOfAppend | src/preview/usePreviewPagination.ts:50 | pushing a page appends its concatenated html |
| PreviewPagination.PreviewStep | src/preview/usePreviewPagination.ts:49-56 | on overflow the current page html is pushed and restarted with the child's html; otherwise the child's html is appended |
| PreviewPagination.PreviewFinish | src/preview/usePreviewPagination.ts:59-61 | after the last child the current html is non-empty exactly when there were children, and pushing it completes the pages |
| PreviewPagination.FlowPreview | src/preview/usePreviewPagination.ts:20-65 | the loop with its two fallbacks produces exactly the grouped pages of the children, or the content as one page |
| PreviewPagination.PreviewHasAPage | src/preview/usePreviewPagination.ts:59-65 | the preview always has at least one page |
| PreviewPagination.PreviewFallback | src/preview/usePreviewPagination.ts:63-65 | with no element children the preview is one page holding the original content |
| PreviewPagination.GroupedPagesNonEmpty | src/preview/usePreviewPagination.ts:49-61 | with children no page's html is empty |
| PreviewPagination.PreviewPageCount | src/preview/usePreviewPagination.ts:49-61 | with children the page count is the number of breaks + 1, and every page's html is non-empty |
| PreviewPagination.PreviewRoundTrip | src/preview/usePreviewPagination.ts:43-56 | concatenating the pages' html gives the children's `outerHTML` in order: nothing dropped, duplicated or reordered |
| PreviewPagination.HtmlsOfPages | src/preview/usePreviewPagination.ts:50-60 | the pages' html, in order, are the concatenated groups |
| PreviewPagination.GroupedPagesSliced | src/preview/usePreviewPagination.ts:49-55 | page k's html is the children between boundaries k and k + 1 |
| PreviewPagination.PagesOfSliced | src/preview/usePreviewPagination.ts:50-54 | pages built from sliced groups are the concatenated slices |
| PreviewPagination.PreviewPageBoundaries | src/preview/usePreviewPagination.ts:49-55 | the preview's pages begin exactly at the live engine's break positions for the same heights |
| PreviewPagination.PreviewAgreesWithEngine | src/preview/usePreviewPagination.ts:49-55 | for the same heights the preview has as many pages as the live engine has widgets + 1 |
| PreviewPagination.EmptyContentPreview | src/preview/usePreviewPagination.ts:63-65 | empty content previews as one empty page |
| PdfRenderer.RemovePageBreaks | src/pdf/pdfRenderer.ts:32 | after removal no `rte-page-break` element is left at any depth, and the top level is no longer |
| PdfRenderer.RemovePageBreaksAppend | src/pdf/pdfRenderer.ts:32 | removal works node by node: a run of nodes is cleaned as its two parts are, so every kept node keeps its place |
| PdfRenderer.RemovePageBreaksOne | src/pdf/pdfRenderer.ts:32 | a text node is kept, an `rte-page-break` element is dropped with everything inside it, and any other element is kept with its own children cleaned |
| PdfRenderer.CleanUnchanged | src/pdf/pdfRenderer.ts:32 | content without page-break elements is left as it is |
| PdfRenderer.RemovePageBreaksIdempotent | src/pdf/pdfRenderer.ts:32 | removing page breaks twice is removing them once |
| PdfRenderer.ElementChildren | src/pdf/pdfRenderer.ts:36 | every child is one of the element nodes, and there are none exactly when only text is left |
| PdfRenderer.ElementChildrenAppend | src/pdf/pdfRenderer.ts:36 | the elements of two runs of nodes are the first run's followed by the second's, so document order is kept |
| PdfRenderer.ElementChildrenOne | src/pdf/pdfRenderer.ts:36 | a single node is laid out exactly when it is an element: every element is kept, text is not |
| PdfRenderer.PageAssembler.constructor | src/pdf/pdfRenderer.ts:37-39 | no pages, an empty buffer and zero running height |
| PdfRenderer.PageAssembler.FlushPage | src/pdf/pdfRenderer.ts:41-63 | a no-op on an empty buffer; otherwise one page of the buffer's elements is appended, the buffer is emptied and the running height reset to 0 |
| PdfRenderer.PageAssembler.Place | src/pdf/pdfRenderer.ts:71-76 | on overflow the buffer is flushed and the child starts a new buffer; otherwise it joins the buffer; the running height follows the rule |
| PdfRenderer.AssemblyStep | src/pdf/pdfRenderer.ts:65-77 | one child closes the open page on overflow or joins it, matching the grouping of the rule |
| PdfRenderer.AssemblyFinish | src/pdf/pdfRenderer.ts:79 | the final flush completes the grouped pages; with no children nothing is produced |
| PdfRenderer.RenderPagesOffScreen | src/pdf/pdfRenderer.ts:12-93 | the loop with its final flush and blank-page fallback produces exactly the grouped pages of the cleaned children |
| PdfRenderer.PdfPageShape | src/pdf/pdfRenderer.ts:45-47 | there is at least one page, every page has the paper's width and height; with no children exactly one blank page, otherwise every page is padded by the margins and non-empty |
| PdfRenderer.NoPageBreakExported | src/pdf/pdfRenderer.ts:32 | no page contains a page-break element |
| PdfRenderer.GroupMember | src/pdf/pdfRenderer.ts:56-58 | an element of a page is one of the laid-out elements |
| PdfRenderer.CleanMembers | src/pdf/pdfRenderer.ts:32 | elements drawn from cleaned content are clean |
| PdfRenderer.PdfRoundTrip | src/pdf/pdfRenderer.ts:56-79 | concatenating the pages' contents gives the laid-out children: each lands on exactly one page, in order |
| PdfRenderer.PdfPageBoundaries | src/pdf/pdfRenderer.ts:65-79 | page k holds exactly the laid-out elements between boundaries k and k + 1 of the rule, so the export cuts where the live engine and the preview cut |
| PdfRenderer.PdfAgreesWithPreview | src/pdf/pdfRenderer.ts:71-76 | for the same heights the PDF has as many pages as the preview |
| PdfRenderer.WidgetBetweenParagraphs | src/pdf/pdfRenderer.ts:32 | a page-break widget between two paragraphs is removed and the paragraphs stay |
| Debounce.InitValid | src/utils/debounce.ts:5 | the fresh debouncer has an empty slot and no pending timer |
| Debounce.StepsKeepValid | src/utils/debounce.ts:7-20 | calling, cancelling and firing keep the slot naming the only pending timer |
| Debounce.AtMostOnePending | src/utils/debounce.ts:8-12 | at most one timer is pending, and one is exactly when the slot is set |
| Debounce.CallSupersedes | src/utils/debounce.ts:7-12 | a call clears the waiting timer and schedules a new one with its arguments; the function does not run |
| Debounce.BurstCollapses | src/utils/debounce.ts:7-12 | a burst of calls leaves one timer with the last call's arguments; when it fires the function runs once with them and nothing is left |
| Debounce.CancelLeavesNothingPending | src/utils/debounce.ts:15-20 | after `cancel` no timer is pending and the function has not run |
| Debounce.CancelIdempotent | src/utils/debounce.ts:16 | `cancel` on an empty slot does nothing, so cancelling twice is cancelling once |
| Debounce.CallFromCallbackIsTracked | src/utils/debounce.ts:10-11 | the slot is emptied before the function runs, so a call it makes is tracked and cancellable |
| Debounce.Debouncer.constructor | src/utils/debounce.ts:5 | a new debouncer is in the initial state |
| Debounce.Debouncer.Call | src/utils/debounce.ts:7-13 | the debounced call takes the call step |
| Debounce.Debouncer.Cancel | src/utils/debounce.ts:15-20 | `cancel` takes the cancel step |
| Debounce.Debouncer.Fire | src/utils/debounce.ts:9-12 | a pending timer firing takes the fire step |
| ClassNames.Truthies | src/utils/classNames.ts:4 | the kept strings are no more than the arguments, none is empty, and none is kept exactly when no argument is truthy |
| ClassNames.TruthiesFromArgs | src/utils/classNames.ts:4 | every kept string is one of the string arguments |
| ClassNames.JoinEmpty | src/utils/classNames.ts:4 | joining non-empty parts is empty exactly when there are no parts |
| ClassNames.EmptyIffNoTruthy | src/utils/classNames.ts:4 | the result is `""` exactly when no argument is truthy |
| ClassNames.SingleTruthy | src/utils/classNames.ts:4 | with exactly one truthy argument the result is that string unchanged |
| ClassNames.TruthiesAppend | src/utils/classNames.ts:4 | filtering distributes over concatenating argument lists, keeping the order |
| ClassNames.FalsyDropped | src/utils/classNames.ts:4 | `false`, `null`, `undefined` and `""` anywhere among the arguments change nothing |
| ClassNames.SplitSpace | src/utils/classNames.ts:4 | splitting at spaces always gives at least one part |
| ClassNames.SplitStep | src/utils/classNames.ts:4 | one more character either starts a new part (a space) or extends the last |
| ClassNames.SplitAppendWord | src/utils/classNames.ts:4 | appending a word without spaces extends the last part by it |
| ClassNames.SplitJoin | src/utils/classNames.ts:4 | splitting a space-join of space-free parts gives back the parts |
| ClassNames.ClassNamesRoundTrip | src/utils/classNames.ts:4 | splitting the result at spaces gives back the truthy arguments in order, when none holds a space |
| ClassNames.Example | src/utils/classNames.ts:4 | `"btn"`, false, `""`, null, `"active"`, undefined give `"btn active"` |

## Left out

- DOM measurement (`getNodeHeight`, `getBoundingClientRect` and `getComputedStyle` margins): block heights are given, as whole pixels; float heights and `parseFloat(...) || 0` are not modelled.
- Negative heights: heights are `nat`, but a negative CSS margin can make a measured height, and then the running height, zero or negative. The model does not cover that case, and `PageFlow.PagesFit` and `PageFlow.LeadingZeroBlocksNeverBreak` rely on heights being non-negative.
- The preview's default format (`pageFormat = 'a4'` when none is passed): `PreviewPagination.FlowPreview` always takes the format as an argument.
- Pagination.MapDecorations: ProseMirror's position mapping is a parameter `nat -> Option<nat>`. Remapped positions of kept widgets are not stated; neither is anything about `DecorationSet` beyond an ordered list of widgets.
- Widget rendering (`createPageBreakElement`, widget `side`): only the position, page number and key of a widget are modelled.
- The DOM walk in `updatePaperHeight` that finds `.rte-paper` and writes its style: only the height it computes is modelled.
- The plugin's view wiring: the `ResizeObserver`, the initial 50 ms `setTimeout`, `update()` calling the debounced recalculation and `destroy()` cancelling it. The debouncer is modelled on its own, without time. The delay `ms` only decides when a timer fires, and firing is an explicit event.
- `props.decorations`, which only reads the plugin state.
- HTML parsing (`innerHTML`) and serialisation: preview children are given as elements with their `outerHTML` and text nodes; PDF content is given as a node tree. Cloning is modelled as copying values, so node identity is not modelled.
- The styles of the off-screen containers and of the produced pages other than width, height and padding (fonts, colours, box sizing, overflow).
- The React state and effect around the preview flow: the initial one-page state and the re-run on change of content or format.
- PDF file assembly (html2canvas, jsPDF) and native printing are not part of this model.
