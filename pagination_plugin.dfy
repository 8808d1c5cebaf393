/**
 * The live pagination engine (src/extensions/pagination/PaginationPlugin.ts): one
 * pass over the top-level blocks that places page-break widgets, the minimum height
 * of the paper that holds all pages, and the plugin state that carries the widgets
 * between passes.
 *
 * The document is the sequence of its top-level blocks. Each block has its size in
 * document positions (so that `doc.forEach` offsets can be computed) and the height
 * the measurement oracle reports for it, 0 when it is not rendered.
 */
module Pagination {
  import opened Wrappers
  import opened PageFormats
  import opened PageFlow
  import DocumentProtection

  datatype Block = Block(nodeSize: nat, height: nat)

  /** A page-break widget: the document position it sits before and the page number it shows. */
  datatype Decoration = PageBreak(pos: nat, pageNumber: nat)
  {
    /** The widget's key, by which the view tells widgets apart. */
    function Key(): string
    {
      "page-break-" + Decimal(pageNumber)
    }
  }

  // ---------------------------------------------------------------------------
  // Decimal rendering of page numbers, as in a JavaScript template literal.

  function Digit(d: nat): char
    requires d < 10
  {
    ('0' as int + d) as char
  }

  predicate IsDigits(s: string)
  {
    forall i :: 0 <= i < |s| ==> '0' <= s[i] <= '9'
  }

  function Decimal(n: nat): (s: string)
    ensures s != [] && IsDigits(s)
  {
    if n < 10 then [Digit(n)] else Decimal(n / 10) + [Digit(n % 10)]
  }

  /** Reads a string of decimal digits back as a number. */
  function DecimalValue(s: string): nat
    requires IsDigits(s)
  {
    if s == [] then 0 else DecimalValue(s[..|s| - 1]) * 10 + (s[|s| - 1] as int - '0' as int)
  }

  lemma {:induction false} DecimalRoundTrip(n: nat)
    ensures DecimalValue(Decimal(n)) == n
  {
    if n >= 10 {
      DecimalRoundTrip(n / 10);
      var s := Decimal(n);
      assert s[..|s| - 1] == Decimal(n / 10);
    }
  }

  /** Different page numbers give different widget keys. */
  lemma KeyInjective(a: Decoration, b: Decoration)
    requires a.Key() == b.Key()
    ensures a.pageNumber == b.pageNumber
  {
    var prefix := "page-break-";
    assert a.Key()[|prefix|..] == Decimal(a.pageNumber);
    assert b.Key()[|prefix|..] == Decimal(b.pageNumber);
    DecimalRoundTrip(a.pageNumber);
    DecimalRoundTrip(b.pageNumber);
  }

  // ---------------------------------------------------------------------------
  // One pagination pass.

  function Heights(blocks: seq<Block>): (hs: seq<nat>)
    ensures |hs| == |blocks|
    ensures forall i :: 0 <= i < |blocks| ==> hs[i] == blocks[i].height
  {
    seq(|blocks|, i requires 0 <= i < |blocks| => blocks[i].height)
  }

  /** The document position at which block i starts: the sizes of the blocks before it. */
  function Offset(blocks: seq<Block>, i: nat): nat
    requires i <= |blocks|
  {
    if i == 0 then 0 else Offset(blocks, i - 1) + blocks[i - 1].nodeSize
  }

  /** Widgets numbered 1, 2, ... in order, each before the block whose index it is given. */
  function Markers(blocks: seq<Block>, breaks: seq<nat>): seq<Decoration>
    requires forall k :: 0 <= k < |breaks| ==> breaks[k] <= |blocks|
  {
    seq(|breaks|, k requires 0 <= k < |breaks| => PageBreak(Offset(blocks, breaks[k]), k + 1))
  }

  /** The widgets a pass places on a document. */
  function Decorations(blocks: seq<Block>, usable: int): seq<Decoration>
  {
    Markers(blocks, Paginate(Heights(blocks), usable).breaks)
  }

  /** One block of the pass: on overflow a widget numbered one past the last is placed at the block's start. */
  lemma PassStep(blocks: seq<Block>, usable: int, i: nat)
    requires i < |blocks|
    ensures var heights := Heights(blocks);
      var prev := Paginate(heights[..i], usable);
      var next := Paginate(heights[..i + 1], usable);
      var ds := Markers(blocks, prev.breaks);
      Offset(blocks, i + 1) == Offset(blocks, i) + blocks[i].nodeSize &&
      if Overflows(prev.running, blocks[i].height, usable) then
        next.running == blocks[i].height
        && Markers(blocks, next.breaks) == ds + [PageBreak(Offset(blocks, i), |ds| + 1)]
      else
        next.running == prev.running + blocks[i].height
        && Markers(blocks, next.breaks) == ds
  {
    PaginateStep(Heights(blocks), i, usable);
  }

  method CalculatePageBreaks(blocks: seq<Block>, dims: PageDimensions)
    returns (decorations: seq<Decoration>, pageCount: nat)
    ensures decorations == Decorations(blocks, UsableHeight(dims))
    ensures pageCount == |decorations| + 1
    ensures forall k :: 0 <= k < |decorations| ==> decorations[k].pageNumber == k + 1
  {
    decorations := [];
    var usableHeight := UsableHeight(dims);
    var currentPageHeight: nat := 0;
    var pageNumber: nat := 1;
    var offset: nat := 0;
    ghost var heights := Heights(blocks);
    for i := 0 to |blocks|
      invariant offset == Offset(blocks, i)
      invariant currentPageHeight == Paginate(heights[..i], usableHeight).running
      invariant decorations == Markers(blocks, Paginate(heights[..i], usableHeight).breaks)
      invariant pageNumber == |decorations| + 1
    {
      var nodeHeight := blocks[i].height;
      PassStep(blocks, usableHeight, i);
      if currentPageHeight > 0 && currentPageHeight + nodeHeight > usableHeight {
        decorations := decorations + [PageBreak(offset, pageNumber)];
        pageNumber := pageNumber + 1;
        currentPageHeight := nodeHeight;
      } else {
        currentPageHeight := currentPageHeight + nodeHeight;
      }
      offset := offset + blocks[i].nodeSize;
    }
    assert heights[..|blocks|] == heights;
    pageCount := pageNumber;
  }

  lemma {:induction false} OffsetIncreasing(blocks: seq<Block>, i: nat, j: nat)
    requires forall b :: 0 <= b < |blocks| ==> blocks[b].nodeSize > 0
    requires i < j <= |blocks|
    ensures Offset(blocks, i) < Offset(blocks, j)
  {
    if i < j - 1 {
      OffsetIncreasing(blocks, i, j - 1);
    }
  }

  /**
   * A widget sits at the start of block i exactly when block i overflows the page
   * built before it (top-level blocks occupy at least one position each).
   */
  lemma MarkerIff(blocks: seq<Block>, usable: int, i: nat)
    requires forall b :: 0 <= b < |blocks| ==> blocks[b].nodeSize > 0
    requires i < |blocks|
    ensures var ds := Decorations(blocks, usable);
      (exists k :: 0 <= k < |ds| && ds[k].pos == Offset(blocks, i))
      <==> Overflows(Paginate(Heights(blocks)[..i], usable).running, blocks[i].height, usable)
  {
    var ds := Decorations(blocks, usable);
    var bs := Paginate(Heights(blocks), usable).breaks;
    BreakIff(Heights(blocks), usable, i);
    if i in bs {
      var k :| 0 <= k < |bs| && bs[k] == i;
      assert ds[k].pos == Offset(blocks, i);
    }
    if exists k :: 0 <= k < |ds| && ds[k].pos == Offset(blocks, i) {
      var k :| 0 <= k < |ds| && ds[k].pos == Offset(blocks, i);
      if bs[k] < i {
        OffsetIncreasing(blocks, bs[k], i);
      } else if bs[k] > i {
        OffsetIncreasing(blocks, i, bs[k]);
      }
      assert bs[k] == i;
    }
  }

  /** Widget keys are pairwise distinct: page-break-1, page-break-2, ... */
  lemma KeysDistinct(blocks: seq<Block>, usable: int)
    ensures var ds := Decorations(blocks, usable);
      forall j, k :: 0 <= j < k < |ds| ==> ds[j].Key() != ds[k].Key()
  {
    var ds := Decorations(blocks, usable);
    forall j, k | 0 <= j < k < |ds|
      ensures ds[j].Key() != ds[k].Key()
    {
      if ds[j].Key() == ds[k].Key() {
        KeyInjective(ds[j], ds[k]);
      }
    }
  }

  // ---------------------------------------------------------------------------
  // Paper height.

  /** Height of one page-break widget: bottom margin, gap, top margin (pageBreakDecoration.ts). */
  function BreakHeight(dims: PageDimensions): nat
  {
    dims.margin.bottom + PAGE_GAP + dims.margin.top
  }

  /** The minimum height given to the paper element for a number of pages. */
  function PaperMinHeight(pageCount: nat, dims: PageDimensions): int
  {
    pageCount * dims.height + (pageCount - 1) * BreakHeight(dims)
  }

  /** Pages laid one under the other with a break widget between each two. */
  function StackedHeight(pageCount: nat, dims: PageDimensions): int
    requires pageCount >= 1
  {
    if pageCount == 1 then dims.height
    else StackedHeight(pageCount - 1, dims) + BreakHeight(dims) + dims.height
  }

  lemma {:induction false} PaperHoldsStackedPages(pageCount: nat, dims: PageDimensions)
    requires pageCount >= 1
    ensures PaperMinHeight(pageCount, dims) == StackedHeight(pageCount, dims)
    ensures pageCount == 1 ==> PaperMinHeight(pageCount, dims) == dims.height
  {
    if pageCount > 1 {
      PaperHoldsStackedPages(pageCount - 1, dims);
      var n := pageCount - 1;
      assert pageCount * dims.height == n * dims.height + dims.height;
      assert (pageCount - 1) * BreakHeight(dims) == (n - 1) * BreakHeight(dims) + BreakHeight(dims);
    }
  }

  // ---------------------------------------------------------------------------
  // Plugin state.

  datatype PaginationState = PaginationState(decorations: seq<Decoration>, pageCount: nat)

  /** How a transaction's steps move a document position; None when the position was deleted. */
  type Mapping = nat -> Option<nat>

  /**
   * The parts of an editor transaction the plugins look at: the pagination meta, whether
   * its steps change the document, their position mapping, the history flag, and the
   * number of top-level blocks of the resulting document.
   */
  datatype Transaction = Transaction(
    paginationMeta: Option<PaginationState>,
    docChanged: bool,
    mapping: Mapping,
    addToHistory: bool,
    childCount: nat)

  function Init(): PaginationState
  {
    PaginationState([], 1)
  }

  function PageNumbers(ds: seq<Decoration>): seq<nat>
  {
    seq(|ds|, k requires 0 <= k < |ds| => ds[k].pageNumber)
  }

  predicate Ascending(ds: seq<Decoration>)
  {
    forall j, k :: 0 <= j < k < |ds| ==> ds[j].pageNumber < ds[k].pageNumber
  }

  /**
   * Widgets carried through a document change: each moves with the mapping and is
   * dropped when its position was deleted. The mapping itself belongs to the editor
   * library and is a parameter here.
   */
  function MapDecorations(ds: seq<Decoration>, mapping: Mapping): (r: seq<Decoration>)
    ensures |r| <= |ds|
    ensures forall i :: 0 <= i < |r| ==> r[i].pageNumber in PageNumbers(ds)
    ensures Ascending(ds) ==> Ascending(r)
    ensures (forall i :: 0 <= i < |ds| ==> mapping(ds[i].pos).Some?) ==> PageNumbers(r) == PageNumbers(ds)
  {
    if ds == [] then []
    else
      var rest := MapDecorations(ds[1..], mapping);
      PageNumbersCons(ds[0], ds[1..]);
      assert ds == [ds[0]] + ds[1..];
      match mapping(ds[0].pos)
      case None => rest
      case Some(p) =>
        var moved := PageBreak(p, ds[0].pageNumber);
        PageNumbersCons(moved, rest);
        assert Ascending(ds) ==> Ascending([moved] + rest) by {
          if Ascending(ds) {
            AscendingCons(moved, rest, ds);
          }
        }
        [moved] + rest
  }

  lemma AscendingCons(d: Decoration, rest: seq<Decoration>, ds: seq<Decoration>)
    requires ds != [] && Ascending(ds) && d.pageNumber == ds[0].pageNumber
    requires Ascending(rest)
    requires forall i :: 0 <= i < |rest| ==> rest[i].pageNumber in PageNumbers(ds[1..])
    ensures Ascending([d] + rest)
  {
    var r := [d] + rest;
    forall j, k | 0 <= j < k < |r|
      ensures r[j].pageNumber < r[k].pageNumber
    {
      if j == 0 {
        var m :| 0 <= m < |ds[1..]| && PageNumbers(ds[1..])[m] == rest[k - 1].pageNumber;
        assert ds[1..][m] == ds[m + 1];
      } else {
        assert r[j] == rest[j - 1] && r[k] == rest[k - 1];
      }
    }
  }

  lemma PageNumbersCons(d: Decoration, ds: seq<Decoration>)
    ensures PageNumbers([d] + ds) == [d.pageNumber] + PageNumbers(ds)
  {
  }

  /**
   * The state transition: a pagination meta replaces the state, a document change
   * remaps the widgets and keeps the page count, anything else keeps the state.
   */
  function Apply(tr: Transaction, value: PaginationState): PaginationState
  {
    if tr.paginationMeta.Some? then tr.paginationMeta.value
    else if tr.docChanged then PaginationState(MapDecorations(value.decorations, tr.mapping), value.pageCount)
    else value
  }

  /** What a full pass produces: widgets numbered 1, 2, ... and one page more than widgets. */
  predicate Consistent(s: PaginationState)
  {
    s.pageCount == |s.decorations| + 1 &&
    forall k :: 0 <= k < |s.decorations| ==> s.decorations[k].pageNumber == k + 1
  }

  /** What survives edits between passes: at least one page, ascending numbers below the page count. */
  predicate WellFormed(s: PaginationState)
  {
    s.pageCount >= 1 &&
    Ascending(s.decorations) &&
    forall k :: 0 <= k < |s.decorations| ==> 1 <= s.decorations[k].pageNumber < s.pageCount
  }

  /** The initial state is what a pass over an empty document gives. */
  lemma InitIsEmptyPass(usable: int)
    ensures Init() == PaginationState(Decorations([], usable), |Decorations([], usable)| + 1)
    ensures Consistent(Init())
  {
  }

  lemma ConsistentIsWellFormed(s: PaginationState)
    requires Consistent(s)
    ensures WellFormed(s)
  {
  }

  /**
   * Every transition keeps the state well formed, given that pagination metas come
   * from passes; document changes keep the page count; other transactions change nothing.
   */
  lemma ApplyKeepsWellFormed(tr: Transaction, value: PaginationState)
    requires WellFormed(value)
    requires tr.paginationMeta.Some? ==> Consistent(tr.paginationMeta.value)
    ensures WellFormed(Apply(tr, value))
    ensures tr.paginationMeta.Some? ==> Apply(tr, value) == tr.paginationMeta.value
    ensures tr.paginationMeta.None? && tr.docChanged ==> Apply(tr, value).pageCount == value.pageCount
    ensures tr.paginationMeta.None? && !tr.docChanged ==> Apply(tr, value) == value
  {
    if tr.paginationMeta.None? && tr.docChanged {
      var r := MapDecorations(value.decorations, tr.mapping);
      forall k | 0 <= k < |r|
        ensures 1 <= r[k].pageNumber < value.pageCount
      {
        var ns := PageNumbers(value.decorations);
        var j :| 0 <= j < |ns| && ns[j] == r[k].pageNumber;
      }
    }
  }

  /**
   * Between passes the page count can disagree with the widgets: an edit that deletes
   * the position of the only widget drops it and keeps two pages.
   */
  lemma EditCanDropWidgetKeepingPageCount()
    ensures var s := PaginationState([PageBreak(5, 1)], 2);
      var tr := Transaction(None, true, (p: nat) => None, true, 1);
      Consistent(s) && Apply(tr, s) == PaginationState([], 2) && !Consistent(Apply(tr, s))
  {
  }

  // ---------------------------------------------------------------------------
  // Recalculation.

  /** What a recalculation does: the transaction it dispatches and the paper height it sets. */
  datatype Recalculation = Recalculation(tr: Transaction, paperMinHeight: int)

  /**
   * One recalculation: nothing when the editor is no longer in the page; otherwise a
   * pass, the paper height for its page count, and a transaction with no steps that
   * carries the new state as meta and is kept out of the undo history.
   */
  method Recalculate(connected: bool, blocks: seq<Block>, dims: PageDimensions)
    returns (r: Option<Recalculation>)
    ensures !connected <==> r.None?
    ensures r.Some? ==>
      var ds := Decorations(blocks, UsableHeight(dims));
      var tr := r.value.tr;
      && tr.paginationMeta == Some(PaginationState(ds, |ds| + 1))
      && Consistent(tr.paginationMeta.value)
      && !tr.docChanged
      && !tr.addToHistory
      && tr.childCount == |blocks|
      && r.value.paperMinHeight == PaperMinHeight(|ds| + 1, dims)
  {
    if !connected {
      return None;
    }
    var decorations, pageCount := CalculatePageBreaks(blocks, dims);
    var paperMinHeight := PaperMinHeight(pageCount, dims);
    var tr := Transaction(Some(PaginationState(decorations, pageCount)), false, (p: nat) => Some(p), false, |blocks|);
    r := Some(Recalculation(tr, paperMinHeight));
  }

  /**
   * A recalculation transaction passes the document-integrity filter and its state
   * replaces the plugin state wholesale.
   */
  lemma RecalculationIsCommitted(tr: Transaction, value: PaginationState)
    requires tr.paginationMeta.Some? && Consistent(tr.paginationMeta.value)
    requires !tr.docChanged
    ensures DocumentProtection.FilterTransaction(tr.docChanged, tr.childCount)
    ensures Apply(tr, value) == tr.paginationMeta.value
    ensures WellFormed(Apply(tr, value))
  {
  }
}
