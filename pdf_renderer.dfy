/**
 * Off-screen page assembly for PDF export (src/pdf/pdfRenderer.ts): parse the editor's
 * HTML, strip the live engine's page-break widgets, measure the remaining top-level
 * elements and pack them into fixed-size page elements with the same greedy rule.
 *
 * Parsing and measuring are the browser's work: the model receives the parsed nodes
 * and a measuring function standing for the layout engine.
 */
module PdfRenderer {
  import opened Wrappers
  import opened Seqs
  import opened PageFormats
  import opened PageFlow
  import PreviewPagination

  /** The class every page-break widget carries. */
  const PAGE_BREAK_CLASS: string := "rte-page-break"

  /** A parsed HTML node: an element with its tag, class list and children, or text. */
  datatype Node = Element(tag: string, classes: seq<string>, children: seq<Node>) | Text(data: string)

  /** No element at any depth carries the page-break class. */
  predicate Clean(nodes: seq<Node>)
  {
    forall i :: 0 <= i < |nodes| ==>
      match nodes[i]
      case Text(_) => true
      case Element(_, classes, children) => PAGE_BREAK_CLASS !in classes && Clean(children)
  }

  /**
   * Removes every element carrying the page-break class, with everything inside it,
   * at any depth; all other nodes keep their place.
   */
  function RemovePageBreaks(nodes: seq<Node>): (r: seq<Node>)
    ensures Clean(r)
    ensures |r| <= |nodes|
  {
    if nodes == [] then []
    else
      var rest := RemovePageBreaks(nodes[1..]);
      match nodes[0]
      case Text(_) => [nodes[0]] + rest
      case Element(tag, classes, children) =>
        if PAGE_BREAK_CLASS in classes then rest
        else [Element(tag, classes, RemovePageBreaks(children))] + rest
  }

  /** Content without page breaks passes through unchanged. */
  lemma {:induction false} CleanUnchanged(nodes: seq<Node>)
    requires Clean(nodes)
    ensures RemovePageBreaks(nodes) == nodes
  {
    if nodes != [] {
      CleanUnchanged(nodes[1..]);
      match nodes[0]
      case Text(_) =>
      case Element(tag, classes, children) =>
        CleanUnchanged(children);
    }
    assert nodes != [] ==> nodes == [nodes[0]] + nodes[1..];
  }

  /** Removal works node by node: a run of nodes is cleaned as its two parts are. */
  lemma {:induction false} RemovePageBreaksAppend(a: seq<Node>, b: seq<Node>)
    ensures RemovePageBreaks(a + b) == RemovePageBreaks(a) + RemovePageBreaks(b)
    decreases |a|
  {
    if a == [] {
      assert a + b == b;
    } else {
      RemovePageBreaksAppend(a[1..], b);
      assert a + b == [a[0]] + (a[1..] + b);
      RemovePageBreaksCons(a[0], a[1..] + b);
      RemovePageBreaksCons(a[0], a[1..]);
      assert [a[0]] + a[1..] == a;
    }
  }

  lemma RemovePageBreaksCons(n: Node, rest: seq<Node>)
    ensures RemovePageBreaks([n] + rest) == RemovePageBreaks([n]) + RemovePageBreaks(rest)
  {
    assert ([n] + rest)[1..] == rest;
    assert [n][1..] == [];
  }

  /**
   * A single node: text is kept, a page-break element is dropped with its content, and
   * any other element is kept with its own children cleaned.
   */
  lemma RemovePageBreaksOne(n: Node)
    ensures RemovePageBreaks([n]) ==
      match n
      case Text(_) => [n]
      case Element(tag, classes, children) =>
        if PAGE_BREAK_CLASS in classes then [] else [Element(tag, classes, RemovePageBreaks(children))]
  {
    assert [n][1..] == [];
  }

  /** Removing page breaks twice is removing them once. */
  lemma RemovePageBreaksIdempotent(nodes: seq<Node>)
    ensures RemovePageBreaks(RemovePageBreaks(nodes)) == RemovePageBreaks(nodes)
  {
    CleanUnchanged(RemovePageBreaks(nodes));
  }

  /** The top-level elements of the container, in order. */
  function ElementChildren(nodes: seq<Node>): (cs: seq<Node>)
    ensures forall i :: 0 <= i < |cs| ==> cs[i].Element? && cs[i] in nodes
    ensures (forall i :: 0 <= i < |nodes| ==> nodes[i].Text?) <==> cs == []
  {
    if nodes == [] then []
    else
      var rest := ElementChildren(nodes[..|nodes| - 1]);
      var last := nodes[|nodes| - 1];
      assert forall i :: 0 <= i < |rest| ==> rest[i] in nodes[..|nodes| - 1];
      if last.Element? then rest + [last] else rest
  }

  /** The elements of two runs of nodes are those of the first run, then those of the second. */
  lemma {:induction false} ElementChildrenAppend(a: seq<Node>, b: seq<Node>)
    ensures ElementChildren(a + b) == ElementChildren(a) + ElementChildren(b)
    decreases |b|
  {
    if b == [] {
      assert a + b == a;
    } else {
      var n := |b| - 1;
      ElementChildrenAppend(a, b[..n]);
      DropLast(a, b);
    }
  }

  /** A single node is laid out exactly when it is an element. */
  lemma ElementChildrenOne(n: Node)
    ensures ElementChildren([n]) == if n.Element? then [n] else []
  {
    assert [n][..0] == [];
  }

  function Measures(cs: seq<Node>, measure: Node -> nat): (hs: seq<nat>)
    ensures |hs| == |cs|
    ensures forall i :: 0 <= i < |cs| ==> hs[i] == measure(cs[i])
  {
    seq(|cs|, i requires 0 <= i < |cs| => measure(cs[i]))
  }

  /**
   * A page element: its fixed size, its padding (the page margins, absent on the blank
   * page) and clones of the elements it holds.
   */
  datatype RenderedPage = RenderedPage(width: nat, height: nat, padding: Option<Margin>, content: seq<Node>)

  function ContentPage(dims: PageDimensions, elements: seq<Node>): RenderedPage
  {
    RenderedPage(dims.width, dims.height, Some(dims.margin), elements)
  }

  function BlankPage(dims: PageDimensions): RenderedPage
  {
    RenderedPage(dims.width, dims.height, None, [])
  }

  function ContentPages(dims: PageDimensions, gs: seq<seq<Node>>): (ps: seq<RenderedPage>)
    ensures |ps| == |gs|
    ensures forall k :: 0 <= k < |gs| ==> ps[k] == ContentPage(dims, gs[k])
  {
    seq(|gs|, k requires 0 <= k < |gs| => ContentPage(dims, gs[k]))
  }

  /** The elements that are laid out: the top-level elements left once page breaks are gone. */
  function LaidOut(nodes: seq<Node>): seq<Node>
  {
    ElementChildren(RemovePageBreaks(nodes))
  }

  /** The pages of the export: the grouped elements, or one blank page when there are none. */
  function PdfPages(nodes: seq<Node>, dims: PageDimensions, measure: Node -> nat): seq<RenderedPage>
  {
    var cs := LaidOut(nodes);
    if cs == [] then [BlankPage(dims)]
    else ContentPages(dims, Group(cs, Measures(cs, measure), UsableHeight(dims)))
  }

  /** The state `flushPage` works on: the pages so far and the page being filled. */
  class PageAssembler {
    const dims: PageDimensions
    var pages: seq<RenderedPage>
    var currentPageElements: seq<Node>
    var currentHeight: nat

    /** Height is only ever added with an element: an empty page being filled has no height. */
    predicate Valid()
      reads this
    {
      currentPageElements == [] ==> currentHeight == 0
    }

    constructor (dims: PageDimensions)
      ensures Valid()
      ensures this.dims == dims
      ensures pages == [] && currentPageElements == [] && currentHeight == 0
    {
      this.dims := dims;
      pages := [];
      currentPageElements := [];
      currentHeight := 0;
    }

    /** Closes the page being filled, if it holds anything, into a page element. */
    method FlushPage()
      requires Valid()
      modifies this
      ensures Valid()
      ensures old(currentPageElements) == [] ==>
        pages == old(pages) && currentPageElements == [] && currentHeight == old(currentHeight)
      ensures old(currentPageElements) != [] ==>
        pages == old(pages) + [ContentPage(dims, old(currentPageElements))]
        && currentPageElements == [] && currentHeight == 0
    {
      if |currentPageElements| == 0 {
        return;
      }
      var pageEl := RenderedPage(dims.width, dims.height, Some(dims.margin), currentPageElements);
      pages := pages + [pageEl];
      currentPageElements := [];
      currentHeight := 0;
    }

    /** One element of the loop: a flush when it would overflow the page being filled, then onto that page. */
    method Place(child: Node, height: nat, usableHeight: int)
      requires Valid()
      modifies this
      ensures Valid()
      ensures Overflows(old(currentHeight), height, usableHeight) ==>
        pages == old(pages) + [ContentPage(dims, old(currentPageElements))]
        && currentPageElements == [child] && currentHeight == height
      ensures !Overflows(old(currentHeight), height, usableHeight) ==>
        pages == old(pages)
        && currentPageElements == old(currentPageElements) + [child] && currentHeight == old(currentHeight) + height
    {
      if currentHeight > 0 && currentHeight + height > usableHeight {
        FlushPage();
      }
      currentPageElements := currentPageElements + [child];
      currentHeight := currentHeight + height;
    }
  }

  /** One element of the loop: on overflow the open page is flushed first; then the element joins the open page. */
  lemma AssemblyStep(dims: PageDimensions, children: seq<Node>, heights: seq<nat>, usable: int, i: nat)
    requires |children| == |heights| && i < |children|
    ensures var closed := ContentPages(dims, Closed(children, heights, usable, i));
      var open := Open(children, heights, usable, i);
      var running := Paginate(heights[..i], usable).running;
      if Overflows(running, heights[i], usable) then
        open != []
        && ContentPages(dims, Closed(children, heights, usable, i + 1)) == closed + [ContentPage(dims, open)]
        && Open(children, heights, usable, i + 1) == [children[i]]
        && Paginate(heights[..i + 1], usable).running == heights[i]
      else
        ContentPages(dims, Closed(children, heights, usable, i + 1)) == closed
        && Open(children, heights, usable, i + 1) == open + [children[i]]
        && Paginate(heights[..i + 1], usable).running == running + heights[i]
  {
    PaginateStep(heights, i, usable);
    ClosedOpenStep(children, heights, usable, i);
    var closed := Closed(children, heights, usable, i);
    var open := Open(children, heights, usable, i);
    assert ContentPages(dims, closed + [open]) == ContentPages(dims, closed) + [ContentPage(dims, open)];
  }

  /** After the last element, flushing the open page completes the pages, if there were elements. */
  lemma AssemblyFinish(dims: PageDimensions, children: seq<Node>, heights: seq<nat>, usable: int)
    requires |children| == |heights|
    ensures var n := |children|;
      var closed := ContentPages(dims, Closed(children, heights, usable, n));
      var open := Open(children, heights, usable, n);
      if children == [] then closed == [] && open == []
      else open != [] && closed + [ContentPage(dims, open)] == ContentPages(dims, Group(children, heights, usable))
  {
    var n := |children|;
    if n > 0 {
      ClosedOpenFinish(children, heights, usable);
      var closed := Closed(children, heights, usable, n);
      var open := Open(children, heights, usable, n);
      assert ContentPages(dims, closed + [open]) == ContentPages(dims, closed) + [ContentPage(dims, open)];
    }
  }

  method RenderPagesOffScreen(nodes: seq<Node>, dims: PageDimensions, measure: Node -> nat)
    returns (pages: seq<RenderedPage>)
    ensures pages == PdfPages(nodes, dims, measure)
  {
    var usableHeight := UsableHeight(dims);
    var children := LaidOut(nodes);
    ghost var heights := Measures(children, measure);
    var assembler := new PageAssembler(dims);
    for i := 0 to |children|
      invariant assembler.dims == dims && assembler.Valid()
      invariant assembler.currentHeight == Paginate(heights[..i], usableHeight).running
      invariant assembler.pages == ContentPages(dims, Closed(children, heights, usableHeight, i))
      invariant assembler.currentPageElements == Open(children, heights, usableHeight, i)
    {
      var child := children[i];
      var height := measure(child);
      AssemblyStep(dims, children, heights, usableHeight, i);
      assembler.Place(child, height, usableHeight);
    }
    AssemblyFinish(dims, children, heights, usableHeight);
    assembler.FlushPage();
    pages := assembler.pages;
    if |pages| == 0 {
      var blankPage := RenderedPage(dims.width, dims.height, None, []);
      pages := pages + [blankPage];
    }
  }

  // ---------------------------------------------------------------------------
  // Properties of the export.

  /**
   * There is always a page; every page has the format's size; content pages carry the
   * margins as padding and hold at least one element, and only a blank page is empty.
   */
  lemma PdfPageShape(nodes: seq<Node>, dims: PageDimensions, measure: Node -> nat)
    ensures var ps := PdfPages(nodes, dims, measure);
      |ps| >= 1 &&
      (forall k :: 0 <= k < |ps| ==> ps[k].width == dims.width && ps[k].height == dims.height) &&
      (LaidOut(nodes) == [] <==> ps == [BlankPage(dims)]) &&
      (LaidOut(nodes) != [] ==> forall k :: 0 <= k < |ps| ==> ps[k].padding == Some(dims.margin) && ps[k].content != [])
  {
    var ps := PdfPages(nodes, dims, measure);
    if LaidOut(nodes) != [] {
      assert ps[0].padding.Some?;
    }
  }

  /** Page k holds the laid-out elements between boundaries k and k + 1. */
  ghost predicate PageContentAt(ps: seq<RenderedPage>, cs: seq<Node>, b: seq<nat>, k: nat)
  {
    k < |ps| && k + 1 < |b| && b[k] < b[k + 1] <= |cs| && ps[k].content == cs[b[k]..b[k + 1]]
  }

  /**
   * The export cuts where the live engine and the preview do: page k holds exactly the
   * laid-out elements between the k-th and the (k+1)-th boundary of the rule.
   */
  lemma PdfPageBoundaries(nodes: seq<Node>, dims: PageDimensions, measure: Node -> nat)
    requires LaidOut(nodes) != []
    ensures var cs := LaidOut(nodes);
      var ps := PdfPages(nodes, dims, measure);
      var b := Bounds(Measures(cs, measure), UsableHeight(dims));
      |ps| + 1 == |b| && forall k: nat :: k < |ps| ==> PageContentAt(ps, cs, b, k)
  {
    var cs := LaidOut(nodes);
    var hs := Measures(cs, measure);
    var g := Group(cs, hs, UsableHeight(dims));
    var b := Bounds(hs, UsableHeight(dims));
    GroupSlices(cs, hs, UsableHeight(dims));
    var ps := PdfPages(nodes, dims, measure);
    assert ps == ContentPages(dims, g);
    forall k: nat | k < |ps|
      ensures PageContentAt(ps, cs, b, k)
    {
      assert SliceAt(g, cs, b, k);
    }
  }

  /** No exported page holds a page-break widget, at any depth. */
  lemma NoPageBreakExported(nodes: seq<Node>, dims: PageDimensions, measure: Node -> nat)
    ensures var ps := PdfPages(nodes, dims, measure);
      forall k :: 0 <= k < |ps| ==> Clean(ps[k].content)
  {
    var cs := LaidOut(nodes);
    var clean := RemovePageBreaks(nodes);
    if cs != [] {
      var g := Group(cs, Measures(cs, measure), UsableHeight(dims));
      FlattenGroup(cs, Measures(cs, measure), UsableHeight(dims));
      forall k | 0 <= k < |g|
        ensures Clean(g[k])
      {
        forall j | 0 <= j < |g[k]|
          ensures g[k][j] in clean
        {
          GroupMember(g, k, j);
        }
        CleanMembers(clean, g[k]);
      }
    }
  }

  /** An element of one group is an element of the flattened whole. */
  lemma GroupMember(g: seq<seq<Node>>, k: nat, j: nat)
    requires k < |g| && j < |g[k]|
    ensures g[k][j] in Flatten(g)
  {
    if k == |g| - 1 {
      FlattenAppendOne(g[..k], g[k]);
      assert g == g[..k] + [g[k]];
    } else {
      GroupMember(g[..|g| - 1], k, j);
      assert g == g[..|g| - 1] + [g[|g| - 1]];
      FlattenAppendOne(g[..|g| - 1], g[|g| - 1]);
    }
  }

  /** Nodes taken from clean content are clean. */
  lemma CleanMembers(clean: seq<Node>, ns: seq<Node>)
    requires Clean(clean)
    requires forall j :: 0 <= j < |ns| ==> ns[j] in clean
    ensures Clean(ns)
  {
    forall j | 0 <= j < |ns|
      ensures match ns[j]
        case Text(_) => true
        case Element(_, classes, children) => PAGE_BREAK_CLASS !in classes && Clean(children)
    {
      var i :| 0 <= i < |clean| && clean[i] == ns[j];
    }
  }

  /** Every laid-out element is exported once, in order, and nothing else is. */
  lemma PdfRoundTrip(nodes: seq<Node>, dims: PageDimensions, measure: Node -> nat)
    requires LaidOut(nodes) != []
    ensures var ps := PdfPages(nodes, dims, measure);
      Flatten(seq(|ps|, k requires 0 <= k < |ps| => ps[k].content)) == LaidOut(nodes)
  {
    var cs := LaidOut(nodes);
    var g := Group(cs, Measures(cs, measure), UsableHeight(dims));
    var ps := PdfPages(nodes, dims, measure);
    assert seq(|ps|, k requires 0 <= k < |ps| => ps[k].content) == g;
    FlattenGroup(cs, Measures(cs, measure), UsableHeight(dims));
  }

  /**
   * The export and the preview cut pages alike: when the measured heights agree, they
   * have the same number of pages (one each when there is nothing to lay out).
   */
  lemma PdfAgreesWithPreview(
    nodes: seq<Node>, dims: PageDimensions, measure: Node -> nat,
    content: string, previewNodes: seq<PreviewPagination.TopNode>)
    requires PreviewPagination.ElementHeights(PreviewPagination.Children(previewNodes))
      == Measures(LaidOut(nodes), measure)
    ensures |PdfPages(nodes, dims, measure)| == |PreviewPagination.PreviewPages(content, UsableHeight(dims), previewNodes)|
  {
    var cs := LaidOut(nodes);
    if cs != [] {
      PreviewPagination.PreviewPageCount(content, UsableHeight(dims), previewNodes);
    }
  }

  /** A widget between two paragraphs is dropped and the paragraphs are kept. */
  lemma WidgetBetweenParagraphs()
    ensures var p1 := Element("p", [], [Text("a")]);
      var p2 := Element("p", [], [Text("b")]);
      var w := Element("div", ["rte-page-break"], [Text("Page 1")]);
      RemovePageBreaks([p1, w, p2]) == [p1, p2]
  {
    var p1 := Element("p", [], [Text("a")]);
    var p2 := Element("p", [], [Text("b")]);
    var w := Element("div", ["rte-page-break"], [Text("Page 1")]);
    var doc := [p1, w, p2];
    CleanUnchanged([Text("a")]);
    CleanUnchanged([p2]);
    assert doc[1..] == [w, p2] && doc[1..][1..] == [p2];
    assert PAGE_BREAK_CLASS in w.classes;
    assert RemovePageBreaks(doc[1..]) == [p2];
  }
}
