/**
 * The preview splitter (src/preview/usePreviewPagination.ts): takes the editor's HTML,
 * measures its top-level elements off screen and cuts the HTML into page-sized chunks
 * with the same greedy rule as the live engine.
 *
 * Parsing the HTML into top-level nodes and measuring each element are the browser's
 * work; the model receives their outcome, the parsed nodes with their measured heights
 * (bounding box plus vertical margins).
 */
module PreviewPagination {
  import opened Seqs
  import opened PageFormats
  import opened PageFlow
  import Pagination

  /** An element's serialisation always holds at least its tags. */
  type Html = s: string | s != [] witness "<p></p>"

  /** A top-level node of the parsed content: an element with its measured height, or loose text. */
  datatype TopNode = Element(outerHTML: Html, height: nat) | Text(data: string)

  datatype PageContent = PageContent(html: string)

  /** The element children of the container, in order; text between them is not a child element. */
  function Children(nodes: seq<TopNode>): (cs: seq<TopNode>)
    ensures forall i :: 0 <= i < |cs| ==> cs[i].Element? && cs[i] in nodes
    ensures (forall i :: 0 <= i < |nodes| ==> nodes[i].Text?) <==> cs == []
    ensures |cs| <= |nodes|
  {
    if nodes == [] then []
    else
      var rest := Children(nodes[..|nodes| - 1]);
      var last := nodes[|nodes| - 1];
      assert forall i :: 0 <= i < |rest| ==> rest[i] in nodes[..|nodes| - 1];
      if last.Element? then rest + [last] else rest
  }

  /** The children of two runs of nodes are those of the first run, then those of the second. */
  lemma {:induction false} ChildrenAppend(a: seq<TopNode>, b: seq<TopNode>)
    ensures Children(a + b) == Children(a) + Children(b)
    decreases |b|
  {
    if b == [] {
      assert a + b == a;
    } else {
      var n := |b| - 1;
      ChildrenAppend(a, b[..n]);
      DropLast(a, b);
    }
  }

  /** A single node is a child exactly when it is an element; text is dropped. */
  lemma ChildrenOne(n: TopNode)
    ensures Children([n]) == if n.Element? then [n] else []
  {
    assert [n][..0] == [];
  }

  function Outers(cs: seq<TopNode>): (os: seq<string>)
    requires forall i :: 0 <= i < |cs| ==> cs[i].Element?
    ensures |os| == |cs|
    ensures forall i :: 0 <= i < |cs| ==> os[i] == cs[i].outerHTML && os[i] != []
  {
    seq(|cs|, i requires 0 <= i < |cs| => cs[i].outerHTML)
  }

  function ElementHeights(cs: seq<TopNode>): (hs: seq<nat>)
    requires forall i :: 0 <= i < |cs| ==> cs[i].Element?
    ensures |hs| == |cs|
    ensures forall i :: 0 <= i < |cs| ==> hs[i] == cs[i].height
  {
    seq(|cs|, i requires 0 <= i < |cs| => cs[i].height)
  }

  /** One page per group of fragments, holding their concatenation. */
  function PagesOf(gs: seq<seq<string>>): (ps: seq<PageContent>)
    ensures |ps| == |gs|
    ensures forall k :: 0 <= k < |gs| ==> ps[k].html == Flatten(gs[k])
  {
    seq(|gs|, k requires 0 <= k < |gs| => PageContent(Flatten(gs[k])))
  }

  /** The element serialisations grouped into pages by the greedy rule. */
  function ChildGroups(nodes: seq<TopNode>, usable: int): seq<seq<string>>
  {
    var cs := Children(nodes);
    Group(Outers(cs), ElementHeights(cs), usable)
  }

  /**
   * The pages of the preview: the grouped children, or the whole content as one page
   * when the container has no element children.
   */
  function PreviewPages(content: string, usable: int, nodes: seq<TopNode>): seq<PageContent>
  {
    if Children(nodes) == [] then [PageContent(content)] else PagesOf(ChildGroups(nodes, usable))
  }

  function Htmls(ps: seq<PageContent>): seq<string>
  {
    seq(|ps|, k requires 0 <= k < |ps| => ps[k].html)
  }

  lemma FlattenNonEmpty(gs: seq<string>)
    requires gs != [] && gs[|gs| - 1] != []
    ensures Flatten(gs) != []
  {
  }

  /** Pages of a prefix of groups followed by one more group. */
  lemma PagesOfAppend(gs: seq<seq<string>>, g: seq<string>)
    ensures PagesOf(gs + [g]) == PagesOf(gs) + [PageContent(Flatten(g))]
  {
  }

  /** One child of the loop: either the filled page is pushed and a new one started, or the child is appended. */
  lemma PreviewStep(outers: seq<string>, heights: seq<nat>, usable: int, i: nat)
    requires |outers| == |heights| && i < |outers|
    ensures var done := PagesOf(Closed(outers, heights, usable, i));
      var current := Flatten(Open(outers, heights, usable, i));
      if Overflows(Paginate(heights[..i], usable).running, heights[i], usable) then
        PagesOf(Closed(outers, heights, usable, i + 1)) == done + [PageContent(current)]
        && Flatten(Open(outers, heights, usable, i + 1)) == outers[i]
      else
        PagesOf(Closed(outers, heights, usable, i + 1)) == done
        && Flatten(Open(outers, heights, usable, i + 1)) == current + outers[i]
  {
    ClosedOpenStep(outers, heights, usable, i);
    var open := Open(outers, heights, usable, i);
    FlattenAppendOne(open, outers[i]);
    FlattenSingleton(outers[i]);
    PagesOfAppend(Closed(outers, heights, usable, i), open);
  }

  /** After the last child the page being filled is pushed when it holds anything; it does exactly when there were children. */
  lemma PreviewFinish(outers: seq<string>, heights: seq<nat>, usable: int)
    requires |outers| == |heights|
    requires forall i :: 0 <= i < |outers| ==> outers[i] != []
    ensures var n := |outers|;
      var done := PagesOf(Closed(outers, heights, usable, n));
      var current := Flatten(Open(outers, heights, usable, n));
      if outers == [] then done == [] && current == []
      else current != [] && done + [PageContent(current)] == PagesOf(Group(outers, heights, usable))
  {
    var n := |outers|;
    if n > 0 {
      ClosedOpenFinish(outers, heights, usable);
      var open := Open(outers, heights, usable, n);
      assert open[|open| - 1] in Flatten(Group(outers, heights, usable)) by {
        FlattenGroup(outers, heights, usable);
        assert Group(outers, heights, usable) == Closed(outers, heights, usable, n) + [open];
        FlattenAppendOne(Closed(outers, heights, usable, n), open);
      }
      FlattenGroup(outers, heights, usable);
      FlattenNonEmpty(open);
      PagesOfAppend(Closed(outers, heights, usable, n), open);
    }
  }

  method FlowPreview(content: string, format: PageFormat, nodes: seq<TopNode>)
    returns (pages: seq<PageContent>)
    ensures pages == PreviewPages(content, UsableHeight(Dimensions(format)), nodes)
  {
    var dims := Dimensions(format);
    var usableHeight := UsableHeight(dims);
    var children := Children(nodes);
    ghost var outers := Outers(children);
    ghost var heights := ElementHeights(children);
    var resultPages: seq<PageContent> := [];
    var currentPageHtml: string := "";
    var currentHeight: nat := 0;
    for i := 0 to |children|
      invariant currentHeight == Paginate(heights[..i], usableHeight).running
      invariant resultPages == PagesOf(Closed(outers, heights, usableHeight, i))
      invariant currentPageHtml == Flatten(Open(outers, heights, usableHeight, i))
    {
      var child := children[i];
      var height := child.height;
      PaginateStep(heights, i, usableHeight);
      PreviewStep(outers, heights, usableHeight, i);
      if currentHeight > 0 && currentHeight + height > usableHeight {
        resultPages := resultPages + [PageContent(currentPageHtml)];
        currentPageHtml := child.outerHTML;
        currentHeight := height;
      } else {
        currentPageHtml := currentPageHtml + child.outerHTML;
        currentHeight := currentHeight + height;
      }
    }
    PreviewFinish(outers, heights, usableHeight);
    if currentPageHtml != "" {
      resultPages := resultPages + [PageContent(currentPageHtml)];
    }
    if |resultPages| == 0 {
      resultPages := resultPages + [PageContent(content)];
    }
    pages := resultPages;
  }

  // ---------------------------------------------------------------------------
  // Properties of the preview.

  /** The preview always has a page. */
  lemma PreviewHasAPage(content: string, usable: int, nodes: seq<TopNode>)
    ensures |PreviewPages(content, usable, nodes)| >= 1
  {
  }

  /** Content with no element at top level is shown whole, as a single page. */
  lemma PreviewFallback(content: string, usable: int, nodes: seq<TopNode>)
    requires forall i :: 0 <= i < |nodes| ==> nodes[i].Text?
    ensures PreviewPages(content, usable, nodes) == [PageContent(content)]
  {
  }

  /** Grouped pages of non-empty fragments are non-empty. */
  lemma GroupedPagesNonEmpty(outers: seq<string>, heights: seq<nat>, usable: int)
    requires |outers| == |heights| && outers != []
    requires forall i :: 0 <= i < |outers| ==> outers[i] != []
    ensures forall k :: 0 <= k < |Group(outers, heights, usable)| ==>
      PagesOf(Group(outers, heights, usable))[k].html != []
  {
    var g := Group(outers, heights, usable);
    var b := Bounds(heights, usable);
    GroupSlices(outers, heights, usable);
    forall k | 0 <= k < |g|
      ensures Flatten(g[k]) != []
    {
      var page := g[k];
      assert SliceAt(g, outers, b, k);
      assert page[|page| - 1] == outers[b[k + 1] - 1];
      FlattenNonEmpty(page);
    }
  }

  /** With element children, there is one page per break plus one, and no page is empty. */
  lemma PreviewPageCount(content: string, usable: int, nodes: seq<TopNode>)
    requires Children(nodes) != []
    ensures var cs := Children(nodes);
      |PreviewPages(content, usable, nodes)| == |Paginate(ElementHeights(cs), usable).breaks| + 1
    ensures forall k :: 0 <= k < |PreviewPages(content, usable, nodes)| ==>
      PreviewPages(content, usable, nodes)[k].html != []
  {
    var cs := Children(nodes);
    GroupedPagesNonEmpty(Outers(cs), ElementHeights(cs), usable);
  }

  /**
   * Nothing is lost or reordered: the pages' HTML, read in order, is the element
   * children's serialisations, in order.
   */
  lemma PreviewRoundTrip(content: string, usable: int, nodes: seq<TopNode>)
    requires Children(nodes) != []
    ensures Flatten(Htmls(PreviewPages(content, usable, nodes))) == Flatten(Outers(Children(nodes)))
  {
    var cs := Children(nodes);
    var g := ChildGroups(nodes, usable);
    FlattenGroup(Outers(cs), ElementHeights(cs), usable);
    HtmlsOfPages(g);
    FlattenFlatten(g);
  }

  lemma HtmlsOfPages(gs: seq<seq<string>>)
    ensures Htmls(PagesOf(gs)) == seq(|gs|, k requires 0 <= k < |gs| => Flatten(gs[k]))
  {
  }

  /** Page k holds the concatenation of the fragments between boundaries k and k + 1. */
  ghost predicate PagesSliced(ps: seq<PageContent>, outers: seq<string>, b: seq<nat>)
  {
    |ps| + 1 == |b| && forall k: nat :: k < |ps| ==> PageSliceAt(ps, outers, b, k)
  }

  ghost predicate PageSliceAt(ps: seq<PageContent>, outers: seq<string>, b: seq<nat>, k: nat)
  {
    k < |ps| && k + 1 < |b| && b[k] < b[k + 1] <= |outers| && ps[k].html == Flatten(outers[b[k]..b[k + 1]])
  }

  lemma GroupedPagesSliced(outers: seq<string>, heights: seq<nat>, usable: int)
    requires |outers| == |heights| && outers != []
    ensures PagesSliced(PagesOf(Group(outers, heights, usable)), outers, Bounds(heights, usable))
  {
    GroupSlices(outers, heights, usable);
    PagesOfSliced(Group(outers, heights, usable), outers, Bounds(heights, usable));
  }

  lemma PagesOfSliced(g: seq<seq<string>>, outers: seq<string>, b: seq<nat>)
    requires Sliced(g, outers, b)
    ensures PagesSliced(PagesOf(g), outers, b)
  {
    var ps := PagesOf(g);
    assert |ps| == |g|;
    forall k: nat | k < |ps|
      ensures PageSliceAt(ps, outers, b, k)
    {
      assert SliceAt(g, outers, b, k);
      assert g[k] == outers[b[k]..b[k + 1]];
      assert ps[k].html == Flatten(g[k]);
    }
  }

  /** Page k holds exactly the children between the k-th and the (k+1)-th page boundary. */
  lemma PreviewPageBoundaries(content: string, usable: int, nodes: seq<TopNode>)
    requires Children(nodes) != []
    ensures var cs := Children(nodes);
      PagesSliced(PreviewPages(content, usable, nodes), Outers(cs), Bounds(ElementHeights(cs), usable))
  {
    var cs := Children(nodes);
    GroupedPagesSliced(Outers(cs), ElementHeights(cs), usable);
  }

  /**
   * The preview cuts where the live engine does: for the same measured heights it has
   * as many pages as the engine counts.
   */
  lemma PreviewAgreesWithEngine(content: string, usable: int, nodes: seq<TopNode>, blocks: seq<Pagination.Block>)
    requires Children(nodes) != []
    requires Pagination.Heights(blocks) == ElementHeights(Children(nodes))
    ensures |PreviewPages(content, usable, nodes)| == |Pagination.Decorations(blocks, usable)| + 1
  {
    PreviewPageCount(content, usable, nodes);
  }

  /** Empty editor content gives one empty page. */
  lemma EmptyContentPreview(usable: int)
    ensures PreviewPages("", usable, []) == [PageContent("")]
  {
  }
}
