/**
 * The greedy page-breaking rule that the live editor (PaginationPlugin.ts), the
 * preview (usePreviewPagination.ts) and the PDF export (pdfRenderer.ts) each apply
 * to a sequence of measured block heights.
 *
 * Blocks are taken in document order with a running height for the current page.
 * A block starts a new page exactly when the current page already holds some height
 * and adding the block would exceed the usable height; otherwise it joins the
 * current page. A block is never split.
 */
module PageFlow {
  import opened Seqs

  /** Total height of a run of blocks. */
  function Sum(hs: seq<nat>): nat
  {
    if hs == [] then 0 else Sum(hs[..|hs| - 1]) + hs[|hs| - 1]
  }

  predicate Increasing(s: seq<nat>)
  {
    forall i, j :: 0 <= i < j < |s| ==> s[i] < s[j]
  }

  /** The overflow rule: something is already on the page and the block does not fit beside it. */
  predicate Overflows(running: nat, height: nat, usable: int)
  {
    running > 0 && running + height > usable
  }

  /**
   * The outcome of one pass: the indices of the blocks that start a new page, and
   * the height accumulated on the last page.
   */
  datatype Layout = Layout(breaks: seq<nat>, running: nat)

  /** One pass of the rule over the block heights, in document order. */
  function Paginate(heights: seq<nat>, usable: int): (r: Layout)
    ensures Increasing(r.breaks)
    ensures forall k :: 0 <= k < |r.breaks| ==> 0 < r.breaks[k] < |heights|
    ensures r.running <= Sum(heights)
  {
    if heights == [] then Layout([], 0)
    else
      var n := |heights| - 1;
      var prev := Paginate(heights[..n], usable);
      if Overflows(prev.running, heights[n], usable)
      then Layout(prev.breaks + [n], heights[n])
      else Layout(prev.breaks, prev.running + heights[n])
  }

  /**
   * The same pass, grouping the blocks themselves (HTML strings, DOM elements, ...)
   * into pages; `heights[i]` is the measured height of `items[i]`.
   */
  function Group<T>(items: seq<T>, heights: seq<nat>, usable: int): (g: seq<seq<T>>)
    requires |items| == |heights|
    ensures items == [] ==> g == []
    ensures items != [] ==> |g| == |Paginate(heights, usable).breaks| + 1
    ensures forall k :: 0 <= k < |g| ==> g[k] != []
  {
    if items == [] then []
    else
      var n := |items| - 1;
      var prev := Group(items[..n], heights[..n], usable);
      if n == 0 || Overflows(Paginate(heights[..n], usable).running, heights[n], usable)
      then prev + [[items[n]]]
      else
        assert items[..n] != [];
        prev[..|prev| - 1] + [prev[|prev| - 1] + [items[n]]]
  }

  /** Page boundaries: the first block of every page, then the number of blocks. */
  function Bounds(heights: seq<nat>, usable: int): seq<nat>
  {
    [0] + Paginate(heights, usable).breaks + [|heights|]
  }

  // ---------------------------------------------------------------------------
  // Unfolding one more block: the step each of the three loops takes.

  lemma PaginateStep(heights: seq<nat>, i: nat, usable: int)
    requires i < |heights|
    ensures var prev := Paginate(heights[..i], usable);
      Paginate(heights[..i + 1], usable) ==
        if Overflows(prev.running, heights[i], usable)
        then Layout(prev.breaks + [i], heights[i])
        else Layout(prev.breaks, prev.running + heights[i])
  {
    assert heights[..i + 1][..i] == heights[..i];
  }

  lemma GroupStep<T>(items: seq<T>, heights: seq<nat>, i: nat, usable: int)
    requires |items| == |heights| && i < |items|
    ensures var prev := Group(items[..i], heights[..i], usable);
      Group(items[..i + 1], heights[..i + 1], usable) ==
        if i == 0 || Overflows(Paginate(heights[..i], usable).running, heights[i], usable)
        then prev + [[items[i]]]
        else prev[..|prev| - 1] + [prev[|prev| - 1] + [items[i]]]
  {
    assert items[..i + 1][..i] == items[..i];
    assert heights[..i + 1][..i] == heights[..i];
  }

  /** The pages a loop has closed after the first i blocks: all but the page being filled. */
  function Closed<T>(items: seq<T>, heights: seq<nat>, usable: int, i: nat): seq<seq<T>>
    requires |items| == |heights| && i <= |items|
  {
    if i == 0 then []
    else
      var g := Group(items[..i], heights[..i], usable);
      g[..|g| - 1]
  }

  /** The page being filled after the first i blocks; empty before the first block. */
  function Open<T>(items: seq<T>, heights: seq<nat>, usable: int, i: nat): seq<T>
    requires |items| == |heights| && i <= |items|
  {
    if i == 0 then []
    else
      var g := Group(items[..i], heights[..i], usable);
      g[|g| - 1]
  }

  /**
   * What each loop does with block i: on overflow it closes the page being filled and
   * opens a new one holding the block; otherwise it appends the block to the open page.
   */
  lemma ClosedOpenStep<T>(items: seq<T>, heights: seq<nat>, usable: int, i: nat)
    requires |items| == |heights| && i < |items|
    ensures Open(items, heights, usable, i) == [] <==> i == 0
    ensures if Overflows(Paginate(heights[..i], usable).running, heights[i], usable) then
        Closed(items, heights, usable, i + 1) == Closed(items, heights, usable, i) + [Open(items, heights, usable, i)]
        && Open(items, heights, usable, i + 1) == [items[i]]
      else
        Closed(items, heights, usable, i + 1) == Closed(items, heights, usable, i)
        && Open(items, heights, usable, i + 1) == Open(items, heights, usable, i) + [items[i]]
  {
    if i == 0 {
      OpenFirst(items, heights, usable);
    } else if Overflows(Paginate(heights[..i], usable).running, heights[i], usable) {
      OpenAfterBreak(items, heights, usable, i);
    } else {
      OpenExtended(items, heights, usable, i);
    }
  }

  lemma OpenFirst<T>(items: seq<T>, heights: seq<nat>, usable: int)
    requires |items| == |heights| && 0 < |items|
    ensures !Overflows(Paginate(heights[..0], usable).running, heights[0], usable)
    ensures Closed(items, heights, usable, 1) == [] && Open(items, heights, usable, 1) == [items[0]]
  {
    GroupStep(items, heights, 0, usable);
    assert items[..0] == [] && heights[..0] == [];
  }

  lemma OpenAfterBreak<T>(items: seq<T>, heights: seq<nat>, usable: int, i: nat)
    requires |items| == |heights| && 0 < i < |items|
    requires Overflows(Paginate(heights[..i], usable).running, heights[i], usable)
    ensures Open(items, heights, usable, i) != []
    ensures Closed(items, heights, usable, i + 1) == Closed(items, heights, usable, i) + [Open(items, heights, usable, i)]
    ensures Open(items, heights, usable, i + 1) == [items[i]]
  {
    GroupStep(items, heights, i, usable);
    var prev := Group(items[..i], heights[..i], usable);
    var g := Group(items[..i + 1], heights[..i + 1], usable);
    assert g == prev + [[items[i]]];
    assert g[..|g| - 1] == prev == prev[..|prev| - 1] + [prev[|prev| - 1]];
  }

  lemma OpenExtended<T>(items: seq<T>, heights: seq<nat>, usable: int, i: nat)
    requires |items| == |heights| && 0 < i < |items|
    requires !Overflows(Paginate(heights[..i], usable).running, heights[i], usable)
    ensures Open(items, heights, usable, i) != []
    ensures Closed(items, heights, usable, i + 1) == Closed(items, heights, usable, i)
    ensures Open(items, heights, usable, i + 1) == Open(items, heights, usable, i) + [items[i]]
  {
    GroupStep(items, heights, i, usable);
    var prev := Group(items[..i], heights[..i], usable);
    var g := Group(items[..i + 1], heights[..i + 1], usable);
    assert g == prev[..|prev| - 1] + [prev[|prev| - 1] + [items[i]]];
    assert g[..|g| - 1] == prev[..|prev| - 1];
  }

  /** After the last block, the closed pages and the open one are the whole grouping. */
  lemma ClosedOpenFinish<T>(items: seq<T>, heights: seq<nat>, usable: int)
    requires |items| == |heights| && items != []
    ensures Open(items, heights, usable, |items|) != []
    ensures Closed(items, heights, usable, |items|) + [Open(items, heights, usable, |items|)] == Group(items, heights, usable)
  {
    assert items[..|items|] == items && heights[..|items|] == heights;
    var g := Group(items, heights, usable);
    assert g == g[..|g| - 1] + [g[|g| - 1]];
  }

  // ---------------------------------------------------------------------------
  // Properties of the rule.

  /** A break is emitted before block i exactly when block i overflows the page built so far. */
  lemma {:induction false} BreakIff(heights: seq<nat>, usable: int, i: nat)
    requires i < |heights|
    ensures i in Paginate(heights, usable).breaks
            <==> Overflows(Paginate(heights[..i], usable).running, heights[i], usable)
  {
    var n := |heights| - 1;
    var prev := Paginate(heights[..n], usable);
    if i < n {
      BreakIff(heights[..n], usable, i);
      assert heights[..n][..i] == heights[..i];
    } else {
      assert heights[..i] == heights[..n];
      assert heights[..n + 1] == heights;
      PaginateStep(heights, n, usable);
      assert i !in prev.breaks;
    }
  }

  /** Running height is the height of the last page. */
  lemma {:induction false} RunningIsLastPage(heights: seq<nat>, usable: int)
    requires heights != []
    ensures var g := Group(heights, heights, usable);
      Paginate(heights, usable).running == Sum(g[|g| - 1])
  {
    var n := |heights| - 1;
    var g := Group(heights, heights, usable);
    var prev := Group(heights[..n], heights[..n], usable);
    if n == 0 || Overflows(Paginate(heights[..n], usable).running, heights[n], usable) {
      assert g[|g| - 1] == [heights[n]];
      assert [heights[n]][..0] == [];
    } else {
      RunningIsLastPage(heights[..n], usable);
      var last := prev[|prev| - 1] + [heights[n]];
      assert g[|g| - 1] == last;
      assert last[..|last| - 1] == prev[|prev| - 1];
    }
  }

  /** Leading zero-height blocks, the first block among them, never get a break. */
  lemma {:induction false} LeadingZeroBlocksNeverBreak(heights: seq<nat>, usable: int, k: nat)
    requires k < |heights|
    requires forall j :: 0 <= j < k ==> heights[j] == 0
    ensures forall b :: b in Paginate(heights, usable).breaks ==> b > k
  {
    forall b | b in Paginate(heights, usable).breaks
      ensures b > k
    {
      if b <= k {
        assert Sum(heights[..b]) == 0 by { SumOfZeros(heights[..b]); }
        BreakIff(heights, usable, b);
      }
    }
  }

  lemma {:induction false} SumOfZeros(hs: seq<nat>)
    requires forall j :: 0 <= j < |hs| ==> hs[j] == 0
    ensures Sum(hs) == 0
  {
    if hs != [] {
      SumOfZeros(hs[..|hs| - 1]);
    }
  }

  lemma {:induction false} ZeroSum(hs: seq<nat>)
    requires Sum(hs) == 0
    ensures forall j :: 0 <= j < |hs| ==> hs[j] == 0
  {
    if hs != [] {
      ZeroSum(hs[..|hs| - 1]);
      assert forall j :: 0 <= j < |hs| - 1 ==> hs[..|hs| - 1][j] == hs[j];
    }
  }

  /**
   * A page fits in the usable height, or every block on it but the last has zero
   * height: an oversized block sits alone on its page (after leading zero-height blocks).
   */
  predicate Fits(page: seq<nat>, usable: int)
  {
    Sum(page) <= usable || forall j :: 0 <= j < |page| - 1 ==> page[j] == 0
  }

  predicate AllFit(g: seq<seq<nat>>, usable: int)
  {
    forall k :: 0 <= k < |g| ==> Fits(g[k], usable)
  }

  lemma {:induction false} PagesFit(heights: seq<nat>, usable: int)
    ensures AllFit(Group(heights, heights, usable), usable)
  {
    if heights != [] {
      var n := |heights| - 1;
      var g := Group(heights, heights, usable);
      var prev := Group(heights[..n], heights[..n], usable);
      var running := Paginate(heights[..n], usable).running;
      PagesFit(heights[..n], usable);
      if n == 0 || Overflows(running, heights[n], usable) {
        assert g == prev + [[heights[n]]];
        assert Fits([heights[n]], usable);
      } else {
        RunningIsLastPage(heights[..n], usable);
        var last := prev[|prev| - 1];
        assert g == prev[..|prev| - 1] + [last + [heights[n]]];
        assert (last + [heights[n]])[..|last|] == last;
        if running == 0 {
          ZeroSum(last);
          assert forall j :: 0 <= j < |last| ==> (last + [heights[n]])[j] == 0;
        }
        assert Fits(last + [heights[n]], usable);
      }
    }
  }

  /** Every page but the last is full: the first block of the next page overflows it. */
  predicate AllFull(g: seq<seq<nat>>, usable: int)
  {
    forall k :: 0 <= k < |g| - 1 && g[k + 1] != [] ==> Overflows(Sum(g[k]), g[k + 1][0], usable)
  }

  lemma {:induction false} PagesAreFull(heights: seq<nat>, usable: int)
    ensures AllFull(Group(heights, heights, usable), usable)
  {
    if heights != [] {
      var n := |heights| - 1;
      var g := Group(heights, heights, usable);
      var prev := Group(heights[..n], heights[..n], usable);
      var running := Paginate(heights[..n], usable).running;
      PagesAreFull(heights[..n], usable);
      if n == 0 {
      } else if Overflows(running, heights[n], usable) {
        RunningIsLastPage(heights[..n], usable);
        assert g == prev + [[heights[n]]];
      } else {
        var last := prev[|prev| - 1];
        assert g == prev[..|prev| - 1] + [last + [heights[n]]];
        forall k | 0 <= k < |g| - 1 && g[k + 1] != []
          ensures Overflows(Sum(g[k]), g[k + 1][0], usable)
        {
          assert g[k] == prev[k];
          assert g[k + 1][0] == prev[k + 1][0];
        }
      }
    }
  }

  /** Group k of `g` is the non-empty run of `items` from boundary k up to boundary k + 1. */
  ghost predicate SliceAt<T>(g: seq<seq<T>>, items: seq<T>, b: seq<nat>, k: nat)
  {
    k < |g| && k + 1 < |b| && b[k] < b[k + 1] <= |items| && g[k] == items[b[k]..b[k + 1]]
  }

  /** `g` cuts `items` into consecutive non-empty runs at the boundaries `b`. */
  ghost predicate Sliced<T>(g: seq<seq<T>>, items: seq<T>, b: seq<nat>)
  {
    |g| + 1 == |b| && forall k: nat :: k < |g| ==> SliceAt(g, items, b, k)
  }

  /** Pages are consecutive runs of the blocks, cut at the break indices. */
  lemma {:induction false} GroupSlices<T>(items: seq<T>, heights: seq<nat>, usable: int)
    requires |items| == |heights|
    requires items != []
    ensures Sliced(Group(items, heights, usable), items, Bounds(heights, usable))
  {
    var n := |items| - 1;
    var bs := Paginate(heights, usable).breaks;
    if n == 0 {
      assert bs == [];
      assert Bounds(heights, usable) == [0, 1];
      assert Group(items, heights, usable) == [[items[0]]];
    } else {
      GroupSlices(items[..n], heights[..n], usable);
      var prev := Group(items[..n], heights[..n], usable);
      var pbs := Paginate(heights[..n], usable).breaks;
      assert Bounds(heights[..n], usable) == [0] + pbs + [n];
      if Overflows(Paginate(heights[..n], usable).running, heights[n], usable) {
        SlicedNewPage(prev, items, pbs);
        assert Bounds(heights, usable) == [0] + (pbs + [n]) + [n + 1];
      } else {
        SlicedExtend(prev, items, pbs, Group(items, heights, usable), Bounds(heights, usable));
        assert Bounds(heights, usable) == [0] + pbs + [n + 1];
      }
    }
  }

  lemma SlicedNewPage<T>(prev: seq<seq<T>>, items: seq<T>, pbs: seq<nat>)
    requires |items| > 1
    requires Sliced(prev, items[..|items| - 1], [0] + pbs + [|items| - 1])
    ensures Sliced(prev + [[items[|items| - 1]]], items, [0] + (pbs + [|items| - 1]) + [|items|])
  {
    var n := |items| - 1;
    var pb := [0] + pbs + [n];
    var b := [0] + (pbs + [n]) + [n + 1];
    var g := prev + [[items[n]]];
    assert b == pb + [n + 1];
    forall k: nat | k < |g|
      ensures SliceAt(g, items, b, k)
    {
      if k < |prev| {
        assert SliceAt(prev, items[..n], pb, k);
        assert g[k] == prev[k];
        assert b[k] == pb[k] && b[k + 1] == pb[k + 1];
        SliceOfPrefix(items, n, pb[k], pb[k + 1]);
      }
    }
  }

  lemma SlicedExtend<T>(prev: seq<seq<T>>, items: seq<T>, pbs: seq<nat>, g: seq<seq<T>>, b: seq<nat>)
    requires |items| > 1 && prev != []
    requires Sliced(prev, items[..|items| - 1], [0] + pbs + [|items| - 1])
    requires g == prev[..|prev| - 1] + [prev[|prev| - 1] + [items[|items| - 1]]]
    requires b == [0] + pbs + [|items|]
    ensures Sliced(g, items, b)
  {
    var n := |items| - 1;
    var pb := [0] + pbs + [n];
    var last := |prev| - 1;
    assert |g| + 1 == |b| && last == |pbs|;
    forall k: nat | k < |g|
      ensures SliceAt(g, items, b, k)
    {
      assert SliceAt(prev, items[..n], pb, k);
      assert b[k] == ([0] + pbs)[k] == pb[k];
      if k < last {
        assert g[k] == prev[k];
        assert b[k + 1] == ([0] + pbs)[k + 1] == pb[k + 1];
        SliceOfPrefix(items, n, pb[k], pb[k + 1]);
      } else {
        assert g[k] == prev[last] + [items[n]];
        assert pb[k + 1] == n && b[k + 1] == n + 1;
        SliceExtended(items, n, pb[k]);
      }
    }
  }

  lemma SliceOfPrefix<T>(items: seq<T>, n: nat, lo: nat, hi: nat)
    requires lo <= hi <= n <= |items|
    ensures items[..n][lo..hi] == items[lo..hi]
  {
  }

  lemma SliceExtended<T>(items: seq<T>, n: nat, lo: nat)
    requires lo <= n < |items|
    ensures items[..n][lo..n] + [items[n]] == items[lo..n + 1]
  {
  }

  /** Concatenating the pages gives back every block, once each, in order. */
  lemma {:induction false} FlattenGroup<T>(items: seq<T>, heights: seq<nat>, usable: int)
    requires |items| == |heights|
    ensures Flatten(Group(items, heights, usable)) == items
  {
    if items != [] {
      var n := |items| - 1;
      FlattenGroup(items[..n], heights[..n], usable);
      FlattenGroupLast(items, heights, usable);
      assert items[..n] + [items[n]] == items;
    }
  }

  /** The last block comes last in the concatenated pages, after the earlier blocks' pages. */
  lemma FlattenGroupLast<T>(items: seq<T>, heights: seq<nat>, usable: int)
    requires |items| == |heights| && items != []
    ensures var n := |items| - 1;
      Flatten(Group(items, heights, usable)) == Flatten(Group(items[..n], heights[..n], usable)) + [items[n]]
  {
    var n := |items| - 1;
    var prev := Group(items[..n], heights[..n], usable);
    if n == 0 || Overflows(Paginate(heights[..n], usable).running, heights[n], usable) {
      FlattenAppendOne(prev, [items[n]]);
    } else {
      assert items[..n] != [];
      var last := |prev| - 1;
      assert prev[..last] + [prev[last]] == prev;
      FlattenExtendLast(prev[..last], prev[last], items[n]);
    }
  }

  /**
   * Decisions are never revisited: the breaks found for a prefix of the document
   * are exactly the breaks of the whole document that fall inside that prefix.
   */
  lemma {:induction false} BreaksOfPrefix(heights: seq<nat>, usable: int, m: nat)
    requires m <= |heights|
    ensures var pre := Paginate(heights[..m], usable).breaks;
      var all := Paginate(heights, usable).breaks;
      |pre| <= |all| && pre == all[..|pre|] &&
      forall k :: |pre| <= k < |all| ==> all[k] >= m
  {
    if m < |heights| {
      var n := |heights| - 1;
      BreaksOfPrefix(heights[..n], usable, m);
      assert heights[..n][..m] == heights[..m];
    } else {
      assert heights[..m] == heights;
    }
  }

  /**
   * A block taller than the usable height closes its page: the block after it, of
   * whatever height, starts a new page.
   */
  lemma OversizedBlockEndsPage(heights: seq<nat>, usable: int, i: nat)
    requires i + 1 < |heights|
    requires usable >= 0 && heights[i] > usable
    ensures i + 1 in Paginate(heights, usable).breaks
  {
    PaginateStep(heights, i, usable);
    assert Paginate(heights[..i + 1], usable).running >= heights[i];
    BreakIff(heights, usable, i + 1);
  }

  /** The worked example: three blocks of 400 on an A4 page (usable 930) give one break, before the third. */
  lemma ThreeBlocksOnA4()
    ensures Paginate([400, 400, 400], 930).breaks == [2]
  {
    var h: seq<nat> := [400, 400, 400];
    PaginateStep(h, 0, 930);
    PaginateStep(h, 1, 930);
    PaginateStep(h, 2, 930);
    assert h[..0] == [];
    assert Paginate(h[..1], 930) == Layout([], 400);
    assert Paginate(h[..2], 930) == Layout([], 800);
    assert h[..3] == h;
  }
}
