/**
 * Page formats and layout constants (src/constants.ts). All lengths are CSS pixels
 * at 96 pixels per inch.
 */
module PageFormats {

  /** One inch in CSS pixels. */
  const INCH: nat := 96

  /** Gap between consecutive pages in the editor view, in pixels. */
  const PAGE_GAP: nat := 40

  /** Quiet period of the pagination debounce, in milliseconds. */
  const PAGINATION_DEBOUNCE_MS: nat := 100

  datatype Margin = Margin(top: nat, bottom: nat, left: nat, right: nat)

  datatype PageDimensions = PageDimensions(width: nat, height: nat, margin: Margin)

  datatype PageFormat = A4 | Letter

  /**
   * JavaScript's Math.round on a real: the nearest integer, halves rounded up.
   * The model computes on exact rationals where the source multiplies doubles;
   * for the two products used below both give the same integer.
   */
  function Round(x: real): (r: int)
    ensures x - 0.5 < r as real <= x + 0.5
  {
    (x + 0.5).Floor
  }

  /** Height left for content once the top and bottom margins are taken off. */
  function UsableHeight(d: PageDimensions): int
  {
    d.height - d.margin.top - d.margin.bottom
  }

  /** Width left for content once the left and right margins are taken off. */
  function UsableWidth(d: PageDimensions): int
  {
    d.width - d.margin.left - d.margin.right
  }

  /** The page-format table: A4 from 8.27in x 11.69in, Letter from 8.5in x 11in, one-inch margins. */
  function Dimensions(f: PageFormat): (d: PageDimensions)
    ensures d.margin == Margin(INCH, INCH, INCH, INCH)
    ensures f == A4 ==> d.width == 794 && d.height == 1122
    ensures f == Letter ==> d.width == 816 && d.height == 1056
    ensures f == A4 ==> UsableHeight(d) == 930 && UsableWidth(d) == 602
    ensures f == Letter ==> UsableHeight(d) == 864 && UsableWidth(d) == 624
    ensures UsableHeight(d) > 0 && UsableWidth(d) > 0
  {
    var oneInch := Margin(INCH, INCH, INCH, INCH);
    match f
    case A4 =>
      var w := Round(8.27 * INCH as real);
      var h := Round(11.69 * INCH as real);
      PageDimensions(w as nat, h as nat, oneInch)
    case Letter =>
      var w := Round(8.5 * INCH as real);
      var h := Round(11.0 * INCH as real);
      PageDimensions(w as nat, h as nat, oneInch)
  }
}
