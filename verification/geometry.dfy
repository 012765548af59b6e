/**
 * Page geometry: page size, the four margins, the canvas they leave, and the
 * single overflow test every content driver uses.
 */
module Geometry {

  /** Width and height of a physical page, in points. */
  datatype PageSize = PageSize(width: real, height: real)

  /** Margins in the order the `--margins` option lists them. */
  datatype Margins = Margins(top: real, right: real, bottom: real, left: real)

  /** An RGB colour with components as the tool computes them (normally in [0, 1]). */
  datatype Color = Color(r: real, g: real, b: real)

  /** What goes between two inputs: a page break or a vertical gap (possibly negative). */
  datatype Separator = PageBreak | Gap(space: real)

  /** The default margins: top 72, right 68, bottom 72, left 68. */
  const DefaultMargins := Margins(72.0, 68.0, 72.0, 68.0)

  /** The default separator: a 36-point gap. */
  const DefaultSeparator := Gap(36.0)

  /** Horizontal room between the left and the right margin. */
  function CanvasWidth(page: PageSize, m: Margins): (w: real)
    ensures m.left + w + m.right == page.width
  {
    page.width - (m.left + m.right)
  }

  /** Vertical room between the top and the bottom margin. */
  function CanvasHeight(page: PageSize, m: Margins): (h: real)
    ensures m.bottom + h + m.top == page.height
  {
    page.height - (m.top + m.bottom)
  }

  /** Where the cursor stands on a fresh page: just below the top margin. */
  function TopY(page: PageSize, m: Margins): (y: real)
    ensures y + m.top == page.height
    ensures y - CanvasHeight(page, m) == m.bottom
  {
    page.height - m.top
  }

  /** Content of height `needed` below the cursor `y` still ends on or above the bottom margin. */
  predicate EnoughSpace(y: real, needed: real, m: Margins) {
    y - needed >= m.bottom
  }

  /** Content exactly as tall as the room left still fits: the boundary is inclusive. */
  lemma EnoughSpaceBoundary(y: real, needed: real, m: Margins)
    requires y - needed == m.bottom
    ensures EnoughSpace(y, needed, m)
    ensures forall more: real | more > needed :: !EnoughSpace(y, more, m)
  {
  }

  /** Whatever fits, anything shorter fits too; on a fresh page exactly the canvas height fits. */
  lemma EnoughSpaceMonotone(page: PageSize, m: Margins, y: real, needed: real, less: real)
    requires EnoughSpace(y, needed, m) && less <= needed
    ensures EnoughSpace(y, less, m)
    ensures EnoughSpace(TopY(page, m), needed, m) <==> needed <= CanvasHeight(page, m)
  {
  }
}
