/**
 * Placing things in the flow of the document: the bookmark of an input, the
 * separator between two inputs, and inline images. Each operation moves the
 * cursor down the page and starts a new page when what it places does not
 * fit above the bottom margin.
 */
module Placement {
  import opened Results
  import opened Geometry
  import opened Config
  import opened Paging
  import opened Template

  function Min(a: real, b: real): (m: real)
    ensures m <= a && m <= b && (m == a || m == b)
  {
    if a <= b then a else b
  }

  /** The cursor lies on the canvas: not below the bottom margin, not above the top one. */
  predicate InCanvas(s: Settings, y: real) {
    s.margins.bottom <= y <= TopY(s.page, s.margins)
  }

  /** The page leaves a canvas of non-negative height between its margins. */
  predicate RoomyPage(s: Settings) {
    CanvasHeight(s.page, s.margins) >= 0.0
  }

  // ---------------------------------------------------------------------
  // Bookmarks

  /**
   * `place_bookmark`: with a bookmark template, an outline item titled by
   * the expanded template and pointing at the cursor; nothing otherwise.
   */
  function PlaceBookmark(s: Settings, d: Doc): (r: Doc)
    ensures r.(log := d.log) == d
    ensures |r.log| >= |d.log| && r.log[..|d.log|] == d.log
    ensures s.bookmark == "" ==> r.log == d.log
    ensures s.bookmark != "" ==> r.log == d.log + [Bookmark(SubstTemplate(s.bookmark, s.inputName, d.pageNr), d.y)]
  {
    if s.bookmark == "" then d
    else Emit(d, Bookmark(SubstTemplate(s.bookmark, s.inputName, d.pageNr), d.y))
  }

  /**
   * A bookmark adds exactly one outline item when a template is set, keeps
   * the paging invariant, and a template without `%` is used as the title
   * as it is.
   */
  lemma PlaceBookmarkValid(s: Settings, d: Doc)
    requires Valid(d)
    ensures var r := PlaceBookmark(s, d);
            && Valid(r) && r.isOpen == d.isOpen && r.pageNr == d.pageNr && r.y == d.y
            && Marks(r.log) == Marks(d.log) + (if s.bookmark == "" then 0 else 1)
            && ('%' !in s.bookmark && s.bookmark != "" ==> r.log[|r.log| - 1] == Bookmark(s.bookmark, d.y))
  {
    if s.bookmark != "" {
      var e := Bookmark(SubstTemplate(s.bookmark, s.inputName, d.pageNr), d.y);
      NeutralKeepsValid(d, e);
      MarksSnoc(d.log, e);
    }
  }

  // ---------------------------------------------------------------------
  // Separator

  /**
   * `insert_input_separator`: a page break starts a new page; a positive gap
   * moves the cursor down if the gap fits and starts a new page otherwise;
   * a gap of zero or less moves the cursor up by its size, but never above
   * the top of the canvas.
   */
  function InsertInputSeparator(s: Settings, d: Doc): (r: Doc)
    ensures s.separator.PageBreak? ==> r == NextPage(s, d)
    ensures s.separator.Gap? && s.separator.space > 0.0 ==>
              if EnoughSpace(d.y, s.separator.space, s.margins) then r == d.(y := d.y - s.separator.space)
              else r == NextPage(s, d)
    ensures s.separator.Gap? && s.separator.space <= 0.0 ==>
              r.y <= TopY(s.page, s.margins) && r.y <= d.y - s.separator.space
              && (r.y == TopY(s.page, s.margins) || r.y == d.y - s.separator.space)
              && r.(y := d.y) == d
  {
    match s.separator
    case PageBreak => NextPage(s, d)
    case Gap(space) =>
      if space > 0.0 then
        if EnoughSpace(d.y, space, s.margins) then d.(y := d.y - space) else NextPage(s, d)
      else d.(y := Min(d.y - space, TopY(s.page, s.margins)))
  }

  /** The separator keeps the paging invariant and an open page. */
  lemma SeparatorValid(s: Settings, d: Doc)
    requires Valid(d) && d.isOpen
    ensures Valid(InsertInputSeparator(s, d)) && InsertInputSeparator(s, d).isOpen
  {
    NextPageValid(s, d);
  }

  /**
   * Starting from a cursor on the canvas, the cursor stays on the canvas; a
   * gap never starts a page when it fits, and a page break always does.
   */
  lemma SeparatorInCanvas(s: Settings, d: Doc)
    requires RoomyPage(s) && InCanvas(s, d.y)
    ensures InCanvas(s, InsertInputSeparator(s, d).y)
    ensures s.separator.Gap? ==> InsertInputSeparator(s, d).y >= d.y - s.separator.space
                                 || InsertInputSeparator(s, d).y == TopY(s.page, s.margins)
  {
  }

  /** A gap that fits exactly down to the bottom margin is still inserted on the same page. */
  lemma SeparatorBoundary(s: Settings, d: Doc)
    requires s.separator.Gap? && s.separator.space > 0.0
    requires d.y - s.separator.space == s.margins.bottom
    ensures InsertInputSeparator(s, d) == d.(y := s.margins.bottom)
  {
    EnoughSpaceBoundary(d.y, s.separator.space, s.margins);
  }

  // ---------------------------------------------------------------------
  // Images

  /** The page something `need` points tall goes on: the current one if it fits below the cursor, else a new one. */
  function MakeRoom(s: Settings, d: Doc, need: real): (r: Doc)
    ensures EnoughSpace(d.y, need, s.margins) ==> r == d
    ensures !EnoughSpace(d.y, need, s.margins) ==> r == NextPage(s, d)
  {
    if EnoughSpace(d.y, need, s.margins) then d else NextPage(s, d)
  }

  /**
   * Whatever is no taller than the canvas fits after MakeRoom, either below
   * the old cursor or at the top of a new page, and the invariant is kept.
   */
  lemma MakeRoomFits(s: Settings, d: Doc, need: real)
    requires Valid(d) && d.isOpen && need <= CanvasHeight(s.page, s.margins)
    ensures var r := MakeRoom(s, d, need);
            && Valid(r) && r.isOpen && EnoughSpace(r.y, need, s.margins)
            && (r.y == d.y || r.y == TopY(s.page, s.margins))
  {
    NextPageValid(s, d);
  }

  /**
   * `r` is `start` with an image `h` points tall drawn at `x` below the
   * cursor: the cursor is at the image's bottom edge, the image is the last
   * thing recorded after whatever `start` recorded, and nothing else about
   * the document has changed.
   */
  predicate DrawnBelow(start: Doc, r: Doc, x: real, h: real, scale: real) {
    && r.y == start.y - h
    && r.pageNr == start.pageNr && r.isOpen == start.isOpen && r.logical == start.logical && r.tiles == start.tiles
    && |r.log| > |start.log| && r.log[..|start.log|] == start.log
    && r.log[|r.log| - 1] == Image(x, r.y, scale)
  }

  /** Bookmark, move the cursor below the image, draw it. */
  function DrawImage(s: Settings, d: Doc, x: real, h: real, scale: real): (r: Doc)
    ensures DrawnBelow(d, r, x, h, scale)
  {
    var d2 := PlaceBookmark(s, d);
    DrawnAfter(d, d2, DrawBelow(d2, x, h, scale), x, h, scale);
    DrawBelow(d2, x, h, scale)
  }

  /** Recording more before the image, at the same place, still draws it below `d`. */
  lemma DrawnAfter(d: Doc, d2: Doc, r: Doc, x: real, h: real, scale: real)
    requires d2.(log := d.log) == d && |d2.log| >= |d.log| && d2.log[..|d.log|] == d.log
    requires DrawnBelow(d2, r, x, h, scale)
    ensures DrawnBelow(d, r, x, h, scale)
  {
    assert r.log[..|d.log|] == r.log[..|d2.log|][..|d.log|];
  }

  /** The image itself: the cursor moves down by its height and the image is drawn there. */
  function DrawBelow(d: Doc, x: real, h: real, scale: real): (r: Doc)
    ensures DrawnBelow(d, r, x, h, scale)
  {
    Emit(d.(y := d.y - h), Image(x, d.y - h, scale))
  }

  lemma DrawBelowValid(d: Doc, x: real, h: real, scale: real)
    requires Valid(d)
    ensures Valid(DrawBelow(d, x, h, scale))
  {
    MovedNeutralKeepsValid(d, d.y - h, Image(x, d.y - h, scale));
  }

  lemma DrawImageValid(s: Settings, d: Doc, x: real, h: real, scale: real)
    requires Valid(d)
    ensures Valid(DrawImage(s, d, x, h, scale))
  {
    PlaceBookmarkValid(s, d);
    DrawBelowValid(PlaceBookmark(s, d), x, h, scale);
  }

  /**
   * The horizontal offset of an image of width `w` within a canvas of width
   * `cw` for the `--image-align` values; any other value leaves the offset
   * unassigned.
   */
  function AlignOffset(align: string, cw: real, w: real): (off: Option<real>)
    ensures off.Some? <==> align == "left" || align == "center" || align == "right"
    ensures align == "left" ==> off == Some(0.0)
    ensures align == "right" ==> off == Some(cw - w) && off.value + w == cw
    ensures align == "center" ==> off.Some? && off.value == (cw - w) - off.value
    ensures off.Some? && w <= cw ==> 0.0 <= off.value && off.value + w <= cw
  {
    if align == "left" then Some(0.0)
    else if align == "center" then Some((cw - w) / 2.0)
    else if align == "right" then Some(cw - w)
    else None
  }

  /**
   * `place_inline_image` for an image `w` points wide and `h` points tall:
   * wider images are scaled down when `--image-fit-wide` is on; otherwise a
   * new page is started if the image does not fit, the bookmark is placed,
   * and the image is drawn with its top at the cursor, which moves below it.
   * An unknown alignment makes the offset lookup raise UnboundLocalError.
   */
  function PlaceInlineImage(s: Settings, d: Doc, w: real, h: real): (r: Result<Doc>)
    ensures s.imageFitWider && w > CanvasWidth(s.page, s.margins) ==> r == FitWiderImage(s, d, w, h)
    ensures !(s.imageFitWider && w > CanvasWidth(s.page, s.margins)) ==>
              (r.Ok? <==> AlignOffset(s.imageAlign, CanvasWidth(s.page, s.margins), w).Some?)
    ensures r.Err? ==> r.error.Uncaught?
    ensures !(s.imageFitWider && w > CanvasWidth(s.page, s.margins)) && r.Ok? ==>
              DrawnBelow(MakeRoom(s, d, h), r.value,
                         s.margins.left + AlignOffset(s.imageAlign, CanvasWidth(s.page, s.margins), w).value, h, 1.0)
  {
    var cw := CanvasWidth(s.page, s.margins);
    if s.imageFitWider && w > cw then FitWiderImage(s, d, w, h)
    else
      var d1 := MakeRoom(s, d, h);
      match AlignOffset(s.imageAlign, cw, w)
      case None => Err(Uncaught("UnboundLocalError"))
      case Some(offset) => Ok(DrawImage(s, d1, s.margins.left + offset, h, 1.0))
  }

  /**
   * `fit_wider_image`: the image is scaled to the canvas width and then
   * placed like an inline image at the left margin. The save, translate,
   * scale, draw and restore sequence is recorded as one scaled image. A
   * zero width makes the scale computation divide by zero.
   */
  function FitWiderImage(s: Settings, d: Doc, w: real, h: real): (r: Result<Doc>)
    ensures r.Err? <==> w == 0.0
    ensures r.Err? ==> r.error == Uncaught("ZeroDivisionError")
    ensures r.Ok? ==> DrawnBelow(MakeRoom(s, d, FitScale(s, w) * h), r.value, s.margins.left, FitScale(s, w) * h, FitScale(s, w))
  {
    if w == 0.0 then Err(Uncaught("ZeroDivisionError"))
    else
      Ok(DrawImage(s, MakeRoom(s, d, FitHeight(s, w, h)), s.margins.left, FitHeight(s, w, h), FitScale(s, w)))
  }

  /** The height of an image `w` by `h` points once scaled to the canvas width. */
  function FitHeight(s: Settings, w: real, h: real): real
    requires w != 0.0
  {
    FitScale(s, w) * h
  }

  /** The factor that makes an image `w` points wide exactly as wide as the canvas. */
  function FitScale(s: Settings, w: real): (scale: real)
    requires w != 0.0
    ensures scale * w == CanvasWidth(s.page, s.margins)
    ensures CanvasWidth(s.page, s.margins) >= 0.0 && w > CanvasWidth(s.page, s.margins) ==> 0.0 <= scale < 1.0
  {
    var cw := CanvasWidth(s.page, s.margins);
    assert cw >= 0.0 && w > cw ==> 0.0 <= cw / w < 1.0 by {
      if cw >= 0.0 && w > cw {
        QuotientBelowOne(cw, w);
      }
    }
    cw / w
  }

  /** A non-negative number divided by a larger one lies in [0, 1). */
  lemma QuotientBelowOne(a: real, b: real)
    requires 0.0 <= a < b
    ensures 0.0 <= a / b < 1.0
  {
    var q := a / b;
    assert q * b == a;
    ProductSign(q, b);
  }

  /** Scaling by a positive factor keeps the sign, and factors of at least one do not shrink. */
  lemma ProductSign(x: real, b: real)
    requires b > 0.0
    ensures x < 0.0 ==> x * b < 0.0
    ensures x >= 1.0 ==> x * b >= b
  {
    assert x * b - b == (x - 1.0) * b;
  }

  /**
   * An image no taller than the canvas lands on the canvas: its top is the
   * cursor before (or the top of a new page) and its bottom is not below
   * the bottom margin, and it lies between the left and right margins when
   * it is not wider than the canvas. The paging invariant and an open page
   * are kept.
   */
  lemma InlineImageFits(s: Settings, d: Doc, w: real, h: real)
    requires Valid(d) && d.isOpen
    requires 0.0 <= h <= CanvasHeight(s.page, s.margins)
    requires 0.0 <= w <= CanvasWidth(s.page, s.margins)
    requires PlaceInlineImage(s, d, w, h).Ok?
    ensures var r := PlaceInlineImage(s, d, w, h).value;
            var e := r.log[|r.log| - 1];
            && Valid(r) && r.isOpen
            && r.y >= s.margins.bottom
            && (EnoughSpace(d.y, h, s.margins) ==> r.y + h == d.y && r.pageNr == d.pageNr)
            && (!EnoughSpace(d.y, h, s.margins) ==> r.y + h == TopY(s.page, s.margins))
            && e.Image? && e.y == r.y && e.scale == 1.0
            && s.margins.left <= e.x && e.x + w <= s.margins.left + CanvasWidth(s.page, s.margins)
  {
    MakeRoomFits(s, d, h);
    var d1 := MakeRoom(s, d, h);
    var offset := AlignOffset(s.imageAlign, CanvasWidth(s.page, s.margins), w).value;
    var x := s.margins.left + offset;
    assert PlaceInlineImage(s, d, w, h) == Ok(DrawImage(s, d1, x, h, 1.0));
    assert 0.0 <= offset && offset + w <= CanvasWidth(s.page, s.margins);
    DrawImageValid(s, d1, x, h, 1.0);
  }

  /**
   * A scaled image that fits vertically lands on the canvas, its top at the
   * cursor or, when the scaled height does not fit there, at the top of a
   * new page; the invariant is kept.
   */
  lemma FitWiderImageFits(s: Settings, d: Doc, w: real, h: real)
    requires Valid(d) && d.isOpen && w != 0.0
    requires FitHeight(s, w, h) <= CanvasHeight(s.page, s.margins)
    ensures var r := FitWiderImage(s, d, w, h).value;
            && Valid(r) && r.isOpen && r.y >= s.margins.bottom
            && (EnoughSpace(d.y, FitHeight(s, w, h), s.margins) ==> r.y + FitHeight(s, w, h) == d.y && r.pageNr == d.pageNr)
            && (!EnoughSpace(d.y, FitHeight(s, w, h), s.margins) ==> r.y + FitHeight(s, w, h) == TopY(s.page, s.margins))
  {
    var d1 := MakeRoom(s, d, FitHeight(s, w, h));
    MakeRoomFits(s, d, FitHeight(s, w, h));
    DrawImageValid(s, d1, s.margins.left, FitHeight(s, w, h), FitScale(s, w));
  }

  /**
   * `paint_image`: the image's size in points from its size in pixels and
   * its resolution; a zero resolution divides by zero.
   */
  function PaintImage(s: Settings, d: Doc, widthPx: nat, heightPx: nat, dpiX: real, dpiY: real): (r: Result<Doc>)
    ensures dpiX == 0.0 || dpiY == 0.0 ==> r == Err(Uncaught("ZeroDivisionError"))
    ensures dpiX == 72.0 && dpiY == 72.0 ==> r == PlaceInlineImage(s, d, widthPx as real, heightPx as real)
  {
    if dpiX == 0.0 || dpiY == 0.0 then Err(Uncaught("ZeroDivisionError"))
    else
      assert dpiX == 72.0 ==> Points(widthPx, dpiX) == widthPx as real by {
        if dpiX == 72.0 { AtScreenResolution(widthPx as real); }
      }
      assert dpiY == 72.0 ==> Points(heightPx, dpiY) == heightPx as real by {
        if dpiY == 72.0 { AtScreenResolution(heightPx as real); }
      }
      PlaceInlineImage(s, d, Points(widthPx, dpiX), Points(heightPx, dpiY))
  }

  /** A length of `px` pixels at `dpi` dots per inch, in points (72 to the inch). */
  function Points(px: nat, dpi: real): real
    requires dpi != 0.0
  {
    px as real / dpi * 72.0
  }

  /**
   * At any nonzero resolution the image is placed as an inline image whose
   * size in points, times the resolution, is 72 times its size in pixels.
   */
  lemma PaintImageSize(s: Settings, d: Doc, widthPx: nat, heightPx: nat, dpiX: real, dpiY: real, w: real, h: real)
    requires dpiX != 0.0 && dpiY != 0.0
    requires w * dpiX == widthPx as real * 72.0 && h * dpiY == heightPx as real * 72.0
    ensures PaintImage(s, d, widthPx, heightPx, dpiX, dpiY) == PlaceInlineImage(s, d, w, h)
  {
    PointsOf(widthPx, dpiX, w);
    PointsOf(heightPx, dpiY, h);
  }

  /** `w` is the point length of `px` pixels exactly when `w * dpi == px * 72`. */
  lemma PointsOf(px: nat, dpi: real, w: real)
    requires dpi != 0.0 && w * dpi == px as real * 72.0
    ensures Points(px, dpi) == w
  {
    var q := px as real / dpi;
    assert q * dpi == px as real;
    assert (q * 72.0) * dpi == w * dpi;
    assert (q * 72.0 - w) * dpi == 0.0;
  }

  /** Only the size in inches matters: twice the pixels at twice the resolution is placed the same way. */
  lemma PaintImageSameInches(s: Settings, d: Doc, widthPx: nat, heightPx: nat, dpiX: real, dpiY: real)
    requires dpiX != 0.0 && dpiY != 0.0
    ensures PaintImage(s, d, 2 * widthPx, 2 * heightPx, 2.0 * dpiX, 2.0 * dpiY) == PaintImage(s, d, widthPx, heightPx, dpiX, dpiY)
  {
    assert Points(2 * widthPx, 2.0 * dpiX) == Points(widthPx, dpiX) by {
      assert (2 * widthPx) as real == 2.0 * widthPx as real;
      HalvesCancel(widthPx as real, dpiX);
    }
    assert Points(2 * heightPx, 2.0 * dpiY) == Points(heightPx, dpiY) by {
      assert (2 * heightPx) as real == 2.0 * heightPx as real;
      HalvesCancel(heightPx as real, dpiY);
    }
  }

  lemma HalvesCancel(a: real, b: real)
    requires b != 0.0
    ensures (2.0 * a) / (2.0 * b) == a / b
  {
    var q := a / b;
    assert q * b == a;
    assert q * (2.0 * b) == 2.0 * a;
  }

  /** At 72 dots per inch a pixel is a point. */
  lemma AtScreenResolution(px: real)
    ensures px / 72.0 * 72.0 == px
  {
    var q := px / 72.0;
    assert q * 72.0 == px;
  }
}
