/**
 * The text driver: how the lines of one text input become text, zebra
 * stripes, outline items and page breaks. A driver remembers the number of
 * the line on the current page, whether a line of text is being written,
 * whether the input's bookmark is still to be placed, and the colours it has
 * already looked up for syntax tokens.
 */
module Text {
  import opened Results
  import opened Strings
  import opened Geometry
  import opened Config
  import opened Paging
  import opened Placement
  import opened Options
  import opened NUp

  datatype Driver = Driver(
    doc: Doc,
    /** `line_height()`: the font height stretched by the line spacing, fixed while an input is placed */
    lineHeight: real,
    /** the number of the line on the current page, from 0 */
    lineNr: nat,
    /** a line has been started and not yet ended (the driver holds a canvas) */
    textOpen: bool,
    /** the input's bookmark has not been placed yet */
    firstTime: bool,
    /** the colour found for each syntax token so far */
    styleColors: map<string, Color>
  )

  /** A driver as `TxtDriver.__init__` leaves it, writing into `d`. */
  function NewDriver(s: Settings, d: Doc): (t: Driver)
    ensures t.doc == d && t.lineHeight == LineHeight(s)
    ensures t.lineNr == 0 && !t.textOpen && t.firstTime && t.styleColors == map[]
  {
    Driver(d, LineHeight(s), 0, false, true, map[])
  }

  // ---------------------------------------------------------------------
  // Zebra stripes

  /** The stripe colour of the line numbered `lineNr` on its page: the palette is cycled, and an empty entry paints nothing. */
  function StripeColor(s: Settings, lineNr: nat): (c: Option<Color>)
    ensures |s.zebra| == 0 ==> c == None
    ensures |s.zebra| > 0 ==> c == s.zebra[lineNr % |s.zebra|]
  {
    if |s.zebra| == 0 then None else s.zebra[lineNr % |s.zebra|]
  }

  /** The palette starts over every `|zebra|` lines, and the first lines of a page take its entries in order. */
  lemma StripeCycle(s: Settings, lineNr: nat)
    requires |s.zebra| > 0
    ensures StripeColor(s, lineNr + |s.zebra|) == StripeColor(s, lineNr)
    ensures lineNr < |s.zebra| ==> StripeColor(s, lineNr) == s.zebra[lineNr]
  {
    var n := |s.zebra|;
    DivModOf(lineNr + n, lineNr / n + 1, lineNr % n, n);
    if lineNr < n {
      DivModOf(lineNr, 0, lineNr, n);
    }
  }

  /** With the palette red, none, blue the first five lines of a page get stripes red, none, blue, red, none. */
  lemma ZebraScenario(s: Settings)
    requires s.zebra == [Some(Color(1.0, 0.0, 0.0)), None, Some(Color(0.0, 0.0, 1.0))]
    ensures StripeColor(s, 0) == Some(Color(1.0, 0.0, 0.0))
    ensures StripeColor(s, 1) == None
    ensures StripeColor(s, 2) == Some(Color(0.0, 0.0, 1.0))
    ensures StripeColor(s, 3) == Some(Color(1.0, 0.0, 0.0))
    ensures StripeColor(s, 4) == None
  {
    StripeCycle(s, 0);
    StripeCycle(s, 1);
  }

  /**
   * `paint_zebra`: a stripe one line high under the cursor `y`, across the
   * canvas, in the colour of the current line, unless that colour is empty.
   * The saved and restored graphics state around it is recorded as one event.
   */
  function PaintZebra(s: Settings, t: Driver, y: real): (r: Doc)
    ensures r.(log := t.doc.log) == t.doc
    ensures StripeColor(s, t.lineNr).None? ==> r.log == t.doc.log
    ensures StripeColor(s, t.lineNr).Some? ==>
              r.log == t.doc.log + [Stripe(s.margins.left, y - t.lineHeight, CanvasWidth(s.page, s.margins),
                                           t.lineHeight, StripeColor(s, t.lineNr).value)]
  {
    match StripeColor(s, t.lineNr)
    case None => t.doc
    case Some(col) =>
      Emit(t.doc, Stripe(s.margins.left, y - t.lineHeight, CanvasWidth(s.page, s.margins), t.lineHeight, col))
  }

  // ---------------------------------------------------------------------
  // The driver's callbacks

  /**
   * `on_line_end`: end the text of the line, or paint the stripe of a line
   * that had no text, then count the line and move the cursor down one line.
   */
  function OnLineEnd(s: Settings, t: Driver): (r: Driver)
    ensures r.lineNr == t.lineNr + 1 && !r.textOpen
    ensures r.firstTime == t.firstTime && r.styleColors == t.styleColors
    ensures r.doc.y == t.doc.y - t.lineHeight && r.lineHeight == t.lineHeight
    ensures r.doc.pageNr == t.doc.pageNr && r.doc.isOpen == t.doc.isOpen && r.doc.tiles == t.doc.tiles
  {
    var d := if t.textOpen then Emit(t.doc, TextEnd) else PaintZebra(s, t, t.doc.y);
    t.(doc := d.(y := d.y - t.lineHeight), lineNr := t.lineNr + 1, textOpen := false)
  }

  /**
   * The start of `on_text` when no line is being written: the stripe of the
   * line, a text object whose baseline sits one font height (less the font's
   * descent) below the cursor, and the input's bookmark the first time.
   */
  function BeginText(s: Settings, t: Driver): (r: Driver)
    ensures t.textOpen ==> r == t
    ensures r.textOpen && (!t.textOpen ==> !r.firstTime)
    ensures r.lineNr == t.lineNr && r.styleColors == t.styleColors
    ensures r.doc.y == t.doc.y && r.doc.pageNr == t.doc.pageNr
    ensures r.doc.isOpen == t.doc.isOpen && r.doc.tiles == t.doc.tiles
  {
    if t.textOpen then t
    else t.(doc := LineStart(s, t), textOpen := true, firstTime := false)
  }

  /** What starting a line records: the stripe, the text object at the baseline, then the pending bookmark. */
  function LineStart(s: Settings, t: Driver): (r: Doc)
    ensures r.y == t.doc.y && r.pageNr == t.doc.pageNr && r.isOpen == t.doc.isOpen && r.tiles == t.doc.tiles
  {
    var d2 := OpenText(s, t);
    if t.firstTime then PlaceBookmark(s, d2) else d2
  }

  /** The stripe behind the line, then the text object at the line's baseline. */
  function OpenText(s: Settings, t: Driver): (r: Doc)
    ensures r.y == t.doc.y && r.pageNr == t.doc.pageNr && r.isOpen == t.doc.isOpen && r.tiles == t.doc.tiles
    ensures |r.log| > 0 && r.log[|r.log| - 1] == TextStart(s.margins.left, t.doc.y - s.fontHeight - s.fontBboxYmin)
  {
    Emit(PaintZebra(s, t, t.doc.y), TextStart(s.margins.left, t.doc.y - s.fontHeight - s.fontBboxYmin))
  }

  /** `on_text` without a token: the text is written on the current line. */
  function WriteText(s: Settings, t: Driver, text: string): (r: Driver)
    ensures r.textOpen && r.lineNr == t.lineNr && r.styleColors == t.styleColors
    ensures !t.textOpen ==> !r.firstTime
    ensures t.textOpen ==> r.firstTime == t.firstTime
    ensures r.doc.y == t.doc.y && r.doc.pageNr == t.doc.pageNr
    ensures r.doc.isOpen == t.doc.isOpen && r.doc.tiles == t.doc.tiles
    ensures |r.doc.log| > 0 && r.doc.log[|r.doc.log| - 1] == ShowText(text)
  {
    var b := BeginText(s, t);
    b.(doc := Emit(b.doc, ShowText(text)))
  }

  /**
   * The colour of a syntax token: the one found before, or the style's
   * colour for it, or the text colour when the style gives none. A style
   * colour that is not hexadecimal makes `parse_color` raise its
   * OptionValueError here, while the document is written and outside the
   * option parser, so nothing catches it.
   * `style` maps a token to its colour in the style, `""` for none.
   */
  function TokenColor(s: Settings, t: Driver, token: string, style: string -> string): (r: Result<Color>)
    ensures token in t.styleColors ==> r == Ok(t.styleColors[token])
    ensures token !in t.styleColors && style(token) == "" ==> r == Ok(s.fontColor)
    ensures token !in t.styleColors && style(token) != "" ==>
              (r.Ok? <==> ParseColor(style(token)).Ok?)
              && (r.Ok? ==> ParseColor(style(token)) == Ok(Some(r.value)))
    ensures r.Err? ==> r.error == Uncaught("OptionValueError")
  {
    if token in t.styleColors then Ok(t.styleColors[token])
    else
      var c := style(token);
      if c == "" then Ok(s.fontColor)
      else
        match ParseColor(c)
        case Err(_) => Err(Uncaught("OptionValueError"))
        case Ok(col) => Ok(col.value)
  }

  /**
   * `on_text`: begin the line if needed; for a token, set the fill colour
   * to the token's colour and remember it; then write the text.
   */
  function OnText(s: Settings, t: Driver, text: string, token: Option<string>, style: string -> string): (r: Result<Driver>)
    ensures token.None? ==> r == Ok(WriteText(s, t, text))
    ensures r.Err? <==> token.Some? && TokenColor(s, BeginText(s, t), token.value, style).Err?
    ensures r.Ok? && token.Some? ==>
              && token.value in r.value.styleColors
              && |r.value.doc.log| >= 2 && r.value.doc.log[|r.value.doc.log| - 2] == TextColor(r.value.styleColors[token.value])
    ensures r.Ok? && token.Some? ==>
              && r.value.styleColors[token.value] == TokenColor(s, BeginText(s, t), token.value, style).value
              && r.value.doc.log[|r.value.doc.log| - 1] == ShowText(text)
  {
    var b := BeginText(s, t);
    if token.None? then Ok(WriteText(s, t, text))
    else
      match TokenColor(s, b, token.value, style)
      case Err(e) => Err(e)
      case Ok(col) =>
        Ok(b.(doc := Emit(Emit(b.doc, TextColor(col)), ShowText(text)),
              styleColors := b.styleColors[token.value := col]))
  }

  /** `on_next_page`: end an unfinished line, start the next page, and count lines from 0 again. */
  function OnNextPage(s: Settings, t: Driver): (r: Driver)
    ensures r.lineNr == 0 && !r.textOpen
    ensures r.firstTime == t.firstTime && r.styleColors == t.styleColors
    ensures r.doc.y == TopY(s.page, s.margins) && r.doc.tiles == t.doc.tiles && r.lineHeight == t.lineHeight
  {
    var t1 := if t.textOpen then OnLineEnd(s, t) else t;
    t1.(doc := NextPage(s, t1.doc), lineNr := 0)
  }

  // ---------------------------------------------------------------------
  // Lines

  /** The form feed character, which starts a new page in a text input. */
  const FormFeed: char := 12 as char

  /** Start a new page unless one more line fits below the cursor. */
  function FitLine(s: Settings, t: Driver): (r: Driver)
  {
    if EnoughSpace(t.doc.y, t.lineHeight, s.margins) then t else OnNextPage(s, t)
  }

  /** One form-feed-free piece of a line: if it is not empty, its text without trailing whitespace is written as one line. */
  function ShowSpan(s: Settings, t: Driver, span: string): (r: Driver)
  {
    if span == "" then t else OnLineEnd(s, WriteText(s, FitLine(s, t), RStrip(span)))
  }

  /** The pieces of a line between form feeds, each form feed starting a new page. */
  function ShowSpans(s: Settings, t: Driver, spans: seq<string>): (r: Driver)
    ensures r.lineHeight == t.lineHeight
    decreases |spans|
  {
    if spans == [] then t
    else
      var t1 := ShowSpan(s, t, spans[0]);
      if |spans| == 1 then t1 else ShowSpans(s, OnNextPage(s, t1), spans[1..])
  }

  /** One line as `readlines` returns it, split at its form feeds. */
  function LineStep(s: Settings, t: Driver, line: string): (r: Driver)
    ensures r.lineHeight == t.lineHeight
  {
    ShowSpans(s, t, Split(line, FormFeed))
  }

  /** `iter_lines`: the lines of one input in order. */
  function IterLines(s: Settings, t: Driver, lines: seq<string>): (r: Driver)
    ensures r.lineHeight == t.lineHeight
  {
    if lines == [] then t else LineStep(s, IterLines(s, t, lines[..|lines| - 1]), lines[|lines| - 1])
  }

  /** A form feed inside a line ends the text before it and starts a new page for the text after it. */
  lemma FormFeedBreaks(s: Settings, t: Driver, a: string, b: string)
    requires FormFeed !in a && FormFeed !in b
    ensures LineStep(s, t, a + [FormFeed] + b) == ShowSpan(s, OnNextPage(s, ShowSpan(s, t, a)), b)
  {
    assert Split(a + [FormFeed] + b, FormFeed) == [a, b] by {
      assert Join([a, b], [FormFeed]) == a + [FormFeed] + b by {
        assert [a, b][1..] == [b];
      }
      SplitJoin([a, b], FormFeed);
    }
    TwoSpans(s, t, a, b);
  }

  lemma TwoSpans(s: Settings, t: Driver, a: string, b: string)
    ensures ShowSpans(s, t, [a, b]) == ShowSpan(s, OnNextPage(s, ShowSpan(s, t, a)), b)
  {
    assert [a, b][1..] == [b];
  }

  /** A line that is only a form feed writes nothing and is exactly one page break. */
  lemma LoneFormFeed(s: Settings, t: Driver)
    ensures LineStep(s, t, [FormFeed]) == OnNextPage(s, t)
  {
    FormFeedBreaks(s, t, "", "");
    assert "" + [FormFeed] + "" == [FormFeed];
  }

  /** Without N-up, a lone form feed moves the text to the next physical page. */
  lemma LoneFormFeedPlain(s: Settings, t: Driver)
    requires Valid(t.doc) && t.doc.isOpen && !t.textOpen && t.doc.tiles == []
    ensures var r := LineStep(s, t, [FormFeed]);
            r.doc.pageNr == t.doc.pageNr + 1 && r.doc.y == TopY(s.page, s.margins) && r.lineNr == 0
  {
    LoneFormFeed(s, t);
    NextPagePlain(s, t.doc);
  }

  /** Lines are handled one after the other: a run over `a + b` is a run over `a`, then over `b`. */
  lemma {:induction false} IterLinesConcat(s: Settings, t: Driver, a: seq<string>, b: seq<string>)
    ensures IterLines(s, t, a + b) == IterLines(s, IterLines(s, t, a), b)
    decreases |b|
  {
    if b == [] {
      assert a + b == a;
    } else {
      var n := |b| - 1;
      assert (a + b)[..|a + b| - 1] == a + b[..n];
      assert (a + b)[|a + b| - 1] == b[n];
      IterLinesConcat(s, t, a, b[..n]);
    }
  }

  // ---------------------------------------------------------------------
  // What the driver keeps: the paging invariant, and one bookmark per input

  /** An open, well-formed page; a line is only open once the bookmark has been dealt with. */
  predicate Sound(t: Driver) {
    Valid(t.doc) && t.doc.isOpen && (t.textOpen ==> !t.firstTime)
  }

  /** The outline item still owed: one while the bookmark is pending and a template is set. */
  function Pending(s: Settings, t: Driver): nat {
    if t.firstTime && s.bookmark != "" then 1 else 0
  }

  /**
   * A step from `t` to `r` keeps the driver sound, places an outline item
   * exactly when it settles the pending bookmark, and never makes the
   * bookmark pending again.
   */
  predicate Keeps(s: Settings, t: Driver, r: Driver) {
    && Sound(r)
    && Marks(r.doc.log) + Pending(s, r) == Marks(t.doc.log) + Pending(s, t)
    && (!t.firstTime ==> !r.firstTime)
  }

  lemma KeepsTrans(s: Settings, a: Driver, b: Driver, c: Driver)
    requires Keeps(s, a, b) && Keeps(s, b, c)
    ensures Keeps(s, a, c)
  {
  }

  /** A stripe keeps the invariant and adds no outline item. */
  lemma PaintZebraKeeps(s: Settings, t: Driver, y: real)
    requires Valid(t.doc)
    ensures var r := PaintZebra(s, t, y); Valid(r) && Marks(r.log) == Marks(t.doc.log)
  {
    var c := StripeColor(s, t.lineNr);
    if c.Some? {
      var e := Stripe(s.margins.left, y - t.lineHeight, CanvasWidth(s.page, s.margins), t.lineHeight, c.value);
      NeutralKeepsValid(t.doc, e);
      MarksSnoc(t.doc.log, e);
    }
  }

  lemma OnLineEndKeeps(s: Settings, t: Driver)
    requires Sound(t)
    ensures Keeps(s, t, OnLineEnd(s, t))
  {
    if t.textOpen {
      NeutralKeepsValid(t.doc, TextEnd);
      MarksSnoc(t.doc.log, TextEnd);
    } else {
      PaintZebraKeeps(s, t, t.doc.y);
    }
  }

  /** Beginning a line places the pending bookmark, if any, and nothing else in the outline. */
  lemma BeginTextKeeps(s: Settings, t: Driver)
    requires Sound(t)
    ensures Keeps(s, t, BeginText(s, t))
  {
    if !t.textOpen {
      LineStartKeeps(s, t);
      OpenedTextKeeps(s, t, LineStart(s, t));
    }
  }

  /** Starting a line keeps the invariant and adds exactly the pending outline item. */
  lemma LineStartKeeps(s: Settings, t: Driver)
    requires Sound(t)
    ensures var r := LineStart(s, t);
            Valid(r) && r.isOpen && Marks(r.log) == Marks(t.doc.log) + Pending(s, t)
  {
    OpenTextKeeps(s, t);
    SettleBookmark(s, t, OpenText(s, t));
  }

  /** Opening the text object adds no outline item and keeps the document valid. */
  lemma OpenTextKeeps(s: Settings, t: Driver)
    requires Sound(t)
    ensures var r := OpenText(s, t);
            Valid(r) && r.isOpen && Marks(r.log) == Marks(t.doc.log)
  {
    var d1 := PaintZebra(s, t, t.doc.y);
    PaintZebraKeeps(s, t, t.doc.y);
    var e := TextStart(s.margins.left, t.doc.y - s.fontHeight - s.fontBboxYmin);
    NeutralKeepsValid(d1, e);
    MarksSnoc(d1.log, e);
  }

  /** The pending bookmark, if any, goes after what the line start recorded. */
  lemma SettleBookmark(s: Settings, t: Driver, d2: Doc)
    requires Valid(d2) && d2.isOpen && Marks(d2.log) == Marks(t.doc.log)
    ensures var d3 := if t.firstTime then PlaceBookmark(s, d2) else d2;
            Valid(d3) && d3.isOpen && Marks(d3.log) == Marks(t.doc.log) + Pending(s, t)
  {
    if t.firstTime {
      PlaceBookmarkValid(s, d2);
    }
  }

  /** A line opened on a sound document that settled the pending bookmark keeps the driver sound. */
  lemma OpenedTextKeeps(s: Settings, t: Driver, d3: Doc)
    requires Valid(d3) && d3.isOpen && Marks(d3.log) == Marks(t.doc.log) + Pending(s, t)
    ensures Keeps(s, t, t.(doc := d3, textOpen := true, firstTime := false))
  {
  }

  lemma WriteTextKeeps(s: Settings, t: Driver, text: string)
    requires Sound(t)
    ensures Keeps(s, t, WriteText(s, t, text))
  {
    BeginTextKeeps(s, t);
    var b := BeginText(s, t);
    NeutralKeepsValid(b.doc, ShowText(text));
    MarksSnoc(b.doc.log, ShowText(text));
  }

  /** Text with a token keeps the driver sound too, and the token's colour is then known. */
  lemma OnTextKeeps(s: Settings, t: Driver, text: string, token: Option<string>, style: string -> string)
    requires Sound(t) && OnText(s, t, text, token, style).Ok?
    ensures Keeps(s, t, OnText(s, t, text, token, style).value)
    ensures token.Some? ==> token.value in OnText(s, t, text, token, style).value.styleColors
  {
    if token.None? {
      WriteTextKeeps(s, t, text);
    } else {
      BeginTextKeeps(s, t);
      var b := BeginText(s, t);
      var col := TokenColor(s, b, token.value, style).value;
      NeutralKeepsValid(b.doc, TextColor(col));
      MarksSnoc(b.doc.log, TextColor(col));
      var d1 := Emit(b.doc, TextColor(col));
      NeutralKeepsValid(d1, ShowText(text));
      MarksSnoc(d1.log, ShowText(text));
    }
  }

  /** Once a token's colour is known, the style is not asked again: the same token gets the same colour whatever the style says now. */
  lemma TokenColorCached(s: Settings, t: Driver, text: string, token: string, style: string -> string, other: string -> string)
    requires OnText(s, t, text, Some(token), style).Ok?
    ensures var r := OnText(s, t, text, Some(token), style).value;
            TokenColor(s, r, token, other) == Ok(r.styleColors[token])
  {
  }

  lemma OnNextPageKeeps(s: Settings, t: Driver)
    requires Sound(t)
    ensures Keeps(s, t, OnNextPage(s, t))
  {
    var t1 := if t.textOpen then OnLineEnd(s, t) else t;
    if t.textOpen {
      OnLineEndKeeps(s, t);
    }
    NextPageValid(s, t1.doc);
    NextPageMarks(s, t1.doc);
  }

  lemma ShowSpanKeeps(s: Settings, t: Driver, span: string)
    requires Sound(t)
    ensures Keeps(s, t, ShowSpan(s, t, span))
  {
    if span != "" {
      var t1 := FitLine(s, t);
      if !EnoughSpace(t.doc.y, t.lineHeight, s.margins) {
        OnNextPageKeeps(s, t);
      }
      WriteTextKeeps(s, t1, RStrip(span));
      var t2 := WriteText(s, t1, RStrip(span));
      OnLineEndKeeps(s, t2);
      KeepsTrans(s, t1, t2, OnLineEnd(s, t2));
    }
  }

  lemma {:induction false} ShowSpansKeeps(s: Settings, t: Driver, spans: seq<string>)
    requires Sound(t)
    ensures Keeps(s, t, ShowSpans(s, t, spans))
    decreases |spans|
  {
    if spans != [] {
      ShowSpanKeeps(s, t, spans[0]);
      var t1 := ShowSpan(s, t, spans[0]);
      if |spans| > 1 {
        OnNextPageKeeps(s, t1);
        var t2 := OnNextPage(s, t1);
        ShowSpansKeeps(s, t2, spans[1..]);
        KeepsTrans(s, t1, t2, ShowSpans(s, t2, spans[1..]));
        KeepsTrans(s, t, t1, ShowSpans(s, t2, spans[1..]));
      }
    }
  }

  /**
   * Over a whole input the driver keeps the paging invariant and a page
   * open, and the outline gains an item exactly when the bookmark, pending
   * at the start, was placed.
   */
  lemma {:induction false} IterLinesKeeps(s: Settings, t: Driver, lines: seq<string>)
    requires Sound(t)
    ensures Keeps(s, t, IterLines(s, t, lines))
    decreases |lines|
  {
    if lines != [] {
      var init := lines[..|lines| - 1];
      IterLinesKeeps(s, t, init);
      var t1 := IterLines(s, t, init);
      ShowSpansKeeps(s, t1, Split(lines[|lines| - 1], FormFeed));
      KeepsTrans(s, t, t1, IterLines(s, t, lines));
    }
  }

  /** A text input places at most one outline item, and none without a bookmark template. */
  lemma OneBookmarkPerInput(s: Settings, d: Doc, lines: seq<string>)
    requires Valid(d) && d.isOpen
    ensures var r := IterLines(s, NewDriver(s, d), lines);
            && Valid(r.doc) && r.doc.isOpen
            && Marks(r.doc.log) <= Marks(d.log) + 1
            && (s.bookmark == "" ==> Marks(r.doc.log) == Marks(d.log))
            && (s.bookmark != "" && !r.firstTime ==> Marks(r.doc.log) == Marks(d.log) + 1)
  {
    IterLinesKeeps(s, NewDriver(s, d), lines);
  }

  // ---------------------------------------------------------------------
  // The cursor

  /** Lines no taller than the canvas: the cursor never leaves the canvas between lines. */
  predicate LinesFit(s: Settings, t: Driver) {
    0.0 <= t.lineHeight <= CanvasHeight(s.page, s.margins)
  }

  /** Between lines the cursor is on the canvas and no line is open. */
  predicate AtLineStart(s: Settings, t: Driver) {
    InCanvas(s, t.doc.y) && !t.textOpen
  }

  lemma ShowSpanCursor(s: Settings, t: Driver, span: string)
    requires LinesFit(s, t) && AtLineStart(s, t)
    ensures AtLineStart(s, ShowSpan(s, t, span))
  {
  }

  lemma {:induction false} ShowSpansCursor(s: Settings, t: Driver, spans: seq<string>)
    requires LinesFit(s, t) && AtLineStart(s, t)
    ensures AtLineStart(s, ShowSpans(s, t, spans))
    decreases |spans|
  {
    if spans != [] {
      ShowSpanCursor(s, t, spans[0]);
      if |spans| > 1 {
        ShowSpansCursor(s, OnNextPage(s, ShowSpan(s, t, spans[0])), spans[1..]);
      }
    }
  }

  /** Every line is written where it fits: between lines the cursor stays between the margins. */
  lemma {:induction false} IterLinesCursor(s: Settings, t: Driver, lines: seq<string>)
    requires LinesFit(s, t) && AtLineStart(s, t)
    ensures AtLineStart(s, IterLines(s, t, lines))
    decreases |lines|
  {
    if lines != [] {
      IterLinesCursor(s, t, lines[..|lines| - 1]);
      ShowSpansCursor(s, IterLines(s, t, lines[..|lines| - 1]), Split(lines[|lines| - 1], FormFeed));
    }
  }

  // ---------------------------------------------------------------------
  // How many lines a page holds

  /** A line as `readlines` returns it, without form feeds. */
  predicate PlainLine(line: string) {
    line != [] && FormFeed !in line
  }

  /**
   * A line without form feeds on plain paging: it goes below the cursor when
   * it fits, otherwise at the top of the next page, which becomes line 1 of
   * that page.
   */
  lemma PlainLineStep(s: Settings, t: Driver, line: string)
    requires PlainLine(line) && !t.textOpen && t.doc.tiles == []
    ensures var r := LineStep(s, t, line);
            && !r.textOpen && r.doc.tiles == []
            && (EnoughSpace(t.doc.y, t.lineHeight, s.margins) ==>
                  r.doc.y == t.doc.y - t.lineHeight && r.doc.pageNr == t.doc.pageNr && r.lineNr == t.lineNr + 1)
            && (!EnoughSpace(t.doc.y, t.lineHeight, s.margins) ==>
                  r.doc.y == TopY(s.page, s.margins) - t.lineHeight && r.doc.pageNr == t.doc.pageNr + 1
                  && r.lineNr == 1)
  {
    SplitNoSeparator(line, FormFeed);
    assert ShowSpans(s, t, [line]) == ShowSpan(s, t, line);
  }

  /** Every line is plain, as a recursive predicate that follows `IterLines`. */
  predicate AllPlain(lines: seq<string>) {
    lines == [] || (AllPlain(lines[..|lines| - 1]) && PlainLine(lines[|lines| - 1]))
  }

  lemma {:induction false} AllPlainOf(lines: seq<string>)
    requires forall i | 0 <= i < |lines| :: PlainLine(lines[i])
    ensures AllPlain(lines)
    decreases |lines|
  {
    if lines != [] {
      var init := lines[..|lines| - 1];
      assert forall i | 0 <= i < |init| :: init[i] == lines[i];
      AllPlainOf(init);
    }
  }

  /** The number of lines on the last page after `n` lines, `cap` lines fitting on a page. */
  function Filled(n: nat, cap: nat): (j: nat)
    requires cap >= 1
    ensures n >= 1 ==> 1 <= j <= cap
    ensures j <= n
  {
    if n == 0 then 0 else if Filled(n - 1, cap) == cap then 1 else Filled(n - 1, cap) + 1
  }

  /** The number of page breaks after `n` lines, `cap` lines fitting on a page. */
  function Breaks(n: nat, cap: nat): (b: nat)
    requires cap >= 1
  {
    if n == 0 then 0 else Breaks(n - 1, cap) + (if Filled(n - 1, cap) == cap then 1 else 0)
  }

  /** In closed form: the last page holds the lines left over after the full pages, which number `(n - 1) / cap`. */
  lemma {:induction false} FilledClosed(n: nat, cap: nat)
    requires cap >= 1 && n >= 1
    ensures Filled(n, cap) == (n - 1) % cap + 1
    ensures Breaks(n, cap) == (n - 1) / cap
  {
    if n == 1 {
      DivModOf(0, 0, 0, cap);
    } else {
      FilledClosed(n - 1, cap);
      FilledStep(n, cap, (n - 2) / cap, (n - 2) % cap);
    }
  }

  /** One more line, given the line count `r + 1` and the `q` page breaks before it. */
  lemma FilledStep(n: nat, cap: nat, q: nat, r: nat)
    requires cap >= 1 && n >= 2 && n - 2 == q * cap + r && r < cap
    requires Filled(n - 1, cap) == r + 1 && Breaks(n - 1, cap) == q
    ensures Filled(n, cap) == (n - 1) % cap + 1
    ensures Breaks(n, cap) == (n - 1) / cap
  {
    if r + 1 < cap {
      DivModOf(n - 1, q, r + 1, cap);
    } else {
      DivModOf(n - 1, q + 1, 0, cap);
    }
  }

  /** The height of `j` lines of height `lh`, stacked one below the other. */
  function Depth(j: nat, lh: real): real {
    if j == 0 then 0.0 else Depth(j - 1, lh) + lh
  }

  lemma {:induction false} DepthMono(i: nat, j: nat, lh: real)
    requires i <= j && lh >= 0.0
    ensures Depth(i, lh) <= Depth(j, lh)
    decreases j
  {
    if i < j {
      DepthMono(i, j - 1, lh);
    }
  }

  lemma {:induction false} DepthIsProduct(j: nat, lh: real)
    ensures Depth(j, lh) == j as real * lh
  {
    if j > 0 {
      DepthIsProduct(j - 1, lh);
      assert j as real * lh == (j - 1) as real * lh + lh;
    }
  }

  /** One plain line after `j` lines on the page, in terms of `j`. */
  lemma LayoutStep(s: Settings, t: Driver, line: string, cap: nat, lh: real, j: nat)
    requires PlainLine(line) && !t.textOpen && t.doc.tiles == []
    requires t.lineHeight == lh && lh > 0.0 && cap >= 1 && j <= cap && t.lineNr == j
    requires TopY(s.page, s.margins) - Depth(cap, lh) >= s.margins.bottom
    requires TopY(s.page, s.margins) - Depth(cap + 1, lh) < s.margins.bottom
    requires t.doc.y == TopY(s.page, s.margins) - Depth(j, lh)
    ensures var r := LineStep(s, t, line);
            && !r.textOpen && r.doc.tiles == []
            && (j < cap ==> r.lineNr == j + 1 && r.doc.pageNr == t.doc.pageNr
                            && r.doc.y == TopY(s.page, s.margins) - Depth(j + 1, lh))
            && (j == cap ==> r.lineNr == 1 && r.doc.pageNr == t.doc.pageNr + 1
                             && r.doc.y == TopY(s.page, s.margins) - Depth(1, lh))
  {
    PlainLineStep(s, t, line);
    assert Depth(j + 1, lh) == Depth(j, lh) + lh;
    assert Depth(1, lh) == lh;
    if j < cap {
      DepthMono(j + 1, cap, lh);
    }
  }

  /** The layout after one more plain line, from the layout before it. */
  lemma LayoutSnoc(s: Settings, t: Driver, lines: seq<string>, cap: nat, lh: real)
    requires lines != [] && PlainLine(lines[|lines| - 1])
    requires t.lineHeight == lh && lh > 0.0 && cap >= 1
    requires TopY(s.page, s.margins) - Depth(cap, lh) >= s.margins.bottom
    requires TopY(s.page, s.margins) - Depth(cap + 1, lh) < s.margins.bottom
    requires var r := IterLines(s, t, lines[..|lines| - 1]);
            && !r.textOpen && r.doc.tiles == []
            && r.lineNr == Filled(|lines| - 1, cap)
            && r.doc.y == TopY(s.page, s.margins) - Depth(Filled(|lines| - 1, cap), lh)
            && r.doc.pageNr == t.doc.pageNr + Breaks(|lines| - 1, cap)
    ensures var r := IterLines(s, t, lines);
            && !r.textOpen && r.doc.tiles == []
            && r.lineNr == Filled(|lines|, cap)
            && r.doc.pageNr == t.doc.pageNr + Breaks(|lines|, cap)
            && r.doc.y == TopY(s.page, s.margins) - Depth(Filled(|lines|, cap), lh)
  {
    var n := |lines| - 1;
    var prev := IterLines(s, t, lines[..n]);
    var j := Filled(n, cap);
    assert IterLines(s, t, lines) == LineStep(s, prev, lines[n]);
    assert Filled(n + 1, cap) == (if j == cap then 1 else j + 1);
    assert Breaks(n + 1, cap) == Breaks(n, cap) + (if j == cap then 1 else 0);
    LayoutStep(s, prev, lines[n], cap, lh, j);
  }

  /**
   * On plain paging, with `cap` lines fitting between the margins, `n` lines
   * from the top of a page fill `Breaks(n, cap)` pages and leave
   * `Filled(n, cap)` lines on the last one, where the cursor stands below
   * them; the line count of the page, which picks the zebra colour, equals
   * that number.
   */
  lemma {:induction false} PlainLayout(s: Settings, t: Driver, lines: seq<string>, cap: nat, lh: real)
    requires AllPlain(lines)
    requires !t.textOpen && t.doc.tiles == [] && t.doc.y == TopY(s.page, s.margins) && t.lineNr == 0
    requires t.lineHeight == lh && lh > 0.0 && cap >= 1
    requires TopY(s.page, s.margins) - Depth(cap, lh) >= s.margins.bottom
    requires TopY(s.page, s.margins) - Depth(cap + 1, lh) < s.margins.bottom
    ensures var r := IterLines(s, t, lines);
            && !r.textOpen && r.doc.tiles == []
            && r.lineNr == Filled(|lines|, cap)
            && r.doc.pageNr == t.doc.pageNr + Breaks(|lines|, cap)
            && r.doc.y == TopY(s.page, s.margins) - Depth(Filled(|lines|, cap), lh)
    decreases |lines|
  {
    if lines != [] {
      var n := |lines| - 1;
      var init := lines[..n];
      PlainLayout(s, t, init, cap, lh);
      LayoutSnoc(s, t, lines, cap, lh);
    }
  }

  /**
   * On a Letter page with one-inch margins and a 12-point font, a page
   * holds 54 lines: the 54th ends on the bottom margin, the 55th starts the
   * second page, and after 100 lines the cursor stands 46 lines down the
   * second page, at 168 points.
   */
  lemma LetterPageLines(s: Settings, lines: seq<string>)
    requires s.page == PageSize(612.0, 792.0) && s.margins == Margins(72.0, 72.0, 72.0, 72.0)
    requires s.fontHeight == 12.0 && s.lineSpacing == 0.0 && s.nup == 0
    requires forall i | 0 <= i < |lines| :: PlainLine(lines[i])
    ensures var r := IterLines(s, NewDriver(s, NewDoc(s)), lines);
            && (|lines| == 54 ==> r.doc.pageNr == 0 && r.doc.y == 72.0)
            && (|lines| == 55 ==> r.doc.pageNr == 1 && r.doc.y == 708.0)
            && (|lines| == 100 ==> r.doc.pageNr == 1 && r.doc.y == 168.0 && r.lineNr == 46)
  {
    LetterStart(s);
    LetterLayout(s, NewDriver(s, NewDoc(s)), lines);
  }

  /** Plain lines from the top of the Letter canvas, whatever driver starts there. */
  lemma LetterLayout(s: Settings, t: Driver, lines: seq<string>)
    requires TopY(s.page, s.margins) == 720.0 && s.margins.bottom == 72.0 && t.lineHeight == 12.0
    requires !t.textOpen && t.doc.tiles == [] && t.doc.y == 720.0 && t.lineNr == 0 && t.doc.pageNr == 0
    requires 720.0 - Depth(54, 12.0) >= 72.0 && 720.0 - Depth(55, 12.0) < 72.0
    requires forall i | 0 <= i < |lines| :: PlainLine(lines[i])
    ensures var r := IterLines(s, t, lines);
            && (|lines| == 54 ==> r.doc.pageNr == 0 && r.doc.y == 72.0)
            && (|lines| == 55 ==> r.doc.pageNr == 1 && r.doc.y == 708.0)
            && (|lines| == 100 ==> r.doc.pageNr == 1 && r.doc.y == 168.0 && r.lineNr == 46)
  {
    AllPlainOf(lines);
    PlainLayout(s, t, lines, 54, 12.0);
    LetterEnd(IterLines(s, t, lines), |lines|);
  }

  /** A fresh driver on the Letter page: top of the canvas at 720 points, 12-point lines, 54 of them per page. */
  lemma LetterStart(s: Settings)
    requires s.page == PageSize(612.0, 792.0) && s.margins == Margins(72.0, 72.0, 72.0, 72.0)
    requires s.fontHeight == 12.0 && s.lineSpacing == 0.0 && s.nup == 0
    ensures var t := NewDriver(s, NewDoc(s));
            && TopY(s.page, s.margins) == 720.0 && t.lineHeight == 12.0
            && !t.textOpen && t.doc.tiles == [] && t.doc.y == 720.0 && t.lineNr == 0 && t.doc.pageNr == 0
            && 720.0 - Depth(54, 12.0) >= 72.0 && 720.0 - Depth(55, 12.0) < 72.0
  {
    assert LineHeight(s) == 12.0;
    DepthIsProduct(54, 12.0);
    DepthIsProduct(55, 12.0);
  }

  /** The layout after `n` lines, read off for 54, 55 and 100 lines. */
  lemma LetterEnd(r: Driver, n: nat)
    requires r.lineNr == Filled(n, 54) && r.doc.pageNr == 0 + Breaks(n, 54)
    requires r.doc.y == 720.0 - Depth(Filled(n, 54), 12.0)
    ensures n == 54 ==> r.doc.pageNr == 0 && r.doc.y == 72.0
    ensures n == 55 ==> r.doc.pageNr == 1 && r.doc.y == 708.0
    ensures n == 100 ==> r.doc.pageNr == 1 && r.doc.y == 168.0 && r.lineNr == 46
  {
    LetterCounts(n);
  }

  /** The closed forms for 54 lines per page of 12 points below a canvas top at 720 points. */
  lemma LetterCounts(n: nat)
    ensures n == 54 ==> Breaks(n, 54) == 0 && 720.0 - Depth(Filled(n, 54), 12.0) == 72.0
    ensures n == 55 ==> Breaks(n, 54) == 1 && 720.0 - Depth(Filled(n, 54), 12.0) == 708.0
    ensures n == 100 ==> Breaks(n, 54) == 1 && 720.0 - Depth(Filled(n, 54), 12.0) == 168.0 && Filled(n, 54) == 46
  {
    if n == 54 {
      FilledClosed(54, 54);
      DepthIsProduct(54, 12.0);
    } else if n == 55 {
      FilledClosed(55, 54);
      DepthIsProduct(1, 12.0);
    } else if n == 100 {
      FilledClosed(100, 54);
      DepthIsProduct(46, 12.0);
    }
  }
}
