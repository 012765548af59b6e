/**
 * The page life cycle: plain paging (`Paging`) and its N-up refinement
 * (`NupPaging`), over one immutable document state. Drawing calls into the
 * PDF library are recorded as events in a log; the bookkeeping that matters
 * (pages opened and closed, graphics-state nesting) is read off that log.
 */
module Paging {
  import opened Geometry
  import opened NUp
  import opened Config

  /** What the layout engine asks the PDF library to do, in order. */
  datatype Event =
    /** `doc.page_start(width, height)` followed by the per-page state set-up */
    | PageOpened(size: PageSize)
    /** `doc.page_end()` */
    | PageClosed
    /** `canvas.state_save()` */
    | Save
    /** `canvas.state_restore()` */
    | Restore
    /** `canvas.transform(a, b, c, d, e, f)` */
    | Transform(m: Matrix)
    /** a filled zebra stripe, drawn inside its own saved graphics state */
    | Stripe(x: real, y: real, width: real, height: real, color: Color)
    /** `canvas.text_start(x, baseline)` */
    | TextStart(x: real, baseline: real)
    /** `canvas.color("f", r, g, b)` inside a text object */
    | TextColor(color: Color)
    /** `canvas.text(s)` */
    | ShowText(text: string)
    /** `canvas.text_end()` */
    | TextEnd
    /** an outline item with destination `mode=XYZ; top=<top>` */
    | Bookmark(title: string, top: real)
    /** an image drawn with its lower-left corner at (x, y), scaled by `scale` */
    | Image(x: real, y: real, scale: real)

  /** Pages opened and closed so far, and the graphics-state nesting depth (-1 once a restore had no save). */
  datatype Tally = Tally(starts: nat, ends: nat, depth: int)

  function Step(t: Tally, e: Event): Tally {
    match e
    case PageOpened(_) => t.(starts := t.starts + 1)
    case PageClosed => t.(ends := t.ends + 1)
    case Save => if t.depth < 0 then t else t.(depth := t.depth + 1)
    case Restore => if t.depth < 0 then t else t.(depth := t.depth - 1)
    case _ => t
  }

  function TallyOf(log: seq<Event>): Tally {
    if log == [] then Tally(0, 0, 0) else Step(TallyOf(log[..|log| - 1]), log[|log| - 1])
  }

  lemma TallySnoc(log: seq<Event>, e: Event)
    ensures TallyOf(log + [e]) == Step(TallyOf(log), e)
  {
    assert (log + [e])[..|log|] == log;
  }

  /** The number of outline items in a log. */
  function Marks(log: seq<Event>): nat {
    if log == [] then 0 else Marks(log[..|log| - 1]) + (if log[|log| - 1].Bookmark? then 1 else 0)
  }

  lemma MarksSnoc(log: seq<Event>, e: Event)
    ensures Marks(log + [e]) == Marks(log) + (if e.Bookmark? then 1 else 0)
  {
    assert (log + [e])[..|log|] == log;
  }

  /** Events that leave the page and graphics-state bookkeeping alone. */
  predicate Neutral(e: Event) {
    !(e.PageOpened? || e.PageClosed? || e.Save? || e.Restore?)
  }

  /**
   * The document state: the cursor `y` (distance of the write position from
   * the bottom edge), the physical page count, whether a physical page is
   * open, the logical page count and tiles of N-up imposition (no tiles for
   * plain paging), and the log of library calls.
   */
  datatype Doc = Doc(y: real, pageNr: nat, isOpen: bool, logical: nat, tiles: seq<Matrix>, log: seq<Event>)

  function Emit(d: Doc, e: Event): (r: Doc)
    ensures r.log == d.log + [e] && r.log[..|d.log|] == d.log
    ensures r.(log := d.log) == d
  {
    d.(log := d.log + [e])
  }

  /**
   * The bookkeeping invariant: every open page was opened once and closed
   * once, `pageNr` counts the closed pages, no restore ever lacked its save,
   * and in N-up mode one graphics state (the tile's transformation) is saved
   * while a page is open, and the physical page count is the logical count
   * divided by the number of tiles (rounded up once the document is closed).
   */
  predicate Valid(d: Doc) {
    var t := TallyOf(d.log);
    && t.ends == d.pageNr
    && t.starts == d.pageNr + (if d.isOpen then 1 else 0)
    && (d.tiles == [] ==> t.depth == 0 && d.logical == 0)
    && (d.tiles != [] ==>
          && (d.isOpen ==> t.depth == 1 && d.pageNr == d.logical / |d.tiles|)
          && (!d.isOpen ==> t.depth == 0 && d.pageNr == (d.logical + |d.tiles| - 1) / |d.tiles|))
  }

  /** Appending an event that is not a page or graphics-state call keeps the invariant. */
  lemma NeutralKeepsValid(d: Doc, e: Event)
    requires Valid(d) && Neutral(e)
    ensures Valid(Emit(d, e))
  {
    TallySnoc(d.log, e);
  }

  /** The same after moving the cursor first: the invariant does not read the cursor. */
  lemma MovedNeutralKeepsValid(d: Doc, y: real, e: Event)
    requires Valid(d) && Neutral(e)
    ensures Valid(Emit(d.(y := y), e))
  {
    TallySnoc(d.log, e);
  }

  /** `Paging.set_page_topleft_y` */
  function SetTop(s: Settings, d: Doc): (r: Doc)
    ensures r.y == TopY(s.page, s.margins) && r.(y := d.y) == d
  {
    d.(y := TopY(s.page, s.margins))
  }

  /** `Paging.page_start`: a new physical page, the cursor at the top of the canvas. */
  function PlainPageStart(s: Settings, d: Doc): (r: Doc)
    ensures r.isOpen && r.y == TopY(s.page, s.margins) && r.pageNr == d.pageNr
    ensures r.log == d.log + [PageOpened(s.page)]
    ensures r.logical == d.logical && r.tiles == d.tiles
  {
    Emit(SetTop(s, d), PageOpened(s.page)).(isOpen := true)
  }

  /** `Paging.page_end`: the physical page is closed and counted. */
  function PlainPageEnd(d: Doc): (r: Doc)
    ensures !r.isOpen && r.pageNr == d.pageNr + 1
    ensures r.log == d.log + [PageClosed]
    ensures r.y == d.y && r.logical == d.logical && r.tiles == d.tiles
  {
    Emit(d, PageClosed).(isOpen := false, pageNr := d.pageNr + 1)
  }

  /**
   * `page_start` as dispatched on the paging object: plain paging opens a
   * physical page; N-up paging does so only for tile 0, otherwise it undoes
   * the state saved by the previous `page_end` and moves the cursor back to
   * the top; either way it then saves the state and applies the tile's
   * transformation.
   */
  function PageStart(s: Settings, d: Doc): (r: Doc)
    ensures r.y == TopY(s.page, s.margins) && r.pageNr == d.pageNr
    ensures r.logical == d.logical && r.tiles == d.tiles
    ensures d.tiles == [] || d.logical % |d.tiles| == 0 ==> r.isOpen
    ensures |r.log| > |d.log| && r.log[..|d.log|] == d.log
  {
    if d.tiles == [] then PlainPageStart(s, d)
    else
      var i := d.logical % |d.tiles|;
      var d1 := if i == 0 then PlainPageStart(s, d) else SetTop(s, Emit(d, Restore));
      var r := Emit(Emit(d1, Save), Transform(d.tiles[i]));
      assert r.log[..|d.log|] == d.log by {
        assert r.log == d1.log + [Save] + [Transform(d.tiles[i])];
        assert d1.log[..|d.log|] == d.log;
      }
      r
  }

  /**
   * `page_end` as dispatched on the paging object: plain paging closes the
   * physical page; N-up paging restores the state, counts the logical page,
   * and closes the physical page only when all tiles are used, otherwise it
   * saves a fresh state for the next tile.
   */
  function PageEnd(d: Doc): (r: Doc)
    ensures d.tiles == [] ==> r.pageNr == d.pageNr + 1 && !r.isOpen && r.logical == d.logical
    ensures d.tiles != [] ==>
      && r.logical == d.logical + 1
      && r.pageNr == d.pageNr + (if r.logical % |d.tiles| == 0 then 1 else 0)
      && (r.isOpen <==> d.isOpen && r.logical % |d.tiles| != 0)
    ensures r.y == d.y && r.tiles == d.tiles
  {
    if d.tiles == [] then PlainPageEnd(d)
    else
      var d1 := Emit(d, Restore).(logical := d.logical + 1);

      if d1.logical % |d.tiles| == 0 then PlainPageEnd(d1) else Emit(d1, Save)
  }

  /** `next_page`: end the current page and start the next one. */
  function NextPage(s: Settings, d: Doc): (r: Doc)
    ensures r.y == TopY(s.page, s.margins) && r.tiles == d.tiles
  {
    PageStart(s, PageEnd(d))
  }

  /**
   * `finalize` as the source runs it: close the page if one is open. In N-up
   * mode this dispatches to the N-up `page_end`, which leaves a partly
   * filled physical page open.
   */
  function FinalizeAsWritten(d: Doc): (r: Doc)
    ensures !d.isOpen ==> r == d
    ensures d.tiles == [] ==> !r.isOpen
  {
    if d.isOpen then PageEnd(d) else d
  }

  /**
   * `finalize` as intended: close the open page, and in N-up mode end the
   * current logical page and close its physical page whatever tile it uses.
   */
  function Finalize(d: Doc): (r: Doc)
    ensures !r.isOpen
    ensures !d.isOpen ==> r == d
    ensures d.isOpen ==> r.pageNr == d.pageNr + 1
    ensures d.isOpen && d.tiles != [] ==> r.logical == d.logical + 1
  {
    if !d.isOpen then d
    else if d.tiles == [] then PlainPageEnd(d)
    else PlainPageEnd(Emit(d, Restore).(logical := d.logical + 1))
  }

  /**
   * The paging object as the document context creates it: N-up paging with
   * the tiles of `nup_matrices` when the `--n-up` power is non-zero, plain
   * paging otherwise, with the first page already started.
   */
  function NewDoc(s: Settings): (d: Doc)
    ensures d.pageNr == 0 && d.isOpen && d.logical == 0
    ensures d.y == TopY(s.page, s.margins)
    ensures s.nup == 0 <==> d.tiles == []
    ensures s.nup > 0 ==> d.tiles == NupMatrices(s.nup, s.page.width, s.page.height, s.nupScale)
  {
    var tiles := if s.nup == 0 then [] else NupMatrices(s.nup, s.page.width, s.page.height, s.nupScale);
    PageStart(s, Doc(0.0, 0, false, 0, tiles, []))
  }

  // ---------------------------------------------------------------------
  // The invariant and what the life cycle guarantees

  lemma NewDocValid(s: Settings)
    ensures Valid(NewDoc(s))
    ensures s.nup == 0 ==> NewDoc(s).log == [PageOpened(s.page)]
  {
    var d := NewDoc(s);
    TallySnoc([], PageOpened(s.page));
    if s.nup > 0 {
      var tiles := NupMatrices(s.nup, s.page.width, s.page.height, s.nupScale);
      assert |tiles| >= 2 by { PowAtLeastTwo(s.nup); }
      TallySnoc([PageOpened(s.page)], Save);
      TallySnoc([PageOpened(s.page), Save], Transform(tiles[0]));
      assert d.log == [PageOpened(s.page), Save, Transform(tiles[0])];
    }
  }

  lemma PowAtLeastTwo(n: nat)
    requires n >= 1
    ensures Pow2(n) >= 2
  {
  }

  /** In plain paging `next_page` closes the page, opens the next one, and keeps the invariant. */
  lemma NextPagePlain(s: Settings, d: Doc)
    requires Valid(d) && d.isOpen && d.tiles == []
    ensures var r := NextPage(s, d);
            && Valid(r) && r.isOpen
            && r.pageNr == d.pageNr + 1
            && r.y == TopY(s.page, s.margins)
            && r.log == d.log + [PageClosed, PageOpened(s.page)]
  {
    var e := PageEnd(d);
    TallySnoc(d.log, PageClosed);
    TallySnoc(e.log, PageOpened(s.page));
  }

  /**
   * In N-up paging `next_page` moves to the next tile: it counts one logical
   * page, closes the physical page exactly when the logical count reaches a
   * multiple of the tile count, and keeps the invariant.
   */
  lemma NextPageNup(s: Settings, d: Doc)
    requires Valid(d) && d.isOpen && d.tiles != []
    ensures var r := NextPage(s, d);
            && Valid(r) && r.isOpen
            && r.logical == d.logical + 1
            && r.pageNr == r.logical / |d.tiles|
            && (r.pageNr == d.pageNr + 1 <==> r.logical % |d.tiles| == 0)
            && (r.pageNr == d.pageNr <==> r.logical % |d.tiles| != 0)
            && r.y == TopY(s.page, s.margins)
  {
    var n := |d.tiles|;
    var e := PageEnd(d);
    var d1 := Emit(d, Restore).(logical := d.logical + 1);
    TallySnoc(d.log, Restore);
    assert TallyOf(d1.log).depth == 0;
    QuotientStep(d.logical, n);
    if d1.logical % n == 0 {
      TallySnoc(d1.log, PageClosed);
      assert Valid(e);
      NupStartFresh(s, e);
    } else {
      TallySnoc(d1.log, Save);
      assert TallyOf(e.log) == Tally(d.pageNr + 1, d.pageNr, 1);
      NupStartNext(s, e);
    }
  }

  /** Either way, `next_page` on an open page keeps the invariant, leaves a page open and only adds to the log. */
  lemma NextPageValid(s: Settings, d: Doc)
    requires Valid(d) && d.isOpen
    ensures var r := NextPage(s, d);
            && Valid(r) && r.isOpen && r.y == TopY(s.page, s.margins)
            && r.pageNr >= d.pageNr && r.tiles == d.tiles
  {
    if d.tiles == [] {
      NextPagePlain(s, d);
    } else {
      NextPageNup(s, d);
    }
  }

  /** `next_page` adds no outline item. */
  lemma NextPageMarks(s: Settings, d: Doc)
    ensures Marks(NextPage(s, d).log) == Marks(d.log)
  {
    var e := PageEnd(d);
    if d.tiles == [] {
      MarksSnoc(d.log, PageClosed);
    } else {
      var d1 := Emit(d, Restore).(logical := d.logical + 1);
      MarksSnoc(d.log, Restore);
      MarksSnoc(d1.log, PageClosed);
      MarksSnoc(d1.log, Save);
    }
    PageStartMarks(s, e);
  }

  lemma PageStartMarks(s: Settings, d: Doc)
    ensures Marks(PageStart(s, d).log) == Marks(d.log)
  {
    MarksSnoc(d.log, PageOpened(s.page));
    if d.tiles != [] {
      var i := d.logical % |d.tiles|;
      MarksSnoc(d.log, Restore);
      var d1 := if i == 0 then PlainPageStart(s, d) else SetTop(s, Emit(d, Restore));
      MarksSnoc(d1.log, Save);
      MarksSnoc(d1.log + [Save], Transform(d.tiles[i]));
    }
  }

  /** One more logical page adds one physical page exactly when the count reaches a multiple of n. */
  lemma QuotientStep(k: nat, n: nat)
    requires n >= 1
    ensures (k + 1) % n == 0 ==> (k + 1) / n == k / n + 1
    ensures (k + 1) % n != 0 ==> (k + 1) / n == k / n
    ensures (k + 1) % n == 0 ==> (k + n) / n == (k + 1) / n
  {
    var q, r := k / n, k % n;
    if r + 1 == n {
      DivModOf(k + 1, q + 1, 0, n);
      DivModOf(k + n, q + 1, r, n);
    } else {
      DivModOf(k + 1, q, r + 1, n);
    }
  }

  /** `page_start` on a closed N-up document at tile 0 opens a physical page. */
  lemma NupStartFresh(s: Settings, e: Doc)
    requires e.tiles != [] && !e.isOpen && e.logical % |e.tiles| == 0
    requires TallyOf(e.log) == Tally(e.pageNr, e.pageNr, 0)
    requires e.pageNr == e.logical / |e.tiles|
    ensures Valid(PageStart(s, e)) && PageStart(s, e).isOpen
  {
    var p := PlainPageStart(s, e);
    TallySnoc(e.log, PageOpened(s.page));
    TallySnoc(p.log, Save);
    TallySnoc(p.log + [Save], Transform(e.tiles[0]));
    assert PageStart(s, e).log == p.log + [Save] + [Transform(e.tiles[0])];
  }

  /** `page_start` on an open N-up document at a later tile re-uses the physical page. */
  lemma NupStartNext(s: Settings, e: Doc)
    requires e.tiles != [] && e.isOpen && e.logical % |e.tiles| != 0
    requires TallyOf(e.log) == Tally(e.pageNr + 1, e.pageNr, 1)
    requires e.pageNr == e.logical / |e.tiles|
    ensures Valid(PageStart(s, e)) && PageStart(s, e).isOpen
  {
    var i := e.logical % |e.tiles|;
    var d1 := SetTop(s, Emit(e, Restore));
    TallySnoc(e.log, Restore);
    TallySnoc(d1.log, Save);
    TallySnoc(d1.log + [Save], Transform(e.tiles[i]));
    assert PageStart(s, e).log == d1.log + [Save] + [Transform(e.tiles[i])];
  }

  /** `count` calls of `next_page` in a row. */
  function NextPages(s: Settings, d: Doc, count: nat): (r: Doc)
    ensures r.tiles == d.tiles
  {
    if count == 0 then d else NextPage(s, NextPages(s, d, count - 1))
  }

  /** Plain paging: `count` page breaks add exactly `count` physical pages. */
  lemma {:induction false} NextPagesPlain(s: Settings, d: Doc, count: nat)
    requires Valid(d) && d.isOpen && d.tiles == []
    ensures var r := NextPages(s, d, count);
            Valid(r) && r.isOpen && r.pageNr == d.pageNr + count
  {
    if count > 0 {
      NextPagesPlain(s, d, count - 1);
      NextPagePlain(s, NextPages(s, d, count - 1));
    }
  }

  /** N-up paging: after `count` page breaks from tile 0 of page p, the page count is p + count div tiles. */
  lemma {:induction false} NextPagesNup(s: Settings, d: Doc, count: nat)
    requires Valid(d) && d.isOpen && d.tiles != []
    ensures var r := NextPages(s, d, count);
            && Valid(r) && r.isOpen
            && r.logical == d.logical + count
            && r.pageNr == (d.logical + count) / |d.tiles|
  {
    if count == 0 {
      assert NextPages(s, d, 0) == d;
    } else {
      NextPagesNup(s, d, count - 1);
      NextPagesNupStep(s, d, count, NextPages(s, d, count - 1));
    }
  }

  lemma NextPagesNupStep(s: Settings, d: Doc, count: nat, prev: Doc)
    requires count >= 1 && d.tiles != [] && prev == NextPages(s, d, count - 1)
    requires Valid(prev) && prev.isOpen && prev.logical == d.logical + count - 1
    ensures var r := NextPages(s, d, count);
            && Valid(r) && r.isOpen
            && r.logical == d.logical + count
            && r.pageNr == (d.logical + count) / |d.tiles|
  {
    NextPageNup(s, prev);
    NupCountStep(prev.logical, d.logical, count, NextPage(s, prev).pageNr, |d.tiles|);
  }

  lemma NupCountStep(before: nat, start: nat, count: nat, pages: nat, n: nat)
    requires count >= 1 && before == start + count - 1 && n >= 1
    requires pages == (before + 1) / n
    ensures pages == (start + count) / n
  {
  }

  /** From a new N-up document, `k` page breaks leave the physical page count at k div the tile count. */
  lemma NewDocPages(s: Settings, k: nat)
    requires s.nup > 0
    ensures NextPages(s, NewDoc(s), k).pageNr == k / Pow2(s.nup)
    ensures NextPages(s, NewDoc(s), k).isOpen
  {
    var d := NewDoc(s);
    NewDocValid(s);
    assert |d.tiles| == Pow2(s.nup);
    NextPagesNup(s, d, k);
    assert d.logical + k == k;
  }

  /** `finalize` closes the open page, keeps the invariant, and a second call changes nothing. */
  lemma FinalizeValid(d: Doc)
    requires Valid(d)
    ensures Valid(Finalize(d)) && !Finalize(d).isOpen
    ensures Finalize(Finalize(d)) == Finalize(d)
    ensures TallyOf(Finalize(d).log).ends == TallyOf(Finalize(d).log).starts
  {
    if d.isOpen {
      if d.tiles == [] {
        TallySnoc(d.log, PageClosed);
      } else {
        var n := |d.tiles|;
        var d1 := Emit(d, Restore).(logical := d.logical + 1);
        TallySnoc(d.log, Restore);
        TallySnoc(d1.log, PageClosed);
        CeilStep(d.logical, n);
      }
    }
  }

  /** Closing a partly or fully used page: pages k div n + 1 hold k + 1 logical pages. */
  lemma CeilStep(k: nat, n: nat)
    requires n >= 1
    ensures k / n + 1 == (k + 1 + n - 1) / n
  {
    DivModOf(k + n, k / n + 1, k % n, n);
  }

  /** With N-up paging the physical page count after `finalize` is the number of logical pages divided by the tile count, rounded up. */
  lemma FinalizeNupCount(d: Doc)
    requires Valid(d) && d.isOpen && d.tiles != []
    ensures Finalize(d).pageNr == (Finalize(d).logical + |d.tiles| - 1) / |d.tiles|
    ensures Finalize(d).logical == d.logical + 1
  {
    FinalizeValid(d);
  }

  /**
   * The `finalize` the source runs is not idempotent under N-up imposition:
   * on a new 2-up document it leaves the half-used physical page open, and
   * a second call changes the state again (it counts another logical page
   * and only then closes the physical page).
   */
  lemma FinalizeAsWrittenLeavesPageOpen(s: Settings)
    requires s.nup == 1
    ensures var d := NewDoc(s);
            && Valid(d)
            && FinalizeAsWritten(d).isOpen
            && FinalizeAsWritten(FinalizeAsWritten(d)) != FinalizeAsWritten(d)
            && !Finalize(d).isOpen && Finalize(Finalize(d)) == Finalize(d)
  {
    NewDocValid(s);
    var d := NewDoc(s);
    assert |d.tiles| == 2;
    FinalizeValid(d);
  }

  /** Plain paging: the finalize the source runs agrees with the corrected one. */
  lemma FinalizePlainAgrees(d: Doc)
    requires d.tiles == []
    ensures FinalizeAsWritten(d) == Finalize(d)
  {
  }
}
