/**
 * The option values the layout engine reads while it places one input.
 * Each field corresponds to one command line option (or to a property of the
 * loaded font); the parsers in module Options produce the textual ones.
 */
module Config {
  import opened Results
  import opened Geometry

  datatype Settings = Settings(
    /** `--page`: the physical page size */
    page: PageSize,
    /** `--margins` */
    margins: Margins,
    /** the loaded font's `height()` */
    fontHeight: real,
    /** the loaded font's `bbox_ymin()` */
    fontBboxYmin: real,
    /** `--line-spacing`: extra space between lines as a fraction of the font height */
    lineSpacing: real,
    /** `--text-color` */
    fontColor: Color,
    /** `--zebra`: stripe colours cycled per line; an absent entry paints no stripe, no option is the empty list */
    zebra: seq<Option<Color>>,
    /** `--separator` */
    separator: Separator,
    /** `--image-align`: `left`, `center` or `right` (any other string is accepted by the option parser) */
    imageAlign: string,
    /** `--image-fit-wide` / `--no-image-fit-wide` */
    imageFitWider: bool,
    /** `--bookmark`: the bookmark template; the empty string stands for no bookmark */
    bookmark: string,
    /** `--n-up`: the power N of 2^N-up imposition; 0 means no imposition */
    nup: nat,
    /** the tile scale 1/sqrt(2^N), kept abstract */
    nupScale: real,
    /** the name of the input being placed, `-` for standard input */
    inputName: string
  )

  /** The height one text line takes: the font height stretched by the line spacing. */
  function LineHeight(s: Settings): (lh: real)
    ensures s.lineSpacing == 0.0 ==> lh == s.fontHeight
    ensures s.fontHeight >= 0.0 && s.lineSpacing >= 0.0 ==> lh >= s.fontHeight
  {
    LineHeightAtLeastFont(s.fontHeight, s.lineSpacing);
    s.fontHeight * (1.0 + s.lineSpacing)
  }

  lemma LineHeightAtLeastFont(h: real, spacing: real)
    ensures spacing == 0.0 ==> h * (1.0 + spacing) == h
    ensures h >= 0.0 && spacing >= 0.0 ==> h * (1.0 + spacing) >= h
  {
    if h >= 0.0 && spacing >= 0.0 {
      assert h * (1.0 + spacing) == h + h * spacing;
    }
  }
}
