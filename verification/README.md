# jag-tipdf layout engine in Dafny

jag-tipdf turns text files and images into a PDF document. Each input is
placed on the page below the previous one, at a vertical cursor `y`:

- A text input is written line by line.
  - The first line gets an optional bookmark.
  - Each line can get a zebra stripe.
  - A line that no longer fits starts a new page, and a form feed forces one.
- An image input is placed at the cursor or scaled down to the canvas width.
- Between inputs a separator is inserted: a page break or a vertical gap.
- With `--n-up N`, each logical page is drawn as one of 2^N tiles of a
  physical sheet.

The command line options that steer all of this are parsed by small hook
functions.

This project models that layout core as pure functions over immutable
state and proves properties of it.

- **Drawing** is not performed. The calls the engine makes into the PDF
  library become events appended to a log (`Paging.Event`). Page
  bookkeeping is read off that log: pages opened and closed, graphics-state
  nesting, and outline items.
- **The document** (`Paging.Doc`) holds:
  - the cursor and the physical page count
  - whether a page is open
  - the logical page count and the N-up tile matrices (`tiles == []` is
    plain paging)
  - the log
- **The text driver** (`Text.Driver`) is the per-input state of `TxtDriver`.
- **Option values** the engine reads are fields of `Config.Settings`.
- **Errors** are values of `Results.Result`:
  - `BadOption(message)` is an `OptionValueError` raised by an option
    callback, which the option parser reports.
  - `Uncaught(kind)` is an exception nothing in the program catches.

Modules:

| module | file | models |
|---|---|---|
| Results | results.dfy | result and option values, error kinds |
| Strings | strings.dfy | string helpers: split, join, strip, words, basename, lower-casing |
| Numbers | numbers.dfy | Python's `float()` and `int(s, 16)` on strings |
| Geometry | geometry.dfy | page size, the `Margins` accessors, `enough_space_on_page` |
| Config | config.dfy | the option values, the line height |
| NUp | nup.dfy | `nup_matrices` |
| Paging | paging.dfy | `Paging` and `NupPaging` |
| Template | template.dfy | `subst_template` |
| Placement | placement.dfy | bookmarks, the input separator, inline images |
| Text | textdriver.dfy | `TxtDriver` and `iter_lines` |
| Options | options.dfy | the option hooks `parse_color` … `hook_separator` |
| Args | args.dfy | `expand_args` |

## Model

| member | source | states |
|---|---|---|
| Geometry.CanvasWidth | jag-tipdf.py:522-524 | the canvas width plus the left and right margins is the page width |
| Geometry.CanvasHeight | jag-tipdf.py:523-525 | the canvas height plus the top and bottom margins is the page height |
| Geometry.TopY | jag-tipdf.py:327-328 | the top of the canvas lies one top margin below the page top and one canvas height above the bottom margin |
| Geometry.EnoughSpaceBoundary | jag-tipdf.py:72-73 | a height that reaches exactly down to the bottom margin still fits; any larger one does not |
| Geometry.EnoughSpaceMonotone | jag-tipdf.py:72-73 | whatever fits, anything smaller fits too; at the top of a page, a height fits iff it is at most the canvas height |
| Config.LineHeight | jag-tipdf.py:262-264 | with no extra spacing a line is one font height tall; with non-negative spacing it is never shorter |
| NUp.NupMatrices | jag-tipdf.py:399-408 | there are exactly 2^N tiles; for even N they are row-major upright tiles, for odd N the rows of turned tiles run from the top row down |
| NUp.NupTile | jag-tipdf.py:403-408 | tile k is the k-th entry of the row-major enumeration, upright for even N and turned for odd N |
| NUp.Pow2Split | jag-tipdf.py:401-405 | the tile count is dim×dim for even N and dim×2·dim for odd N, with dim = 2^(N div 2) |
| NUp.EvenTileCorners | jag-tipdf.py:406-408 | for even N, tile k maps the page's corners to column k mod dim and row k div dim of the sheet grid |
| NUp.EvenTileInside | jag-tipdf.py:406-408 | for even N with scale 1/dim, every tile's image of the page lies inside the sheet |
| NUp.EvenTileForCell | jag-tipdf.py:406-408 | every cell (row, column) of the grid is covered by the tile at index row·dim + column |
| NUp.EvenTilesDisjoint | jag-tipdf.py:406-408 | for even N, two different tiles never map interior points of the page to the same point |
| NUp.OddTileCorners | jag-tipdf.py:403-405 | for odd N, tile k is turned a quarter and shifted by row dim − k div (2·dim) and column k mod (2·dim) |
| NUp.OddTilesDisjoint | jag-tipdf.py:403-405 | for odd N, two different turned tiles never map interior points of the page to the same point |
| Paging.NewDoc | jag-tipdf.py:321-334 | a new document has page 0 open with the cursor at the top; it is N-up with the tiles of `nup_matrices` exactly when the N-up power is non-zero |
| Paging.NewDocValid | jag-tipdf.py:322-334 | the new document satisfies the paging invariant, and in plain paging its log holds just the first page opening |
| Paging.PageStart | jag-tipdf.py:330-334 | starting a page moves the cursor to the top; a physical page is opened for plain paging and for tile 0 |
| Paging.PageEnd | jag-tipdf.py:336-339 | plain paging closes the page and counts it; N-up counts a logical page and closes the sheet exactly when the count reaches a multiple of the tile count |
| Paging.NextPagePlain | jag-tipdf.py:341-343 | plain `next_page` closes the page and opens the next: one more page, the page stays open, the cursor returns to the top |
| Paging.NextPageNup | jag-tipdf.py:389-396 | N-up `next_page` counts one logical page; the physical page number is always the logical count divided by the tile count, and it grows exactly when that count is a multiple of the tile count |
| Paging.NextPageValid | jag-tipdf.py:341-343 | `next_page` on an open page keeps the invariant and an open page, resets the cursor and never lowers the page count |
| Paging.NextPage | jag-tipdf.py:341-343 | `next_page` puts the cursor at the top of the canvas and keeps the paging mode |
| Paging.NextPagesPlain | jag-tipdf.py:341-343 | `count` page breaks add exactly `count` physical pages |
| Paging.NextPagesNup | jag-tipdf.py:378-396 | after `count` page breaks the physical page number is (logical + count) div tiles |
| Paging.NewDocPages | jag-tipdf.py:371-396 | on a new N-up document, k page breaks give physical page k div 2^N |
| Paging.Finalize | jag-tipdf.py:345-347 | finalize leaves no page open, changes nothing when none was open and otherwise counts exactly one more page |
| Paging.FinalizeValid | jag-tipdf.py:345-347 | finalize keeps the invariant, balances page openings and closings, and a second finalize changes nothing |
| Paging.FinalizeNupCount | jag-tipdf.py:389-396 | after an N-up finalize the sheet count is the logical page count rounded up to whole sheets |
| Paging.FinalizeAsWritten | jag-tipdf.py:345-347 | the inherited finalize does nothing on a closed page and closes the page in plain paging |
| Paging.FinalizeAsWrittenLeavesPageOpen | jag-tipdf.py:345-347 | on a new 2-up document the inherited finalize leaves the sheet open and is not idempotent, while the corrected one closes it once |
| Paging.FinalizePlainAgrees | jag-tipdf.py:345-347 | in plain paging the inherited and the corrected finalize agree |
| Template.SubstTemplate | jag-tipdf.py:82-89 | a template without `%` is returned unchanged |
| Template.SubstLiteralPrefix | jag-tipdf.py:86-89 | text before the first `%` is copied unchanged and substitution continues after it |
| Template.Subst | jag-tipdf.py:89 | the `re.sub` pass leaves text without `%` unchanged |
| Template.SubstRendered | jag-tipdf.py:86-89 | for any template made of `%`-free literal text and the three keys, substitution equals the piece-by-piece reading: every literal is kept and every key becomes its value, in order |
| Template.SubstTemplateExpands | jag-tipdf.py:82-89 | `subst_template` on any such template puts the input's base name for `%basename`, its name as given for `%path` and `str(page_nr + 1)` for `%page`, and keeps the rest |
| Template.SubstTemplateKeys | jag-tipdf.py:82-89 | one key between two `%`-free texts becomes the one-based page number, the path or the base name, and the texts around it are kept |
| Template.SubstAroundKey | jag-tipdf.py:82-89 | a key between `%`-free texts is replaced and the surrounding text is kept |
| Template.ReportBookmark | jag-tipdf.py:82-89 | `%basename p.%page` for `/a/b/report.txt` on the first page expands to `report.txt p.1` (page numbers count from 1) |
| Template.BasenameAfterSlash | jag-tipdf.py:83 | the base name of `dir/name` is `name` |
| Placement.PlaceBookmark | jag-tipdf.py:76-80 | with a template, exactly one outline item is added, titled by the expanded template and pointing at the cursor; without one nothing is added; nothing else about the document changes |
| Placement.PlaceBookmarkValid | jag-tipdf.py:76-80 | a bookmark template adds exactly one outline item and no template adds none; the item points at the cursor; a template without `%` is the title itself; the invariant is kept |
| Placement.InsertInputSeparator | jag-tipdf.py:91-101 | a page break starts a new page; a positive gap moves the cursor down if it fits, else starts a page; a gap ≤ 0 moves the cursor up by its size but never above the canvas top |
| Placement.SeparatorValid | jag-tipdf.py:91-101 | the separator keeps the invariant and an open page |
| Placement.SeparatorBoundary | jag-tipdf.py:94-96 | a gap that ends exactly on the bottom margin is inserted on the same page |
| Placement.MakeRoomFits | jag-tipdf.py:111-112 | anything no taller than the canvas fits after the space check, below the old cursor or at the top of a new page |
| Placement.AlignOffset | jag-tipdf.py:114-119 | left, center and right alignment put the image flush left, centred (equal space on both sides) and flush right; an image no wider than the canvas stays within it; any other value has no offset |
| Placement.PlaceInlineImage | jag-tipdf.py:107-122 | wide images go to the fit-wider path when it is enabled; otherwise placing succeeds exactly when the alignment is known, and errors are uncaught exceptions. On success a new page is started exactly when `h` does not fit below the cursor; the cursor then drops by `h`, the image is drawn there at the left margin plus the alignment offset, and nothing else changes |
| Placement.InlineImageFits | jag-tipdf.py:107-122 | an image no larger than the canvas ends up between the margins; its top is the old cursor on the same page when it fits there and the top of a new page when it does not; the invariant is kept |
| Placement.FitWiderImage | jag-tipdf.py:124-135 | fitting fails exactly for a zero width (division by zero). Otherwise the page-break test uses the scaled height `scale·h`, the cursor drops by `scale·h`, one image scaled to the canvas width is drawn at the left margin, and nothing else changes |
| Placement.FitScale | jag-tipdf.py:125 | the scaled width is exactly the canvas width; an image wider than the canvas is shrunk |
| Placement.FitWiderImageFits | jag-tipdf.py:124-135 | a scaled image whose height fits on a canvas lands above the bottom margin, its top at the old cursor when the scaled height fits there and at the top of a new page otherwise, and keeps the invariant |
| Placement.PaintImage | jag-tipdf.py:137-141 | a zero resolution divides by zero; at 72 dpi the pixel size is the size in points |
| Placement.PaintImageSize | jag-tipdf.py:137-141 | at any nonzero resolution the image is placed with the size w, h for which w·dpi_x = 72·width and h·dpi_y = 72·height |
| Placement.PaintImageSameInches | jag-tipdf.py:137-141 | the size is pixels over resolution: doubling both the pixel size and the resolution places the image exactly as before |
| Text.NewDriver | jag-tipdf.py:254-260 | a new driver starts at line 0 with no text object, the bookmark pending, no cached colours |
| Text.StripeColor | jag-tipdf.py:303-306 | no zebra option paints nothing; otherwise line n gets entry n mod the palette length |
| Text.StripeCycle | jag-tipdf.py:306 | stripe colours repeat with the palette's length, and the first lines take the palette in order |
| Text.ZebraScenario | jag-tipdf.py:303-315 | with palette red, none, blue, lines 0 to 4 get red, none, blue, red, none |
| Text.PaintZebra | jag-tipdf.py:303-315 | with a colour for the line, exactly one stripe is added: one line high under the cursor, across the canvas, in that colour; without one nothing is added; nothing else about the document changes |
| Text.OnLineEnd | jag-tipdf.py:266-273 | ending a line adds one to the line number, closes the text object and lowers the cursor by one line height; the page is left as it is |
| Text.BeginText | jag-tipdf.py:276-283 | text on a line opens a text object once; after that the bookmark is no longer pending; cursor, page and line number are kept |
| Text.WriteText | jag-tipdf.py:275-295 | writing text leaves a text object open and ends with the text shown |
| Text.TokenColor | jag-tipdf.py:284-293 | a cached token colour is reused; a style without a colour gives the text colour; otherwise the style's colour is parsed, and a bad one raises an OptionValueError that nothing catches |
| Text.OnText | jag-tipdf.py:275-295 | `on_text` fails exactly when the token's colour does not parse; for a token, the colour set just before the text is the one `TokenColor` finds, it is cached for the token, and the text is the last thing written |
| Text.OnNextPage | jag-tipdf.py:297-301 | a page break ends an open line, moves the cursor to the top of the next page and resets the line number to 0 |
| Text.OnTextKeeps | jag-tipdf.py:275-295 | `on_text` keeps the invariant and adds a bookmark only if it is still pending |
| Text.IterLines | jag-tipdf.py:230-248 | the line height does not change over a run |
| Text.FormFeedBreaks | jag-tipdf.py:239-248 | a form feed between two form-feed-free pieces writes the first piece, starts a new page, then writes the second |
| Text.LoneFormFeed | jag-tipdf.py:239-248 | a line that is only a form feed writes nothing, because empty pieces are skipped, and is exactly one `on_next_page` |
| Text.LoneFormFeedPlain | jag-tipdf.py:247-248 | without N-up, a lone form feed moves to the top of the next physical page at line 0 |
| Text.IterLinesConcat | jag-tipdf.py:240-248 | lines are handled one after another: a run over `a + b` is a run over `a` followed by a run over `b` |
| Text.IterLinesKeeps | jag-tipdf.py:230-248 | laying out any lines keeps the paging invariant and an open page, and adds at most the one pending bookmark |
| Text.OneBookmarkPerInput | jag-tipdf.py:230-248 | one text input adds at most one outline item; none without a template; exactly one once any text was written |
| Text.IterLinesCursor | jag-tipdf.py:240-248 | when a line fits on a canvas, the cursor stays on the canvas between lines |
| Text.PlainLineStep | jag-tipdf.py:240-246 | a line without form feeds moves the cursor one line down if it fits; otherwise it goes to the top of a new page as its line 1 |
| Text.FilledClosed | jag-tipdf.py:240-246 | the line number after n lines is (n−1) mod capacity + 1, and the page breaks are (n−1) div capacity |
| Text.PlainLayout | jag-tipdf.py:230-248 | with capacity c lines per page, n plain lines fill the page c lines at a time: page number, line number and cursor are given by the closed forms |
| Text.LetterPageLines | jag-tipdf.py:230-248 | on a letter page with one-inch margins and 12-point lines, 54 lines fill page 1, line 55 starts page 2, and 100 lines end on page 2 at line 46 |
| Options.ParseColor | jag-tipdf.py:471-479 | the empty string means no colour; one to four characters is an error; every error is the invalid-colour message |
| Options.ParseHexColor | jag-tipdf.py:474-477 | six hex digits give three components, each the byte's value over 255, between 0 and 1 |
| Options.ParseColorRoundTrip | jag-tipdf.py:474-477 | writing any three bytes as hex and parsing them gives back the bytes over 255 |
| Options.ParseColorIgnoresTail | jag-tipdf.py:475-477 | characters after the sixth are ignored |
| Options.ParseColorList | jag-tipdf.py:497-499 | a colour list parses iff every comma-separated part does, giving one colour per part in order |
| Options.ZebraPalette | jag-tipdf.py:497-499 | `ff0000,,0000ff` parses to red, no colour, blue |
| Options.ParsePaperFormat | jag-tipdf.py:481-492 | `a4` and `letter` in any case are the named sizes; otherwise the `W,H` pattern with float fields gives the size; a value the pattern does not match, and only such a value, is rejected with the page-format message; a match whose field `float` refuses (`1.2.3,4`) is the only uncaught ValueError |
| Options.PaperFormatNumbers | jag-tipdf.py:487-489 | `W,H` with whole numbers parses to that size |
| Options.PaperFormatNames | jag-tipdf.py:482-485 | `A4` and `Letter` parse to the named sizes |
| Options.PaperFormatRejected | jag-tipdf.py:487-491 | a value without a comma that is not a named size is rejected |
| Options.ParseMargins | jag-tipdf.py:528-535 | margins parse iff there are exactly four comma-separated floats, taken as top, right, bottom, left |
| Options.MarginsRoundTrip | jag-tipdf.py:528-535 | four whole numbers joined with commas parse back to themselves |
| Options.MarginsNeedFour | jag-tipdf.py:531-532 | any count of parts other than four is rejected with the margins message |
| Options.StringRemap | jag-tipdf.py:545-554 | remapping succeeds iff every part is a known value and, unless a list is allowed, there is one part; the result joins the mapped values with `;` |
| Options.StringRemapList | jag-tipdf.py:545-554 | a list of known values maps to their images joined with `;` |
| Options.RemapOne | jag-tipdf.py:547-551 | a single value maps to its image if known and is rejected otherwise |
| Options.RemapTwo | jag-tipdf.py:552-553 | two known values are accepted as a list and rejected when one value is required |
| Options.PageLayoutValues | jag-tipdf.py:537-539 | `cont-facing` is `TwoColumnLeft`; two layouts or an unknown one are rejected |
| Options.UserPermValues | jag-tipdf.py:541-543 | `no_print,no_copy` maps to `no_print;no_copy` |
| Options.ParseSeparator | jag-tipdf.py:556-565 | `break` is the page break; otherwise the value must be a float and gives a gap; errors carry the separator message |
| Options.SeparatorNumber | jag-tipdf.py:561-562 | a whole number is a gap of that size |
| Options.ParseDestination | jag-tipdf.py:501-510 | a float is a zoom; otherwise the value must be one of `fith`, `fitv`, `fit`, else it is rejected with the destination message |
| Options.DestinationModes | jag-tipdf.py:505-507 | each fit keyword maps to its mode |
| Options.DestinationCase | jag-tipdf.py:505-509 | keywords are case-sensitive: `FIT` is rejected |
| Options.DestinationWord | jag-tipdf.py:502-509 | in this model, where `float()` takes only decimal spellings, a value without digits is accepted exactly when it is a fit keyword |
| Numbers.ParseFloatNeedsDigit | jag-tipdf.py:562 | in this model, which leaves out the `inf` and `nan` spellings, nothing without a digit parses as a float |
| Numbers.ParseFloatNat | jag-tipdf.py:562 | a whole number's decimal digits parse to that number |
| Numbers.ParseFloatDecimal | jag-tipdf.py:530 | `whole.frac` parses to its decimal value |
| Numbers.ParseHexPair | jag-tipdf.py:476-478 | a slice of one or two hex digits gives its hexadecimal value; any result lies between −15 and 255 |
| Numbers.ParseHexPairAgrees | jag-tipdf.py:475-477 | the two-character hex parser agrees with the general one on every slice of at most two characters |
| Args.ExpandArgs | jag-tipdf.py:723-732 | expansion fails iff some `@file` cannot be opened, and arguments without `@` are returned unchanged |
| Args.ExpandArg | jag-tipdf.py:726-730 | an argument without `@` is kept; `@name` succeeds exactly when the file can be opened, giving non-empty words without whitespace; a missing file is an uncaught IOError |
| Args.ExpandArgsConcat | jag-tipdf.py:726-731 | expanding a concatenation is the concatenation of the expansions, in order |
| Args.ExpandFileRoundTrip | jag-tipdf.py:727-729 | words written to a file on one line come back from `@file` as the same arguments |
| Args.ExpandMissingFile | jag-tipdf.py:728 | an `@file` that cannot be opened makes the whole expansion fail |
| Strings.SplitJoin | jag-tipdf.py:498 | splitting parts joined by a separator they do not contain gives the parts back |
| Strings.Lower | jag-tipdf.py:485 | lower-casing keeps the length, maps upper-case ASCII letters to lower case and keeps every other character |

## Left out

- The PDF library is not modelled.
  - Every drawing call is an event in the log; nothing is rendered.
  - A zebra stripe's save, colour, rectangle, paint and restore are one `Stripe` event.
  - The fit-wider save, translate, scale, image and restore are one scaled `Image` event.
- `establish_state` (font, character spacing, colour space, page colour) is folded into the page-opening event, because it only sets drawing state.
- `draw_margin` is not modelled; it is never called.
- Reading inputs is not modelled: the encoding reader in `iter_lines`, `PDFStream`, `get_stream` and `process_input`.
  - `iter_lines` takes the lines `readlines()` would return.
  - `expand_args` takes a map from file names to their lines.
- Image loading (`load_image` and the image cache) is not modelled.
  - `paint_image` takes the pixel size and the resolution.
- Syntax highlighting (`highlight_text` and the pygments formatter) is not modelled.
  - `on_text` takes the token and the style lookup as parameters.
- `create_doc_profile`, `load_font`, `create_opt_parser`, `create_initial_context` and `main` are not modelled; they only wire the parts together.
  - The font's height and bbox are fields of the settings.
- Floating point is modelled as exact real arithmetic. The N-up scale `1/sqrt(2^N)` is an abstract field `nupScale`, because there is no square root.
- Text formatting of numbers is not modelled.
  - The bookmark destination is kept as its `top` value, not as the `%.02f` text.
  - The zoom is kept as a number, not as the `%.2f` text.
- Tab expansion in `iter_lines` is not modelled: the result of the `replace` call is discarded, so tabs reach the PDF unchanged.
- A negative `--n-up` power is not modelled; the power is a natural number.
- Python 2 integer division in `paint_image` is not modelled: resolutions are reals.
- Numbers.ParseFloat: does not accept the `inf`, `infinity` and `nan` spellings that Python's `float()` takes. A value such as `--separator nan` is rejected here.
- Numbers.ParseFloat: has no `ensures` of its own. Its properties are the lemmas `ParseFloatNeedsDigit`, `ParseFloatNat` and `ParseFloatDecimal`.
- Numbers.ParseFloatNeedsDigit: holds of the model only. In the program `float('inf')` and `float('nan')` succeed without a digit.
- Options.DestinationWord: holds of the model only. In the program `--initial-dest inf` is accepted as an `XYZ` destination with zoom `inf` rather than rejected.
- Options.ParseColor: the lemmas cover the empty string, six hex digits and short strings.
  - Python's `int(s, 16)` also accepts a sign and surrounding whitespace in each two-character slice, so `-f0000` gives a negative red component. The function models this.
  - No lemma states it.
- Placement.PlaceInlineImage: for an unknown alignment the program still starts a new page if needed, places the bookmark and moves the cursor; the `UnboundLocalError` comes only when the image is drawn. The model returns just the error, because no state survives an uncaught exception.
- Text.IterLinesCursor: assumes every line fits on a canvas. The source handles taller lines by drawing below the bottom margin, which this lemma does not describe.
- Margins: the accessors `width` and `height` are not separate members; they appear inside `CanvasWidth` and `CanvasHeight`.
  - The accessors read the page size through the option parser; here they take it as an argument.

## Findings

| source | as written | input that shows it | evidently intended | confidence | as-written member | corrected member |
|---|---|---|---|---|---|---|
| jag-tipdf.py:345-347, 389-396 | `NupPaging` inherits `finalize`, which calls the N-up `page_end`. On a partly filled sheet that only counts a logical page and saves a fresh state: the sheet stays open, and a second `finalize` changes the state again. | `--n-up 1`, a document finalized after its first logical page | `finalize` closes the current physical sheet once and is idempotent | medium, not executed | Paging.FinalizeAsWritten (shown by Paging.FinalizeAsWrittenLeavesPageOpen) | Paging.Finalize (proved by Paging.FinalizeValid) |
