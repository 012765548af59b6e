/**
 * The option callbacks that turn command line strings into the values the
 * layout engine reads: colours, colour lists, the page size, margins, the
 * separator, the initial destination and the remapped keyword options.
 * A rejected value is an OptionValueError (`BadOption`) carrying the
 * source's message; an exception the callbacks do not catch is `Uncaught`.
 */
module Options {
  import opened Results
  import opened Strings
  import opened Numbers
  import opened Geometry

  /** Python's `s[i:j]` for 0 <= i <= j: indices past the end are clamped. */
  function Slice(s: string, i: nat, j: nat): (r: string)
    requires i <= j
    ensures |r| <= j - i
    ensures j <= |s| ==> r == s[i..j]
    ensures |s| <= i ==> r == []
  {
    var hi := if j <= |s| then j else |s|;
    var lo := if i <= hi then i else hi;
    s[lo..hi]
  }

  // ---------------------------------------------------------------------
  // Colours

  function ColorError(color: string): Error {
    BadOption("invalid color specification " + color)
  }

  /**
   * `parse_color`: the empty string means no colour; otherwise the first
   * six characters are read as three two-digit hexadecimal components
   * scaled to [0, 1]. Each slice goes through Python 2's `int(s, 16)`, so a
   * slice may be short, padded with whitespace or signed; ParseHexPair is
   * that conversion on two characters (ParseHexPairAgrees).
   */
  function ParseColor(color: string): (r: Result<Option<Color>>)
    ensures color == "" <==> r == Ok(None)
    ensures r.Err? ==> r.error == ColorError(color)
    ensures 0 < |color| <= 4 ==> r.Err?
  {
    if color == "" then Ok(None)
    else
      var red, green, blue := ParseHexPair(Slice(color, 0, 2)), ParseHexPair(Slice(color, 2, 4)),
                              ParseHexPair(Slice(color, 4, 6));
      if red.None? || green.None? || blue.None? then
        Err(ColorError(color))
      else Ok(Some(Color(red.value as real / 255.0, green.value as real / 255.0, blue.value as real / 255.0)))
  }

  /** The digits of the two-digit lower-case hexadecimal spelling `%02x`. */
  function HexDigitChar(d: nat): (c: char)
    requires d < 16
    ensures IsHexDigit(c) && HexDigitValue(c) == d
  {
    if d < 10 then DigitChar(d) else ('a' as int + d - 10) as char
  }

  /** `'%02x' % n` */
  function HexByte(n: nat): (s: string)
    requires n < 256
    ensures |s| == 2 && AllHex(s) && HexValue(s) == n
  {
    var s := [HexDigitChar(n / 16), HexDigitChar(n % 16)];
    HexValueTwo(s);
    s
  }

  predicate IsHexColor(color: string) {
    |color| == 6 && AllHex(color)
  }

  /** Six hexadecimal digits always parse, and every component lies in [0, 1]. */
  lemma ParseHexColor(color: string)
    requires IsHexColor(color)
    ensures var r := ParseColor(color);
            && r.Ok? && r.value.Some?
            && var c := r.value.value;
            && c.r == HexValue(color[0..2]) as real / 255.0
            && c.g == HexValue(color[2..4]) as real / 255.0
            && c.b == HexValue(color[4..6]) as real / 255.0
            && 0.0 <= c.r <= 1.0 && 0.0 <= c.g <= 1.0 && 0.0 <= c.b <= 1.0
  {
    HexSliceOf(color, 0);
    HexSliceOf(color, 2);
    HexSliceOf(color, 4);
  }

  lemma HexSliceOf(color: string, i: nat)
    requires IsHexColor(color) && i <= 4
    ensures AllHex(color[i..i + 2]) && HexValue(color[i..i + 2]) < 256
    ensures ParseHexPair(Slice(color, i, i + 2)) == Some(HexValue(color[i..i + 2]))
  {
    var s := color[i..i + 2];
    assert s[0] == color[i] && s[1] == color[i + 1];
    HexValueTwo(s);
  }

  /** Writing a colour as `rrggbb` and parsing it again gives the components back, scaled to [0, 1]. */
  lemma ParseColorRoundTrip(red: nat, green: nat, blue: nat)
    requires red < 256 && green < 256 && blue < 256
    ensures ParseColor(HexByte(red) + HexByte(green) + HexByte(blue))
         == Ok(Some(Color(red as real / 255.0, green as real / 255.0, blue as real / 255.0)))
  {
    var color := HexByte(red) + HexByte(green) + HexByte(blue);
    assert color[0..2] == HexByte(red);
    assert color[2..4] == HexByte(green);
    assert color[4..6] == HexByte(blue);
    assert IsHexColor(color) by {
      assert forall k | 0 <= k < 6 :: color[k] == (if k < 2 then HexByte(red)[k] else if k < 4 then HexByte(green)[k - 2] else HexByte(blue)[k - 4]);
    }
    ParseHexColor(color);
  }

  /** Only the first six characters are read: anything after them is ignored (but named in the error message). */
  lemma ParseColorIgnoresTail(color: string, tail: string)
    requires |color| == 6
    ensures ParseColor(color + tail).Ok? == ParseColor(color).Ok?
    ensures ParseColor(color + tail).Ok? ==> ParseColor(color + tail) == ParseColor(color)
  {
    var long := color + tail;
    assert Slice(long, 0, 2) == Slice(color, 0, 2);
    assert Slice(long, 2, 4) == Slice(color, 2, 4);
    assert Slice(long, 4, 6) == Slice(color, 4, 6);
    SameSlicesSameColor(long, color);
  }

  /** Two non-empty strings with the same three component slices parse to the same colour. */
  lemma SameSlicesSameColor(a: string, b: string)
    requires a != [] && b != []
    requires Slice(a, 0, 2) == Slice(b, 0, 2) && Slice(a, 2, 4) == Slice(b, 2, 4) && Slice(a, 4, 6) == Slice(b, 4, 6)
    ensures ParseColor(a).Ok? ==> ParseColor(a) == ParseColor(b)
  {
  }

  /** Every entry of `parts` is a colour `parse_color` accepts. */
  predicate AllColors(parts: seq<string>) {
    forall i | 0 <= i < |parts| :: ParseColor(parts[i]).Ok?
  }

  /** `hook_color_list`: the comma-separated colours, each parsed by `parse_color`. */
  function ParseColorList(value: string): (r: Result<seq<Option<Color>>>)
    ensures r.Ok? <==> AllColors(Split(value, ','))
    ensures r.Ok? ==> |r.value| == |Split(value, ',')|
    ensures r.Ok? ==> forall i | 0 <= i < |r.value| :: ParseColor(Split(value, ',')[i]) == Ok(r.value[i])
  {
    ParseColors(Split(value, ','))
  }

  function ParseColors(parts: seq<string>): (r: Result<seq<Option<Color>>>)
    ensures r.Ok? <==> AllColors(parts)
    ensures r.Ok? ==> |r.value| == |parts|
    ensures r.Ok? ==> forall i | 0 <= i < |parts| :: ParseColor(parts[i]) == Ok(r.value[i])
  {
    if parts == [] then Ok([])
    else
      match ParseColor(parts[0])
      case Err(e) => Err(e)
      case Ok(c) =>
        var rest := ParseColors(parts[1..]);
        ColorsCons(parts, c, rest);
        match rest
        case Err(e) => Err(e)
        case Ok(cs) => Ok([c] + cs)
  }

  /** The first colour parsed, the others parse exactly when the whole list does. */
  lemma ColorsCons(parts: seq<string>, c: Option<Color>, rest: Result<seq<Option<Color>>>)
    requires |parts| >= 1 && ParseColor(parts[0]) == Ok(c)
    requires rest.Ok? <==> AllColors(parts[1..])
    requires rest.Ok? ==> |rest.value| == |parts| - 1
    requires rest.Ok? ==> forall i | 0 <= i < |parts| - 1 :: ParseColor(parts[1..][i]) == Ok(rest.value[i])
    ensures rest.Ok? <==> AllColors(parts)
    ensures rest.Ok? ==> forall i | 0 <= i < |parts| :: ParseColor(parts[i]) == Ok(([c] + rest.value)[i])
  {
    assert forall i | 1 <= i < |parts| :: parts[i] == parts[1..][i - 1];
  }

  /** A zebra palette such as `ff0000,,0000ff`: an empty entry means no stripe on that line. */
  lemma ZebraPalette()
    ensures ParseColorList("ff0000,,0000ff") == Ok([Some(Color(1.0, 0.0, 0.0)), None, Some(Color(0.0, 0.0, 1.0))])
  {
    ZebraParts();
    PrimaryColors();
    ColorListOfThree("ff0000,,0000ff", "ff0000", "", "0000ff",
      Some(Color(1.0, 0.0, 0.0)), None, Some(Color(0.0, 0.0, 1.0)));
  }

  lemma ColorListOfThree(value: string, a: string, b: string, c: string, ca: Option<Color>, cb: Option<Color>, cc: Option<Color>)
    requires Split(value, ',') == [a, b, c]
    requires ParseColor(a) == Ok(ca) && ParseColor(b) == Ok(cb) && ParseColor(c) == Ok(cc)
    ensures ParseColorList(value) == Ok([ca, cb, cc])
  {
    var parts := [a, b, c];
    assert AllColors(parts);
    var r := ParseColorList(value);
    assert ParseColor(parts[0]) == Ok(r.value[0]);
    assert ParseColor(parts[1]) == Ok(r.value[1]);
    assert ParseColor(parts[2]) == Ok(r.value[2]);
    assert r.value == [ca, cb, cc];
  }

  lemma ZebraParts()
    ensures Split("ff0000,,0000ff", ',') == ["ff0000", "", "0000ff"]
  {
    var parts := ["ff0000", "", "0000ff"];
    SplitJoin(parts, ',');
    assert Join(parts, [',']) == "ff0000,,0000ff";
  }

  lemma PrimaryColors()
    ensures ParseColor("ff0000") == Ok(Some(Color(1.0, 0.0, 0.0)))
    ensures ParseColor("0000ff") == Ok(Some(Color(0.0, 0.0, 1.0)))
  {
    assert HexByte(255) == "ff" && HexByte(0) == "00";
    assert HexByte(255) + HexByte(0) + HexByte(0) == "ff0000";
    assert HexByte(0) + HexByte(0) + HexByte(255) == "0000ff";
    ParseColorRoundTrip(255, 0, 0);
    ParseColorRoundTrip(0, 0, 255);
  }

  // ---------------------------------------------------------------------
  // Page size

  /** `--page a4`: 8.3 x 11.7 inches. */
  const A4 := PageSize(8.3 * 72.0, 11.7 * 72.0)

  /** `--page letter`: 8.5 x 11 inches. */
  const Letter := PageSize(8.5 * 72.0, 11.0 * 72.0)

  predicate IsSizeChar(c: char) {
    IsDigit(c) || c == '.'
  }

  /** A non-empty run of the characters `[0-9.]`. */
  predicate IsSizeField(s: string) {
    s != [] && forall i | 0 <= i < |s| :: IsSizeChar(s[i])
  }

  /**
   * The regular expression `^([0-9.]+),([0-9.]+)$` under `re.match`: the
   * two groups, if it matches. `$` also matches just before a final newline.
   */
  function MatchSize(value: string): (r: Option<(string, string)>)
    ensures r.Some? ==> IsSizeField(r.value.0) && IsSizeField(r.value.1)
    ensures r.Some? ==> value == r.value.0 + "," + r.value.1 || value == r.value.0 + "," + r.value.1 + "\n"
  {
    var body := if value != [] && value[|value| - 1] == '\n' then value[..|value| - 1] else value;
    var k := IndexOf(body, ',');
    if k < |body| && IsSizeField(body[..k]) && IsSizeField(body[k + 1..]) then
      assert body == body[..k] + "," + body[k + 1..];
      Some((body[..k], body[k + 1..]))
    else None
  }

  /**
   * `hook_paper_format`: a named format (any letter case), or `width,height`.
   * A value that matches the pattern but is not a number (`1.2.3,4`) makes
   * `float` raise a ValueError that the callback does not catch.
   */
  function ParsePaperFormat(value: string): (r: Result<PageSize>)
    ensures Lower(value) == "a4" ==> r == Ok(A4)
    ensures Lower(value) == "letter" ==> r == Ok(Letter)
    ensures r.Err? && r.error.BadOption? ==> r.error.message == "unrecognized page format: " + value
    ensures r.Ok? && Lower(value) != "a4" && Lower(value) != "letter" ==>
      MatchSize(value).Some? && ParseFloat(MatchSize(value).value.0) == Some(r.value.width)
      && ParseFloat(MatchSize(value).value.1) == Some(r.value.height)
    ensures Lower(value) != "a4" && Lower(value) != "letter" ==>
      (r == Err(BadOption("unrecognized page format: " + value)) <==> MatchSize(value).None?)
    ensures r.Err? && r.error.Uncaught? ==> r.error == Uncaught("ValueError") && MatchSize(value).Some?
  {
    var key := Lower(value);
    if key == "a4" then Ok(A4)
    else if key == "letter" then Ok(Letter)
    else
      match MatchSize(value)
      case None => Err(BadOption("unrecognized page format: " + value))
      case Some((w, h)) =>
        match (ParseFloat(w), ParseFloat(h))
        case (Some(width), Some(height)) => Ok(PageSize(width, height))
        case _ => Err(Uncaught("ValueError"))
  }

  /** `--page W,H` with whole numbers gives exactly that page size. */
  lemma PaperFormatNumbers(width: nat, height: nat)
    ensures ParsePaperFormat(NatToString(width) + "," + NatToString(height))
         == Ok(PageSize(width as real, height as real))
  {
    var w, h := NatToString(width), NatToString(height);
    DigitsAreSizeField(w);
    DigitsAreSizeField(h);
    MatchSizeOf(w, h);
    NotNamedFormat(w + "," + h);
    ParseFloatNat(width);
    ParseFloatNat(height);
    PaperFormatOfMatch(w + "," + h, width as real, height as real);
  }

  lemma DigitsAreSizeField(s: string)
    requires s != [] && AllDigits(s)
    ensures IsSizeField(s) && ',' !in s && s[|s| - 1] != '\n'
  {
    assert forall i | 0 <= i < |s| :: IsDigit(s[i]);
  }

  /** Two fields joined by a comma match the size pattern. */
  lemma MatchSizeOf(w: string, h: string)
    requires IsSizeField(w) && IsSizeField(h) && ',' !in w && h[|h| - 1] != '\n'
    ensures MatchSize(w + "," + h) == Some((w, h))
  {
    var value := w + "," + h;
    assert value[|value| - 1] == h[|h| - 1];
    forall i | 0 <= i < |w| ensures value[i] != ',' {
      assert value[i] == w[i];
    }
    IndexOfAt(value, ',', |w|);
    assert value[..|w|] == w && value[|w| + 1..] == h;
  }

  /** A value that matches the size pattern with two numbers gives that page size. */
  lemma PaperFormatOfMatch(value: string, x: real, y: real)
    requires Lower(value) != "a4" && Lower(value) != "letter" && MatchSize(value).Some?
    requires ParseFloat(MatchSize(value).value.0) == Some(x) && ParseFloat(MatchSize(value).value.1) == Some(y)
    ensures ParsePaperFormat(value) == Ok(PageSize(x, y))
  {
  }

  /** A string starting with a digit is neither `a4` nor `letter` in any case. */
  lemma NotNamedFormat(value: string)
    requires value != [] && IsDigit(value[0])
    ensures Lower(value) != "a4" && Lower(value) != "letter"
  {
    assert Lower(value)[0] == value[0];
  }

  /** `--page` names are case-insensitive. */
  lemma PaperFormatNames()
    ensures ParsePaperFormat("A4") == Ok(A4)
    ensures ParsePaperFormat("Letter") == Ok(Letter)
  {
    assert Lower("A4") == "a4";
    assert Lower("Letter") == "letter";
  }

  /** A value with no comma that is not a named format is rejected with the option error. */
  lemma PaperFormatRejected(value: string)
    requires ',' !in value && Lower(value) != "a4" && Lower(value) != "letter"
    ensures ParsePaperFormat(value) == Err(BadOption("unrecognized page format: " + value))
  {
    var body := if value != [] && value[|value| - 1] == '\n' then value[..|value| - 1] else value;
    assert ',' !in body by {
      if body != value {
        assert forall i | 0 <= i < |body| :: body[i] == value[i];
      }
    }
    assert IndexOf(body, ',') == |body|;
  }

  // ---------------------------------------------------------------------
  // Margins

  /** `hook_margins`: exactly four comma-separated numbers, top, right, bottom, left. */
  function ParseMargins(value: string): (r: Result<Margins>)
    ensures r.Err? ==> r.error == BadOption("unrecognized margins: " + value)
    ensures r.Ok? <==> |Split(value, ',')| == 4 && AllFloats(Split(value, ','))
    ensures r.Ok? ==> var parts := Split(value, ',');
      && ParseFloat(parts[0]) == Some(r.value.top) && ParseFloat(parts[1]) == Some(r.value.right)
      && ParseFloat(parts[2]) == Some(r.value.bottom) && ParseFloat(parts[3]) == Some(r.value.left)
  {
    var parts := Split(value, ',');
    var numbers := ParseFloats(parts);
    if numbers.None? || |numbers.value| != 4 then Err(BadOption("unrecognized margins: " + value))
    else
      var m := numbers.value;
      Ok(Margins(m[0], m[1], m[2], m[3]))
  }

  predicate AllFloats(parts: seq<string>) {
    forall i | 0 <= i < |parts| :: ParseFloat(parts[i]).Some?
  }

  /** `[f(p) for p in parts]` for a conversion that may fail: None as soon as one of them fails. */
  function MapAll<T>(parts: seq<string>, f: string -> Option<T>): (r: Option<seq<T>>)
    ensures r.Some? <==> forall i | 0 <= i < |parts| :: f(parts[i]).Some?
    ensures r.Some? ==> |r.value| == |parts| && forall i | 0 <= i < |parts| :: f(parts[i]) == Some(r.value[i])
  {
    if parts == [] then Some([])
    else
      match f(parts[0])
      case None => None
      case Some(x) =>
        assert forall i | 1 <= i < |parts| :: parts[i] == parts[1..][i - 1];
        match MapAll(parts[1..], f)
        case None => None
        case Some(xs) => Some([x] + xs)
  }

  /** `[float(m) for m in parts]` */
  function ParseFloats(parts: seq<string>): (r: Option<seq<real>>)
    ensures r.Some? <==> AllFloats(parts)
    ensures r.Some? ==> |r.value| == |parts| && forall i | 0 <= i < |parts| :: ParseFloat(parts[i]) == Some(r.value[i])
  {
    MapAll(parts, ParseFloat)
  }

  /** `--margins T,R,B,L` with whole numbers gives exactly those margins. */
  lemma MarginsRoundTrip(top: nat, right: nat, bottom: nat, left: nat)
    ensures ParseMargins(Join([NatToString(top), NatToString(right), NatToString(bottom), NatToString(left)], ","))
         == Ok(Margins(top as real, right as real, bottom as real, left as real))
  {
    MarginsOfDigits(NatToString(top), NatToString(right), NatToString(bottom), NatToString(left));
  }

  /** Four runs of digits joined by commas are four margins. */
  lemma MarginsOfDigits(t: string, r: string, b: string, l: string)
    requires t != [] && AllDigits(t) && r != [] && AllDigits(r)
    requires b != [] && AllDigits(b) && l != [] && AllDigits(l)
    ensures ParseMargins(Join([t, r, b, l], ","))
         == Ok(Margins(DigitsValue(t) as real, DigitsValue(r) as real, DigitsValue(b) as real, DigitsValue(l) as real))
  {
    var parts := [t, r, b, l];
    forall i | 0 <= i < |parts| ensures parts[i] != [] && AllDigits(parts[i]) {
      assert i == 0 || i == 1 || i == 2 || i == 3;
    }
    SplitNumbers(parts);
    ParseFloatDigits(t);
    ParseFloatDigits(r);
    ParseFloatDigits(b);
    ParseFloatDigits(l);
    MarginsOfParts(Join(parts, ","), parts,
      Margins(DigitsValue(t) as real, DigitsValue(r) as real, DigitsValue(b) as real, DigitsValue(l) as real));
  }

  /** Numbers joined by commas split back into the same numbers. */
  lemma SplitNumbers(parts: seq<string>)
    requires |parts| >= 1 && forall i | 0 <= i < |parts| :: parts[i] != [] && AllDigits(parts[i])
    ensures Split(Join(parts, ","), ',') == parts
  {
    forall i | 0 <= i < |parts| ensures ',' !in parts[i] {
      DigitsAreSizeField(parts[i]);
    }
    SplitJoin(parts, ',');
  }

  /** Four numbers give the margins in the order top, right, bottom, left. */
  lemma MarginsOfParts(value: string, parts: seq<string>, m: Margins)
    requires Split(value, ',') == parts && |parts| == 4
    requires ParseFloat(parts[0]) == Some(m.top) && ParseFloat(parts[1]) == Some(m.right)
    requires ParseFloat(parts[2]) == Some(m.bottom) && ParseFloat(parts[3]) == Some(m.left)
    ensures ParseMargins(value) == Ok(m)
  {
    assert AllFloats(parts) by {
      forall i | 0 <= i < |parts| ensures ParseFloat(parts[i]).Some? {
        assert i == 0 || i == 1 || i == 2 || i == 3;
      }
    }
    var r := ParseMargins(value);
    assert r.Ok?;
    assert r.value == Margins(m.top, m.right, m.bottom, m.left);
  }

  /** Three numbers, or five, are rejected: margins need exactly four. */
  lemma MarginsNeedFour(value: string)
    requires |Split(value, ',')| != 4
    ensures ParseMargins(value) == Err(BadOption("unrecognized margins: " + value))
  {
  }

  // ---------------------------------------------------------------------
  // Keyword options

  /** `optmap_layout`, the values of `--page-layout`. */
  const LayoutMap: map<string, string> := map["single" := "SinglePage", "cont" := "OneColumn", "cont-facing" := "TwoColumnLeft"]

  /** `optmap_perm`, the values of `--user-perm`. */
  const PermMap: map<string, string> := map["no_copy" := "no_copy", "no_print" := "no_print", "no_modify" := "no_modify"]

  /**
   * `hook_string_remap`: each comma-separated value is replaced by its
   * entry in `optmap` and the results are joined with `;`; an unknown value
   * is rejected, and so is more than one value unless the option takes a list.
   */
  function StringRemap(values: string, optmap: map<string, string>, isList: bool): (r: Result<string>)
    ensures r.Err? ==> r.error == BadOption("unrecognized value: " + values)
    ensures r.Ok? <==> (forall i | 0 <= i < |Split(values, ',')| :: Split(values, ',')[i] in optmap)
                       && (isList || |Split(values, ',')| == 1)
    ensures r.Ok? ==> r.value == Join(Remapped(Split(values, ','), optmap), ";")
  {
    var parts := Split(values, ',');
    if !(forall i | 0 <= i < |parts| :: parts[i] in optmap) then Err(BadOption("unrecognized value: " + values))
    else if !isList && |parts| > 1 then Err(BadOption("unrecognized value: " + values))
    else Ok(Join(Remapped(parts, optmap), ";"))
  }

  function Remapped(parts: seq<string>, optmap: map<string, string>): (r: seq<string>)
    requires forall i | 0 <= i < |parts| :: parts[i] in optmap
    ensures |r| == |parts| && forall i | 0 <= i < |parts| :: r[i] == optmap[parts[i]]
  {
    seq(|parts|, i requires 0 <= i < |parts| => optmap[parts[i]])
  }

  /** A list of known keywords, written with commas, remaps to their values joined by `;`. */
  lemma StringRemapList(keys: seq<string>, optmap: map<string, string>)
    requires |keys| >= 1
    requires forall i | 0 <= i < |keys| :: keys[i] in optmap && ',' !in keys[i]
    ensures StringRemap(Join(keys, ","), optmap, true) == Ok(Join(Remapped(keys, optmap), ";"))
  {
    SplitJoin(keys, ',');
  }

  /** One keyword, no comma: its entry if it has one, rejected otherwise. */
  lemma RemapOne(value: string, optmap: map<string, string>, isList: bool)
    requires ',' !in value
    ensures value in optmap ==> StringRemap(value, optmap, isList) == Ok(optmap[value])
    ensures value !in optmap ==> StringRemap(value, optmap, isList) == Err(BadOption("unrecognized value: " + value))
  {
    SplitNoSeparator(value, ',');
    if value in optmap {
      assert Remapped([value], optmap) == [optmap[value]];
    }
  }

  /** Two known keywords: remapped and joined with `;` for a list option, rejected otherwise. */
  lemma RemapTwo(a: string, b: string, optmap: map<string, string>)
    requires ',' !in a && ',' !in b && a in optmap && b in optmap
    ensures StringRemap(a + "," + b, optmap, true) == Ok(optmap[a] + ";" + optmap[b])
    ensures StringRemap(a + "," + b, optmap, false).Err?
  {
    SplitJoin([a, b], ',');
    assert Join([a, b], [',']) == a + "," + b;
    var r := [optmap[a], optmap[b]];
    assert Remapped([a, b], optmap) == r;
    assert r[1..] == [optmap[b]];
    assert Join(r, ";") == optmap[a] + ";" + Join([optmap[b]], ";");
  }

  /** `--page-layout` takes one value: a single keyword maps to the viewer's name, two are rejected. */
  lemma PageLayoutValues()
    ensures StringRemap("cont-facing", LayoutMap, false) == Ok("TwoColumnLeft")
    ensures StringRemap("single,cont", LayoutMap, false).Err?
    ensures StringRemap("facing", LayoutMap, false).Err?
  {
    assert "single" + "," + "cont" == "single,cont";
    LayoutOne();
    RemapTwo("single", "cont", LayoutMap);
  }

  lemma LayoutOne()
    ensures StringRemap("cont-facing", LayoutMap, false) == Ok("TwoColumnLeft")
    ensures StringRemap("facing", LayoutMap, false).Err?
  {
    assert "facing" !in LayoutMap;
    RemapOne("cont-facing", LayoutMap, false);
    RemapOne("facing", LayoutMap, false);
  }

  /** `--user-perm` takes a list: `no_print,no_copy` becomes `no_print;no_copy`. */
  lemma UserPermValues()
    ensures StringRemap("no_print,no_copy", PermMap, true) == Ok("no_print;no_copy")
  {
    RemapTwo("no_print", "no_copy", PermMap);
    assert "no_print" + "," + "no_copy" == "no_print,no_copy";
    assert "no_print" + ";" + "no_copy" == "no_print;no_copy";
  }

  // ---------------------------------------------------------------------
  // Separator and initial destination

  /** `hook_separator`: `break` is a page break, anything else must be a number of points. */
  function ParseSeparator(value: string): (r: Result<Separator>)
    ensures value == "break" <==> r == Ok(PageBreak)
    ensures value != "break" ==> (r.Ok? <==> ParseFloat(value).Some?)
    ensures value != "break" && r.Ok? ==> r.value == Gap(ParseFloat(value).value)
    ensures r.Err? ==> r.error == BadOption("unrecognized value " + value)
  {
    if value == "break" then Ok(PageBreak)
    else
      match ParseFloat(value)
      case None => Err(BadOption("unrecognized value " + value))
      case Some(space) => Ok(Gap(space))
  }

  /** A whole number of points is a gap of that size. */
  lemma SeparatorNumber(n: nat)
    ensures ParseSeparator(NatToString(n)) == Ok(Gap(n as real))
  {
    ParseFloatNat(n);
    assert NatToString(n) != "break" by { assert IsDigit(NatToString(n)[0]); }
  }

  /** The initial view of the document: a zoom factor, or one of the fit modes. */
  datatype Destination = Zoom(factor: real) | Fit(mode: string)

  const FitModes: map<string, string> := map["fith" := "FitH", "fitv" := "FitV", "fit" := "Fit"]

  /** `hook_destination`: a number is a zoom factor, otherwise one of `fith`, `fitv`, `fit` (lower case only). */
  function ParseDestination(value: string): (r: Result<Destination>)
    ensures ParseFloat(value).Some? ==> r == Ok(Zoom(ParseFloat(value).value))
    ensures ParseFloat(value).None? ==> (r.Ok? <==> value in FitModes)
    ensures r.Ok? && r.value.Fit? ==> value in FitModes && r.value.mode == FitModes[value]
    ensures r.Err? ==> r.error == BadOption("unrecognized destination: " + value)
  {
    match ParseFloat(value)
    case Some(zoom) => Ok(Zoom(zoom))
    case None =>
      if value in FitModes then Ok(Fit(FitModes[value]))
      else Err(BadOption("unrecognized destination: " + value))
  }

  /** The three fit keywords are not numbers, so each selects its mode. */
  lemma DestinationModes(value: string)
    requires value in FitModes
    ensures ParseDestination(value) == Ok(Fit(FitModes[value]))
  {
    assert value == "fith" || value == "fitv" || value == "fit";
    assert !IsDigit(value[0]) && !IsDigit(value[1]) && !IsDigit(value[2]);
    assert |value| == 4 ==> !IsDigit(value[3]);
    DestinationWord(value);
  }

  /** The fit keywords are matched case-sensitively. */
  lemma DestinationCase()
    ensures ParseDestination("FIT").Err?
  {
    var v := "FIT";
    assert !IsDigit(v[0]) && !IsDigit(v[1]) && !IsDigit(v[2]);
    assert v !in FitModes;
    DestinationWord(v);
  }

  /** A word without digits is never a zoom factor: it is a fit mode or rejected. */
  lemma DestinationWord(value: string)
    requires forall i | 0 <= i < |value| :: !IsDigit(value[i])
    ensures value in FitModes ==> ParseDestination(value) == Ok(Fit(FitModes[value]))
    ensures value !in FitModes ==> ParseDestination(value) == Err(BadOption("unrecognized destination: " + value))
  {
    NoDigitNoFloat(value);
  }

  lemma NoDigitNoFloat(s: string)
    requires forall i | 0 <= i < |s| :: !IsDigit(s[i])
    ensures ParseFloat(s).None?
  {
    if ParseFloat(s).Some? {
      ParseFloatNeedsDigit(s);
    }
  }
}
