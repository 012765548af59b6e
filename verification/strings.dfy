/**
 * The small part of Python 2's `str` behaviour the tool relies on: whitespace
 * as `str.split()`/`str.strip()` understand it, `split` on one separator,
 * `join`, `os.path.basename`, `str(int)` and ASCII `lower()`.
 */
module Strings {

  /** The characters Python 2's `str.isspace` accepts. */
  predicate IsSpace(c: char) {
    c == ' ' || c == '\t' || c == '\n' || c == '\r' || c == '\U{000B}' || c == '\U{000C}'
  }

  predicate NoSpace(s: string) {
    forall i | 0 <= i < |s| :: !IsSpace(s[i])
  }

  predicate IsDigit(c: char) {
    '0' <= c <= '9'
  }

  predicate AllDigits(s: string) {
    forall i | 0 <= i < |s| :: IsDigit(s[i])
  }

  function DigitValue(c: char): nat
    requires IsDigit(c)
  {
    (c as int) - ('0' as int)
  }

  function DigitChar(d: nat): (c: char)
    requires d < 10
    ensures IsDigit(c) && DigitValue(c) == d
  {
    ('0' as int + d) as char
  }

  /** The number a string of decimal digits denotes (most significant digit first). */
  function DigitsValue(s: string): nat
    requires AllDigits(s)
  {
    if s == [] then 0 else DigitsValue(s[..|s| - 1]) * 10 + DigitValue(s[|s| - 1])
  }

  /** Python's `str(n)` for a non-negative integer. */
  function NatToString(n: nat): (s: string)
    ensures |s| >= 1 && AllDigits(s)
    ensures DigitsValue(s) == n
    ensures s[0] == '0' ==> s == "0"
  {
    if n < 10 then [DigitChar(n)]
    else
      var prefix := NatToString(n / 10);
      var s := prefix + [DigitChar(n % 10)];
      assert s[..|s| - 1] == prefix;
      s
  }

  predicate StartsWith(s: string, prefix: string) {
    |prefix| <= |s| && s[..|prefix|] == prefix
  }

  /** `s.lstrip()` */
  function LStrip(s: string): (r: string)
    ensures |r| <= |s| && r == s[|s| - |r|..]
    ensures r == [] || !IsSpace(r[0])
    ensures forall i | 0 <= i < |s| - |r| :: IsSpace(s[i])
  {
    if s != [] && IsSpace(s[0]) then LStrip(s[1..]) else s
  }

  /** `s.rstrip()` */
  function RStrip(s: string): (r: string)
    ensures |r| <= |s| && r == s[..|r|]
    ensures r == [] || !IsSpace(r[|r| - 1])
    ensures forall i | |r| <= i < |s| :: IsSpace(s[i])
  {
    if s != [] && IsSpace(s[|s| - 1]) then RStrip(s[..|s| - 1]) else s
  }

  /** `s.strip()` */
  function Strip(s: string): (r: string)
    ensures r == [] || (!IsSpace(r[0]) && !IsSpace(r[|r| - 1]))
    ensures |r| <= |s|
  {
    RStrip(LStrip(s))
  }

  /** A string that neither starts nor ends with whitespace is left alone by `strip()`. */
  lemma StripClean(s: string)
    requires s != [] && !IsSpace(s[0]) && !IsSpace(s[|s| - 1])
    ensures Strip(s) == s
  {
    assert LStrip(s) == s;
  }

  /** `sep.join(parts)` */
  function Join(parts: seq<string>, sep: string): string {
    if |parts| == 0 then []
    else if |parts| == 1 then parts[0]
    else parts[0] + sep + Join(parts[1..], sep)
  }

  /** `s.split(sep)` for a one-character separator: the maximal pieces between separators. */
  function Split(s: string, sep: char): (parts: seq<string>)
    ensures |parts| >= 1
    ensures forall i | 0 <= i < |parts| :: sep !in parts[i]
    ensures Join(parts, [sep]) == s
  {
    if s == [] then [[]]
    else
      var rest := Split(s[1..], sep);
      if s[0] == sep then
        assert Join([[]] + rest, [sep]) == [sep] + Join(rest, [sep]);
        [[]] + rest
      else
        var parts := [[s[0]] + rest[0]] + rest[1..];
        assert parts[1..] == rest[1..];
        parts
  }

  /** Joining pieces that contain no separator and splitting again gives the pieces back. */
  lemma {:induction false} SplitJoin(parts: seq<string>, sep: char)
    requires |parts| >= 1
    requires forall i | 0 <= i < |parts| :: sep !in parts[i]
    ensures Split(Join(parts, [sep]), sep) == parts
    decreases |parts|, |parts[0]|
  {
    var s := Join(parts, [sep]);
    if parts[0] == [] {
      if |parts| == 1 {
      } else {
        assert s == [sep] + Join(parts[1..], [sep]);
        SplitJoin(parts[1..], sep);
        assert s[1..] == Join(parts[1..], [sep]);
      }
    } else {
      var c := parts[0][0];
      var tail := [parts[0][1..]] + parts[1..];
      assert tail[0] == parts[0][1..];
      assert tail[1..] == parts[1..];
      assert sep !in parts[0];
      assert c != sep;
      SplitJoin(tail, sep);
      assert s == [c] + Join(tail, [sep]);
      assert s[1..] == Join(tail, [sep]);
      assert [c] + tail[0] == parts[0];
      assert [[c] + tail[0]] + tail[1..] == parts;
    }
  }

  /** A string without the separator splits into itself alone. */
  lemma SplitNoSeparator(s: string, sep: char)
    requires sep !in s
    ensures Split(s, sep) == [s]
  {
    SplitJoin([s], sep);
  }

  /** The longest prefix of `s` holding no whitespace. */
  function LeadingWord(s: string): (w: string)
    ensures |w| <= |s| && w == s[..|w|] && NoSpace(w)
    ensures |w| < |s| ==> IsSpace(s[|w|])
  {
    if s == [] || IsSpace(s[0]) then []
    else
      var w := [s[0]] + LeadingWord(s[1..]);
      assert w == s[..|w|];
      w
  }

  /** `s.split()`: the runs of non-whitespace characters, in order. */
  function Words(s: string): (ws: seq<string>)
    ensures forall i | 0 <= i < |ws| :: ws[i] != [] && NoSpace(ws[i])
    decreases |s|
  {
    if s == [] then []
    else if IsSpace(s[0]) then Words(s[1..])
    else
      var w := LeadingWord(s);
      [w] + Words(s[|w|..])
  }

  predicate ValidWords(ws: seq<string>) {
    forall i | 0 <= i < |ws| :: ws[i] != [] && NoSpace(ws[i])
  }

  lemma {:induction false} WordsSkipSpace(s: string, t: string)
    requires forall i | 0 <= i < |s| :: IsSpace(s[i])
    ensures Words(s + t) == Words(t)
    decreases |s|
  {
    if s == [] {
      assert s + t == t;
    } else {
      assert (s + t)[0] == s[0];
      assert (s + t)[1..] == s[1..] + t;
      WordsSkipSpace(s[1..], t);
      assert Words(s + t) == Words((s + t)[1..]);
    }
  }

  lemma {:induction false} LeadingWordOf(w: string, t: string)
    requires NoSpace(w)
    requires t == [] || IsSpace(t[0])
    ensures LeadingWord(w + t) == w
  {
    if w != [] {
      assert (w + t)[0] == w[0];
      assert (w + t)[1..] == w[1..] + t;
      LeadingWordOf(w[1..], t);
    }
  }

  /** Joining words with single spaces and splitting on whitespace gives the words back. */
  lemma {:induction false} WordsJoin(ws: seq<string>)
    requires ValidWords(ws)
    ensures Words(Join(ws, " ")) == ws
    decreases |ws|
  {
    if |ws| == 0 {
    } else if |ws| == 1 {
      assert ws[0] + [] == ws[0];
      LeadingWordOf(ws[0], []);
      assert ws[0][|ws[0]|..] == [];
    } else {
      var rest := Join(ws[1..], " ");
      var s := ws[0] + (" " + rest);
      assert Join(ws, " ") == s;
      assert s[0] == ws[0][0] && !IsSpace(s[0]);
      assert LeadingWord(s) == ws[0] by { LeadingWordOf(ws[0], " " + rest); }
      assert s[|ws[0]|..] == " " + rest;
      assert Words(s) == [ws[0]] + Words(" " + rest);
      assert Words(" " + rest) == Words(rest) by { WordsSkipSpace(" ", rest); }
      assert ValidWords(ws[1..]) by {
        forall i | 0 <= i < |ws[1..]| ensures ws[1..][i] != [] && NoSpace(ws[1..][i]) {
          assert ws[1..][i] == ws[i + 1];
        }
      }
      WordsJoin(ws[1..]);
      assert [ws[0]] + ws[1..] == ws;
    }
  }

  /** `os.path.basename` (POSIX): everything after the last slash. */
  function Basename(p: string): (b: string)
    ensures '/' !in b
    ensures |b| <= |p| && b == p[|p| - |b|..]
    ensures |b| < |p| ==> p[|p| - |b| - 1] == '/'
  {
    if p == [] || p[|p| - 1] == '/' then []
    else
      var b := Basename(p[..|p| - 1]) + [p[|p| - 1]];
      b
  }

  /** Python 2's `str.lower()`: only ASCII letters change. */
  function Lower(s: string): (r: string)
    ensures |r| == |s|
    ensures forall i | 0 <= i < |s| :: !('A' <= r[i] <= 'Z')
    ensures forall i | 0 <= i < |s| :: if 'A' <= s[i] <= 'Z' then r[i] as int == s[i] as int + 32 else r[i] == s[i]
  {
    seq(|s|, i requires 0 <= i < |s| => if 'A' <= s[i] <= 'Z' then (s[i] as int + 32) as char else s[i])
  }

  /** Lower-casing twice is lower-casing once, and text without capitals is left alone. */
  lemma LowerIdempotent(s: string)
    ensures Lower(Lower(s)) == Lower(s)
    ensures (forall i | 0 <= i < |s| :: !('A' <= s[i] <= 'Z')) ==> Lower(s) == s
  {
  }
}
