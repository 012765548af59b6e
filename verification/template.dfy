/**
 * Bookmark titles: the template given with `--bookmark` in which
 * `%basename`, `%path` and `%page` stand for the input's file name, its path
 * and the one-based number of the page the bookmark points to.
 */
module Template {
  import opened Strings

  /**
   * One left-to-right pass of `re.sub` with the pattern
   * `%basename|%path|%page`: at each position a key that starts there is
   * replaced by its value and the scan resumes after the key; otherwise the
   * character is copied. Every key starts with `%` and no key is a prefix of
   * another, so the order of the alternatives does not matter.
   */
  function Subst(text: string, basename: string, path: string, page: string): (r: string)
    ensures '%' !in text ==> r == text
    decreases |text|
  {
    if text == [] then []
    else if text[0] != '%' then
      assert '%' !in text ==> '%' !in text[1..] by {
        if '%' !in text { assert forall i | 0 <= i < |text[1..]| :: text[1..][i] == text[i + 1]; }
      }
      [text[0]] + Subst(text[1..], basename, path, page)
    else if StartsWith(text, "%basename") then basename + Subst(text[9..], basename, path, page)
    else if StartsWith(text, "%path") then path + Subst(text[5..], basename, path, page)
    else if StartsWith(text, "%page") then page + Subst(text[5..], basename, path, page)
    else "%" + Subst(text[1..], basename, path, page)
  }

  /** `subst_template`: the values are the input's base name, its path and `str(page_nr + 1)`. */
  function SubstTemplate(template: string, inputName: string, pageNr: nat): (r: string)
    ensures '%' !in template ==> r == template
  {
    Subst(template, Basename(inputName), inputName, NatToString(pageNr + 1))
  }

  /** Text before the first `%` is copied unchanged, whatever follows it. */
  lemma {:induction false} SubstLiteralPrefix(a: string, b: string, basename: string, path: string, page: string)
    requires '%' !in a
    ensures Subst(a + b, basename, path, page) == a + Subst(b, basename, path, page)
  {
    if a != [] {
      var t := a + b;
      assert t[0] == a[0] && t[0] != '%';
      assert t[1..] == a[1..] + b;
      SubstLiteralPrefix(a[1..], b, basename, path, page);
      assert [a[0]] + a[1..] == a;
    } else {
      assert a + b == b;
    }
  }

  /** Each key is replaced by its own value and the rest is substituted in turn. */
  lemma SubstKeys(rest: string, basename: string, path: string, page: string)
    ensures Subst("%basename" + rest, basename, path, page) == basename + Subst(rest, basename, path, page)
    ensures Subst("%path" + rest, basename, path, page) == path + Subst(rest, basename, path, page)
    ensures Subst("%page" + rest, basename, path, page) == page + Subst(rest, basename, path, page)
  {
    var b, p, g := "%basename" + rest, "%path" + rest, "%page" + rest;
    assert b[..9] == "%basename" && b[9..] == rest;
    assert p[..5] == "%path" && p[5..] == rest;
    assert g[..5] == "%page" && g[5..] == rest;
    assert !StartsWith(p, "%basename") by { assert p[1] != "%basename"[1]; }
    assert !StartsWith(g, "%basename") by { assert g[1] != "%basename"[1]; }
    assert !StartsWith(g, "%path") by { assert g[3] != "%path"[3]; }
  }

  /** A `%` that starts no key is kept as it is. */
  lemma SubstPercent(rest: string, basename: string, path: string, page: string)
    requires !StartsWith("%" + rest, "%basename") && !StartsWith("%" + rest, "%path")
    requires !StartsWith("%" + rest, "%page")
    ensures Subst("%" + rest, basename, path, page) == "%" + Subst(rest, basename, path, page)
  {
    assert ("%" + rest)[1..] == rest;
  }

  /**
   * A template made of literal text and keys: the literal parts come out
   * unchanged, and the key between them becomes its value.
   */
  lemma SubstAroundKey(a: string, b: string, basename: string, path: string, page: string)
    requires '%' !in a && '%' !in b
    ensures Subst(a + "%page" + b, basename, path, page) == a + page + b
    ensures Subst(a + "%path" + b, basename, path, page) == a + path + b
    ensures Subst(a + "%basename" + b, basename, path, page) == a + basename + b
  {
    SubstKeys(b, basename, path, page);
    SubstBetween(a, "%page", b, page, basename, path, page);
    SubstBetween(a, "%path", b, path, basename, path, page);
    SubstBetween(a, "%basename", b, basename, basename, path, page);
  }

  /** Literal text, then a key whose replacement is already known, then literal text. */
  lemma SubstBetween(a: string, key: string, b: string, value: string, basename: string, path: string, page: string)
    requires '%' !in a && '%' !in b
    requires Subst(key + b, basename, path, page) == value + Subst(b, basename, path, page)
    ensures Subst(a + key + b, basename, path, page) == a + value + b
  {
    assert a + key + b == a + (key + b);
    SubstLiteralPrefix(a, key + b, basename, path, page);
    assert a + (value + b) == a + value + b;
  }

  /**
   * A template described piece by piece: literal text, or one of the three
   * keys. Render spells a description out as the template text; Expand
   * writes each literal as it is and each key as its value.
   */
  datatype Piece = Literal(text: string) | BasenameKey | PathKey | PageKey

  function Spell(p: Piece): string {
    match p
    case Literal(text) => text
    case BasenameKey => "%basename"
    case PathKey => "%path"
    case PageKey => "%page"
  }

  function Render(ps: seq<Piece>): string {
    if ps == [] then [] else Spell(ps[0]) + Render(ps[1..])
  }

  function Expand(ps: seq<Piece>, basename: string, path: string, page: string): string {
    if ps == [] then []
    else
      var head := match ps[0]
        case Literal(text) => text
        case BasenameKey => basename
        case PathKey => path
        case PageKey => page;
      head + Expand(ps[1..], basename, path, page)
  }

  /** No literal piece holds a `%` of its own. */
  predicate PlainLiterals(ps: seq<Piece>) {
    forall i | 0 <= i < |ps| :: ps[i].Literal? ==> '%' !in ps[i].text
  }

  /**
   * Substitution agrees with the piecewise reading: in a template whose
   * literal text holds no `%`, every key becomes its value and every literal
   * is kept, in order.
   */
  lemma {:induction false} SubstRendered(ps: seq<Piece>, basename: string, path: string, page: string)
    requires PlainLiterals(ps)
    ensures Subst(Render(ps), basename, path, page) == Expand(ps, basename, path, page)
    decreases |ps|
  {
    if ps != [] {
      var rest := Render(ps[1..]);
      assert PlainLiterals(ps[1..]) by {
        forall i | 0 <= i < |ps[1..]| ensures ps[1..][i].Literal? ==> '%' !in ps[1..][i].text {
          assert ps[1..][i] == ps[i + 1];
        }
      }
      SubstRendered(ps[1..], basename, path, page);
      match ps[0]
      case Literal(text) =>
        SubstLiteralPrefix(text, rest, basename, path, page);
      case BasenameKey =>
        SubstKeys(rest, basename, path, page);
      case PathKey =>
        SubstKeys(rest, basename, path, page);
      case PageKey =>
        SubstKeys(rest, basename, path, page);
    }
  }

  /**
   * `subst_template` on a template read piece by piece: `%basename` becomes
   * the base name of the input, `%path` the input's name as given, `%page`
   * the one-based page number, and the literal text stays.
   */
  lemma SubstTemplateExpands(ps: seq<Piece>, inputName: string, pageNr: nat)
    requires PlainLiterals(ps)
    ensures SubstTemplate(Render(ps), inputName, pageNr)
         == Expand(ps, Basename(inputName), inputName, NatToString(pageNr + 1))
  {
    SubstRendered(ps, Basename(inputName), inputName, NatToString(pageNr + 1));
  }

  /** One key between `%`-free texts, for each of the three keys. */
  lemma SubstTemplateKeys(a: string, b: string, inputName: string, pageNr: nat)
    requires '%' !in a && '%' !in b
    ensures SubstTemplate(a + "%page" + b, inputName, pageNr) == a + NatToString(pageNr + 1) + b
    ensures SubstTemplate(a + "%path" + b, inputName, pageNr) == a + inputName + b
    ensures SubstTemplate(a + "%basename" + b, inputName, pageNr) == a + Basename(inputName) + b
  {
    SubstAroundKey(a, b, Basename(inputName), inputName, NatToString(pageNr + 1));
  }

  /** The bookmark of the first page of `/a/b/report.txt` with template `%basename p.%page` reads `report.txt p.1`. */
  lemma ReportBookmark()
    ensures SubstTemplate("%basename p.%page", "/a/b/report.txt", 0) == "report.txt p.1"
  {
    ReportBasename();
    assert NatToString(1) == "1";
    ReportSubst("/a/b/report.txt");
  }

  lemma ReportBasename()
    ensures Basename("/a/b/report.txt") == "report.txt"
  {
    assert "/a/b/report.txt" == "/a/b" + "/" + "report.txt";
    BasenameAfterSlash("/a/b", "report.txt");
  }

  lemma ReportSubst(path: string)
    ensures Subst("%basename p.%page", "report.txt", path, "1") == "report.txt p.1"
  {
    var tail := " p.%page";
    ReportLiterals();
    SubstKeys(tail, "report.txt", path, "1");
    ReportTail("report.txt", path, "1");
  }

  lemma ReportLiterals()
    ensures "%basename" + " p.%page" == "%basename p.%page"
    ensures "report.txt" + (" p." + "1") == "report.txt p.1"
  {
  }

  lemma ReportTail(basename: string, path: string, page: string)
    ensures Subst(" p.%page", basename, path, page) == " p." + page
  {
    SubstAroundKey(" p.", [], basename, path, page);
    assert " p." + "%page" + [] == " p.%page";
  }

  /** The base name of `dir/name` is `name` when `name` has no slash. */
  lemma {:induction false} BasenameAfterSlash(dir: string, name: string)
    requires '/' !in name
    ensures Basename(dir + "/" + name) == name
    decreases |name|
  {
    var p := dir + "/" + name;
    if name == [] {
      assert p[|p| - 1] == '/';
    } else {
      var init := name[..|name| - 1];
      assert p[..|p| - 1] == dir + "/" + init;
      assert '/' !in init by {
        assert forall i | 0 <= i < |init| :: init[i] == name[i];
      }
      BasenameAfterSlash(dir, init);
      assert init + [name[|name| - 1]] == name;
    }
  }
}
