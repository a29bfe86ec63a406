/**
 * The language toggle of the site: English pages `page.html` and Chinese
 * pages `page-cn.html` side by side. The DOM, `localStorage` and
 * `window.location` are the fields of `LanguagePage`; the URL arithmetic is
 * pure.
 */
module LanguageSwitcher {
  import opened Wrappers
  import opened JsStrings

  datatype Lang = En | Cn

  /** The language codes the script writes: 'en' and 'cn'. */
  function Code(l: Lang): string
  {
    match l
    case En => "en"
    case Cn => "cn"
  }

  function Opposite(l: Lang): Lang
  {
    if l == En then Cn else En
  }

  const PreferenceKey := "preferredLang"
  const CnMarker := "-cn.html"
  const CnSuffix := "-cn"
  const RootFile := "index.html"

  // ---------- Language of a page ----------

  /** A page is Chinese exactly when its path includes '-cn.html'. */
  function PageLang(path: string): (l: Lang)
    ensures l == Cn <==> Includes(path, CnMarker)
  {
    if Includes(path, CnMarker) then Cn else En
  }

  /**
   * `getPreferredLanguage`: 'cn' on a '-cn.html' page, otherwise the stored
   * preference if it is a non-empty string, otherwise 'en'.
   */
  function PreferredLanguage(path: string, storage: map<string, string>): (r: string)
    ensures Includes(path, CnMarker) ==> r == "cn"
    ensures !Includes(path, CnMarker) && PreferenceKey in storage && storage[PreferenceKey] != "" ==> r == storage[PreferenceKey]
    ensures !Includes(path, CnMarker) && (PreferenceKey !in storage || storage[PreferenceKey] == "") ==> r == "en"
  {
    if Includes(path, CnMarker) then "cn"
    else if PreferenceKey in storage && storage[PreferenceKey] != "" then storage[PreferenceKey]
    else "en"
  }

  /** `setPreferredLanguage`: one `localStorage.setItem`. */
  function SetPreferredLanguage(storage: map<string, string>, l: Lang): (r: map<string, string>)
    ensures r.Keys == storage.Keys + {PreferenceKey} && r[PreferenceKey] == Code(l)
    ensures forall k :: k in storage && k != PreferenceKey ==> r[k] == storage[k]
  {
    storage[PreferenceKey := Code(l)]
  }

  /** What page load stores is what `getPreferredLanguage` then reads. */
  lemma StoredPreferenceAgreesWithPage(path: string, storage: map<string, string>)
    ensures PreferredLanguage(path, SetPreferredLanguage(storage, PageLang(path))) == Code(PageLang(path))
    ensures SetPreferredLanguage(storage, PageLang(path)).Keys == storage.Keys + {PreferenceKey}
  {
  }

  // ---------- getLocalizedUrl ----------

  /** The last '/'-segment of a path ('' for a path ending in '/'). */
  function LastSegment(path: string): (r: string)
    ensures '/' !in r
  {
    Last(Split(path, '/'))
  }

  /** The file name, with the root ('' segment) read as 'index.html'. */
  function FileName(path: string): (r: string)
    ensures '/' !in r && r != ""
    ensures LastSegment(path) != "" ==> r == LastSegment(path)
  {
    var f := LastSegment(path);
    // the '/' alternative is kept from the script; a segment never holds '/'
    if f == "" || f == "/" then RootFile else f
  }

  /** `split('.')[0]`: the text before the first '.'. */
  function BaseName(file: string): (r: string)
    ensures '.' !in r
  {
    Split(file, '.')[0]
  }

  /** `split('.').pop()`: the text after the last '.' (the whole name when there is none). */
  function Extension(file: string): (r: string)
    ensures '.' !in r
  {
    Last(Split(file, '.'))
  }

  /** Removes one trailing '-cn', if there is one. */
  function StripCn(base: string): (r: string)
    ensures r <= base
    ensures EndsWith(base, CnSuffix) ==> r + CnSuffix == base
    ensures !EndsWith(base, CnSuffix) ==> r == base
  {
    if EndsWith(base, CnSuffix) then base[..|base| - 3] else base
  }

  function Suffix(l: Lang): string
  {
    if l == Cn then CnSuffix else ""
  }

  /** `${newFilename}.${extension}` */
  function LocalizedFileName(file: string, l: Lang): string
  {
    StripCn(BaseName(file)) + Suffix(l) + "." + Extension(file)
  }

  /**
   * `getLocalizedUrl(path, lang)`: the path with its last segment replaced.
   * The result splits back into the same earlier segments followed by the
   * localised file name.
   */
  function Localize(path: string, l: Lang): (r: string)
    ensures Split(r, '/') == DropLast(Split(path, '/')) + [LocalizedFileName(FileName(path), l)]
  {
    var qs := DropLast(Split(path, '/')) + [LocalizedFileName(FileName(path), l)];
    LocalizedSegmentsSepFree(path, l);
    SplitJoin(qs, '/');
    Join(qs, '/')
  }

  /** The segments `Localize` joins hold no '/'. */
  lemma LocalizedSegmentsSepFree(path: string, l: Lang)
    ensures SepFree(DropLast(Split(path, '/')) + [LocalizedFileName(FileName(path), l)], '/')
  {
    var ps := Split(path, '/');
    var qs := DropLast(ps) + [LocalizedFileName(FileName(path), l)];
    LocalizedFileNameHasNoSlash(FileName(path), l);
    forall k | 0 <= k < |qs| ensures '/' !in qs[k] {
      if k < |qs| - 1 { assert qs[k] == ps[k]; }
    }
  }

  /** Neither the base nor the extension of a name without '/' holds '/'. */
  lemma LocalizedFileNameHasNoSlash(file: string, l: Lang)
    requires '/' !in file
    ensures '/' !in LocalizedFileName(file, l)
  {
    PieceLacks(file, '.', 0, '/');
    PieceLacks(file, '.', |Split(file, '.')| - 1, '/');
    PrefixLacks(StripCn(BaseName(file)), BaseName(file), '/');
  }

  /**
   * Localising changes only the last segment: the result has as many
   * segments as the input, the same segments before the last one, and the
   * localised file name as its last segment.
   */
  lemma LocalizeSegments(path: string, l: Lang)
    ensures |Split(Localize(path, l), '/')| == |Split(path, '/')|
    ensures forall k :: 0 <= k < |Split(path, '/')| - 1 ==> Split(Localize(path, l), '/')[k] == Split(path, '/')[k]
    ensures LastSegment(Localize(path, l)) == LocalizedFileName(FileName(path), l)
  {
  }

  /** The name `x.e`, with no other '.', splits into base `x` and extension `e`. */
  lemma BaseAndExtension(x: string, e: string)
    requires '.' !in x && '.' !in e
    ensures BaseName(x + "." + e) == x
    ensures Extension(x + "." + e) == e
  {
    SplitJoin([x, e], '.');
  }

  /** A name of the form `x.e` is never read as the root. */
  lemma DottedNameIsFileName(path: string, x: string, e: string)
    requires LastSegment(path) == x + "." + e
    ensures FileName(path) == x + "." + e
  {
    assert (x + "." + e)[|x|] == '.';
  }

  /**
   * A path whose last segment is `x.e` (one '.') localises to the same
   * earlier segments followed by `x`, stripped of one '-cn', the language's
   * suffix, and `.e`.
   */
  lemma LocalizeByParts(path: string, x: string, e: string, l: Lang)
    requires LastSegment(path) == x + "." + e
    requires '.' !in x && '.' !in e
    ensures Localize(path, l) == Join(DropLast(Split(path, '/')) + [StripCn(x) + Suffix(l) + "." + e], '/')
  {
    DottedNameIsFileName(path, x, e);
    BaseAndExtension(x, e);
  }

  /** A localised file name has the stripped base plus the language's suffix, and the original extension. */
  lemma LocalizedFileNameParts(file: string, l: Lang)
    ensures BaseName(LocalizedFileName(file, l)) == StripCn(BaseName(file)) + Suffix(l)
    ensures Extension(LocalizedFileName(file, l)) == Extension(file)
  {
    var b := StripCn(BaseName(file));
    assert '.' !in BaseName(file);
    PrefixLacks(b, BaseName(file), '.');
    assert '.' !in Extension(file);
    BaseAndExtension(b + Suffix(l), Extension(file));
  }

  /**
   * The base of the localised name ends with '-cn' for Chinese; for English it
   * is the original base with at most one trailing '-cn' removed. The
   * extension is kept.
   */
  lemma LocalizedBaseName(path: string, l: Lang)
    ensures var b := BaseName(LastSegment(Localize(path, l)));
      (l == Cn ==> EndsWith(b, CnSuffix) && b == StripCn(BaseName(FileName(path))) + CnSuffix) &&
      (l == En ==> b == StripCn(BaseName(FileName(path))))
    ensures Extension(LastSegment(Localize(path, l))) == Extension(FileName(path))
  {
    LocalizeSegments(path, l);
    LocalizedFileNameParts(FileName(path), l);
  }

  /** Stripping what `Suffix(Cn)` appended gives the stripped base back. */
  lemma StripCnOfCn(x: string)
    ensures StripCn(x + CnSuffix) == x
  {
    assert EndsWith(x + CnSuffix, CnSuffix);
    assert (x + CnSuffix)[..|x|] == x;
  }

  /** The last segment of a Chinese-localised path is its own file name, with the stripped base plus '-cn'. */
  lemma CnLocalizedLastSegment(path: string)
    ensures FileName(Localize(path, Cn)) == LocalizedFileName(FileName(path), Cn)
    ensures StripCn(BaseName(FileName(Localize(path, Cn)))) == StripCn(BaseName(FileName(path)))
    ensures Extension(FileName(Localize(path, Cn))) == Extension(FileName(path))
  {
    var file := FileName(path);
    var g := LocalizedFileName(file, Cn);
    LocalizeSegments(path, Cn);
    assert g[|g| - 1 - |Extension(file)|] == '.';
    LocalizedFileNameParts(file, Cn);
    StripCnOfCn(StripCn(BaseName(file)));
  }

  /**
   * Localising a Chinese-localised path again, to either language, gives what
   * localising the original path to that language gives.
   */
  lemma LocalizeAfterCn(path: string, l: Lang)
    ensures Localize(Localize(path, Cn), l) == Localize(path, l)
  {
    var q := Localize(path, Cn);
    LocalizeSegments(path, Cn);
    CnLocalizedLastSegment(path);
    assert LocalizedFileName(FileName(q), l) == LocalizedFileName(FileName(path), l);
    assert DropLast(Split(q, '/')) == DropLast(Split(path, '/'));
  }

  /** Localising to Chinese is idempotent. */
  lemma LocalizeCnIdempotent(path: string)
    ensures Localize(Localize(path, Cn), Cn) == Localize(path, Cn)
  {
    LocalizeAfterCn(path, Cn);
  }

  /** Going to Chinese and then to English is the same as going to English directly. */
  lemma LocalizeCnThenEn(path: string)
    ensures Localize(Localize(path, Cn), En) == Localize(path, En)
  {
    LocalizeAfterCn(path, En);
  }

  /** Replacing the last segment by itself gives the path back. */
  lemma JoinSameLast(path: string, g: string)
    requires g == LastSegment(path)
    ensures Join(DropLast(Split(path, '/')) + [g], '/') == path
  {
    var ps := Split(path, '/');
    assert DropLast(ps) + [Last(ps)] == ps;
    JoinSplit(path, '/');
  }

  /** An English page `b.e` (one '.', base not ending in '-cn') is a fixed point of localising to English. */
  lemma EnPageFixed(path: string, b: string, e: string)
    requires LastSegment(path) == b + "." + e
    requires '.' !in b && '.' !in e && !EndsWith(b, CnSuffix)
    ensures Localize(path, En) == path
  {
    LocalizeByParts(path, b, e, En);
    assert StripCn(b) + Suffix(En) == b by {
      assert b + "" == b;
    }
    JoinSameLast(path, b + "." + e);
  }

  /**
   * Round trip: an English page `b.e` (one '.', base not ending in '-cn')
   * goes to its Chinese sibling and back to exactly the same path.
   */
  lemma RoundTripEnCnEn(path: string, b: string, e: string)
    requires LastSegment(path) == b + "." + e
    requires '.' !in b && '.' !in e && !EndsWith(b, CnSuffix)
    ensures Localize(Localize(path, Cn), En) == path
  {
    EnPageFixed(path, b, e);
    LocalizeCnThenEn(path);
  }

  /** A Chinese page `b-cn.e` (one '.') is a fixed point of localising to Chinese. */
  lemma CnPageFixed(path: string, b: string, e: string)
    requires LastSegment(path) == b + CnSuffix + "." + e
    requires '.' !in b && '.' !in e
    ensures Localize(path, Cn) == path
  {
    assert '.' !in CnSuffix;
    LocalizeByParts(path, b + CnSuffix, e, Cn);
    StripCnOfCn(b);
    JoinSameLast(path, b + CnSuffix + "." + e);
  }

  /** Localising `b-cn.e` to English leaves the directories and gives `b.e`. */
  lemma CnPageToEn(path: string, b: string, e: string)
    requires LastSegment(path) == b + CnSuffix + "." + e
    requires '.' !in b && '.' !in e
    ensures DropLast(Split(Localize(path, En), '/')) == DropLast(Split(path, '/'))
    ensures LastSegment(Localize(path, En)) == b + "." + e
  {
    DottedNameIsFileName(path, b + CnSuffix, e);
    CnNameToEn(b, e);
    LocalizeSegments(path, En);
  }

  /** The Chinese name `b-cn.e` (one '.') localises to English as `b.e`. */
  lemma CnNameToEn(b: string, e: string)
    requires '.' !in b && '.' !in e
    ensures LocalizedFileName(b + CnSuffix + "." + e, En) == b + "." + e
  {
    assert '.' !in CnSuffix;
    BaseAndExtension(b + CnSuffix, e);
    StripCnOfCn(b);
    assert b + Suffix(En) == b;
  }

  /**
   * Round trip from the Chinese side: `b-cn.e`, with `b` not itself ending in
   * '-cn', goes to English and back to exactly the same path.
   */
  lemma RoundTripCnEnCn(path: string, b: string, e: string)
    requires LastSegment(path) == b + CnSuffix + "." + e
    requires '.' !in b && '.' !in e && !EndsWith(b, CnSuffix)
    ensures Localize(Localize(path, En), Cn) == path
  {
    var q := Localize(path, En);
    CnPageToEn(path, b, e);
    LocalizeByParts(q, b, e, Cn);
    assert StripCn(b) + Suffix(Cn) + "." + e == b + CnSuffix + "." + e;
    JoinSameLast(path, b + CnSuffix + "." + e);
  }

  /** The file name that stands for the root, in each language. */
  lemma RootFileLocalized(l: Lang)
    ensures LocalizedFileName(RootFile, l) == "index" + Suffix(l) + ".html"
  {
    RootFileParts();
    assert "index" + Suffix(l) + "." + "html" == "index" + Suffix(l) + ".html";
  }

  /** 'index.html' has base 'index', which carries no '-cn', and extension 'html'. */
  lemma RootFileParts()
    ensures BaseName(RootFile) == "index" && Extension(RootFile) == "html"
    ensures StripCn("index") == "index"
  {
    var x, e := "index", "html";
    assert RootFile == x + "." + e;
    assert '.' !in x && '.' !in e;
    BaseAndExtension(x, e);
    assert x[|x| - 3..] != CnSuffix;
  }

  /** A name `x.e` whose base does not end in '-cn' gains just the language's suffix. */
  lemma LocalizedPlainName(x: string, e: string, l: Lang)
    requires '.' !in x && '.' !in e && !EndsWith(x, CnSuffix)
    ensures LocalizedFileName(x + "." + e, l) == x + Suffix(l) + "." + e
  {
    BaseAndExtension(x, e);
  }

  /** A path ending in '/' has the root file name as its last segment. */
  lemma DirectoryFileName(d: string)
    ensures Split(d + "/", '/') == Split(d, '/') + [""]
    ensures FileName(d + "/") == RootFile
  {
    SplitAfterSep(d, "", '/');
    assert d + "/" == d + ['/'] + "";
  }

  /**
   * A path ending in '/' is read as its 'index.html' and localised as that;
   * with `d` empty this is the root: '/' becomes '/index.html' in English and
   * '/index-cn.html' in Chinese.
   */
  lemma DirectoryPath(d: string, l: Lang)
    ensures Localize(d + "/", l) == d + "/" + ("index" + Suffix(l) + ".html")
  {
    var f := LocalizedFileName(RootFile, l);
    DirectoryFileName(d);
    assert DropLast(Split(d + "/", '/')) == Split(d, '/');
    JoinSnoc(Split(d, '/'), f, '/');
    JoinSplit(d, '/');
    RootFileLocalized(l);
  }

  /**
   * A path `d/x.e` with a plain file name localises to `d/` followed by the
   * localised name: the directory part is kept verbatim.
   */
  lemma LocalizeFilePath(d: string, x: string, e: string, l: Lang)
    requires '/' !in x && '/' !in e && '.' !in x && '.' !in e
    ensures Localize(d + "/" + (x + "." + e), l) == d + "/" + (StripCn(x) + Suffix(l) + "." + e)
  {
    var f := x + "." + e;
    assert '/' !in f;
    SplitAfterSep(d, f, '/');
    assert d + "/" + f == d + ['/'] + f;
    LocalizeByParts(d + "/" + f, x, e, l);
    assert DropLast(Split(d + "/" + f, '/')) == Split(d, '/');
    JoinSnoc(Split(d, '/'), StripCn(x) + Suffix(l) + "." + e, '/');
    JoinSplit(d, '/');
  }

  /** The name `x.y.e`, with two '.', splits into base `x` and extension `e`: `y` is in neither. */
  lemma TwoDotParts(x: string, y: string, e: string)
    requires '.' !in x && '.' !in y && '.' !in e
    ensures BaseName(x + "." + y + "." + e) == x
    ensures Extension(x + "." + y + "." + e) == e
  {
    assert Join([x, y, e], '.') == x + "." + y + "." + e by {
      assert Join([y, e], '.') == y + "." + e;
      assert [x, y, e][1..] == [y, e];
    }
    SplitJoin([x, y, e], '.');
  }

  /**
   * A file name with two '.' loses its middle part: `d/x.y.e` localises to
   * `d/` followed by the localised `x` and `.e`.
   */
  lemma LocalizeTwoDots(d: string, x: string, y: string, e: string, l: Lang)
    requires '/' !in x && '/' !in y && '/' !in e && '.' !in x && '.' !in y && '.' !in e
    ensures Localize(d + "/" + (x + "." + y + "." + e), l) == d + "/" + (StripCn(x) + Suffix(l) + "." + e)
  {
    var f := x + "." + y + "." + e;
    assert '/' !in f;
    SplitAfterSep(d, f, '/');
    assert d + "/" + f == d + ['/'] + f;
    assert f[|x|] == '.';
    assert FileName(d + "/" + f) == f;
    TwoDotParts(x, y, e);
    assert DropLast(Split(d + "/" + f, '/')) == Split(d, '/');
    JoinSnoc(Split(d, '/'), StripCn(x) + Suffix(l) + "." + e, '/');
    JoinSplit(d, '/');
  }

  /**
   * So the round trip through Chinese does not come back for such a name:
   * `d/x.y.e` goes to `d/x-cn.e` and then to `d/x.e` ('/a.b.html' becomes
   * '/a-cn.html' and then '/a.html').
   */
  lemma TwoDotsRoundTripLosesMiddle(d: string, x: string, y: string, e: string)
    requires '/' !in x && '/' !in y && '/' !in e && '.' !in x && '.' !in y && '.' !in e
    ensures Localize(Localize(d + "/" + (x + "." + y + "." + e), Cn), En) == d + "/" + (StripCn(x) + "." + e)
    ensures Localize(Localize(d + "/" + (x + "." + y + "." + e), Cn), En) != d + "/" + (x + "." + y + "." + e)
  {
    var p := d + "/" + (x + "." + y + "." + e);
    var b := StripCn(x);
    LocalizeTwoDots(d, x, y, e, Cn);
    CnNameBackToEn(d, x, e);
    var r := d + "/" + (b + "." + e);
    assert Localize(Localize(p, Cn), En) == r;
    assert |r| < |p|;
  }

  /** `d/x-cn.e`, with `x` already stripped, localises to English as `d/x.e`. */
  lemma CnNameBackToEn(d: string, x: string, e: string)
    requires '/' !in x && '/' !in e && '.' !in x && '.' !in e
    ensures Localize(d + "/" + (StripCn(x) + Suffix(Cn) + "." + e), En) == d + "/" + (StripCn(x) + "." + e)
  {
    var b := StripCn(x);
    CnBaseIsPlain(x);
    LocalizeFilePath(d, b + CnSuffix, e, En);
    StripCnOfCn(b);
  }

  /** The stripped base of a plain name, with '-cn' appended, is still plain. */
  lemma CnBaseIsPlain(x: string)
    requires '/' !in x && '.' !in x
    ensures '/' !in StripCn(x) + CnSuffix && '.' !in StripCn(x) + CnSuffix
  {
    PrefixLacks(StripCn(x), x, '.');
    PrefixLacks(StripCn(x), x, '/');
    assert '/' !in CnSuffix && '.' !in CnSuffix;
  }

  /**
   * Localising to English removes one '-cn' only, so it is not idempotent:
   * `d/b-cn-cn.e` goes to `d/b-cn.e` and then to `d/b.e`.
   */
  lemma EnNotIdempotent(d: string, b: string, e: string)
    requires '/' !in b && '/' !in e && '.' !in b && '.' !in e
    ensures Localize(d + "/" + (b + CnSuffix + CnSuffix + "." + e), En) == d + "/" + (b + CnSuffix + "." + e)
    ensures Localize(Localize(d + "/" + (b + CnSuffix + CnSuffix + "." + e), En), En) == d + "/" + (b + "." + e)
    ensures Localize(Localize(d + "/" + (b + CnSuffix + CnSuffix + "." + e), En), En)
         != Localize(d + "/" + (b + CnSuffix + CnSuffix + "." + e), En)
  {
    CnSuffixToEn(d, b + CnSuffix, e);
    CnSuffixToEn(d, b, e);
    assert |d + "/" + (b + "." + e)| < |d + "/" + (b + CnSuffix + "." + e)|;
  }

  /** `d/x-cn.e`, with `x` plain, localises to English as `d/x.e`, whatever `x` ends with. */
  lemma CnSuffixToEn(d: string, x: string, e: string)
    requires '/' !in x && '/' !in e && '.' !in x && '.' !in e
    ensures '/' !in x + CnSuffix && '.' !in x + CnSuffix
    ensures Localize(d + "/" + (x + CnSuffix + "." + e), En) == d + "/" + (x + "." + e)
  {
    assert '/' !in CnSuffix && '.' !in CnSuffix;
    LocalizeFilePath(d, x + CnSuffix, e, En);
    StripCnOfCn(x);
    assert x + Suffix(En) == x;
  }

  /**
   * A last segment `x` without '.' is its own extension: `d/x` localises to
   * `d/` followed by the localised base, '.', and `x` again ('/about' becomes
   * '/about-cn.about').
   */
  lemma LocalizeExtensionless(d: string, x: string, l: Lang)
    requires '/' !in x && '.' !in x && x != ""
    ensures Localize(d + "/" + x, l) == d + "/" + (StripCn(x) + Suffix(l) + "." + x)
  {
    SplitAfterSep(d, x, '/');
    assert d + "/" + x == d + ['/'] + x;
    SplitSepFree(x, '.');
    assert FileName(d + "/" + x) == x;
    assert DropLast(Split(d + "/" + x, '/')) == Split(d, '/');
    JoinSnoc(Split(d, '/'), StripCn(x) + Suffix(l) + "." + x, '/');
    JoinSplit(d, '/');
  }

  /** An href ending in '.html' names a file with the extension 'html'. */
  lemma HtmlFileExtension(href: string)
    requires EndsWith(href, ".html")
    ensures Extension(FileName(href)) == "html"
  {
    var s := href[..|href| - 5];
    assert href == s + ".html";
    SplitAppendFree(s, ".html", '/');
    var f := LastSegment(s) + ".html";
    assert LastSegment(href) == f;
    assert f == LastSegment(s) + ['.'] + "html";
    SplitAfterSep(LastSegment(s), "html", '.');
  }

  /** Pages whose href ends in '.html', and the root '/', have the extension 'html'. */
  lemma HtmlHrefExtension(href: string)
    requires EndsWith(href, ".html") || href == "/"
    ensures Extension(FileName(href)) == "html"
  {
    if href == "/" {
      DirectoryFileName("");
      assert "" + "/" == "/";
      assert RootFile == "index" + "." + "html";
      BaseAndExtension("index", "html");
    } else {
      HtmlFileExtension(href);
    }
  }

  /** Localising an HTML page to Chinese gives a path that is detected as Chinese. */
  lemma LocalizedCnIsDetected(path: string)
    requires Extension(FileName(path)) == "html"
    ensures PageLang(Localize(path, Cn)) == Cn
  {
    var pre := LocalizedPrefix(path);
    var x := StripCn(BaseName(FileName(path)));
    LocalizeIsPrefixThenName(path, Cn);
    CnHtmlNameEndsWithMarker(FileName(path));
    IncludesAfter(pre, x, CnMarker);
  }

  /** A string ending with `x` followed by `t` includes `t`. */
  lemma IncludesAfter(pre: string, x: string, t: string)
    ensures Includes(pre + (x + t), t)
  {
    assert pre + (x + t) == (pre + x) + t;
    IncludesSuffix(pre + x, t);
  }

  /** Everything of `Localize(path, l)` before its file name: the earlier segments, each followed by '/'. */
  function LocalizedPrefix(path: string): string
  {
    var ps := DropLast(Split(path, '/'));
    if ps == [] then "" else Join(ps, '/') + "/"
  }

  /** The localised path is its prefix followed by the localised file name. */
  lemma LocalizeIsPrefixThenName(path: string, l: Lang)
    ensures Localize(path, l) == LocalizedPrefix(path) + LocalizedFileName(FileName(path), l)
  {
    var ps := DropLast(Split(path, '/'));
    var g := LocalizedFileName(FileName(path), l);
    if ps == [] {
      assert ps + [g] == [g];
    } else {
      JoinSnoc(ps, g, '/');
    }
  }

  /** A Chinese HTML file name ends with '-cn.html'. */
  lemma CnHtmlNameEndsWithMarker(file: string)
    requires Extension(file) == "html"
    ensures LocalizedFileName(file, Cn) == StripCn(BaseName(file)) + CnMarker
  {
    assert CnSuffix + "." + "html" == CnMarker;
  }

  // ---------- applyLanguageToAllLinks ----------

  /** Hrefs the rewrite never touches: missing, empty, in-page, mail, phone, script or external. */
  predicate Skipped(href: Option<string>)
  {
    match href
    case None => true
    case Some(h) =>
      h == "" || StartsWith(h, "#") || StartsWith(h, "mailto:") || StartsWith(h, "tel:")
      || StartsWith(h, "javascript:") || StartsWith(h, "http")
  }

  /** Internal HTML pages: hrefs ending in '.html', and the root '/'. */
  predicate IsPageHref(h: string)
  {
    EndsWith(h, ".html") || h == "/"
  }

  /** The new href of one anchor. */
  function RewriteHref(href: Option<string>, l: Lang): (r: Option<string>)
    ensures r == href || (!Skipped(href) && IsPageHref(href.value) && r == Some(Localize(href.value, l)))
  {
    if Skipped(href) then href
    else if IsPageHref(href.value) then Some(Localize(href.value, l))
    else href
  }

  /**
   * An href is left alone exactly when it is skipped or is neither an HTML page
   * nor '/'; every other href becomes its localised URL.
   */
  lemma RewriteHrefCases(href: Option<string>, l: Lang)
    ensures Skipped(href) ==> RewriteHref(href, l) == href
    ensures !Skipped(href) && !EndsWith(href.value, ".html") && href.value != "/" ==> RewriteHref(href, l) == href
    ensures !Skipped(href) && (EndsWith(href.value, ".html") || href.value == "/") ==>
      RewriteHref(href, l) == Some(Localize(href.value, l))
  {
  }

  /** Rewriting the links of a Chinese page a second time changes nothing. */
  lemma RewriteHrefCnIdempotent(href: Option<string>)
    ensures RewriteHref(RewriteHref(href, Cn), Cn) == RewriteHref(href, Cn)
  {
    if !Skipped(href) && (EndsWith(href.value, ".html") || href.value == "/") {
      LocalizeCnIdempotent(href.value);
    }
  }

  /** Rewriting an href, changed or not, keeps its segment count and every segment before the last. */
  lemma RewriteHrefKeepsDirectories(h: string, l: Lang)
    ensures var r := RewriteHref(Some(h), l).value;
      |Split(r, '/')| == |Split(h, '/')| && DropLast(Split(r, '/')) == DropLast(Split(h, '/'))
  {
    LocalizeSegments(h, l);
  }

  /** `applyLanguageToAllLinks`: rewrites every anchor's href in place. */
  method ApplyLanguageToAllLinks(links: array<Option<string>>, l: Lang)
    modifies links
    ensures forall i :: 0 <= i < links.Length ==> links[i] == RewriteHref(old(links[i]), l)
  {
    ghost var hrefs := links[..];
    var i := 0;
    while i < links.Length
      invariant 0 <= i <= links.Length
      invariant links[i..] == hrefs[i..]
      invariant forall j :: 0 <= j < i ==> links[j] == RewriteHref(hrefs[j], l)
    {
      var href := links[i];
      if Skipped(href) {
        // external, in-page or missing: left as it is
      } else if IsPageHref(href.value) {
        links[i] := Some(Localize(href.value, l));
      }
      i := i + 1;
    }
  }

  // ---------- The page: toggle button, storage, navigation ----------

  function ToggleText(current: Lang): string
  {
    if current == En then "中文" else "English"
  }

  function ToggleTitle(current: Lang): string
  {
    if current == En then "Switch to Chinese" else "Switch to English"
  }

  /**
   * One page with the language script: its path, its anchors, the toggle
   * button's text, title and `data-next-lang`, `localStorage`, and the URL
   * the page navigates to (None while it stays).
   */
  class LanguagePage {
    const pathname: string
    const hasToggle: bool
    const links: array<Option<string>>
    var storage: map<string, string>
    var toggleText: string
    var toggleTitle: string
    var nextLang: Lang
    var navigation: Option<string>

    /** The page as it is before its scripts run. */
    constructor (pathname: string, hasToggle: bool, links: array<Option<string>>, storage: map<string, string>)
      ensures this.pathname == pathname && this.hasToggle == hasToggle && this.links == links
      ensures this.storage == storage && navigation == None
    {
      this.pathname := pathname;
      this.hasToggle := hasToggle;
      this.links := links;
      this.storage := storage;
      toggleText := "";
      toggleTitle := "";
      nextLang := En;
      navigation := None;
    }

    /** The button offers the language opposite to `current`. */
    ghost predicate ToggleShows(current: Lang)
      reads this
    {
      nextLang == Opposite(current) && toggleText == ToggleText(current) && toggleTitle == ToggleTitle(current)
    }

    /** `updateToggleButtonDisplay` */
    method UpdateToggleButtonDisplay(current: Lang)
      modifies this`toggleText, this`toggleTitle, this`nextLang
      ensures ToggleShows(current)
    {
      if current == En {
        toggleText := "中文";
        nextLang := Cn;
        toggleTitle := "Switch to Chinese";
      } else {
        toggleText := "English";
        nextLang := En;
        toggleTitle := "Switch to English";
      }
    }

    /**
     * The DOMContentLoaded handler: without a toggle button nothing happens;
     * otherwise the page's language is stored, every link is rewritten to it,
     * and the button offers the other language.
     */
    method Load()
      modifies this, links
      ensures !hasToggle ==> unchanged(this) && unchanged(links)
      ensures hasToggle ==>
        storage == old(storage)[PreferenceKey := Code(PageLang(pathname))] &&
        (forall i :: 0 <= i < links.Length ==> links[i] == RewriteHref(old(links[i]), PageLang(pathname))) &&
        ToggleShows(PageLang(pathname)) && navigation == old(navigation)
    {
      if !hasToggle {
        return;
      }
      var initialPageLang := if Includes(pathname, CnMarker) then Cn else En;
      storage := SetPreferredLanguage(storage, initialPageLang);
      ApplyLanguageToAllLinks(links, initialPageLang);
      UpdateToggleButtonDisplay(initialPageLang);
    }

    /** A click on the toggle: store the offered language and go to this page in it. */
    method OnToggleClick()
      requires hasToggle
      modifies this`storage, this`navigation
      ensures storage == old(storage)[PreferenceKey := Code(nextLang)]
      ensures navigation == Some(Localize(pathname, nextLang))
    {
      storage := SetPreferredLanguage(storage, nextLang);
      navigation := Some(Localize(pathname, nextLang));
    }
  }

  /**
   * Loading an English HTML page and clicking the toggle stores 'cn' and
   * navigates to a page that is detected as Chinese.
   */
  method LoadThenToggle(page: LanguagePage)
    requires page.hasToggle && PageLang(page.pathname) == En
    requires EndsWith(page.pathname, ".html") || page.pathname == "/"
    modifies page, page.links
    ensures PreferenceKey in page.storage && page.storage[PreferenceKey] == "cn"
    ensures page.navigation == Some(Localize(page.pathname, Cn))
    ensures PageLang(page.navigation.value) == Cn
  {
    page.Load();
    page.OnToggleClick();
    HtmlHrefExtension(page.pathname);
    LocalizedCnIsDetected(page.pathname);
  }
}
