/** popup.js: the title sanitiser, the fallback UUID generator, the 50 MiB size
    check and the archive `saveAsEPUB` writes. */
module Popup {
  import opened Wrappers
  import opened Text
  import opened Xml
  import opened Epub

  // ---------------------------------------------------------------------------
  // sanitizeTitle

  /** The characters of the class `[\\/:*?"<>|]`, which file systems refuse in a
      file name. */
  predicate IsFileNameReserved(c: char) {
    c == '\\' || c == '/' || c == ':' || c == '*' || c == '?' || c == '"'
    || c == '<' || c == '>' || c == '|'
  }

  /** `s.replace(/[\\/:*?"<>|]/g, "_")`: same length, each reserved character
      becomes `_`, every other character stays where it was. */
  function ReplaceReserved(s: string): (r: string)
    ensures |r| == |s|
    ensures forall i :: 0 <= i < |s| ==> r[i] == (if IsFileNameReserved(s[i]) then '_' else s[i])
    ensures forall i :: 0 <= i < |r| ==> !IsFileNameReserved(r[i])
  {
    if |s| == 0 then []
    else [if IsFileNameReserved(s[0]) then '_' else s[0]] + ReplaceReserved(s[1..])
  }

  /** `sanitizeTitle(title)`; an absent title (`null`, `undefined`) is `None`. */
  function SanitizeTitle(title: Option<string>): (r: string)
    ensures title.None? || title.value == [] ==> r == "untitled"
    ensures forall i :: 0 <= i < |r| ==> !IsFileNameReserved(r[i])
    ensures Trimmed(r)
    ensures title.Some? && title.value != [] ==> |r| <= |title.value|
  {
    if title.None? || title.value == [] then "untitled"
    else
      var s := ReplaceReserved(title.value);
      var r := Trim(s);
      TrimCharAt(s);
      r
  }

  /** Sanitising a non-empty result again changes nothing. */
  lemma SanitizeIdempotent(title: Option<string>)
    requires SanitizeTitle(title) != []
    ensures SanitizeTitle(Some(SanitizeTitle(title))) == SanitizeTitle(title)
  {
    var r := SanitizeTitle(title);
    assert ReplaceReserved(r) == r;
    TrimOfTrimmed(r);
  }

  /** A non-empty title with no reserved character and no whitespace at
      either end is kept as it is. */
  lemma SanitizeKeepsClean(t: string)
    requires t != [] && Trimmed(t)
    requires forall i :: 0 <= i < |t| ==> !IsFileNameReserved(t[i])
    ensures SanitizeTitle(Some(t)) == t
  {
    assert ReplaceReserved(t) == t;
    TrimOfTrimmed(t);
  }

  /** A present title sanitises to the empty string exactly when it is non-empty
      and made only of whitespace; sanitising that empty string gives
      `untitled`. */
  lemma SanitizeBlank(t: string)
    ensures SanitizeTitle(Some(t)) == [] <==> t != [] && forall i :: 0 <= i < |t| ==> IsJsWhitespace(t[i])
    ensures t != [] && (forall i :: 0 <= i < |t| ==> IsJsWhitespace(t[i])) ==>
              SanitizeTitle(Some(SanitizeTitle(Some(t)))) == "untitled"
  {
    if t != [] {
      TrimEmptyIffBlank(ReplaceReserved(t));
      ReplaceKeepsBlank(t);
    }
  }

  /** No reserved character is whitespace, so the replacement leaves a string
      blank exactly when it was blank. */
  lemma ReplaceKeepsBlank(t: string)
    ensures (forall i :: 0 <= i < |t| ==> IsJsWhitespace(ReplaceReserved(t)[i]))
        <==> (forall i :: 0 <= i < |t| ==> IsJsWhitespace(t[i]))
  {
    var s := ReplaceReserved(t);
    forall i | 0 <= i < |t| && (IsJsWhitespace(t[i]) || IsJsWhitespace(s[i]))
      ensures s[i] == t[i]
    {
    }
  }

  // ---------------------------------------------------------------------------
  // generateUUID

  /** One draw of `Math.random() * 16 | 0`. */
  type Nibble = x: int | 0 <= x < 16

  const UuidTemplate: string := "xxxxxxxx-xxxx-4xxx-yxxx-xxxxxxxxxxxx"

  predicate IsLowerHex(c: char) {
    ('0' <= c <= '9') || ('a' <= c <= 'f')
  }

  /** `v.toString(16)` for a value below 16. */
  function HexDigit(v: Nibble): (c: char)
    ensures IsLowerHex(c)
  {
    "0123456789abcdef"[v]
  }

  function HexValue(c: char): (v: Nibble)
    requires IsLowerHex(c)
    ensures HexDigit(v) == c
  {
    if c <= '9' then c as int - '0' as int else c as int - 'a' as int + 10
  }

  /** The variant characters of section 4.1.1 of RFC 4122: the two top bits of
      the nibble are `10`. */
  predicate IsVariantDigit(c: char) {
    c == '8' || c == '9' || c == 'a' || c == 'b'
  }

  predicate IsPlaceholder(c: char) {
    c == 'x' || c == 'y'
  }

  /** How many draws filling `t` consumes. */
  function Placeholders(t: string): nat {
    if |t| == 0 then 0 else (if IsPlaceholder(t[0]) then 1 else 0) + Placeholders(t[1..])
  }

  /** `u` is a possible filling of template `t`: an `x` became any lower-case hex
      digit, a `y` became a variant digit, everything else is copied. */
  predicate Fills(t: string, u: string) {
    && |u| == |t|
    && forall i :: 0 <= i < |t| ==>
         if t[i] == 'x' then IsLowerHex(u[i])
         else if t[i] == 'y' then IsVariantDigit(u[i])
         else u[i] == t[i]
  }

  /** The next draw of the random source; a source that has run out reads as 0. */
  function Head(draws: seq<Nibble>): Nibble {
    if |draws| == 0 then 0 else draws[0]
  }

  /** The random source after one draw. */
  function Tail(draws: seq<Nibble>): seq<Nibble> {
    if |draws| == 0 then [] else draws[1..]
  }

  /** `t.replace(/[xy]/g, c => …)` with the draws taken from `draws` in order:
      `x` becomes the draw, `y` becomes `r & 0x3 | 0x8`. Whatever the draws, the
      result is a filling of the template. */
  function FillTemplate(t: string, draws: seq<Nibble>): (u: string)
    ensures Fills(t, u)
  {
    if |t| == 0 then []
    else
      var rest := FillTemplate(t[1..], if IsPlaceholder(t[0]) then Tail(draws) else draws);
      var c := if t[0] == 'x' then HexDigit(Head(draws))
               else if t[0] == 'y' then HexDigit(Head(draws) % 4 + 8)
               else t[0];
      assert t[0] == 'y' ==> IsVariantDigit(c) by {
        if t[0] == 'y' {
          var v := Head(draws) % 4 + 8;
          assert 8 <= v < 12;
          assert "0123456789abcdef"[v] == HexDigit(v);
        }
      }
      var u := [c] + rest;
      assert forall i :: 1 <= i < |t| ==> t[i] == t[1..][i - 1] && u[i] == rest[i - 1];
      u
  }

  lemma FillsTail(t: string, u: string)
    requires |t| > 0 && Fills(t, u)
    ensures Fills(t[1..], u[1..])
  {
    assert forall i :: 1 <= i < |t| ==> t[1..][i - 1] == t[i] && u[1..][i - 1] == u[i];
  }

  /** The draws that produce a given filling of `t`. */
  function DrawsOf(t: string, u: string): (draws: seq<Nibble>)
    requires Fills(t, u)
    ensures |draws| == Placeholders(t)
  {
    if |t| == 0 then []
    else
      FillsTail(t, u);
      if IsPlaceholder(t[0]) then [HexValue(u[0])] + DrawsOf(t[1..], u[1..])
      else DrawsOf(t[1..], u[1..])
  }

  /** Every filling of a template is produced by some sequence of draws. */
  lemma {:induction false} FillTemplateOnto(t: string, u: string)
    requires Fills(t, u)
    ensures FillTemplate(t, DrawsOf(t, u)) == u
  {
    if |t| > 0 {
      FillsTail(t, u);
      var d := DrawsOf(t, u);
      var tail := DrawsOf(t[1..], u[1..]);
      FillTemplateOnto(t[1..], u[1..]);
      FillHead(t, u);
      assert u == [u[0]] + u[1..];
    }
  }

  /** A variant digit is reproduced by `r & 0x3 | 0x8` from its own value. */
  lemma VariantDraw(c: char)
    requires IsVariantDigit(c)
    ensures HexDigit(HexValue(c) % 4 + 8) == c
  {
    if c == '8' {
      assert HexValue(c) == 8;
    } else if c == '9' {
      assert HexValue(c) == 9;
    } else if c == 'a' {
      assert HexValue(c) == 10;
    } else {
      assert HexValue(c) == 11;
    }
  }

  /** The first character of a filling is what its draw produces. */
  lemma FillHead(t: string, u: string)
    requires |t| > 0 && Fills(t, u)
    ensures Fills(t[1..], u[1..])
    ensures FillTemplate(t, DrawsOf(t, u)) == [u[0]] + FillTemplate(t[1..], DrawsOf(t[1..], u[1..]))
  {
    FillsTail(t, u);
    var d := DrawsOf(t, u);
    var tail := DrawsOf(t[1..], u[1..]);
    if t[0] == 'x' {
      var v := HexValue(u[0]);
      assert d == [v] + tail && Head(d) == v && Tail(d) == tail;
      assert FillTemplate(t, d) == [HexDigit(v)] + FillTemplate(t[1..], tail);
    } else if t[0] == 'y' {
      var v := HexValue(u[0]);
      assert d == [v] + tail && Head(d) == v && Tail(d) == tail;
      assert IsVariantDigit(u[0]);
      VariantDraw(u[0]);
      assert FillTemplate(t, d) == [HexDigit(v % 4 + 8)] + FillTemplate(t[1..], tail);
    } else {
      assert d == tail && u[0] == t[0];
      assert FillTemplate(t, d) == [t[0]] + FillTemplate(t[1..], tail);
    }
  }

  /** The layout of a version-4 UUID (section 4.4 of RFC 4122) in its lower-case
      string form: 36 characters, hyphens at 8, 13, 18 and 23, the version digit
      `4` at 14, a variant digit at 19, and lower-case hex digits elsewhere. */
  predicate IsV4Layout(u: string) {
    && |u| == 36
    && forall i :: 0 <= i < 36 ==>
         if i == 8 || i == 13 || i == 18 || i == 23 then u[i] == '-'
         else if i == 14 then u[i] == '4'
         else if i == 19 then IsVariantDigit(u[i])
         else IsLowerHex(u[i])
  }

  lemma TemplateShape()
    ensures |UuidTemplate| == 36
    ensures forall i :: 0 <= i < 36 ==>
      UuidTemplate[i] == (if i == 8 || i == 13 || i == 18 || i == 23 then '-'
                          else if i == 14 then '4'
                          else if i == 19 then 'y'
                          else 'x')
  {
  }

  /** The fallback template admits exactly the version-4 layout: every filling
      is one, and every string of that layout is a filling. */
  lemma TemplateIsV4(u: string)
    ensures Fills(UuidTemplate, u) <==> IsV4Layout(u)
  {
    TemplateShape();
  }

  lemma FallbackIsV4(draws: seq<Nibble>)
    ensures IsV4Layout(FillTemplate(UuidTemplate, draws))
  {
    TemplateIsV4(FillTemplate(UuidTemplate, draws));
  }

  /** `generateUUID()`: `crypto.randomUUID()` when the platform has it (`native`),
      otherwise the template filled from draws of `Math.random`. The fallback
      always has the version-4 layout, and every version-4 string is a possible
      fallback. */
  function GenerateUuid(native: Option<string>, draws: seq<Nibble>): (u: string)
    ensures native.Some? ==> u == native.value
    ensures native.None? ==> IsV4Layout(u)
  {
    if native.Some? then native.value
    else
      var u := FillTemplate(UuidTemplate, draws);
      FallbackIsV4(draws);
      u
  }

  lemma FallbackUuidOnto(u: string)
    requires IsV4Layout(u)
    ensures exists draws: seq<Nibble> ::
      |draws| == Placeholders(UuidTemplate) && GenerateUuid(None, draws) == u
  {
    TemplateIsV4(u);
    FillTemplateOnto(UuidTemplate, u);
    var draws := DrawsOf(UuidTemplate, u);
    assert GenerateUuid(None, draws) == u;
  }

  // ---------------------------------------------------------------------------
  // checkFileSize and saveAsEPUB

  const MaxSaveSize: nat := 50 * 1024 * 1024

  const SaveTooLargeMessage: string := "文件太大，请选择较小的文章"

  /** `checkFileSize(blob)`: throws exactly when the blob is larger than 50 MiB. */
  function CheckFileSize(blobSize: nat): (r: Result<(), GenError>)
    ensures r.Failure? <==> blobSize > 50 * 1024 * 1024
  {
    SizeGate(blobSize, MaxSaveSize, SaveTooLargeMessage, ())
  }

  /** What `saveAsEPUB` hands to the browser: the archive and the download name. */
  datatype Download = Download(fileName: string, entries: seq<Entry>)

  const NavTitle: string := "目录"

  function SaveManifest(): seq<ManifestItem> {
    [ Item("chapter1", "chapter1.xhtml", XhtmlMediaType, None),
      Item("nav", "nav.xhtml", XhtmlMediaType, Some("nav")) ]
  }

  /** The package document of `saveAsEPUB`: EPUB 3.0, language `zh`, no cover,
      the chapter and navigation items, and a spine of the chapter; the
      sanitised title goes in unescaped. */
  function SavePackage(title: string, uuid: string, now: string): (pkg: Package)
    ensures pkg.title == title && pkg.cover.None?
    ensures |pkg.manifest| == 2 && pkg.manifest[1].properties == Some("nav")
    ensures pkg.spine == [pkg.manifest[0].id]
  {
    Package("3.0", title, "zh", "urn:uuid:" + uuid, "Web to EPUB Extension", now, None,
            SaveManifest(), ["chapter1"])
  }

  /** The entries `saveAsEPUB` adds, in call order: the stored `mimetype`, the
      container descriptor naming the package entry, the chapter, the
      navigation document and the package. The chapter title, the navigation
      link text and the package title are the title as given, and the chapter
      body is the content as given. */
  function SaveEntries(title: string, content: string, uuid: string, now: string): (es: seq<Entry>)
    ensures |es| == 5
    ensures es[0] == Entry(MimetypePath, Literal(EpubMimetype), Store)
    ensures es[1].part.ContainerXml? && es[1].part.rootPath == es[4].path
    ensures es[2].part.ContentDoc? && es[2].part.title == title && es[2].part.body == content
    ensures es[3].part.NavDoc? && es[3].part.linkText == title
    ensures es[4].part.PackageDoc? && es[4].part.pkg.title == title
  {
    [ Entry(MimetypePath, Literal(EpubMimetype), Store),
      Entry(ContainerPath, ContainerXml(PackagePath, PackageMediaType), LibraryDefault),
      Entry("OEBPS/chapter1.xhtml", ContentDoc(title, None, None, content), LibraryDefault),
      Entry("OEBPS/nav.xhtml", NavDoc(NavTitle, NavTitle, "chapter1.xhtml", title), LibraryDefault),
      Entry(PackagePath, PackageDoc(SavePackage(title, uuid, now)), LibraryDefault) ]
  }

  /** `saveAsEPUB(title, content)`. The UUID source, the timestamp and the size
      of the finished blob are inputs; a thrown error becomes `Failure`. The
      archive starts with the stored `mimetype` entry followed by the container
      descriptor, its manifest ids are distinct, its spine resolves, the
      navigation link is the spine item's href, and every manifest href is
      written. */
  function SaveAsEpub(title: Option<string>, content: string, native: Option<string>,
                      draws: seq<Nibble>, now: string, blobSize: nat): (r: Result<Download, GenError>)
    ensures r.Failure? <==> blobSize > MaxSaveSize
    ensures r.Success? ==>
      && r.value.fileName == SanitizeTitle(title) + ".epub"
      && r.value.entries == SaveEntries(SanitizeTitle(title), content, GenerateUuid(native, draws), now)
  {
    var uuid := GenerateUuid(native, draws);
    var sanitized := SanitizeTitle(title);
    var entries := SaveEntries(sanitized, content, uuid, now);
    match CheckFileSize(blobSize)
    case Failure(e) => Failure(e)
    case Success(_) => Success(Download(sanitized + ".epub", entries))
  }

  /** The archive of `saveAsEPUB` starts with the stored `mimetype` entry, the
      container descriptor comes second, paths are distinct, and every entry
      after the first is added without a compression option. */
  lemma SaveEntriesLayout(title: string, content: string, uuid: string, now: string)
    ensures var es := SaveEntries(title, content, uuid, now);
      && MimetypeFirst(es)
      && es[1].path == ContainerPath
      && DistinctPaths(es)
      && forall i :: 1 <= i < |es| ==> es[i].mode == LibraryDefault
  {
    var es := SaveEntries(title, content, uuid, now);
    assert forall i :: 0 <= i < |es| ==> |es[i].path| == [8, 22, 20, 15, 17][i];
  }

  /** The package of `saveAsEPUB` lists `chapter1` then `nav`, with distinct ids;
      its one spine itemref `chapter1` is a manifest id; the navigation document
      links to that item's href; and every manifest href names a written entry
      under `OEBPS/`. */
  lemma SavePackageConsistent(title: string, content: string, uuid: string, now: string)
    ensures var pkg := SavePackage(title, uuid, now);
      && Ids(pkg.manifest) == ["chapter1", "nav"]
      && pkg.manifest[1].properties == Some("nav")
      && DistinctIds(pkg.manifest)
      && pkg.spine == ["chapter1"] && SpineResolves(pkg)
      && SaveEntries(title, content, uuid, now)[3].part.linkHref == pkg.manifest[0].href
      && forall i :: 0 <= i < |pkg.manifest| ==>
           HasEntry(SaveEntries(title, content, uuid, now), "OEBPS/" + pkg.manifest[i].href)
  {
    var pkg := SavePackage(title, uuid, now);
    var es := SaveEntries(title, content, uuid, now);
    assert es[2].path == "OEBPS/" + pkg.manifest[0].href;
    assert es[3].path == "OEBPS/" + pkg.manifest[1].href;
    assert pkg.manifest[0].id == pkg.spine[0];
  }

  /** For every title, the chapter, navigation link and package title all
      carry the sanitised title without XML escaping. Sanitising has already
      turned `<`, `>` and `"` into `_`, so the missing escape matters exactly
      when the sanitised title holds an `&` or a `'`. */
  lemma SaveTitleEscaping(title: string, content: string, uuid: string, now: string)
    ensures var s := SanitizeTitle(Some(title));
      var es := SaveEntries(s, content, uuid, now);
      && es[2].part.title == es[3].part.linkText == es[4].part.pkg.title == s
      && (EscapeXml(s) == s <==> forall i :: 0 <= i < |s| ==> s[i] != '&' && s[i] != '\'')
  {
    var s := SanitizeTitle(Some(title));
    EscapeIdentityIff(s);
    assert forall i :: 0 <= i < |s| ==> (IsReserved(s[i]) <==> s[i] == '&' || s[i] == '\'');
  }

  /** An instance: `Q&A` survives sanitising and reaches the package document
      with its `&` raw, where escaping would have written `&amp;`. */
  lemma SaveTitleNotEscaped()
    ensures SanitizeTitle(Some("Q&A")) == "Q&A"
    ensures SavePackage(SanitizeTitle(Some("Q&A")), "u", "d").title == "Q&A"
    ensures EscapeXml("Q&A") != "Q&A"
  {
    var t := "Q&A";
    assert t[0] == 'Q' && t[1] == '&' && t[2] == 'A';
    SanitizeKeepsClean(t);
    EscapeIdentityIff(t);
    assert IsReserved(t[1]);
  }
}
