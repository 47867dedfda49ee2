/** The `EpubGenerator` class of dist/EpubGenerator.js: an EPUB 2.0 archive with
    one XHTML content document, a stylesheet and a package document whose
    manifest also lists the processed images. */
module DistEpubGenerator {
  import opened Wrappers
  import opened Xml
  import opened Epub

  const ContentPath: string := "OEBPS/content.xhtml"
  const StylePath: string := "OEBPS/style.css"
  const CssMediaType: string := "text/css"

  /** The two fixed manifest items followed by one item per map entry. */
  function Manifest(images: seq<(string, string)>): seq<ManifestItem> {
    [ Item("content", "content.xhtml", XhtmlMediaType, None),
      Item("style", "style.css", CssMediaType, None) ]
    + ImageItems(images)
  }

  /** `createContentOpf(oebps, title, images)`: EPUB 2.0, the escaped title, the
      fixed language `zh-CN` and creator `Web to EPUB`, the cover metadata that
      always names `image0`, and a spine of the one content document. */
  function ContentOpf(title: string, images: seq<(string, string)>, uuid: string, now: string): (pkg: Package)
    ensures pkg.title == EscapeXml(title) && UnescapeXml(pkg.title) == title
    ensures |pkg.manifest| == 2 + |images| && pkg.manifest[2..] == ImageItems(images)
    ensures pkg.spine == [pkg.manifest[0].id]
  {
    UnescapeEscape(title);
    Package("2.0", EscapeXml(title), "zh-CN", "urn:uuid:" + uuid, "Web to EPUB", now,
            Some("image0"), Manifest(images), ["content"])
  }

  /** The entries lines 19-26 add, in call order: `createMimetype`,
      `createContainer`, `createStylesheet`, `createContent` (title escaped in
      `<title>` and `<h1>`, content spliced in raw) and `createContentOpf`. */
  function Entries(defaultFont: string, title: string, content: string,
                   images: seq<(string, string)>, uuid: string, now: string): (es: seq<Entry>)
    ensures |es| == 5
    ensures es[0] == Entry(MimetypePath, Literal(EpubMimetype), Store)
    ensures es[1].path == ContainerPath && es[1].part.ContainerXml? && es[1].part.rootPath == es[4].path
    ensures es[3].part.ContentDoc? && es[3].part.body == content
    ensures es[4].part == PackageDoc(ContentOpf(title, images, uuid, now))
  {
    [ Entry(MimetypePath, Literal("application/epub+zip"), Store),
      Entry(ContainerPath, ContainerXml(PackagePath, PackageMediaType), LibraryDefault),
      Entry(StylePath, Stylesheet(defaultFont), LibraryDefault),
      Entry(ContentPath, ContentDoc(EscapeXml(title), Some(EscapeXml(title)), Some("style.css"), content), LibraryDefault),
      Entry(PackagePath, PackageDoc(ContentOpf(title, images, uuid, now)), LibraryDefault) ]
  }

  /** What `generate` receives as `content`: either a string of HTML, or a DOM
      node, given here by the string it converts to when spliced into the
      content template (`[object HTMLDivElement]` for a `div`) and the map
      `processImages` builds from its `<img>` elements. */
  datatype ContentArg = Html(markup: string) | Node(asText: string, images: seq<(string, string)>)

  /** `generate(title, content)`. Line 16 calls `processImages(content)`, whose
      first statement is `content.querySelectorAll('img')`: a string has no
      such method, so the call throws before anything is written. A node gets
      through: the archive is assembled and, once generated, rejected exactly
      when its size exceeds `maxFileSize`; otherwise it is returned. */
  function Generate(cfg: Config, title: string, content: ContentArg,
                    uuid: string, now: string, blobSize: nat): (r: Result<seq<Entry>, GenError>)
    ensures r.Failure? <==> content.Html? || blobSize > cfg.maxFileSize
    ensures content.Html? ==> r == Failure(ContentNotQueryable)
    ensures content.Node? && r.Failure? ==> r.error == FileTooLarge(cfg.fileTooLargeMessage)
    ensures r.Success? ==> r.value == Entries(cfg.defaultFont, title, content.asText, content.images, uuid, now)
  {
    match content
    case Html(_) => Failure(ContentNotQueryable)
    case Node(text, images) =>
      SizeGate(blobSize, cfg.maxFileSize, cfg.fileTooLargeMessage,
               Entries(cfg.defaultFont, title, text, images, uuid, now))
  }

  /** The popup hands `generate` the article's `content` field, a string of
      HTML: whatever the title, configuration and archive size, no archive is
      returned and the error is the `querySelectorAll` failure, not the size
      gate's. */
  lemma PopupCallRejects(cfg: Config, title: string, article: string,
                         uuid: string, now: string, blobSize: nat)
    ensures var r := Generate(cfg, title, Html(article), uuid, now, blobSize);
      && !r.Success?
      && r.error != FileTooLarge(cfg.fileTooLargeMessage)
  {
  }

  /** The archive starts with the stored `mimetype` entry holding
      `application/epub+zip`, paths are distinct, and every later entry is added
      without a compression option. */
  lemma Layout(font: string, title: string, content: string, images: seq<(string, string)>,
               uuid: string, now: string)
    ensures var es := Entries(font, title, content, images, uuid, now);
      && MimetypeFirst(es)
      && es[1].path == ContainerPath
      && DistinctPaths(es)
      && forall i :: 1 <= i < |es| ==> es[i].mode == LibraryDefault
  {
    var es := Entries(font, title, content, images, uuid, now);
    assert forall i :: 0 <= i < |es| ==> |es[i].path| == [8, 22, 15, 19, 17][i];
  }

  /** The package lists `content`, `style`, then one item per image; its ids are
      distinct exactly when the map's keys are (always, for the map
      `processImages` builds); the spine item resolves; and the two fixed
      items' hrefs name written entries. */
  lemma PackageConsistent(title: string, images: seq<(string, string)>, uuid: string, now: string)
    ensures var pkg := ContentOpf(title, images, uuid, now);
      && |pkg.manifest| == 2 + |images|
      && pkg.manifest[0].id == "content" && pkg.manifest[1].id == "style"
      && (DistinctIds(pkg.manifest) <==>
            forall i, j :: 0 <= i < j < |images| ==> images[i].0 != images[j].0)
      && SpineResolves(pkg)
      && ContentPath == "OEBPS/" + pkg.manifest[0].href
      && StylePath == "OEBPS/" + pkg.manifest[1].href
  {
    var pkg := ContentOpf(title, images, uuid, now);
    var fixed := pkg.manifest[..2];
    assert pkg.manifest == fixed + ImageItems(images);
    ManifestIdsDistinctIff(fixed, images);
    assert pkg.manifest[0].id == pkg.spine[0];
    assert pkg.manifest[0].href == "content.xhtml" && pkg.manifest[1].href == "style.css";
    FixedPaths();
  }

  /** The written paths of the two fixed parts are their hrefs under `OEBPS/`. */
  lemma FixedPaths()
    ensures ContentPath == "OEBPS/" + "content.xhtml"
    ensures StylePath == "OEBPS/" + "style.css"
  {
  }

  /** The cover metadata names `image0`, which is a manifest id exactly when
      the map has the key `0`; `processImages` keys the map by image URL, so
      only an image whose src is the string `0` makes the cover resolve. */
  lemma CoverResolvesIff(title: string, images: seq<(string, string)>, uuid: string, now: string)
    ensures var pkg := ContentOpf(title, images, uuid, now);
      (exists i :: 0 <= i < |pkg.manifest| && pkg.manifest[i].id == pkg.cover.value)
      <==> (exists k :: 0 <= k < |images| && images[k].0 == "0")
  {
    var pkg := ContentOpf(title, images, uuid, now);
    var m := pkg.manifest;
    var items := ImageItems(images);
    assert forall i :: 2 <= i < |m| ==> m[i] == items[i - 2];
    if exists i :: 0 <= i < |m| && m[i].id == "image0" {
      var i :| 0 <= i < |m| && m[i].id == "image0";
      assert i >= 2;
      assert "image" + images[i - 2].0 == "image" + "0";
      PrefixCancel("image", images[i - 2].0, "0");
    }
    if exists k :: 0 <= k < |images| && images[k].0 == "0" {
      var k :| 0 <= k < |images| && images[k].0 == "0";
      assert m[k + 2].id == "image0";
    }
  }

  /** No image is written to the archive: every image item's href, under
      `OEBPS/`, names no entry. */
  lemma ImagesNotWritten(font: string, title: string, content: string,
                         images: seq<(string, string)>, uuid: string, now: string)
    ensures var es := Entries(font, title, content, images, uuid, now);
      var m := ContentOpf(title, images, uuid, now).manifest;
      forall i :: 2 <= i < |m| ==> !HasEntry(es, "OEBPS/" + m[i].href)
  {
    var es := Entries(font, title, content, images, uuid, now);
    var m := ContentOpf(title, images, uuid, now).manifest;
    var items := ImageItems(images);
    SeventhCharacters();
    assert es[0].path == MimetypePath && es[1].path == ContainerPath && es[2].path == StylePath;
    assert es[3].path == ContentPath && es[4].path == PackagePath;
    forall i | 2 <= i < |m|
      ensures !HasEntry(es, "OEBPS/" + m[i].href)
    {
      assert m[i] == items[i - 2];
      var path := "OEBPS/" + m[i].href;
      assert path[6] == 'i';
    }
  }

  /** Each written path's character after `OEBPS/`'s length: none is `i`. */
  lemma SeventhCharacters()
    ensures MimetypePath[6] == 'p' && ContainerPath[6] == 'N' && StylePath[6] == 's'
    ensures ContentPath[6] == 'c' && PackagePath[6] == 'c'
  {
  }

  /** The titles in the content document and the package are the escaped title,
      which decodes back to the original; the body is the content string
      exactly as given, neither escaped nor paginated. */
  lemma TitlesEscapedBodyRaw(font: string, title: string, content: string,
                             images: seq<(string, string)>, uuid: string, now: string)
    ensures var es := Entries(font, title, content, images, uuid, now);
      && es[3].part.title == es[3].part.heading.value == es[4].part.pkg.title == EscapeXml(title)
      && UnescapeXml(es[3].part.title) == title
      && WellEscaped(es[3].part.title)
      && es[3].part.body == content
  {
    UnescapeEscape(title);
    EscapeIsWellEscaped(title);
  }
}
