/** The `EpubGenerator` class of src/js/EpubGenerator.js: an EPUB 3 archive with
    a chapter, a navigation document and a package document whose version,
    language and `mimetype` bytes come from the configuration object. */
module SrcEpubGenerator {
  import opened Wrappers
  import opened Xml
  import opened Epub

  const ChapterPath: string := "OEBPS/chapter.xhtml"
  const NavPath: string := "OEBPS/nav.xhtml"

  /** The chapter and navigation items followed by one item per map entry. */
  function Manifest(images: seq<(string, string)>): seq<ManifestItem> {
    [ Item("chapter1", "chapter1.xhtml", XhtmlMediaType, None),
      Item("nav", "nav.xhtml", XhtmlMediaType, Some("nav")) ]
    + ImageItems(images)
  }

  /** `createContentOpf(oebps, title, images)`: version and language from the
      configuration, the escaped title, creator `Web to EPUB`, no cover, and a
      spine of `chapter1`. */
  function ContentOpf(cfg: Config, title: string, images: seq<(string, string)>, uuid: string, now: string): (pkg: Package)
    ensures pkg.version == cfg.version && pkg.language == cfg.language
    ensures pkg.title == EscapeXml(title) && UnescapeXml(pkg.title) == title
    ensures |pkg.manifest| == 2 + |images| && pkg.manifest[2..] == ImageItems(images)
    ensures pkg.spine == [pkg.manifest[0].id]
  {
    UnescapeEscape(title);
    Package(cfg.version, EscapeXml(title), cfg.language, "urn:uuid:" + uuid, "Web to EPUB", now,
            None, Manifest(images), ["chapter1"])
  }

  /** The entries lines 19-26 add, in call order: `createMimetype` (the
      configured bytes, stored), `createContainer` (the configured container
      descriptor), `createChapter` (written as `chapter.xhtml`, title spliced in
      raw, linking `styles.css`), `createNavigation` (title raw, one link to
      `chapter.xhtml`) and `createContentOpf`. */
  function Entries(cfg: Config, title: string, content: string,
                   images: seq<(string, string)>, uuid: string, now: string): (es: seq<Entry>)
    ensures |es| == 5
    ensures es[0] == Entry(MimetypePath, Literal(cfg.mimetype), Store)
    ensures es[1].path == ContainerPath
    ensures es[1].part == ContainerXml(cfg.containerRootPath, cfg.containerRootMediaType)
    ensures es[2].part.ContentDoc? && es[2].part.body == content
    ensures es[4].part == PackageDoc(ContentOpf(cfg, title, images, uuid, now))
  {
    [ Entry(MimetypePath, Literal(cfg.mimetype), Store),
      Entry(ContainerPath, ContainerXml(cfg.containerRootPath, cfg.containerRootMediaType), LibraryDefault),
      Entry(ChapterPath, ContentDoc(title, Some(title), Some("styles.css"), content), LibraryDefault),
      Entry(NavPath, NavDoc(title + " - Navigation", "Table of Contents", "chapter.xhtml", title), LibraryDefault),
      Entry(PackagePath, PackageDoc(ContentOpf(cfg, title, images, uuid, now)), LibraryDefault) ]
  }

  /** `generate(title, content)` from line 19 on, given the map `processImages`
      returned: rejected with the configured message exactly when the generated
      archive exceeds `maxFileSize`, otherwise the archive. */
  function Generate(cfg: Config, title: string, content: string, images: seq<(string, string)>,
                    uuid: string, now: string, blobSize: nat): (r: Result<seq<Entry>, GenError>)
    ensures r.Failure? <==> blobSize > cfg.maxFileSize
    ensures r.Failure? ==> r.error == FileTooLarge(cfg.fileTooLargeMessage)
    ensures r.Success? ==> r.value == Entries(cfg, title, content, images, uuid, now)
  {
    SizeGate(blobSize, cfg.maxFileSize, cfg.fileTooLargeMessage,
             Entries(cfg, title, content, images, uuid, now))
  }

  /** The archive meets the `mimetype` rule exactly when the configured bytes
      are `application/epub+zip`; the container descriptor names the written
      package document exactly when the configured rootfile path is
      `OEBPS/content.opf`; paths are distinct and every later entry is added
      without a compression option. */
  lemma Layout(cfg: Config, title: string, content: string, images: seq<(string, string)>,
               uuid: string, now: string)
    ensures var es := Entries(cfg, title, content, images, uuid, now);
      && (MimetypeFirst(es) <==> cfg.mimetype == EpubMimetype)
      && (es[1].part.rootPath == es[4].path <==> cfg.containerRootPath == PackagePath)
      && DistinctPaths(es)
      && forall i :: 1 <= i < |es| ==> es[i].mode == LibraryDefault
  {
    var es := Entries(cfg, title, content, images, uuid, now);
    assert forall i :: 0 <= i < |es| ==> |es[i].path| == [8, 22, 19, 15, 17][i];
  }

  /** Under the default configuration the package declares EPUB 3.0 in
      language `zh`, the archive satisfies the `mimetype` rule, its container
      descriptor names the package document it writes, and an oversized archive
      is rejected with the configured message. */
  lemma DefaultConfigPackage(title: string, content: string, images: seq<(string, string)>,
                             uuid: string, now: string, blobSize: nat)
    ensures var pkg := ContentOpf(DefaultConfig, title, images, uuid, now);
      pkg.version == "3.0" && pkg.language == "zh" && pkg.cover.None?
    ensures var es := Entries(DefaultConfig, title, content, images, uuid, now);
      MimetypeFirst(es) && es[1].part.rootPath == es[4].path
    ensures var r := Generate(DefaultConfig, title, content, images, uuid, now, blobSize);
      r.Failure? ==> r.error.message == FileTooLargeMessage
  {
    Layout(DefaultConfig, title, content, images, uuid, now);
  }

  /** The package lists `chapter1`, then `nav` with the `nav` property, then
      one item per image; the ids are distinct exactly when the map's keys are;
      and the spine's `chapter1` is a manifest id. */
  lemma PackageConsistent(cfg: Config, title: string, images: seq<(string, string)>,
                          uuid: string, now: string)
    ensures var pkg := ContentOpf(cfg, title, images, uuid, now);
      && |pkg.manifest| == 2 + |images|
      && pkg.manifest[0].id == "chapter1" && pkg.manifest[1].id == "nav"
      && pkg.manifest[1].properties == Some("nav")
      && (DistinctIds(pkg.manifest) <==>
            forall i, j :: 0 <= i < j < |images| ==> images[i].0 != images[j].0)
      && SpineResolves(pkg)
  {
    var pkg := ContentOpf(cfg, title, images, uuid, now);
    var fixed := pkg.manifest[..2];
    assert pkg.manifest == fixed + ImageItems(images);
    ManifestIdsDistinctIff(fixed, images);
    assert pkg.manifest[0].id == pkg.spine[0];
  }

  /** The chapter is written as `chapter.xhtml`, so the spine item's href
      `chapter1.xhtml` names no entry, while the navigation link names the
      written chapter and the `nav` item names the written navigation
      document. */
  lemma SpineItemNotWritten(cfg: Config, title: string, content: string,
                            images: seq<(string, string)>, uuid: string, now: string)
    ensures var es := Entries(cfg, title, content, images, uuid, now);
      var m := Manifest(images);
      && !HasEntry(es, "OEBPS/" + m[0].href)
      && HasEntry(es, "OEBPS/" + es[3].part.linkHref)
      && HasEntry(es, "OEBPS/" + m[1].href)
  {
    var es := Entries(cfg, title, content, images, uuid, now);
    var m := Manifest(images);
    assert m[0].href == "chapter1.xhtml" && m[1].href == "nav.xhtml";
    WrittenPaths();
    assert forall e :: 0 <= e < |es| ==> |es[e].path| == [8, 22, 19, 15, 17][e];
    assert es[2].path == "OEBPS/" + es[3].part.linkHref;
    assert es[3].path == "OEBPS/" + m[1].href;
  }

  /** The chapter and navigation documents are written under the names their
      links use; the spine item's href, under `OEBPS/`, is 20 characters long. */
  lemma WrittenPaths()
    ensures ChapterPath == "OEBPS/" + "chapter.xhtml"
    ensures NavPath == "OEBPS/" + "nav.xhtml"
    ensures |"OEBPS/" + "chapter1.xhtml"| == 20
  {
  }

  /** The chapter links `styles.css`, which is not written. */
  lemma StylesheetNotWritten(cfg: Config, title: string, content: string,
                             images: seq<(string, string)>, uuid: string, now: string)
    ensures var es := Entries(cfg, title, content, images, uuid, now);
      && es[2].part.stylesheetHref == Some("styles.css")
      && !HasEntry(es, "OEBPS/styles.css")
  {
    var es := Entries(cfg, title, content, images, uuid, now);
    assert forall e :: 0 <= e < |es| ==> |es[e].path| == [8, 22, 19, 15, 17][e];
    assert es[3].path != "OEBPS/styles.css" by {
      assert es[3].path[6] == 'n';
    }
  }

  /** Only the package title is escaped: the chapter's `<title>` and `<h1>` and
      the navigation link text carry the title raw. The two readings agree
      exactly when the title has none of the five reserved characters. */
  lemma TitleEscaping(cfg: Config, title: string, content: string,
                      images: seq<(string, string)>, uuid: string, now: string)
    ensures var es := Entries(cfg, title, content, images, uuid, now);
      && es[2].part.title == es[2].part.heading.value == es[3].part.linkText == title
      && es[4].part.pkg.title == EscapeXml(title)
      && UnescapeXml(es[4].part.pkg.title) == title
      && (es[4].part.pkg.title == es[2].part.title <==>
            forall i :: 0 <= i < |title| ==> !IsReserved(title[i]))
  {
    var es := Entries(cfg, title, content, images, uuid, now);
    assert es[2].part == ContentDoc(title, Some(title), Some("styles.css"), content);
    assert es[3].part.linkText == title;
    EscapeIdentityIff(title);
  }
}
