/** The vocabulary shared by the three EPUB writers: archive entries as handed to
    the ZIP library, the parts they carry, the package document's manifest and
    spine, the configuration object and the size gate. */
module Epub {
  import opened Wrappers

  /** The bytes of the `mimetype` entry required by section 3.3 of EPUB Open
      Container Format 3.0.1. */
  const EpubMimetype: string := "application/epub+zip"

  const MimetypePath: string := "mimetype"
  const ContainerPath: string := "META-INF/container.xml"
  const PackagePath: string := "OEBPS/content.opf"
  const PackageMediaType: string := "application/oebps-package+xml"
  const XhtmlMediaType: string := "application/xhtml+xml"

  /** The compression option an entry is added with: `{ compression: "STORE" }`,
      or no option at all, which leaves the choice to the archive-wide setting of
      the ZIP library. */
  datatype Mode = Store | LibraryDefault

  /** The manifest `<item>` element. */
  datatype ManifestItem = Item(id: string, href: string, mediaType: string, properties: Option<string>)

  /** The values interpolated into a package document (`content.opf`). */
  datatype Package = Package(
    version: string,
    title: string,
    language: string,
    identifier: string,
    creator: string,
    date: string,
    cover: Option<string>,
    manifest: seq<ManifestItem>,
    spine: seq<string>)

  /** What an archive entry holds. The XML template text around the interpolated
      values is constant and is not represented; each variant keeps exactly the
      values the source splices into its template. */
  datatype Part =
    | Literal(text: string)
    | ContainerXml(rootPath: string, rootMediaType: string)
    | Stylesheet(fontFamily: string)
    | ContentDoc(title: string, heading: Option<string>, stylesheetHref: Option<string>, body: string)
    | NavDoc(title: string, tocHeading: string, linkHref: string, linkText: string)
    | PackageDoc(pkg: Package)

  /** One `zip.file(path, data, options)` call, in call order. */
  datatype Entry = Entry(path: string, part: Part, mode: Mode)

  /** The recognised options of the configuration object. The container
      descriptor text is represented, like every template here, by the values it
      names: the rootfile's full path and media type. */
  datatype Config = Config(
    version: string,
    language: string,
    defaultFont: string,
    maxFileSize: nat,
    fileTooLargeMessage: string,
    mimetype: string,
    containerRootPath: string,
    containerRootMediaType: string)

  /** The message of `errorMessages.fileTooLarge` in dist/config.js. */
  const FileTooLargeMessage: string := "文件大小超过限制"

  /** dist/config.js: EPUB 3.0, language `zh`, font Arial, a 10 MiB limit, its
      size message, the EPUB media type, and a container descriptor naming
      `OEBPS/content.opf` as the package document. */
  const DefaultConfig: Config :=
    Config("3.0", "zh", "Arial", 10 * 1024 * 1024, FileTooLargeMessage,
           EpubMimetype, PackagePath, PackageMediaType)

  const ImageMediaType: string := "image/jpeg"

  /** Errors a writer throws to its caller: the size gate's error, or the
      `TypeError` of calling `querySelectorAll` on a value that has no such
      method (a string). */
  datatype GenError = FileTooLarge(message: string) | ContentNotQueryable

  // ---------------------------------------------------------------------------
  // Properties of archives and package documents

  /** The archive layout section 3.3 of EPUB OCF 3.0.1 demands: the first entry
      is `mimetype`, stored uncompressed, holding exactly `application/epub+zip`,
      and no later entry has that name. */
  predicate MimetypeFirst(entries: seq<Entry>) {
    && |entries| > 0
    && entries[0] == Entry(MimetypePath, Literal(EpubMimetype), Store)
    && forall i :: 1 <= i < |entries| ==> entries[i].path != MimetypePath
  }

  predicate HasEntry(entries: seq<Entry>, path: string) {
    exists i :: 0 <= i < |entries| && entries[i].path == path
  }

  predicate DistinctPaths(entries: seq<Entry>) {
    forall i, j :: 0 <= i < j < |entries| ==> entries[i].path != entries[j].path
  }

  /** The ids of a manifest, in manifest order. */
  function Ids(manifest: seq<ManifestItem>): (ids: seq<string>)
    ensures |ids| == |manifest|
    ensures forall i :: 0 <= i < |manifest| ==> ids[i] == manifest[i].id
  {
    if |manifest| == 0 then [] else Ids(manifest[..|manifest| - 1]) + [manifest[|manifest| - 1].id]
  }

  predicate DistinctIds(manifest: seq<ManifestItem>) {
    forall i, j :: 0 <= i < j < |manifest| ==> manifest[i].id != manifest[j].id
  }

  /** Every spine itemref names a manifest item (exactly one when the ids are
      distinct). */
  predicate SpineResolves(pkg: Package) {
    forall k :: 0 <= k < |pkg.spine| ==>
      exists i :: 0 <= i < |pkg.manifest| && pkg.manifest[i].id == pkg.spine[k]
  }

  /** `if (blob.size > max) throw new Error(message)`: the finished blob's size is
      compared with the limit, and a size equal to the limit passes. */
  function SizeGate<T>(blobSize: nat, maxSize: nat, message: string, value: T): (r: Result<T, GenError>)
    ensures r.Failure? <==> blobSize > maxSize
    ensures r.Failure? ==> r.error == FileTooLarge(message)
    ensures r.Success? ==> r.value == value
  {
    if blobSize > maxSize then Failure(FileTooLarge(message)) else Success(value)
  }

  // ---------------------------------------------------------------------------
  // Manifest items for the processed-image map

  /** `images.forEach((_, index) => manifest.push(...))` over the map returned by
      `processImages`. `Map.prototype.forEach` passes the value first and the key
      second, so `index` is the image URL: each entry of the map, in insertion
      order, yields an item whose id is `image` followed by the URL and whose
      href is `images/image`, the URL and `.jpg`. */
  function ImageItems(images: seq<(string, string)>): (items: seq<ManifestItem>)
    ensures |items| == |images|
    ensures forall i :: 0 <= i < |images| ==>
      items[i] == Item("image" + images[i].0, "images/image" + images[i].0 + ".jpg", ImageMediaType, None)
  {
    if |images| == 0 then []
    else
      var k := images[|images| - 1].0;
      ImageItems(images[..|images| - 1]) + [Item("image" + k, "images/image" + k + ".jpg", ImageMediaType, None)]
  }

  /** Two image items share an id exactly when their map entries share a key. */
  lemma ImageIdsDistinctIff(images: seq<(string, string)>)
    ensures DistinctIds(ImageItems(images)) <==>
      forall i, j :: 0 <= i < j < |images| ==> images[i].0 != images[j].0
  {
    var items := ImageItems(images);
    forall i, j | 0 <= i < j < |images| && items[i].id == items[j].id
      ensures images[i].0 == images[j].0
    {
      PrefixCancel("image", images[i].0, images[j].0);
    }
  }

  /** Fixed items whose ids are distinct and do not start with `i`, followed by
      the image items: the ids are distinct exactly when the map's keys are. */
  lemma ManifestIdsDistinctIff(fixed: seq<ManifestItem>, images: seq<(string, string)>)
    requires DistinctIds(fixed)
    requires forall i :: 0 <= i < |fixed| ==> |fixed[i].id| == 0 || fixed[i].id[0] != 'i'
    ensures DistinctIds(fixed + ImageItems(images)) <==>
      forall i, j :: 0 <= i < j < |images| ==> images[i].0 != images[j].0
  {
    var items := ImageItems(images);
    ImageIdsDistinctIff(images);
    forall i, j | 0 <= i < |fixed| && 0 <= j < |items|
      ensures fixed[i].id != items[j].id
    {
      assert items[j].id[0] == 'i';
    }
    if DistinctIds(fixed + items) {
      SuffixIdsDistinct(fixed, items);
    }
    if DistinctIds(items) {
      AppendIdsDistinct(fixed, items);
    }
  }

  lemma SuffixIdsDistinct(fixed: seq<ManifestItem>, items: seq<ManifestItem>)
    requires DistinctIds(fixed + items)
    ensures DistinctIds(items)
  {
    var m := fixed + items;
    forall i, j | 0 <= i < j < |items| ensures items[i].id != items[j].id {
      assert items[i] == m[i + |fixed|] && items[j] == m[j + |fixed|];
    }
  }

  lemma AppendIdsDistinct(fixed: seq<ManifestItem>, items: seq<ManifestItem>)
    requires DistinctIds(fixed) && DistinctIds(items)
    requires forall i, j :: 0 <= i < |fixed| && 0 <= j < |items| ==> fixed[i].id != items[j].id
    ensures DistinctIds(fixed + items)
  {
    var n := |fixed|;
    var m := fixed + items;
    forall i, j | 0 <= i < j < |m| ensures m[i].id != m[j].id {
      if n <= i {
        assert m[i] == items[i - n] && m[j] == items[j - n];
      } else if j < n {
        assert m[i] == fixed[i] && m[j] == fixed[j];
      } else {
        assert m[i] == fixed[i] && m[j] == items[j - n];
      }
    }
  }

  lemma PrefixCancel(p: string, a: string, b: string)
    requires p + a == p + b
    ensures a == b
  {
    assert a == (p + a)[|p|..];
    assert b == (p + b)[|p|..];
  }
}
