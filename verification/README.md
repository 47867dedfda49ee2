# web2epub: a Dafny model of the EPUB packaging core

The web2epub browser extension saves the article in the current tab as an EPUB
book. This project models the logic that turns a title, an HTML content string
and the page's images into the entries of an EPUB archive. There are three
writers of that archive, and each is modelled as written:

- the `EpubGenerator` class of `dist/EpubGenerator.js` (EPUB 2.0, with a
  stylesheet and image manifest items);
- the `EpubGenerator` class of `src/js/EpubGenerator.js` (EPUB 3, driven by the
  configuration object);
- `saveAsEPUB` in `popup.js`, with its helpers `sanitizeTitle`,
  `generateUUID` and `checkFileSize`.

The model also covers the helpers these writers use:

- `escapeXml`, which writes the five predefined entities of XML 1.0
  (section 4.6 of the XML 1.0 recommendation);
- the page-break walk of `processContent`;
- the image walk `processImages` and the extension rule of
  `generateImageFileName` in `dist/imageProcessor.js`.

An archive is modelled as the ordered list of `zip.file(path, data, options)`
calls. Each call becomes an `Entry`: a path, the values spliced into that file's
template, and whether it is stored uncompressed. The constant template text is
not represented. The size of the finished blob is an input, and so are the
clock and the random sources.

Modules, one per source concern:

- `Wrappers`: `Option` and `Result`.
- `Text`: JavaScript `trim` and decimal rendering.
- `Xml`: `escapeXml` and the matching entity decoder.
- `Epub`: entries, manifest items, the package document, the configuration
  and the size gate.
- `DistEpubGenerator` and `SrcEpubGenerator`: the two generator classes.
- `Pagination`: the break-marker walk.
- `ImageProcessor`: the image walk and the file-name rule.
- `Popup`: the popup's title, UUID, size check and `saveAsEPUB`.

The generators are modelled with their quirks, each stated as a lemma:

- Both `createContentOpf` methods call `images.forEach((_, index) => …)` on a
  `Map`. `Map.prototype.forEach` passes the value first and the key second, so
  `index` is the image URL. The manifest items are therefore `image<URL>` with
  href `images/image<URL>.jpg`, not `image0`, `image1`, ….
  - The model follows the code.
  - The item ids are distinct exactly when the map's keys are, and the map
    always has distinct keys.
- The dist package names `image0` as its cover. That id exists only if some
  image's URL is the string `0`.
- No image file is ever written, although the images are listed in the
  manifest.
- The popup of `dist/` hands `generate` the article's HTML as a string, but
  `generate` first calls `processImages(content)`, which calls
  `querySelectorAll` on it. A string has no such method, so every call from
  that popup throws before anything is written. The model keeps both paths:
  a string is rejected, and a DOM node goes on to build the archive.
- The dist `generate` passes the raw content to `createContent`. As a result,
  `processContent` (the pagination) never runs on the book.
- The src generator writes `chapter.xhtml`, but its manifest and spine point to
  `chapter1.xhtml`. It links `styles.css`, which is never written. Only the
  package title is escaped.
- `saveAsEPUB` puts the sanitised title into the XHTML and the package without
  XML escaping. `&` and `'` pass through raw.

## Model

| member | source | states |
|---|---|---|
| Xml.EscapeXml | dist/EpubGenerator.js:239-249 | `escapeXml` never shortens its input and leaves no `<`, `>`, `'` or `"` in its output |
| Xml.EscapeTable | dist/EpubGenerator.js:239-249 | `<`, `>`, `&`, `'` and `"` become `&lt;`, `&gt;`, `&amp;`, `&apos;` and `&quot;`; every other character is copied unchanged |
| Xml.EscapeAppend | dist/EpubGenerator.js:239-249 | escaping distributes over concatenation: each character is rewritten independently of its neighbours |
| Xml.EscapeIsWellEscaped | dist/EpubGenerator.js:239-249 | the output contains no `<`, `>`, `'` or `"`, and every `&` in it begins one of the five entity references |
| Xml.UnescapeEscape | dist/EpubGenerator.js:239-249 | decoding the five entities of the output gives back the input exactly |
| Xml.EscapeUnescape | dist/EpubGenerator.js:239-249 | every well-escaped text is the escape of its own decoding, so the outputs of `escapeXml` are exactly the well-escaped texts |
| Xml.EscapeIdentityIff | src/js/EpubGenerator.js:123-133 | the src copy of `escapeXml` (the same function) leaves a string unchanged exactly when it has none of the five reserved characters |
| Text.Trim | popup.js:19 | `trim` returns the slice of its input left after removing JavaScript whitespace from both ends; only whitespace is removed and neither end of the result is whitespace |
| Text.TrimOfTrimmed | popup.js:19 | `trim` leaves a string without whitespace at either end unchanged |
| Text.TrimEmptyIffBlank | popup.js:19 | `trim` yields the empty string exactly for strings made only of whitespace |
| Text.NatToDecimal | dist/imageProcessor.js:47 | `${Date.now()}` is a non-empty run of decimal digits, with no leading zero unless it is `0`, whose value is the clock reading |
| Epub.SizeGate | dist/EpubGenerator.js:32-34 | the archive is rejected with the `fileTooLarge` message exactly when its size exceeds the limit; a size equal to the limit is accepted and the archive is returned unchanged |
| Epub.ImageItems | src/js/EpubGenerator.js:99-101 | there is one manifest item per map entry, in insertion order, with id `image` plus the key, href `images/image` plus the key plus `.jpg`, and type `image/jpeg` |
| Epub.ImageIdsDistinctIff | src/js/EpubGenerator.js:99-101 | two image items share an id exactly when their map entries share a key |
| Epub.ManifestIdsDistinctIff | dist/EpubGenerator.js:193-201 | fixed items with distinct ids that do not start with `i`, followed by the image items, have distinct ids exactly when the map's keys are distinct |
| DistEpubGenerator.ContentOpf | dist/EpubGenerator.js:192-237 | the package title is the escaped title and decodes back to it; the manifest is two fixed items followed by exactly the image items of the map; the spine is the first manifest item |
| DistEpubGenerator.Entries | dist/EpubGenerator.js:19-26 | five entries in call order: the stored `mimetype` entry holding `application/epub+zip`, the container descriptor naming the path of the package entry it precedes, the stylesheet, the content document whose body is the content as given, and the package document |
| DistEpubGenerator.Generate | dist/EpubGenerator.js:16-34 | given a string, `generate` throws at line 16 (`querySelectorAll` is missing) and writes nothing; given a DOM node, from line 19 on with the map `processImages` returns, it fails with the configured `fileTooLarge` message exactly when the blob exceeds `maxFileSize`, and otherwise returns the entries `createMimetype`, `createContainer`, `createStylesheet`, `createContent` and `createContentOpf` add, in that order |
| DistEpubGenerator.PopupCallRejects | dist/popup.js:88-91 | the call the popup makes, with the article's HTML string, never returns an archive, whatever the title, configuration and size, and its error is not the size gate's |
| DistEpubGenerator.Layout | dist/EpubGenerator.js:19-26 | `mimetype` is first, stored, and holds exactly `application/epub+zip`; `META-INF/container.xml` is second; the paths are distinct; later entries carry no compression option |
| DistEpubGenerator.PackageConsistent | dist/EpubGenerator.js:192-237 | the manifest is `content`, `style`, then one item per image; the ids are distinct exactly when the map's keys are; the spine's `content` is a manifest id; the two fixed hrefs name written entries |
| DistEpubGenerator.CoverResolvesIff | dist/EpubGenerator.js:211 | the cover `image0` names a manifest item exactly when some image URL is the string `0` |
| DistEpubGenerator.ImagesNotWritten | dist/EpubGenerator.js:199-201 | no image item's href names an entry of the archive |
| DistEpubGenerator.TitlesEscapedBodyRaw | dist/EpubGenerator.js:167-190 | the `<title>`, the `<h1>` and `dc:title` hold the escaped title, which is well escaped and decodes back to the title; the body is the content string as given, without pagination |
| SrcEpubGenerator.ContentOpf | src/js/EpubGenerator.js:92-121 | the package declares the configured version and language; its title is the escaped title and decodes back to it; the manifest is two fixed items followed by exactly the image items of the map; the spine is the first manifest item |
| SrcEpubGenerator.Entries | src/js/EpubGenerator.js:19-26 | five entries in call order: the stored `mimetype` entry holding the configured bytes, the configured container descriptor, the chapter whose body is the content as given, the navigation document, and the package document |
| SrcEpubGenerator.Generate | src/js/EpubGenerator.js:19-34 | from line 19 on, given the map `processImages` returns, `generate` fails with the configured `fileTooLarge` message exactly when the blob exceeds `maxFileSize`; otherwise it returns the five entries in call order |
| SrcEpubGenerator.Layout | src/js/EpubGenerator.js:19-50 | the archive meets the `mimetype` rule exactly when the configured mimetype is `application/epub+zip`; the container descriptor names the written package exactly when the configured rootfile path is `OEBPS/content.opf`; the paths are distinct; later entries carry no compression option |
| SrcEpubGenerator.DefaultConfigPackage | dist/config.js:3-27 | under the default configuration the package declares version `3.0` and language `zh`, the archive meets the `mimetype` rule, its container descriptor names the package it writes, and an oversized archive is rejected with `文件大小超过限制` |
| SrcEpubGenerator.PackageConsistent | src/js/EpubGenerator.js:92-121 | the manifest is `chapter1`, `nav` (with `properties="nav"`), then one item per image, `2 + k` items for `k` images; the ids are distinct exactly when the map's keys are; the spine `chapter1` is a manifest id |
| SrcEpubGenerator.SpineItemNotWritten | src/js/EpubGenerator.js:68-94 | the spine item's href `chapter1.xhtml` names no entry, while the navigation link and the `nav` item name written files |
| SrcEpubGenerator.StylesheetNotWritten | src/js/EpubGenerator.js:60 | the chapter links `styles.css`, and no such entry is written |
| SrcEpubGenerator.TitleEscaping | src/js/EpubGenerator.js:59-107 | the chapter title, the heading and the navigation link text are the raw title, while `dc:title` is the escaped title and decodes back to it; the two agree exactly when the title has no reserved character |
| Pagination.Paginate | dist/EpubGenerator.js:85-99 | deleting the markers gives back the elements in order; no marker follows the last element, so there are at most n-1; each closed page reaches 2000 characters at the element its marker follows and not before; the final page reaches 2000 at no element except possibly the last |
| Pagination.BreaksIncrease | dist/EpubGenerator.js:88-97 | marker positions strictly increase, because each page starts after the previous marker |
| ImageProcessor.Step | dist/imageProcessor.js:9-37 | one iteration records one more disposition after the earlier ones; it skips exactly an element with an empty src; it counts a fetch exactly for a fetched or removed element; the map grows only on a successful fetch, by that URL and its data URI |
| ImageProcessor.ProcessImages | dist/imageProcessor.js:4-41 | after the walk: each element's fate is its reference disposition; the map answers every URL with the data URI of its first successful fetch and nothing else; keys are distinct, in order of first success, and no more than the elements; the fetch count is the number of fetched elements |
| ImageProcessor.LookupSnoc | dist/imageProcessor.js:27 | `Map.set` of a new key appends it, and lookups of other keys are unchanged |
| ImageProcessor.NoRefetchAfterSuccess | dist/imageProcessor.js:14-17 | after a successful fetch of a URL, every later element with that src receives the same data URI from the map and is not fetched |
| ImageProcessor.FailureIsRetried | dist/imageProcessor.js:33-37 | a failed fetch caches nothing, so the next element with the same src is fetched again |
| ImageProcessor.SkippedIffEmptySrc | dist/imageProcessor.js:10-11 | an element is skipped (not fetched, changed or removed) exactly when its src is empty |
| ImageProcessor.SurvivorsMatchMap | dist/imageProcessor.js:26-30 | every element whose src was rewritten carries exactly the map's value for its original URL, and that value has the form `data:<type>;base64,<payload>` |
| ImageProcessor.LastSegment | dist/imageProcessor.js:46 | `split('.').pop()` is a suffix of the pathname holding no dot, and the character before it, if any, is a dot |
| ImageProcessor.Extension | dist/imageProcessor.js:46 | the extension is never empty and never holds a dot |
| ImageProcessor.LastSegmentRule | dist/imageProcessor.js:46 | the part after the last dot is empty exactly when the pathname is empty or ends with a dot, and it is the whole pathname when there is no dot |
| ImageProcessor.ExtensionRule | dist/imageProcessor.js:46 | the extension is `jpg` when the pathname is empty or ends with a dot; otherwise it is the non-empty part after the last dot; it never contains a dot |
| ImageProcessor.ImageFileName | dist/imageProcessor.js:43-48 | the file name is `image_`, then digits that read back as the clock value, then a dot and the extension |
| Popup.ReplaceReserved | popup.js:19 | the replacement keeps the length, turns each of the nine reserved characters (backslash, slash, colon, star, question mark, double quote, `<`, `>` and the vertical bar) into `_`, keeps every other character in place, and leaves no reserved character |
| Popup.SanitizeTitle | popup.js:17-20 | an absent or empty title gives `untitled`; otherwise the result has no reserved character, no whitespace at either end, and is no longer than the title |
| Popup.SanitizeIdempotent | popup.js:17-20 | sanitising a non-empty result again changes nothing |
| Popup.SanitizeKeepsClean | popup.js:17-20 | a non-empty title without reserved characters or whitespace at either end is kept as it is |
| Popup.SanitizeBlank | popup.js:17-20 | a present title sanitises to the empty string exactly when it is non-empty and only whitespace, and sanitising that again gives `untitled` |
| Popup.FillTemplate | popup.js:26-30 | whatever the random draws, each `x` becomes a lower-case hex digit, each `y` becomes `8`, `9`, `a` or `b`, and every other character is kept |
| Popup.FillTemplateOnto | popup.js:26-30 | every filling of the template is produced by some sequence of draws |
| Popup.TemplateIsV4 | popup.js:26 | the fillings of the template are exactly the strings with the version-4 layout of section 4.4 of RFC 4122: length 36, hyphens at 8, 13, 18 and 23, `4` at 14, a variant digit (section 4.1.1) at 19, and lower-case hex elsewhere |
| Popup.GenerateUuid | popup.js:22-31 | the platform's `randomUUID` is returned when present; otherwise the result has the version-4 layout |
| Popup.FallbackUuidOnto | popup.js:26-30 | every string with the version-4 layout is a possible fallback UUID |
| Popup.CheckFileSize | popup.js:33-38 | the check throws exactly when the blob exceeds 50 × 1024 × 1024 bytes |
| Popup.SaveAsEpub | popup.js:94-186 | `saveAsEPUB` fails exactly when the blob exceeds 50 MiB; otherwise the download is named after the sanitised title plus `.epub` and holds the entries written in call order |
| Popup.SavePackage | popup.js:149-167 | the package carries the title as given, has no cover, lists two items the second of which has `properties="nav"`, and its spine is the first item |
| Popup.SaveEntries | popup.js:102-167 | five entries in call order: the stored `mimetype` entry holding `application/epub+zip`, the container descriptor naming the path of the package entry, the chapter, the navigation document and the package; the chapter title, the link text and the package title are the title as given, and the chapter body is the content as given |
| Popup.SaveEntriesLayout | popup.js:102-149 | `mimetype` is first, stored, and holds exactly `application/epub+zip`; `META-INF/container.xml` is second; the paths are distinct; later entries carry no compression option |
| Popup.SavePackageConsistent | popup.js:141-167 | the manifest ids are `chapter1` and `nav` (with `properties="nav"`) and are distinct; the spine `chapter1` is a manifest id; the navigation link is that item's href; every manifest href names a written entry |
| Popup.SaveTitleEscaping | popup.js:118-153 | for every title, the chapter title, the navigation link text and the package title are the sanitised title, unescaped; escaping would leave it unchanged exactly when it holds no `&` and no `'` |
| Popup.SaveTitleNotEscaped | popup.js:118-153 | the title `Q&A` survives sanitising and reaches the package title with its `&` unescaped, although escaping would change it |

## Left out

- The extension UI: the tab query, script injection, Readability extraction, message display, and clicking the download link (popup.js:41-92 and 177-190, all of dist/popup.js). Its file-name `replace` at dist/popup.js:96 is a smaller variant of `sanitizeTitle` and is not modelled separately.
- DistEpubGenerator.Generate: its only caller, dist/popup.js:88-91, passes the article's HTML string, so every call from the extension is rejected at line 16 with `ContentNotQueryable` and the success path is never reached. The success path is modelled for a DOM node argument, which is never passed. Such a node would reach the content document as its string conversion (line 182 writes `[object …]`), given here as an input. The map that `processImages` builds from the node's images is also an input, and `ImageProcessor.ProcessImages` models that walk over the list of `<img>` elements.
- SrcEpubGenerator.Generate starts at line 19 and takes the map that `processImages` returns as an input. That function is in `src/utils/imageProcessor.js`, which is not part of this model, and the caller of the src generator is not part of it either.
- The image I/O is replaced by one `FetchOutcome` per element: `fetch`, the `ok` check, `response.blob()`, `new URL` inside `generateImageFileName`, and `blobToBase64` with `FileReader` (dist/imageProcessor.js:19-26, 50-60). A failure of any of them leads to the same `catch` and is `Fail`.
- ImageProcessor.ProcessImages: the DOM effects (`img.src = …`, `img.remove()`) appear as each element's disposition, not as a mutated document.
- `generateImageFileName`'s result is only logged. It is modelled on its own (`ImageFileName`) and is not part of the walk's result.
- JSZip:
  - compression and `generateAsync` are not modelled;
  - the blob size is an input;
  - folder entries made by `zip.folder` are not listed.
- Each generator instance keeps one `this.zip` across calls; the model builds a fresh archive per call.
- The constant text of every template is not represented: XML prologues, the CSS of `createStylesheet` (dist/EpubGenerator.js:118-165), the Sigil `<meta>` elements, the `<guide>` element and the container descriptor's fixed text. Each entry keeps only the values spliced into it.
- `Date`, `crypto.randomUUID` and `Math.random` are inputs: the date string, the optional native UUID, and a sequence of nibbles.
- Popup.GenerateUuid: the fallback takes one nibble per `x` or `y` of the template (31 in all, as `DrawsOf` counts). If the supplied sequence runs out, the missing nibbles read as 0, because `Math.random` itself never runs out.
- The style tweaks of `processContent` (dist/EpubGenerator.js:50-78) and its unused `totalPages` (line 83) are not modelled.
- Pagination.Paginate: each element's text length is the length of a Dafny string. JavaScript counts UTF-16 code units, which differs for characters outside the Basic Multilingual Plane.
- `src/config/config.js` is not part of this model. The src generator takes the configuration as a parameter. That covers the version, language, size limit, size message, `mimetype` bytes and container descriptor it reads. `DefaultConfig` uses the values of dist/config.js.
- SrcEpubGenerator.Entries: the configured container descriptor (dist/config.js:22-27) is represented by the rootfile path and media type it names. Its remaining text and the `trim` at src/js/EpubGenerator.js:49 are not modelled, like all template text.
- The logger (src/utils/logger.js) only writes to the console.
