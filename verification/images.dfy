/** dist/imageProcessor.js: `processImages` walks the `<img>` elements of the
    content in document order and inlines each one as a data URI, caching by URL
    in a `Map`; `generateImageFileName` picks a file-name extension. */
module ImageProcessor {
  import opened Wrappers
  import opened Text

  /** What the network and the blob reader give for one fetch of an image: the
      blob's media type and its base64 text, or a failure (a rejected fetch, a
      non-ok status, an unparsable URL or a reader error, all of which end in the
      same `catch`). */
  datatype FetchOutcome = Ok(mimeType: string, payload: string) | Fail

  /** An `<img>` element: its `src`, and what fetching that `src` at this point of
      the walk would give. */
  datatype Img = Img(src: string, response: FetchOutcome)

  /** What the walk did to one `<img>`. */
  datatype Disposition =
    | Skipped            // empty src: left alone, not fetched
    | Cached(uri: string)  // src replaced from the map, no fetch
    | Fetched(uri: string) // fetched, stored in the map, src replaced
    | Removed            // fetched, failed, element removed

  /** The result of the walk: the `Map` (an insertion-ordered association list),
      the fate of each element, and how many fetches were issued. */
  datatype Processed = Processed(cache: seq<(string, string)>, images: seq<Disposition>, fetches: nat)

  /** `data:${blob.type};base64,${base64}`. */
  function DataUri(mimeType: string, payload: string): string {
    "data:" + mimeType + ";base64," + payload
  }

  function UriOf(img: Img): string
    requires img.response.Ok?
  {
    DataUri(img.response.mimeType, img.response.payload)
  }

  // ---------------------------------------------------------------------------
  // The association list behind the JavaScript Map

  /** `map.has(k) ? map.get(k) : undefined`. */
  function Lookup(cache: seq<(string, string)>, k: string): (r: Option<string>)
    ensures r.None? <==> forall i :: 0 <= i < |cache| ==> cache[i].0 != k
    ensures r.Some? ==> exists i :: 0 <= i < |cache| && cache[i] == (k, r.value)
  {
    if |cache| == 0 then None
    else if cache[0].0 == k then Some(cache[0].1)
    else
      var r := Lookup(cache[1..], k);
      assert forall i :: 1 <= i < |cache| ==> cache[i] == cache[1..][i - 1];
      r
  }

  predicate DistinctKeys(cache: seq<(string, string)>) {
    forall i, j :: 0 <= i < j < |cache| ==> cache[i].0 != cache[j].0
  }

  /** `map.set(k, v)` for a key not yet in the map appends the pair, and lookups
      of other keys are unchanged. */
  lemma {:induction false} LookupSnoc(cache: seq<(string, string)>, k: string, v: string, u: string)
    requires Lookup(cache, k).None?
    ensures Lookup(cache + [(k, v)], u) == if u == k then Some(v) else Lookup(cache, u)
  {
    if |cache| > 0 {
      assert (cache + [(k, v)])[1..] == cache[1..] + [(k, v)];
      assert Lookup(cache[1..], k).None? by {
        assert forall i :: 0 <= i < |cache| - 1 ==> cache[1..][i] == cache[i + 1];
      }
      LookupSnoc(cache[1..], k, v, u);
    }
  }

  // ---------------------------------------------------------------------------
  // The walk

  /** One iteration of the `for (const img of images)` loop: it records one
      disposition after the earlier ones, skips exactly the elements with an
      empty src, counts a fetch exactly for a fetched or removed element, and
      grows the map only on a successful fetch, by that URL and its data URI. */
  function Step(st: Processed, img: Img): (r: Processed)
    ensures |r.images| == |st.images| + 1 && r.images[..|st.images|] == st.images
    ensures r.images[|st.images|].Skipped? <==> img.src == ""
    ensures r.fetches == st.fetches + if r.images[|st.images|].Fetched? || r.images[|st.images|].Removed? then 1 else 0
    ensures r.cache == st.cache
            || (r.images[|st.images|].Fetched? && r.cache == st.cache + [(img.src, r.images[|st.images|].uri)])
  {
    if img.src == "" then
      st.(images := st.images + [Skipped])
    else
      match Lookup(st.cache, img.src)
      case Some(u) => st.(images := st.images + [Cached(u)])
      case None =>
        match img.response
        case Ok(t, p) =>
          Processed(st.cache + [(img.src, DataUri(t, p))], st.images + [Fetched(DataUri(t, p))], st.fetches + 1)
        case Fail =>
          Processed(st.cache, st.images + [Removed], st.fetches + 1)
  }

  // ---------------------------------------------------------------------------
  // The reference description of the walk's outcome

  /** Fetching `img` would succeed for URL `u`. */
  predicate Succeeds(img: Img, u: string) {
    img.src == u && u != "" && img.response.Ok?
  }

  /** The index of the first element with src `u` whose fetch succeeds. */
  function FirstOkAt(imgs: seq<Img>, u: string): (r: Option<nat>)
    ensures r.Some? ==> r.value < |imgs| && Succeeds(imgs[r.value], u)
                        && forall k :: 0 <= k < r.value ==> !Succeeds(imgs[k], u)
    ensures r.None? ==> forall k :: 0 <= k < |imgs| ==> !Succeeds(imgs[k], u)
  {
    if |imgs| == 0 then None
    else
      match FirstOkAt(imgs[..|imgs| - 1], u)
      case Some(k) => Some(k)
      case None => if Succeeds(imgs[|imgs| - 1], u) then Some(|imgs| - 1) else None
  }

  /** The data URI the walk associates with URL `u`, if any: that of the first
      element with that src whose fetch succeeds. */
  function CachedUri(imgs: seq<Img>, u: string): Option<string> {
    match FirstOkAt(imgs, u)
    case None => None
    case Some(k) => Some(UriOf(imgs[k]))
  }

  /** What happens to element `i`, stated without the map: an empty src is
      skipped; a src that some earlier element fetched successfully is served
      from that fetch; otherwise it is fetched, and kept or removed by its own
      outcome. */
  function Expected(imgs: seq<Img>, i: nat): Disposition
    requires i < |imgs|
  {
    var img := imgs[i];
    if img.src == "" then Skipped
    else
      match CachedUri(imgs[..i], img.src)
      case Some(u) => Cached(u)
      case None => if img.response.Ok? then Fetched(UriOf(img)) else Removed
  }

  /** The number of dispositions that issued a fetch. */
  function FetchCount(ds: seq<Disposition>): (n: nat)
    ensures n <= |ds|
  {
    if |ds| == 0 then 0
    else FetchCount(ds[..|ds| - 1]) + (if ds[|ds| - 1].Fetched? || ds[|ds| - 1].Removed? then 1 else 0)
  }

  lemma FirstOkSnoc(imgs: seq<Img>, x: Img, u: string)
    ensures FirstOkAt(imgs + [x], u) ==
      if FirstOkAt(imgs, u).Some? then FirstOkAt(imgs, u)
      else if Succeeds(x, u) then Some(|imgs|) else None
  {
    assert (imgs + [x])[..|imgs|] == imgs;
  }

  /** The keys of the map are in the order of their URLs' first successful fetch. */
  ghost predicate KeysInOrder(imgs: seq<Img>, cache: seq<(string, string)>) {
    forall p, q :: 0 <= p < q < |cache| ==>
      && FirstOkAt(imgs, cache[p].0).Some?
      && FirstOkAt(imgs, cache[q].0).Some?
      && FirstOkAt(imgs, cache[p].0).value < FirstOkAt(imgs, cache[q].0).value
  }

  /** `r` is what the walk over `imgs` must produce: each element's fate is the
      one `Expected` describes; the map holds, for every URL, the data URI of its
      first successful fetch and nothing else; its keys are distinct and in the
      order of those first successes, so it is no larger than the element list;
      and the fetch count is the number of elements that were fetched. */
  ghost predicate Describes(imgs: seq<Img>, r: Processed) {
    && |r.images| == |imgs|
    && (forall i :: 0 <= i < |imgs| ==> r.images[i] == Expected(imgs, i))
    && (forall u :: Lookup(r.cache, u) == CachedUri(imgs, u))
    && DistinctKeys(r.cache)
    && KeysInOrder(imgs, r.cache)
    && |r.cache| <= |imgs|
    && r.fetches == FetchCount(r.images)
  }

  /** `processImages(content)` over the `<img>` elements of the content, in
      document order (the `for ... of` loop of lines 8-38). */
  method ProcessImages(imgs: seq<Img>) returns (r: Processed)
    ensures Describes(imgs, r)
  {
    r := Processed([], [], 0);
    for i := 0 to |imgs|
      invariant Describes(imgs[..i], r)
    {
      StepKeepsDescription(imgs[..i], imgs[i], r);
      assert imgs[..i + 1] == imgs[..i] + [imgs[i]];
      r := Step(r, imgs[i]);
    }
    assert imgs[..|imgs|] == imgs;
  }

  /** One more element: if `st` describes the walk over `pre`, the step over `x`
      describes the walk over `pre + [x]`. */
  lemma StepKeepsDescription(pre: seq<Img>, x: Img, st: Processed)
    requires Describes(pre, st)
    ensures Describes(pre + [x], Step(st, x))
  {
    StepCache(pre, x, st);
    StepImages(pre, x, st);
    StepOrder(pre, x, st);
    var r := Step(st, x);
    assert r.images[..|pre|] == st.images;
  }

  /** The map after the step answers every URL with its first successful fetch. */
  lemma StepCache(pre: seq<Img>, x: Img, st: Processed)
    requires Describes(pre, st)
    ensures forall u :: Lookup(Step(st, x).cache, u) == CachedUri(pre + [x], u)
  {
    var r := Step(st, x);
    forall u ensures Lookup(r.cache, u) == CachedUri(pre + [x], u) {
      FirstOkSnoc(pre, x, u);
      assert (pre + [x])[|pre|] == x;
      if x.src != "" && Lookup(st.cache, x.src).None? && x.response.Ok? {
        LookupSnoc(st.cache, x.src, UriOf(x), u);
      }
    }
  }

  /** The step's disposition of `x`, and the earlier ones, are the expected ones. */
  lemma StepImages(pre: seq<Img>, x: Img, st: Processed)
    requires Describes(pre, st)
    ensures forall i :: 0 <= i < |pre| + 1 ==> Step(st, x).images[i] == Expected(pre + [x], i)
  {
    var imgs := pre + [x];
    var r := Step(st, x);
    forall i | 0 <= i < |pre|
      ensures r.images[i] == Expected(imgs, i)
    {
      assert imgs[..i] == pre[..i] && imgs[i] == pre[i];
    }
    assert imgs[..|pre|] == pre;
  }

  /** A key the step appends has its first success at the new element, after
      those of all earlier keys. */
  lemma StepOrder(pre: seq<Img>, x: Img, st: Processed)
    requires Describes(pre, st)
    ensures KeysInOrder(pre + [x], Step(st, x).cache)
  {
    var imgs := pre + [x];
    var c := Step(st, x).cache;
    forall k | 0 <= k < |st.cache|
      ensures FirstOkAt(imgs, st.cache[k].0) == FirstOkAt(pre, st.cache[k].0)
      ensures FirstOkAt(pre, st.cache[k].0).Some?
    {
      OldKeyStays(pre, x, st, k);
    }
    if |c| == |st.cache| {
      assert c == st.cache;
    } else {
      NewKeyLast(pre, x, st);
      assert c == st.cache + [(x.src, UriOf(x))];
      forall p, q | 0 <= p < q < |c|
        ensures FirstOkAt(imgs, c[p].0).Some? && FirstOkAt(imgs, c[q].0).Some?
        ensures FirstOkAt(imgs, c[p].0).value < FirstOkAt(imgs, c[q].0).value
      {
        if q < |st.cache| {
          assert c[p] == st.cache[p] && c[q] == st.cache[q];
        } else {
          assert c[p] == st.cache[p] && c[q].0 == x.src;
        }
      }
    }
  }

  /** A key already in the map keeps its first success when an element is added. */
  lemma OldKeyStays(pre: seq<Img>, x: Img, st: Processed, k: nat)
    requires Describes(pre, st) && k < |st.cache|
    ensures FirstOkAt(pre, st.cache[k].0).Some?
    ensures FirstOkAt(pre + [x], st.cache[k].0) == FirstOkAt(pre, st.cache[k].0)
  {
    assert Lookup(st.cache, st.cache[k].0).Some?;
    FirstOkSnoc(pre, x, st.cache[k].0);
  }

  /** The key the step appends, if any, has its first success at the new element. */
  lemma NewKeyLast(pre: seq<Img>, x: Img, st: Processed)
    requires Describes(pre, st)
    requires |Step(st, x).cache| > |st.cache|
    ensures x.src != "" && x.response.Ok?
    ensures Step(st, x).cache == st.cache + [(x.src, UriOf(x))]
    ensures FirstOkAt(pre + [x], x.src) == Some(|pre|)
  {
    FirstOkSnoc(pre, x, x.src);
  }

  // ---------------------------------------------------------------------------
  // Consequences, for the result of the walk

  /** Once a URL has been fetched successfully it is never fetched again: every
      later element with that src gets the same data URI from the map. */
  lemma NoRefetchAfterSuccess(imgs: seq<Img>, r: Processed, i: nat, j: nat)
    requires Describes(imgs, r)
    requires i < j < |imgs| && imgs[i].src == imgs[j].src
    requires r.images[i].Fetched?
    ensures r.images[j] == Cached(r.images[i].uri)
  {
    var src := imgs[i].src;
    assert Expected(imgs, i) == r.images[i];
    assert imgs[..j][..i] == imgs[..i];
    FirstOkSnoc(imgs[..i], imgs[i], src);
    assert imgs[..i] + [imgs[i]] == imgs[..i + 1];
    FirstOkPrefix(imgs[..j], i + 1, src);
    assert imgs[..j][..i + 1] == imgs[..i + 1];
    assert Expected(imgs, j) == r.images[j];
  }

  /** A failed fetch caches nothing: the next element with the same src is
      fetched again. */
  lemma FailureIsRetried(imgs: seq<Img>, r: Processed, i: nat, j: nat)
    requires Describes(imgs, r)
    requires i < j < |imgs| && imgs[i].src == imgs[j].src
    requires forall k :: i < k < j ==> imgs[k].src != imgs[i].src
    requires r.images[i] == Removed
    ensures r.images[j].Fetched? || r.images[j] == Removed
  {
    var src := imgs[i].src;
    assert Expected(imgs, i) == r.images[i];
    assert FirstOkAt(imgs[..j], src).None? by {
      forall k | 0 <= k < j
        ensures !Succeeds(imgs[..j][k], src)
      {
        assert imgs[..j][k] == imgs[k];
        if k < i { assert imgs[..i][k] == imgs[k]; }
      }
    }
    assert Expected(imgs, j) == r.images[j];
  }

  /** An element with an empty src is neither fetched, changed nor removed, and
      only such elements are skipped. */
  lemma SkippedIffEmptySrc(imgs: seq<Img>, r: Processed, i: nat)
    requires Describes(imgs, r)
    requires i < |imgs|
    ensures r.images[i] == Skipped <==> imgs[i].src == ""
  {
    assert Expected(imgs, i) == r.images[i];
  }

  /** Every element that survives with a rewritten src carries exactly the map's
      value for its original URL, and that value is a base64 data URI. */
  lemma SurvivorsMatchMap(imgs: seq<Img>, r: Processed, i: nat)
    requires Describes(imgs, r)
    requires i < |imgs|
    requires r.images[i].Cached? || r.images[i].Fetched?
    ensures Lookup(r.cache, imgs[i].src) == Some(r.images[i].uri)
    ensures exists t, p :: r.images[i].uri == DataUri(t, p)
  {
    assert Expected(imgs, i) == r.images[i];
    ServedUri(imgs, i);
    assert Lookup(r.cache, imgs[i].src) == CachedUri(imgs, imgs[i].src);
  }

  /** An element served a data URI is served the one of its URL's first
      successful fetch. */
  lemma ServedUri(imgs: seq<Img>, i: nat)
    requires i < |imgs|
    requires Expected(imgs, i).Cached? || Expected(imgs, i).Fetched?
    ensures CachedUri(imgs, imgs[i].src) == Some(Expected(imgs, i).uri)
    ensures exists t, p :: Expected(imgs, i).uri == DataUri(t, p)
  {
    var src := imgs[i].src;
    var k := FirstOkAt(imgs[..i], src);
    if k.Some? {
      FirstOkPrefix(imgs, i, src);
      assert imgs[..i][k.value] == imgs[k.value];
      var img := imgs[k.value];
      assert Expected(imgs, i).uri == DataUri(img.response.mimeType, img.response.payload);
    } else {
      assert imgs[..i + 1] == imgs[..i] + [imgs[i]];
      FirstOkSnoc(imgs[..i], imgs[i], src);
      FirstOkPrefix(imgs, i + 1, src);
      var img := imgs[i];
      assert Expected(imgs, i).uri == DataUri(img.response.mimeType, img.response.payload);
    }
  }

  /** A successful fetch found in a prefix is still the first one in the whole list. */
  lemma FirstOkPrefix(imgs: seq<Img>, m: nat, u: string)
    requires m <= |imgs|
    requires FirstOkAt(imgs[..m], u).Some?
    ensures FirstOkAt(imgs, u) == FirstOkAt(imgs[..m], u)
  {
    var k := FirstOkAt(imgs[..m], u).value;
    assert imgs[..m][k] == imgs[k];
    assert forall t :: 0 <= t < k ==> imgs[..m][t] == imgs[t];
  }

  // ---------------------------------------------------------------------------
  // generateImageFileName

  /** `pathname.split('.').pop()`: the longest suffix without a dot, which is
      the whole pathname when it has no dot. */
  function LastSegment(p: string): (r: string)
    ensures |r| <= |p| && forall i :: 0 <= i < |r| ==> r[i] == p[|p| - |r| + i]
    ensures forall i :: 0 <= i < |r| ==> r[i] != '.'
    ensures |r| < |p| ==> p[|p| - |r| - 1] == '.'
  {
    if |p| == 0 || p[|p| - 1] == '.' then []
    else LastSegment(p[..|p| - 1]) + [p[|p| - 1]]
  }

  /** `pathname.split('.').pop() || 'jpg'`: never empty and never holding a
      dot. */
  function Extension(pathname: string): (x: string)
    ensures |x| > 0 && forall i :: 0 <= i < |x| ==> x[i] != '.'
  {
    var seg := LastSegment(pathname);
    if seg == [] then "jpg" else seg
  }

  /** `image_${Date.now()}.${extension}`, with the clock reading as an input:
      `image_`, then digits that read back as the clock value, then a dot and
      the extension. */
  function ImageFileName(pathname: string, now: nat): (name: string)
    ensures var x := Extension(pathname);
      && 7 + |x| < |name|
      && name[..6] == "image_"
      && (forall i :: 6 <= i < |name| - |x| - 1 ==> IsDigit(name[i]))
      && DecimalValue(name[6..|name| - |x| - 1]) == now
      && name[|name| - |x| - 1] == '.'
      && name[|name| - |x|..] == x
  {
    var x := Extension(pathname);
    var digits := NatToDecimal(now);
    NameParts("image_", digits, x);
    "image_" + digits + "." + x
  }

  /** Where the parts of `prefix + digits + "." + x` sit. */
  lemma NameParts(prefix: string, digits: string, x: string)
    ensures var name := prefix + digits + "." + x;
      && |name| == |prefix| + |digits| + 1 + |x|
      && name[..|prefix|] == prefix
      && name[|prefix|..|prefix| + |digits|] == digits
      && name[|prefix| + |digits|] == '.'
      && name[|prefix| + |digits| + 1..] == x
  {
    var name := prefix + digits + "." + x;
    assert name[..|prefix|] == prefix;
    assert name[|prefix|..|prefix| + |digits|] == digits;
    assert name[|prefix| + |digits| + 1..] == x;
  }

  /** The last segment is empty exactly when the pathname is empty or ends with
      a dot, and it is the whole pathname when there is no dot. */
  lemma {:induction false} LastSegmentRule(pathname: string)
    ensures LastSegment(pathname) == [] <==> |pathname| == 0 || pathname[|pathname| - 1] == '.'
    ensures (forall i :: 0 <= i < |pathname| ==> pathname[i] != '.') ==> LastSegment(pathname) == pathname
  {
    var r := LastSegment(pathname);
    if |pathname| > 0 && pathname[|pathname| - 1] != '.' {
      assert r[|r| - 1] == pathname[|pathname| - 1];
    }
    assert |r| < |pathname| ==> pathname[|pathname| - |r| - 1] == '.';
    if forall i :: 0 <= i < |pathname| ==> pathname[i] != '.' {
      assert |r| == |pathname|;
      assert r == pathname[0..];
      assert pathname[0..] == pathname;
    }
  }

  /** The extension falls back to `jpg` when the pathname is empty or ends
      with a dot; otherwise it is the non-empty part after the last dot (the
      whole pathname when there is none). Either way it holds no dot. */
  lemma {:induction false} ExtensionRule(pathname: string)
    ensures |pathname| == 0 || pathname[|pathname| - 1] == '.' ==> Extension(pathname) == "jpg"
    ensures |pathname| > 0 && pathname[|pathname| - 1] != '.' ==>
      Extension(pathname) == LastSegment(pathname) != []
    ensures forall i :: 0 <= i < |Extension(pathname)| ==> Extension(pathname)[i] != '.'
  {
    LastSegmentRule(pathname);
    var x := Extension(pathname);
    if LastSegment(pathname) == [] {
      assert x == "jpg";
      assert x[0] == 'j' && x[1] == 'p' && x[2] == 'g';
    } else {
      assert x == LastSegment(pathname);
    }
  }
}
