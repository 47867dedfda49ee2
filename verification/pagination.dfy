/** The page-break walk of `processContent` in dist/EpubGenerator.js: top-level
    children are visited in document order, their text lengths accumulate, and
    once the running total reaches the page size a break marker is inserted after
    the current child (unless it is the last one) and the total restarts. */
module Pagination {

  /** A top-level child of the parsed content: its markup and its `textContent`. */
  datatype Element = Element(markup: string, textContent: string)

  /** The children after the walk: the original elements and the inserted
      `<div style="page-break-before: always">` markers. */
  datatype Node = Elem(e: Element) | PageBreak

  /** The number of text characters after which a page is closed. */
  const PageSize: nat := 2000

  /** Total text length of `es[a..b]`. */
  function Sum(es: seq<Element>, a: nat, b: nat): nat
    requires a <= b <= |es|
    decreases b - a
  {
    if a == b then 0 else Sum(es, a, b - 1) + |es[b - 1].textContent|
  }

  /** Text length of a page that starts at `a`, counted up to and including
      element `i`. */
  function Through(es: seq<Element>, a: nat, i: nat): nat
    requires a <= i < |es|
  {
    Sum(es, a, i + 1)
  }

  /** Index of the first element of segment `j`: the start, or just after the
      `j`-th break. */
  function Start(breaks: seq<nat>, j: nat): nat
    requires j <= |breaks|
  {
    if j == 0 then 0 else breaks[j - 1] + 1
  }

  /** The elements left when the markers are deleted. */
  function Strip(nodes: seq<Node>): seq<Element> {
    if |nodes| == 0 then []
    else Strip(nodes[..|nodes| - 1])
         + (match nodes[|nodes| - 1] case Elem(e) => [e] case PageBreak => [])
  }

  /** Every closed page (from its start up to and including the element its
      marker follows) reaches the page size at that element. */
  predicate PagesReach(es: seq<Element>, breaks: seq<nat>) {
    forall j {:trigger Start(breaks, j)} :: 0 <= j < |breaks| ==>
      Start(breaks, j) <= breaks[j] < |es| && Through(es, Start(breaks, j), breaks[j]) >= PageSize
  }

  /** No closed page reaches the page size before the element its marker follows. */
  predicate PagesMinimal(es: seq<Element>, breaks: seq<nat>) {
    forall j, k {:trigger Through(es, Start(breaks, j), k)} ::
      0 <= j < |breaks| && Start(breaks, j) <= k < breaks[j] && breaks[j] < |es| ==>
      Through(es, Start(breaks, j), k) < PageSize
  }

  /** Each marker position lies before the last element, and every closed page
      reaches the page size exactly at the element its marker follows (so the
      positions increase, see `BreaksIncrease`). */
  predicate ClosedPages(es: seq<Element>, breaks: seq<nat>) {
    && (forall j :: 0 <= j < |breaks| ==> breaks[j] + 1 < |es|)
    && PagesReach(es, breaks)
    && PagesMinimal(es, breaks)
  }

  /** The open page, from after the last marker up to element `i` (excluded),
      has not reached the page size at any element but the final one. */
  predicate OpenPage(es: seq<Element>, breaks: seq<nat>, i: nat) {
    && i <= |es|
    && Start(breaks, |breaks|) <= i
    && forall k :: Start(breaks, |breaks|) <= k < i && k < |es| - 1 ==>
         Through(es, Start(breaks, |breaks|), k) < PageSize
  }

  /** `nodes` is the first `i` elements with a marker right after each break
      position, and the last node is the last element unless a marker follows it. */
  predicate Laid(es: seq<Element>, breaks: seq<nat>, i: nat, nodes: seq<Node>) {
    && i <= |es|
    && |nodes| == i + |breaks|
    && Strip(nodes) == es[..i]
    && (forall j :: 0 <= j < |breaks| ==> breaks[j] < i)
    && (forall j :: 0 <= j < |breaks| ==>
          nodes[breaks[j] + j] == Elem(es[breaks[j]]) && nodes[breaks[j] + j + 1] == PageBreak)
    && (i > 0 ==> nodes[|nodes| - 1] == Elem(es[i - 1]) || (|breaks| > 0 && breaks[|breaks| - 1] == i - 1))
  }

  /** The loop invariant: the pages closed so far, the open page, the nodes laid
      out for the first `i` elements, and the running total `len` of the open
      page. */
  predicate Walk(es: seq<Element>, breaks: seq<nat>, i: nat, nodes: seq<Node>, len: nat) {
    && ClosedPages(es, breaks)
    && OpenPage(es, breaks, i)
    && Laid(es, breaks, i, nodes)
    && len == Sum(es, Start(breaks, |breaks|), i)
  }

  /** The walk of `processContent` (lines 85-99), over the top-level children of
      the content. It returns the new child list and, for each inserted marker,
      the index of the element it follows:
      - deleting the markers gives back the elements, in order;
      - no marker follows the last element, so there are at most n-1 of them;
      - every page closed by a marker reaches the page size at the element the
        marker follows and at no earlier element of that page;
      - the final page reaches it at no element but possibly the last. */
  method Paginate(elements: seq<Element>) returns (nodes: seq<Node>, breaks: seq<nat>)
    ensures Strip(nodes) == elements
    ensures |nodes| == |elements| + |breaks|
    ensures |elements| == 0 ==> breaks == []
    ensures |elements| > 0 ==> |breaks| <= |elements| - 1
    ensures ClosedPages(elements, breaks)
    ensures OpenPage(elements, breaks, |elements|)
    ensures forall j :: 0 <= j < |breaks| ==>
              nodes[breaks[j] + j] == Elem(elements[breaks[j]]) && nodes[breaks[j] + j + 1] == PageBreak
    ensures |elements| > 0 ==> nodes[|nodes| - 1] == Elem(elements[|elements| - 1])
  {
    nodes := [];
    breaks := [];
    var currentLength: nat := 0;
    var i := 0;
    while i < |elements|
      invariant Walk(elements, breaks, i, nodes, currentLength)
    {
      var element := elements[i];
      ghost var before := currentLength;
      currentLength := currentLength + |element.textContent|;
      if currentLength >= PageSize && i < |elements| - 1 {
        BreakStep(elements, breaks, i, nodes, before);
        nodes := nodes + [Elem(element), PageBreak];
        breaks := breaks + [i];
        currentLength := 0;
      } else {
        PlainStep(elements, breaks, i, nodes, before);
        nodes := nodes + [Elem(element)];
      }
      i := i + 1;
    }
    Finish(elements, breaks, nodes);
  }

  /** Marker positions strictly increase, and the `j`-th is at least `j`. */
  lemma {:induction false} BreaksIncrease(es: seq<Element>, breaks: seq<nat>, j: nat, k: nat)
    requires PagesReach(es, breaks)
    requires j <= k < |breaks|
    ensures breaks[k] >= k
    ensures j < k ==> breaks[j] < breaks[k]
    decreases k
  {
    assert Start(breaks, k) <= breaks[k];
    if k > 0 {
      BreaksIncrease(es, breaks, if j < k then j else k - 1, k - 1);
    }
  }

  /** What the invariants give once every element has been visited. */
  lemma Finish(es: seq<Element>, breaks: seq<nat>, nodes: seq<Node>)
    requires ClosedPages(es, breaks) && Laid(es, breaks, |es|, nodes)
    ensures Strip(nodes) == es
    ensures |es| == 0 ==> breaks == []
    ensures |es| > 0 ==> |breaks| <= |es| - 1
    ensures |es| > 0 ==> nodes[|nodes| - 1] == Elem(es[|es| - 1])
  {
    assert es[..|es|] == es;
    if |breaks| > 0 {
      BreaksIncrease(es, breaks, |breaks| - 1, |breaks| - 1);
    }
  }

  lemma StripSnoc(nodes: seq<Node>, n: Node)
    ensures Strip(nodes + [n]) == Strip(nodes) + (match n case Elem(e) => [e] case PageBreak => [])
  {
    assert (nodes + [n])[..|nodes|] == nodes;
  }

  /** One iteration that adds element `i` without a marker keeps the invariant. */
  lemma PlainStep(es: seq<Element>, breaks: seq<nat>, i: nat, nodes: seq<Node>, len: nat)
    requires i < |es| && Walk(es, breaks, i, nodes, len)
    requires !(len + |es[i].textContent| >= PageSize && i < |es| - 1)
    ensures Walk(es, breaks, i + 1, nodes + [Elem(es[i])], len + |es[i].textContent|)
  {
    StripSnoc(nodes, Elem(es[i]));
    assert es[..i + 1] == es[..i] + [es[i]];
  }

  /** One iteration that adds element `i` and a marker after it keeps the
      invariant, the marker closing the open page and the total restarting
      from 0. */
  lemma BreakStep(es: seq<Element>, breaks: seq<nat>, i: nat, nodes: seq<Node>, len: nat)
    requires i < |es| - 1 && Walk(es, breaks, i, nodes, len)
    requires len + |es[i].textContent| >= PageSize
    ensures Walk(es, breaks + [i], i + 1, nodes + [Elem(es[i]), PageBreak], 0)
  {
    assert Through(es, Start(breaks, |breaks|), i) == len + |es[i].textContent|;
    BreakCloses(es, breaks, i);
    BreakLays(es, breaks, i, nodes);
    assert Start(breaks + [i], |breaks| + 1) == i + 1;
  }

  lemma BreakCloses(es: seq<Element>, breaks: seq<nat>, i: nat)
    requires i < |es| - 1
    requires ClosedPages(es, breaks) && OpenPage(es, breaks, i)
    requires forall j :: 0 <= j < |breaks| ==> breaks[j] < i
    requires Through(es, Start(breaks, |breaks|), i) >= PageSize
    ensures ClosedPages(es, breaks + [i])
  {
    var b := breaks + [i];
    assert forall j :: 0 <= j < |breaks| ==> b[j] == breaks[j];
    BreakReaches(es, breaks, i);
    BreakMinimal(es, breaks, i);
  }

  lemma BreakReaches(es: seq<Element>, breaks: seq<nat>, i: nat)
    requires i < |es|
    requires PagesReach(es, breaks) && Start(breaks, |breaks|) <= i
    requires Through(es, Start(breaks, |breaks|), i) >= PageSize
    ensures PagesReach(es, breaks + [i])
  {
    var b := breaks + [i];
    forall j | 0 <= j < |b|
      ensures Start(b, j) <= b[j] < |es| && Through(es, Start(b, j), b[j]) >= PageSize
    {
      if j < |breaks| {
        assert b[j] == breaks[j] && Start(b, j) == Start(breaks, j);
      } else {
        assert Start(b, j) == Start(breaks, j);
      }
    }
  }

  lemma BreakMinimal(es: seq<Element>, breaks: seq<nat>, i: nat)
    requires i < |es| - 1
    requires PagesMinimal(es, breaks) && OpenPage(es, breaks, i)
    ensures PagesMinimal(es, breaks + [i])
  {
    var b := breaks + [i];
    forall j, k | 0 <= j < |b| && Start(b, j) <= k < b[j] && b[j] < |es|
      ensures Through(es, Start(b, j), k) < PageSize
    {
      if j < |breaks| {
        assert b[j] == breaks[j] && Start(b, j) == Start(breaks, j);
      } else {
        assert Start(b, j) == Start(breaks, j) && b[j] == i;
      }
    }
  }

  lemma BreakLays(es: seq<Element>, breaks: seq<nat>, i: nat, nodes: seq<Node>)
    requires i < |es| - 1
    requires Laid(es, breaks, i, nodes)
    ensures Laid(es, breaks + [i], i + 1, nodes + [Elem(es[i]), PageBreak])
  {
    var n := nodes + [Elem(es[i]), PageBreak];
    StripSnoc(nodes, Elem(es[i]));
    StripSnoc(nodes + [Elem(es[i])], PageBreak);
    assert nodes + [Elem(es[i])] + [PageBreak] == n;
    assert es[..i + 1] == es[..i] + [es[i]];
    BreakKeepsMarks(es, breaks, i, nodes);
  }

  /** Appending an element and a marker keeps the earlier markers in place. */
  lemma BreakKeepsMarks(es: seq<Element>, breaks: seq<nat>, i: nat, nodes: seq<Node>)
    requires i < |es| - 1
    requires Laid(es, breaks, i, nodes)
    ensures var b := breaks + [i];
      var n := nodes + [Elem(es[i]), PageBreak];
      forall j :: 0 <= j < |b| ==> n[b[j] + j] == Elem(es[b[j]]) && n[b[j] + j + 1] == PageBreak
  {
    var b := breaks + [i];
    var n := nodes + [Elem(es[i]), PageBreak];
    forall j | 0 <= j < |b|
      ensures n[b[j] + j] == Elem(es[b[j]]) && n[b[j] + j + 1] == PageBreak
    {
      if j < |breaks| {
        assert b[j] == breaks[j];
        assert n[breaks[j] + j] == nodes[breaks[j] + j];
        assert n[breaks[j] + j + 1] == nodes[breaks[j] + j + 1];
      } else {
        assert b[j] + j == |nodes|;
      }
    }
  }
}
