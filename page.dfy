/**
 * The content extractor of the crawler: what one fetched page becomes.
 *
 * A page is given as the sequence of elements the HTML parser reports, in
 * document order; each element's text is already what the parser's stripping
 * text extraction returns. The fetch itself, URL reference resolution
 * (section 5.2 of RFC 3986) and URL splitting are collaborators, supplied as
 * the functions of a `Net` value. The functions here state what the page
 * record holds; extractor.dfy computes it with the source's loops.
 */
module Page {
  import opened Wrappers

  /** One element of a parsed HTML document. */
  datatype Element =
    | HeadingTag(level: nat, text: string)          // an <h{level}> tag
    | ParagraphTag(text: string)                    // a <p> tag
    | AnchorTag(text: string, href: Option<string>) // an <a> tag, with its href attribute if it has one
    | OtherTag

  /** The page's <title> tag: absent, or present with its single string child (None when it has several children). */
  datatype TitleTag = NoTitleTag | TitleTag(str: Option<string>)

  datatype ParsedPage = ParsedPage(title: TitleTag, elements: seq<Element>)

  /** The outcome of one HTTP GET: an error (transport failure, timeout, non-2xx status) with its message, or the parsed page. */
  datatype Response = FetchError(reason: string) | Fetched(page: ParsedPage)

  /** What the crawler calls but does not implement: the HTTP fetch, urljoin, and the scheme and netloc parts of urlparse. */
  datatype Net = Net(
    fetch: string -> Response,
    urljoin: (string, string) -> string,
    scheme: string -> string,
    netloc: string -> string)

  datatype Heading = Heading(level: nat, text: string)

  datatype Link = Link(text: string, url: string)

  /** The record built for one visited URL: its content, or only the fetch error. */
  datatype PageRecord =
    | Scraped(url: string, title: Option<string>, headings: seq<Heading>,
              paragraphs: seq<string>, links: seq<Link>, childUrls: seq<string>)
    | Failed(url: string, error: string)

  // ---------------------------------------------------------------- title

  function Title(t: TitleTag): Option<string>
  {
    match t
    case NoTitleTag => Some("No title")
    case TitleTag(s) => s
  }

  // ---------------------------------------------------------------- headings

  /** The heading that element e contributes when tags h{level} are searched for. */
  function HeadingOf(e: Element, level: nat): seq<Heading>
  {
    if e.HeadingTag? && e.level == level then [Heading(level, e.text)] else []
  }

  /** All h{level} headings, in document order. */
  function HeadingsOfLevel(elems: seq<Element>, level: nat): seq<Heading>
  {
    if elems == [] then []
    else HeadingsOfLevel(elems[..|elems| - 1], level) + HeadingOf(elems[|elems| - 1], level)
  }

  /** The h1 headings, then the h2 headings, ..., up to the h{level} headings. */
  function HeadingsUpTo(elems: seq<Element>, level: nat): seq<Heading>
  {
    if level == 0 then [] else HeadingsUpTo(elems, level - 1) + HeadingsOfLevel(elems, level)
  }

  /** The record's headings: levels 1 to 6, searched one level after the other. */
  function Headings(elems: seq<Element>): seq<Heading>
  {
    HeadingsUpTo(elems, 6)
  }

  /** Reference order: every h1..h6 heading of the page, in document order. */
  function DocumentHeadings(elems: seq<Element>): seq<Heading>
  {
    if elems == [] then []
    else
      var e := elems[|elems| - 1];
      DocumentHeadings(elems[..|elems| - 1])
        + (if e.HeadingTag? && 1 <= e.level <= 6 then [Heading(e.level, e.text)] else [])
  }

  /** The headings of one level, in the order they occur in hs. */
  function OfLevel(hs: seq<Heading>, level: nat): seq<Heading>
  {
    if hs == [] then []
    else OfLevel(hs[..|hs| - 1], level) + (if hs[|hs| - 1].level == level then [hs[|hs| - 1]] else [])
  }

  /** The headings whose level is between 1 and top, in the order they occur in hs. */
  function UpToLevel(hs: seq<Heading>, top: nat): seq<Heading>
  {
    if hs == [] then []
    else UpToLevel(hs[..|hs| - 1], top) + (if 1 <= hs[|hs| - 1].level <= top then [hs[|hs| - 1]] else [])
  }

  lemma {:induction false} OfLevelAppend(a: seq<Heading>, b: seq<Heading>, level: nat)
    ensures OfLevel(a + b, level) == OfLevel(a, level) + OfLevel(b, level)
  {
    if b != [] {
      assert (a + b)[..|a + b| - 1] == a + b[..|b| - 1];
      OfLevelAppend(a, b[..|b| - 1], level);
    } else {
      assert a + b == a;
    }
  }

  lemma {:induction false} UpToLevelSplit(hs: seq<Heading>, top: nat)
    requires top >= 1
    ensures multiset(UpToLevel(hs, top)) == multiset(UpToLevel(hs, top - 1)) + multiset(OfLevel(hs, top))
  {
    if hs != [] {
      UpToLevelSplit(hs[..|hs| - 1], top);
    }
  }

  /** Every heading found by searching h{level} has that level. */
  lemma {:induction false} HeadingsOfLevelHaveLevel(elems: seq<Element>, level: nat)
    ensures forall h :: h in HeadingsOfLevel(elems, level) ==> h.level == level
    ensures OfLevel(HeadingsOfLevel(elems, level), level) == HeadingsOfLevel(elems, level)
  {
    if elems != [] {
      var init := elems[..|elems| - 1];
      HeadingsOfLevelHaveLevel(init, level);
      OfLevelAppend(HeadingsOfLevel(init, level), HeadingOf(elems[|elems| - 1], level), level);
    }
  }

  /** A search for one level finds nothing of another level. */
  lemma {:induction false} OfOtherLevel(elems: seq<Element>, level: nat, other: nat)
    requires other != level
    ensures OfLevel(HeadingsOfLevel(elems, level), other) == []
  {
    if elems != [] {
      var init := elems[..|elems| - 1];
      OfOtherLevel(init, level, other);
      OfLevelAppend(HeadingsOfLevel(init, level), HeadingOf(elems[|elems| - 1], level), other);
    }
  }

  /** Searching h{level} keeps exactly the page's level-`level` headings, in document order. */
  lemma {:induction false} HeadingsOfLevelInDocumentOrder(elems: seq<Element>, level: nat)
    requires 1 <= level <= 6
    ensures HeadingsOfLevel(elems, level) == OfLevel(DocumentHeadings(elems), level)
  {
    if elems != [] {
      var init, e := elems[..|elems| - 1], elems[|elems| - 1];
      HeadingsOfLevelInDocumentOrder(init, level);
      OfLevelAppend(DocumentHeadings(init),
                    if e.HeadingTag? && 1 <= e.level <= 6 then [Heading(e.level, e.text)] else [], level);
    }
  }

  /** The headings of levels up to top, searched level by level, hold level `level` headings exactly when level <= top. */
  lemma {:induction false} OfLevelUpTo(elems: seq<Element>, top: nat, level: nat)
    requires 1 <= level <= 6
    ensures OfLevel(HeadingsUpTo(elems, top), level)
         == if level <= top then OfLevel(DocumentHeadings(elems), level) else []
  {
    if top > 0 {
      var a, b := HeadingsUpTo(elems, top - 1), HeadingsOfLevel(elems, top);
      OfLevelUpTo(elems, top - 1, level);
      OfLevelAppend(a, b, level);
      if level == top {
        HeadingsOfLevelInDocumentOrder(elems, level);
        HeadingsOfLevelHaveLevel(elems, level);
        assert OfLevel(a, level) == [];
        assert OfLevel(b, level) == OfLevel(DocumentHeadings(elems), level);
      } else {
        OfOtherLevel(elems, top, level);
        assert OfLevel(b, level) == [];
      }
    }
  }

  /** Within each level 1..6, the record lists the headings in document order. */
  lemma HeadingsKeepDocumentOrderWithinLevel(elems: seq<Element>, level: nat)
    requires 1 <= level <= 6
    ensures OfLevel(Headings(elems), level) == OfLevel(DocumentHeadings(elems), level)
  {
    OfLevelUpTo(elems, 6, level);
  }

  /** The headings searched up to level top are, as a collection, the page's headings of levels 1..top. */
  lemma {:induction false} HeadingsUpToPermutation(elems: seq<Element>, top: nat)
    requires top <= 6
    ensures multiset(HeadingsUpTo(elems, top)) == multiset(UpToLevel(DocumentHeadings(elems), top))
  {
    if top == 0 {
      UpToLevelNone(DocumentHeadings(elems));
    } else {
      HeadingsUpToPermutation(elems, top - 1);
      UpToLevelSplit(DocumentHeadings(elems), top);
      HeadingsOfLevelInDocumentOrder(elems, top);
    }
  }

  lemma {:induction false} UpToLevelNone(hs: seq<Heading>)
    ensures UpToLevel(hs, 0) == []
  {
    if hs != [] {
      UpToLevelNone(hs[..|hs| - 1]);
    }
  }

  /** Document headings all have a level in 1..6, so filtering them by that range keeps them all. */
  lemma {:induction false} DocumentHeadingsInRange(elems: seq<Element>)
    ensures forall h :: h in DocumentHeadings(elems) ==> 1 <= h.level <= 6
    ensures UpToLevel(DocumentHeadings(elems), 6) == DocumentHeadings(elems)
  {
    if elems != [] {
      var init := elems[..|elems| - 1];
      DocumentHeadingsInRange(init);
      var hs := DocumentHeadings(elems);
      if hs != [] {
        if hs[..|hs| - 1] == DocumentHeadings(init) {
        } else {
          assert hs == DocumentHeadings(init);
          DocumentHeadingsInRange(init);
        }
      }
    }
  }

  /** The record's headings are the page's h1..h6 headings, each once: a permutation of document order. */
  lemma HeadingsArePermutation(elems: seq<Element>)
    ensures multiset(Headings(elems)) == multiset(DocumentHeadings(elems))
  {
    HeadingsUpToPermutation(elems, 6);
    DocumentHeadingsInRange(elems);
  }

  /** Headings of levels 1..top-1 in level order, followed by headings of level top, are in level order. */
  lemma ConcatByLevel(a: seq<Heading>, b: seq<Heading>, top: nat)
    requires top >= 1
    requires forall h :: h in a ==> 1 <= h.level < top
    requires forall i, j :: 0 <= i < j < |a| ==> a[i].level <= a[j].level
    requires forall h :: h in b ==> h.level == top
    ensures forall h :: h in a + b ==> 1 <= h.level <= top
    ensures forall i, j :: 0 <= i < j < |a + b| ==> (a + b)[i].level <= (a + b)[j].level
  {
    forall h | h in a + b
      ensures 1 <= h.level <= top
    {
      assert h in a || h in b;
    }
    forall i, j | 0 <= i < j < |a + b|
      ensures (a + b)[i].level <= (a + b)[j].level
    {
      if j < |a| {
        assert (a + b)[i] == a[i] && (a + b)[j] == a[j];
      } else if i < |a| {
        assert (a + b)[i] == a[i] && a[i] in a && (a + b)[j] == b[j - |a|] && b[j - |a|] in b;
      } else {
        assert (a + b)[i] == b[i - |a|] && b[i - |a|] in b && (a + b)[j] == b[j - |a|] && b[j - |a|] in b;
      }
    }
  }

  /** The record's headings have levels in 1..6 and are ordered by level ascending. */
  lemma {:induction false} HeadingsUpToSorted(elems: seq<Element>, top: nat)
    ensures forall h :: h in HeadingsUpTo(elems, top) ==> 1 <= h.level <= top
    ensures forall i, j :: 0 <= i < j < |HeadingsUpTo(elems, top)| ==>
              HeadingsUpTo(elems, top)[i].level <= HeadingsUpTo(elems, top)[j].level
  {
    if top > 0 {
      HeadingsUpToSorted(elems, top - 1);
      HeadingsOfLevelHaveLevel(elems, top);
      ConcatByLevel(HeadingsUpTo(elems, top - 1), HeadingsOfLevel(elems, top), top);
    }
  }

  lemma HeadingsSortedByLevel(elems: seq<Element>)
    ensures forall h :: h in Headings(elems) ==> 1 <= h.level <= 6
    ensures forall i, j :: 0 <= i < j < |Headings(elems)| ==> Headings(elems)[i].level <= Headings(elems)[j].level
  {
    HeadingsUpToSorted(elems, 6);
  }

  // ---------------------------------------------------------------- paragraphs

  /** The texts of the page's <p> tags that are non-empty, in document order. */
  function Paragraphs(elems: seq<Element>): seq<string>
  {
    if elems == [] then []
    else
      var e := elems[|elems| - 1];
      Paragraphs(elems[..|elems| - 1]) + (if e.ParagraphTag? && e.text != "" then [e.text] else [])
  }

  /** The positions of the <p> elements the recorded paragraphs come from. */
  function ParagraphSources(elems: seq<Element>): seq<nat>
  {
    if elems == [] then []
    else
      var n := |elems| - 1;
      ParagraphSources(elems[..n]) + (if elems[n].ParagraphTag? && elems[n].text != "" then [n] else [])
  }

  /**
   * Paragraph j is the text of the <p> element at position ParagraphSources(elems)[j],
   * the positions increase (so paragraphs keep document order), and every <p>
   * element with a non-empty text is among them.
   */
  lemma {:induction false} ParagraphSourcesMatch(elems: seq<Element>)
    ensures |ParagraphSources(elems)| == |Paragraphs(elems)|
    ensures forall j :: 0 <= j < |ParagraphSources(elems)| ==>
              var i := ParagraphSources(elems)[j];
              i < |elems| && elems[i].ParagraphTag? && elems[i].text == Paragraphs(elems)[j]
    ensures forall j, j' :: 0 <= j < j' < |ParagraphSources(elems)| ==>
              ParagraphSources(elems)[j] < ParagraphSources(elems)[j']
    ensures forall i :: 0 <= i < |elems| && elems[i].ParagraphTag? && elems[i].text != "" ==>
              i in ParagraphSources(elems)
  {
    if elems != [] {
      var n := |elems| - 1;
      var init := elems[..n];
      ParagraphSourcesMatch(init);
      var ix0, ps0 := ParagraphSources(init), Paragraphs(init);
      var keep := elems[n].ParagraphTag? && elems[n].text != "";
      var ix := ix0 + (if keep then [n] else []);
      var ps := ps0 + (if keep then [elems[n].text] else []);
      assert ParagraphSources(elems) == ix && Paragraphs(elems) == ps;
      forall j | 0 <= j < |ix|
        ensures ix[j] < |elems| && elems[ix[j]].ParagraphTag? && elems[ix[j]].text == ps[j]
      {
        if j < |ix0| {
          assert ix[j] == ix0[j] && ps[j] == ps0[j] && elems[ix0[j]] == init[ix0[j]];
        }
      }
      forall j, j' | 0 <= j < j' < |ix|
        ensures ix[j] < ix[j']
      {
        assert ix[j] == ix0[j] < n;
        if j' < |ix0| {
          assert ix[j'] == ix0[j'];
        }
      }
      forall i | 0 <= i < |elems| && elems[i].ParagraphTag? && elems[i].text != ""
        ensures i in ix
      {
        if i < n {
          assert init[i] == elems[i] && i in ix0;
        } else {
          assert ix[|ix0|] == n;
        }
      }
    }
  }

  /**
   * No recorded paragraph is empty, every recorded paragraph is the text of a
   * <p> element, and every non-empty paragraph of the page is recorded.
   */
  lemma {:induction false} ParagraphsNonEmptyAndComplete(elems: seq<Element>)
    ensures forall p :: p in Paragraphs(elems) ==> p != ""
    ensures forall j :: 0 <= j < |Paragraphs(elems)| ==>
              exists i :: 0 <= i < |elems| && elems[i].ParagraphTag? && elems[i].text == Paragraphs(elems)[j]
    ensures forall i :: 0 <= i < |elems| && elems[i].ParagraphTag? && elems[i].text != "" ==>
              elems[i].text in Paragraphs(elems)
    ensures |Paragraphs(elems)| <= |elems|
  {
    if elems != [] {
      var init := elems[..|elems| - 1];
      ParagraphsNonEmptyAndComplete(init);
      forall i | 0 <= i < |elems| && elems[i].ParagraphTag? && elems[i].text != ""
        ensures elems[i].text in Paragraphs(elems)
      {
        if i < |elems| - 1 {
          assert elems[i] == init[i];
        }
      }
    }
    ParagraphSourcesMatch(elems);
    var ix := ParagraphSources(elems);
    forall j | 0 <= j < |Paragraphs(elems)|
      ensures exists i :: 0 <= i < |elems| && elems[i].ParagraphTag? && elems[i].text == Paragraphs(elems)[j]
    {
      assert elems[ix[j]].text == Paragraphs(elems)[j];
    }
  }

  // ---------------------------------------------------------------- links

  /** The text a link is recorded with: its own, or "Link" when it has none. */
  function LinkText(text: string): string
  {
    if text == "" then "Link" else text
  }

  /** The (text, href) of every <a> tag that has an href, in document order. */
  function Anchors(elems: seq<Element>): seq<(string, string)>
  {
    if elems == [] then []
    else
      var e := elems[|elems| - 1];
      Anchors(elems[..|elems| - 1]) + (if e.AnchorTag? && e.href.Some? then [(e.text, e.href.value)] else [])
  }

  /** The link an anchor contributes: its text with the fallback, and its href resolved against the page URL. */
  function LinkOf(net: Net, url: string, e: Element): seq<Link>
  {
    if e.AnchorTag? && e.href.Some? then [Link(LinkText(e.text), net.urljoin(url, e.href.value))] else []
  }

  function Links(net: Net, url: string, elems: seq<Element>): seq<Link>
  {
    if elems == [] then []
    else Links(net, url, elems[..|elems| - 1]) + LinkOf(net, url, elems[|elems| - 1])
  }

  /** Every anchor with an href yields exactly one link, in order, with a non-empty text. */
  lemma {:induction false} LinksOnePerAnchor(net: Net, url: string, elems: seq<Element>)
    ensures |Links(net, url, elems)| == |Anchors(elems)|
    ensures forall k :: 0 <= k < |Anchors(elems)| ==>
              Links(net, url, elems)[k] == Link(LinkText(Anchors(elems)[k].0), net.urljoin(url, Anchors(elems)[k].1))
    ensures forall l :: l in Links(net, url, elems) ==> l.text != ""
  {
    if elems != [] {
      LinksOnePerAnchor(net, url, elems[..|elems| - 1]);
    }
  }

  // ---------------------------------------------------------------- child URLs

  /** _same_domain: the two URLs have the same network location. */
  predicate SameDomain(net: Net, url1: string, url2: string)
  {
    net.netloc(url1) == net.netloc(url2)
  }

  /** The URL's scheme is http or https. */
  predicate IsHttp(net: Net, url: string)
  {
    net.scheme(url) == "http" || net.scheme(url) == "https"
  }

  /** A resolved link is proposed as a child of the page at url when it is http(s), on the same domain, and not yet visited. */
  predicate IsChild(net: Net, url: string, linkUrl: string, visited: set<string>)
  {
    && IsHttp(net, linkUrl)
    && SameDomain(net, url, linkUrl)
    && linkUrl !in visited
  }

  function ChildOf(net: Net, url: string, e: Element, visited: set<string>): seq<string>
  {
    if e.AnchorTag? && e.href.Some? && IsChild(net, url, net.urljoin(url, e.href.value), visited)
    then [net.urljoin(url, e.href.value)]
    else []
  }

  function ChildUrls(net: Net, url: string, elems: seq<Element>, visited: set<string>): seq<string>
  {
    if elems == [] then []
    else ChildUrls(net, url, elems[..|elems| - 1], visited) + ChildOf(net, url, elems[|elems| - 1], visited)
  }

  /** The child URLs are exactly the page's link URLs that pass the child test. */
  lemma {:induction false} ChildUrlsExact(net: Net, url: string, elems: seq<Element>, visited: set<string>)
    ensures forall c :: c in ChildUrls(net, url, elems, visited) <==>
              IsChild(net, url, c, visited) && exists l :: l in Links(net, url, elems) && l.url == c
  {
    if elems != [] {
      var init, e := elems[..|elems| - 1], elems[|elems| - 1];
      ChildUrlsExact(net, url, init, visited);
      assert Links(net, url, elems) == Links(net, url, init) + LinkOf(net, url, e);
      forall c | IsChild(net, url, c, visited) && exists l :: l in Links(net, url, elems) && l.url == c
        ensures c in ChildUrls(net, url, elems, visited)
      {
        var l :| l in Links(net, url, elems) && l.url == c;
        if l !in Links(net, url, init) {
          assert l in LinkOf(net, url, e);
        }
      }
    }
  }

  /** A page whose URL is already visited never lists itself as a child. */
  lemma NotOwnChild(net: Net, url: string, elems: seq<Element>, visited: set<string>)
    requires url in visited
    ensures url !in ChildUrls(net, url, elems, visited)
  {
    ChildUrlsExact(net, url, elems, visited);
  }

  // ---------------------------------------------------------------- the record

  /** The record for url, fetched once, with child URLs filtered against `visited` (which already holds url). */
  function Scrape(net: Net, url: string, visited: set<string>): (r: PageRecord)
    ensures r.url == url
    ensures r.Failed? <==> net.fetch(url).FetchError?
    ensures r.Failed? ==> r.error == net.fetch(url).reason
    ensures r.Scraped? ==> forall c :: c in r.childUrls ==> IsChild(net, url, c, visited)
  {
    match net.fetch(url)
    case FetchError(reason) => Failed(url, reason)
    case Fetched(page) =>
      ChildUrlsExact(net, url, page.elements, visited);
      Scraped(url, Title(page.title), Headings(page.elements), Paragraphs(page.elements),
              Links(net, url, page.elements), ChildUrls(net, url, page.elements, visited))
  }
}
