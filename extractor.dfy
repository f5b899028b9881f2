/**
 * The loops of scrape_url that fill the page record: headings searched level
 * by level, paragraphs, and links together with the child URLs. Each method
 * is proved to compute the corresponding function of the Page module, whose
 * meaning the lemmas there state.
 */
module Extractor {
  import opened Wrappers
  import opened Page

  /** The heading loops: for each level 1..6, every h{level} tag in document order. */
  method CollectHeadings(elems: seq<Element>) returns (headings: seq<Heading>)
    ensures headings == Headings(elems)
  {
    headings := [];
    for level := 1 to 7
      invariant headings == HeadingsUpTo(elems, level - 1)
    {
      ghost var before := headings;
      for j := 0 to |elems|
        invariant headings == before + HeadingsOfLevel(elems[..j], level)
      {
        assert elems[..j + 1][..j] == elems[..j];
        if elems[j].HeadingTag? && elems[j].level == level {
          headings := headings + [Heading(level, elems[j].text)];
        }
      }
      assert elems[..|elems|] == elems;
    }
  }

  /** The paragraph loop: the text of every <p> tag, skipping empty ones. */
  method CollectParagraphs(elems: seq<Element>) returns (paragraphs: seq<string>)
    ensures paragraphs == Paragraphs(elems)
  {
    paragraphs := [];
    for j := 0 to |elems|
      invariant paragraphs == Paragraphs(elems[..j])
    {
      assert elems[..j + 1][..j] == elems[..j];
      var e := elems[j];
      if e.ParagraphTag? && e.text != "" {
        paragraphs := paragraphs + [e.text];
      }
    }
    assert elems[..|elems|] == elems;
  }

  /**
   * The link loop: every <a> tag with an href becomes a link, and its
   * resolved URL is also a child when it passes the child test against the
   * visited set as it stands during extraction.
   */
  method CollectLinks(net: Net, url: string, elems: seq<Element>, visited: set<string>)
    returns (links: seq<Link>, childUrls: seq<string>)
    ensures links == Links(net, url, elems)
    ensures childUrls == ChildUrls(net, url, elems, visited)
  {
    links, childUrls := [], [];
    for j := 0 to |elems|
      invariant links == Links(net, url, elems[..j])
      invariant childUrls == ChildUrls(net, url, elems[..j], visited)
    {
      assert elems[..j + 1][..j] == elems[..j];
      var e := elems[j];
      if e.AnchorTag? && e.href.Some? {
        var linkText := e.text;
        var linkUrl := net.urljoin(url, e.href.value);
        links := links + [Link(if linkText != "" then linkText else "Link", linkUrl)];
        var scheme := net.scheme(linkUrl);
        if (scheme == "http" || scheme == "https")
          && net.netloc(url) == net.netloc(linkUrl)
          && linkUrl !in visited
        {
          childUrls := childUrls + [linkUrl];
        }
      }
    }
    assert elems[..|elems|] == elems;
  }
}
