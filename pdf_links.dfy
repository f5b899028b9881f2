/**
 * The links section of create_pdf in scrapper.py: the page's links are
 * grouped by their text into a dictionary that keeps, for each text, the
 * shortest URL seen (the first one among equally short ones), and at most
 * the first 30 entries of that dictionary, in insertion order, become
 * bullet lines of the document.
 */
module PdfLinks {
  import opened Page
  import opened PdfText

  /**
   * The dictionary unique_links: `keys` lists its keys in insertion order
   * (the order dict.items() yields them), `urls` maps each key to its URL.
   */
  datatype LinkTable = LinkTable(keys: seq<string>, urls: map<string, string>)

  /** What a dictionary always is: every key listed once, the list and the map agreeing. */
  ghost predicate WellFormed(t: LinkTable)
  {
    && (forall i, j :: 0 <= i < j < |t.keys| ==> t.keys[i] != t.keys[j])
    && (forall k :: k in t.keys <==> k in t.urls)
  }

  /** `link["text"] or "Link"`: the dictionary key of a link. */
  function Key(l: Link): string
  {
    if l.text != "" then l.text else "Link"
  }

  /** One step of the grouping loop: a new text is added, a known one keeps the shorter URL. */
  function Insert(t: LinkTable, l: Link): LinkTable
  {
    var key := Key(l);
    if key !in t.urls then LinkTable(t.keys + [key], t.urls[key := l.url])
    else if |l.url| < |t.urls[key]| then LinkTable(t.keys, t.urls[key := l.url])
    else t
  }

  /** The dictionary after the grouping loop has seen `links`. */
  function Dedupe(links: seq<Link>): (t: LinkTable)
    ensures forall k :: k in t.keys ==> k in t.urls
    decreases |links|
  {
    if links == [] then LinkTable([], map[])
    else Insert(Dedupe(links[..|links| - 1]), links[|links| - 1])
  }

  /** The position of the first link whose key is k, or |links| when there is none. */
  function FirstAt(links: seq<Link>, k: string): (i: nat)
    ensures i <= |links|
    ensures i < |links| ==> Key(links[i]) == k
    ensures forall j :: 0 <= j < i ==> Key(links[j]) != k
  {
    if links == [] then 0
    else if Key(links[0]) == k then 0
    else 1 + FirstAt(links[1..], k)
  }

  /**
   * links[i] is the link whose URL the dictionary keeps for key k: its URL
   * is as short as any other URL under k, and strictly shorter than every
   * one before it under k.
   */
  predicate Kept(links: seq<Link>, k: string, i: int)
  {
    && 0 <= i < |links| && Key(links[i]) == k
    && (forall j :: 0 <= j < |links| && Key(links[j]) == k ==> |links[i].url| <= |links[j].url|)
    && (forall j :: 0 <= j < i && Key(links[j]) == k ==> |links[i].url| < |links[j].url|)
  }

  // ------------------------------------------------------------ the grouping loop

  /** The loop `for link in data["links"]` that fills unique_links. */
  method GroupLinks(links: seq<Link>) returns (t: LinkTable)
    ensures t == Dedupe(links)
    ensures WellFormed(t)
  {
    var keys: seq<string> := [];
    var urls: map<string, string> := map[];
    for n := 0 to |links|
      invariant LinkTable(keys, urls) == Dedupe(links[..n])
    {
      assert links[..n + 1][..n] == links[..n];
      var linkText := if links[n].text != "" then links[n].text else "Link";
      var linkUrl := links[n].url;
      if linkText !in urls || |linkUrl| < |urls[linkText]| {
        if linkText !in urls {
          keys := keys + [linkText];
        }
        urls := urls[linkText := linkUrl];
      }
    }
    assert links[..|links|] == links;
    t := LinkTable(keys, urls);
    DedupeWellFormed(links);
  }

  // ------------------------------------------------------------ what the dictionary holds

  lemma InsertWellFormed(t: LinkTable, l: Link)
    requires WellFormed(t)
    ensures WellFormed(Insert(t, l))
  {
    var key := Key(l);
    if key !in t.urls {
      var ks := t.keys + [key];
      forall i, j | 0 <= i < j < |ks| ensures ks[i] != ks[j] {
        if j == |t.keys| {
          assert ks[i] == t.keys[i];
        }
      }
    }
  }

  /** The dictionary never lists a key twice, and its key list and its map agree. */
  lemma {:induction false} DedupeWellFormed(links: seq<Link>)
    ensures WellFormed(Dedupe(links))
    decreases |links|
  {
    if links != [] {
      DedupeWellFormed(links[..|links| - 1]);
      InsertWellFormed(Dedupe(links[..|links| - 1]), links[|links| - 1]);
    }
  }

  /** The keys of the links. */
  ghost function KeysOf(links: seq<Link>): set<string>
  {
    set i | 0 <= i < |links| :: Key(links[i])
  }

  lemma KeysOfSnoc(p: seq<Link>, l: Link)
    ensures KeysOf(p + [l]) == KeysOf(p) + {Key(l)}
  {
    var links := p + [l];
    forall k | k in KeysOf(links) ensures k in KeysOf(p) + {Key(l)} {
      var i :| 0 <= i < |links| && Key(links[i]) == k;
      if i < |p| {
        assert p[i] == links[i];
      }
    }
    forall k | k in KeysOf(p) ensures k in KeysOf(links) {
      var i :| 0 <= i < |p| && Key(p[i]) == k;
      assert links[i] == p[i];
    }
    assert Key(links[|p|]) in KeysOf(links);
  }

  /** The dictionary's keys are exactly the keys of the links: every text seen, no other. */
  lemma {:induction false} DedupeKeys(links: seq<Link>)
    ensures Dedupe(links).urls.Keys == KeysOf(links)
    decreases |links|
  {
    if links != [] {
      var p, l := links[..|links| - 1], links[|links| - 1];
      DedupeKeys(p);
      KeysOfSnoc(p, l);
      assert links == p + [l];
    }
  }

  /** A key in the dictionary is the key of some link. */
  lemma DedupeKeyOccurs(links: seq<Link>, k: string)
    requires k in Dedupe(links).urls
    ensures FirstAt(links, k) < |links|
  {
    DedupeKeys(links);
    var i :| 0 <= i < |links| && Key(links[i]) == k;
  }

  /** A key the dictionary does not hold is the key of no link. */
  lemma DedupeKeyAbsent(links: seq<Link>, k: string)
    requires k !in Dedupe(links).urls
    ensures forall j :: 0 <= j < |links| ==> Key(links[j]) != k
  {
    DedupeKeys(links);
    forall j | 0 <= j < |links| ensures Key(links[j]) != k {
      assert Key(links[j]) in KeysOf(links);
    }
  }

  /** The link kept before one more link is read stays kept when the new link does not displace it. */
  lemma KeptExtend(p: seq<Link>, l: Link, k: string, i: int)
    requires Kept(p, k, i)
    requires Key(l) == k ==> |p[i].url| <= |l.url|
    ensures Kept(p + [l], k, i)
  {
    var links := p + [l];
    forall j | 0 <= j < |links| && Key(links[j]) == k
      ensures |links[i].url| <= |links[j].url|
    {
      if j < |p| {
        assert links[j] == p[j];
      }
    }
    forall j | 0 <= j < i && Key(links[j]) == k
      ensures |links[i].url| < |links[j].url|
    {
      assert links[j] == p[j];
    }
  }

  /** A new link whose URL is shorter than the kept one displaces it. */
  lemma KeptReplace(p: seq<Link>, l: Link, i: int)
    requires Kept(p, Key(l), i) && |l.url| < |p[i].url|
    ensures Kept(p + [l], Key(l), |p|)
  {
    var links := p + [l];
    forall j | 0 <= j < |links| && Key(links[j]) == Key(l)
      ensures |links[|p|].url| <= |links[j].url|
    {
      if j < |p| {
        assert links[j] == p[j];
      }
    }
  }

  /** The first link under a key is kept while it is the only one. */
  lemma KeptFirst(p: seq<Link>, l: Link)
    requires forall j :: 0 <= j < |p| ==> Key(p[j]) != Key(l)
    ensures Kept(p + [l], Key(l), |p|)
  {
    var links := p + [l];
    forall j | 0 <= j < |p| ensures Key(links[j]) != Key(l) {
      assert links[j] == p[j];
    }
  }

  /**
   * For each text, the dictionary keeps the URL of the link that Kept
   * names: a shortest URL under that text, the first one among equally
   * short ones, since a later URL replaces the stored one only when it is
   * strictly shorter.
   */
  lemma {:induction false} DedupeShortest(links: seq<Link>, k: string)
    requires k in Dedupe(links).urls
    ensures exists i :: Kept(links, k, i) && Dedupe(links).urls[k] == links[i].url
    decreases |links|
  {
    var p, l := links[..|links| - 1], links[|links| - 1];
    assert links == p + [l];
    var t := Dedupe(p);
    if k in t.urls {
      DedupeShortest(p, k);
      var i :| Kept(p, k, i) && t.urls[k] == p[i].url;
      if Key(l) == k && |l.url| < |t.urls[k]| {
        KeptReplace(p, l, i);
        assert Kept(links, k, |p|) && Dedupe(links).urls[k] == links[|p|].url;
      } else {
        KeptExtend(p, l, k, i);
        assert Kept(links, k, i) && Dedupe(links).urls[k] == links[i].url;
      }
    } else {
      assert Key(l) == k;
      DedupeKeyAbsent(p, k);
      KeptFirst(p, l);
      assert Kept(links, k, |p|) && Dedupe(links).urls[k] == links[|p|].url;
    }
  }

  /** Reading one more link leaves the first position of a key already seen unchanged. */
  lemma FirstAtExtend(p: seq<Link>, l: Link, k: string)
    requires FirstAt(p, k) < |p|
    ensures FirstAt(p + [l], k) == FirstAt(p, k)
  {
    var links, f := p + [l], FirstAt(p, k);
    assert links[f] == p[f];
    forall j | 0 <= j < f ensures Key(links[j]) != k {
      assert links[j] == p[j];
    }
  }

  /** The key of a link not seen before first occurs at that link. */
  lemma FirstAtNew(p: seq<Link>, l: Link)
    requires forall j :: 0 <= j < |p| ==> Key(p[j]) != Key(l)
    ensures FirstAt(p + [l], Key(l)) == |p|
  {
    var links := p + [l];
    forall j | 0 <= j < |p| ensures Key(links[j]) != Key(l) {
      assert links[j] == p[j];
    }
    var g := FirstAt(links, Key(l));
    assert Key(links[|p|]) == Key(l);
    assert g <= |p|;
    assert g < |links| ==> Key(links[g]) == Key(l);
  }

  /** Keys in the order of their first appearance among the links, each one occurring among them. */
  predicate FirstAppearanceOrder(links: seq<Link>, keys: seq<string>)
  {
    && (forall a :: 0 <= a < |keys| ==> FirstAt(links, keys[a]) < |links|)
    && (forall a, b :: 0 <= a < b < |keys| ==> FirstAt(links, keys[a]) < FirstAt(links, keys[b]))
  }

  /** Keys ordered by first appearance stay so when one more link is read. */
  lemma OrderExtend(p: seq<Link>, l: Link, keys: seq<string>)
    requires FirstAppearanceOrder(p, keys)
    ensures FirstAppearanceOrder(p + [l], keys)
    ensures forall a :: 0 <= a < |keys| ==> FirstAt(p + [l], keys[a]) < |p|
  {
    forall a | 0 <= a < |keys| ensures FirstAt(p + [l], keys[a]) == FirstAt(p, keys[a]) {
      FirstAtExtend(p, l, keys[a]);
    }
  }

  /** A key that first appears after all listed keys may be listed after them. */
  lemma OrderAppend(links: seq<Link>, keys: seq<string>, k: string)
    requires FirstAppearanceOrder(links, keys)
    requires FirstAt(links, k) < |links|
    requires forall a :: 0 <= a < |keys| ==> FirstAt(links, keys[a]) < FirstAt(links, k)
    ensures FirstAppearanceOrder(links, keys + [k])
  {
    var ks := keys + [k];
    forall a | 0 <= a < |ks| ensures FirstAt(links, ks[a]) < |links| {
      if a < |keys| {
        assert ks[a] == keys[a];
      }
    }
    forall a, b | 0 <= a < b < |ks| ensures FirstAt(links, ks[a]) < FirstAt(links, ks[b]) {
      assert ks[a] == keys[a];
      if b < |keys| {
        assert ks[b] == keys[b];
      }
    }
  }

  lemma InsertOrder(p: seq<Link>, l: Link)
    requires FirstAppearanceOrder(p, Dedupe(p).keys)
    ensures FirstAppearanceOrder(p + [l], Insert(Dedupe(p), l).keys)
  {
    var t := Dedupe(p);
    OrderExtend(p, l, t.keys);
    if Key(l) !in t.urls {
      DedupeKeyAbsent(p, Key(l));
      FirstAtNew(p, l);
      OrderAppend(p + [l], t.keys, Key(l));
    }
  }

  /** The dictionary lists its keys in the order in which they first appear among the links. */
  lemma {:induction false} DedupeOrder(links: seq<Link>)
    ensures FirstAppearanceOrder(links, Dedupe(links).keys)
    decreases |links|
  {
    if links != [] {
      var p := links[..|links| - 1];
      DedupeOrder(p);
      InsertOrder(p, links[|links| - 1]);
      assert links == p + [links[|links| - 1]];
    }
  }

  // ------------------------------------------------------------ the bullet lines

  /** The number of dictionary entries shown. */
  const MaxLinks: nat := 30

  /** list(items)[:30]: the first n entries, or all of them when there are fewer. */
  function Take(keys: seq<string>, n: nat): (r: seq<string>)
    ensures |r| <= n && |r| <= |keys| && r == keys[..|r|]
    ensures |r| == n || r == keys
  {
    if |keys| <= n then keys else keys[..n]
  }

  /** One bullet line: the bare URL when the text adds nothing, else the cleaned text in bold, then the URL. */
  function Display(key: string, url: string): string
  {
    if key == url || key == "Link" then "\U{2022} " + url
    else "\U{2022} <b>" + CleanText(key) + ":</b> " + url
  }

  /** The line an entry gives: none when its text or its URL is empty. */
  function LineOf(key: string, url: string): seq<string>
  {
    if key != "" && url != "" then [Display(key, url)] else []
  }

  /** The lines of the listed entries, in order. */
  function Rendered(keys: seq<string>, urls: map<string, string>): seq<string>
    requires forall k :: k in keys ==> k in urls
    decreases |keys|
  {
    if keys == [] then []
    else Rendered(keys[..|keys| - 1], urls) + LineOf(keys[|keys| - 1], urls[keys[|keys| - 1]])
  }

  lemma RenderedSnoc(keys: seq<string>, n: nat, urls: map<string, string>)
    requires forall k :: k in keys ==> k in urls
    requires n < |keys|
    ensures Rendered(keys[..n + 1], urls) == Rendered(keys[..n], urls) + LineOf(keys[n], urls[keys[n]])
  {
    assert keys[..n + 1][..n] == keys[..n];
  }

  /** The loop over list(unique_links.items())[:30] that writes the bullet lines. */
  method RenderLinks(t: LinkTable) returns (lines: seq<string>)
    requires forall k :: k in t.keys ==> k in t.urls
    ensures lines == Rendered(Take(t.keys, MaxLinks), t.urls)
  {
    var shown := Take(t.keys, MaxLinks);
    assert forall k :: k in shown ==> k in t.urls;
    lines := [];
    for n := 0 to |shown|
      invariant lines == Rendered(shown[..n], t.urls)
    {
      var linkText := shown[n];
      var linkUrl := t.urls[linkText];
      RenderedSnoc(shown, n, t.urls);
      if linkText != "" && linkUrl != "" {
        var linkDisplay;
        if linkText == linkUrl || linkText == "Link" {
          linkDisplay := "\U{2022} " + linkUrl;
        } else {
          linkDisplay := "\U{2022} <b>" + CleanText(linkText) + ":</b> " + linkUrl;
        }
        lines := lines + [linkDisplay];
      }
    }
    assert shown[..|shown|] == shown;
  }

  /** Some listed entry with a non-empty text and URL displays as `line`. */
  ghost predicate Shows(keys: seq<string>, urls: map<string, string>, line: string)
    requires forall k :: k in keys ==> k in urls
  {
    exists k :: k in keys && k != "" && urls[k] != "" && line == Display(k, urls[k])
  }

  lemma ShowsSnoc(p: seq<string>, k: string, urls: map<string, string>, line: string)
    requires forall k' :: k' in p + [k] ==> k' in urls
    ensures Shows(p + [k], urls, line) <==>
      Shows(p, urls, line) || (k != "" && urls[k] != "" && line == Display(k, urls[k]))
  {
    if Shows(p + [k], urls, line) {
      var k' :| k' in p + [k] && k' != "" && urls[k'] != "" && line == Display(k', urls[k']);
      assert k' in p || k' == k;
    }
    if Shows(p, urls, line) {
      var k' :| k' in p && k' != "" && urls[k'] != "" && line == Display(k', urls[k']);
      assert k' in p + [k];
    }
  }

  /**
   * The rendered lines are exactly the lines of the listed entries whose
   * text and URL are non-empty, one per entry and in order, so never more
   * lines than entries.
   */
  lemma {:induction false} RenderedLines(keys: seq<string>, urls: map<string, string>)
    requires forall k :: k in keys ==> k in urls
    ensures |Rendered(keys, urls)| <= |keys|
    ensures forall line :: line in Rendered(keys, urls) <==> Shows(keys, urls, line)
    decreases |keys|
  {
    if keys != [] {
      var p, k := keys[..|keys| - 1], keys[|keys| - 1];
      RenderedLines(p, urls);
      assert keys == p + [k];
      forall line
        ensures line in Rendered(keys, urls) <==> Shows(keys, urls, line)
      {
        ShowsSnoc(p, k, urls, line);
      }
    }
  }

  /**
   * The links section of create_pdf: the grouped links, and at most 30
   * bullet lines, one for each of the first 30 texts in first-appearance
   * order whose URL is not empty.
   */
  method LinkSection(links: seq<Link>) returns (lines: seq<string>)
    ensures lines == Rendered(Take(Dedupe(links).keys, MaxLinks), Dedupe(links).urls)
    ensures |lines| <= MaxLinks
    ensures forall line :: line in lines <==> Shows(Take(Dedupe(links).keys, MaxLinks), Dedupe(links).urls, line)
  {
    var t := GroupLinks(links);
    lines := RenderLinks(t);
    RenderedLines(Take(t.keys, MaxLinks), t.urls);
  }

  /** A text whose entry is past the first 30 has no line, whatever its URL. */
  lemma Truncated(links: seq<Link>, a: nat)
    requires MaxLinks <= a < |Dedupe(links).keys|
    ensures Dedupe(links).keys[a] !in Take(Dedupe(links).keys, MaxLinks)
  {
    var keys := Dedupe(links).keys;
    var shown := Take(keys, MaxLinks);
    DedupeWellFormed(links);
    forall b | 0 <= b < |shown| ensures shown[b] != keys[a] {
      assert shown[b] == keys[b];
    }
  }
}
