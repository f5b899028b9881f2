/**
 * The crawl engine: class PDFWebScraper of scrapper.py.
 *
 * The scraper keeps the set of URLs visited in the current task and, in
 * place of the documents it writes, a log of create_pdf calls (document name
 * and page record). A ghost field keeps, for each logged document, the node
 * path its name was built from; the name uniqueness of the output rests on it.
 */
module Crawler {
  import opened Wrappers
  import opened NodeIndex
  import opened Page
  import Extractor

  /** One create_pdf call: the document name and the record rendered into it. */
  datatype Emission = Emission(name: string, record: PageRecord)

  /** One configuration entry: its "url" and "profundidad" (depth) keys, each possibly absent. */
  datatype Config = Config(url: Option<string>, depth: Option<int>)

  /** A configuration entry is crawled only when its URL is present and non-empty. */
  predicate HasUrl(c: Config)
  {
    c.url.Some? && c.url.value != ""
  }

  /** The crawl depth of an entry: 1 when "profundidad" is absent. */
  function DepthOf(c: Config): int
  {
    if c.depth.Some? then c.depth.value else 1
  }

  /** The URLs of the records logged from position `from` on. */
  ghost function UrlsFrom(log: seq<Emission>, from: nat): set<string>
  {
    set k | from <= k < |log| :: log[k].record.url
  }

  /**
   * The records logged from `from` on are for URLs that were not in v0, each
   * once, and they are exactly what v adds to v0.
   */
  ghost predicate FreshUrls(v0: set<string>, v: set<string>, log: seq<Emission>, from: nat)
  {
    && from <= |log|
    && v == v0 + UrlsFrom(log, from)
    && (forall k :: from <= k < |log| ==> log[k].record.url !in v0)
    && (forall k, m :: from <= k < m < |log| ==> log[k].record.url != log[m].record.url)
  }

  /** The records logged from `from` on all lie on url's domain, and all but the first are for http(s) URLs. */
  predicate OnDomain(net: Net, url: string, log: seq<Emission>, from: nat)
  {
    && from <= |log|
    && (forall k :: from <= k < |log| ==> SameDomain(net, url, log[k].record.url))
    && (forall k :: from < k < |log| ==> IsHttp(net, log[k].record.url))
  }

  /** Node path p lies in the subtree of `path`, fewer than `height` levels below it. */
  predicate Below(path: seq<nat>, height: int, p: seq<nat>)
  {
    |path| <= |p| < |path| + height && p[..|path|] == path
  }

  /** The node paths from `from` on lie in the subtree of `path` of the given height, and are pairwise distinct. */
  predicate Subtree(ps: seq<seq<nat>>, from: nat, path: seq<nat>, height: int)
  {
    && from <= |ps|
    && (forall k :: from <= k < |ps| ==> Below(path, height, ps[k]))
    && (forall k, m :: from <= k < m < |ps| ==> ps[k] != ps[m])
  }

  /**
   * What one ScrapeRecursive call for `url` at node `path` leaves behind,
   * having found `v0` visited and left `v` visited: the records logged from
   * `from` on start with url's own, are for fresh URLs, each once, lying on
   * url's domain; their node paths lie in the subtree of `path` of height
   * `height`, and are pairwise distinct.
   */
  ghost predicate Crawled(net: Net, url: string, v0: set<string>, v: set<string>,
                          log: seq<Emission>, ps: seq<seq<nat>>, from: nat, path: seq<nat>, height: int)
  {
    && |log| == |ps| && from <= |log|
    && (from < |log| ==> log[from].record.url == url)
    && FreshUrls(v0, v, log, from)
    && OnDomain(net, url, log, from)
    && Subtree(ps, from, path, height)
  }

  /** The node itself, just logged, is a crawl of its own. */
  lemma CrawledSeed(net: Net, url: string, v0: set<string>, log: seq<Emission>, ps: seq<seq<nat>>,
                    path: seq<nat>, height: int)
    requires |log| == |ps| && |log| >= 1 && log[|log| - 1].record.url == url && ps[|ps| - 1] == path
    requires url !in v0 && height >= 1
    ensures Crawled(net, url, v0, v0 + {url}, log, ps, |log| - 1, path, height)
  {
    assert UrlsFrom(log, |log| - 1) == {url};
    assert ps[|ps| - 1][..|path|] == path;
  }

  /** Visited-set bookkeeping composes: the URLs added by two consecutive stretches of the log. */
  lemma AppendFresh(v0: set<string>, v1: set<string>, log: seq<Emission>, n0: nat,
                    v2: set<string>, log': seq<Emission>)
    requires FreshUrls(v0, v1, log, n0) && |log| <= |log'| && FreshUrls(v1, v2, log', |log|)
    requires forall k :: 0 <= k < |log| ==> log'[k] == log[k]
    ensures FreshUrls(v0, v2, log', n0)
  {
    var n1 := |log|;
    assert UrlsFrom(log', n0) == UrlsFrom(log, n0) + UrlsFrom(log', n1) by {
      forall u | u in UrlsFrom(log', n0)
        ensures u in UrlsFrom(log, n0) + UrlsFrom(log', n1)
      {
        var k :| n0 <= k < |log'| && log'[k].record.url == u;
        if k < n1 {
          assert log[k].record.url == u;
        }
      }
    }
    forall k, m | n0 <= k < m < |log'|
      ensures log'[k].record.url != log'[m].record.url
    {
      if m >= n1 && k < n1 {
        assert log'[k].record.url in UrlsFrom(log, n0);
      }
    }
  }

  /** A same-domain http(s) child's crawl appended to its parent's stays on the parent's domain. */
  lemma AppendOnDomain(net: Net, url: string, child: string, log: seq<Emission>, n0: nat, log': seq<Emission>)
    requires n0 < |log| <= |log'| && OnDomain(net, url, log, n0) && OnDomain(net, child, log', |log|)
    requires SameDomain(net, url, child) && IsHttp(net, child)
    requires |log'| > |log| ==> log'[|log|].record.url == child
    requires forall k :: 0 <= k < |log| ==> log'[k] == log[k]
    ensures OnDomain(net, url, log', n0)
  {
  }

  /**
   * The subtree of child idx (paths extending path + [idx]) appended to the
   * node at `path` and its first idx - 1 children keeps all paths distinct.
   */
  lemma AppendChildSubtree(ps: seq<seq<nat>>, n0: nat, path: seq<nat>, height: int, idx: nat, ps': seq<seq<nat>>)
    requires n0 < |ps| <= |ps'| && ps[n0] == path && Subtree(ps, n0, path, height)
    requires forall k :: n0 < k < |ps| ==> |ps[k]| > |path| && 1 <= ps[k][|path|] < idx
    requires idx >= 1 && Subtree(ps', |ps|, path + [idx], height - 1)
    requires forall k :: 0 <= k < |ps| ==> ps'[k] == ps[k]
    requires ChildrenInOrder(ps, n0, path)
    ensures Subtree(ps', n0, path, height) && ps'[n0] == path
    ensures forall k :: n0 < k < |ps'| ==> |ps'[k]| > |path| && 1 <= ps'[k][|path|] < idx + 1
    ensures ChildrenInOrder(ps', n0, path)
  {
    var n1 := |ps|;
    forall k | n1 <= k < |ps'|
      ensures |ps'[k]| > |path| && ps'[k][|path|] == idx && Below(path, height, ps'[k])
    {
      assert ps'[k][..|path| + 1] == path + [idx];
      assert ps'[k][..|path|] == ps'[k][..|path| + 1][..|path|];
    }
    forall k, m | n0 < k < m < |ps'|
      ensures ps'[k][|path|] <= ps'[m][|path|]
    {
      if k < n1 && n1 <= m {
        assert ps'[k][|path|] < idx;
      }
    }
  }

  /**
   * Appending the crawl of the idx-th child of the node at `path` to the
   * crawl of that node and its first idx - 1 children gives the crawl of the
   * node and its first idx children.
   */
  lemma {:induction false} AppendSubtree(net: Net, url: string, v0: set<string>, v1: set<string>,
                        log: seq<Emission>, ps: seq<seq<nat>>, n0: nat, path: seq<nat>, height: int,
                        idx: nat, child: string, v2: set<string>, log': seq<Emission>, ps': seq<seq<nat>>)
    requires Crawled(net, url, v0, v1, log, ps, n0, path, height)
    requires n0 < |ps| && ps[n0] == path
    requires forall k :: n0 < k < |ps| ==> |ps[k]| > |path| && 1 <= ps[k][|path|] < idx
    requires idx >= 1 && SameDomain(net, url, child) && IsHttp(net, child)
    requires |log| <= |log'| && log'[..|log|] == log && |ps'| == |log'| && ps'[..|ps|] == ps
    requires Crawled(net, child, v1, v2, log', ps', |log|, path + [idx], height - 1)
    requires ChildrenInOrder(ps, n0, path)
    ensures Crawled(net, url, v0, v2, log', ps', n0, path, height)
    ensures ps'[n0] == path
    ensures forall k :: n0 < k < |ps'| ==> |ps'[k]| > |path| && 1 <= ps'[k][|path|] < idx + 1
    ensures ChildrenInOrder(ps', n0, path)
  {
    assert forall k :: 0 <= k < |log| ==> log'[k] == log[k] && ps'[k] == ps[k] by {
      forall k | 0 <= k < |log| ensures log'[k] == log[k] && ps'[k] == ps[k] {
        assert log'[..|log|][k] == log'[k] && ps'[..|ps|][k] == ps'[k];
      }
    }
    AppendFresh(v0, v1, log, n0, v2, log');
    AppendOnDomain(net, url, child, log, n0, log');
    AppendChildSubtree(ps, n0, path, height, idx, ps');
  }

  /**
   * Below the node at `path`, logged at n0, the documents come child by
   * child: their position among the node's children never decreases.
   */
  predicate ChildrenInOrder(ps: seq<seq<nat>>, n0: nat, path: seq<nat>)
  {
    && (forall k :: n0 < k < |ps| ==> |ps[k]| > |path|)
    && (forall k, m :: n0 < k < m < |ps| ==> ps[k][|path|] <= ps[m][|path|])
  }

  /** The state of the child loop of the node at `path`, logged at n0, once its first idx - 1 children are crawled. */
  ghost predicate ChildrenCrawled(net: Net, url: string, v0: set<string>, v: set<string>,
                                  log: seq<Emission>, ps: seq<seq<nat>>, n0: nat, path: seq<nat>, height: int,
                                  idx: nat, first: Emission, log0: seq<Emission>, ps0: seq<seq<nat>>)
  {
    && n0 < |log| && |ps| == |log| && log[..n0] == log0 && ps[..n0] == ps0
    && log[n0] == first && ps[n0] == path
    && Crawled(net, url, v0, v, log, ps, n0, path, height)
    && (forall k :: n0 < k < |ps| ==> |ps[k]| > |path| && 1 <= ps[k][|path|] < idx)
    && ChildrenInOrder(ps, n0, path)
  }

  lemma NextChild(net: Net, url: string, v0: set<string>, v1: set<string>,
                  log: seq<Emission>, ps: seq<seq<nat>>, n0: nat, path: seq<nat>, height: int,
                  idx: nat, first: Emission, log0: seq<Emission>, ps0: seq<seq<nat>>,
                  child: string, maxDepth: int, currentDepth: nat,
                  v2: set<string>, log': seq<Emission>, ps': seq<seq<nat>>)
    requires ChildrenCrawled(net, url, v0, v1, log, ps, n0, path, height, idx, first, log0, ps0)
    requires idx >= 1 && SameDomain(net, url, child) && IsHttp(net, child)
    requires |ps'| == |log'|
    requires CallEffect(net, child, maxDepth, currentDepth + 1, path + [idx], v1, log, ps, v2, log', ps')
    requires height == maxDepth - currentDepth
    ensures ChildrenCrawled(net, url, v0, v2, log', ps', n0, path, height, idx + 1, first, log0, ps0)
  {
    AppendSubtree(net, url, v0, v1, log, ps, n0, path, height, idx, child, v2, log', ps');
    assert log'[..n0] == log'[..|log|][..n0];
    assert ps'[..n0] == ps'[..|ps|][..n0];
    assert log'[n0] == log'[..|log|][n0];
  }

  /**
   * The effect of scrape_recursive(url, maxDepth, currentDepth, index of
   * `path`) on the visited set (v0 before, v after) and on the log (log0 and
   * ps0 before, log and ps after): earlier documents stay as they are; a URL
   * at or beyond the depth limit or already visited changes nothing; any other
   * URL gets the next document, named after `path`, holding its record with
   * child URLs filtered against v0 plus itself; a node on the last level or
   * whose fetch failed gets that document only; everything logged is a
   * crawl of url from `path` (see Crawled) of height maxDepth - currentDepth;
   * and below the node the documents come child by child, in the order of
   * its child URLs.
   */
  ghost predicate CallEffect(net: Net, url: string, maxDepth: int, currentDepth: nat, path: seq<nat>,
                             v0: set<string>, log0: seq<Emission>, ps0: seq<seq<nat>>,
                             v: set<string>, log: seq<Emission>, ps: seq<seq<nat>>)
    requires |path| >= 1
  {
    && |log| == |ps| && |log0| <= |log| && log[..|log0|] == log0 && |ps0| <= |ps| && ps[..|ps0|] == ps0
    && (currentDepth >= maxDepth || url in v0 ==> log == log0 && v == v0)
    && (currentDepth < maxDepth && url !in v0 ==>
          && |log| > |log0|
          && log[|log0|] == Emission(PdfName(path), Scrape(net, url, v0 + {url}))
          && ps[|log0|] == path)
    && (currentDepth < maxDepth && url !in v0 && (currentDepth >= maxDepth - 1 || net.fetch(url).FetchError?) ==>
          |log| == |log0| + 1)
    && Crawled(net, url, v0, v, log, ps, |log0|, path, maxDepth - currentDepth)
    && ChildrenInOrder(ps, |log0|, path)
  }

  /** A node at or beyond the depth limit, or already visited, is skipped without effect. */
  lemma NodeSkipped(net: Net, url: string, maxDepth: int, currentDepth: nat, path: seq<nat>,
                    v: set<string>, log: seq<Emission>, ps: seq<seq<nat>>)
    requires |path| >= 1 && |log| == |ps| && (currentDepth >= maxDepth || url in v)
    ensures CallEffect(net, url, maxDepth, currentDepth, path, v, log, ps, v, log, ps)
  {
    assert log[..|log|] == log && ps[..|ps|] == ps;
    assert UrlsFrom(log, |log|) == {};
  }

  /** Right after a node's own document is logged, none of its children is crawled yet. */
  lemma ChildrenStart(net: Net, url: string, v0: set<string>, v: set<string>,
                      log: seq<Emission>, ps: seq<seq<nat>>, path: seq<nat>, height: int,
                      first: Emission, log0: seq<Emission>, ps0: seq<seq<nat>>)
    requires log == log0 + [first] && ps == ps0 + [path]
    requires Crawled(net, url, v0, v, log, ps, |log0|, path, height)
    ensures ChildrenCrawled(net, url, v0, v, log, ps, |log0|, path, height, 1, first, log0, ps0)
  {
    assert log[..|log0|] == log0 && ps[..|ps0|] == ps0;
  }

  /** A node whose document is logged and whose children (if any) are crawled has had the effect CallEffect promises. */
  lemma NodeDone(net: Net, url: string, maxDepth: int, currentDepth: nat, path: seq<nat>,
                 v0: set<string>, log0: seq<Emission>, ps0: seq<seq<nat>>,
                 v: set<string>, log: seq<Emission>, ps: seq<seq<nat>>, first: Emission, idx: nat)
    requires |path| >= 1 && currentDepth < maxDepth && url !in v0 && |log0| == |ps0|
    requires first == Emission(PdfName(path), Scrape(net, url, v0 + {url}))
    requires ChildrenCrawled(net, url, v0, v, log, ps, |log0|, path, maxDepth - currentDepth, idx, first, log0, ps0)
    requires (currentDepth >= maxDepth - 1 || net.fetch(url).FetchError?) ==> |log| == |log0| + 1
    ensures CallEffect(net, url, maxDepth, currentDepth, path, v0, log0, ps0, v, log, ps)
  {
  }

  // ---------------------------------------------------------------- reference crawl

  lemma AppendAssoc<T>(a: seq<T>, b: seq<T>, c: seq<T>)
    ensures (a + b) + c == a + (b + c)
  {
  }

  /** What a crawl leaves behind: the visited set, and the documents it adds, with their node paths. */
  datatype Outcome = Outcome(visited: set<string>, log: seq<Emission>, paths: seq<seq<nat>>)

  /**
   * scrape_recursive(url, maxDepth, currentDepth, index of `path`) started
   * with v0 visited: a URL at or beyond the depth limit, or already visited,
   * adds nothing; any other URL is marked visited and gets its document;
   * then, when the node is above the last level and its fetch succeeded,
   * its child URLs are crawled one level deeper, in order.
   */
  ghost function Crawl(net: Net, url: string, maxDepth: int, currentDepth: nat, path: seq<nat>,
                       v0: set<string>): Outcome
    requires |path| >= 1
    decreases maxDepth - currentDepth, 1
  {
    if currentDepth >= maxDepth || url in v0 then Outcome(v0, [], [])
    else
      var record := Scrape(net, url, v0 + {url});
      var own := Outcome(v0 + {url}, [Emission(PdfName(path), record)], [path]);
      if currentDepth < maxDepth - 1 && record.Scraped? then
        CrawlChildren(net, record.childUrls, |record.childUrls|, maxDepth, currentDepth, path, own)
      else own
  }

  /**
   * The child loop after its first n children: child i (1-based) is crawled
   * from the visited set the earlier children left, at node path + [i], and
   * its documents follow theirs.
   */
  ghost function CrawlChildren(net: Net, childUrls: seq<string>, n: nat, maxDepth: int, currentDepth: nat,
                               path: seq<nat>, start: Outcome): Outcome
    requires n <= |childUrls| && |path| >= 1 && currentDepth < maxDepth - 1
    decreases maxDepth - currentDepth, 0, n
  {
    if n == 0 then start
    else
      var before := CrawlChildren(net, childUrls, n - 1, maxDepth, currentDepth, path, start);
      var child := Crawl(net, childUrls[n - 1], maxDepth, currentDepth + 1, path + [n], before.visited);
      Outcome(child.visited, before.log + child.log, before.paths + child.paths)
  }

  /** The child loop's step n appends child n's crawl to the outcome of the first n - 1 children. */
  lemma CrawlChildrenNext(net: Net, childUrls: seq<string>, n: nat, maxDepth: int, currentDepth: nat,
                          path: seq<nat>, start: Outcome)
    requires 1 <= n <= |childUrls| && |path| >= 1 && currentDepth < maxDepth - 1
    ensures var before := CrawlChildren(net, childUrls, n - 1, maxDepth, currentDepth, path, start);
            var c := Crawl(net, childUrls[n - 1], maxDepth, currentDepth + 1, path + [n], before.visited);
      CrawlChildren(net, childUrls, n, maxDepth, currentDepth, path, start)
        == Outcome(c.visited, before.log + c.log, before.paths + c.paths)
  {
  }

  /** The reference crawl has the effect CallEffect describes. */
  lemma {:induction false} CrawlEffect(net: Net, url: string, maxDepth: int, currentDepth: nat, path: seq<nat>,
                                       v0: set<string>, log0: seq<Emission>, ps0: seq<seq<nat>>)
    requires |path| >= 1 && |log0| == |ps0|
    decreases maxDepth - currentDepth, 1
    ensures var o := Crawl(net, url, maxDepth, currentDepth, path, v0);
      CallEffect(net, url, maxDepth, currentDepth, path, v0, log0, ps0, o.visited, log0 + o.log, ps0 + o.paths)
  {
    var o := Crawl(net, url, maxDepth, currentDepth, path, v0);
    if currentDepth >= maxDepth || url in v0 {
      assert log0 + o.log == log0 && ps0 + o.paths == ps0;
      NodeSkipped(net, url, maxDepth, currentDepth, path, v0, log0, ps0);
    } else {
      var record := Scrape(net, url, v0 + {url});
      var first := Emission(PdfName(path), record);
      var height := maxDepth - currentDepth;
      CrawledSeed(net, url, v0, log0 + [first], ps0 + [path], path, height);
      ChildrenStart(net, url, v0, v0 + {url}, log0 + [first], ps0 + [path], path, height, first, log0, ps0);
      if currentDepth < maxDepth - 1 && record.Scraped? {
        var n := |record.childUrls|;
        ChildrenEffect(net, url, record.childUrls, n, maxDepth, currentDepth, path, v0, first, log0, ps0);
        NodeDone(net, url, maxDepth, currentDepth, path, v0, log0, ps0,
                 o.visited, log0 + o.log, ps0 + o.paths, first, n + 1);
      } else {
        NodeDone(net, url, maxDepth, currentDepth, path, v0, log0, ps0,
                 v0 + {url}, log0 + [first], ps0 + [path], first, 1);
      }
    }
  }

  /** The reference child loop keeps the child-loop state, one child at a time. */
  lemma {:induction false} ChildrenEffect(net: Net, url: string, childUrls: seq<string>, n: nat, maxDepth: int,
                                          currentDepth: nat, path: seq<nat>, v0: set<string>, first: Emission,
                                          log0: seq<Emission>, ps0: seq<seq<nat>>)
    requires n <= |childUrls| && |path| >= 1 && currentDepth < maxDepth - 1 && |log0| == |ps0|
    requires forall c :: c in childUrls ==> SameDomain(net, url, c) && IsHttp(net, c)
    requires ChildrenCrawled(net, url, v0, v0 + {url}, log0 + [first], ps0 + [path], |log0|, path,
                             maxDepth - currentDepth, 1, first, log0, ps0)
    decreases maxDepth - currentDepth, 0, n
    ensures var o := CrawlChildren(net, childUrls, n, maxDepth, currentDepth, path, Outcome(v0 + {url}, [first], [path]));
      ChildrenCrawled(net, url, v0, o.visited, log0 + o.log, ps0 + o.paths, |log0|, path,
                      maxDepth - currentDepth, n + 1, first, log0, ps0)
  {
    if n > 0 {
      var start := Outcome(v0 + {url}, [first], [path]);
      var before := CrawlChildren(net, childUrls, n - 1, maxDepth, currentDepth, path, start);
      ChildrenEffect(net, url, childUrls, n - 1, maxDepth, currentDepth, path, v0, first, log0, ps0);
      var child := childUrls[n - 1];
      var c := Crawl(net, child, maxDepth, currentDepth + 1, path + [n], before.visited);
      CrawlEffect(net, child, maxDepth, currentDepth + 1, path + [n], before.visited, log0 + before.log, ps0 + before.paths);
      ChildStep(net, url, v0, first, log0, ps0, path, maxDepth, currentDepth, n, before, child, c);
    }
  }

  /** One step of the reference child loop, on the outcomes before and of child n. */
  lemma ChildStep(net: Net, url: string, v0: set<string>, first: Emission, log0: seq<Emission>, ps0: seq<seq<nat>>,
                  path: seq<nat>, maxDepth: int, currentDepth: nat, n: nat, before: Outcome, child: string, c: Outcome)
    requires |path| >= 1 && n >= 1 && SameDomain(net, url, child) && IsHttp(net, child)
    requires ChildrenCrawled(net, url, v0, before.visited, log0 + before.log, ps0 + before.paths, |log0|, path,
                             maxDepth - currentDepth, n, first, log0, ps0)
    requires CallEffect(net, child, maxDepth, currentDepth + 1, path + [n], before.visited,
                        log0 + before.log, ps0 + before.paths, c.visited, (log0 + before.log) + c.log, (ps0 + before.paths) + c.paths)
    ensures ChildrenCrawled(net, url, v0, c.visited, log0 + (before.log + c.log), ps0 + (before.paths + c.paths), |log0|, path,
                            maxDepth - currentDepth, n + 1, first, log0, ps0)
  {
    NextChild(net, url, v0, before.visited, log0 + before.log, ps0 + before.paths, |log0|, path, maxDepth - currentDepth,
              n, first, log0, ps0, child, maxDepth, currentDepth, c.visited, (log0 + before.log) + c.log, (ps0 + before.paths) + c.paths);
    ChildrenCrawledRegroup(net, url, v0, c.visited, |log0|, path, maxDepth - currentDepth, n + 1, first, log0, ps0,
                           before.log, c.log, before.paths, c.paths);
  }

  /** The child-loop state does not depend on how the log's pieces are grouped. */
  lemma ChildrenCrawledRegroup(net: Net, url: string, v0: set<string>, v: set<string>, n0: nat, path: seq<nat>,
                               height: int, idx: nat, first: Emission, log0: seq<Emission>, ps0: seq<seq<nat>>,
                               a: seq<Emission>, b: seq<Emission>, pa: seq<seq<nat>>, pb: seq<seq<nat>>)
    requires ChildrenCrawled(net, url, v0, v, (log0 + a) + b, (ps0 + pa) + pb, n0, path, height, idx, first, log0, ps0)
    ensures ChildrenCrawled(net, url, v0, v, log0 + (a + b), ps0 + (pa + pb), n0, path, height, idx, first, log0, ps0)
  {
    AppendAssoc(log0, a, b);
    AppendAssoc(ps0, pa, pb);
  }

  /** A crawl only adds to the visited set, and a URL above the depth limit ends up visited. */
  lemma {:induction false} CrawlVisits(net: Net, url: string, maxDepth: int, currentDepth: nat, path: seq<nat>,
                                       v0: set<string>)
    requires |path| >= 1
    decreases maxDepth - currentDepth, 1
    ensures var o := Crawl(net, url, maxDepth, currentDepth, path, v0);
      v0 <= o.visited && (currentDepth < maxDepth ==> url in o.visited)
  {
    if currentDepth < maxDepth && url !in v0 {
      var record := Scrape(net, url, v0 + {url});
      if currentDepth < maxDepth - 1 && record.Scraped? {
        ChildrenVisited(net, record.childUrls, |record.childUrls|, maxDepth, currentDepth, path,
                        Outcome(v0 + {url}, [Emission(PdfName(path), record)], [path]));
      }
    }
  }

  /** The child loop only adds to the visited set, and every child URL it reaches ends up visited. */
  lemma {:induction false} ChildrenVisited(net: Net, childUrls: seq<string>, n: nat, maxDepth: int,
                                           currentDepth: nat, path: seq<nat>, start: Outcome)
    requires n <= |childUrls| && |path| >= 1 && currentDepth < maxDepth - 1
    decreases maxDepth - currentDepth, 0, n
    ensures var o := CrawlChildren(net, childUrls, n, maxDepth, currentDepth, path, start);
      start.visited <= o.visited && forall j :: 0 <= j < n ==> childUrls[j] in o.visited
  {
    if n > 0 {
      var before := CrawlChildren(net, childUrls, n - 1, maxDepth, currentDepth, path, start);
      ChildrenVisited(net, childUrls, n - 1, maxDepth, currentDepth, path, start);
      CrawlVisits(net, childUrls[n - 1], maxDepth, currentDepth + 1, path + [n], before.visited);
    }
  }

  /**
   * The child loop's step j keeps what came before and adds the crawl of
   * child j: when childUrls[j - 1] was not visited by then, that crawl
   * starts with its document, named after node path + [j]; otherwise the
   * step adds nothing.
   */
  lemma ChildFirst(net: Net, childUrls: seq<string>, j: nat, maxDepth: int, currentDepth: nat,
                   path: seq<nat>, start: Outcome)
    requires 1 <= j <= |childUrls| && |path| >= 1 && currentDepth < maxDepth - 1
    ensures var before := CrawlChildren(net, childUrls, j - 1, maxDepth, currentDepth, path, start);
            var after := CrawlChildren(net, childUrls, j, maxDepth, currentDepth, path, start);
      && |before.log| <= |after.log| && after.log[..|before.log|] == before.log
      && (childUrls[j - 1] in before.visited ==> after == before)
      && (childUrls[j - 1] !in before.visited ==>
            && |after.log| > |before.log| && |after.paths| > |before.paths|
            && after.log[|before.log|]
               == Emission(PdfName(path + [j]), Scrape(net, childUrls[j - 1], before.visited + {childUrls[j - 1]}))
            && after.paths[|before.paths|] == path + [j])
  {
    var before := CrawlChildren(net, childUrls, j - 1, maxDepth, currentDepth, path, start);
    var child := childUrls[j - 1];
    var c := Crawl(net, child, maxDepth, currentDepth + 1, path + [j], before.visited);
    CrawlEffect(net, child, maxDepth, currentDepth + 1, path + [j], before.visited, [], []);
    assert [] + c.log == c.log && [] + c.paths == c.paths;
    assert (before.log + c.log)[..|before.log|] == before.log;
    if child in before.visited {
      assert before.log + c.log == before.log && before.paths + c.paths == before.paths;
    } else {
      assert (before.log + c.log)[|before.log|] == c.log[0];
      assert (before.paths + c.paths)[|before.paths|] == c.paths[0];
    }
  }

  /**
   * A node above the last level whose fetch succeeds is followed by the
   * crawl of its children: every child URL of its record has a document of
   * its own in the node's crawl.
   */
  lemma DescendsIntoChildren(net: Net, url: string, maxDepth: int, currentDepth: nat, path: seq<nat>,
                             v0: set<string>)
    requires |path| >= 1 && currentDepth < maxDepth - 1 && url !in v0 && net.fetch(url).Fetched?
    ensures var o := Crawl(net, url, maxDepth, currentDepth, path, v0);
      forall c :: c in Scrape(net, url, v0 + {url}).childUrls ==>
        c != url && exists k :: 0 <= k < |o.log| && o.log[k].record.url == c
  {
    var o := Crawl(net, url, maxDepth, currentDepth, path, v0);
    var record := Scrape(net, url, v0 + {url});
    var own := Outcome(v0 + {url}, [Emission(PdfName(path), record)], [path]);
    ChildrenVisited(net, record.childUrls, |record.childUrls|, maxDepth, currentDepth, path, own);
    CrawlEffect(net, url, maxDepth, currentDepth, path, v0, [], []);
    assert [] + o.log == o.log;
    forall c | c in record.childUrls
      ensures c != url && exists k :: 0 <= k < |o.log| && o.log[k].record.url == c
    {
      assert IsChild(net, url, c, v0 + {url});
      assert c in UrlsFrom(o.log, 0);
    }
  }

  /**
   * scrape_all over the first i configuration entries, starting with v
   * visited: an entry without a URL is skipped; entry i (1-based) with a URL
   * is crawled to its own depth from node [i] with the visited set cleared,
   * and its documents follow those of the earlier entries.
   */
  ghost function Run(net: Net, configs: seq<Config>, i: nat, v: set<string>): Outcome
    requires i <= |configs|
  {
    if i == 0 then Outcome(v, [], [])
    else
      var before := Run(net, configs, i - 1, v);
      var config := configs[i - 1];
      if !HasUrl(config) then before
      else
        var o := Crawl(net, config.url.value, DepthOf(config), 0, [i], {});
        Outcome(o.visited, before.log + o.log, before.paths + o.paths)
  }

  class PDFWebScraper {
    /** visited_urls: the URLs the current task has committed to visiting. */
    var visited: set<string>
    /** The create_pdf calls made so far, in order. */
    var emitted: seq<Emission>
    /** For each logged document, the node path its name was built from. */
    ghost var paths: seq<seq<nat>>

    ghost predicate Valid()
      reads this
    {
      && |paths| == |emitted|
      && forall k :: 0 <= k < |emitted| ==> |paths[k]| >= 1 && emitted[k].name == PdfName(paths[k])
    }

    constructor ()
      ensures Valid() && visited == {} && emitted == [] && paths == []
    {
      visited := {};
      emitted := [];
      paths := [];
    }

    /**
     * scrape_url: a URL already visited yields nothing; any other URL is
     * marked visited before it is fetched (so it stays marked when the fetch
     * fails) and yields its record, whose child URLs are filtered against the
     * visited set that now holds it.
     */
    method ScrapeUrl(net: Net, url: string) returns (data: Option<PageRecord>)
      modifies this`visited
      ensures url in old(visited) ==> data == None && visited == old(visited)
      ensures url !in old(visited) ==> visited == old(visited) + {url} && data == Some(Scrape(net, url, visited))
    {
      if url in visited {
        return None;
      }
      visited := visited + {url};
      match net.fetch(url)
      case FetchError(reason) =>
        data := Some(Failed(url, reason));
      case Fetched(page) =>
        var headings := Extractor.CollectHeadings(page.elements);
        var paragraphs := Extractor.CollectParagraphs(page.elements);
        var links, childUrls := Extractor.CollectLinks(net, url, page.elements, visited);
        data := Some(Scraped(url, Title(page.title), headings, paragraphs, links, childUrls));
    }

    /** create_pdf: one document named filename, holding data, is produced. */
    method CreatePdf(data: PageRecord, filename: string, ghost path: seq<nat>)
      requires Valid() && |path| >= 1 && filename == PdfName(path)
      modifies this`emitted, this`paths
      ensures Valid()
      ensures emitted == old(emitted) + [Emission(filename, data)] && paths == old(paths) + [path]
    {
      emitted := emitted + [Emission(filename, data)];
      paths := paths + [path];
    }

    /**
     * scrape_recursive: a URL at or beyond the depth limit, or already
     * visited, is skipped. Otherwise it is scraped and its document is
     * written under web{parentIndex}.pdf; then, when the node is above the
     * last level and its record carries child URLs (a failed fetch does not),
     * its children are crawled. The new state is what Crawl describes.
     */
    method ScrapeRecursive(net: Net, url: string, maxDepth: int, currentDepth: nat,
                           parentIndex: string, ghost path: seq<nat>)
      requires Valid()
      requires |path| >= 1 && parentIndex == Index(path)
      modifies this
      decreases maxDepth - currentDepth, 1
      ensures Valid()
      ensures var o := Crawl(net, url, maxDepth, currentDepth, path, old(visited));
        visited == o.visited && emitted == old(emitted) + o.log && paths == old(paths) + o.paths
    {
      if currentDepth >= maxDepth || url in visited {
        assert emitted + [] == emitted && paths + [] == paths;
        return;
      }
      ghost var v0, log0, ps0 := visited, emitted, paths;
      var data := ScrapeUrl(net, url);
      // scrape_url yields None only for a visited URL, and url was not visited
      var record := data.value;
      var pdfFilename := "web" + parentIndex + ".pdf";
      CreatePdf(record, pdfFilename, path);
      if currentDepth < maxDepth - 1 && record.Scraped? {
        ghost var own := Outcome(v0 + {url}, [Emission(pdfFilename, record)], [path]);
        ScrapeChildren(net, record.childUrls, maxDepth, currentDepth, parentIndex, path, own, log0, ps0);
      }
    }

    /**
     * The child loop of scrape_recursive: the i-th child URL (1-based, in
     * record order) is crawled one level deeper under index parentIndex-i,
     * each child's whole subtree before the next child, as CrawlChildren
     * describes.
     */
    method ScrapeChildren(net: Net, childUrls: seq<string>, maxDepth: int, currentDepth: nat,
                          parentIndex: string, ghost path: seq<nat>, ghost start: Outcome,
                          ghost log0: seq<Emission>, ghost ps0: seq<seq<nat>>)
      requires Valid()
      requires |path| >= 1 && parentIndex == Index(path) && currentDepth < maxDepth - 1
      requires visited == start.visited && emitted == log0 + start.log && paths == ps0 + start.paths
      modifies this
      decreases maxDepth - currentDepth, 0, 1
      ensures Valid()
      ensures var o := CrawlChildren(net, childUrls, |childUrls|, maxDepth, currentDepth, path, start);
        visited == o.visited && emitted == log0 + o.log && paths == ps0 + o.paths
    {
      ghost var done := start;
      for idx := 1 to |childUrls| + 1
        invariant Valid()
        invariant done == CrawlChildren(net, childUrls, idx - 1, maxDepth, currentDepth, path, start)
        invariant visited == done.visited && emitted == log0 + done.log && paths == ps0 + done.paths
      {
        done := ScrapeChild(net, childUrls, idx, maxDepth, currentDepth, parentIndex, path, start, done, log0, ps0);
      }
    }

    /** One iteration of the child loop: child idx is crawled one level deeper under index parentIndex-idx. */
    method ScrapeChild(net: Net, childUrls: seq<string>, idx: nat, maxDepth: int, currentDepth: nat,
                       parentIndex: string, ghost path: seq<nat>, ghost start: Outcome, ghost done: Outcome,
                       ghost log0: seq<Emission>, ghost ps0: seq<seq<nat>>)
      returns (ghost done': Outcome)
      requires Valid()
      requires 1 <= idx <= |childUrls| && |path| >= 1 && parentIndex == Index(path) && currentDepth < maxDepth - 1
      requires done == CrawlChildren(net, childUrls, idx - 1, maxDepth, currentDepth, path, start)
      requires visited == done.visited && emitted == log0 + done.log && paths == ps0 + done.paths
      modifies this
      decreases maxDepth - currentDepth, 0, 0
      ensures Valid()
      ensures done' == CrawlChildren(net, childUrls, idx, maxDepth, currentDepth, path, start)
      ensures visited == done'.visited && emitted == log0 + done'.log && paths == ps0 + done'.paths
    {
      var childIndex := parentIndex + "-" + Decimal(idx);
      assert childIndex == Index(path + [idx]) by { IndexOfChild(path, idx); }
      ScrapeRecursive(net, childUrls[idx - 1], maxDepth, currentDepth + 1, childIndex, path + [idx]);
      ghost var c := Crawl(net, childUrls[idx - 1], maxDepth, currentDepth + 1, path + [idx], done.visited);
      CrawlChildrenNext(net, childUrls, idx, maxDepth, currentDepth, path, start);
      AppendAssoc(log0, done.log, c.log);
      AppendAssoc(ps0, done.paths, c.paths);
      done' := Outcome(c.visited, done.log + c.log, done.paths + c.paths);
    }

    /**
     * scrape_all: the configuration entries are processed in order; an entry
     * without a URL is skipped, and every other one starts a task of its own
     * with the visited set cleared, crawling from its URL to its depth
     * (default 1) under its 1-based position as index. The new state is what
     * Run describes.
     */
    method ScrapeAll(net: Net, configs: seq<Config>)
      requires Valid()
      modifies this
      ensures Valid()
      ensures var o := Run(net, configs, |configs|, old(visited));
        visited == o.visited && emitted == old(emitted) + o.log && paths == old(paths) + o.paths
      // documents stay within their entries' depths, entries come in order, each
      // entry's seed is logged, and no URL repeats within an entry (see TasksDone)
      ensures TasksDone(configs, |configs|, |old(emitted)|, emitted, paths)
      // no two documents of the run share a name
      ensures forall k, m :: |old(emitted)| <= k < m < |emitted| ==> emitted[k].name != emitted[m].name
    {
      for i := 0 to |configs|
        invariant Valid()
        invariant var o := Run(net, configs, i, old(visited));
          visited == o.visited && emitted == old(emitted) + o.log && paths == old(paths) + o.paths
      {
        var idx := i + 1;
        var config := configs[i];
        var depth := DepthOf(config);
        if config.url.None? || config.url.value == "" {
          continue;
        }
        var url := config.url.value;
        visited := {};
        ghost var before := Run(net, configs, i, old(visited));
        ScrapeRecursive(net, url, depth, 0, Decimal(idx), [idx]);
        ghost var c := Crawl(net, url, depth, 0, [idx], {});
        AppendAssoc(old(emitted), before.log, c.log);
        AppendAssoc(old(paths), before.paths, c.paths);
      }
      RunTasksDone(net, configs, |configs|, old(visited), old(emitted), old(paths));
      AllTasksDone(configs, |old(emitted)|, emitted, paths);
    }
  }

  /** A node path of entry number p[0] (1-based) among entries 1..i, which has a URL, within its depth. */
  predicate InTask(configs: seq<Config>, i: nat, p: seq<nat>)
  {
    |p| >= 1 && 1 <= p[0] <= i && i <= |configs| && HasUrl(configs[p[0] - 1]) && |p| <= DepthOf(configs[p[0] - 1])
  }

  /** Each document from n0 on belongs to one of entries 0..i-1 that has a URL, within that entry's depth. */
  ghost predicate InTasks(configs: seq<Config>, i: nat, n0: nat, ps: seq<seq<nat>>)
  {
    i <= |configs| && forall k :: n0 <= k < |ps| ==> InTask(configs, i, ps[k])
  }

  /** The documents from n0 on come entry by entry, and no two have the same node path. */
  ghost predicate TasksOrdered(n0: nat, ps: seq<seq<nat>>)
  {
    && (forall k :: n0 <= k < |ps| ==> |ps[k]| >= 1)
    && (forall k, m :: n0 <= k < m < |ps| ==> ps[k][0] <= ps[m][0] && ps[k] != ps[m])
  }

  /** Within one entry, no URL has two documents. */
  ghost predicate UrlsDistinctPerTask(n0: nat, log: seq<Emission>, ps: seq<seq<nat>>)
  {
    && |log| == |ps| && (forall k :: n0 <= k < |ps| ==> |ps[k]| >= 1)
    && (forall k, m :: n0 <= k < m < |log| && ps[k][0] == ps[m][0] ==> log[k].record.url != log[m].record.url)
  }

  /** Every entry among 0..i-1 with a URL and a positive depth has its seed document. */
  ghost predicate SeedsLogged(configs: seq<Config>, i: nat, n0: nat, log: seq<Emission>, ps: seq<seq<nat>>)
  {
    && i <= |configs| && |log| == |ps|
    && (forall j :: 0 <= j < i && HasUrl(configs[j]) && DepthOf(configs[j]) >= 1 ==>
          exists k :: n0 <= k < |log| && ps[k] == [j + 1] && log[k].record.url == configs[j].url.value)
  }

  /** What scrape_all has produced, from log position n0 on, once entries 0..i-1 are processed. */
  ghost predicate TasksDone(configs: seq<Config>, i: nat, n0: nat, log: seq<Emission>, ps: seq<seq<nat>>)
  {
    && n0 <= |log| == |ps|
    && InTasks(configs, i, n0, ps)
    && TasksOrdered(n0, ps)
    && UrlsDistinctPerTask(n0, log, ps)
    && SeedsLogged(configs, i, n0, log, ps)
  }

  /**
   * Once every entry is processed, the documents of the run have distinct
   * names, and TasksDone says what ScrapeAll promises.
   */
  lemma AllTasksDone(configs: seq<Config>, n0: nat, log: seq<Emission>, ps: seq<seq<nat>>)
    requires TasksDone(configs, |configs|, n0, log, ps)
    requires forall k :: 0 <= k < |log| ==> |ps[k]| >= 1 && log[k].name == PdfName(ps[k])
    ensures forall k, m :: n0 <= k < m < |log| ==> log[k].name != log[m].name
  {
    forall k, m | n0 <= k < m < |log|
      ensures log[k].name != log[m].name
    {
      PdfNameInjective(ps[k], ps[m]);
    }
  }

  /** An entry without a URL adds nothing and breaks nothing. */
  lemma TaskSkipped(configs: seq<Config>, i: nat, n0: nat, log: seq<Emission>, ps: seq<seq<nat>>)
    requires i < |configs| && !HasUrl(configs[i])
    requires TasksDone(configs, i, n0, log, ps)
    ensures TasksDone(configs, i + 1, n0, log, ps)
  {
  }

  /** What CallEffect says about the crawl of one configuration entry, from node [i + 1] with nothing visited. */
  lemma TaskCrawl(net: Net, url: string, depth: int, i: nat,
                  log: seq<Emission>, ps: seq<seq<nat>>, v: set<string>, log': seq<Emission>, ps': seq<seq<nat>>)
    requires CallEffect(net, url, depth, 0, [i + 1], {}, log, ps, v, log', ps')
    ensures |log| <= |log'| == |ps'| && |ps| <= |ps'| && log'[..|log|] == log && ps'[..|ps|] == ps
    ensures forall k :: |log| <= k < |log'| ==> |ps'[k]| >= 1 && ps'[k][0] == i + 1 && |ps'[k]| <= depth
    ensures forall k, m :: |log| <= k < m < |log'| ==> ps'[k] != ps'[m] && log'[k].record.url != log'[m].record.url
    ensures depth > 0 ==> |log'| > |log| && ps'[|log|] == [i + 1] && log'[|log|].record.url == url
  {
    forall k | |log| <= k < |log'|
      ensures |ps'[k]| >= 1 && ps'[k][0] == i + 1 && |ps'[k]| <= depth
    {
      assert ps'[k][..1] == [i + 1];
    }
  }

  lemma AppendInTasks(configs: seq<Config>, i: nat, n0: nat, n1: nat, ps: seq<seq<nat>>, ps': seq<seq<nat>>)
    requires i < |configs| && HasUrl(configs[i]) && n0 <= n1 == |ps| <= |ps'|
    requires InTasks(configs, i, n0, ps)
    requires forall k :: 0 <= k < n1 ==> ps'[k] == ps[k]
    requires forall k :: n1 <= k < |ps'| ==> |ps'[k]| >= 1 && ps'[k][0] == i + 1 && |ps'[k]| <= DepthOf(configs[i])
    ensures InTasks(configs, i + 1, n0, ps')
  {
  }

  lemma AppendOrdered(i: nat, n0: nat, n1: nat, ps: seq<seq<nat>>, ps': seq<seq<nat>>)
    requires n0 <= n1 == |ps| <= |ps'|
    requires TasksOrdered(n0, ps)
    requires forall k :: n0 <= k < n1 ==> ps[k][0] <= i
    requires forall k :: 0 <= k < n1 ==> ps'[k] == ps[k]
    requires forall k :: n1 <= k < |ps'| ==> |ps'[k]| >= 1 && ps'[k][0] == i + 1
    requires forall k, m :: n1 <= k < m < |ps'| ==> ps'[k] != ps'[m]
    ensures TasksOrdered(n0, ps')
  {
    forall k, m | n0 <= k < m < |ps'|
      ensures ps'[k][0] <= ps'[m][0] && ps'[k] != ps'[m]
    {
      if k < n1 <= m {
        assert ps'[k][0] <= i < ps'[m][0];
      }
    }
  }

  lemma AppendUrlsDistinct(i: nat, n0: nat, n1: nat, log: seq<Emission>, ps: seq<seq<nat>>,
                           log': seq<Emission>, ps': seq<seq<nat>>)
    requires n0 <= n1 == |ps| <= |ps'| == |log'| && |log| == n1
    requires UrlsDistinctPerTask(n0, log, ps)
    requires forall k :: n0 <= k < n1 ==> ps[k][0] <= i
    requires forall k :: 0 <= k < n1 ==> ps'[k] == ps[k] && log'[k] == log[k]
    requires forall k :: n1 <= k < |ps'| ==> |ps'[k]| >= 1 && ps'[k][0] == i + 1
    requires forall k, m :: n1 <= k < m < |log'| ==> log'[k].record.url != log'[m].record.url
    ensures UrlsDistinctPerTask(n0, log', ps')
  {
    forall k, m | n0 <= k < m < |log'|
      ensures ps'[k][0] == ps'[m][0] ==> log'[k].record.url != log'[m].record.url
    {
      if k < n1 <= m {
        assert ps'[k][0] <= i < ps'[m][0];
      }
    }
  }

  lemma AppendSeeds(url: string, configs: seq<Config>, i: nat, n0: nat, n1: nat, log: seq<Emission>, ps: seq<seq<nat>>,
                    log': seq<Emission>, ps': seq<seq<nat>>)
    requires i < |configs| && HasUrl(configs[i]) && url == configs[i].url.value
    requires n0 <= n1 == |ps| <= |ps'| == |log'| && |log| == n1
    requires SeedsLogged(configs, i, n0, log, ps)
    requires forall k :: 0 <= k < n1 ==> ps'[k] == ps[k] && log'[k] == log[k]
    requires DepthOf(configs[i]) > 0 ==> |log'| > n1 && ps'[n1] == [i + 1] && log'[n1].record.url == url
    ensures SeedsLogged(configs, i + 1, n0, log', ps')
  {
    forall j | 0 <= j < i + 1 && HasUrl(configs[j]) && DepthOf(configs[j]) >= 1
      ensures exists k :: n0 <= k < |log'| && ps'[k] == [j + 1] && log'[k].record.url == configs[j].url.value
    {
      if j < i {
        var k :| n0 <= k < |log| && ps[k] == [j + 1] && log[k].record.url == configs[j].url.value;
        assert ps'[k] == [j + 1] && log'[k].record.url == configs[j].url.value;
      } else {
        assert ps'[n1] == [j + 1] && log'[n1].record.url == configs[j].url.value;
      }
    }
  }

  /** Appending the crawl of entry i (1-based index i + 1) keeps what ScrapeAll promises about entries 0..i. */
  lemma {:induction false} TaskAppended(url: string, configs: seq<Config>, i: nat, depth: int, n0: nat,
                       log: seq<Emission>, ps: seq<seq<nat>>, log': seq<Emission>, ps': seq<seq<nat>>)
    requires i < |configs| && HasUrl(configs[i]) && url == configs[i].url.value && depth == DepthOf(configs[i])
    requires TasksDone(configs, i, n0, log, ps)
    requires |log| <= |log'| == |ps'| && |ps| <= |ps'| && log'[..|log|] == log && ps'[..|ps|] == ps
    requires forall k :: |log| <= k < |log'| ==> |ps'[k]| >= 1 && ps'[k][0] == i + 1 && |ps'[k]| <= depth
    requires forall k, m :: |log| <= k < m < |log'| ==> ps'[k] != ps'[m] && log'[k].record.url != log'[m].record.url
    requires depth > 0 ==> |log'| > |log| && ps'[|log|] == [i + 1] && log'[|log|].record.url == url
    ensures TasksDone(configs, i + 1, n0, log', ps')
  {
    var n1 := |log|;
    assert forall k :: 0 <= k < n1 ==> log'[k] == log[k] && ps'[k] == ps[k] by {
      forall k | 0 <= k < n1 ensures log'[k] == log[k] && ps'[k] == ps[k] {
        assert log'[..n1][k] == log'[k] && ps'[..n1][k] == ps'[k];
      }
    }
    assert forall k :: n0 <= k < n1 ==> ps[k][0] <= i;
    AppendInTasks(configs, i, n0, n1, ps, ps');
    AppendOrdered(i, n0, n1, ps, ps');
    AppendUrlsDistinct(i, n0, n1, log, ps, log', ps');
    AppendSeeds(url, configs, i, n0, n1, log, ps, log', ps');
  }

  /** One iteration of scrape_all's loop over a configuration entry with a URL keeps TasksDone. */
  lemma TaskStep(net: Net, url: string, configs: seq<Config>, i: nat, depth: int, n0: nat,
                 log: seq<Emission>, ps: seq<seq<nat>>, v: set<string>, log': seq<Emission>, ps': seq<seq<nat>>)
    requires i < |configs| && HasUrl(configs[i]) && url == configs[i].url.value && depth == DepthOf(configs[i])
    requires TasksDone(configs, i, n0, log, ps)
    requires CallEffect(net, url, depth, 0, [i + 1], {}, log, ps, v, log', ps')
    ensures TasksDone(configs, i + 1, n0, log', ps')
    ensures |log'| >= |log| >= n0 && log'[..n0] == log[..n0]
  {
    TaskCrawl(net, url, depth, i, log, ps, v, log', ps');
    TaskAppended(url, configs, i, depth, n0, log, ps, log', ps');
    assert log'[..n0] == log'[..|log|][..n0];
  }

  /** What Run produces after the documents log0 keeps what ScrapeAll promises (see TasksDone). */
  lemma {:induction false} RunTasksDone(net: Net, configs: seq<Config>, i: nat, v: set<string>,
                                        log0: seq<Emission>, ps0: seq<seq<nat>>)
    requires i <= |configs| && |log0| == |ps0|
    ensures TasksDone(configs, i, |log0|, log0 + Run(net, configs, i, v).log, ps0 + Run(net, configs, i, v).paths)
  {
    if i == 0 {
      assert log0 + [] == log0 && ps0 + [] == ps0;
    } else {
      RunTasksDone(net, configs, i - 1, v, log0, ps0);
      if !HasUrl(configs[i - 1]) {
        RunSkipped(net, configs, i, v, log0, ps0);
      } else {
        RunCrawled(net, configs, i, v, log0, ps0);
      }
    }
  }

  /** Run steps over an entry without a URL without breaking TasksDone. */
  lemma RunSkipped(net: Net, configs: seq<Config>, i: nat, v: set<string>, log0: seq<Emission>, ps0: seq<seq<nat>>)
    requires 0 < i <= |configs| && |log0| == |ps0| && !HasUrl(configs[i - 1])
    requires TasksDone(configs, i - 1, |log0|, log0 + Run(net, configs, i - 1, v).log, ps0 + Run(net, configs, i - 1, v).paths)
    ensures TasksDone(configs, i, |log0|, log0 + Run(net, configs, i, v).log, ps0 + Run(net, configs, i, v).paths)
  {
    var before := Run(net, configs, i - 1, v);
    assert Run(net, configs, i, v) == before;
    TaskSkipped(configs, i - 1, |log0|, log0 + before.log, ps0 + before.paths);
  }

  /** Run steps over an entry with a URL, appending its crawl, without breaking TasksDone. */
  lemma RunCrawled(net: Net, configs: seq<Config>, i: nat, v: set<string>, log0: seq<Emission>, ps0: seq<seq<nat>>)
    requires 0 < i <= |configs| && |log0| == |ps0| && HasUrl(configs[i - 1])
    requires TasksDone(configs, i - 1, |log0|, log0 + Run(net, configs, i - 1, v).log, ps0 + Run(net, configs, i - 1, v).paths)
    ensures TasksDone(configs, i, |log0|, log0 + Run(net, configs, i, v).log, ps0 + Run(net, configs, i, v).paths)
  {
    var before := Run(net, configs, i - 1, v);
    var log, ps := log0 + before.log, ps0 + before.paths;
    var url, depth := configs[i - 1].url.value, DepthOf(configs[i - 1]);
    var c := Crawl(net, url, depth, 0, [i], {});
    CrawlEffect(net, url, depth, 0, [i], {}, log, ps);
    TaskStep(net, url, configs, i - 1, depth, |log0|, log, ps, c.visited, log + c.log, ps + c.paths);
    AppendAssoc(log0, before.log, c.log);
    AppendAssoc(ps0, before.paths, c.paths);
    assert Run(net, configs, i, v) == Outcome(c.visited, before.log + c.log, before.paths + c.paths);
  }
}
