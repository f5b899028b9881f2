# PDF web scraper — a verified model of its crawl core

The scraper reads a list of configuration entries, each holding a URL and a crawl
depth ("profundidad"). For each entry it crawls the site depth-first from that URL:
- It fetches the page.
- It extracts the title, the h1..h6 headings, the non-empty paragraphs, the links and
  the child URLs. A child URL is a resolved link that is http(s), on the same network
  location, and not yet visited.
- It writes one PDF document per page, named `web{index}.pdf`. The index is the
  dash-joined path of 1-based positions leading to the node: the entry's position,
  then the child's position under its parent, and so on.
- It recurses into the child URLs until the depth is reached.

Every entry starts with an empty visited set.

Inside each document, text passes through a cleaner:
- it escapes the XML special characters;
- it drops NUL characters;
- it collapses whitespace to single spaces.

The links section groups the page's links by their text, keeps the shortest URL for
each text, and shows at most 30 of them.

A companion module, the spreadsheet downloader, decides two things from the URL and
the response's content-type:
- whether the download is an old XLS workbook that must be converted;
- which `.xlsx` name it is saved under.

The Dafny project is organised as follows.

| file | module | what it holds |
|---|---|---|
| `wrappers.dfy` | `Wrappers` | `Option` |
| `node_index.dfy` | `NodeIndex` | Decimal writing, node indices and document names. Distinct nodes get distinct names. |
| `page.dfy` | `Page` | The page as a sequence of parsed elements, and the fetch, URL-join and URL-split collaborators as the functions of a `Net` value. Reference definitions of what a page record holds, with lemmas about them. |
| `extractor.dfy` | `Extractor` | The extraction loops of `scrape_url`, proved equal to the reference definitions. |
| `crawler.dfy` | `Crawler` | Class `PDFWebScraper` (visited set, log of `create_pdf` calls), and `scrape_url`, `scrape_recursive` and `scrape_all` with their whole-run guarantees. |
| `pdf_text.dfy` | `PdfText` | `_clean_text_for_pdf` and what it guarantees. |
| `pdf_links.dfy` | `PdfLinks` | The link grouping and 30-link cap of `create_pdf`. |
| `xlsx_processor.dfy` | `XlsxProcessor` | The name and format decision of `xlsx_url_to_temp_file`. |

The crawler's documents are modelled as a log of `create_pdf` calls, each holding
the name and the page record. A ghost field keeps the node path each name was built
from. The recursive crawl and the entry loop are proved to leave exactly the state
described by the reference definitions `Crawl`, `CrawlChildren` and `Run`. Their
properties are proved as lemmas about those definitions.

## Model

| member | source | states |
|---|---|---|
| NodeIndex.DigitChar | scrapper.py:486-490 | The character for a digit value below 10 is a decimal digit. |
| NodeIndex.Decimal | scrapper.py:523 | `str(n)` of a natural number is non-empty, all decimal digits, and has no leading zero unless it is `0`. |
| NodeIndex.DecimalRoundTrip | scrapper.py:523 | Reading `str(n)` back as a decimal number gives `n`. |
| NodeIndex.DecimalInjective | scrapper.py:486-490 | Distinct numbers have distinct decimal forms. |
| NodeIndex.Index | scrapper.py:486-490 | A node index contains a dash exactly when the node is below an entry's root. |
| NodeIndex.IndexOfChild | scrapper.py:486-490 | The index of child number i is the parent's index + "-" + str(i), as `child_index` is built. |
| NodeIndex.LastDash | scrapper.py:486-490 | The position of the last dash lies within the string, or is -1. |
| NodeIndex.LastDashBeforeTail | scrapper.py:486-490 | In `b-y` with a dash-free `y`, the last dash is the one after `b`. |
| NodeIndex.SplitAtLastDash | scrapper.py:486-490 | A string splits in only one way into a prefix, a dash and a dash-free tail. |
| NodeIndex.IndexInjective | scrapper.py:486-490 | Distinct node paths give distinct index strings. |
| NodeIndex.PdfNameInjective | scrapper.py:470-479 | Two nodes share a document name `web{index}.pdf` exactly when they are the same node. |
| Page.OfLevelAppend | scrapper.py:101-105 | Taking the headings of one level distributes over concatenation. |
| Page.UpToLevelSplit | scrapper.py:101-105 | As a multiset, the headings of levels 1..top are those of 1..top-1 plus those of level top. |
| Page.HeadingsOfLevelHaveLevel | scrapper.py:101-105 | Every heading found by searching `h{i}` is recorded with level i. |
| Page.OfOtherLevel | scrapper.py:101-105 | Searching `h{i}` finds nothing of another level. |
| Page.HeadingsOfLevelInDocumentOrder | scrapper.py:101-105 | Searching `h{i}` yields exactly the page's level-i headings, in document order. |
| Page.OfLevelUpTo | scrapper.py:101-105 | After the levels 1..top have been searched, the level-i headings are present exactly when i <= top, in document order. |
| Page.HeadingsKeepDocumentOrderWithinLevel | scrapper.py:101-105 | Within each level, the record's headings keep document order. |
| Page.HeadingsUpToPermutation | scrapper.py:101-105 | The headings of levels 1..top, searched level by level, are a permutation of the page's headings of those levels. |
| Page.UpToLevelNone | scrapper.py:101-105 | No heading has a level between 1 and 0. |
| Page.DocumentHeadingsInRange | scrapper.py:101-105 | Every h1..h6 heading of the page has a level in 1..6. |
| Page.HeadingsArePermutation | scrapper.py:101-105 | The record's headings are the page's h1..h6 headings, each exactly once. |
| Page.ConcatByLevel | scrapper.py:101-105 | Adding the level-top headings after level-sorted lower levels keeps the sequence sorted by level. |
| Page.HeadingsUpToSorted | scrapper.py:101-105 | After the levels 1..top have been searched, the headings are sorted by level, and every level is in 1..top. |
| Page.HeadingsSortedByLevel | scrapper.py:101-105 | The record's headings are sorted by level ascending, and every level is in 1..6. |
| Page.ParagraphSourcesMatch | scrapper.py:108-111 | Each recorded paragraph j is the text of the `<p>` element at position `ParagraphSources(elems)[j]`. These positions strictly increase, so paragraphs keep document order. Every `<p>` element with a non-empty text is among them. |
| Page.ParagraphsNonEmptyAndComplete | scrapper.py:108-111 | No recorded paragraph is empty, every recorded paragraph is the text of some `<p>` element, and every non-empty `<p>` text of the page is recorded. |
| Page.LinksOnePerAnchor | scrapper.py:114-119 | Each `<a href>` yields exactly one link, in order. Its URL is urljoin(page, href), its text is the anchor text or "Link", and that text is never empty. |
| Page.ChildUrlsExact | scrapper.py:121-128 | A URL is a child exactly when it is a link's resolved URL that is http(s), on the page's domain (`_same_domain`, 136-138) and not visited. |
| Page.NotOwnChild | scrapper.py:73-76 | Because the page's URL is marked visited before extraction, a page never lists itself as a child. |
| Page.Scrape | scrapper.py:66-134 | The record carries the URL. It is an error record, with the fetch's message, exactly when the fetch fails. Every child URL passes the child test. |
| Extractor.CollectHeadings | scrapper.py:101-105 | The nested level/tag loops compute the record's headings (`Page.Headings`). |
| Extractor.CollectParagraphs | scrapper.py:108-111 | The paragraph loop computes `Page.Paragraphs`. |
| Extractor.CollectLinks | scrapper.py:114-128 | The link loop computes the links and the child URLs (`Page.Links`, `Page.ChildUrls`). |
| Crawler.CrawledSeed | scrapper.py:470-479 | A node's own document, just written, is a crawl from that node. |
| Crawler.AppendFresh | scrapper.py:482-494 | Two consecutive stretches of fresh, once-each URLs compose into one. |
| Crawler.AppendOnDomain | scrapper.py:482-494 | A child's crawl stays on the parent's domain. |
| Crawler.AppendChildSubtree | scrapper.py:482-494 | Child i's documents lie under node path + [i] and are distinct from the earlier children's. |
| Crawler.AppendSubtree | scrapper.py:482-494 | Appending child i's crawl extends the parent's crawl. |
| Crawler.NextChild | scrapper.py:483-494 | One iteration of the child loop keeps the loop's state of children crawled so far. |
| Crawler.NodeSkipped | scrapper.py:462-463 | A URL at or beyond the depth limit, or already visited, changes nothing. |
| Crawler.ChildrenStart | scrapper.py:479-482 | Right after a node's document is written, the child loop's state holds with no child crawled yet. |
| Crawler.NodeDone | scrapper.py:452-494 | A node whose document is written and whose children are crawled meets `CallEffect`. That is: its own document comes first; every URL written is fresh and written once, on its domain; its node paths stay within its subtree; and below it the documents come child by child, in child order. |
| Crawler.CrawlEffect | scrapper.py:452-494 | The reference crawl `Crawl` meets `CallEffect`: earlier documents are kept, and skipped nodes add nothing. A crawled node's first document is its own, and on the last level or after a failed fetch it is the only one. Every URL written is fresh and written once, on the seed's domain. Node paths are distinct and within the depth. Below the node the documents come child by child, in child order. |
| Crawler.ChildrenEffect | scrapper.py:482-494 | After the reference child loop has crawled n children, the child-loop state holds for children 1..n. |
| Crawler.CrawlVisits | scrapper.py:452-494 | A crawl only adds to the visited set, and a URL above the depth limit is visited once the crawl returns. |
| Crawler.ChildrenVisited | scrapper.py:482-494 | The child loop only adds to the visited set, and every child URL it has reached is visited afterwards. |
| Crawler.ChildStep | scrapper.py:483-494 | In the reference child loop, appending child n's crawl to the first n - 1 children keeps the child-loop state. |
| Crawler.ChildFirst | scrapper.py:483-494 | Step j of the child loop keeps the earlier documents. A child URL already visited adds nothing. Otherwise the next document is child j's own, named after node path + [j] and holding its record scraped against the visited set at that point. |
| Crawler.DescendsIntoChildren | scrapper.py:482-494 | A node above the last level whose fetch succeeds descends into its children. Every child URL of its record differs from the node's URL and gets a document in the node's crawl. |
| Crawler.PDFWebScraper.constructor | scrapper.py:31 | The scraper starts with nothing visited and nothing written. |
| Crawler.PDFWebScraper.ScrapeUrl | scrapper.py:66-134 | A visited URL yields None and changes nothing. Any other URL is marked visited before the fetch, so it stays marked on failure. It yields the page record, whose children are filtered against the visited set that already includes it. |
| Crawler.PDFWebScraper.CreatePdf | scrapper.py:479 | Exactly one document, with the given name and record, is added to the log. |
| Crawler.PDFWebScraper.ScrapeRecursive | scrapper.py:452-494 | The visited set becomes the one `Crawl` leaves, and the documents `Crawl` lists are appended to the log. `Crawl` is the reference definition: skip at the depth limit or when already visited; otherwise the node's own document, then, above the last level after a successful fetch, the children in order one level deeper. Its properties are `CrawlEffect`, `DescendsIntoChildren` and `ChildFirst`. |
| Crawler.PDFWebScraper.ScrapeChildren | scrapper.py:482-494 | The child loop leaves the state `CrawlChildren` describes. Child i (1-based, in record order) is crawled one level deeper under index `parent-i`, from the visited set the earlier children left, with its documents after theirs. |
| Crawler.PDFWebScraper.ScrapeChild | scrapper.py:483-494 | One iteration of the child loop crawls child idx one level deeper, under index `parent-idx`, and leaves the state `CrawlChildren` describes for the first idx children. |
| Crawler.PDFWebScraper.ScrapeAll | scrapper.py:496-528 | The new state is what `Run` describes: entries in order, an entry without a URL skipped, and every other entry crawled by `Crawl` to its own depth (default 1) from node [position] with the visited set cleared. Each entry's documents lie within its depth under its 1-based position, and its seed URL gets a document when its depth is positive. No URL is written twice within one entry. No two documents of the run share a name. |
| Crawler.AllTasksDone | scrapper.py:496-528 | Once all entries are processed, the documents of the run have pairwise distinct names. |
| Crawler.TaskSkipped | scrapper.py:511-513 | An entry without a URL adds nothing and keeps the run's guarantees. |
| Crawler.TaskCrawl | scrapper.py:520-523 | Crawling an entry from an empty visited set writes documents under its position only. They stay within its depth, have distinct paths and distinct URLs, and start with the seed when the depth is positive. |
| Crawler.AppendInTasks | scrapper.py:507-523 | Adding an entry's documents keeps every document within its own entry's depth. |
| Crawler.AppendOrdered | scrapper.py:507-523 | Adding an entry's documents keeps the documents grouped by entry in order, with distinct node paths. |
| Crawler.AppendUrlsDistinct | scrapper.py:520-523 | Adding an entry's documents keeps URLs distinct within each entry. |
| Crawler.AppendSeeds | scrapper.py:520-523 | Adding an entry's documents keeps every earlier entry's seed document and adds this entry's seed document. |
| Crawler.TaskAppended | scrapper.py:507-523 | Appending entry i's crawl keeps the run's guarantees for entries 0..i. |
| Crawler.TaskStep | scrapper.py:507-525 | One iteration of the entry loop keeps the run's guarantees and the documents already written. |
| Crawler.RunTasksDone | scrapper.py:496-528 | Whatever `Run` writes after earlier documents keeps the run's guarantees: within each entry's depth, grouped by entry in order, seeds written, and no URL repeated within an entry. |
| Crawler.RunSkipped | scrapper.py:511-513 | `Run` over an entry without a URL keeps the run's guarantees. |
| Crawler.RunCrawled | scrapper.py:515-523 | `Run` over an entry with a URL appends its crawl and keeps the run's guarantees. |
| PdfText.FirstWord | scrapper.py:448 | The first word is the longest whitespace-free prefix. It is empty exactly when the text is empty or starts blank. |
| PdfText.Split | scrapper.py:448 | `str.split()` yields non-empty whitespace-free words, and at least one word when the text starts with a non-space character. |
| PdfText.ReplaceSingle | scrapper.py:435-445 | `str.replace` of a one-character pattern replaces every occurrence of that character. |
| PdfText.SubstAppend | scrapper.py:435-445 | Replacing a character distributes over concatenation. |
| PdfText.SubstAbsent | scrapper.py:435-445 | Replacing a character that does not occur changes nothing. |
| PdfText.SubstRemoves | scrapper.py:442 | Replacing a character with "" removes every occurrence of it. |
| PdfText.EscapeAppend | scrapper.py:435-439 | Escaping distributes over concatenation. |
| PdfText.SubstChainAppend | scrapper.py:435-439 | The five replacements distribute over concatenation. |
| PdfText.SubstSingle | scrapper.py:435-439 | On one character, a replacement gives the replacement text or the character itself. |
| PdfText.EntityStays | scrapper.py:436-439 | An entity produced by an earlier replacement is left alone by the later ones. |
| PdfText.SubstChainSingle | scrapper.py:435-439 | The five replacements turn one character into its entity, with no double escaping. |
| PdfText.SubstChainIsEscapeXml | scrapper.py:435-439 | The five replacements are character-by-character XML escaping. |
| PdfText.EscapeChainIsEscapeXml | scrapper.py:435-439 | The source's `str.replace` chain, ampersand first, is character-by-character XML escaping. |
| PdfText.PrefixDiffers | scrapper.py:435-439 | A text that differs from an entity at some position does not start with it. |
| PdfText.UnescapeEsc | scrapper.py:435-439 | An XML reader reads one escaped character back as that character. |
| PdfText.UnescapeEscape | scrapper.py:435-439 | Unescaping undoes escaping for every string. |
| PdfText.EscapeXmlNoMarkup | scrapper.py:435-439 | Escaped text contains no `<`, `>`, `"` or `'`. |
| PdfText.EscapeXmlNul | scrapper.py:435-442 | Escaping creates no NUL. |
| PdfText.EscRemoveNul | scrapper.py:442 | Dropping NULs from one character's escape drops the character exactly when it is NUL. |
| PdfText.RemoveNulEscape | scrapper.py:435-442 | Removing NULs after escaping equals escaping after removing NULs. |
| PdfText.SplitBlankHead | scrapper.py:448 | A leading whitespace character adds no word. |
| PdfText.SplitCons | scrapper.py:448 | A leading non-space character starts a new first word, or extends the existing one. |
| PdfText.SplitWordCons | scrapper.py:448 | A leading whitespace-free run starts a new first word, or extends the existing one. |
| PdfText.SplitSameCons | scrapper.py:448 | Texts with the same words and the same leading blankness keep both after one more character in front. |
| PdfText.SplitCrLf | scrapper.py:443 | Replacing each "\r\n" with a space changes neither the words nor the leading blankness. |
| PdfText.SplitSubstBlank | scrapper.py:444-445 | Replacing a whitespace character with a space changes neither the words nor the leading blankness. |
| PdfText.EscSolid | scrapper.py:435-439 | A non-space character escapes to a non-empty whitespace-free string. |
| PdfText.EscapeSolid | scrapper.py:435-439 | Escaping a word gives a word. |
| PdfText.EscapeWordsSolid | scrapper.py:448 | Escaping a list of words escapes each word and gives words. |
| PdfText.EscapeCons | scrapper.py:435-439 | Escaping a character followed by text is its entity followed by the escaped text. |
| PdfText.EscapeWordsCons | scrapper.py:448 | Escaping a list of words distributes over cons. |
| PdfText.EscSpace | scrapper.py:435-439 | Escaping leaves whitespace characters unchanged. |
| PdfText.SplitBlankStep | scrapper.py:448 | A leading whitespace character keeps "split the escaped text = escape the words". |
| PdfText.EscapeOne | scrapper.py:435-439 | Escaping a one-character string gives that character's entity. |
| PdfText.EscapeSplitWord | scrapper.py:448 | A leading non-space character keeps "split the escaped text = escape the words". |
| PdfText.EscapeSplit | scrapper.py:435-448 | Splitting after escaping is escaping each word after splitting, and escaping keeps leading blankness. |
| PdfText.JoinEscape | scrapper.py:448 | Joining the escaped words with spaces is escaping the joined text. |
| PdfText.JoinNormalized | scrapper.py:448 | Joining words with single spaces gives text with no leading, trailing or repeated whitespace, and no whitespace other than ' '. |
| PdfText.StripNormalized | scrapper.py:450 | `strip()` leaves normalized text unchanged. |
| PdfText.NonSpaceAppend | scrapper.py:448 | The non-space characters of a concatenation are those of each part, in order. |
| PdfText.NonSpaceOfSpaceFree | scrapper.py:448 | A whitespace-free text is its own non-space content. |
| PdfText.NonSpaceMember | scrapper.py:448 | A non-space character occurs in a text exactly when it occurs among the text's non-space characters. |
| PdfText.SplitConcat | scrapper.py:448 | The words of a text hold exactly its non-space characters, in order. |
| PdfText.JoinNonSpace | scrapper.py:448 | Joining words with spaces loses no non-space character. |
| PdfText.CollapseWhitespace | scrapper.py:448 | `" ".join(s.split())` is normalized and keeps every non-space character of s, in order. |
| PdfText.CleanTextWords | scrapper.py:425-450 | The cleaned text is the NUL-free input's words, each escaped, joined with single spaces. |
| PdfText.CleanTextIsEscapedCollapse | scrapper.py:425-450 | The cleaned text is the XML escape of the NUL-free input with its whitespace collapsed. |
| PdfText.CleanTextRoundTrip | scrapper.py:425-450 | An XML reader gets back the NUL-free input with whitespace collapsed, and every non-space, non-NUL character of the input is kept, in order. |
| PdfText.CleanTextSafe | scrapper.py:425-450 | The cleaned text contains no `<`, `>`, `"`, `'` or NUL, and has no leading, trailing or repeated whitespace. |
| PdfLinks.Dedupe | scrapper.py:357-364 | Every listed key of the grouped table has a URL. |
| PdfLinks.FirstAt | scrapper.py:357-364 | The first position of a key: the link there has that key, and no earlier link does. |
| PdfLinks.GroupLinks | scrapper.py:357-364 | The grouping loop computes `Dedupe(links)` and yields a well-formed dictionary: distinct keys, with the key order and the map agreeing. |
| PdfLinks.InsertWellFormed | scrapper.py:361-364 | One dictionary assignment keeps the dictionary well formed. |
| PdfLinks.DedupeWellFormed | scrapper.py:357-364 | The grouped dictionary never lists a text twice. |
| PdfLinks.KeysOfSnoc | scrapper.py:358-359 | The keys of the links grow by the key of each link read. |
| PdfLinks.DedupeKeys | scrapper.py:357-364 | The dictionary's texts are exactly the texts of the links (`link["text"] or "Link"`). |
| PdfLinks.DedupeKeyOccurs | scrapper.py:357-364 | Every text in the dictionary is some link's text. |
| PdfLinks.DedupeKeyAbsent | scrapper.py:357-364 | A text missing from the dictionary belongs to no link. |
| PdfLinks.KeptExtend | scrapper.py:361-364 | A kept URL stays kept when the next link does not have a strictly shorter one. |
| PdfLinks.KeptReplace | scrapper.py:361-364 | A strictly shorter URL under the same text replaces the kept one. |
| PdfLinks.KeptFirst | scrapper.py:361-364 | The first URL seen for a text is kept. |
| PdfLinks.DedupeShortest | scrapper.py:357-364 | Each text's URL is the shortest among its links, and ties go to the earliest. |
| PdfLinks.FirstAtExtend | scrapper.py:357-364 | Reading one more link leaves the first position of a text already seen unchanged. |
| PdfLinks.FirstAtNew | scrapper.py:357-364 | A text not seen before first appears at the link being read. |
| PdfLinks.OrderExtend | scrapper.py:357-364 | Texts in first-appearance order stay so when one more link is read. |
| PdfLinks.OrderAppend | scrapper.py:357-364 | A text that first appears after all listed texts may be listed after them. |
| PdfLinks.InsertOrder | scrapper.py:361-364 | One assignment keeps first-appearance order. A replaced URL keeps its text's position, as with Python dicts. |
| PdfLinks.DedupeOrder | scrapper.py:357-364 | The dictionary lists its texts in the order in which they first appear among the links. |
| PdfLinks.Take | scrapper.py:367-369 | `list(items())[:30]` is the first n entries, or all of them when there are fewer. |
| PdfLinks.RenderedSnoc | scrapper.py:367-377 | The lines of one more entry are the earlier lines followed by that entry's line, if it has one. |
| PdfLinks.RenderLinks | scrapper.py:367-377 | The display loop writes one bullet per entry among the first 30 whose text and URL are non-empty. The bullet is the bare URL when the text equals the URL or is "Link"; otherwise it is the cleaned text in bold followed by the URL. |
| PdfLinks.ShowsSnoc | scrapper.py:367-377 | A line is shown for p + [k] exactly when it is shown for p or it is k's line. |
| PdfLinks.RenderedLines | scrapper.py:367-377 | There are at most as many lines as entries, and a line is written exactly when some listed entry with a non-empty text and URL displays as it. |
| PdfLinks.LinkSection | scrapper.py:356-377 | The links section groups and then displays. It has at most 30 lines, and each line is exactly the display of one of the first 30 grouped entries. |
| PdfLinks.Truncated | scrapper.py:367-369 | A text whose entry comes after the first 30 is not shown. |
| XlsxProcessor.Lower | xlsx_processor.py:65 | `lower()` keeps the length. |
| XlsxProcessor.LastSegment | xlsx_processor.py:62 | `split("/")[-1]` is the slash-free suffix after the last slash, or the whole string when it has no slash. |
| XlsxProcessor.LowerAppend | xlsx_processor.py:65-88 | Lower-casing distributes over concatenation. |
| XlsxProcessor.LowerNoCapitals | xlsx_processor.py:70 | A string without capital letters is its own lower case. |
| XlsxProcessor.LowerXlsx | xlsx_processor.py:87 | ".xlsx" is already lower-case. |
| XlsxProcessor.XlsxNameEndsInXlsx | xlsx_processor.py:75-88 | Whatever the name and the format, the saved name ends in ".xlsx", compared case-insensitively. |
| XlsxProcessor.TargetEndsInXlsx | xlsx_processor.py:62-88 | The saved file's name always ends in ".xlsx", compared case-insensitively. |
| XlsxProcessor.TargetIsXls | xlsx_processor.py:64-72 | The download is converted exactly when its name ends in ".xls" but not ".xlsx" (case-insensitively), or its content-type contains the XLS media type. A missing header counts as "". |
| XlsxProcessor.XlsRenamed | xlsx_processor.py:77-80 | An XLS-named file has its last four characters replaced by ".xlsx". |
| XlsxProcessor.NotXlsName | xlsx_processor.py:83-88 | A file that is not converted keeps its name exactly when the name ends in ".xlsx", and otherwise gets ".xlsx" appended. |
| XlsxProcessor.XlsxNameIdempotent | xlsx_processor.py:83-88 | Naming a file that is not converted is idempotent. |
| XlsxProcessor.ExcelContentTypeDoublesExtension | xlsx_processor.py:65-82 | A name already ending in ".xlsx" but served with the XLS content-type is converted and saved as name + ".xlsx". |
| XlsxProcessor.DoubledExtensionExample | xlsx_processor.py:77-82 | "a.xlsx" served as XLS is saved as "a.xlsx.xlsx". |
| XlsxProcessor.LowerStartsWith | xlsx_processor.py:70 | Lower-casing keeps a prefix, lower-cased. |
| XlsxProcessor.LowerContains | xlsx_processor.py:70-71 | Lower-casing keeps every occurrence of a lower-case substring. |
| XlsxProcessor.ServedAsXlsWhenContained | xlsx_processor.py:70-72 | A header containing "application/vnd.ms-excel" anywhere marks the download as XLS. |
| XlsxProcessor.PlainNameGetsXlsx | xlsx_processor.py:75-88 | A name ending in neither ".xls" nor ".xlsx" gets ".xlsx" appended, whether converted or not. |
| XlsxProcessor.NoSlashTempFile | xlsx_processor.py:62-88 | A URL without a slash is saved as "temp_file.xlsx", converted only when served as XLS. |

## Left out

- The HTTP request, its 10-second timeout and User-Agent header, `raise_for_status`, and BeautifulSoup's parsing are not modelled. A page is given as its parsed elements, with texts already stripped. A fetch is modelled as either an error message or a page. `soup.title.string` is an input (`TitleTag`).
- `urljoin` and `urlparse` are supplied as functions of a `Net` value (URL resolution as in section 5.2 of RFC 3986), and any exception they raise is not modelled.
- `time.sleep(self.delay)` between children and between entries is not modelled: it has no effect on the output.
- The document rendering of `create_pdf` is not modelled: ReportLab styles, paragraphs, spacers, the "no content" message, `doc.build` and its error handler. A document is modelled as one log entry with its name and record. Only the links section (grouping, cap, display lines) is modelled.
- Crawler.PDFWebScraper.CreatePdf: always logs one document, so the model assumes document creation never raises. In the source, only the final `doc.build` of a page with content is inside a try (scrapper.py:419-423). An exception anywhere else in `create_pdf` propagates through `scrape_recursive` and `scrape_all`, which catch nothing, and ends the whole run. This covers building paragraphs from the raw URL, title or error text, and the error page's `doc.build` (scrapper.py:310-311). The model's guarantees describe runs in which no such exception occurs.
- `read_urls_json` (file reading and JSON parsing) is not modelled. `ScrapeAll` receives the parsed entries. The `if not configs: return` guard is not modelled separately: an empty list leads to no work in both.
- All console output (`print`) and the output directory setup are not modelled.
- The configured depth is modelled as an integer. A non-integer "profundidad" in the JSON, which Python compares with `>=` or rejects at runtime, is not modelled.
- Crawler.PDFWebScraper.ScrapeRecursive: requires a non-empty node path. The default `parent_index=""` applies only to a direct external call, which the program never makes; `scrape_all` always passes `str(idx)`.
- The `if not data: return` in `scrape_recursive` is unreachable, because the visited test just before rules out the only case where `scrape_url` returns None. The model asserts this and does not keep a branch for it.
- Crawler.PDFWebScraper.ScrapeChildren: the child loop of `scrape_recursive` is a method of its own, and its body is the method `ScrapeChild`. Both are mutually recursive with `ScrapeRecursive`. The behaviour is unchanged.
- The link lines insert `link_url` into the markup without escaping. The model keeps URLs unescaped, as the source does, and proves nothing about their markup safety.
- XlsxProcessor.Lower: models `str.lower()` on ASCII letters only. Other characters are kept, which is exact for the comparisons made: ".xls", ".xlsx" and the XLS media type consist of ASCII characters only.
- `convert_xls_to_xlsx`, the temporary directory, writing the file, and the rest of `xlsx_url_to_temp_file` are not modelled. The model covers only the name and format decision, with the content-type header as an input.
- pptx_to_pdf.py and angular_file.ts are not part of this model.
