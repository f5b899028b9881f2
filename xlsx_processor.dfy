/**
 * The name and format decision of xlsx_url_to_temp_file in
 * xlsx_processor.py: from the URL and the response's content-type header,
 * whether the download is an old-style XLS workbook that needs converting,
 * and the name the temporary file is saved under, which always ends in
 * ".xlsx".
 */
module XlsxProcessor {
  import opened Wrappers

  // ------------------------------------------------------------ Python strings

  /** str.lower() on one character, for the ASCII letters. */
  function LowerChar(c: char): char
  {
    if 'A' <= c <= 'Z' then (c as int + 32) as char else c
  }

  /** str.lower(), letter by letter. */
  function Lower(s: string): (r: string)
    ensures |r| == |s|
  {
    if s == [] then [] else [LowerChar(s[0])] + Lower(s[1..])
  }

  /** s.endswith(suffix). */
  predicate EndsWith(s: string, suffix: string)
  {
    |suffix| <= |s| && s[|s| - |suffix|..] == suffix
  }

  /** s.startswith(prefix). */
  predicate StartsWith(s: string, prefix: string)
  {
    |prefix| <= |s| && s[..|prefix|] == prefix
  }

  /** `sub in s`: sub starts at some position of s. */
  predicate Contains(s: string, sub: string)
  {
    StartsWith(s, sub) || (s != [] && Contains(s[1..], sub))
  }

  /** s.split("/")[-1]: what follows the last slash, or all of s when it has none. */
  function LastSegment(s: string): (r: string)
    ensures '/' !in r
    ensures |r| <= |s| && r == s[|s| - |r|..]
    ensures '/' in s ==> |r| < |s| && s[|s| - |r| - 1] == '/'
    ensures '/' !in s ==> r == s
  {
    if s == [] then []
    else if s[|s| - 1] == '/' then []
    else LastSegment(s[..|s| - 1]) + [s[|s| - 1]]
  }

  // ------------------------------------------------------------ the decision

  const XlsSuffix: string := ".xls"
  const XlsxSuffix: string := ".xlsx"
  const ExcelContentType: string := "application/vnd.ms-excel"

  /** The file name taken from the URL: its last path segment, or "temp_file" for a URL without a slash. */
  function BaseName(url: string): string
  {
    if '/' in url then LastSegment(url) else "temp_file"
  }

  /** The name says XLS: it ends in ".xls" but not in ".xlsx", whatever the case of its letters. */
  predicate NamedXls(name: string)
  {
    EndsWith(Lower(name), XlsSuffix) && !EndsWith(Lower(name), XlsxSuffix)
  }

  /** The content-type header, lower-cased, names the XLS media type; a missing header counts as "". */
  predicate ServedAsXls(contentType: Option<string>)
  {
    var header := if contentType.Some? then contentType.value else "";
    Contains(Lower(header), ExcelContentType)
  }

  /** The renaming step: an XLS name trades ".xls" for ".xlsx"; any other name gets ".xlsx" unless it ends so already. */
  function XlsxName(name: string, isXls: bool): string
  {
    if isXls then
      if EndsWith(Lower(name), XlsSuffix) then name[..|name| - 4] + XlsxSuffix
      else name + XlsxSuffix
    else if !EndsWith(Lower(name), XlsxSuffix) then name + XlsxSuffix
    else name
  }

  /** Whether the download is converted from XLS, and the name it is saved under. */
  datatype Target = Target(isXls: bool, filename: string)

  /** Lines 62-88 of xlsx_url_to_temp_file. */
  function TargetFile(url: string, contentType: Option<string>): Target
  {
    var filename := BaseName(url);
    var isXls := if NamedXls(filename) then true else ServedAsXls(contentType);
    Target(isXls, XlsxName(filename, isXls))
  }

  // ------------------------------------------------------------ properties

  lemma {:induction false} LowerAppend(a: string, b: string)
    ensures Lower(a + b) == Lower(a) + Lower(b)
  {
    if a == [] {
      assert a + b == b;
    } else {
      LowerAppend(a[1..], b);
      assert (a + b)[0] == a[0] && (a + b)[1..] == a[1..] + b;
    }
  }

  /** Lower-casing leaves a string without capital letters unchanged. */
  lemma {:induction false} LowerNoCapitals(s: string)
    requires forall i :: 0 <= i < |s| ==> !('A' <= s[i] <= 'Z')
    ensures Lower(s) == s
  {
    if s != [] {
      LowerNoCapitals(s[1..]);
      assert s == [s[0]] + s[1..];
    }
  }

  lemma LowerXlsx()
    ensures Lower(XlsxSuffix) == XlsxSuffix
  {
  }

  /** Whatever the name and the header, the saved name ends in ".xlsx", compared case-insensitively. */
  lemma XlsxNameEndsInXlsx(name: string, isXls: bool)
    ensures EndsWith(Lower(XlsxName(name, isXls)), XlsxSuffix)
  {
    var r := XlsxName(name, isXls);
    if r != name {
      var stem := if isXls && EndsWith(Lower(name), XlsSuffix) then name[..|name| - 4] else name;
      assert r == stem + XlsxSuffix;
      LowerAppend(stem, XlsxSuffix);
      LowerXlsx();
    }
  }

  /** The saved file's name always ends in ".xlsx", compared case-insensitively. */
  lemma TargetEndsInXlsx(url: string, contentType: Option<string>)
    ensures EndsWith(Lower(TargetFile(url, contentType).filename), XlsxSuffix)
  {
    var t := TargetFile(url, contentType);
    XlsxNameEndsInXlsx(BaseName(url), t.isXls);
  }

  /**
   * The download is converted exactly when its name says XLS or the server
   * serves it as XLS; the header decides only names that do not say XLS.
   */
  lemma TargetIsXls(url: string, contentType: Option<string>)
    ensures TargetFile(url, contentType).isXls <==> NamedXls(BaseName(url)) || ServedAsXls(contentType)
    ensures NamedXls(BaseName(url)) ==> TargetFile(url, contentType).isXls
  {
  }

  /** An XLS name loses its last four characters, ".xls" in any case, to ".xlsx". */
  lemma XlsRenamed(url: string, contentType: Option<string>)
    requires NamedXls(BaseName(url))
    ensures TargetFile(url, contentType).filename
      == BaseName(url)[..|BaseName(url)| - |XlsSuffix|] + XlsxSuffix
  {
  }

  /**
   * A download that is not converted keeps its name when the name already
   * ends in ".xlsx" in any case, and gets ".xlsx" appended otherwise.
   */
  lemma NotXlsName(url: string, contentType: Option<string>)
    requires !TargetFile(url, contentType).isXls
    ensures TargetFile(url, contentType).filename == BaseName(url) <==> EndsWith(Lower(BaseName(url)), XlsxSuffix)
    ensures !EndsWith(Lower(BaseName(url)), XlsxSuffix) ==>
      TargetFile(url, contentType).filename == BaseName(url) + XlsxSuffix
  {
    var name := BaseName(url);
    if !EndsWith(Lower(name), XlsxSuffix) {
      assert |name + XlsxSuffix| != |name|;
    }
  }

  /** Naming a file that is not converted is idempotent: a saved name is saved unchanged. */
  lemma XlsxNameIdempotent(name: string)
    ensures XlsxName(XlsxName(name, false), false) == XlsxName(name, false)
  {
    XlsxNameEndsInXlsx(name, false);
  }

  /**
   * A name that already ends in ".xlsx", served with the XLS content-type,
   * is treated as XLS and gets a second extension.
   */
  lemma ExcelContentTypeDoublesExtension(url: string, contentType: Option<string>)
    requires ServedAsXls(contentType) && EndsWith(Lower(BaseName(url)), XlsxSuffix)
    ensures TargetFile(url, contentType) == Target(true, BaseName(url) + XlsxSuffix)
  {
    var l := Lower(BaseName(url));
    assert l[|l| - 1] == 'x';
  }

  /** For example "a.xlsx", served as XLS, is saved as "a.xlsx.xlsx". */
  lemma DoubledExtensionExample()
    ensures XlsxName("a.xlsx", true) == "a.xlsx.xlsx"
  {
    var l := Lower("a.xlsx");
    assert l[5] == 'x';
  }

  /** A string that starts with p still does after lower-casing, with p lower-cased. */
  lemma {:induction false} LowerStartsWith(s: string, p: string)
    requires StartsWith(s, p)
    ensures StartsWith(Lower(s), Lower(p))
  {
    if p != [] {
      assert s[1..][..|p| - 1] == s[..|p|][1..];
      LowerStartsWith(s[1..], p[1..]);
    }
  }

  /** Lower-casing keeps every occurrence of a string without capital letters. */
  lemma {:induction false} LowerContains(s: string, sub: string)
    requires Contains(s, sub) && Lower(sub) == sub
    ensures Contains(Lower(s), sub)
  {
    if StartsWith(s, sub) {
      LowerStartsWith(s, sub);
    } else {
      LowerContains(s[1..], sub);
    }
  }

  /** A header holding the XLS media type, in lower case, is recognised wherever it holds it. */
  lemma ServedAsXlsWhenContained(header: string)
    requires Contains(header, ExcelContentType)
    ensures ServedAsXls(Some(header))
  {
    var e := ExcelContentType;
    assert forall i :: 0 <= i < |e| ==> !('A' <= e[i] <= 'Z');
    LowerNoCapitals(e);
    LowerContains(header, e);
  }

  /** A name that ends in neither ".xls" nor ".xlsx", in any case, gets ".xlsx" appended, converted or not. */
  lemma PlainNameGetsXlsx(name: string, isXls: bool)
    requires !EndsWith(Lower(name), XlsSuffix) && !EndsWith(Lower(name), XlsxSuffix)
    ensures XlsxName(name, isXls) == name + XlsxSuffix
  {
  }

  /** A URL without a slash saves as "temp_file.xlsx", converted only when served as XLS. */
  lemma NoSlashTempFile(url: string, contentType: Option<string>)
    requires '/' !in url
    ensures TargetFile(url, contentType) == Target(ServedAsXls(contentType), "temp_file.xlsx")
  {
    var name, isXls := BaseName(url), ServedAsXls(contentType);
    assert name == "temp_file";
    assert !NamedXls(name) && XlsxName(name, isXls) == name + XlsxSuffix by {
      assert forall i :: 0 <= i < |name| ==> !('A' <= name[i] <= 'Z');
      LowerNoCapitals(name);
      assert name[|name| - 4..][3] != XlsSuffix[3];
      assert name[|name| - 5..][4] != XlsxSuffix[4];
      PlainNameGetsXlsx(name, isXls);
    }
  }
}
