/**
 * _clean_text_for_pdf of scrapper.py: the text of a heading, paragraph or
 * link label is made safe for ReportLab's paragraph markup by escaping the
 * five XML special characters, dropping NUL characters, turning line breaks
 * and tabs into spaces, and collapsing every run of whitespace to a single
 * space (str.split() then " ".join, then str.strip()).
 *
 * The string operations follow Python's: str.replace replaces leftmost,
 * non-overlapping occurrences; str.split() with no argument splits at runs
 * of the characters str.isspace() accepts and drops empty pieces.
 */
module PdfText {

  // ------------------------------------------------------------ Python strings

  /** str.isspace() for one character. */
  predicate IsSpace(c: char)
  {
    || c == ' ' || ('\t' <= c <= '\r') || ('\U{1C}' <= c <= '\U{1F}')
    || c == '\U{85}' || c == '\U{A0}' || c == '\U{1680}' || ('\U{2000}' <= c <= '\U{200A}')
    || c == '\U{2028}' || c == '\U{2029}' || c == '\U{202F}' || c == '\U{205F}' || c == '\U{3000}'
  }

  const NUL: char := '\U{0}'

  /** s.replace(pat, rep): leftmost occurrences first, none overlapping, none inside a replacement. */
  function ReplaceAll(s: string, pat: string, rep: string): string
    requires |pat| >= 1
    decreases |s|
  {
    if |s| < |pat| then s
    else if s[..|pat|] == pat then rep + ReplaceAll(s[|pat|..], pat, rep)
    else [s[0]] + ReplaceAll(s[1..], pat, rep)
  }

  /** Reference definition for a one-character pattern: every c becomes rep. */
  function Subst(s: string, c: char, rep: string): string
  {
    if s == [] then [] else (if s[0] == c then rep else [s[0]]) + Subst(s[1..], c, rep)
  }

  /** A non-empty string without whitespace: what str.split() yields. */
  predicate Solid(w: string)
  {
    w != [] && forall i :: 0 <= i < |w| ==> !IsSpace(w[i])
  }

  /** The string is empty or starts with whitespace: no word continues across its start. */
  predicate StartsBlank(s: string)
  {
    s == [] || IsSpace(s[0])
  }

  /** The longest prefix of s without whitespace. */
  function FirstWord(s: string): (w: string)
    ensures |w| <= |s| && w == s[..|w|]
    ensures forall i :: 0 <= i < |w| ==> !IsSpace(w[i])
    ensures w == [] <==> StartsBlank(s)
    ensures StartsBlank(s[|w|..])
  {
    if StartsBlank(s) then [] else [s[0]] + FirstWord(s[1..])
  }

  /** s.split(): the maximal runs of non-whitespace characters, in order. */
  function Split(s: string): (words: seq<string>)
    ensures forall i :: 0 <= i < |words| ==> Solid(words[i])
    ensures !StartsBlank(s) ==> |words| >= 1
    decreases |s|
  {
    if s == [] then []
    else if IsSpace(s[0]) then Split(s[1..])
    else
      var w := FirstWord(s);
      [w] + Split(s[|w|..])
  }

  /** " ".join(words). */
  function JoinSpace(words: seq<string>): string
  {
    if words == [] then ""
    else if |words| == 1 then words[0]
    else words[0] + " " + JoinSpace(words[1..])
  }

  function TrimStart(s: string): string
  {
    if s != [] && IsSpace(s[0]) then TrimStart(s[1..]) else s
  }

  function TrimEnd(s: string): string
  {
    if s != [] && IsSpace(s[|s| - 1]) then TrimEnd(s[..|s| - 1]) else s
  }

  /** s.strip(). */
  function Strip(s: string): string
  {
    TrimEnd(TrimStart(s))
  }

  // ------------------------------------------------------------ the cleaner

  /** The five replacements of the XML special characters, ampersand first. */
  function EscapeChain(s: string): string
  {
    var s := ReplaceAll(s, "&", "&amp;");
    var s := ReplaceAll(s, "<", "&lt;");
    var s := ReplaceAll(s, ">", "&gt;");
    var s := ReplaceAll(s, "\"", "&quot;");
    ReplaceAll(s, "'", "&apos;")
  }

  /** _clean_text_for_pdf. */
  function CleanText(text: string): string
  {
    if text == "" then ""
    else
      var t := EscapeChain(text);
      var t := ReplaceAll(t, [NUL], "");
      var t := ReplaceAll(t, "\r\n", " ");
      var t := ReplaceAll(t, "\n", " ");
      var t := ReplaceAll(t, "\t", " ");
      Strip(JoinSpace(Split(t)))
  }

  // ------------------------------------------------------------ reference definitions

  /** The entity of one character, or the character itself. */
  function Esc(c: char): string
  {
    match c
    case '&' => "&amp;"
    case '<' => "&lt;"
    case '>' => "&gt;"
    case '"' => "&quot;"
    case '\'' => "&apos;"
    case _ => [c]
  }

  /** Character-by-character XML escaping. */
  function EscapeXml(s: string): string
  {
    if s == [] then [] else Esc(s[0]) + EscapeXml(s[1..])
  }

  /** The XML reader's side: the five entities decoded, everything else kept. */
  function Unescape(t: string): string
    decreases |t|
  {
    if t == [] then []
    else if |t| >= 5 && t[..5] == "&amp;" then "&" + Unescape(t[5..])
    else if |t| >= 4 && t[..4] == "&lt;" then "<" + Unescape(t[4..])
    else if |t| >= 4 && t[..4] == "&gt;" then ">" + Unescape(t[4..])
    else if |t| >= 6 && t[..6] == "&quot;" then "\"" + Unescape(t[6..])
    else if |t| >= 6 && t[..6] == "&apos;" then "'" + Unescape(t[6..])
    else [t[0]] + Unescape(t[1..])
  }

  function EscapeWords(words: seq<string>): seq<string>
  {
    if words == [] then [] else [EscapeXml(words[0])] + EscapeWords(words[1..])
  }

  /** The input with its NUL characters dropped. */
  function RemoveNul(s: string): string
  {
    Subst(s, NUL, "")
  }

  /** The characters of s that are not whitespace, in order. */
  function NonSpace(s: string): string
  {
    if s == [] then [] else (if IsSpace(s[0]) then [] else [s[0]]) + NonSpace(s[1..])
  }

  function Concat(words: seq<string>): string
  {
    if words == [] then [] else words[0] + Concat(words[1..])
  }

  /**
   * Whitespace only as single spaces between two non-whitespace characters:
   * no other whitespace character, none leading or trailing, no run of two.
   */
  predicate Normalized(t: string)
  {
    && (t != [] ==> !IsSpace(t[0]) && !IsSpace(t[|t| - 1]))
    && (forall i :: 0 <= i < |t| && IsSpace(t[i]) ==> t[i] == ' ')
    && (forall i, j :: 0 <= i && j == i + 1 < |t| ==> !IsSpace(t[i]) || !IsSpace(t[j]))
  }

  // ------------------------------------------------------------ str.replace

  /** A one-character pattern: str.replace replaces each occurrence of the character. */
  lemma {:induction false} ReplaceSingle(s: string, c: char, rep: string)
    ensures ReplaceAll(s, [c], rep) == Subst(s, c, rep)
    decreases |s|
  {
    if s != [] {
      ReplaceSingle(s[1..], c, rep);
      assert s[..1] == [s[0]];
    }
  }

  lemma {:induction false} SubstAppend(a: string, b: string, c: char, rep: string)
    ensures Subst(a + b, c, rep) == Subst(a, c, rep) + Subst(b, c, rep)
  {
    if a == [] {
      assert a + b == b;
    } else {
      var a' := a[1..];
      var h := if a[0] == c then rep else [a[0]];
      calc {
        Subst(a + b, c, rep);
        { assert (a + b)[0] == a[0] && (a + b)[1..] == a' + b; }
        h + Subst(a' + b, c, rep);
        { SubstAppend(a', b, c, rep); }
        h + (Subst(a', c, rep) + Subst(b, c, rep));
        { AppendAssoc(h, Subst(a', c, rep), Subst(b, c, rep)); }
        (h + Subst(a', c, rep)) + Subst(b, c, rep);
        Subst(a, c, rep) + Subst(b, c, rep);
      }
    }
  }

  lemma {:induction false} SubstAbsent(s: string, c: char, rep: string)
    requires c !in s
    ensures Subst(s, c, rep) == s
  {
    if s != [] {
      SubstAbsent(s[1..], c, rep);
    }
  }

  lemma {:induction false} SubstRemoves(s: string, c: char)
    ensures c !in Subst(s, c, "")
  {
    if s != [] {
      SubstRemoves(s[1..], c);
    }
  }

  // ------------------------------------------------------------ escaping

  lemma AppendAssoc(x: string, y: string, z: string)
    ensures x + (y + z) == (x + y) + z
  {
  }

  lemma {:induction false} EscapeAppend(a: string, b: string)
    ensures EscapeXml(a + b) == EscapeXml(a) + EscapeXml(b)
  {
    if a == [] {
      assert a + b == b;
    } else {
      var c, a' := a[0], a[1..];
      calc {
        EscapeXml(a + b);
        { assert (a + b)[0] == c && (a + b)[1..] == a' + b; }
        Esc(c) + EscapeXml(a' + b);
        { EscapeAppend(a', b); }
        Esc(c) + (EscapeXml(a') + EscapeXml(b));
        { AppendAssoc(Esc(c), EscapeXml(a'), EscapeXml(b)); }
        (Esc(c) + EscapeXml(a')) + EscapeXml(b);
        EscapeXml(a) + EscapeXml(b);
      }
    }
  }

  /** The five replacements, each of one character, applied in the source's order. */
  function SubstChain(s: string): string
  {
    Subst(Subst(Subst(Subst(Subst(s, '&', "&amp;"), '<', "&lt;"), '>', "&gt;"), '"', "&quot;"), '\'', "&apos;")
  }

  lemma SubstChainAppend(a: string, b: string)
    ensures SubstChain(a + b) == SubstChain(a) + SubstChain(b)
  {
    var a1, b1 := Subst(a, '&', "&amp;"), Subst(b, '&', "&amp;");
    SubstAppend(a, b, '&', "&amp;");
    var a2, b2 := Subst(a1, '<', "&lt;"), Subst(b1, '<', "&lt;");
    SubstAppend(a1, b1, '<', "&lt;");
    var a3, b3 := Subst(a2, '>', "&gt;"), Subst(b2, '>', "&gt;");
    SubstAppend(a2, b2, '>', "&gt;");
    var a4, b4 := Subst(a3, '"', "&quot;"), Subst(b3, '"', "&quot;");
    SubstAppend(a3, b3, '"', "&quot;");
    SubstAppend(a4, b4, '\'', "&apos;");
  }

  lemma SubstSingle(c: char, d: char, rep: string)
    ensures Subst([c], d, rep) == if c == d then rep else [c]
  {
    assert [c][1..] == [];
  }

  /** An entity, once produced, passes the later replacements unchanged. */
  lemma EntityStays(e: string)
    requires '<' !in e && '>' !in e && '"' !in e && '\'' !in e
    ensures Subst(e, '<', "&lt;") == e && Subst(e, '>', "&gt;") == e
    ensures Subst(e, '"', "&quot;") == e && Subst(e, '\'', "&apos;") == e
  {
    SubstAbsent(e, '<', "&lt;");
    SubstAbsent(e, '>', "&gt;");
    SubstAbsent(e, '"', "&quot;");
    SubstAbsent(e, '\'', "&apos;");
  }

  /** No replacement touches the entities earlier ones produced: one character becomes its entity. */
  lemma SubstChainSingle(c: char)
    ensures SubstChain([c]) == Esc(c)
  {
    var s1 := Subst([c], '&', "&amp;");
    SubstSingle(c, '&', "&amp;");
    if c == '&' {
      EntityStays("&amp;");
      return;
    }
    assert s1 == [c];
    var s2 := Subst(s1, '<', "&lt;");
    SubstSingle(c, '<', "&lt;");
    if c == '<' {
      EntityStays("&lt;");
      return;
    }
    assert s2 == [c];
    var s3 := Subst(s2, '>', "&gt;");
    SubstSingle(c, '>', "&gt;");
    if c == '>' {
      EntityStays("&gt;");
      return;
    }
    assert s3 == [c];
    var s4 := Subst(s3, '"', "&quot;");
    SubstSingle(c, '"', "&quot;");
    if c == '"' {
      EntityStays("&quot;");
      return;
    }
    assert s4 == [c];
    SubstSingle(c, '\'', "&apos;");
  }

  lemma {:induction false} SubstChainIsEscapeXml(s: string)
    ensures SubstChain(s) == EscapeXml(s)
  {
    if s != [] {
      assert s == [s[0]] + s[1..];
      SubstChainAppend([s[0]], s[1..]);
      SubstChainSingle(s[0]);
      SubstChainIsEscapeXml(s[1..]);
    }
  }

  /** The escaping lines of _clean_text_for_pdf escape each special character on its own. */
  lemma EscapeChainIsEscapeXml(s: string)
    ensures EscapeChain(s) == EscapeXml(s)
  {
    var s1 := ReplaceAll(s, "&", "&amp;");
    ReplaceSingle(s, '&', "&amp;");
    var s2 := ReplaceAll(s1, "<", "&lt;");
    ReplaceSingle(s1, '<', "&lt;");
    var s3 := ReplaceAll(s2, ">", "&gt;");
    ReplaceSingle(s2, '>', "&gt;");
    var s4 := ReplaceAll(s3, "\"", "&quot;");
    ReplaceSingle(s3, '"', "&quot;");
    ReplaceSingle(s4, '\'', "&apos;");
    SubstChainIsEscapeXml(s);
  }

  lemma PrefixDiffers(t: string, p: string, k: nat)
    requires k < |p| && k < |t| && t[k] != p[k]
    ensures !(|t| >= |p| && t[..|p|] == p)
  {
    if |t| >= |p| {
      assert t[..|p|][k] == t[k];
    }
  }

  /** Unescaping reads one entity, or one plain character, back as the character it stands for. */
  lemma UnescapeEsc(c: char, x: string)
    ensures Unescape(Esc(c) + x) == [c] + Unescape(x)
  {
    var e := Esc(c);
    var t := e + x;
    assert t[..|e|] == e && t[|e|..] == x;
    if c == '&' {
    } else if c == '<' {
      PrefixDiffers(t, "&amp;", 1);
    } else if c == '>' {
      PrefixDiffers(t, "&amp;", 1);
      PrefixDiffers(t, "&lt;", 1);
    } else if c == '"' {
      PrefixDiffers(t, "&amp;", 1);
      PrefixDiffers(t, "&lt;", 1);
      PrefixDiffers(t, "&gt;", 1);
    } else if c == '\'' {
      PrefixDiffers(t, "&amp;", 2);
      PrefixDiffers(t, "&lt;", 1);
      PrefixDiffers(t, "&gt;", 1);
      PrefixDiffers(t, "&quot;", 1);
    } else {
      assert t[0] == c && t[1..] == x;
      PrefixDiffers(t, "&amp;", 0);
      PrefixDiffers(t, "&lt;", 0);
      PrefixDiffers(t, "&gt;", 0);
      PrefixDiffers(t, "&quot;", 0);
      PrefixDiffers(t, "&apos;", 0);
    }
  }

  /** Unescaping undoes escaping: no information is lost. */
  lemma {:induction false} UnescapeEscape(s: string)
    ensures Unescape(EscapeXml(s)) == s
  {
    if s != [] {
      var c, s' := s[0], s[1..];
      UnescapeEscape(s');
      assert s == [c] + s';
      EscapeCons(c, s');
      UnescapeEsc(c, EscapeXml(s'));
    }
  }

  /** Escaped text holds none of the characters that have a meaning in markup, other than the ampersand of an entity. */
  lemma {:induction false} EscapeXmlNoMarkup(s: string)
    ensures forall i :: 0 <= i < |EscapeXml(s)| ==> EscapeXml(s)[i] !in "<>\"'"
  {
    if s != [] {
      EscapeXmlNoMarkup(s[1..]);
      var e, x := Esc(s[0]), EscapeXml(s[1..]);
      forall i | 0 <= i < |e + x|
        ensures (e + x)[i] !in "<>\"'"
      {
        if i < |e| {
          assert (e + x)[i] == e[i];
        } else {
          assert (e + x)[i] == x[i - |e|];
        }
      }
    }
  }

  /** Escaping produces a NUL only where the input had one. */
  lemma {:induction false} EscapeXmlNul(s: string)
    ensures NUL in EscapeXml(s) ==> NUL in s
  {
    if s != [] {
      EscapeXmlNul(s[1..]);
      assert NUL in Esc(s[0]) ==> s[0] == NUL;
    }
  }

  /** Dropping NULs from one character's escape. */
  lemma EscRemoveNul(c: char)
    ensures RemoveNul(Esc(c)) == if c == NUL then [] else Esc(c)
  {
    if c == NUL {
      SubstSingle(c, NUL, "");
    } else {
      assert NUL !in Esc(c);
      SubstAbsent(Esc(c), NUL, "");
    }
  }

  lemma {:induction false} RemoveNulEscape(s: string)
    ensures RemoveNul(EscapeXml(s)) == EscapeXml(RemoveNul(s))
  {
    if s != [] {
      var c, r := s[0], s[1..];
      var tail := EscapeXml(RemoveNul(r));
      calc {
        RemoveNul(EscapeXml(s));
        { assert EscapeXml(s) == Esc(c) + EscapeXml(r); }
        RemoveNul(Esc(c) + EscapeXml(r));
        { SubstAppend(Esc(c), EscapeXml(r), NUL, ""); }
        RemoveNul(Esc(c)) + RemoveNul(EscapeXml(r));
        { RemoveNulEscape(r); }
        RemoveNul(Esc(c)) + tail;
      }
      EscRemoveNul(c);
      if c == NUL {
        assert RemoveNul(s) == RemoveNul(r);
      } else {
        calc {
          Esc(c) + tail;
          { EscapeCons(c, RemoveNul(r)); }
          EscapeXml([c] + RemoveNul(r));
          { assert RemoveNul(s) == [c] + RemoveNul(r); }
          EscapeXml(RemoveNul(s));
        }
      }
    }
  }

  // ------------------------------------------------------------ str.split

  lemma SplitBlankHead(c: char, y: string)
    requires IsSpace(c)
    ensures Split([c] + y) == Split(y)
  {
    assert ([c] + y)[1..] == y;
  }

  /** A non-space character in front either starts a new first word or joins the first word. */
  lemma SplitCons(c: char, y: string)
    requires !IsSpace(c)
    ensures Split([c] + y) == if StartsBlank(y) then [[c]] + Split(y) else [[c] + Split(y)[0]] + Split(y)[1..]
  {
    var s := [c] + y;
    assert s[1..] == y;
    assert FirstWord(s) == [c] + FirstWord(y);
    assert s[|FirstWord(s)|..] == y[|FirstWord(y)|..];
  }

  /** The same for a whole run of non-space characters in front. */
  lemma {:induction false} SplitWordCons(a: string, y: string)
    requires Solid(a)
    ensures Split(a + y) == if StartsBlank(y) then [a] + Split(y) else [a + Split(y)[0]] + Split(y)[1..]
    decreases |a|
  {
    if |a| == 1 {
      assert a == [a[0]];
      SplitCons(a[0], y);
    } else {
      var c, a' := a[0], a[1..];
      assert Solid(a') by {
        forall i | 0 <= i < |a'| ensures !IsSpace(a'[i]) {
          assert a'[i] == a[i + 1];
        }
      }
      var ws := Split(a' + y);
      calc {
        Split(a + y);
        { assert a + y == [c] + (a' + y); }
        Split([c] + (a' + y));
        { assert (a' + y)[0] == a'[0]; SplitCons(c, a' + y); }
        [[c] + ws[0]] + ws[1..];
      }
      SplitWordCons(a', y);
      if StartsBlank(y) {
        calc {
          [[c] + ws[0]] + ws[1..];
          [[c] + a'] + Split(y);
          { assert a == [c] + a'; }
          [a] + Split(y);
        }
      } else {
        calc {
          [[c] + ws[0]] + ws[1..];
          [[c] + (a' + Split(y)[0])] + Split(y)[1..];
          { assert a == [c] + a'; AppendAssoc([c], a', Split(y)[0]); }
          [a + Split(y)[0]] + Split(y)[1..];
        }
      }
    }
  }

  /** Two strings that agree on their words and on whether they start blank still agree after one more character. */
  lemma SplitSameCons(c: char, x: string, y: string)
    requires Split(x) == Split(y) && (StartsBlank(x) <==> StartsBlank(y))
    ensures Split([c] + x) == Split([c] + y)
  {
    if IsSpace(c) {
      SplitBlankHead(c, x);
      SplitBlankHead(c, y);
    } else {
      SplitCons(c, x);
      SplitCons(c, y);
    }
  }

  /** Replacing each "\r\n" with a space changes no word. */
  lemma {:induction false} SplitCrLf(t: string)
    ensures Split(ReplaceAll(t, "\r\n", " ")) == Split(t)
    ensures StartsBlank(ReplaceAll(t, "\r\n", " ")) <==> StartsBlank(t)
    decreases |t|
  {
    var r := ReplaceAll(t, "\r\n", " ");
    if |t| < 2 {
    } else if t[..2] == "\r\n" {
      SplitCrLf(t[2..]);
      assert t[0] == '\r' && t[1] == '\n';
      SplitBlankHead(' ', ReplaceAll(t[2..], "\r\n", " "));
      assert t[1..] == ['\n'] + t[2..];
      SplitBlankHead('\n', t[2..]);
      assert t == ['\r'] + t[1..];
      SplitBlankHead('\r', t[1..]);
    } else {
      SplitCrLf(t[1..]);
      SplitSameCons(t[0], ReplaceAll(t[1..], "\r\n", " "), t[1..]);
      assert t == [t[0]] + t[1..];
    }
  }

  /** Replacing a whitespace character with a space changes no word. */
  lemma {:induction false} SplitSubstBlank(t: string, c: char)
    requires IsSpace(c)
    ensures Split(Subst(t, c, " ")) == Split(t)
    ensures StartsBlank(Subst(t, c, " ")) <==> StartsBlank(t)
  {
    if t != [] {
      SplitSubstBlank(t[1..], c);
      assert t == [t[0]] + t[1..];
      if t[0] == c {
        SplitBlankHead(' ', Subst(t[1..], c, " "));
        SplitBlankHead(c, t[1..]);
      } else {
        SplitSameCons(t[0], Subst(t[1..], c, " "), t[1..]);
      }
    }
  }

  // ------------------------------------------------------------ escaping and words

  lemma EscSolid(c: char)
    requires !IsSpace(c)
    ensures Solid(Esc(c))
  {
  }

  lemma {:induction false} EscapeSolid(w: string)
    requires Solid(w)
    ensures Solid(EscapeXml(w))
  {
    var e := Esc(w[0]);
    EscSolid(w[0]);
    var x := EscapeXml(w[1..]);
    if w[1..] != [] {
      assert Solid(w[1..]) by {
        forall i | 0 <= i < |w[1..]| ensures !IsSpace(w[1..][i]) {
          assert w[1..][i] == w[i + 1];
        }
      }
      EscapeSolid(w[1..]);
    }
    forall i | 0 <= i < |e + x|
      ensures !IsSpace((e + x)[i])
    {
      if i >= |e| {
        assert (e + x)[i] == x[i - |e|];
      }
    }
  }

  lemma {:induction false} EscapeWordsSolid(ws: seq<string>)
    requires forall i :: 0 <= i < |ws| ==> Solid(ws[i])
    ensures |EscapeWords(ws)| == |ws|
    ensures forall i :: 0 <= i < |ws| ==> EscapeWords(ws)[i] == EscapeXml(ws[i]) && Solid(EscapeWords(ws)[i])
  {
    if ws != [] {
      EscapeWordsSolid(ws[1..]);
      EscapeSolid(ws[0]);
      forall i | 0 <= i < |ws|
        ensures EscapeWords(ws)[i] == EscapeXml(ws[i]) && Solid(EscapeWords(ws)[i])
      {
        if i > 0 {
          assert EscapeWords(ws)[i] == EscapeWords(ws[1..])[i - 1];
        }
      }
    }
  }

  lemma EscapeCons(c: char, w: string)
    ensures EscapeXml([c] + w) == Esc(c) + EscapeXml(w)
  {
    assert ([c] + w)[1..] == w;
  }

  lemma EscapeWordsCons(w: string, ws: seq<string>)
    ensures EscapeWords([w] + ws) == [EscapeXml(w)] + EscapeWords(ws)
  {
    assert ([w] + ws)[1..] == ws;
  }

  lemma EscSpace(c: char)
    requires IsSpace(c)
    ensures Esc(c) == [c]
  {
  }

  /** The step of EscapeSplit for a whitespace first character, which escaping keeps. */
  lemma SplitBlankStep(c: char, x: string, u': string)
    requires IsSpace(c)
    requires Split(x) == EscapeWords(Split(u'))
    ensures Split([c] + x) == EscapeWords(Split([c] + u'))
  {
    SplitBlankHead(c, x);
    SplitBlankHead(c, u');
  }

  lemma EscapeOne(c: char)
    ensures EscapeXml([c]) == Esc(c)
  {
    assert [c][1..] == [];
  }

  /** The step of EscapeSplit for a non-space first character. */
  lemma EscapeSplitWord(c: char, u': string)
    requires !IsSpace(c)
    requires Split(EscapeXml(u')) == EscapeWords(Split(u'))
    requires StartsBlank(EscapeXml(u')) <==> StartsBlank(u')
    ensures Split(EscapeXml([c] + u')) == EscapeWords(Split([c] + u'))
    ensures !StartsBlank(EscapeXml([c] + u')) && !StartsBlank([c] + u')
  {
    var x, e := EscapeXml(u'), Esc(c);
    EscapeCons(c, u');
    EscSolid(c);
    assert (e + x)[0] == e[0];
    if StartsBlank(u') {
      calc {
        EscapeWords(Split([c] + u'));
        { SplitCons(c, u'); }
        EscapeWords([[c]] + Split(u'));
        { EscapeWordsCons([c], Split(u')); }
        [EscapeXml([c])] + EscapeWords(Split(u'));
        { EscapeOne(c); }
        [e] + Split(x);
        { SplitWordCons(e, x); }
        Split(e + x);
      }
    } else {
      var w0, rest := Split(u')[0], Split(u')[1..];
      calc {
        EscapeWords(Split([c] + u'));
        { SplitCons(c, u'); }
        EscapeWords([[c] + w0] + rest);
        { EscapeWordsCons([c] + w0, rest); }
        [EscapeXml([c] + w0)] + EscapeWords(rest);
        { EscapeCons(c, w0); }
        [e + EscapeXml(w0)] + EscapeWords(rest);
        { assert Split(u') == [w0] + rest; EscapeWordsCons(w0, rest); }
        [e + Split(x)[0]] + Split(x)[1..];
        { SplitWordCons(e, x); }
        Split(e + x);
      }
    }
  }

  /** Escaping never touches whitespace, so it can be done before or after splitting into words. */
  lemma {:induction false} EscapeSplit(u: string)
    ensures Split(EscapeXml(u)) == EscapeWords(Split(u))
    ensures StartsBlank(EscapeXml(u)) <==> StartsBlank(u)
    decreases |u|
  {
    if u != [] {
      var c, u' := u[0], u[1..];
      EscapeSplit(u');
      assert u == [c] + u';
      if IsSpace(c) {
        EscapeCons(c, u');
        EscSpace(c);
        SplitBlankStep(c, EscapeXml(u'), u');
      } else {
        EscapeSplitWord(c, u');
      }
    }
  }

  /** Escaping each word and joining with spaces is escaping the joined text. */
  lemma {:induction false} JoinEscape(ws: seq<string>)
    ensures JoinSpace(EscapeWords(ws)) == EscapeXml(JoinSpace(ws))
  {
    if |ws| == 1 {
      assert EscapeWords(ws) == [EscapeXml(ws[0])];
    } else if |ws| >= 2 {
      JoinEscape(ws[1..]);
      EscapeAppend(ws[0] + " ", JoinSpace(ws[1..]));
      EscapeAppend(ws[0], " ");
      assert EscapeXml(" ") == " ";
      assert EscapeWords(ws)[1..] == EscapeWords(ws[1..]);
    }
  }

  // ------------------------------------------------------------ " ".join and strip

  /** Joining non-empty space-free words with single spaces gives normalized text. */
  lemma {:induction false} JoinNormalized(ws: seq<string>)
    requires forall i :: 0 <= i < |ws| ==> Solid(ws[i])
    ensures Normalized(JoinSpace(ws))
    ensures ws != [] ==> JoinSpace(ws) != []
  {
    if |ws| >= 2 {
      var a, b := ws[0], JoinSpace(ws[1..]);
      JoinNormalized(ws[1..]);
      var t := a + " " + b;
      assert JoinSpace(ws) == t;
      assert t[0] == a[0] && t[|t| - 1] == b[|b| - 1];
      forall i | 0 <= i < |t|
        ensures IsSpace(t[i]) ==> t[i] == ' '
      {
        if i < |a| {
          assert t[i] == a[i];
        } else if i > |a| {
          assert t[i] == b[i - |a| - 1];
        }
      }
      forall i, j | 0 <= i && j == i + 1 < |t|
        ensures !IsSpace(t[i]) || !IsSpace(t[j])
      {
        if j <= |a| {
          assert t[i] == a[i];
        } else if i == |a| {
          assert t[j] == b[0];
        } else {
          assert t[i] == b[i - |a| - 1] && t[j] == b[j - |a| - 1];
        }
      }
    } else if |ws| == 1 {
      assert JoinSpace(ws) == ws[0];
    }
  }

  /** Normalized text has nothing to strip. */
  lemma StripNormalized(t: string)
    requires Normalized(t)
    ensures Strip(t) == t
  {
  }

  // ------------------------------------------------------------ text content

  lemma {:induction false} NonSpaceAppend(a: string, b: string)
    ensures NonSpace(a + b) == NonSpace(a) + NonSpace(b)
  {
    if a == [] {
      assert a + b == b;
    } else {
      var a' := a[1..];
      var h := if IsSpace(a[0]) then [] else [a[0]];
      calc {
        NonSpace(a + b);
        { assert (a + b)[0] == a[0] && (a + b)[1..] == a' + b; }
        h + NonSpace(a' + b);
        { NonSpaceAppend(a', b); }
        h + (NonSpace(a') + NonSpace(b));
        { AppendAssoc(h, NonSpace(a'), NonSpace(b)); }
        (h + NonSpace(a')) + NonSpace(b);
        NonSpace(a) + NonSpace(b);
      }
    }
  }

  lemma {:induction false} NonSpaceOfSpaceFree(w: string)
    requires forall i :: 0 <= i < |w| ==> !IsSpace(w[i])
    ensures NonSpace(w) == w
  {
    if w != [] {
      NonSpaceOfSpaceFree(w[1..]);
      assert w == [w[0]] + w[1..];
    }
  }

  /** A non-space character occurs in s exactly when it occurs among s's non-space characters. */
  lemma {:induction false} NonSpaceMember(s: string, c: char)
    requires !IsSpace(c)
    ensures c in s <==> c in NonSpace(s)
  {
    if s != [] {
      NonSpaceMember(s[1..], c);
      assert s == [s[0]] + s[1..];
    }
  }

  /** The words of s hold exactly s's non-space characters, in order. */
  lemma {:induction false} SplitConcat(s: string)
    ensures Concat(Split(s)) == NonSpace(s)
    decreases |s|
  {
    if s != [] {
      if IsSpace(s[0]) {
        SplitConcat(s[1..]);
      } else {
        var w := FirstWord(s);
        var r := s[|w|..];
        SplitConcat(r);
        assert s == w + r;
        NonSpaceAppend(w, r);
        NonSpaceOfSpaceFree(w);
        assert Split(s) == [w] + Split(r);
      }
    }
  }

  lemma {:induction false} JoinNonSpace(ws: seq<string>)
    requires forall i :: 0 <= i < |ws| ==> Solid(ws[i])
    ensures NonSpace(JoinSpace(ws)) == Concat(ws)
  {
    if |ws| == 1 {
      NonSpaceOfSpaceFree(ws[0]);
      assert Concat(ws) == ws[0] + Concat([]);
    } else if |ws| >= 2 {
      JoinNonSpace(ws[1..]);
      NonSpaceOfSpaceFree(ws[0]);
      NonSpaceAppend(ws[0] + " ", JoinSpace(ws[1..]));
      NonSpaceAppend(ws[0], " ");
      assert NonSpace(" ") == [];
    }
  }

  /**
   * Collapsing whitespace (split, then join with spaces) gives normalized
   * text and keeps every non-space character, in order: it only removes or
   * replaces whitespace.
   */
  lemma CollapseWhitespace(s: string)
    ensures Normalized(JoinSpace(Split(s)))
    ensures NonSpace(JoinSpace(Split(s))) == NonSpace(s)
  {
    JoinNormalized(Split(s));
    JoinNonSpace(Split(s));
    SplitConcat(s);
  }

  // ------------------------------------------------------------ what the cleaner does

  /** The cleaned text is the NUL-free input split into words, each word escaped, joined with single spaces. */
  lemma CleanTextWords(s: string)
    ensures CleanText(s) == JoinSpace(EscapeWords(Split(RemoveNul(s))))
  {
    var u := RemoveNul(s);
    if s != "" {
      var t1 := EscapeChain(s);
      EscapeChainIsEscapeXml(s);
      var t2 := ReplaceAll(t1, [NUL], "");
      ReplaceSingle(t1, NUL, "");
      RemoveNulEscape(s);
      assert t2 == EscapeXml(u);
      var t3 := ReplaceAll(t2, "\r\n", " ");
      SplitCrLf(t2);
      var t4 := ReplaceAll(t3, "\n", " ");
      ReplaceSingle(t3, '\n', " ");
      SplitSubstBlank(t3, '\n');
      var t5 := ReplaceAll(t4, "\t", " ");
      ReplaceSingle(t4, '\t', " ");
      SplitSubstBlank(t4, '\t');
      EscapeSplit(u);
      assert Split(t5) == EscapeWords(Split(u));
      EscapeWordsSolid(Split(u));
      JoinNormalized(EscapeWords(Split(u)));
      StripNormalized(JoinSpace(EscapeWords(Split(u))));
    }
  }

  /**
   * _clean_text_for_pdf escapes the whitespace-collapsed, NUL-free text: the
   * line-break and tab replacements have no effect beyond what split() does.
   */
  lemma CleanTextIsEscapedCollapse(s: string)
    ensures CleanText(s) == EscapeXml(JoinSpace(Split(RemoveNul(s))))
  {
    CleanTextWords(s);
    JoinEscape(Split(RemoveNul(s)));
  }

  /**
   * Reading the cleaned text back as markup gives the input with NULs
   * dropped and whitespace collapsed; every other character survives, in order.
   */
  lemma CleanTextRoundTrip(s: string)
    ensures Unescape(CleanText(s)) == JoinSpace(Split(RemoveNul(s)))
    ensures NonSpace(Unescape(CleanText(s))) == NonSpace(RemoveNul(s))
  {
    CleanTextIsEscapedCollapse(s);
    UnescapeEscape(JoinSpace(Split(RemoveNul(s))));
    CollapseWhitespace(RemoveNul(s));
  }

  /**
   * The cleaned text is safe inside a ReportLab paragraph: no markup
   * character other than the ampersands of entities, no NUL, and whitespace
   * only as single spaces between words.
   */
  lemma CleanTextSafe(s: string)
    ensures forall i :: 0 <= i < |CleanText(s)| ==> CleanText(s)[i] !in "<>\"'" && CleanText(s)[i] != NUL
    ensures Normalized(CleanText(s))
  {
    var u := RemoveNul(s);
    var x := JoinSpace(Split(u));
    CleanTextWords(s);
    EscapeWordsSolid(Split(u));
    JoinNormalized(EscapeWords(Split(u)));
    CleanTextIsEscapedCollapse(s);
    EscapeXmlNoMarkup(x);
    EscapeXmlNul(x);
    SubstRemoves(s, NUL);
    CollapseWhitespace(u);
    NonSpaceMember(x, NUL);
    NonSpaceMember(u, NUL);
    assert NUL !in CleanText(s);
  }
}
