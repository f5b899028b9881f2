/**
 * Naming of output documents. A node of the crawl tree is identified by the
 * path of 1-based positions leading to it: the task's position in the
 * configuration list, then the node's position among its parent's child URLs,
 * and so on. The path is written as dash-joined decimals ("2-1-3") and the
 * node's document is called web{index}.pdf.
 */
module NodeIndex {

  predicate IsDigit(c: char) {
    '0' <= c <= '9'
  }

  /** The digit character for d. */
  function DigitChar(d: nat): (c: char)
    requires d < 10
    ensures IsDigit(c)
  {
    (d + '0' as int) as char
  }

  /** Python's str(n) for a non-negative integer. */
  function Decimal(n: nat): (s: string)
    ensures 1 <= |s|
    ensures forall i :: 0 <= i < |s| ==> IsDigit(s[i])
    ensures n != 0 ==> s[0] != '0'
  {
    if n < 10 then [DigitChar(n)] else Decimal(n / 10) + [DigitChar(n % 10)]
  }

  /** The number a string of decimal digits stands for. */
  function ValueOf(s: string): nat
    requires forall i :: 0 <= i < |s| ==> IsDigit(s[i])
  {
    if s == [] then 0
    else ValueOf(s[..|s| - 1]) * 10 + DigitValue(s[|s| - 1])
  }

  function DigitValue(c: char): nat
    requires IsDigit(c)
  {
    c as int - '0' as int
  }

  /** Reading back the decimal form gives the number: str(n) loses nothing. */
  lemma {:induction false} DecimalRoundTrip(n: nat)
    ensures ValueOf(Decimal(n)) == n
  {
    var s := Decimal(n);
    if n >= 10 {
      assert s[..|s| - 1] == Decimal(n / 10);
      DecimalRoundTrip(n / 10);
    } else {
      assert s[..|s| - 1] == [];
    }
  }

  /** Distinct numbers have distinct decimal forms. */
  lemma DecimalInjective(m: nat, n: nat)
    requires Decimal(m) == Decimal(n)
    ensures m == n
  {
    DecimalRoundTrip(m);
    DecimalRoundTrip(n);
  }

  /** The node index of a path: its positions in decimal, joined by '-'. */
  function Index(path: seq<nat>): (s: string)
    requires |path| >= 1
    ensures '-' in s <==> |path| > 1
  {
    if |path| == 1 then Decimal(path[0])
    else Index(path[..|path| - 1]) + "-" + Decimal(path[|path| - 1])
  }

  /** Extending a path by position i extends its index by "-i", as a child index is built. */
  lemma IndexOfChild(path: seq<nat>, i: nat)
    requires |path| >= 1
    ensures Index(path + [i]) == Index(path) + "-" + Decimal(i)
  {
    assert (path + [i])[..|path|] == path;
  }

  /** The position of the last '-' in s, or -1 when s has none. */
  function LastDash(s: string): (k: int)
    ensures -1 <= k < |s|
  {
    if s == [] then -1
    else if s[|s| - 1] == '-' then |s| - 1
    else LastDash(s[..|s| - 1])
  }

  /** In b + "-" + y with a dash-free y, the last dash is the one after b. */
  lemma {:induction false} LastDashBeforeTail(b: string, y: string)
    requires '-' !in y
    ensures LastDash(b + "-" + y) == |b|
  {
    var s := b + "-" + y;
    if y != [] {
      var y' := y[..|y| - 1];
      assert s[..|s| - 1] == b + "-" + y';
      LastDashBeforeTail(b, y');
    }
  }

  /** Two splits of one string at a dash before a dash-free tail are the same split. */
  lemma SplitAtLastDash(a: string, x: string, b: string, y: string)
    requires '-' !in x && '-' !in y
    requires a + "-" + x == b + "-" + y
    ensures a == b && x == y
  {
    var s := a + "-" + x;
    LastDashBeforeTail(a, x);
    LastDashBeforeTail(b, y);
    assert a == s[..|a|];
    assert b == s[..|b|];
    assert x == s[|a| + 1..];
    assert y == s[|b| + 1..];
  }

  /** Distinct paths have distinct indices. */
  lemma {:induction false} IndexInjective(p: seq<nat>, q: seq<nat>)
    requires |p| >= 1 && |q| >= 1
    requires Index(p) == Index(q)
    ensures p == q
  {
    if |p| == 1 {
      assert |q| == 1;
      DecimalInjective(p[0], q[0]);
    } else {
      assert |q| > 1;
      var p', q' := p[..|p| - 1], q[..|q| - 1];
      var dp, dq := Decimal(p[|p| - 1]), Decimal(q[|q| - 1]);
      assert '-' !in dp && '-' !in dq;
      SplitAtLastDash(Index(p'), dp, Index(q'), dq);
      IndexInjective(p', q');
      DecimalInjective(p[|p| - 1], q[|q| - 1]);
      assert p == p' + [p[|p| - 1]];
      assert q == q' + [q[|q| - 1]];
    }
  }

  /** The document name of a node: "web" + index + ".pdf". */
  function PdfName(path: seq<nat>): string
    requires |path| >= 1
  {
    "web" + Index(path) + ".pdf"
  }

  /** Distinct nodes get distinct document names, so no document overwrites another. */
  lemma PdfNameInjective(p: seq<nat>, q: seq<nat>)
    requires |p| >= 1 && |q| >= 1
    ensures PdfName(p) == PdfName(q) <==> p == q
  {
    if PdfName(p) == PdfName(q) {
      var s := PdfName(p);
      assert Index(p) == s[3..|s| - 4];
      assert Index(q) == s[3..|s| - 4];
      IndexInjective(p, q);
    }
  }
}
