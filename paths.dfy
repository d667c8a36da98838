/** The path and text conventions the data-preparation code relies on:
    POSIX `os.path.join` and `os.path.splitext`, and Python's `str(int)`. */
module Paths {

  const Sep: char := '/'
  const ExtSep: char := '.'

  /** `s` has no repeated element. */
  predicate Distinct<T(==)>(s: seq<T>) {
    forall i, j :: 0 <= i < j < |s| ==> s[i] != s[j]
  }

  /** `names` enumerates the set `entries` once each, in some order. */
  predicate IsListing(names: seq<string>, entries: set<string>) {
    && Distinct(names)
    && (forall x :: x in names ==> x in entries)
    && (forall x :: x in entries ==> x in names)
  }

  /** `os.path.join(a, b)`: an absolute `b` replaces `a`; otherwise `b` is
      appended after one separator, which is not doubled when `a` is empty
      or already ends in one. */
  function Join(a: string, b: string): (p: string)
    ensures |p| >= |b| && p[|p| - |b|..] == b
    ensures b != [] && b[0] == Sep ==> p == b
    ensures (b == [] || b[0] != Sep) ==> |p| >= |a| && p[..|a|] == a
    ensures (b == [] || b[0] != Sep) && a != [] && a[|a| - 1] != Sep ==> p == a + [Sep] + b
    ensures (b == [] || b[0] != Sep) && (a == [] || a[|a| - 1] == Sep) ==> p == a + b
  {
    if b != [] && b[0] == Sep then b
    else if a == [] || a[|a| - 1] == Sep then a + b
    else a + [Sep] + b
  }

  /** `p.rfind(c)`: the index of the last `c` in `p`, or -1. */
  function RFind(p: string, c: char): (k: int)
    ensures -1 <= k < |p|
    ensures k >= 0 ==> p[k] == c
    ensures forall j :: k < j < |p| ==> p[j] != c
  {
    if p == [] then -1
    else if p[|p| - 1] == c then |p| - 1
    else RFind(p[..|p| - 1], c)
  }

  /** The three properties of RFind's contract pin down one index. */
  lemma RFindIs(p: string, c: char, k: int)
    requires -1 <= k < |p|
    requires k >= 0 ==> p[k] == c
    requires forall j :: k < j < |p| ==> p[j] != c
    ensures RFind(p, c) == k
  {
  }

  /** When `c` occurs in neither `t1` nor `t2`, the last `c` of `s + [c] + t`
      is the one after `s`, so the split is unique. */
  lemma SplitAtLast(s1: string, t1: string, s2: string, t2: string, c: char)
    requires c !in t1 && c !in t2
    requires s1 + [c] + t1 == s2 + [c] + t2
    ensures s1 == s2 && t1 == t2
  {
    var p := s1 + [c] + t1;
    assert forall j :: |s1| < j < |p| ==> p[j] == t1[j - |s1| - 1];
    RFindIs(p, c, |s1|);
    assert forall j :: |s2| < j < |p| ==> p[j] == t2[j - |s2| - 1];
    RFindIs(p, c, |s2|);
    assert s1 == p[..|s1|] && t1 == p[|s1| + 1..];
    assert s2 == p[..|s2|] && t2 == p[|s2| + 1..];
  }

  /** The last character of `p` is not a separator and not a dot: the
      `.ext` suffix search of splitext then finds a real stem. */
  predicate EndsInNameChar(p: string) {
    p != [] && p[|p| - 1] != Sep && p[|p| - 1] != ExtSep
  }

  /** `(stem, ext)` is how POSIX splitext divides `p`. The extension is
      empty exactly when no dot of the last path component comes after a
      character of that component that is not a dot (so ".bashrc" and "a"
      have none). Otherwise the extension runs from the last dot of the
      component to the end. */
  predicate IsExtSplit(p: string, stem: string, ext: string) {
    var sepIndex := RFind(p, Sep);
    && stem + ext == p
    && (ext == [] ==>
          forall m, j :: sepIndex < m < j < |p| && p[j] == ExtSep ==> p[m] == ExtSep)
    && (ext != [] ==>
          && ext[0] == ExtSep
          && (forall j :: 0 < j < |ext| ==> ext[j] != ExtSep && ext[j] != Sep)
          && exists m :: sepIndex < m < |stem| && p[m] != ExtSep)
  }

  /** `os.path.splitext(p)` (POSIX): split at the last dot of the last path
      component, provided a character that is not a dot comes before it in
      that component. */
  function SplitExt(p: string): (r: (string, string))
    ensures IsExtSplit(p, r.0, r.1)
  {
    var sepIndex := RFind(p, Sep);
    var dotIndex := RFind(p, ExtSep);
    if dotIndex > sepIndex && exists k :: sepIndex < k < dotIndex && p[k] != ExtSep then
      assert p == p[..dotIndex] + p[dotIndex..];
      (p[..dotIndex], p[dotIndex..])
    else
      assert p + [] == p;
      (p, [])
  }

  /** Only one division of a path meets IsExtSplit: the one SplitExt
      returns. */
  lemma SplitExtUnique(p: string, stem: string, ext: string)
    requires IsExtSplit(p, stem, ext)
    ensures SplitExt(p) == (stem, ext)
  {
    var sepIndex := RFind(p, Sep);
    if ext != [] {
      var m :| sepIndex < m < |stem| && p[m] != ExtSep;
      assert forall j :: |stem| < j < |p| ==> p[j] == ext[j - |stem|];
      RFindIs(p, ExtSep, |stem|);
      assert stem == p[..|stem|] && ext == p[|stem|..];
    } else {
      assert stem == p;
    }
  }

  /** An extension is split off at the last dot; a leading dot of the
      last component does not count; a dot in a folder name does not
      count. */
  lemma SplitExtExamples()
    ensures SplitExt("x.tar.gz") == ("x.tar", ".gz")
    ensures SplitExt("a/.bashrc") == ("a/.bashrc", "")
    ensures SplitExt("d.v/name") == ("d.v/name", "")
  {
    SplitExtLastDot();
    SplitExtLeadingDot();
    SplitExtFolderDot();
  }

  lemma SplitExtLastDot()
    ensures SplitExt("x.tar.gz") == ("x.tar", ".gz")
  {
    assert RFind("x.tar.gz", Sep) == -1 by { RFindIs("x.tar.gz", Sep, -1); }
    assert "x.tar.gz"[0] != ExtSep;
    SplitExtUnique("x.tar.gz", "x.tar", ".gz");
  }

  lemma SplitExtLeadingDot()
    ensures SplitExt("a/.bashrc") == ("a/.bashrc", "")
  {
    assert RFind("a/.bashrc", Sep) == 1 by { RFindIs("a/.bashrc", Sep, 1); }
    SplitExtUnique("a/.bashrc", "a/.bashrc", "");
  }

  lemma SplitExtFolderDot()
    ensures SplitExt("d.v/name") == ("d.v/name", "")
  {
    assert RFind("d.v/name", Sep) == 3 by { RFindIs("d.v/name", Sep, 3); }
    SplitExtUnique("d.v/name", "d.v/name", "");
  }

  /** The path without its extension: the first part of POSIX splitext. */
  function Stem(p: string): (r: string)
    ensures |r| <= |p| && IsExtSplit(p, r, p[|r|..])
  {
    var (stem, ext) := SplitExt(p);
    assert p[|stem|..] == ext;
    stem
  }

  /** Giving a name that ends in an ordinary character the extension ".jpg"
      and taking its stem again gives the name back. */
  lemma {:induction false} StemOfJpg(s: string)
    requires EndsInNameChar(s)
    ensures IsExtSplit(s + ".jpg", s, ".jpg") && SplitExt(s + ".jpg") == (s, ".jpg")
  {
    var p := s + ".jpg";
    assert p[|s|] == ExtSep && p[|s| + 1..] == "jpg";
    RFindIs(p, ExtSep, |s|);
    assert RFind(p, Sep) < |s| - 1;
    assert p[|s| - 1] != ExtSep;
    assert p[..|s|] == s;
  }

  function Digit(d: nat): (c: char)
    requires d < 10
    ensures '0' <= c <= '9'
    ensures c as int - '0' as int == d
  {
    "0123456789"[d]
  }

  predicate AllDigits(s: string) {
    forall j :: 0 <= j < |s| ==> '0' <= s[j] <= '9'
  }

  /** The value of a string of decimal digits. */
  function DecimalValue(s: string): nat
    requires AllDigits(s)
  {
    if s == [] then 0
    else DecimalValue(s[..|s| - 1]) * 10 + (s[|s| - 1] as int - '0' as int)
  }

  /** `str(n)` for a non-negative int: decimal digits, no leading zero. */
  function NatToString(n: nat): (s: string)
    ensures s != [] && AllDigits(s)
    ensures |s| > 1 ==> s[0] != '0'
  {
    if n < 10 then [Digit(n)] else NatToString(n / 10) + [Digit(n % 10)]
  }

  /** Reading the digits back gives the number. */
  lemma {:induction false} DecimalRoundTrip(n: nat)
    ensures DecimalValue(NatToString(n)) == n
  {
    var s := NatToString(n);
    if n >= 10 {
      DecimalRoundTrip(n / 10);
      assert s[..|s| - 1] == NatToString(n / 10);
    }
  }

  lemma NatToStringInjective(m: nat, n: nat)
    requires NatToString(m) == NatToString(n)
    ensures m == n
  {
    DecimalRoundTrip(m);
    DecimalRoundTrip(n);
  }

  /** `str(i)` for any int: a minus sign before the digits of a negative number. */
  function IntToString(i: int): (s: string)
    ensures s != [] && '_' !in s && ExtSep !in s && Sep !in s
    ensures '0' <= s[|s| - 1] <= '9'
    ensures i >= 0 ==> AllDigits(s) && DecimalValue(s) == i
    ensures i < 0 ==> s[0] == '-' && AllDigits(s[1..]) && DecimalValue(s[1..]) == -i
    ensures i >= 0 && |s| > 1 ==> s[0] != '0'
    ensures i < 0 ==> |s| >= 2 && (|s| > 2 ==> s[1] != '0')
  {
    if i < 0 then MinusDigits(-i)
    else
      DigitsShape(i);
      NatToString(i)
  }

  /** A minus sign before the digits of `n`. */
  function MinusDigits(n: nat): (s: string)
    ensures s != [] && '_' !in s && ExtSep !in s && Sep !in s
    ensures '0' <= s[|s| - 1] <= '9'
    ensures s[0] == '-' && AllDigits(s[1..]) && DecimalValue(s[1..]) == n
    ensures |s| >= 2 && (|s| > 2 ==> s[1] != '0')
  {
    var digits := NatToString(n);
    var s := "-" + digits;
    assert s[1..] == digits;
    assert s[|s| - 1] == digits[|digits| - 1];
    DigitsShape(n);
    assert forall c :: c in s ==> c == '-' || c in digits;
    s
  }

  /** The digits of `n` end in a digit, hold no separator, underscore or
      dot, and read back as `n`. */
  lemma DigitsShape(n: nat)
    ensures var s := NatToString(n);
      '0' <= s[|s| - 1] <= '9' && '_' !in s && ExtSep !in s && Sep !in s && DecimalValue(s) == n
  {
    var s := NatToString(n);
    assert '0' <= s[|s| - 1] <= '9';
    DecimalRoundTrip(n);
    DigitsHaveNoMarks(s);
  }

  lemma DigitsHaveNoMarks(s: string)
    requires AllDigits(s)
    ensures '_' !in s && ExtSep !in s && Sep !in s
  {
    forall j | 0 <= j < |s|
      ensures s[j] != '_' && s[j] != ExtSep && s[j] != Sep
    {
      assert '0' <= s[j] <= '9';
    }
  }

  /** A join whose second part is relative and whose first part ends in a
      separator, or is empty, just concatenates; otherwise one separator is
      put between. */
  lemma JoinExamples()
    ensures Join("x/", "y") == "x/y" && Join("", "y") == "y" && Join("x", "y") == "x/y" && Join("x", "/y") == "/y"
  {
    assert "x/"[1] == Sep && "x"[0] != Sep && "y"[0] != Sep && "/y"[0] == Sep;
    assert "x/" + "y" == "x/y";
    assert "" + "y" == "y";
    assert "x" + [Sep] + "y" == "x/y";
  }

  /** `str(5)` is "5" and `str(-12)` is "-12". */
  lemma IntToStringExamples()
    ensures IntToString(5) == "5" && IntToString(-12) == "-12"
  {
  }

  lemma IntToStringInjective(i: int, j: int)
    requires IntToString(i) == IntToString(j)
    ensures i == j
  {
    var s := IntToString(i);
    if i < 0 && j < 0 {
      assert DecimalValue(s[1..]) == -i && DecimalValue(s[1..]) == -j;
    } else if i >= 0 && j >= 0 {
      assert DecimalValue(s) == i && DecimalValue(s) == j;
    }
  }
}
