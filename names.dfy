/** String helpers the file manager applies to file names: Python's
    str.strip(), os.path.splitext, pathlib's PurePath.suffix, ASCII
    lower-casing, the separator test of the rename routes, and the
    "{base}_{i}{ext}" candidate names of the upload routes. */
module FileNames {

  // ---------------------------------------------------------------------
  // str.strip()
  // ---------------------------------------------------------------------

  /** The characters for which Python's str.isspace() holds; str.strip()
      with no argument removes exactly these from both ends. */
  predicate IsSpace(c: char) {
    || ('\t' <= c <= '\r')
    || ('\U{1C}' <= c <= ' ')
    || c == '\U{85}' || c == '\U{A0}' || c == '\U{1680}'
    || ('\U{2000}' <= c <= '\U{200A}')
    || c == '\U{2028}' || c == '\U{2029}' || c == '\U{202F}'
    || c == '\U{205F}' || c == '\U{3000}'
  }

  predicate AllSpace(s: string) {
    forall i :: 0 <= i < |s| ==> IsSpace(s[i])
  }

  /** Drops leading whitespace: the result is the suffix of `s` that starts
      at its first non-space character. */
  function LStrip(s: string): (r: string)
    ensures |r| <= |s| && r == s[|s| - |r|..]
    ensures AllSpace(s[..|s| - |r|])
    ensures r == [] || !IsSpace(r[0])
  {
    if |s| > 0 && IsSpace(s[0]) then
      var r := LStrip(s[1..]);
      assert s[1..][..|s| - 1 - |r|] == s[1..|s| - |r|];
      r
    else
      s
  }

  /** Drops trailing whitespace: the result is the prefix of `s` that ends
      at its last non-space character. */
  function RStrip(s: string): (r: string)
    ensures |r| <= |s| && r == s[..|r|]
    ensures AllSpace(s[|r|..])
    ensures r == [] || !IsSpace(r[|r| - 1])
  {
    if |s| > 0 && IsSpace(s[|s| - 1]) then
      var r := RStrip(s[..|s| - 1]);
      assert s[..|s| - 1][|r|..] == s[|r|..|s| - 1];
      r
    else
      s
  }

  /** `r` is `s` from index `k` on, with only whitespace cut off either
      side. */
  predicate StrippedAt(s: string, r: string, k: int) {
    0 <= k <= |s| - |r| && r == s[k..k + |r|] && AllSpace(s[..k]) && AllSpace(s[k + |r|..])
  }

  lemma StripParts(s: string)
    ensures StrippedAt(s, RStrip(LStrip(s)), |s| - |LStrip(s)|)
  {
    var l := LStrip(s);
    var r := RStrip(l);
    var k := |s| - |l|;
    assert r == s[k..k + |r|];
    assert s[k + |r|..] == l[|r|..];
  }

  /** Python's str.strip() with no argument (app.py:465, app.py:548). */
  function Strip(s: string): (r: string)
    ensures r == [] || (!IsSpace(r[0]) && !IsSpace(r[|r| - 1]))
    ensures exists k :: StrippedAt(s, r, k)
  {
    StripParts(s);
    RStrip(LStrip(s))
  }

  /** Stripping an already stripped string changes nothing. */
  lemma StripIdempotent(s: string)
    ensures Strip(Strip(s)) == Strip(s)
  {
    var r := Strip(s);
    assert LStrip(r) == r;
    assert RStrip(r) == r;
  }

  // ---------------------------------------------------------------------
  // Separators and directory entry names
  // ---------------------------------------------------------------------

  /** The test `"/" in new_name or "\\" in new_name` of the rename routes. */
  predicate HasSeparator(s: string) {
    '/' in s || '\\' in s
  }

  /** A name a POSIX directory can hold as an entry: not empty, not one of
      the two links "." and "..", and free of '/' and of NUL, which the
      system calls refuse (Python raises ValueError before calling them).
      The limit on a name's length is not part of this model. */
  predicate EntryName(n: string) {
    n != "" && n != "." && n != ".." && '/' !in n && '\0' !in n
  }

  // ---------------------------------------------------------------------
  // os.path.splitext and PurePath.suffix
  // ---------------------------------------------------------------------

  /** str.rfind for a single character: the last index of `c`, or -1. */
  function LastIndexOf(s: string, c: char): (k: int)
    ensures -1 <= k < |s|
    ensures k >= 0 ==> s[k] == c
    ensures forall i :: k < i < |s| ==> s[i] != c
  {
    if |s| == 0 then -1
    else if s[|s| - 1] == c then |s| - 1
    else LastIndexOf(s[..|s| - 1], c)
  }

  /** Whether `s` holds a character other than '.'. */
  predicate HasNonDot(s: string) {
    |s| > 0 && (s[0] != '.' || HasNonDot(s[1..]))
  }

  lemma {:induction false} HasNonDotAt(s: string)
    ensures HasNonDot(s) <==> exists i :: 0 <= i < |s| && s[i] != '.'
  {
    if |s| > 0 {
      HasNonDotAt(s[1..]);
      if s[0] == '.' && exists i :: 0 <= i < |s| && s[i] != '.' {
        var i :| 0 <= i < |s| && s[i] != '.';
        assert s[1..][i - 1] != '.';
      }
    }
  }

  /** What os.path.splitext may split off: nothing, or a '.' followed by
      characters that are neither '.' nor '/'. */
  predicate IsExtension(e: string) {
    e == "" || (e[0] == '.' && '.' !in e[1..] && '/' !in e)
  }

  /** Where posixpath.splitext starts the extension of `p`, or -1: at the
      last '.' of the last path component, provided that component has a
      character other than '.' before it. */
  function ExtStart(p: string): (k: int)
    ensures -1 <= k < |p|
    ensures k >= 0 ==> IsExtension(p[k..])
  {
    var sep := LastIndexOf(p, '/');
    var dot := LastIndexOf(p, '.');
    if dot > sep && HasNonDot(p[sep + 1..dot]) then
      TailIsExtension(p, sep, dot);
      dot
    else
      -1
  }

  lemma TailIsExtension(p: string, sep: int, dot: int)
    requires -1 <= sep < dot < |p| && p[dot] == '.'
    requires forall i :: sep < i < |p| ==> p[i] != '/'
    requires forall i :: dot < i < |p| ==> p[i] != '.'
    ensures IsExtension(p[dot..])
  {
    var ext := p[dot..];
    assert forall i :: 0 <= i < |ext| ==> ext[i] == p[dot + i];
  }

  /** posixpath.splitext: (root, ext) with root + ext == p; ".bashrc" and
      "..." have no extension, "a.tar.gz" has ".gz". */
  function SplitExt(p: string): (r: (string, string))
    ensures r.0 + r.1 == p
    ensures IsExtension(r.1)
  {
    var k := ExtStart(p);
    if k >= 0 then
      assert p[..k] + p[k..] == p;
      (p[..k], p[k..])
    else
      (p, "")
  }

  /** LastIndexOf finds the occurrence with none after it. */
  lemma LastIndexOfIs(s: string, c: char, k: int)
    requires -1 <= k < |s|
    requires k >= 0 ==> s[k] == c
    requires forall i :: k < i < |s| ==> s[i] != c
    ensures LastIndexOf(s, c) == k
  {
  }

  /** splitext("report.txt") == ("report", ".txt"). */
  lemma SplitExtOfReport()
    ensures SplitExt("report.txt") == ("report", ".txt")
  {
    var p := "report.txt";
    LastIndexOfIs(p, '/', -1);
    LastIndexOfIs(p, '.', 6);
    assert p[0..6] == "report" && p[6..] == ".txt";
    assert HasNonDot("report");
  }

  /** A leading dot does not start an extension: splitext(".bashrc") ==
      (".bashrc", ""). */
  lemma SplitExtOfDotfile()
    ensures SplitExt(".bashrc") == (".bashrc", "")
  {
    var p := ".bashrc";
    LastIndexOfIs(p, '/', -1);
    LastIndexOfIs(p, '.', 0);
    assert !HasNonDot(p[0..0]);
  }

  /** No '/' at index `j` or after it. */
  predicate NoSlashFrom(p: string, j: int) {
    forall k :: 0 <= j <= k < |p| ==> p[k] != '/'
  }

  /** Some '.' has, before it and with no '/' in between, a character that
      is not a '.'. */
  predicate HasStemBeforeDot(p: string) {
    exists j, d :: 0 <= j < d < |p| && p[d] == '.' && p[j] != '.' && NoSlashFrom(p, j)
  }

  /** SplitExt splits off an extension exactly when some '.' follows a
      character other than '.' in the last path component. */
  lemma SplitExtFindsExtension(p: string)
    ensures SplitExt(p).1 != "" <==> HasStemBeforeDot(p)
  {
    var sep := LastIndexOf(p, '/');
    var dot := LastIndexOf(p, '.');
    if ExtStart(p) >= 0 {
      HasNonDotAt(p[sep + 1..dot]);
      var i :| 0 <= i < |p[sep + 1..dot]| && p[sep + 1..dot][i] != '.';
      var j := sep + 1 + i;
      assert p[j] != '.' && p[dot] == '.' && NoSlashFrom(p, j);
    }
    if HasStemBeforeDot(p) {
      var j, d :| 0 <= j < d < |p| && p[d] == '.' && p[j] != '.' && NoSlashFrom(p, j);
      assert dot >= d;
      assert sep < j;
      HasNonDotAt(p[sep + 1..dot]);
      assert p[sep + 1..dot][j - sep - 1] == p[j];
    }
  }

  /** pathlib's PurePath.suffix of a final path component: from the last
      '.' on, unless that '.' is the first or the last character. */
  function Suffix(name: string): (r: string)
    ensures r == "" || (2 <= |r| < |name| && r[0] == '.' && '.' !in r[1..])
    ensures r == name[|name| - |r|..]
  {
    var i := LastIndexOf(name, '.');
    if 0 < i < |name| - 1 then name[i..] else ""
  }

  // ---------------------------------------------------------------------
  // Lower-casing
  // ---------------------------------------------------------------------

  /** ASCII lower-casing of one character; every other character is kept. */
  function LowerChar(c: char): char {
    if 'A' <= c <= 'Z' then (c as int - 'A' as int + 'a' as int) as char else c
  }

  /** Lower-casing, character by character. */
  function Lower(s: string): (r: string)
    ensures |r| == |s|
    ensures forall i :: 0 <= i < |s| ==> r[i] == LowerChar(s[i])
  {
    seq(|s|, i requires 0 <= i < |s| => LowerChar(s[i]))
  }

  /** Lower-casing keeps every '.' where it was and adds none. */
  lemma LowerKeepsDots(s: string)
    ensures forall i :: 0 <= i < |s| ==> (Lower(s)[i] == '.' <==> s[i] == '.')
  {
  }

  /** Lower-casing commutes with taking the last index of '.'. */
  lemma {:induction false} LastDotOfLower(s: string)
    ensures LastIndexOf(Lower(s), '.') == LastIndexOf(s, '.')
  {
    if |s| > 0 {
      assert Lower(s)[..|s| - 1] == Lower(s[..|s| - 1]);
      LastDotOfLower(s[..|s| - 1]);
    }
  }

  /** The suffix of a lower-cased name is the lower-cased suffix. */
  lemma SuffixOfLower(name: string)
    ensures Suffix(Lower(name)) == Lower(Suffix(name))
  {
    LastDotOfLower(name);
  }

  // ---------------------------------------------------------------------
  // Decimal numerals, f"{i}" for i >= 1
  // ---------------------------------------------------------------------

  predicate IsDigit(c: char) {
    '0' <= c <= '9'
  }

  predicate AllDigits(s: string) {
    forall i :: 0 <= i < |s| ==> IsDigit(s[i])
  }

  function DigitChar(d: nat): (c: char)
    requires d < 10
    ensures IsDigit(c) && c as int - '0' as int == d
  {
    ('0' as int + d) as char
  }

  /** Python's str(n) for a natural number n. */
  function Decimal(n: nat): (s: string)
    ensures 1 <= |s| && AllDigits(s)
    ensures n > 0 ==> s[0] != '0'
  {
    if n < 10 then [DigitChar(n)] else Decimal(n / 10) + [DigitChar(n % 10)]
  }

  /** Reads a string of decimal digits back as a number. */
  function ParseDecimal(s: string): nat
    requires AllDigits(s)
  {
    if s == [] then 0
    else ParseDecimal(s[..|s| - 1]) * 10 + (s[|s| - 1] as int - '0' as int)
  }

  /** Reading a numeral back gives the number it was made from. */
  lemma {:induction false} ParseDecimalOfDecimal(n: nat)
    ensures ParseDecimal(Decimal(n)) == n
  {
    if n >= 10 {
      var s := Decimal(n);
      assert s[..|s| - 1] == Decimal(n / 10);
      ParseDecimalOfDecimal(n / 10);
    }
  }

  /** Distinct numbers have distinct numerals. */
  lemma DecimalInjective(a: nat, b: nat)
    requires Decimal(a) == Decimal(b)
    ensures a == b
  {
    ParseDecimalOfDecimal(a);
    ParseDecimalOfDecimal(b);
  }

  // ---------------------------------------------------------------------
  // Candidate names of the upload routes
  // ---------------------------------------------------------------------

  /** The i-th alternative name tried for `baseName`: f"{base}_{i}{ext}"
      where base, ext = os.path.splitext(baseName) (app.py:404-408,
      app.py:526-528). */
  function Candidate(baseName: string, i: nat): string {
    var (base, ext) := SplitExt(baseName);
    base + "_" + Decimal(i) + ext
  }

  /** A candidate holds only the characters of its base name, one '_' and
      digits; so it has a separator only if the base name has one. */
  lemma CandidateChars(baseName: string, i: nat, c: char)
    requires c != '_' && !IsDigit(c) && c !in baseName
    ensures c !in Candidate(baseName, i)
  {
    var (base, ext) := SplitExt(baseName);
    assert c !in base && c !in ext by {
      assert forall k :: 0 <= k < |base| ==> base[k] == baseName[k];
      assert forall k :: 0 <= k < |ext| ==> ext[k] == baseName[|base| + k];
    }
  }

  /** The candidate names for one base name are pairwise distinct. */
  lemma CandidateInjective(baseName: string, i: nat, j: nat)
    requires Candidate(baseName, i) == Candidate(baseName, j)
    ensures i == j
  {
    var (base, ext) := SplitExt(baseName);
    var x, di, dj := base + "_", Decimal(i), Decimal(j);
    var ci, cj := x + di + ext, x + dj + ext;
    assert |di| == |dj|;
    assert di == ci[|x|..|x| + |di|];
    assert dj == cj[|x|..|x| + |dj|];
    DecimalInjective(i, j);
  }

  /** No candidate is one of the names "", "." and "..", and none holds a
      '/' or a NUL when the base name holds none: each is a valid entry
      name. */
  lemma CandidateIsEntryName(baseName: string, i: nat)
    requires '/' !in baseName && '\0' !in baseName
    ensures EntryName(Candidate(baseName, i))
  {
    var (base, ext) := SplitExt(baseName);
    var c := Candidate(baseName, i);
    assert c[|base|] == '_';
    CandidateChars(baseName, i, '/');
    CandidateChars(baseName, i, '\0');
  }

  /** The first alternative to "report.txt" is "report_1.txt". */
  lemma CandidateOfReport()
    ensures Candidate("report.txt", 1) == "report_1.txt"
    ensures Candidate("report.txt", 12) == "report_12.txt"
  {
    SplitExtOfReport();
    assert Decimal(12) == Decimal(1) + ['2'];
  }
}
