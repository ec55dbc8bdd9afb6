/**
 * Character classes and the handful of Python string operations the
 * migration script relies on: `str.strip()`, `str.replace(pat, "")`,
 * `str.split(":")` and `int()` on a decimal string.
 */
module Text {
  import opened Wrappers

  /** The characters Python's `str.isspace()` accepts; `\s` in a `str` regex matches the same set. */
  predicate IsSpace(c: char) {
    ('\t' <= c <= '\r') || ('\U{1C}' <= c <= ' ') || c == '\U{85}' || c == '\U{A0}' ||
    c == '\U{1680}' || ('\U{2000}' <= c <= '\U{200A}') || c == '\U{2028}' || c == '\U{2029}' ||
    c == '\U{202F}' || c == '\U{205F}' || c == '\U{3000}'
  }

  /**
   * The whitespace `int()` skips around a numeral. CPython keeps characters
   * below U+007F as they are and skips only space, tab, line feed, vertical
   * tab, form feed and carriage return among them; every other `str.isspace()`
   * character is read as a space. So U+001C to U+001F, which `str.isspace()`
   * accepts, make `int()` fail.
   */
  predicate IsIntSpace(c: char) {
    IsSpace(c) && !('\U{1C}' <= c <= '\U{1F}')
  }

  predicate IsDigit(c: char) {
    '0' <= c <= '9'
  }

  /** The single-character classes used by the script's regular expressions. */
  datatype CharClass =
    | Space          // \s
    | NonSpace       // \S
    | TokenChar      // [^\s;]
    | PathChar       // [^\s\{]
    | NotCloseBrace  // [^\}]
    | Digit          // \d, restricted to ASCII
    | IntSpace       // what int() skips around a numeral

  predicate InClass(c: char, k: CharClass) {
    match k
    case Space => IsSpace(c)
    case NonSpace => !IsSpace(c)
    case TokenChar => !IsSpace(c) && c != ';'
    case PathChar => !IsSpace(c) && c != '{'
    case NotCloseBrace => c != '}'
    case Digit => IsDigit(c)
    case IntSpace => IsIntSpace(c)
  }

  /** Every character of s[i..j] belongs to class k. */
  predicate AllIn(s: string, i: int, j: int, k: CharClass)
    requires 0 <= i <= j <= |s|
  {
    forall q :: i <= q < j ==> InClass(s[q], k)
  }

  /** The text `lit` occurs in `s` starting at position `p`. */
  predicate LiteralAt(s: string, p: int, lit: string) {
    0 <= p && p + |lit| <= |s| && s[p..p + |lit|] == lit
  }

  /** `pat` occurs somewhere in `s`. */
  ghost predicate Occurs(s: string, pat: string) {
    exists i :: 0 <= i <= |s| && LiteralAt(s, i, pat)
  }

  /** The end of the longest run of class-k characters starting at i (a greedy `k*`). */
  function Span(s: string, i: nat, k: CharClass): (j: nat)
    requires i <= |s|
    ensures i <= j <= |s| && AllIn(s, i, j, k)
    ensures j < |s| ==> !InClass(s[j], k)
    decreases |s| - i
  {
    if i < |s| && InClass(s[i], k) then Span(s, i + 1, k) else i
  }

  /** The start of the longest run of class-k characters that ends at hi and lies within s[lo..hi]. */
  function SpanBack(s: string, lo: nat, hi: nat, k: CharClass): (d: nat)
    requires lo <= hi <= |s|
    ensures lo <= d <= hi && AllIn(s, d, hi, k)
    ensures lo < d ==> !InClass(s[d - 1], k)
    decreases hi - lo
  {
    if lo < hi && InClass(s[hi - 1], k) then SpanBack(s, lo, hi - 1, k) else hi
  }

  /** A maximal run is determined by its start: Span returns the only candidate end. */
  lemma SpanUnique(s: string, i: nat, j: nat, k: CharClass)
    requires i <= j <= |s| && AllIn(s, i, j, k)
    requires j < |s| ==> !InClass(s[j], k)
    ensures Span(s, i, k) == j
  {
  }

  lemma SpanBackUnique(s: string, lo: nat, d: nat, hi: nat, k: CharClass)
    requires lo <= d <= hi <= |s| && AllIn(s, d, hi, k)
    requires lo < d ==> !InClass(s[d - 1], k)
    ensures SpanBack(s, lo, hi, k) == d
  {
  }

  /** The last index k in [lo, hi) with s[k] == c. */
  function LastIndexOf(s: string, lo: nat, hi: nat, c: char): (r: Option<nat>)
    requires lo <= hi <= |s|
    ensures r.Some? ==> lo <= r.value < hi && s[r.value] == c
    ensures r.Some? ==> forall q :: r.value < q < hi ==> s[q] != c
    ensures r.None? ==> forall q :: lo <= q < hi ==> s[q] != c
    decreases hi - lo
  {
    if lo == hi then None
    else if s[hi - 1] == c then Some(hi - 1)
    else LastIndexOf(s, lo, hi - 1, c)
  }

  /** The first index of c in s. */
  function IndexOf(s: string, c: char): (r: Option<nat>)
    ensures r.Some? ==> r.value < |s| && s[r.value] == c && c !in s[..r.value]
    ensures r.None? ==> c !in s
  {
    if c !in s then None
    else if s[0] == c then Some(0)
    else
      var r := IndexOf(s[1..], c).value;
      assert s[1..][..r] == s[1..r + 1];
      assert s[..r + 1] == [s[0]] + s[1..r + 1];
      Some(r + 1)
  }

  // ---------------------------------------------------------------------------
  // str.strip()

  /** s without its leading and trailing run of class-k characters. */
  function Trim(s: string, k: CharClass): (r: string)
    ensures |r| <= |s|
    ensures r == [] || (!InClass(r[0], k) && !InClass(r[|r| - 1], k))
  {
    var i := Span(s, 0, k);
    var j := SpanBack(s, i, |s|, k);
    s[i..j]
  }

  /** Python's `str.strip()`: drop the leading and trailing whitespace. */
  function Strip(s: string): (r: string)
    ensures |r| <= |s|
    ensures r == [] || (!IsSpace(r[0]) && !IsSpace(r[|r| - 1]))
  {
    Trim(s, Space)
  }

  predicate AllSpaces(w: string) {
    forall q :: 0 <= q < |w| ==> IsSpace(w[q])
  }

  lemma Associative(x: string, y: string, z: string)
    ensures (x + y) + z == x + (y + z)
  {
  }

  /** Strip removes exactly a whitespace margin around text that starts and ends with non-space. */
  lemma StripPadded(a: string, b: string, c: string)
    requires AllSpaces(a) && AllSpaces(c)
    requires |b| > 0 && !IsSpace(b[0]) && !IsSpace(b[|b| - 1])
    ensures Strip(a + b + c) == b
  {
    assert AllIn(a, 0, |a|, Space) && AllIn(c, 0, |c|, Space);
    TrimPadded(a, b, c, Space);
  }

  /** Text that starts and ends outside class k is its own trim. */
  lemma TrimKeeps(u: string, k: CharClass)
    requires |u| > 0 && !InClass(u[0], k) && !InClass(u[|u| - 1], k)
    ensures Trim(u, k) == u
  {
    SpanUnique(u, 0, 0, k);
    SpanBackUnique(u, 0, |u|, |u|, k);
  }

  /** Trim removes exactly a class-k margin around text that starts and ends outside k. */
  lemma TrimPadded(a: string, b: string, c: string, k: CharClass)
    requires AllIn(a, 0, |a|, k) && AllIn(c, 0, |c|, k)
    requires |b| > 0 && !InClass(b[0], k) && !InClass(b[|b| - 1], k)
    ensures Trim(a + b + c, k) == b
  {
    var s := a + b + c;
    assert AllIn(s, 0, |a|, k) by {
      forall q | 0 <= q < |a| ensures InClass(s[q], k) {
        assert s[q] == a[q];
      }
    }
    assert s[|a|] == b[0];
    SpanUnique(s, 0, |a|, k);
    var e := |a| + |b|;
    assert AllIn(s, e, |s|, k) by {
      forall q | e <= q < |s| ensures InClass(s[q], k) {
        assert s[q] == c[q - e];
      }
    }
    assert s[e - 1] == b[|b| - 1];
    SpanBackUnique(s, |a|, e, |s|, k);
    assert s[|a|..e] == b;
  }

  // ---------------------------------------------------------------------------
  // str.replace(pat, "")

  /**
   * Python's `s.replace(pat, "")`: scanning left to right, every occurrence of
   * pat that does not overlap an earlier removed one is removed.
   */
  function RemoveAll(s: string, pat: string): (r: string)
    requires |pat| > 0
    ensures |r| <= |s|
    decreases |s|
  {
    if |s| < |pat| then s
    else if s[..|pat|] == pat then RemoveAll(s[|pat|..], pat)
    else [s[0]] + RemoveAll(s[1..], pat)
  }

  /** Removal leaves text that does not contain the pattern untouched. */
  lemma {:induction false} RemoveAllAbsent(s: string, pat: string)
    requires |pat| > 0 && !Occurs(s, pat)
    ensures RemoveAll(s, pat) == s
    decreases |s|
  {
    if |s| >= |pat| {
      assert !LiteralAt(s, 0, pat);
      assert !Occurs(s[1..], pat) by {
        forall i | LiteralAt(s[1..], i, pat) ensures false {
          assert s[i + 1..i + 1 + |pat|] == s[1..][i..i + |pat|];
          assert LiteralAt(s, i + 1, pat);
        }
      }
      RemoveAllAbsent(s[1..], pat);
    }
  }

  /** A leading occurrence of the pattern is removed and the rest is processed on its own. */
  lemma RemoveAllLeading(pat: string, t: string)
    requires |pat| > 0
    ensures RemoveAll(pat + t, pat) == RemoveAll(t, pat)
  {
    assert (pat + t)[..|pat|] == pat;
    assert (pat + t)[|pat|..] == t;
  }

  /**
   * Every occurrence is removed, not only a leading one: text x in which the
   * pattern does not start (not even overlapping the occurrence after it) is
   * kept, the occurrence is dropped, and the scan goes on after it.
   */
  lemma {:induction false} RemoveAllSkip(x: string, pat: string, y: string)
    requires |pat| > 0 && !Occurs(x + pat[..|pat| - 1], pat)
    ensures RemoveAll(x + pat + y, pat) == x + RemoveAll(y, pat)
    decreases |x|
  {
    if x == [] {
      assert x + pat + y == pat + y;
      RemoveAllLeading(pat, y);
    } else {
      var x' := x[1..];
      SkipFirst(x, pat, y);
      NotOccursTail(x + pat[..|pat| - 1], pat);
      assert (x + pat[..|pat| - 1])[1..] == x' + pat[..|pat| - 1];
      RemoveAllSkip(x', pat, y);
      Associative([x[0]], x', RemoveAll(y, pat));
      assert [x[0]] + x' == x;
    }
  }

  /** Where the pattern does not start at the first character, that character is kept. */
  lemma SkipFirst(x: string, pat: string, y: string)
    requires |pat| > 0 && |x| > 0 && !Occurs(x + pat[..|pat| - 1], pat)
    ensures RemoveAll(x + pat + y, pat) == [x[0]] + RemoveAll(x[1..] + pat + y, pat)
  {
    var s := x + pat + y;
    var w := x + pat[..|pat| - 1];
    assert s[..|pat|] == w[..|pat|];
    assert !LiteralAt(w, 0, pat);
    assert s[1..] == x[1..] + pat + y;
  }

  /** A pattern absent from w is absent from w without its first character. */
  lemma NotOccursTail(w: string, pat: string)
    requires |w| > 0 && !Occurs(w, pat)
    ensures !Occurs(w[1..], pat)
  {
    forall i | LiteralAt(w[1..], i, pat) ensures false {
      assert w[i + 1..i + 1 + |pat|] == w[1..][i..i + |pat|];
      assert LiteralAt(w, i + 1, pat);
    }
  }

  // ---------------------------------------------------------------------------
  // str.split(c)

  /** The inverse of `str.split`: the segments rejoined with the separator. */
  function Join(segs: seq<string>, c: char): (r: string)
    requires |segs| > 0
  {
    if |segs| == 1 then segs[0] else segs[0] + [c] + Join(segs[1..], c)
  }

  /** Python's `s.split(c)` for a one-character separator. */
  function SplitOn(s: string, c: char): (segs: seq<string>)
    ensures |segs| > 0
    ensures Join(segs, c) == s
    ensures forall i :: 0 <= i < |segs| ==> c !in segs[i]
    decreases |s|
  {
    match IndexOf(s, c)
    case None => [s]
    case Some(i) =>
      var rest := SplitOn(s[i + 1..], c);
      assert ([s[..i]] + rest)[1..] == rest;
      assert s == s[..i] + [c] + s[i + 1..];
      [s[..i]] + rest
  }

  /** Text without the separator is a single segment. */
  lemma SplitOnNone(s: string, c: char)
    requires c !in s
    ensures SplitOn(s, c) == [s]
  {
  }

  /** The first separator after a separator-free head ends the first segment. */
  lemma SplitOnCons(h: string, c: char, rest: string)
    requires c !in h
    ensures SplitOn(h + [c] + rest, c) == [h] + SplitOn(rest, c)
  {
    var s := h + [c] + rest;
    assert s[|h|] == c;
    assert s[..|h|] == h;
    assert s[|h| + 1..] == rest;
  }

  /** The split is the only way to cut s into separator-free segments joined by c. */
  lemma {:induction false} SplitOnUnique(s: string, c: char, segs: seq<string>)
    requires |segs| > 0 && Join(segs, c) == s
    requires forall i :: 0 <= i < |segs| ==> c !in segs[i]
    ensures SplitOn(s, c) == segs
    decreases |segs|
  {
    if |segs| == 1 {
      assert c !in s;
    } else {
      var head := segs[0];
      var tail := Join(segs[1..], c);
      assert s == head + [c] + tail;
      assert s[|head|] == c;
      assert s[..|head|] == head;
      assert IndexOf(s, c) == Some(|head|);
      assert s[|head| + 1..] == tail;
      forall i | 0 <= i < |segs[1..]| ensures c !in segs[1..][i] {
        assert segs[1..][i] == segs[i + 1];
      }
      SplitOnUnique(tail, c, segs[1..]);
    }
  }

  // ---------------------------------------------------------------------------
  // int()

  /** A run of ASCII digits with single underscores between digits: Python's `digitpart`. */
  predicate IsDigitPart(d: string)
    decreases |d|
  {
    |d| > 0 && IsDigit(d[0]) &&
    (|d| == 1 || (if d[1] == '_' then IsDigitPart(d[2..]) else IsDigitPart(d[1..])))
  }

  /** The characters of d that are digits, in order. */
  function DigitsOf(d: string): (r: string)
    ensures forall q :: 0 <= q < |r| ==> IsDigit(r[q])
  {
    if d == [] then []
    else if IsDigit(d[0]) then [d[0]] + DigitsOf(d[1..])
    else DigitsOf(d[1..])
  }

  /** The value of a decimal numeral; non-digit characters are not expected. */
  function DecimalValue(ds: string): (n: nat)
  {
    if ds == [] then 0
    else 10 * DecimalValue(ds[..|ds| - 1]) + DigitValue(ds[|ds| - 1])
  }

  function DigitValue(c: char): nat {
    if IsDigit(c) then (c as int - '0' as int) else 0
  }

  /**
   * Python's `int(t)` in base 10: the whitespace `int()` skips around it is
   * ignored, then an optional sign and a digit part. Anything else raises
   * ValueError, here None.
   */
  function ParseInt(t: string): (r: Option<int>)
  {
    var u := Trim(t, IntSpace);
    if |u| > 0 && (u[0] == '+' || u[0] == '-') then
      if IsDigitPart(u[1..]) then
        var n: int := DecimalValue(DigitsOf(u[1..]));
        Some(if u[0] == '-' then -n else n)
      else None
    else if IsDigitPart(u) then Some(DecimalValue(DigitsOf(u)))
    else None
  }

  /** The shortest decimal numeral of n, as Python's `str(n)` writes it. */
  function DecimalString(n: nat): (r: string)
    ensures |r| > 0 && forall q :: 0 <= q < |r| ==> IsDigit(r[q])
  {
    if n < 10 then [('0' as int + n) as char]
    else DecimalString(n / 10) + [('0' as int + n % 10) as char]
  }

  lemma {:induction false} DecimalStringValue(n: nat)
    ensures DecimalValue(DecimalString(n)) == n
  {
    var r := DecimalString(n);
    if n >= 10 {
      DecimalStringValue(n / 10);
      assert r[..|r| - 1] == DecimalString(n / 10);
    }
  }

  lemma {:induction false} AllDigitsIsDigitPart(d: string)
    requires |d| > 0 && forall q :: 0 <= q < |d| ==> IsDigit(d[q])
    ensures IsDigitPart(d) && DigitsOf(d) == d
    decreases |d|
  {
    if |d| > 1 {
      AllDigitsIsDigitPart(d[1..]);
    } else {
      assert DigitsOf(d[1..]) == [];
    }
  }

  /** `int()` of a non-empty run of ASCII digits is its decimal value. */
  lemma ParseIntDigits(d: string)
    requires |d| > 0 && forall q :: 0 <= q < |d| ==> IsDigit(d[q])
    ensures ParseInt(d) == Some(DecimalValue(d))
  {
    assert IsDigit(d[0]) && IsDigit(d[|d| - 1]);
    TrimKeeps(d, IntSpace);
    AllDigitsIsDigitPart(d);
    ParseIntTrimmed(d, d);
  }

  /** Round trip: `int(str(n)) == n` for every integer n. */
  lemma ParseIntDecimal(n: int)
    ensures n >= 0 ==> ParseInt(DecimalString(n)) == Some(n)
    ensures n < 0 ==> ParseInt("-" + DecimalString(-n)) == Some(n)
  {
    if n >= 0 {
      ParseIntUnsigned(n);
    } else {
      ParseIntNegative(-n);
    }
  }

  lemma ParseIntUnsigned(m: nat)
    ensures ParseInt(DecimalString(m)) == Some(m)
  {
    ParseIntDigits(DecimalString(m));
    DecimalStringValue(m);
  }

  lemma ParseIntNegative(m: nat)
    requires m > 0
    ensures ParseInt("-" + DecimalString(m)) == Some(0 - m as int)
  {
    var d := DecimalString(m);
    AllDigitsIsDigitPart(d);
    DecimalStringValue(m);
    var u := "-" + d;
    assert u[1..] == d;
    assert IsDigitPart(u[1..]) && DecimalValue(DigitsOf(u[1..])) == m;
    assert u[0] == '-' && u[|u| - 1] == d[|d| - 1];
    TrimKeeps(u, IntSpace);
  }

  /**
   * `int()` skips less whitespace than `str.strip()`: both skip a space or a
   * tab around a numeral, but U+001C, which `str.isspace()` accepts, makes
   * `int()` fail although `strip()` removes it.
   */
  lemma ParseIntSkipsLess(d: string)
    requires |d| > 0 && forall q :: 0 <= q < |d| ==> IsDigit(d[q])
    ensures ParseInt(" " + d + "\t") == Some(DecimalValue(d))
    ensures Strip("\U{1C}" + d) == d
    ensures ParseInt("\U{1C}" + d) == None
  {
    assert AllIn(" ", 0, 1, IntSpace) && AllIn("\t", 0, 1, IntSpace);
    ParseIntPadded(" ", d, "\t");
    ParseIntFileSeparator(d);
  }

  /** `int()` ignores a margin of the whitespace it skips around a digit run. */
  lemma ParseIntPadded(a: string, d: string, c: string)
    requires AllIn(a, 0, |a|, IntSpace) && AllIn(c, 0, |c|, IntSpace)
    requires |d| > 0 && forall q :: 0 <= q < |d| ==> IsDigit(d[q])
    ensures ParseInt(a + d + c) == Some(DecimalValue(d))
  {
    assert IsDigit(d[0]) && IsDigit(d[|d| - 1]);
    TrimPadded(a, d, c, IntSpace);
    AllDigitsIsDigitPart(d);
    ParseIntTrimmed(a + d + c, d);
  }

  lemma ParseIntTrimmed(t: string, d: string)
    requires Trim(t, IntSpace) == d && |d| > 0 && IsDigit(d[0]) && IsDigitPart(d) && DigitsOf(d) == d
    ensures ParseInt(t) == Some(DecimalValue(d))
  {
  }

  /** U+001C before a digit run: `strip()` removes it, `int()` rejects it. */
  lemma ParseIntFileSeparator(d: string)
    requires |d| > 0 && forall q :: 0 <= q < |d| ==> IsDigit(d[q])
    ensures Strip("\U{1C}" + d) == d
    ensures ParseInt("\U{1C}" + d) == None
  {
    assert IsDigit(d[0]) && IsDigit(d[|d| - 1]);
    StripPadded("\U{1C}", d, []);
    assert "\U{1C}" + d + [] == "\U{1C}" + d;
    var u := "\U{1C}" + d;
    assert u[|u| - 1] == d[|d| - 1];
    TrimKeeps(u, IntSpace);
    assert !IsDigit(u[0]);
  }
}
