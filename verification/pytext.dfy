/** The pieces of Python's `str` behaviour the crawler relies on: `isspace`,
    `strip`, `split(sep)`, `split()`, `join`, `replace`, `startswith`,
    `int(text)` and `str(int)`, over `seq<char>`. */
module PyText {
  import opened Base

  /** `str.isspace()` for one character: the ASCII whitespace and separator
      controls plus the Unicode space characters Python reports as whitespace. */
  predicate IsSpace(c: char) {
    c == ' ' || c == '\t' || c == '\n' || c == '\r' || c == '\U{0B}' || c == '\U{0C}'
    || ('\U{1C}' <= c <= '\U{1F}')
    || c == '\U{85}' || c == '\U{A0}' || c == '\U{1680}'
    || ('\U{2000}' <= c <= '\U{200A}')
    || c == '\U{2028}' || c == '\U{2029}' || c == '\U{202F}' || c == '\U{205F}' || c == '\U{3000}'
  }

  predicate IsDigit(c: char) { '0' <= c <= '9' }

  predicate AllSpace(s: string) {
    forall i :: 0 <= i < |s| ==> IsSpace(s[i])
  }

  predicate NoSpace(s: string) {
    forall i :: 0 <= i < |s| ==> !IsSpace(s[i])
  }

  predicate StartsWith(s: string, p: string) {
    |p| <= |s| && s[..|p|] == p
  }

  predicate EndsWith(s: string, p: string) {
    |p| <= |s| && s[|s| - |p|..] == p
  }

  /** `sub in s` for strings. */
  predicate ContainsStr(s: string, sub: string)
    decreases |s|
  {
    |sub| <= |s| && (s[..|sub|] == sub || ContainsStr(s[1..], sub))
  }

  // ---------------------------------------------------------------- strip --

  /** Number of leading whitespace characters. */
  function LeadingSpace(s: string): (n: nat)
    ensures n <= |s| && AllSpace(s[..n])
    ensures n < |s| ==> !IsSpace(s[n])
  {
    if |s| > 0 && IsSpace(s[0]) then
      var m := LeadingSpace(s[1..]);
      assert s[..m + 1] == [s[0]] + s[1..][..m];
      m + 1
    else 0
  }

  /** Length of `s` once its trailing whitespace is cut off. */
  function TrimmedEnd(s: string): (m: nat)
    ensures m <= |s| && AllSpace(s[m..])
    ensures m > 0 ==> !IsSpace(s[m - 1])
  {
    if |s| > 0 && IsSpace(s[|s| - 1]) then
      var m := TrimmedEnd(s[..|s| - 1]);
      assert s[m..] == s[..|s| - 1][m..] + [s[|s| - 1]];
      m
    else |s|
  }

  /** Nothing at either end for `strip` to remove. */
  predicate Trimmed(s: string) {
    s == [] || (!IsSpace(s[0]) && !IsSpace(s[|s| - 1]))
  }

  /** `s.strip()`: `s` without its leading and trailing whitespace. */
  function Strip(s: string): (r: string)
    ensures exists a, b :: 0 <= a <= b <= |s| && r == s[a..b]
    ensures Trimmed(r)
    ensures r == [] ==> AllSpace(s)
  {
    var a := LeadingSpace(s);
    var m := TrimmedEnd(s[a..]);
    StripParts(s, a, m);
    s[a..a + m]
  }

  /** The middle `s[a..a + m]` between leading spaces and trailing spaces. */
  lemma StripParts(s: string, a: nat, m: nat)
    requires a + m <= |s| && AllSpace(s[..a]) && (a < |s| ==> !IsSpace(s[a]))
    requires AllSpace(s[a..][m..]) && (m > 0 ==> !IsSpace(s[a..][m - 1]))
    ensures Trimmed(s[a..a + m]) && (m == 0 ==> AllSpace(s))
  {
    if m > 0 {
      assert s[a..a + m][m - 1] == s[a..][m - 1];
    } else {
      assert s[..a] == s;
    }
  }

  lemma StripOfTrimmed(s: string)
    requires Trimmed(s)
    ensures Strip(s) == s
  {
  }

  /** Whitespace padding on either side is exactly what `strip` removes. */
  lemma StripPadded(pre: string, t: string, post: string)
    requires AllSpace(pre) && AllSpace(post) && |t| > 0 && Trimmed(t)
    ensures Strip(pre + t + post) == t
  {
    var s := pre + t + post;
    assert forall i :: 0 <= i < |pre| ==> s[i] == pre[i];
    var a := LeadingSpace(s);
    assert forall i :: 0 <= i < a ==> IsSpace(s[i]) by {
      forall i | 0 <= i < a ensures IsSpace(s[i]) { assert s[..a][i] == s[i]; }
    }
    assert s[|pre|] == t[0];
    assert a == |pre|;
    var u := s[a..];
    assert u == t + post;
    assert forall i :: |t| <= i < |u| ==> u[i] == post[i - |t|];
    var m := TrimmedEnd(u);
    assert forall i :: m <= i < |u| ==> IsSpace(u[i]) by {
      forall i | m <= i < |u| ensures IsSpace(u[i]) { assert u[m..][i - m] == u[i]; }
    }
    assert u[|t| - 1] == t[|t| - 1];
    assert m == |t|;
    assert s[a..a + m] == t;
  }

  lemma StripOfBlank(s: string)
    requires AllSpace(s)
    ensures Strip(s) == []
  {
    var a := LeadingSpace(s);
    assert a == |s|;
  }

  // ------------------------------------------------------------ split(sep) --

  /** `s.split(sep)` for a one-character separator: every piece, empty ones
      included, so there is always at least one. */
  function SplitOn(s: string, sep: char): (r: seq<string>)
    ensures |r| >= 1
    ensures forall k :: 0 <= k < |r| ==> sep !in r[k]
    ensures Join(r, [sep]) == s
    decreases |s|
  {
    if sep !in s then [s]
    else
      var i := FirstIndex(s, sep);
      var rest := SplitOn(s[i + 1..], sep);
      assert s == s[..i] + [sep] + s[i + 1..];
      [s[..i]] + rest
  }

  /** Position of the first `c` in `s`. */
  function FirstIndex(s: string, c: char): (i: nat)
    requires c in s
    ensures i < |s| && s[i] == c && c !in s[..i]
  {
    if s[0] == c then 0 else FirstIndex(s[1..], c) + 1
  }

  /** Position of the last `c` in `s`. */
  function LastIndex(s: string, c: char): (i: nat)
    requires c in s
    ensures i < |s| && s[i] == c && c !in s[i + 1..]
  {
    if s[|s| - 1] == c then |s| - 1 else LastIndex(s[..|s| - 1], c)
  }

  /** A `c` with no `c` before it is the first one. */
  lemma FirstIndexAt(s: string, c: char, k: nat)
    requires k < |s| && s[k] == c && c !in s[..k]
    ensures c in s && FirstIndex(s, c) == k
  {
    var j := FirstIndex(s, c);
    assert forall m :: 0 <= m < j ==> s[m] == s[..j][m];
    assert forall m :: 0 <= m < k ==> s[m] == s[..k][m];
  }

  /** A `c` with no `c` after it is the last one. */
  lemma LastIndexAt(s: string, c: char, k: nat)
    requires k < |s| && s[k] == c && c !in s[k + 1..]
    ensures c in s && LastIndex(s, c) == k
  {
    var j := LastIndex(s, c);
    assert forall m :: j < m < |s| ==> s[m] == s[j + 1..][m - j - 1];
    assert forall m :: k < m < |s| ==> s[m] == s[k + 1..][m - k - 1];
  }

  /** `s.split(c)[0]`: the text before the first `c`. */
  function FirstPiece(s: string, c: char): (r: string)
    ensures c !in r && StartsWith(s, r)
    ensures c in s ==> |r| < |s| && s[|r|] == c
    ensures c !in s ==> r == s
    ensures r == SplitOn(s, c)[0]
  {
    if c in s then s[..FirstIndex(s, c)] else s
  }

  /** `s.split(c)[-1]`: the text after the last `c`. */
  function LastPiece(s: string, c: char): (r: string)
    ensures c !in r && EndsWith(s, r)
    ensures c in s ==> |r| < |s| && s[|s| - |r| - 1] == c
    ensures c !in s ==> r == s
    decreases |s|
  {
    if c in s then
      var i := FirstIndex(s, c);
      var r := LastPiece(s[i + 1..], c);
      assert s[|s| - |r|..] == s[i + 1..][|s| - i - 1 - |r|..];
      r
    else s
  }

  /** Whatever precedes the last separator, the last piece is what follows it. */
  lemma LastPieceAfterSep(s: string, c: char, x: string)
    requires c !in x
    ensures LastPiece(s + [c] + x, c) == x
  {
    var t := s + [c] + x;
    assert t[|s|] == c;
    assert t[|s| + 1..] == x;
    var r := LastPiece(t, c);
    LastPieceLength(t, c, r, |s|);
    assert |r| == |x|;
  }

  /** The last piece is no longer than what follows any separator. */
  lemma LastPieceLength(t: string, c: char, r: string, k: nat)
    requires c !in r && EndsWith(t, r) && k < |t| && t[k] == c
    requires c !in t[k + 1..] && (|r| < |t| ==> t[|t| - |r| - 1] == c)
    ensures |r| == |t| - k - 1
  {
  }

  /** `sep.join(xs)`. */
  function Join(xs: seq<string>, sep: string): (r: string)
  {
    if |xs| == 0 then []
    else if |xs| == 1 then xs[0]
    else xs[0] + sep + Join(xs[1..], sep)
  }

  /** Splitting a join at a separator that no piece contains gives the pieces back. */
  lemma {:induction false} SplitJoin(xs: seq<string>, sep: char)
    requires |xs| >= 1
    requires forall k :: 0 <= k < |xs| ==> sep !in xs[k]
    ensures SplitOn(Join(xs, [sep]), sep) == xs
  {
    if |xs| == 1 {
    } else {
      var s := Join(xs, [sep]);
      assert s == xs[0] + [sep] + Join(xs[1..], [sep]);
      assert sep in s by { assert s[|xs[0]|] == sep; }
      var i := FirstIndex(s, sep);
      assert i == |xs[0]| by {
        assert s[..|xs[0]|] == xs[0];
        assert s[|xs[0]|] == sep;
      }
      assert s[..i] == xs[0];
      assert s[i + 1..] == Join(xs[1..], [sep]);
      SplitJoin(xs[1..], sep);
    }
  }

  /** The text after the first occurrence of `pat`, or all of `s` when `pat`
      is absent: Python's `s.split(pat, 1)[-1]`. */
  function AfterFirst(s: string, pat: string): (r: string)
    requires |pat| > 0
    ensures |r| <= |s| && r == s[|s| - |r|..]
    ensures !ContainsStr(s, pat) ==> r == s
    decreases |s|
  {
    if |s| < |pat| then s
    else if s[..|pat|] == pat then s[|pat|..]
    else if ContainsStr(s[1..], pat) then AfterFirst(s[1..], pat)
    else s
  }

  // --------------------------------------------------------- comprehension --

  /** `[x for x in xs if keep(x)]`. */
  function Where<T(==)>(xs: seq<T>, keep: T -> bool): (r: seq<T>)
    ensures |r| <= |xs|
    ensures forall x :: x in r ==> x in xs && keep(x)
    ensures forall x :: x in xs && keep(x) ==> x in r
    decreases |xs|
  {
    if xs == [] then [] else (if keep(xs[0]) then [xs[0]] else []) + Where(xs[1..], keep)
  }

  /** The comprehension works element by element: over two runs it keeps
      what it keeps of each, in order and with repeats. */
  lemma {:induction false} WhereAppend<T>(a: seq<T>, b: seq<T>, keep: T -> bool)
    ensures Where(a + b, keep) == Where(a, keep) + Where(b, keep)
    decreases |a|
  {
    if a == [] {
      assert a + b == b;
    } else {
      assert (a + b)[0] == a[0] && (a + b)[1..] == a[1..] + b;
      WhereAppend(a[1..], b, keep);
    }
  }

  /** One element is kept exactly when it passes the test. */
  lemma WhereOne<T>(x: T, keep: T -> bool)
    ensures Where([x], keep) == (if keep(x) then [x] else [])
  {
    assert [x][1..] == [];
  }

  // --------------------------------------------------------------- split() --

  /** `s.split()` with no argument: the maximal runs of non-whitespace. */
  function SplitWs(s: string): (r: seq<string>)
    ensures forall k :: 0 <= k < |r| ==> |r[k]| > 0 && NoSpace(r[k])
    ensures AllSpace(s) ==> r == []
    decreases |s|
  {
    if |s| == 0 then []
    else if IsSpace(s[0]) then SplitWs(s[1..])
    else
      var n := WordLength(s);
      [s[..n]] + SplitWs(s[n..])
  }

  /** Length of the leading run of non-whitespace characters. */
  function WordLength(t: string): (n: nat)
    ensures n <= |t| && NoSpace(t[..n])
    ensures n < |t| ==> IsSpace(t[n])
    ensures |t| > 0 && !IsSpace(t[0]) ==> n > 0
  {
    if |t| == 0 || IsSpace(t[0]) then 0
    else
      var m := WordLength(t[1..]);
      assert t[..m + 1] == [t[0]] + t[1..][..m];
      m + 1
  }

  // --------------------------------------------------------------- replace --

  /** `s.replace(pat, rep)`: leftmost, non-overlapping occurrences. */
  function Replace(s: string, pat: string, rep: string): (r: string)
    requires |pat| > 0
    decreases |s|
  {
    if |s| < |pat| then s
    else if s[..|pat|] == pat then rep + Replace(s[|pat|..], pat, rep)
    else [s[0]] + Replace(s[1..], pat, rep)
  }

  /** Replacing one character by another acts on every position independently. */
  function ReplaceChar(s: string, c: char, d: char): (r: string)
    ensures |r| == |s|
    ensures forall i :: 0 <= i < |s| ==> r[i] == (if s[i] == c then d else s[i])
    ensures r == Replace(s, [c], [d])
  {
    if |s| == 0 then []
    else
      assert s[..1] == [s[0]];
      [if s[0] == c then d else s[0]] + ReplaceChar(s[1..], c, d)
  }

  /** A replacement whose pattern does not occur leaves the text as it is. */
  lemma {:induction false} ReplaceAbsent(s: string, pat: string, rep: string)
    requires |pat| > 0 && !ContainsStr(s, pat)
    ensures Replace(s, pat, rep) == s
    decreases |s|
  {
    if |s| >= |pat| {
      ReplaceAbsent(s[1..], pat, rep);
      assert s == [s[0]] + s[1..];
    }
  }

  // ------------------------------------------------------------ ASCII case --

  /** `str.lower()` on ASCII letters. */
  function Lower(s: string): (r: string)
    ensures |r| == |s|
    ensures forall i :: 0 <= i < |s| ==> r[i] == (if 'A' <= s[i] <= 'Z' then (s[i] as int + 32) as char else s[i])
  {
    if |s| == 0 then [] else [if 'A' <= s[0] <= 'Z' then (s[0] as int + 32) as char else s[0]] + Lower(s[1..])
  }

  /** `str.upper()` on ASCII letters. */
  function Upper(s: string): (r: string)
    ensures |r| == |s|
    ensures forall i :: 0 <= i < |s| ==> r[i] == (if 'a' <= s[i] <= 'z' then (s[i] as int - 32) as char else s[i])
  {
    if |s| == 0 then [] else [if 'a' <= s[0] <= 'z' then (s[0] as int - 32) as char else s[0]] + Upper(s[1..])
  }

  // -------------------------------------------------------- int() and str() --

  function DigitChar(d: nat): (c: char)
    requires d < 10
    ensures IsDigit(c) && c as int - '0' as int == d
  {
    ('0' as int + d) as char
  }

  /** `str(n)` for a natural number: decimal, no leading zeros. */
  function NatToString(n: nat): (r: string)
    ensures |r| > 0
    ensures forall i :: 0 <= i < |r| ==> IsDigit(r[i])
    decreases n
  {
    if n < 10 then [DigitChar(n)] else NatToString(n / 10) + [DigitChar(n % 10)]
  }

  /** `str(i)` for any integer. */
  function IntToString(i: int): (r: string)
    ensures |r| > 0 && '.' !in r && ':' !in r && '/' !in r && '_' !in r
    ensures forall k :: 0 <= k < |r| ==> r[k] == '-' || IsDigit(r[k])
    ensures NoSpace(r)
    ensures i >= 0 ==> r == NatToString(i)
  {
    var r := if i < 0 then "-" + NatToString(-i) else NatToString(i);
    assert forall k :: 0 <= k < |r| ==> r[k] == '-' || IsDigit(r[k]);
    r
  }

  /** The value of a string of decimal digits. */
  function DigitsValue(s: string): nat
    requires forall i :: 0 <= i < |s| ==> IsDigit(s[i])
  {
    if |s| == 0 then 0
    else
      assert IsDigit(s[|s| - 1]);
      DigitsValue(s[..|s| - 1]) * 10 + (s[|s| - 1] as int - '0' as int)
  }

  /** The digits of a Python integer literal body with its `_` separators removed. */
  function DropUnderscores(s: string): (r: string)
    ensures forall i :: 0 <= i < |r| ==> r[i] != '_'
    ensures (forall i :: 0 <= i < |s| ==> IsDigit(s[i]) || s[i] == '_') ==> forall i :: 0 <= i < |r| ==> IsDigit(r[i])
    ensures (forall i :: 0 <= i < |s| ==> IsDigit(s[i])) ==> r == s
  {
    if |s| == 0 then [] else (if s[0] == '_' then [] else [s[0]]) + DropUnderscores(s[1..])
  }

  /** The digit part `int()` accepts: digits, with single `_` only between two digits. */
  predicate DigitBody(b: string) {
    && |b| > 0
    && IsDigit(b[0]) && IsDigit(b[|b| - 1])
    && (forall i :: 0 <= i < |b| ==> IsDigit(b[i]) || b[i] == '_')
    && (forall i :: 0 <= i < |b| - 1 ==> !(b[i] == '_' && b[i + 1] == '_'))
  }

  /** `int(text)` in base 10: `None` where Python raises `ValueError`.
      Surrounding whitespace and one sign are allowed. */
  function ParseInt(text: string): Option<int>
  {
    var t := Strip(text);
    var neg := |t| > 0 && t[0] == '-';
    var body := if |t| > 0 && (t[0] == '-' || t[0] == '+') then t[1..] else t;
    if DigitBody(body) then
      var v: int := DigitsValue(DropUnderscores(body));
      Some(if neg then -v else v)
    else None
  }

  lemma {:induction false} DigitsValueOfNat(n: nat)
    ensures DigitsValue(NatToString(n)) == n
    decreases n
  {
    if n >= 10 {
      var s := NatToString(n);
      assert s[..|s| - 1] == NatToString(n / 10);
      DigitsValueOfNat(n / 10);
    }
  }

  /** The text of a natural number is a digit body with nothing to strip
      and no separators to drop. */
  lemma NatTextIsBody(n: nat)
    ensures var d := NatToString(n);
      DigitBody(d) && DropUnderscores(d) == d && Strip(d) == d
  {
    var d := NatToString(n);
    assert IsDigit(d[0]) && IsDigit(d[|d| - 1]);
    assert !IsSpace(d[0]) && !IsSpace(d[|d| - 1]);
    StripOfTrimmed(d);
  }

  /** `int(str(i)) == i`. */
  lemma ParseIntToString(i: int)
    ensures ParseInt(IntToString(i)) == Some(i)
  {
    var s := IntToString(i);
    var m: nat := if i < 0 then -i else i;
    var digits := NatToString(m);
    NatTextIsBody(m);
    DigitsValueOfNat(m);
    if i < 0 {
      assert s == "-" + digits;
      assert !IsSpace(s[0]) && !IsSpace(s[|s| - 1]);
      StripOfTrimmed(s);
      assert s[1..] == digits;
    } else {
      assert s == digits;
    }
  }
}
