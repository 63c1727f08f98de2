/**
 * The few pieces of Python string behaviour the map generator relies on:
 * `str.strip`, `str.lstrip(ch)`, ASCII `str.lower`, `str.join`, the
 * decimal form of an `int`, and `int(text)`.
 */
module PyText {
  import opened Optional

  /** `str.isspace` for one character, as Python defines it. */
  predicate IsSpace(c: char) {
    c == ' ' || ('\t' <= c <= '\r') || ('\U{1c}' <= c <= '\U{1f}')
    || c == '\U{85}' || c == '\U{a0}' || c == '\U{1680}'
    || ('\U{2000}' <= c <= '\U{200a}') || c == '\U{2028}' || c == '\U{2029}'
    || c == '\U{202f}' || c == '\U{205f}' || c == '\U{3000}'
  }

  /** The white space `int(text)` skips around its digits: `str.isspace`
      without the four information separators U+001C..U+001F, which `int()`
      refuses although `str.strip` removes them. */
  predicate IntSpace(c: char) {
    IsSpace(c) && !IsSeparator(c)
  }

  predicate IsDigit(c: char) {
    '0' <= c <= '9'
  }

  /** Drops the longest prefix whose characters all satisfy `p`. */
  function DropPrefixWhere(s: string, p: char -> bool): (r: string)
    ensures |r| <= |s| && r == s[|s| - |r|..]
    ensures forall i :: 0 <= i < |s| - |r| ==> p(s[i])
    ensures r != [] ==> !p(r[0])
    decreases |s|
  {
    if s != [] && p(s[0]) then DropPrefixWhere(s[1..], p) else s
  }

  /** Drops the longest suffix whose characters all satisfy `p`. */
  function DropSuffixWhere(s: string, p: char -> bool): (r: string)
    ensures |r| <= |s| && r == s[..|r|]
    ensures forall i :: |r| <= i < |s| ==> p(s[i])
    ensures r != [] ==> !p(r[|r| - 1])
    decreases |s|
  {
    if s != [] && p(s[|s| - 1]) then DropSuffixWhere(s[..|s| - 1], p) else s
  }

  /** How many white-space characters `s` starts with. */
  function LeadingSpaces(s: string): (n: nat)
    ensures n <= |s|
    ensures forall k :: 0 <= k < n ==> IsSpace(s[k])
    ensures n < |s| ==> !IsSpace(s[n])
  {
    |s| - |DropPrefixWhere(s, IsSpace)|
  }

  /** `s.strip()`: the text between the leading and trailing white space. */
  function Strip(s: string): (r: string)
    ensures LeadingSpaces(s) + |r| <= |s|
    ensures r == s[LeadingSpaces(s)..LeadingSpaces(s) + |r|]
    ensures forall k :: LeadingSpaces(s) + |r| <= k < |s| ==> IsSpace(s[k])
    ensures r != [] ==> !IsSpace(r[|r| - 1])
  {
    DropSuffixWhere(DropPrefixWhere(s, IsSpace), IsSpace)
  }

  /** A text that does not start with white space is stripped only at its end. */
  lemma StripNoLeading(s: string)
    requires s == [] || !IsSpace(s[0])
    ensures Strip(s) == DropSuffixWhere(s, IsSpace)
  {
    assert DropPrefixWhere(s, IsSpace) == s;
  }

  /** Dropping a suffix stops inside `b` when `a` ends in a character `p`
      rejects. */
  lemma {:induction false} DropSuffixConcat(a: string, b: string, p: char -> bool)
    requires a != [] && !p(a[|a| - 1])
    ensures DropSuffixWhere(a + b, p) == a + DropSuffixWhere(b, p)
    decreases |b|
  {
    var x := a + b;
    if b == [] {
      assert x == a;
    } else {
      assert x[|x| - 1] == b[|b| - 1];
      if p(b[|b| - 1]) {
        assert x[..|x| - 1] == a + b[..|b| - 1];
        DropSuffixConcat(a, b[..|b| - 1], p);
      }
    }
  }

  /** Text without white space at either end, put in front of a line that
      does not start with white space, survives `strip` unchanged. */
  lemma StripPrefixed(a: string, line: string)
    requires a != [] && !IsSpace(a[0]) && !IsSpace(a[|a| - 1])
    requires line == [] || !IsSpace(line[0])
    ensures Strip(a + line) == a + Strip(line)
  {
    StripNoLeading(line);
    DropSuffixConcat(a, line, IsSpace);
    assert (a + line)[0] == a[0];
    StripNoLeading(a + line);
  }

  /** `s.lstrip(ch)`: drops every leading copy of `ch`. */
  function LStripChar(s: string, ch: char): (r: string)
    ensures |r| <= |s| && r == s[|s| - |r|..]
    ensures forall i :: 0 <= i < |s| - |r| ==> s[i] == ch
    ensures r != [] ==> r[0] != ch
  {
    DropPrefixWhere(s, c => c == ch)
  }

  /** `str.lower` on the ASCII letters; other characters are kept. */
  function LowerChar(c: char): (r: char)
    ensures 'A' <= c <= 'Z' ==> 'a' <= r <= 'z' && r as int - c as int == 32
    ensures !('A' <= c <= 'Z') ==> r == c
  {
    if 'A' <= c <= 'Z' then (c as int + 32) as char else c
  }

  function Lower(s: string): (r: string)
    ensures |r| == |s| && forall i :: 0 <= i < |s| ==> r[i] == LowerChar(s[i])
  {
    seq(|s|, i requires 0 <= i < |s| => LowerChar(s[i]))
  }

  /** `sep.join(parts)`. */
  function Join(parts: seq<string>, sep: string): string {
    if |parts| == 0 then ""
    else if |parts| == 1 then parts[0]
    else parts[0] + sep + Join(parts[1..], sep)
  }

  function DigitChar(d: int): (c: char)
    requires 0 <= d < 10
    ensures IsDigit(c) && c as int - '0' as int == d
  {
    ('0' as int + d) as char
  }

  /** Decimal digits of a natural number, most significant first, no leading zero. */
  function ShowNat(n: nat): (s: string)
    ensures s != [] && forall i :: 0 <= i < |s| ==> IsDigit(s[i])
    decreases n
  {
    if n < 10 then [DigitChar(n)] else ShowNat(n / 10) + [DigitChar(n % 10)]
  }

  /** `str(n)` for an `int`. */
  function ShowInt(n: int): (s: string)
    ensures s != [] && IsDigit(s[|s| - 1])
    ensures n < 0 <==> s[0] == '-'
  {
    if n < 0 then "-" + ShowNat(-n) else ShowNat(n)
  }

  /** The value of a digit string read in base ten. */
  function DigitsValue(ds: string): nat
    requires forall i :: 0 <= i < |ds| ==> IsDigit(ds[i])
  {
    if ds == [] then 0
    else
      var last := ds[|ds| - 1];
      assert IsDigit(last);
      DigitsValue(ds[..|ds| - 1]) * 10 + (last as int - '0' as int)
  }

  /** Digits with single underscores allowed between two digits, as `int()` accepts. */
  predicate IsDigitGroup(s: string) {
    && s != [] && IsDigit(s[0]) && IsDigit(s[|s| - 1])
    && (forall i :: 0 <= i < |s| ==> IsDigit(s[i]) || s[i] == '_')
    && (forall i :: 0 <= i < |s| - 1 ==> !(s[i] == '_' && s[i + 1] == '_'))
  }

  /** The digits of `s` with the underscores removed. */
  function WithoutUnderscores(s: string): (ds: string)
    requires forall i :: 0 <= i < |s| ==> IsDigit(s[i]) || s[i] == '_'
    ensures forall i :: 0 <= i < |ds| ==> IsDigit(ds[i])
    ensures (forall i :: 0 <= i < |s| ==> s[i] != '_') ==> ds == s
  {
    if s == [] then []
    else if s[0] == '_' then WithoutUnderscores(s[1..])
    else [s[0]] + WithoutUnderscores(s[1..])
  }

  /** Reads an optional sign followed by a digit group. */
  function ParseSigned(t: string): Option<int> {
    if t != [] && (t[0] == '+' || t[0] == '-') then
      var body := t[1..];
      if IsDigitGroup(body) then
        var v: int := DigitsValue(WithoutUnderscores(body));
        Some(if t[0] == '-' then -v else v)
      else None
    else if IsDigitGroup(t) then Some(DigitsValue(WithoutUnderscores(t)))
    else None
  }

  /** `int(s)` for a string `s`, reading ASCII digits only: `None` where Python
      raises `ValueError`, and also for the other Unicode decimal digits that
      Python's `int` accepts.  The text is trimmed of `IntSpace`, not of all
      `str.isspace` characters. */
  function ParseInt(s: string): Option<int> {
    ParseSigned(IntStrip(s))
  }

  /** `int()` refuses text that starts or ends with an information separator,
      although `str.strip` would have removed it. */
  lemma IntRefusesSeparators(s: string)
    requires s != [] && (IsSeparator(s[0]) || IsSeparator(s[|s| - 1]))
    ensures ParseInt(s).None?
    ensures Strip(s) != s
  {
    SeparatorKept(s);
    SeparatorRefused(IntStrip(s));
  }

  /** One of the information separators U+001C..U+001F. */
  predicate IsSeparator(c: char) {
    '\U{1c}' <= c <= '\U{1f}'
  }

  /** The text `int()` reads: `s` without the `IntSpace` at its ends. */
  function IntStrip(s: string): (t: string)
    ensures |t| <= |s|
  {
    DropSuffixWhere(DropPrefixWhere(s, IntSpace), IntSpace)
  }

  /** Trimming by `IntSpace` keeps an information separator at either end. */
  lemma SeparatorKept(s: string)
    requires s != [] && (IsSeparator(s[0]) || IsSeparator(s[|s| - 1]))
    ensures var t := IntStrip(s); t != [] && (IsSeparator(t[0]) || IsSeparator(t[|t| - 1]))
  {
    if IsSeparator(s[0]) { SeparatorFirst(s); } else { SeparatorLast(s); }
  }

  lemma SeparatorFirst(s: string)
    requires s != [] && IsSeparator(s[0])
    ensures var t := IntStrip(s); t != [] && t[0] == s[0]
  {
    assert !IntSpace(s[0]);
    var u := DropPrefixWhere(s, IntSpace);
    assert u == s;
    var t := DropSuffixWhere(u, IntSpace);
  }

  lemma SeparatorLast(s: string)
    requires s != [] && IsSeparator(s[|s| - 1])
    ensures var t := IntStrip(s); t != [] && t[|t| - 1] == s[|s| - 1]
  {
    assert !IntSpace(s[|s| - 1]);
    var u := DropPrefixWhere(s, IntSpace);
    assert u[|u| - 1] == s[|s| - 1];
    assert DropSuffixWhere(u, IntSpace) == u;
  }

  /** An information separator at either end is no part of a signed number. */
  lemma SeparatorRefused(t: string)
    requires t != [] && (IsSeparator(t[0]) || IsSeparator(t[|t| - 1]))
    ensures ParseSigned(t).None?
  {
    assert !IsDigit(t[|t| - 1]) || !IsDigit(t[0]);
    if IsSeparator(t[0]) {
      assert !IsDigitGroup(t);
    } else if |t| > 1 {
      assert t[1..][|t| - 2] == t[|t| - 1];
      assert !IsDigitGroup(t[1..]);
    }
  }

  /** Text without `p` at either end is left alone by trimming with `p`. */
  lemma TrimmedBy(s: string, p: char -> bool)
    requires s != [] && !p(s[0]) && !p(s[|s| - 1])
    ensures DropSuffixWhere(DropPrefixWhere(s, p), p) == s
  {
    assert DropPrefixWhere(s, p) == s;
  }

  lemma {:induction false} DigitsValueOfShowNat(n: nat)
    ensures DigitsValue(ShowNat(n)) == n
    decreases n
  {
    if n >= 10 {
      var s := ShowNat(n);
      DigitsValueOfShowNat(n / 10);
      assert s[..|s| - 1] == ShowNat(n / 10);
    }
  }

  lemma ShowNatIsDigitGroup(n: nat)
    ensures IsDigitGroup(ShowNat(n))
  {
  }

  /** Text without white space at either end is left alone by `strip`. */
  lemma StripOfTrimmed(s: string)
    requires s != [] && !IsSpace(s[0]) && !IsSpace(s[|s| - 1])
    ensures Strip(s) == s
  {
    var r := Strip(s);
    assert LeadingSpaces(s) == 0;
  }

  /** The decimal form of an integer has no white space to trim. */
  lemma IntStripOfShown(n: int)
    ensures IntStrip(ShowInt(n)) == ShowInt(n)
  {
    var s := ShowInt(n);
    var m: nat := if n < 0 then -n else n;
    ShowNatIsDigitGroup(m);
    if n < 0 { assert s[1..] == ShowNat(m); }
    assert !IntSpace(s[0]) && !IntSpace(s[|s| - 1]);
    TrimmedBy(s, IntSpace);
  }

  /** Reading back the decimal form of any integer gives that integer. */
  lemma {:induction false} ParseShowInt(n: int)
    ensures ParseInt(ShowInt(n)) == Some(n)
  {
    var s := ShowInt(n);
    IntStripOfShown(n);
    var m: nat := if n < 0 then -n else n;
    DigitsValueOfShowNat(m);
    ShowNatIsDigitGroup(m);
    assert WithoutUnderscores(ShowNat(m)) == ShowNat(m);
    if n < 0 {
      assert s[1..] == ShowNat(m);
    }
  }
  /** `DropPrefixWhere` stops at the first character `p` rejects. */
  lemma DropPrefixAt(x: string, p: char -> bool, i: nat)
    requires i <= |x|
    requires forall k :: 0 <= k < i ==> p(x[k])
    requires i < |x| ==> !p(x[i])
    ensures DropPrefixWhere(x, p) == x[i..]
  {
    var r := DropPrefixWhere(x, p);
    var m := |x| - |r|;
    assert r != [] ==> r[0] == x[m];
    assert i < |x| ==> !p(x[i]);
  }

  lemma SliceOfSlice(x: string, i: nat, j: nat)
    requires i <= j <= |x|
    ensures x[i..][..j - i] == x[i..j]
  {
  }

  lemma SuffixTail(x: string, p: char -> bool, i: nat, j: nat)
    requires i < j <= |x|
    requires forall k :: j <= k < |x| ==> p(x[k])
    requires !p(x[j - 1])
    ensures forall k :: j - i <= k < |x[i..]| ==> p(x[i..][k])
    ensures !p(x[i..][j - i - 1])
  {
  }

  /** Dropping what `p` accepts at both ends of `x` leaves `x[i..j]` when
      `p` accepts everything outside it and rejects both of its ends. */
  lemma TrimAt(x: string, p: char -> bool, i: nat, j: nat)
    requires i < j <= |x|
    requires forall k :: 0 <= k < i ==> p(x[k])
    requires forall k :: j <= k < |x| ==> p(x[k])
    requires !p(x[i]) && !p(x[j - 1])
    ensures DropSuffixWhere(DropPrefixWhere(x, p), p) == x[i..j]
  {
    DropPrefixAt(x, p, i);
    var y := x[i..];
    var r := DropSuffixWhere(y, p);
    SuffixTail(x, p, i, j);
    assert r != [] ==> r[|r| - 1] == y[|r| - 1];
    assert |r| < |y| ==> p(y[|r|]);
    assert |r| == j - i;
    SliceOfSlice(x, i, j);
  }

  /** Dropping what `p` accepts from text `p` accepts throughout leaves nothing. */
  lemma TrimAll(x: string, p: char -> bool)
    requires forall k :: 0 <= k < |x| ==> p(x[k])
    ensures DropSuffixWhere(DropPrefixWhere(x, p), p) == []
  {
    DropPrefixAt(x, p, |x|);
  }

  /** `strip` returns `x[i..j]` when everything outside it is white space and
      it neither starts nor ends with white space. */
  lemma StripAt(x: string, i: nat, j: nat)
    requires i <= j <= |x|
    requires forall k :: 0 <= k < i ==> IsSpace(x[k])
    requires forall k :: j <= k < |x| ==> IsSpace(x[k])
    requires i < j ==> !IsSpace(x[i]) && !IsSpace(x[j - 1])
    ensures Strip(x) == x[i..j]
  {
    if i < j {
      TrimAt(x, IsSpace, i, j);
    } else {
      TrimAll(x, IsSpace);
    }
  }

  /** The stripped part neither starts nor ends with white space. */
  lemma StripEnds(s: string)
    ensures var r := Strip(s);
      r == [] || (!IsSpace(r[0]) && !IsSpace(r[|r| - 1]))
  {
    var r := Strip(s);
    if r != [] {
      assert r[0] == s[LeadingSpaces(s)];
    }
  }

  /** Lower-casing neither makes nor removes white space. */
  lemma LowerKeepsSpace(s: string, i: nat, j: nat)
    requires i <= j <= |s|
    requires forall k :: 0 <= k < i ==> IsSpace(s[k])
    requires forall k :: j <= k < |s| ==> IsSpace(s[k])
    requires i < j ==> !IsSpace(s[i]) && !IsSpace(s[j - 1])
    ensures var x := Lower(s);
      (forall k :: 0 <= k < i ==> IsSpace(x[k])) &&
      (forall k :: j <= k < |x| ==> IsSpace(x[k])) &&
      (i < j ==> !IsSpace(x[i]) && !IsSpace(x[j - 1]))
  {
  }

  /** `lstrip(ch)` returns `x[i..]` when `x[..i]` is all `ch` and `x[i]` is not. */
  lemma LStripAt(x: string, ch: char, i: nat)
    requires i <= |x|
    requires forall k :: 0 <= k < i ==> x[k] == ch
    requires i < |x| ==> x[i] != ch
    ensures LStripChar(x, ch) == x[i..]
  {
    var r := LStripChar(x, ch);
    var m := |x| - |r|;
    assert r != [] ==> r[0] == x[m];
    assert i < |x| ==> x[i] != ch;
  }

  lemma LowerConcat(a: string, b: string)
    ensures Lower(a + b) == Lower(a) + Lower(b)
  {
  }

  lemma LowerSlice(s: string, i: nat, j: nat)
    requires i <= j <= |s|
    ensures Lower(s)[i..j] == Lower(s[i..j])
  {
  }

  /** Where the stripped part of `s` sits: white space before and after it,
      none at either of its ends. */
  lemma StripSpan(s: string)
    ensures var n := LeadingSpaces(s); var m := n + |Strip(s)|;
      m <= |s| && Strip(s) == s[n..m] &&
      (forall k :: 0 <= k < n ==> IsSpace(s[k])) &&
      (forall k :: m <= k < |s| ==> IsSpace(s[k])) &&
      (n < m ==> !IsSpace(s[n]) && !IsSpace(s[m - 1]))
  {
    StripEnds(s);
    var r := Strip(s);
    var n := LeadingSpaces(s);
    assert r != [] ==> s[n] == r[0] && s[n + |r| - 1] == r[|r| - 1];
  }

  /** `strip` and `lower` commute: no letter is white space. */
  lemma StripLower(s: string)
    ensures Strip(Lower(s)) == Lower(Strip(s))
  {
    var n := LeadingSpaces(s);
    var m := n + |Strip(s)|;
    StripSpan(s);
    assert Strip(s) == s[n..m];
    LowerKeepsSpace(s, n, m);
    StripAt(Lower(s), n, m);
    LowerSlice(s, n, m);
  }
}
