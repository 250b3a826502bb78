/**
 The string operations of Python that the core relies on, over `seq<char>`:
 `str.strip`, `str.lower`, `in` on strings, `str.startswith`, `str.join`,
 `int()` of a digit string and `str()` of an integer.  Character classes are
 the ASCII part of Python's: `IsSpace` is `str.isspace` (and regex `\s`)
 restricted to ASCII, `IsDigit` is `\d` restricted to ASCII.
 */
module Text {

  /** `str.isspace` on ASCII: tab, line feed, vertical tab, form feed,
      carriage return, the four information separators and space. */
  predicate IsSpace(c: char) {
    ('\t' <= c <= '\r') || ('\U{1c}' <= c <= '\U{1f}') || c == ' '
  }

  predicate IsDigit(c: char) {
    '0' <= c <= '9'
  }

  predicate AllSpace(s: string) {
    forall i :: 0 <= i < |s| ==> IsSpace(s[i])
  }

  predicate AllDigits(s: string) {
    forall i :: 0 <= i < |s| ==> IsDigit(s[i])
  }

  // ---------------------------------------------------------------------------
  // strip
  // ---------------------------------------------------------------------------

  /** `str.lstrip()`: drops the leading whitespace, and nothing else. */
  function LStrip(s: string): (r: string)
    ensures |r| <= |s| && r == s[|s| - |r|..]
    ensures forall i :: 0 <= i < |s| - |r| ==> IsSpace(s[i])
    ensures r == [] || !IsSpace(r[0])
  {
    if |s| > 0 && IsSpace(s[0]) then LStrip(s[1..]) else s
  }

  /** `str.rstrip()`: drops the trailing whitespace, and nothing else. */
  function RStrip(s: string): (r: string)
    ensures |r| <= |s| && r == s[..|r|]
    ensures forall i :: |r| <= i < |s| ==> IsSpace(s[i])
    ensures r == [] || !IsSpace(r[|r| - 1])
  {
    if |s| > 0 && IsSpace(s[|s| - 1]) then RStrip(s[..|s| - 1]) else s
  }

  /** `str.strip()`. */
  function Strip(s: string): string {
    LStrip(RStrip(s))
  }

  /** What `Strip` promises: its result is a slice of the input with no
      whitespace at either end, everything cut away is whitespace, and it is
      empty exactly when the input is all whitespace. */
  lemma StripSpec(s: string)
    ensures var r := Strip(s);
      && (r == [] || (!IsSpace(r[0]) && !IsSpace(r[|r| - 1])))
      && (r == [] <==> AllSpace(s))
      && Contains(s, r)
  {
    var t := RStrip(s);
    var r := LStrip(t);
    var i := |t| - |r|;
    assert s[i..i + |r|] == t[i..] == r;
    assert OccursAt(s, r, i);
    if r == [] {
      assert forall j :: 0 <= j < |s| ==> IsSpace(s[j]) by {
        forall j | 0 <= j < |s| ensures IsSpace(s[j]) {
          if j < |t| { assert t[j] == s[j]; }
        }
      }
    } else {
      assert r[|r| - 1] == t[|t| - 1];
      assert !IsSpace(s[i]);
      assert !AllSpace(s);
    }
  }

  lemma LStripNoLeadingSpace(s: string)
    requires s == [] || !IsSpace(s[0])
    ensures LStrip(s) == s
  {
  }

  lemma RStripNoTrailingSpace(s: string)
    requires s == [] || !IsSpace(s[|s| - 1])
    ensures RStrip(s) == s
  {
  }

  /** A string with a non-space character at each end is its own strip. */
  lemma StripTight(s: string)
    requires s == [] || (!IsSpace(s[0]) && !IsSpace(s[|s| - 1]))
    ensures Strip(s) == s
  {
    RStripNoTrailingSpace(s);
    LStripNoLeadingSpace(s);
  }

  lemma StripIdempotent(s: string)
    ensures Strip(Strip(s)) == Strip(s)
  {
    StripSpec(s);
    StripTight(Strip(s));
  }

  /** Stripping a right-stripped string is stripping the original. */
  lemma StripOfRStrip(s: string)
    ensures Strip(RStrip(s)) == Strip(s)
  {
    RStripNoTrailingSpace(RStrip(s));
  }

  /** Right-stripping `p + s` keeps `p` when `s` is not all whitespace. */
  lemma RStripAppend(p: string, s: string)
    requires !AllSpace(s)
    ensures RStrip(p + s) == p + RStrip(s)
    decreases |s|
  {
    if |s| > 0 && IsSpace(s[|s| - 1]) {
      assert (p + s)[..|p + s| - 1] == p + s[..|s| - 1];
      RStripAppend(p, s[..|s| - 1]);
    }
  }

  /** Stripping ignores whitespace already stripped from the left. */
  lemma {:induction false} StripOfLStrip(s: string)
    ensures Strip(LStrip(s)) == Strip(s)
    decreases |s|
  {
    if |s| > 0 && IsSpace(s[0]) {
      var t := s[1..];
      assert s == [s[0]] + t;
      StripOfLStrip(t);
      if AllSpace(t) {
        StripEmptyIffAllSpace(t);
        StripEmptyIffAllSpace(s);
      } else {
        RStripAppend([s[0]], t);
        assert ([s[0]] + RStrip(t))[1..] == RStrip(t);
      }
    }
  }

  /** Trailing whitespace does not survive `RStrip`. */
  lemma {:induction false} RStripSpaces(p: string, b: string)
    requires AllSpace(b)
    ensures RStrip(p + b) == RStrip(p)
    decreases |b|
  {
    if |b| > 0 {
      var s := p + b;
      assert s[|s| - 1] == b[|b| - 1];
      assert RStrip(s) == RStrip(s[..|s| - 1]);
      assert s[..|s| - 1] == p + b[..|b| - 1];
      RStripSpaces(p, b[..|b| - 1]);
    } else {
      assert p + b == p;
    }
  }

  /** Leading whitespace does not survive `LStrip`. */
  lemma {:induction false} LStripSpaces(a: string, p: string)
    requires AllSpace(a)
    ensures LStrip(a + p) == LStrip(p)
    decreases |a|
  {
    if |a| > 0 {
      var s := a + p;
      assert s[0] == a[0];
      assert LStrip(s) == LStrip(s[1..]);
      assert s[1..] == a[1..] + p;
      LStripSpaces(a[1..], p);
    } else {
      assert a + p == p;
    }
  }

  /** Stripping a word padded with whitespace gives the word back. */
  lemma StripPadded(a: string, t: string, b: string)
    requires AllSpace(a) && AllSpace(b)
    requires |t| > 0 && !IsSpace(t[0]) && !IsSpace(t[|t| - 1])
    ensures Strip(a + t + b) == t
  {
    RStripSpaces(a + t, b);
    RStripNoTrailingSpace(a + t);
    LStripSpaces(a, t);
    LStripNoLeadingSpace(t);
  }

  /** `Strip(s)` is empty exactly when `s` is all whitespace. */
  lemma StripEmptyIffAllSpace(s: string)
    ensures Strip(s) == [] <==> AllSpace(s)
  {
    StripSpec(s);
  }

  // ---------------------------------------------------------------------------
  // lower
  // ---------------------------------------------------------------------------

  function ToLower(c: char): char {
    if 'A' <= c <= 'Z' then (c as int + 32) as char else c
  }

  /** `str.lower()` on ASCII letters, character by character. */
  function Lower(s: string): (r: string)
    ensures |r| == |s|
  {
    seq(|s|, i requires 0 <= i < |s| => ToLower(s[i]))
  }

  /** Lower-casing leaves a string without capitals alone. */
  lemma LowerNoCapitals(s: string)
    requires forall i :: 0 <= i < |s| ==> !('A' <= s[i] <= 'Z')
    ensures Lower(s) == s
  {
  }

  lemma LowerAppend(a: string, b: string)
    ensures Lower(a + b) == Lower(a) + Lower(b)
  {
  }

  lemma LowerSlice(s: string, i: nat, j: nat)
    requires i <= j <= |s|
    ensures Lower(s[i..j]) == Lower(s)[i..j]
  {
  }

  // ---------------------------------------------------------------------------
  // substring
  // ---------------------------------------------------------------------------

  predicate OccursAt(hay: string, needle: string, i: int) {
    0 <= i && i + |needle| <= |hay| && hay[i..i + |needle|] == needle
  }

  /** Python's `needle in hay` for strings. */
  predicate Contains(hay: string, needle: string) {
    exists i | 0 <= i <= |hay| - |needle| :: OccursAt(hay, needle, i)
  }

  predicate StartsWith(s: string, prefix: string) {
    OccursAt(s, prefix, 0)
  }

  lemma ContainsSelf(s: string)
    ensures Contains(s, s)
  {
    assert OccursAt(s, s, 0);
  }

  /** Containment is transitive. */
  lemma ContainsTrans(a: string, b: string, c: string)
    requires Contains(a, b) && Contains(b, c)
    ensures Contains(a, c)
  {
    var i :| 0 <= i <= |a| - |b| && OccursAt(a, b, i);
    var j :| 0 <= j <= |b| - |c| && OccursAt(b, c, j);
    forall k | 0 <= k < |c|
      ensures a[i + j..i + j + |c|][k] == c[k]
    {
      assert a[i + j + k] == a[i..i + |b|][j + k] == b[j + k] == b[j..j + |c|][k];
    }
    assert OccursAt(a, c, i + j);
  }

  /** What occurs in a part occurs in the whole. */
  lemma ContainsInfix(a: string, b: string, c: string, x: string)
    requires Contains(b, x)
    ensures Contains(a + b + c, x)
  {
    var i :| 0 <= i <= |b| - |x| && OccursAt(b, x, i);
    assert (a + b + c)[|a| + i..|a| + i + |x|] == b[i..i + |x|];
    assert OccursAt(a + b + c, x, |a| + i);
  }

  lemma ContainsPrefix(a: string, b: string, x: string)
    requires Contains(a, x)
    ensures Contains(a + b, x)
  {
    ContainsInfix([], a, b, x);
    assert [] + a + b == a + b;
  }

  /** Lower-casing preserves containment. */
  lemma LowerContains(hay: string, needle: string)
    requires Contains(hay, needle)
    ensures Contains(Lower(hay), Lower(needle))
  {
    var i :| 0 <= i <= |hay| - |needle| && OccursAt(hay, needle, i);
    LowerSlice(hay, i, i + |needle|);
    assert OccursAt(Lower(hay), Lower(needle), i);
  }

  // ---------------------------------------------------------------------------
  // join
  // ---------------------------------------------------------------------------

  /** `sep.join(xs)`. */
  function Join(sep: string, xs: seq<string>): string
    decreases |xs|
  {
    if |xs| == 0 then []
    else if |xs| == 1 then xs[0]
    else xs[0] + sep + Join(sep, xs[1..])
  }

  /** Every joined part occurs in the joined string. */
  lemma {:induction false} JoinContainsPart(sep: string, xs: seq<string>, k: nat)
    requires k < |xs|
    ensures Contains(Join(sep, xs), xs[k])
    decreases |xs|
  {
    if |xs| == 1 {
      ContainsSelf(xs[0]);
    } else if k == 0 {
      ContainsSelf(xs[0]);
      ContainsPrefix(xs[0], sep + Join(sep, xs[1..]), xs[0]);
      assert xs[0] + sep + Join(sep, xs[1..]) == xs[0] + (sep + Join(sep, xs[1..]));
    } else {
      JoinContainsPart(sep, xs[1..], k - 1);
      ContainsInfix(xs[0] + sep, Join(sep, xs[1..]), [], xs[k]);
      assert xs[0] + sep + Join(sep, xs[1..]) + [] == Join(sep, xs);
    }
  }

  lemma JoinCons(sep: string, x: string, xs: seq<string>)
    requires |xs| > 0
    ensures Join(sep, [x] + xs) == x + sep + Join(sep, xs)
  {
    assert ([x] + xs)[1..] == xs;
  }

  // ---------------------------------------------------------------------------
  // prefixes
  // ---------------------------------------------------------------------------

  /** `s[:n]`: the first `n` characters, or all of `s` when it is shorter. */
  function Take(s: string, n: nat): (r: string)
    ensures |r| <= n && |r| <= |s|
    ensures r == s[..|r|]
    ensures |s| <= n ==> r == s
  {
    if |s| <= n then s else s[..n]
  }

  // ---------------------------------------------------------------------------
  // integers
  // ---------------------------------------------------------------------------

  function DigitValue(c: char): nat
    requires IsDigit(c)
  {
    c as int - '0' as int
  }

  function DigitChar(d: nat): (c: char)
    requires d < 10
    ensures IsDigit(c) && DigitValue(c) == d
  {
    ('0' as int + d) as char
  }

  /** `int(ds)` for a string of decimal digits (leading zeros allowed). */
  function DigitsValue(ds: string): nat
    requires AllDigits(ds)
    decreases |ds|
  {
    if |ds| == 0 then 0
    else DigitsValue(ds[..|ds| - 1]) * 10 + DigitValue(ds[|ds| - 1])
  }

  /** `str(n)` for a natural number: its shortest decimal numeral. */
  function NatToDecimal(n: nat): (r: string)
    ensures |r| > 0 && AllDigits(r)
    decreases n
  {
    if n < 10 then [DigitChar(n)] else NatToDecimal(n / 10) + [DigitChar(n % 10)]
  }

  /** `str(i)` for a Python int. */
  function IntToDecimal(i: int): string {
    if i >= 0 then NatToDecimal(i) else "-" + NatToDecimal(-i)
  }

  /** `int(str(n)) == n`. */
  lemma {:induction false} DecimalRoundTrip(n: nat)
    ensures DigitsValue(NatToDecimal(n)) == n
    decreases n
  {
    var r := NatToDecimal(n);
    if n >= 10 {
      DecimalRoundTrip(n / 10);
      assert r[..|r| - 1] == NatToDecimal(n / 10);
    }
  }
}
