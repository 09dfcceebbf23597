/**
 The two string built-ins that `addNode` applies to its form input:
 `String.prototype.trim` on the name and `parseInt(value, 10)` on the influence.
 Strings are sequences of Unicode scalar values; no normalisation is modelled.
 */
module Text {
  import opened Wrappers

  /** ECMAScript WhiteSpace and LineTerminator code points (section 12.2 and 12.3 of ECMA-262). */
  predicate IsWhitespace(c: char) {
    var k := c as int;
    || k == 0x09 || k == 0x0A || k == 0x0B || k == 0x0C || k == 0x0D
    || k == 0x20 || k == 0xA0 || k == 0x1680
    || (0x2000 <= k <= 0x200A)
    || k == 0x2028 || k == 0x2029 || k == 0x202F || k == 0x205F
    || k == 0x3000 || k == 0xFEFF
  }

  predicate IsDigit(c: char) {
    '0' <= c <= '9'
  }

  predicate All(s: string, p: char -> bool) {
    forall k :: 0 <= k < |s| ==> p(s[k])
  }

  predicate AllWhitespace(s: string) {
    All(s, IsWhitespace)
  }

  /** Length of the longest prefix of `s` whose characters all satisfy `p`. */
  function PrefixLength(s: string, p: char -> bool): (n: nat)
    ensures n <= |s|
    ensures forall k :: 0 <= k < n ==> p(s[k])
    ensures n < |s| ==> !p(s[n])
  {
    if |s| == 0 || !p(s[0]) then 0 else 1 + PrefixLength(s[1..], p)
  }

  /** A prefix that satisfies `p`, followed by a character that does not, is the whole span. */
  lemma {:induction false} PrefixLengthOfAppend(a: string, b: string, p: char -> bool)
    requires All(a, p)
    requires |b| > 0 && !p(b[0])
    ensures PrefixLength(a + b, p) == |a|
  {
    if |a| == 0 {
      assert a + b == b;
    } else {
      assert (a + b)[0] == a[0];
      assert (a + b)[1..] == a[1..] + b;
      PrefixLengthOfAppend(a[1..], b, p);
    }
  }

  /** Length of the longest suffix of `s` made of white space. */
  function TrailingWhitespace(s: string): (n: nat)
    ensures n <= |s|
    ensures forall k :: |s| - n <= k < |s| ==> IsWhitespace(s[k])
    ensures n < |s| ==> !IsWhitespace(s[|s| - n - 1])
  {
    if |s| == 0 || !IsWhitespace(s[|s| - 1]) then 0 else 1 + TrailingWhitespace(s[..|s| - 1])
  }

  /**
   `String.prototype.trim`: the text between the leading and the trailing white space.
   The result is empty exactly when the input is all white space, otherwise it
   starts and ends with a non-space character, and it is the slice of the input
   that follows the leading white space, with only white space after it.
   */
  function Trim(s: string): (r: string)
    ensures |r| == 0 <==> AllWhitespace(s)
    ensures |r| > 0 ==> !IsWhitespace(r[0]) && !IsWhitespace(r[|r| - 1])
    ensures var a := PrefixLength(s, IsWhitespace);
            a + |r| <= |s| && r == s[a..a + |r|] && AllWhitespace(s[a + |r|..])
  {
    var a := PrefixLength(s, IsWhitespace);
    var t := s[a..];
    var r := t[..|t| - TrailingWhitespace(t)];
    TrimSplit(s, a, r);
    r
  }

  /** The facts about the three pieces `s[..a]`, `r`, and the rest that `Trim` promises. */
  lemma {:induction false} TrimSplit(s: string, a: nat, r: string)
    requires a == PrefixLength(s, IsWhitespace)
    requires r == s[a..][..|s[a..]| - TrailingWhitespace(s[a..])]
    ensures |r| == 0 <==> AllWhitespace(s)
    ensures a + |r| <= |s| && r == s[a..a + |r|] && AllWhitespace(s[a + |r|..])
  {
    var t := s[a..];
    var n := TrailingWhitespace(t);
    assert |r| == |t| - n;
    assert s[a + |r|..] == t[|r|..];
    assert r == s[a..a + |r|];
    assert a < |s| ==> !IsWhitespace(s[a]);
    if AllWhitespace(s) {
      assert a == |s|;
    }
    assert 0 < |t| ==> t[0] == s[a];
    if |r| == 0 {
      assert a == |s|;
    }
  }

  function DigitValue(c: char): nat
    requires IsDigit(c)
  {
    c as int - '0' as int
  }

  /** The value of a decimal numeral, most significant digit first. */
  function DigitsValue(ds: string): nat
    requires All(ds, IsDigit)
  {
    if |ds| == 0 then 0
    else DigitsValue(ds[..|ds| - 1]) * 10 + DigitValue(ds[|ds| - 1])
  }

  /** The value of the run of decimal digits that starts `u`, if there is one. */
  function LeadingNumber(u: string): Option<nat> {
    var z := u[..PrefixLength(u, IsDigit)];
    if |z| == 0 then None else Some(DigitsValue(z))
  }

  /**
   `parseInt(s, 10)`: skip leading white space, take one optional sign, then the
   longest run of decimal digits; no digits gives `NaN`, modelled as `None`.
   Negative zero is the integer 0.
   */
  function ParseInt(s: string): Option<int> {
    var t := s[PrefixLength(s, IsWhitespace)..];
    var negative := |t| > 0 && t[0] == '-';
    var u := if |t| > 0 && (t[0] == '-' || t[0] == '+') then t[1..] else t;
    match LeadingNumber(u)
    case None => None
    case Some(v) => Some(if negative then 0 - v else v)
  }

  function DigitChar(d: nat): (c: char)
    requires d < 10
    ensures IsDigit(c) && DigitValue(c) == d
  {
    ('0' as int + d) as char
  }

  /** The decimal numeral of `n` without leading zeros. */
  function Decimal(n: nat): (ds: string)
    ensures 0 < |ds| && All(ds, IsDigit)
    ensures DigitsValue(ds) == n
    ensures ds[0] == '0' <==> n == 0
  {
    if n < 10 then [DigitChar(n)]
    else
      var ds := Decimal(n / 10) + [DigitChar(n % 10)];
      assert ds[..|ds| - 1] == Decimal(n / 10);
      ds
  }

  /**
   `parseInt` reads back what `String` writes, after any leading white space,
   with an optional minus sign, and ignoring whatever follows the digits as long
   as it does not start with a digit (so "7.5" reads as 7).
   */
  lemma {:induction false} ParseIntOfDecimal(space: string, n: nat, rest: string)
    requires AllWhitespace(space)
    requires |rest| == 0 || !IsDigit(rest[0])
    ensures ParseInt(space + Decimal(n) + rest) == Some(n)
  {
    var ds := Decimal(n);
    var plain := ds + rest;
    assert LeadingNumber(plain) == Some(n) by {
      LeadingNumberOfDecimal(ds, rest);
    }
    assert ParseInt(space + ds + rest) == ParseInt(plain) by {
      assert plain[0] == ds[0];
      assert space + ds + rest == space + plain;
      ParseIntSkipsSpace(space, plain);
    }
    assert ParseInt(plain) == LeadingNumber(plain) by {
      assert plain[0] == ds[0];
      ParseIntUnsigned(plain);
    }
  }

  /** The same round trip through a minus sign. */
  lemma {:induction false} ParseIntOfNegativeDecimal(space: string, n: nat, rest: string)
    requires AllWhitespace(space)
    requires |rest| == 0 || !IsDigit(rest[0])
    ensures ParseInt(space + ['-'] + Decimal(n) + rest) == Some(0 - n)
  {
    var ds := Decimal(n);
    var plain := ds + rest;
    var minus := ['-'] + plain;
    assert LeadingNumber(plain) == Some(n) by {
      LeadingNumberOfDecimal(ds, rest);
    }
    assert ParseInt(space + ['-'] + ds + rest) == ParseInt(minus) by {
      assert space + ['-'] + ds + rest == space + minus;
      ParseIntSkipsSpace(space, minus);
    }
    assert plain[0] == ds[0];
    ParseIntNegative(plain, n);
  }

  lemma {:induction false} ParseIntUnsigned(u: string)
    requires |u| > 0 && IsDigit(u[0])
    ensures ParseInt(u) == LeadingNumber(u)
  {
    assert PrefixLength(u, IsWhitespace) == 0;
    assert u[0..] == u;
  }

  lemma {:induction false} ParseIntNegative(u: string, v: nat)
    requires |u| > 0 && IsDigit(u[0])
    requires LeadingNumber(u) == Some(v)
    ensures ParseInt(['-'] + u) == Some(0 - v)
  {
    var t := ['-'] + u;
    assert PrefixLength(t, IsWhitespace) == 0;
    assert t[0..] == t;
    assert t[1..] == u;
  }

  /** Leading white space does not change what `parseInt` reads. */
  lemma {:induction false} ParseIntSkipsSpace(space: string, body: string)
    requires AllWhitespace(space)
    requires |body| > 0 && !IsWhitespace(body[0])
    ensures ParseInt(space + body) == ParseInt(body)
  {
    PrefixLengthOfAppend(space, body, IsWhitespace);
    assert (space + body)[|space|..] == body;
    assert PrefixLength(body, IsWhitespace) == 0;
    assert body[0..] == body;
  }

  /** A numeral followed by a non-digit is read in full. */
  lemma {:induction false} LeadingNumberOfDecimal(ds: string, rest: string)
    requires 0 < |ds| && All(ds, IsDigit)
    requires |rest| == 0 || !IsDigit(rest[0])
    ensures LeadingNumber(ds + rest) == Some(DigitsValue(ds))
  {
    var u := ds + rest;
    if |rest| == 0 {
      assert u == ds;
    } else {
      PrefixLengthOfAppend(ds, rest, IsDigit);
    }
    assert u[..|ds|] == ds;
  }
}
