/**
 * The Python built-ins the colour code leans on, over `string` (a sequence of
 * Unicode code points): `str.isspace` and `str.strip`, `str.lower` as far as a
 * comparison with an ASCII word needs it, `int(s, 16)` and `format(n, '02x')`.
 */
module PyText {
  import opened Wrappers

  /** `c.isspace()`: the code points Python classes as whitespace. */
  predicate IsSpace(c: char)
  {
    var n := c as int;
    (0x09 <= n <= 0x0D) || (0x1C <= n <= 0x20) || n == 0x85 || n == 0xA0 || n == 0x1680 ||
    (0x2000 <= n <= 0x200A) || n == 0x2028 || n == 0x2029 || n == 0x202F || n == 0x205F || n == 0x3000
  }

  /**
   * The whitespace `int()` skips around a literal: ASCII space, tab, line feed,
   * vertical tab, form feed and carriage return, and the non-ASCII whitespace
   * (which `int()` first rewrites to a space). The ASCII separators 0x1C-0x1F
   * count for `str.strip` but not here.
   */
  predicate IsIntSpace(c: char)
  {
    var n := c as int;
    n == 0x20 || (0x09 <= n <= 0x0D) || (n >= 0x80 && IsSpace(c))
  }

  /** `s` without its longest prefix of characters satisfying `drop`. */
  function TrimLeft(s: string, drop: char -> bool): (r: string)
    ensures |r| <= |s|
  {
    if s != [] && drop(s[0]) then TrimLeft(s[1..], drop) else s
  }

  /** `s` without its longest suffix of characters satisfying `drop`. */
  function TrimRight(s: string, drop: char -> bool): (r: string)
    ensures |r| <= |s|
  {
    if s != [] && drop(s[|s| - 1]) then TrimRight(s[..|s| - 1], drop) else s
  }

  /** TrimLeft removes a prefix made of `drop` characters and stops at the first other one. */
  lemma {:induction false} TrimLeftShape(s: string, drop: char -> bool)
    ensures var r := TrimLeft(s, drop);
      r == s[|s| - |r|..] && (r == [] || !drop(r[0])) &&
      forall i :: 0 <= i < |s| - |r| ==> drop(s[i])
  {
    if s != [] && drop(s[0]) {
      TrimLeftShape(s[1..], drop);
    }
  }

  /** TrimRight removes a suffix made of `drop` characters and stops at the last other one. */
  lemma {:induction false} TrimRightShape(s: string, drop: char -> bool)
    ensures var r := TrimRight(s, drop);
      r == s[..|r|] && (r == [] || !drop(r[|r| - 1])) &&
      forall i :: |r| <= i < |s| ==> drop(s[i])
  {
    if s != [] && drop(s[|s| - 1]) {
      TrimRightShape(s[..|s| - 1], drop);
    }
  }

  /** `s.strip()`. */
  function Strip(s: string): (r: string)
    ensures |r| <= |s|
    ensures r == [] || (!IsSpace(r[0]) && !IsSpace(r[|r| - 1]))
    ensures exists i, j :: (0 <= i <= j <= |s| && r == s[i..j] &&
      (forall k :: 0 <= k < i ==> IsSpace(s[k])) && (forall k :: j <= k < |s| ==> IsSpace(s[k])))
  {
    TrimLeftShape(s, IsSpace);
    var l := TrimLeft(s, IsSpace);
    TrimRightShape(l, IsSpace);
    var r := TrimRight(l, IsSpace);
    var i := |s| - |l|;
    assert r == s[i..i + |r|];
    r
  }

  lemma {:induction false} TrimLeftDropsPrefix(pre: string, s: string, drop: char -> bool)
    requires forall i :: 0 <= i < |pre| ==> drop(pre[i])
    ensures TrimLeft(pre + s, drop) == TrimLeft(s, drop)
  {
    if pre != [] {
      assert (pre + s)[1..] == pre[1..] + s;
      TrimLeftDropsPrefix(pre[1..], s, drop);
    } else {
      assert pre + s == s;
    }
  }

  lemma {:induction false} TrimRightDropsSuffix(s: string, post: string, drop: char -> bool)
    requires forall i :: 0 <= i < |post| ==> drop(post[i])
    ensures TrimRight(s + post, drop) == TrimRight(s, drop)
  {
    if post != [] {
      assert (s + post)[..|s + post| - 1] == s + post[..|post| - 1];
      TrimRightDropsSuffix(s, post[..|post| - 1], drop);
    } else {
      assert s + post == s;
    }
  }

  lemma {:induction false} TrimLeftAppend(s: string, t: string, drop: char -> bool)
    ensures TrimLeft(s + t, drop) == if TrimLeft(s, drop) == [] then TrimLeft(t, drop) else TrimLeft(s, drop) + t
  {
    if s == [] {
      assert s + t == t;
    } else if drop(s[0]) {
      assert (s + t)[1..] == s[1..] + t;
      TrimLeftAppend(s[1..], t, drop);
    }
  }

  /** Whitespace around the input does not change what `strip()` returns. */
  lemma StripIgnoresPadding(pre: string, s: string, post: string)
    requires forall i :: 0 <= i < |pre| ==> IsSpace(pre[i])
    requires forall i :: 0 <= i < |post| ==> IsSpace(post[i])
    ensures Strip(pre + s + post) == Strip(s)
  {
    assert pre + s + post == pre + (s + post);
    TrimLeftDropsPrefix(pre, s + post, IsSpace);
    TrimLeftAppend(s, post, IsSpace);
    var l := TrimLeft(s, IsSpace);
    if l == [] {
      TrimLeftDropsPrefix(post, [], IsSpace);
      assert post + [] == post;
    } else {
      TrimRightDropsSuffix(l, post, IsSpace);
    }
  }

  /** Stripping twice is stripping once. */
  lemma StripIdempotent(s: string)
    ensures Strip(Strip(s)) == Strip(s)
  {
    var r := Strip(s);
    if r != [] {
      assert !IsSpace(r[0]) && !IsSpace(r[|r| - 1]);
      assert TrimLeft(r, IsSpace) == r;
      assert TrimRight(r, IsSpace) == r;
    }
  }

  /**
   * The lower case of an ASCII capital, every other character unchanged.
   * Python's `str.lower()` maps only two non-ASCII characters to text holding
   * an ASCII letter (U+212A to 'k', U+0130 to 'i' plus U+0307), so `Lower(s) == w`
   * agrees with `s.lower() == w` for every all-ASCII word `w` without a 'k'.
   */
  function LowerChar(c: char): char
  {
    if 'A' <= c <= 'Z' then (c as int + 32) as char else c
  }

  function Lower(s: string): (r: string)
    ensures |r| == |s|
    ensures forall i :: 0 <= i < |s| ==> !('A' <= r[i] <= 'Z')
    ensures forall i :: 0 <= i < |s| ==> (r[i] == s[i] <==> !('A' <= s[i] <= 'Z'))
  {
    seq(|s|, i requires 0 <= i < |s| => LowerChar(s[i]))
  }

  /** The word `w` written with each of its letters in either case. */
  predicate AnyCase(t: string, w: string)
  {
    |t| == |w| && forall i :: 0 <= i < |t| ==> t[i] == w[i] || t[i] as int + 32 == w[i] as int
  }

  /** For a lower-case ASCII word, `t.lower() == w` exactly when `t` is `w` in any mix of cases. */
  lemma LowerIsAnyCase(t: string, w: string)
    requires forall i :: 0 <= i < |w| ==> 'a' <= w[i] <= 'z'
    ensures Lower(t) == w <==> AnyCase(t, w)
  {
    if AnyCase(t, w) {
      forall i | 0 <= i < |t|
        ensures Lower(t)[i] == w[i]
      {
      }
    }
    if Lower(t) == w {
      forall i | 0 <= i < |t|
        ensures t[i] == w[i] || t[i] as int + 32 == w[i] as int
      {
        assert LowerChar(t[i]) == w[i];
      }
    }
  }

  predicate IsHexDigit(c: char)
  {
    '0' <= c <= '9' || 'a' <= c <= 'f' || 'A' <= c <= 'F'
  }

  predicate IsLowerHexDigit(c: char)
  {
    '0' <= c <= '9' || 'a' <= c <= 'f'
  }

  /** The value of a hexadecimal digit in either case (0 for any other character). */
  function DigitValue(c: char): (d: nat)
    ensures d < 16
  {
    if '0' <= c <= '9' then c as int - '0' as int
    else if 'a' <= c <= 'f' then c as int - 'a' as int + 10
    else if 'A' <= c <= 'F' then c as int - 'A' as int + 10
    else 0
  }

  /** A digit has the same value in either case. */
  lemma DigitValueIgnoresCase(c: char)
    requires IsHexDigit(c)
    ensures IsHexDigit(LowerChar(c)) && DigitValue(LowerChar(c)) == DigitValue(c)
  {
  }

  /** The lower-case digit of value `d`. */
  function HexChar(d: nat): (c: char)
    requires d < 16
    ensures IsLowerHexDigit(c) && DigitValue(c) == d
  {
    if d < 10 then ('0' as int + d) as char else ('a' as int + d - 10) as char
  }

  /** Every lower-case digit is the one HexChar writes for its value. */
  lemma HexCharOfDigit(c: char)
    requires IsLowerHexDigit(c)
    ensures HexChar(DigitValue(c)) == c
  {
  }

  /** The value of a run of hexadecimal digits, most significant first; underscores are skipped. */
  function HexValue(s: string): nat
  {
    if s == [] then 0
    else if s[|s| - 1] == '_' then HexValue(s[..|s| - 1])
    else 16 * HexValue(s[..|s| - 1]) + DigitValue(s[|s| - 1])
  }

  /** What `int()` accepts after the sign and the optional 0x: digits, with single underscores between them. */
  predicate IsDigitRun(s: string)
  {
    |s| > 0 && IsHexDigit(s[0]) && IsHexDigit(s[|s| - 1]) && SingleUnderscores(s)
  }

  /** Every character a digit or an underscore, and no underscore followed by another. */
  predicate SingleUnderscores(s: string)
  {
    s == [] ||
    ((IsHexDigit(s[0]) || (s[0] == '_' && (|s| == 1 || s[1] != '_'))) && SingleUnderscores(s[1..]))
  }

  lemma {:induction false} DigitsAreSingleUnderscores(s: string)
    requires forall i :: 0 <= i < |s| ==> IsHexDigit(s[i])
    ensures SingleUnderscores(s)
  {
    if s != [] {
      DigitsAreSingleUnderscores(s[1..]);
    }
  }

  /** The whitespace-stripped literal `int()` reads. */
  function IntLiteral(token: string): string
  {
    TrimRight(TrimLeft(token, IsIntSpace), IsIntSpace)
  }

  /** The sign of a literal (true for '-') and what follows it. */
  function SplitSign(t: string): (bool, string)
  {
    if |t| > 0 && (t[0] == '+' || t[0] == '-') then (t[0] == '-', t[1..]) else (false, t)
  }

  /** An unsigned literal without its optional 0x or 0X, which one underscore may follow. */
  function DropBasePrefix(u: string): string
  {
    if |u| >= 2 && u[0] == '0' && (u[1] == 'x' || u[1] == 'X') then
      (if |u| >= 3 && u[2] == '_' then u[3..] else u[2..])
    else u
  }

  /**
   * `int(token, 16)`, None where Python raises ValueError: surrounding
   * whitespace, then an optional sign, an optional base prefix and a run of
   * digits.
   */
  function ParseHexInt(token: string): (r: Option<int>)
    ensures r.Some? ==> exists i :: 0 <= i < |token| && IsHexDigit(token[i])
  {
    DigitsWithinToken(token);
    var (negative, unsigned) := SplitSign(IntLiteral(token));
    var digits := DropBasePrefix(unsigned);
    var magnitude: int := HexValue(digits);
    if IsDigitRun(digits) then Some(if negative then -magnitude else magnitude) else None
  }

  /** The digits `int()` reads, after whitespace, sign and prefix, are a piece of the token itself. */
  lemma DigitsWithinToken(token: string)
    ensures var d := DropBasePrefix(SplitSign(IntLiteral(token)).1);
      exists a, b :: 0 <= a <= b <= |token| && d == token[a..b]
    ensures var d := DropBasePrefix(SplitSign(IntLiteral(token)).1);
      |d| > 0 ==> exists i :: 0 <= i < |token| && token[i] == d[0]
  {
    var l := TrimLeft(token, IsIntSpace);
    TrimLeftShape(token, IsIntSpace);
    var t := TrimRight(l, IsIntSpace);
    TrimRightShape(l, IsIntSpace);
    var u := SplitSign(t).1;
    SplitSignSuffix(t);
    var d := DropBasePrefix(u);
    DropBasePrefixSuffix(u);
    PieceOfToken(token, l, t, u, d);
  }

  /** Whatever is left after cutting a prefix, a suffix and two more prefixes is a piece of the token. */
  lemma PieceOfToken(token: string, l: string, t: string, u: string, d: string)
    requires |l| <= |token| && l == token[|token| - |l|..]
    requires |t| <= |l| && t == l[..|t|]
    requires |u| <= |t| && u == t[|t| - |u|..]
    requires |d| <= |u| && d == u[|u| - |d|..]
    ensures exists a, b :: 0 <= a <= b <= |token| && d == token[a..b]
    ensures |d| > 0 ==> exists i :: 0 <= i < |token| && token[i] == d[0]
  {
    var a := |token| - |l| + |t| - |d|;
    forall k | 0 <= k < |d|
      ensures d[k] == token[a + k]
    {
      assert d[k] == u[|u| - |d| + k] == t[|t| - |d| + k] == l[|t| - |d| + k];
    }
    var b := a + |d|;
    assert d == token[a..b];
    if |d| > 0 {
      assert token[a] == d[0];
    }
  }

  lemma SplitSignSuffix(t: string)
    ensures |SplitSign(t).1| <= |t| && SplitSign(t).1 == t[|t| - |SplitSign(t).1|..]
  {
  }

  lemma DropBasePrefixSuffix(u: string)
    ensures |DropBasePrefix(u)| <= |u| && DropBasePrefix(u) == u[|u| - |DropBasePrefix(u)|..]
  {
  }

  lemma DigitIsNotSpace(c: char)
    requires IsHexDigit(c)
    ensures !IsIntSpace(c) && c != '+' && c != '-' && c != 'x' && c != 'X' && c != '_'
  {
  }

  /** Whitespace trimming leaves a literal alone that neither starts nor ends with whitespace. */
  lemma IntLiteralUntrimmed(t: string)
    requires |t| > 0 && !IsIntSpace(t[0]) && !IsIntSpace(t[|t| - 1])
    ensures IntLiteral(t) == t
  {
    assert TrimLeft(t, IsIntSpace) == t;
    assert TrimRight(t, IsIntSpace) == t;
  }

  /** A run of plain digits is its own digit run once sign and prefix are removed. */
  lemma PlainDigitsAreRun(s: string)
    requires |s| > 0 && forall i :: 0 <= i < |s| ==> IsHexDigit(s[i])
    ensures IsDigitRun(s) && DropBasePrefix(s) == s
    ensures !IsIntSpace(s[0]) && !IsIntSpace(s[|s| - 1]) && s[0] != '+' && s[0] != '-'
  {
    DigitIsNotSpace(s[0]);
    DigitIsNotSpace(s[|s| - 1]);
    if |s| >= 2 {
      DigitIsNotSpace(s[1]);
    }
    DigitsAreSingleUnderscores(s);
  }

  /** A plain run of hexadecimal digits reads as its value. */
  lemma ParsePlainDigits(s: string)
    requires |s| > 0 && forall i :: 0 <= i < |s| ==> IsHexDigit(s[i])
    ensures ParseHexInt(s) == Some(HexValue(s))
  {
    PlainDigitsAreRun(s);
    IntLiteralUntrimmed(s);
    assert SplitSign(s) == (false, s);
  }

  /** A minus sign followed by a plain run of hexadecimal digits reads as the negated value. */
  lemma ParseNegatedDigits(m: string)
    requires |m| >= 2 && m[0] == '-' && forall i :: 1 <= i < |m| ==> IsHexDigit(m[i])
    ensures ParseHexInt(m) == Some(-(HexValue(m[1..]) as int))
  {
    var s := m[1..];
    PlainDigitsAreRun(s);
    DigitIsNotSpace(m[|m| - 1]);
    IntLiteralUntrimmed(m);
  }

  /** The lower-case digits of `n` with no leading zero, as `format(n, 'x')` writes them. */
  function HexDigits(n: nat): (r: string)
    ensures 1 <= |r| && (|r| == 1 <==> n < 16)
    ensures IsLowerHexDigit(r[0])
  {
    if n < 16 then [HexChar(n)] else HexDigits(n / 16) + [HexChar(n % 16)]
  }

  /** The digits are lower-case hexadecimal digits and read back as `n`. */
  lemma {:induction false} HexDigitsValue(n: nat)
    ensures forall i :: 0 <= i < |HexDigits(n)| ==> IsLowerHexDigit(HexDigits(n)[i])
    ensures HexValue(HexDigits(n)) == n
  {
    if n >= 16 {
      HexDigitsValue(n / 16);
      var r := HexDigits(n);
      assert r[..|r| - 1] == HexDigits(n / 16);
    }
  }

  lemma HexValueLeadingZero(s: string)
    ensures HexValue("0" + s) == HexValue(s)
  {
    if s != [] {
      assert ("0" + s)[..|"0" + s| - 1] == "0" + s[..|s| - 1];
      HexValueLeadingZero(s[..|s| - 1]);
    }
  }

  /**
   * `format(n, '02x')`: lower-case hexadecimal zero-padded to two characters;
   * a negative number is written as '-' and its digits.
   */
  function Format02x(n: int): (r: string)
    ensures |r| >= 2
    ensures r[0] == '-' <==> n < 0
  {
    if n < 0 then "-" + HexDigits(-n)
    else if n < 16 then "0" + HexDigits(n)
    else HexDigits(n)
  }

  /** A '-' followed by digits reads back as the negated value of the digits. */
  lemma NegatedDigitsReadBack(d: string, m: string, v: int)
    requires |d| > 0 && forall i :: 0 <= i < |d| ==> IsLowerHexDigit(d[i])
    requires HexValue(d) == v
    requires |m| == |d| + 1 && m[0] == '-' && forall i :: 1 <= i < |m| ==> m[i] == d[i - 1]
    ensures ParseHexInt(m) == Some(-v)
  {
    assert m[1..] == d;
    ParseNegatedDigits(m);
  }

  /** A negative number is written as '-' followed by the digits of its magnitude. */
  lemma NegativeShape(n: int)
    requires n < 0
    ensures |Format02x(n)| == |HexDigits(-n)| + 1 && Format02x(n)[0] == '-'
    ensures forall i :: 1 <= i < |Format02x(n)| ==> Format02x(n)[i] == HexDigits(-n)[i - 1]
  {
  }

  /** A '0' followed by digits reads back as the value of the digits. */
  lemma PaddedDigitsReadBack(d: string, m: string)
    requires m == "0" + d && |d| > 0 && forall i :: 0 <= i < |d| ==> IsLowerHexDigit(d[i])
    ensures ParseHexInt(m) == Some(HexValue(d))
  {
    HexValueLeadingZero(d);
    ParsePlainDigits(m);
  }

  lemma NegativeReadsBack(n: int)
    requires n < 0
    ensures ParseHexInt(Format02x(n)) == Some(n)
  {
    NegativeShape(n);
    HexDigitsValue(-n);
    NegatedDigitsReadBack(HexDigits(-n), Format02x(n), -n);
  }

  lemma SmallReadsBack(n: int)
    requires 0 <= n < 16
    ensures ParseHexInt(Format02x(n)) == Some(n)
  {
    HexDigitsValue(n);
    PaddedDigitsReadBack(HexDigits(n), Format02x(n));
  }

  lemma LargeReadsBack(n: int)
    requires 16 <= n
    ensures ParseHexInt(Format02x(n)) == Some(n)
  {
    HexDigitsValue(n);
    ParsePlainDigits(HexDigits(n));
  }

  /** `int(format(n, '02x'), 16) == n` for every integer `n`. */
  lemma Format02xReadsBack(n: int)
    ensures ParseHexInt(Format02x(n)) == Some(n)
  {
    if n < 0 {
      NegativeReadsBack(n);
    } else if n < 16 {
      SmallReadsBack(n);
    } else {
      LargeReadsBack(n);
    }
  }

  /** A byte is written as exactly two lower-case digits, high nibble first; nothing else is. */
  lemma Format02xByte(n: int)
    ensures 0 <= n < 256 <==> (|Format02x(n)| == 2 && IsLowerHexDigit(Format02x(n)[0]) && IsLowerHexDigit(Format02x(n)[1]))
    ensures 0 <= n < 256 ==> Format02x(n) == [HexChar(n / 16), HexChar(n % 16)]
  {
    if 16 <= n {
      assert HexDigits(n) == HexDigits(n / 16) + [HexChar(n % 16)];
    }
  }
}
