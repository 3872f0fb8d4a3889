/** Python's `int(s, base)` for the two bases the script uses (10 and 16)
    and Python's `hex(n)`, with the facts about them the codec needs. */
module PyInt {
  import opened Wrappers
  import opened PyStr

  function Pow(b: nat, e: nat): (r: nat)
    ensures b > 0 ==> r > 0
  {
    if e == 0 then 1 else b * Pow(b, e - 1)
  }

  lemma {:induction false} PowMonotone(b: nat, e1: nat, e2: nat)
    requires b >= 1 && e1 <= e2
    ensures Pow(b, e1) <= Pow(b, e2)
    decreases e2
  {
    if e1 < e2 {
      PowMonotone(b, e1, e2 - 1);
      assert Pow(b, e2) == b * Pow(b, e2 - 1);
    }
  }

  /** CPython's digit table: `0`-`9` are 0..9, letters of either case are
      10..35, and every other character is 37, a digit of no base. */
  function DigitValue(c: char): (v: nat)
    ensures v < 36 <==> ('0' <= c <= '9' || 'a' <= c <= 'z' || 'A' <= c <= 'Z')
  {
    if '0' <= c <= '9' then c as int - '0' as int
    else if 'a' <= c <= 'z' then c as int - 'a' as int + 10
    else if 'A' <= c <= 'Z' then c as int - 'A' as int + 10
    else 37
  }

  predicate IsDigit(c: char, base: nat) {
    DigitValue(c) < base
  }

  /** A digit of any base up to 36 is never a blank. */
  lemma DigitNotSpace(c: char, base: nat)
    requires base <= 36 && IsDigit(c, base)
    ensures !IsSpace(c) && c != '_' && c != '-' && c != '+'
  {
  }

  /** The big-endian value of the digits of `s`; underscores are skipped. */
  function Value(s: string, base: nat): nat
    decreases |s|
  {
    if s == [] then 0
    else if s[|s| - 1] == '_' then Value(s[..|s| - 1], base)
    else Value(s[..|s| - 1], base) * base + DigitValue(s[|s| - 1])
  }

  /** The digit part `int()` accepts (PEP 515): at least one digit, every
      character a digit or `_`, no `_` at either end and never two in a row. */
  predicate WellFormedDigits(w: string, base: nat) {
    && |w| > 0
    && IsDigit(w[0], base)
    && IsDigit(w[|w| - 1], base)
    && (forall k :: 0 <= k < |w| ==> IsDigit(w[k], base) || w[k] == '_')
    && (forall i, j :: 0 <= i < |w| && 0 <= j < |w| && j == i + 1 ==> !(w[i] == '_' && w[j] == '_'))
  }

  predicate HasHexPrefix(u: string) {
    |u| >= 2 && u[0] == '0' && (u[1] == 'x' || u[1] == 'X')
  }

  /** What is left of the literal once blanks, the sign and (in base 16)
      the `0x`/`0X` prefix with the single `_` allowed after it are gone. */
  function DigitPart(s: string, base: nat): string {
    var t := Strip(s);
    var u := if |t| > 0 && (t[0] == '-' || t[0] == '+') then t[1..] else t;
    if base == 16 && HasHexPrefix(u) then
      (if |u| > 2 && u[2] == '_' then u[3..] else u[2..])
    else u
  }

  lemma DigitPartShorter(s: string, base: nat)
    ensures |DigitPart(s, base)| <= |s|
  {
    StripShorter(s);
  }

  predicate IsNegative(s: string) {
    var t := Strip(s);
    |t| > 0 && t[0] == '-'
  }

  /** `int(s, base)`: raises `ValueError` unless the text is a well-formed
      literal of that base. */
  function ParseInt(s: string, base: nat): (r: Result<int>)
    requires base == 10 || base == 16
  {
    var w := DigitPart(s, base);
    if WellFormedDigits(w, base) then
      var v: int := Value(w, base);
      Ok(if IsNegative(s) then -v else v)
    else ValueError
  }

  /** A lowercase hexadecimal digit for `d < 16`. */
  function HexChar(d: nat): (c: char)
    requires d < 16
    ensures DigitValue(c) == d
    ensures '0' <= c <= '9' || 'a' <= c <= 'f'
  {
    if d < 10 then ('0' as int + d) as char else ('a' as int + d - 10) as char
  }

  /** The minimal lowercase hexadecimal numeral of `n` (`"0"` for zero). */
  function HexDigits(n: nat): string
    decreases n
  {
    if n < 16 then [HexChar(n)] else HexDigits(n / 16) + [HexChar(n % 16)]
  }

  /** Python's `hex(n)`. */
  function Hex(n: int): string {
    if n < 0 then "-0x" + HexDigits(-n) else "0x" + HexDigits(n)
  }

  predicate IsLowerHex(s: string) {
    forall k :: 0 <= k < |s| ==> ('0' <= s[k] <= '9' || 'a' <= s[k] <= 'f')
  }

  /** Lowercase hexadecimal text is its own `lower()`, and `lower()` turns
      hexadecimal digits of either case into lowercase ones. */
  lemma LowerHex(s: string)
    ensures IsLowerHex(s) ==> Lower(s) == s
    ensures (forall k :: 0 <= k < |s| ==> IsDigit(s[k], 16)) ==> IsLowerHex(Lower(s))
  {
  }

  /** `HexDigits` is a minimal lowercase numeral whose value is `n`. */
  lemma {:induction false} HexDigitsCorrect(n: nat)
    ensures |HexDigits(n)| > 0
    ensures IsLowerHex(HexDigits(n))
    ensures Value(HexDigits(n), 16) == n
    ensures HexDigits(n)[0] == '0' ==> n == 0
    decreases n
  {
    if n >= 16 {
      HexDigitsCorrect(n / 16);
      var init := HexDigits(n / 16);
      var s := init + [HexChar(n % 16)];
      assert s[..|s| - 1] == init;
      assert s[0] == init[0];
    }
  }

  /** A numeral of `k` or fewer digits suffices below `16^k`. */
  lemma {:induction false} HexDigitsLength(n: nat, k: nat)
    requires k >= 1 && n < Pow(16, k)
    ensures |HexDigits(n)| <= k
    decreases n
  {
    if n >= 16 {
      assert Pow(16, 1) == 16;
      assert k >= 2;
      assert Pow(16, k) == 16 * Pow(16, k - 1);
      assert n / 16 < Pow(16, k - 1);
      HexDigitsLength(n / 16, k - 1);
    }
  }

  /** `k` zero digits. */
  function Zeros(k: nat): (r: string)
    ensures |r| == k && forall i :: 0 <= i < k ==> r[i] == '0'
  {
    seq(k, _ => '0')
  }

  /** One leading zero leaves the value unchanged. */
  lemma {:induction false} ValueLeadingZero(s: string, base: nat)
    ensures Value(['0'] + s, base) == Value(s, base)
    decreases |s|
  {
    var t := ['0'] + s;
    if s != [] {
      assert t[..|t| - 1] == ['0'] + s[..|s| - 1];
      assert t[|t| - 1] == s[|s| - 1];
      ValueLeadingZero(s[..|s| - 1], base);
    } else {
      assert t[..|t| - 1] == [];
    }
  }

  /** Any number of leading zeros leaves the value unchanged. */
  lemma {:induction false} ValueZerosPrefix(k: nat, s: string, base: nat)
    ensures Value(Zeros(k) + s, base) == Value(s, base)
    decreases k
  {
    if k > 0 {
      assert Zeros(k) == ['0'] + Zeros(k - 1);
      assert Zeros(k) + s == ['0'] + (Zeros(k - 1) + s);
      ValueLeadingZero(Zeros(k - 1) + s, base);
      ValueZerosPrefix(k - 1, s, base);
    } else {
      assert Zeros(k) + s == s;
    }
  }

  /** Appending a digit below `base` to a value below `p` stays below
      `base * p`. */
  lemma DigitStep(v: nat, d: nat, base: nat, p: nat)
    requires v < p && d < base
    ensures v * base + d < base * p
  {
    assert v + 1 <= p;
    assert (v + 1) * base <= p * base;
  }

  /** A positive factor never shrinks a natural number. */
  lemma MulAtLeast(a: nat, p: nat)
    requires a >= 1
    ensures a * p >= p
  {
  }

  /** One more digit or underscore multiplies the bound by at most `base`. */
  lemma ValueLastBound(s: string, base: nat, p: nat)
    requires base >= 1 && s != [] && Value(s[..|s| - 1], base) < p
    requires IsDigit(s[|s| - 1], base) || s[|s| - 1] == '_'
    ensures Value(s, base) < base * p
  {
    var v := Value(s[..|s| - 1], base);
    if s[|s| - 1] == '_' {
      assert Value(s, base) == v;
      MulAtLeast(base, p);
    } else {
      assert Value(s, base) == v * base + DigitValue(s[|s| - 1]);
      DigitStep(v, DigitValue(s[|s| - 1]), base, p);
    }
  }

  /** `k` digits of base `b` stay below `b^k`. */
  lemma {:induction false} ValueBound(s: string, base: nat)
    requires base >= 1
    requires forall k :: 0 <= k < |s| ==> IsDigit(s[k], base) || s[k] == '_'
    ensures Value(s, base) < Pow(base, |s|)
    decreases |s|
  {
    if s != [] {
      var init := s[..|s| - 1];
      assert forall k :: 0 <= k < |init| ==> init[k] == s[k];
      ValueBound(init, base);
      ValueLastBound(s, base, Pow(base, |init|));
    }
  }

  /** Every value `int()` returns for a text of length `n` has magnitude
      below `base^n`. */
  lemma ParseIntBound(s: string, base: nat)
    requires base == 10 || base == 16
    requires ParseInt(s, base).Ok?
    ensures -(Pow(base, |s|) as int) < ParseInt(s, base).value < Pow(base, |s|)
  {
    var w := DigitPart(s, base);
    ValueBound(w, base);
    DigitPartShorter(s, base);
    PowMonotone(base, |w|, |s|);
  }

  /** `int()` skips ASCII blanks around a literal, but an information
      separator such as U+001C is not a blank and makes it raise. */
  lemma ParseIntBlanks()
    ensures ParseInt(" 5\t", 10) == Ok(5)
    ensures ParseInt([28 as char, '5'], 10).ValueError?
  {
    var s := " 5\t";
    assert LStripSpace(s) == "5\t" by {
      assert s[1..] == "5\t";
    }
    assert RStripSpace("5\t") == "5" by {
      assert "5\t"[..1] == "5";
    }
    assert Strip(s) == "5";
    assert Value("5", 10) == 5 by { assert "5"[..0] == ""; }
    var t := [28 as char, '5'];
    assert Strip(t) == t;
    assert DigitPart(t, 10) == t;
    ParseIntRejects(t, 10, 0);
  }

  /** `int()` raises once the digit part holds a character that is neither
      a digit of the base nor an underscore. */
  lemma ParseIntRejects(s: string, base: nat, k: nat)
    requires base == 10 || base == 16
    requires k < |DigitPart(s, base)|
    requires !IsDigit(DigitPart(s, base)[k], base) && DigitPart(s, base)[k] != '_'
    ensures ParseInt(s, base).ValueError?
  {
  }

  /** A text made only of digits of the base is read as their big-endian
      value: no sign, no prefix and no blank can be involved. */
  lemma ParseAllDigits(s: string, base: nat)
    requires base == 10 || base == 16
    requires |s| > 0 && forall k :: 0 <= k < |s| ==> IsDigit(s[k], base)
    ensures ParseInt(s, base) == Ok(Value(s, base))
  {
    DigitNotSpace(s[0], base);
    DigitNotSpace(s[|s| - 1], base);
    StripNoBlanks(s);
    if |s| >= 2 {
      assert DigitValue(s[1]) < base;
    }
    assert DigitPart(s, base) == s;
  }

  /** A text that neither starts nor ends with a blank is not stripped. */
  lemma StripNoBlanks(s: string)
    requires |s| > 0 && !IsSpace(s[0]) && !IsSpace(s[|s| - 1])
    ensures Strip(s) == s
  {
    assert LStripSpace(s) == s;
  }

  /** Every character of a lowercase hexadecimal numeral is a base-16 digit. */
  lemma LowerHexDigits(d: string)
    requires IsLowerHex(d)
    ensures forall k :: 0 <= k < |d| ==> IsDigit(d[k], 16)
  {
  }

  /** The sign and the `0x` prefix in front of hexadecimal digits are
      recognised as such, and only the digits are left. */
  lemma DigitPartPrefixed(d: string, neg: bool)
    requires |d| > 0 && IsDigit(d[0], 16) && IsDigit(d[|d| - 1], 16)
    ensures var h := (if neg then "-0x" else "0x") + d;
            DigitPart(h, 16) == d && IsNegative(h) == neg
  {
    var h := (if neg then "-0x" else "0x") + d;
    var u := "0x" + d;
    assert h[|h| - 1] == d[|d| - 1];
    DigitNotSpace(d[|d| - 1], 16);
    DigitNotSpace(d[0], 16);
    StripNoBlanks(h);
    assert neg ==> h[1..] == u;
    assert HasHexPrefix(u) && u[2] == d[0] && u[2..] == d;
  }

  /** `int(_, 16)` of `0x` or `-0x` followed by hexadecimal digits is the
      value of those digits, with the sign. */
  lemma ParsePrefixed(d: string, neg: bool, h: string)
    requires |d| > 0 && forall k :: 0 <= k < |d| ==> IsDigit(d[k], 16)
    requires h == (if neg then "-0x" else "0x") + d
    ensures ParseInt(h, 16) == Ok(if neg then -(Value(d, 16) as int) else Value(d, 16))
  {
    DigitPartPrefixed(d, neg);
    ParseSigned(d, neg, h);
  }

  /** The same, for any text whose digit part and sign are already known. */
  lemma ParseSigned(d: string, neg: bool, h: string)
    requires |d| > 0 && forall k :: 0 <= k < |d| ==> IsDigit(d[k], 16)
    requires DigitPart(h, 16) == d && IsNegative(h) == neg
    ensures ParseInt(h, 16) == Ok(if neg then -(Value(d, 16) as int) else Value(d, 16))
  {
    AllDigitsWellFormed(d, 16);
    ParseIntOf(h, 16, d, neg);
  }

  /** `int()` of a text whose digit part is well formed is the value of that
      digit part, with the sign. */
  lemma ParseIntOf(s: string, base: nat, w: string, neg: bool)
    requires base == 10 || base == 16
    requires DigitPart(s, base) == w && WellFormedDigits(w, base) && IsNegative(s) == neg
    ensures ParseInt(s, base) == Ok(if neg then -(Value(w, base) as int) else Value(w, base))
  {
  }

  /** Digits without underscores are a well-formed digit part. */
  lemma AllDigitsWellFormed(d: string, base: nat)
    requires base <= 36 && |d| > 0 && forall k :: 0 <= k < |d| ==> IsDigit(d[k], base)
    ensures WellFormedDigits(d, base)
  {
    assert forall k :: 0 <= k < |d| ==> d[k] != '_' by {
      forall k | 0 <= k < |d| ensures d[k] != '_' {
        DigitNotSpace(d[k], base);
      }
    }
  }

  /** `int(hex(n), 16) == n`: `hex` and `int(_, 16)` are inverse. */
  lemma HexRoundTrip(n: int)
    ensures ParseInt(Hex(n), 16) == Ok(n)
  {
    var m := if n < 0 then -n else n;
    HexDigitsCorrect(m);
    LowerHexDigits(HexDigits(m));
    ParsePrefixed(HexDigits(m), n < 0, Hex(n));
  }
}
