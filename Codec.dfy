/** The hexadecimal ABI codec of `scripts/get_token_price.py`: address
    arguments, address/uint256/string results, and the block parameter of
    `eth_call`. Every value travels as text; the layout is the one of the
    Solidity contract ABI ("Formal Specification of the Encoding"): 32-byte
    static words for `address` and `uint256`, and for a dynamic `string` an
    offset word, a length word and the UTF-8 bytes. */
module Codec {
  import opened Wrappers
  import opened PyStr
  import opened PyInt
  import opened Utf8

  /** The 12 zero bytes that left-pad a 20-byte address to a 32-byte word. */
  const ADDRESS_PAD: string := "000000000000000000000000"

  /** The symbol reported when a `string` result cannot be decoded. */
  const UNKNOWN_SYMBOL: string := "?"

  /** 40 hexadecimal digits of either case: a 20-byte address without its
      `0x` prefix. */
  predicate IsHexAddress(a: string) {
    |a| == 40 && forall k :: 0 <= k < |a| ==> IsDigit(a[k], 16)
  }

  /** `pad_address`: every `0x` is dropped, the rest is lower-cased and
      prefixed with 24 zeros. Nothing is checked. */
  function PadAddress(addr: string): string {
    ADDRESS_PAD + Lower(RemoveAll(addr, "0x"))
  }

  function Min(a: int, b: int): int {
    if a < b then a else b
  }

  /** `decode_address`: `None` for a reply shorter than 26 characters,
      otherwise `0x` and the last 40 characters (all of them when there are
      fewer). */
  function DecodeAddress(h: string): (r: Option<string>)
    ensures r.None? <==> |h| < 26
    ensures r.Some? ==> r.value == "0x" + h[|h| - Min(40, |h|)..]
  {
    if h == "" || |h| < 26 then None else Some("0x" + Slice(h, -40, |h|))
  }

  /** `decode_uint`: `""` and `"0x"` stand for zero; anything else is read
      by `int(_, 16)`, which may raise. */
  function DecodeUint(h: string): (r: Result<int>) {
    if h == "" || h == "0x" then Ok(0) else ParseInt(h, 16)
  }

  /** `bytes.fromhex(raw).decode('utf-8').rstrip('\x00')`, or the unknown
      symbol when that raises. */
  function DecodeRawText(raw: string): string {
    match DecodeHex(raw)
    case Some(t) => RStripChar(t, 0 as char)
    case None => UNKNOWN_SYMBOL
  }

  /** `decode_string`. When the first word of the payload reads 32, the
      second word gives a byte length and exactly those bytes after the
      two words are the text; any failure on that path yields `?` at once.
      Otherwise the whole payload is the text, with trailing NULs dropped. */
  function DecodeString(h: string): (r: string)
    ensures h == "" || h == "0x" ==> r == UNKNOWN_SYMBOL
  {
    if h == "" || h == "0x" then UNKNOWN_SYMBOL
    else DecodePayload(RemoveAll(h, "0x"))
  }

  /** The body of `decode_string`'s `try` block, on the reply without its
      `0x`. */
  function DecodePayload(raw: string): string {
    if |raw| >= 64 then
      match ParseInt(Slice(raw, 0, 64), 16)
      case ValueError => UNKNOWN_SYMBOL
      case Ok(first) =>
        if first == 32 then
          match ParseInt(Slice(raw, 64, 128), 16)
          case ValueError => UNKNOWN_SYMBOL
          case Ok(length) =>
            match DecodeHex(Slice(raw, 128, 128 + length * 2))
            case Some(t) => t
            case None => UNKNOWN_SYMBOL
        else DecodeRawText(raw)
    else DecodeRawText(raw)
  }

  /** `format_block`: `"latest"` and `0x…` pass through; a decimal literal
      becomes Python's `hex` of it; anything `int()` rejects passes through. */
  function FormatBlock(b: string): string {
    if b == "latest" then b
    else if StartsWith(b, "0x") then b
    else
      match ParseInt(b, 10)
      case Ok(n) => Hex(n)
      case ValueError => b
  }

  // ---------------------------------------------------------------------
  // Encoding side of the ABI, used to state the round trips.

  /** `d` with zeros in front, to `k` characters. */
  function LeftPad(d: string, k: nat): (r: string)
    requires |d| <= k
    ensures |r| == k && r[k - |d|..] == d
    ensures IsLowerHex(d) ==> IsLowerHex(r)
  {
    var r := Zeros(k - |d|) + d;
    assert IsLowerHex(d) ==> IsLowerHex(r) by {
      if IsLowerHex(d) {
        forall i | 0 <= i < |r| ensures '0' <= r[i] <= '9' || 'a' <= r[i] <= 'f' {
          if i >= k - |d| {
            assert r[i] == d[i - (k - |d|)];
          }
        }
      }
    }
    r
  }

  /** A 32-byte ABI word holding `n`: 64 lowercase hexadecimal digits. */
  function Word(n: nat): (w: string)
    requires n < Pow(16, 64)
    ensures |w| == 64 && IsLowerHex(w)
  {
    HexDigitsCorrect(n);
    HexDigitsLength(n, 64);
    LeftPad(HexDigits(n), 64)
  }

  /** Leading zeros do not change the value. */
  lemma ValueLeftPad(d: string, k: nat, base: nat)
    requires |d| <= k
    ensures Value(LeftPad(d, k), base) == Value(d, base)
  {
    ValueZerosPrefix(k - |d|, d, base);
  }

  /** A word holds its number. */
  lemma WordValue(n: nat)
    requires n < Pow(16, 64)
    ensures Value(Word(n), 16) == n
  {
    HexDigitsCorrect(n);
    HexDigitsLength(n, 64);
    ValueLeftPad(HexDigits(n), 64, 16);
  }

  /** The ABI encoding of a `string` return value: offset word 32, length
      word, UTF-8 bytes, zero padding to a whole number of words. */
  function AbiString(s: string): (h: string)
    requires |Encode(s)| < Pow(16, 64)
  {
    AbiBytes(Encode(s))
  }

  /** The ABI encoding of a `bytes` return value. */
  function AbiBytes(bs: seq<byte>): (h: string)
    requires |bs| < Pow(16, 64)
  {
    AbiFrame(|bs|, HexOfBytes(bs), PadDigits(|HexOfBytes(bs)|))
  }

  /** The zero digits that complete `m` digits to a whole number of words. */
  function PadDigits(m: nat): (k: nat)
    ensures k < 64 && (m + k) % 64 == 0
  {
    (64 - m % 64) % 64
  }

  /** The words of a dynamic return value: offset 32, the length `n`, the
      payload digits and `pad` zero digits. */
  function AbiFrame(n: nat, body: string, pad: nat): string
    requires n < Pow(16, 64)
  {
    SmallFitsWord(32);
    Word(32) + Word(n) + body + Zeros(pad)
  }

  // ---------------------------------------------------------------------
  // Address words.

  /** A lowercase hexadecimal text holds no `x`, so `replace("0x", "")`
      leaves it as it is. */
  lemma NoPrefixInHex(s: string)
    requires forall k :: 0 <= k < |s| ==> IsDigit(s[k], 16)
    ensures RemoveAll(s, "0x") == s
  {
    assert forall k :: 0 <= k < |s| ==> s[k] != 'x' by {
      forall k | 0 <= k < |s| ensures s[k] != 'x' {
        assert DigitValue(s[k]) < 16;
      }
    }
    RemoveAllAbsent(s, "0x");
  }

  /** Text whose second character is not `x` keeps its first character
      under `replace("0x", "")`. */
  lemma RemoveAllSkip(t: string)
    requires |t| >= 2 && t[1] != 'x'
    ensures RemoveAll(t, "0x") == [t[0]] + RemoveAll(t[1..], "0x")
  {
    assert t[..2] != "0x" by { assert t[..2][1] == t[1]; }
  }

  /** A character other than `x` in front of a string that does not start
      with `x` survives the removal of `0x`. */
  lemma RemoveAllConsHex(c: char, u: string)
    requires c != 'x'
    requires u == [] || u[0] != 'x'
    ensures RemoveAll([c] + u, "0x") == [c] + RemoveAll(u, "0x")
  {
    var t := [c] + u;
    if u == [] {
      assert t == [c];
    } else {
      assert t[1] == u[0] && t[1..] == u;
      RemoveAllSkip(t);
    }
  }

  /** Lowercase hexadecimal digits in front of text that does not start with `x`
      are kept by `replace("0x", "")`. */
  lemma {:induction false} RemoveAllKeepsHex(x: string, s: string)
    requires IsLowerHex(x)
    requires s == [] || s[0] != 'x'
    ensures RemoveAll(x + s, "0x") == x + RemoveAll(s, "0x")
    decreases |x|
  {
    if x == [] {
      assert x + s == s && x + RemoveAll(s, "0x") == RemoveAll(s, "0x");
    } else {
      var u := x[1..] + s;
      HexTail(x, s);
      RemoveAllConsHex(x[0], u);
      RemoveAllKeepsHex(x[1..], s);
      ConsTail(x, RemoveAll(s, "0x"));
    }
  }

  /** Splitting off the first digit of lowercase hexadecimal `x`. */
  lemma HexTail(x: string, s: string)
    requires IsLowerHex(x) && x != []
    requires s == [] || s[0] != 'x'
    ensures x + s == [x[0]] + (x[1..] + s)
    ensures x[0] != 'x' && IsLowerHex(x[1..])
    ensures x[1..] + s == [] || (x[1..] + s)[0] != 'x'
  {
    var u := x[1..] + s;
    if |x| >= 2 { assert u[0] == x[1]; }
    forall k | 0 <= k < |x[1..]| ensures '0' <= x[1..][k] <= '9' || 'a' <= x[1..][k] <= 'f' {
      assert x[1..][k] == x[k + 1];
    }
  }

  lemma ConsTail(x: string, r: string)
    requires x != []
    ensures [x[0]] + (x[1..] + r) == x + r
  {
  }

  /** The word `pad_address` makes of a 40-digit address, with or without
      `0x`, is 64 lowercase hexadecimal digits. */
  lemma PadAddressLowerHex(a: string, x: string)
    requires IsHexAddress(a) && (x == a || x == "0x" + a)
    ensures |PadAddress(x)| == 64 && IsLowerHex(PadAddress(x))
  {
    PadAddressRoundTrip(a, x);
    LowerHex(a);
    LowerHexAppend(Zeros(24), Lower(a));
  }

  /** `pad_address` drops every `0x`, not only a leading one: `0x` + `x` +
      `0x` + `y`, for lowercase hexadecimal `x` and `y`, pads `x + y`. */
  lemma PadAddressEveryPrefix(x: string, y: string)
    requires IsLowerHex(x) && IsLowerHex(y)
    ensures PadAddress("0x" + x + "0x" + y) == ADDRESS_PAD + x + y
  {
    LowerHexDigits(x);
    LowerHexDigits(y);
    var a := "0x" + x + "0x" + y;
    assert a[..2] == "0x" && a[2..] == x + ("0x" + y);
    RemoveAllKeepsHex(x, "0x" + y);
    var b := "0x" + y;
    assert b[..2] == "0x" && b[2..] == y;
    NoPrefixInHex(y);
    assert RemoveAll(a, "0x") == x + y;
    LowerHexAppend(x, y);
    assert Lower(x + y) == x + y;
    assert ADDRESS_PAD + (x + y) == ADDRESS_PAD + x + y;
  }

  /** For a 40-digit address, with or without `0x`, `pad_address` is the
      32-byte word of the lower-cased address, and `decode_address` reads
      that very address back. */
  lemma PadAddressRoundTrip(a: string, x: string)
    requires IsHexAddress(a) && (x == a || x == "0x" + a)
    ensures |PadAddress(x)| == 64
    ensures PadAddress(x) == Zeros(24) + Lower(a)
    ensures DecodeAddress(PadAddress(x)) == Some("0x" + Lower(a))
  {
    NoPrefixInHex(a);
    if x != a {
      assert x[..2] == "0x" && x[2..] == a;
    }
    assert RemoveAll(x, "0x") == a;
    assert ADDRESS_PAD == Zeros(24);
    var p := PadAddress(x);
    assert p[|p| - 40..] == Lower(a);
  }

  /** A full 32-byte word reply yields its low-order 20 bytes. */
  lemma DecodeAddressWord(w: string)
    requires |w| == 64
    ensures DecodeAddress("0x" + w) == Some("0x" + w[24..])
  {
    var h := "0x" + w;
    assert h[|h| - 40..] == w[24..];
  }

  // ---------------------------------------------------------------------
  // Unsigned integers.

  lemma DecodeUintBare(d: string)
    requires |d| > 0 && forall k :: 0 <= k < |d| ==> IsDigit(d[k], 16)
    ensures DecodeUint(d) == Ok(Value(d, 16))
  {
    ParseAllDigits(d, 16);
    assert d != "0x" by { assert DigitValue(d[|d| - 1]) < 16; }
  }

  lemma DecodeUintPrefixed(d: string)
    requires |d| > 0 && forall k :: 0 <= k < |d| ==> IsDigit(d[k], 16)
    ensures DecodeUint("0x" + d) == Ok(Value(d, 16))
  {
    ParsePrefixed(d, false, "0x" + d);
    assert "0x" + d != "0x";
  }

  /** Both conventions for "no data" decode to zero, and a run of hex
      digits, bare or behind `0x`, decodes to its big-endian value. */
  lemma DecodeUintDigits(d: string)
    requires |d| > 0 && forall k :: 0 <= k < |d| ==> IsDigit(d[k], 16)
    ensures DecodeUint("") == Ok(0) && DecodeUint("0x") == Ok(0)
    ensures DecodeUint(d) == Ok(Value(d, 16))
    ensures DecodeUint("0x" + d) == Ok(Value(d, 16))
  {
    DecodeUintBare(d);
    DecodeUintPrefixed(d);
  }

  /** Leading zero digits, with or without `0x` in front, do not change
      the decoded value. */
  lemma DecodeUintLeadingZeros(k: nat, d: string)
    requires |d| > 0 && forall i :: 0 <= i < |d| ==> IsDigit(d[i], 16)
    ensures DecodeUint(Zeros(k) + d) == DecodeUint(d)
    ensures DecodeUint("0x" + Zeros(k) + d) == DecodeUint("0x" + d)
  {
    var z := Zeros(k) + d;
    assert forall i :: 0 <= i < |z| ==> IsDigit(z[i], 16) by {
      forall i | 0 <= i < |z| ensures IsDigit(z[i], 16) {
        if i >= k { assert z[i] == d[i - k]; }
      }
    }
    DecodeUintDigits(d);
    DecodeUintDigits(z);
    assert "0x" + Zeros(k) + d == "0x" + z;
    ValueZerosPrefix(k, d, 16);
  }

  /** `decode_uint` reads back the ABI word of any 256-bit value. */
  lemma DecodeUintWord(n: nat)
    requires n < Pow(16, 64)
    ensures DecodeUint("0x" + Word(n)) == Ok(n)
  {
    LowerHexDigits(Word(n));
    DecodeUintDigits(Word(n));
    WordValue(n);
  }

  /** Whatever `decode_uint` returns for a reply of `n` characters has
      magnitude below `16^n`; in particular a 64-digit word stays below
      `2^256`. */
  lemma DecodeUintBound(h: string)
    requires DecodeUint(h).Ok?
    ensures -(Pow(16, |h|) as int) < DecodeUint(h).value < Pow(16, |h|)
  {
    if h != "" && h != "0x" {
      ParseIntBound(h, 16);
    }
  }

  // ---------------------------------------------------------------------
  // Strings.

  lemma Regroup(va: int, p: int, vb: int, base: int, d: int)
    ensures (va * p + vb) * base + d == va * (base * p) + (vb * base + d)
  {
  }

  /** The value of a digit string split in two: the front part counts
      `base^|b|` times. */
  lemma {:induction false} ValueAppend(a: string, b: string, base: nat)
    requires '_' !in b
    ensures Value(a + b, base) == Value(a, base) * Pow(base, |b|) + Value(b, base)
    decreases |b|
  {
    if b == [] {
      assert a + b == a;
    } else {
      var ab := a + b;
      var b' := b[..|b| - 1];
      assert ab[..|ab| - 1] == a + b';
      assert ab[|ab| - 1] == b[|b| - 1];
      assert '_' !in b' by { assert forall k :: 0 <= k < |b'| ==> b'[k] == b[k]; }
      ValueAppend(a, b', base);
      var va, vb := Value(a, base), Value(b', base);
      var p := Pow(base, |b'|);
      assert Pow(base, |b|) == base * p;
      var d := DigitValue(b[|b| - 1]);
      assert Value(ab, base) == Value(a + b', base) * base + d;
      Regroup(va, p, vb, base, d);
    }
  }

  /** The two digits of a byte read back as that byte. */
  lemma ValueOfByteDigits(b: byte)
    ensures Value([HexChar(b as nat / 16), HexChar(b as nat % 16)], 16) == b as nat
  {
    var c0, c1 := HexChar(b as nat / 16), HexChar(b as nat % 16);
    var f := [c0, c1];
    assert f[..1] == [c0] && [c0][..0] == [];
    assert Value([c0], 16) == b as nat / 16;
  }

  lemma NoUnderscoreInHex(s: string)
    requires IsLowerHex(s)
    ensures '_' !in s
  {
    assert forall k :: 0 <= k < |s| ==> s[k] != '_';
  }

  /** The first word of a payload whose first byte is not zero is far above
      32, so such a payload never takes the offset-32 path. */
  lemma WordWithNonzeroByteIsLarge(bs: seq<byte>)
    requires |bs| == 32 && bs[0] != 0
    ensures Value(HexOfBytes(bs), 16) > 32
  {
    var h := HexOfBytes(bs);
    var front := [HexChar(bs[0] as nat / 16), HexChar(bs[0] as nat % 16)];
    var back := HexOfBytes(bs[1..]);
    assert h == front + back;
    NoUnderscoreInHex(back);
    ValueAppend(front, back, 16);
    ValueOfByteDigits(bs[0]);
    var p := Pow(16, |back|);
    PowMonotone(16, 2, |back|);
    assert Pow(16, 2) == 256 by { assert Pow(16, 1) == 16; }
    MulAtLeast(bs[0] as nat, p);
  }

  /** A reply `0x` + hexadecimal digits loses exactly its prefix to
      `replace("0x", "")`. */
  lemma RemovePrefix(enc: string)
    requires |enc| > 0 && forall k :: 0 <= k < |enc| ==> IsDigit(enc[k], 16)
    ensures RemoveAll("0x" + enc, "0x") == enc
    ensures "0x" + enc != "" && "0x" + enc != "0x"
  {
    NoPrefixInHex(enc);
    var h := "0x" + enc;
    assert h[..2] == "0x" && h[2..] == enc;
  }

  /** The offset-32 path of `decode_string`. */
  lemma DecodeStringOffsetPath(h: string, raw: string, length: int)
    requires h != "" && h != "0x" && RemoveAll(h, "0x") == raw && |raw| >= 64
    requires ParseInt(Slice(raw, 0, 64), 16) == Ok(32)
    requires ParseInt(Slice(raw, 64, 128), 16) == Ok(length)
    ensures DecodeString(h) ==
            match DecodeHex(Slice(raw, 128, 128 + length * 2))
            case Some(t) => t
            case None => UNKNOWN_SYMBOL
  {
  }

  /** A slice that spells `x + y` starts with a slice that spells `x`. */
  lemma SlicePrefix(s: string, a: nat, x: string, y: string)
    requires a + |x + y| <= |s| && s[a..a + |x + y|] == x + y
    ensures s[a..a + |x|] == x
  {
    forall k | 0 <= k < |x| ensures s[a + k] == x[k] {
      assert s[a..a + |x + y|][k] == (x + y)[k];
    }
  }

  /** A frame whose length word reads `n` decodes the first `n` bytes of
      its payload, and nothing after them. */
  lemma OffsetPathFrame(n: nat, text: string, more: string)
    requires n < Pow(16, 64) && IsLowerHex(text + more) && |text| == 2 * n
    ensures DecodeString("0x" + AbiFrame(n, text + more, 0)) ==
            match DecodeHex(text)
            case Some(t) => t
            case None => UNKNOWN_SYMBOL
  {
    var body := text + more;
    var enc := AbiFrame(n, body, 0);
    AbiFrameLayout(n, body, 0);
    AbiFrameHead(n, body, 0);
    LowerHexDigits(enc);
    RemovePrefix(enc);
    DecodeStringOffsetPath("0x" + enc, enc, n);
    assert Slice(enc, 128, 128 + n * 2) == text by {
      SlicePrefix(enc, 128, text, more);
    }
  }

  /** On the offset-32 path only the bytes the length word counts are
      decoded; whatever hexadecimal text follows them is ignored. */
  lemma DecodeStringTrustsLength(bs: seq<byte>, more: string)
    requires |bs| < Pow(16, 64) && IsLowerHex(more)
    ensures DecodeString("0x" + AbiFrame(|bs|, HexOfBytes(bs) + more, 0)) ==
            match Decode(bs)
            case Some(t) => t
            case None => UNKNOWN_SYMBOL
  {
    LowerHexAppend(HexOfBytes(bs), more);
    OffsetPathFrame(|bs|, HexOfBytes(bs), more);
    FromHexOfBytes(bs);
  }

  /** `c3a9` is the UTF-8 encoding of `é`, and its first byte alone is
      not UTF-8. */
  lemma EAcuteHex()
    ensures HexOfBytes([0xC3]) + "a9" == "c3a9" && IsLowerHex("a9")
    ensures Decode([0xC3]) == None
    ensures DecodeHex("c3a9") == Some([0xE9 as char])
  {
    var e: seq<byte> := [0xC3, 0xA9];
    assert FromHex("c3a9") == Some(e) by {
      assert HexOfBytes(e[1..]) == "a9" by { assert e[1..][1..] == []; }
      assert HexOfBytes(e) == "c3a9";
      FromHexOfBytes(e);
    }
    assert Decode(e) == Some([0xE9 as char]) by {
      assert DecodeOne(e) == Some((0xE9 as char, 2));
      assert e[2..] == [];
      assert [0xE9 as char] + [] == [0xE9 as char];
    }
    var c: seq<byte> := [0xC3];
    assert HexOfBytes(c) == "c3" by { assert c[1..] == []; }
    assert DecodeOne(c) == None;
  }

  /** The offset-32 path trusts the length word even when it cuts a
      character in half: a payload that is valid UTF-8 as a whole (`é`,
      after a length of one byte) still gives `?`. */
  lemma DecodeStringSplitCharacter()
    ensures DecodeHex("c3a9") == Some([0xE9 as char])
    ensures DecodeString("0x" + Word(32) + Word(1) + "c3a9") == UNKNOWN_SYMBOL
  {
    EAcuteHex();
    SmallFitsWord(1);
    DecodeStringTrustsLength([0xC3], "a9");
    UnpaddedFrame(1, "c3a9");
  }

  /** A frame without padding, as raw text. */
  lemma UnpaddedFrame(n: nat, body: string)
    requires n < Pow(16, 64)
    ensures "0x" + AbiFrame(n, body, 0) == "0x" + Word(32) + Word(n) + body
  {
    SmallFitsWord(32);
    Regroup4("0x", Word(32), Word(n), body);
  }

  lemma Regroup4(p: string, a: string, b: string, c: string)
    ensures p + (a + b + c + Zeros(0)) == p + a + b + c
  {
    assert Zeros(0) == [];
    assert a + b + c + [] == a + b + c;
  }

  /** The fallback path of `decode_string`. */
  lemma DecodeStringRawPath(h: string, raw: string)
    requires h != "" && h != "0x" && RemoveAll(h, "0x") == raw
    requires |raw| < 64 || (ParseInt(Slice(raw, 0, 64), 16).Ok? && ParseInt(Slice(raw, 0, 64), 16).value != 32)
    ensures DecodeString(h) == DecodeRawText(raw)
  {
  }

  /** Numbers up to 256 fit in a word. */
  lemma SmallFitsWord(n: nat)
    requires n <= 256
    ensures n < Pow(16, 64)
  {
    assert Pow(16, 2) == 256 by { assert Pow(16, 1) == 16; }
    PowMonotone(16, 3, 64);
    assert Pow(16, 3) == 16 * 256;
  }

  /** `int(_, 16)` reads a word back as its number. */
  lemma WordParses(n: nat)
    requires n < Pow(16, 64)
    ensures ParseInt(Word(n), 16) == Ok(n)
  {
    LowerHexDigits(Word(n));
    ParseAllDigits(Word(n), 16);
    WordValue(n);
  }

  lemma LowerHexAppend(a: string, b: string)
    requires IsLowerHex(a) && IsLowerHex(b)
    ensures IsLowerHex(a + b)
  {
    forall k | 0 <= k < |a + b| ensures '0' <= (a + b)[k] <= '9' || 'a' <= (a + b)[k] <= 'f' {
      if k >= |a| { assert (a + b)[k] == b[k - |a|]; }
    }
  }

  /** The tail of a frame: the payload right after the two head words,
      and nothing but lowercase hexadecimal digits throughout. */
  lemma AbiFrameLayout(n: nat, body: string, pad: nat)
    requires n < Pow(16, 64) && IsLowerHex(body)
    ensures |AbiFrame(n, body, pad)| >= 128 + |body|
    ensures IsLowerHex(AbiFrame(n, body, pad))
    ensures Slice(AbiFrame(n, body, pad), 128, 128 + |body|) == body
  {
    SmallFitsWord(32);
    var enc := AbiFrame(n, body, pad);
    var head := Word(32) + Word(n);
    var tail := body + Zeros(pad);
    assert enc == head + tail && |head| == 128;
    assert IsLowerHex(head) by { LowerHexAppend(Word(32), Word(n)); }
    assert IsLowerHex(tail) by { LowerHexAppend(body, Zeros(pad)); }
    LowerHexAppend(head, tail);
    assert enc[128..128 + |body|] == body by {
      assert enc[128..] == tail;
    }
  }

  /** The two head words of a frame: offset 32 and the length `n`. */
  lemma AbiFrameHead(n: nat, body: string, pad: nat)
    requires n < Pow(16, 64)
    ensures ParseInt(Slice(AbiFrame(n, body, pad), 0, 64), 16) == Ok(32)
    ensures ParseInt(Slice(AbiFrame(n, body, pad), 64, 128), 16) == Ok(n)
  {
    SmallFitsWord(32);
    assert AbiFrame(n, body, pad) == Word(32) + Word(n) + (body + Zeros(pad));
    TwoWordsRead(32, n, body + Zeros(pad));
  }

  /** Text that starts with the words of `a` and `b` reads back `a` from
      its first 64 digits and `b` from the next 64. */
  lemma TwoWordsRead(a: nat, b: nat, rest: string)
    requires a < Pow(16, 64) && b < Pow(16, 64)
    ensures var raw := Word(a) + Word(b) + rest;
            && |raw| >= 128
            && ParseInt(Slice(raw, 0, 64), 16) == Ok(a)
            && ParseInt(Slice(raw, 64, 128), 16) == Ok(b)
  {
    var raw := Word(a) + Word(b) + rest;
    assert raw[0..64] == Word(a) && raw[64..128] == Word(b);
    WordParses(a);
    WordParses(b);
  }

  /** The ABI encoding of a string, as returned by `symbol()`, decodes to
      that very string. */
  lemma DecodeStringAbi(s: string)
    requires |Encode(s)| < Pow(16, 64)
    ensures DecodeString("0x" + AbiString(s)) == s
  {
    DecodeStringAbiBytes(Encode(s));
    DecodeEncode(s);
  }

  /** An ABI-encoded `bytes` value decodes as the UTF-8 text of those bytes,
      or `?` when they are not UTF-8. */
  lemma DecodeStringAbiBytes(bs: seq<byte>)
    requires |bs| < Pow(16, 64)
    ensures DecodeString("0x" + AbiBytes(bs)) ==
            match Decode(bs)
            case Some(t) => t
            case None => UNKNOWN_SYMBOL
  {
    DecodeStringFrame(bs, PadDigits(|HexOfBytes(bs)|));
  }

  /** The same for any amount of padding. */
  lemma DecodeStringFrame(bs: seq<byte>, pad: nat)
    requires |bs| < Pow(16, 64)
    ensures DecodeString("0x" + AbiFrame(|bs|, HexOfBytes(bs), pad)) ==
            match Decode(bs)
            case Some(t) => t
            case None => UNKNOWN_SYMBOL
  {
    var body := HexOfBytes(bs);
    var enc := AbiFrame(|bs|, body, pad);
    AbiFrameLayout(|bs|, body, pad);
    AbiFrameHead(|bs|, body, pad);
    LowerHexDigits(enc);
    RemovePrefix(enc);
    DecodeStringOffsetPath("0x" + enc, enc, |bs|);
    FromHexOfBytes(bs);
  }

  /** `k` zero bytes decode to `k` NUL characters. */
  lemma {:induction false} DecodeZeroBytes(k: nat)
    ensures Decode(seq(k, _ => 0 as byte)) == Some(seq(k, _ => 0 as char))
  {
    if k > 0 {
      var z := seq(k, _ => 0 as byte);
      assert z[0] == 0;
      assert DecodeOne(z) == Some((0 as char, 1));
      assert z[1..] == seq(k - 1, _ => 0 as byte);
      DecodeZeroBytes(k - 1);
      assert [0 as char] + seq(k - 1, _ => 0 as char) == seq(k, _ => 0 as char);
    } else {
      assert seq(k, _ => 0 as byte) == [];
      assert seq(k, _ => 0 as char) == [];
    }
  }

  /** Trailing NULs after a text that does not end in NUL are exactly what
      `rstrip('\x00')` removes. */
  lemma RStripNuls(s: string, k: nat)
    requires s == [] || s[|s| - 1] != 0 as char
    ensures RStripChar(s + seq(k, _ => 0 as char), 0 as char) == s
    decreases k
  {
    var t := s + seq(k, _ => 0 as char);
    if k > 0 {
      assert t[..|t| - 1] == s + seq(k - 1, _ => 0 as char);
      RStripNuls(s, k - 1);
    } else {
      assert t == s;
    }
  }

  /** A symbol returned as a fixed 32-byte value (`bytes32`, padded with
      NULs) rather than as an ABI string takes the fallback path, and its
      text comes out with the padding stripped. */
  lemma DecodeStringBytes32(s: string, k: nat)
    requires s != [] && s[0] != 0 as char && s[|s| - 1] != 0 as char
    requires |Encode(s)| + k == 32
    ensures DecodeString("0x" + HexOfBytes(Encode(s) + seq(k, _ => 0 as byte))) == s
  {
    var bs := Encode(s) + seq(k, _ => 0 as byte);
    var raw := HexOfBytes(bs);
    assert Encode(s) == EncodeChar(s[0]) + Encode(s[1..]);
    assert bs[0] != 0;
    LowerHexDigits(raw);
    RemovePrefix(raw);
    assert Slice(raw, 0, 64) == raw;
    ParseAllDigits(raw, 16);
    WordWithNonzeroByteIsLarge(bs);
    DecodeStringRawPath("0x" + raw, raw);
    FromHexOfBytes(bs);
    DecodeEncodeAppend(s, seq(k, _ => 0 as byte));
    DecodeZeroBytes(k);
    RStripNuls(s, k);
  }

  // ---------------------------------------------------------------------
  // Block parameter.

  /** `"latest"`, `0x…` and whatever `int()` rejects pass through
      unchanged; any other block, signed, blank-padded or with underscores
      included, is rewritten so that the node reads back the number
      `int(b)` saw. */
  lemma FormatBlockPassThrough(b: string)
    ensures b == "latest" || StartsWith(b, "0x") || ParseInt(b, 10).ValueError? ==> FormatBlock(b) == b
    ensures FormatBlock(b) == b || ParseInt(FormatBlock(b), 16) == ParseInt(b, 10)
  {
    if FormatBlock(b) != b {
      HexRoundTrip(ParseInt(b, 10).value);
    }
  }

  /** A decimal literal is neither `"latest"` nor `0x…`, so it is
      converted. */
  lemma FormatBlockDecimalIsHex(d: string)
    requires |d| > 0 && forall k :: 0 <= k < |d| ==> IsDigit(d[k], 10)
    ensures FormatBlock(d) == Hex(Value(d, 10))
  {
    assert d != "latest" by { assert DigitValue(d[0]) < 10; }
    assert !StartsWith(d, "0x") by {
      if |d| >= 2 { assert DigitValue(d[1]) < 10; }
    }
    assert ParseInt(d, 10) == Ok(Value(d, 10)) by { ParseAllDigits(d, 10); }
    FormatBlockConverts(d, Value(d, 10));
  }

  /** A block that is neither `"latest"` nor `0x…` and that `int()` reads as
      `n` becomes `hex(n)`. */
  lemma FormatBlockConverts(b: string, n: int)
    requires b != "latest" && !StartsWith(b, "0x") && ParseInt(b, 10) == Ok(n)
    ensures FormatBlock(b) == Hex(n)
  {
  }

  /** A block such as U+001C followed by `5`, which `int()` rejects, is
      sent unchanged. */
  lemma FormatBlockSeparator()
    ensures FormatBlock([28 as char, '5']) == [28 as char, '5']
  {
    ParseIntBlanks();
  }

  /** A decimal block number becomes `0x` followed by the minimal lowercase
      hexadecimal numeral of the same number (`"0"` gives `"0x0"`), which
      the node reads back as that number. */
  lemma FormatBlockDecimal(d: string)
    requires |d| > 0 && forall k :: 0 <= k < |d| ==> IsDigit(d[k], 10)
    ensures FormatBlock(d) == "0x" + HexDigits(Value(d, 10))
    ensures IsLowerHex(FormatBlock(d)[2..])
    ensures FormatBlock(d)[2] == '0' ==> FormatBlock(d) == "0x0"
    ensures ParseInt(FormatBlock(d), 16) == Ok(Value(d, 10))
  {
    FormatBlockDecimalIsHex(d);
    HexOfNatural(Value(d, 10));
    HexRoundTrip(Value(d, 10));
  }

  /** `hex(n)` of a natural number: `0x` and the minimal numeral. */
  lemma HexOfNatural(n: nat)
    ensures Hex(n) == "0x" + HexDigits(n)
    ensures IsLowerHex(Hex(n)[2..])
    ensures Hex(n)[2] == '0' ==> Hex(n) == "0x0"
  {
    var r := Hex(n);
    assert r[2..] == HexDigits(n);
    HexDigitsCorrect(n);
    if r[2] == '0' {
      assert n == 0;
      assert HexDigits(n) == "0";
    }
  }

  /** `int()` in base 10 rejects the output of `hex` for a negative number. */
  lemma NegativeHexNotDecimal(n: int)
    requires n < 0
    ensures ParseInt(Hex(n), 10).ValueError?
  {
    var h := Hex(n);
    var d := HexDigits(-n);
    assert Strip(h) == h by {
      HexDigitsCorrect(-n);
      LowerHexDigits(d);
      assert h[|h| - 1] == d[|d| - 1];
      DigitNotSpace(d[|d| - 1], 16);
      StripNoBlanks(h);
    }
    assert DigitPart(h, 10) == h[1..];
    assert DigitPart(h, 10)[1] == 'x';
    ParseIntRejects(h, 10, 1);
  }

  /** Formatting a block reference twice changes nothing more than
      formatting it once. */
  lemma FormatBlockIdempotent(b: string)
    ensures FormatBlock(FormatBlock(b)) == FormatBlock(b)
  {
    if b != "latest" && !StartsWith(b, "0x") {
      match ParseInt(b, 10)
      case ValueError =>
      case Ok(n) =>
        var h := Hex(n);
        if n < 0 {
          NegativeHexNotDecimal(n);
          assert h[..2] == "-0";
        } else {
          assert h[..2] == "0x";
        }
    }
  }
}
