/** Python's `bytes.fromhex` and the strict `utf-8` codec, the two steps
    by which the price script turns hexadecimal text into a token symbol. */
module Utf8 {
  import opened Wrappers
  import opened PyStr
  import opened PyInt

  newtype byte = x: int | 0 <= x < 256

  /** `bytes.fromhex(s)`: pairs of hexadecimal digits of either case, with
      ASCII blanks allowed between (not inside) pairs; anything else,
      including an odd digit at the end, raises. */
  function FromHex(s: string): (r: Option<seq<byte>>)
    ensures r.Some? ==> |r.value| <= |s| / 2
    decreases |s|
  {
    if s == [] then Some([])
    else if IsAsciiSpace(s[0]) then FromHex(s[1..])
    else if |s| >= 2 && IsDigit(s[0], 16) && IsDigit(s[1], 16) then
      match FromHex(s[2..])
      case None => None
      case Some(rest) => Some([(DigitValue(s[0]) * 16 + DigitValue(s[1])) as byte] + rest)
    else None
  }

  /** Two lowercase hexadecimal digits per byte: the text form of raw bytes
      in an ABI payload. */
  function HexOfBytes(bs: seq<byte>): (r: string)
    ensures |r| == 2 * |bs|
    ensures IsLowerHex(r)
  {
    if bs == [] then []
    else [HexChar(bs[0] as nat / 16), HexChar(bs[0] as nat % 16)] + HexOfBytes(bs[1..])
  }

  /** `bytes.fromhex` reads back what `HexOfBytes` wrote. */
  lemma {:induction false} FromHexOfBytes(bs: seq<byte>)
    ensures FromHex(HexOfBytes(bs)) == Some(bs)
  {
    if bs != [] {
      var s := HexOfBytes(bs);
      var hi, lo := HexChar(bs[0] as nat / 16), HexChar(bs[0] as nat % 16);
      assert s[0] == hi && s[1] == lo && s[2..] == HexOfBytes(bs[1..]);
      FromHexOfBytes(bs[1..]);
      assert [bs[0]] + bs[1..] == bs;
    }
  }

  predicate InRange(b: byte, lo: int, hi: int) {
    lo <= b as int <= hi
  }

  /** The scalar value at the front of `bs` and the number of bytes it
      takes, following the well-formed byte sequences of the Unicode
      Standard (table 3-7): no overlong forms, no surrogates, nothing above
      U+10FFFF. */
  function DecodeOne(bs: seq<byte>): (r: Option<(char, nat)>)
    requires |bs| > 0
    ensures r.Some? ==> 1 <= r.value.1 <= |bs| && r.value.1 <= 4
  {
    var b0 := bs[0] as int;
    if b0 < 0x80 then Some((b0 as char, 1))
    else if 0xC2 <= b0 <= 0xDF then
      if |bs| >= 2 && InRange(bs[1], 0x80, 0xBF) then
        Some((((b0 - 0xC0) * 64 + (bs[1] as int - 0x80)) as char, 2))
      else None
    else if 0xE0 <= b0 <= 0xEF then
      var lo := if b0 == 0xE0 then 0xA0 else 0x80;
      var hi := if b0 == 0xED then 0x9F else 0xBF;
      if |bs| >= 3 && InRange(bs[1], lo, hi) && InRange(bs[2], 0x80, 0xBF) then
        Some((((b0 - 0xE0) * 4096 + (bs[1] as int - 0x80) * 64 + (bs[2] as int - 0x80)) as char, 3))
      else None
    else if 0xF0 <= b0 <= 0xF4 then
      var lo := if b0 == 0xF0 then 0x90 else 0x80;
      var hi := if b0 == 0xF4 then 0x8F else 0xBF;
      if |bs| >= 4 && InRange(bs[1], lo, hi) && InRange(bs[2], 0x80, 0xBF) && InRange(bs[3], 0x80, 0xBF) then
        Some((((b0 - 0xF0) * 262144 + (bs[1] as int - 0x80) * 4096
               + (bs[2] as int - 0x80) * 64 + (bs[3] as int - 0x80)) as char, 4))
      else None
    else None
  }

  /** `bs.decode('utf-8')` in strict mode: `None` where Python raises. */
  function Decode(bs: seq<byte>): Option<string>
    decreases |bs|
  {
    if bs == [] then Some([])
    else
      match DecodeOne(bs)
      case None => None
      case Some((c, n)) =>
        match Decode(bs[n..])
        case None => None
        case Some(rest) => Some([c] + rest)
  }

  /** `bytes.fromhex(h).decode('utf-8')`, `None` where either step raises. */
  function DecodeHex(h: string): Option<string> {
    match FromHex(h)
    case None => None
    case Some(bs) => Decode(bs)
  }

  /** UTF-8 encoding of one scalar value (`str.encode('utf-8')`). */
  function EncodeChar(c: char): (r: seq<byte>)
    ensures 1 <= |r| <= 4
  {
    var n := c as int;
    if n < 0x80 then [n as byte]
    else if n < 0x800 then [(0xC0 + n / 64) as byte, (0x80 + n % 64) as byte]
    else if n < 0x10000 then
      [(0xE0 + n / 4096) as byte, (0x80 + (n / 64) % 64) as byte, (0x80 + n % 64) as byte]
    else
      [(0xF0 + n / 262144) as byte, (0x80 + (n / 4096) % 64) as byte,
       (0x80 + (n / 64) % 64) as byte, (0x80 + n % 64) as byte]
  }

  /** UTF-8 encoding of a string. */
  function Encode(s: string): seq<byte> {
    if s == [] then [] else EncodeChar(s[0]) + Encode(s[1..])
  }

  lemma DecodeOneTwo(c: char, rest: seq<byte>)
    requires 0x80 <= c as int < 0x800
    ensures DecodeOne(EncodeChar(c) + rest) == Some((c, 2))
  {
    var n := c as int;
    var bs := EncodeChar(c) + rest;
    assert bs[0] as int == 0xC0 + n / 64 && bs[1] as int == 0x80 + n % 64;
    assert (n / 64) * 64 + n % 64 == n;
  }

  lemma DecodeOneThree(c: char, rest: seq<byte>)
    requires 0x800 <= c as int < 0x10000
    ensures DecodeOne(EncodeChar(c) + rest) == Some((c, 3))
  {
    var n := c as int;
    var bs := EncodeChar(c) + rest;
    var q, m := n / 64, n % 64;
    assert n == q * 64 + m;
    assert q == (n / 4096) * 64 + q % 64;
    assert bs[0] as int == 0xE0 + n / 4096;
    assert bs[1] as int == 0x80 + q % 64 && bs[2] as int == 0x80 + m;
    assert (n / 4096) * 4096 + (q % 64) * 64 + m == n;
  }

  /** The four 6-bit (and 3-bit) groups of a supplementary scalar value,
      and the ranges the second byte then falls into. */
  lemma FourGroups(n: int)
    requires 0x10000 <= n <= 0x10FFFF
    ensures n / 262144 * 262144 + (n / 4096) % 64 * 4096 + (n / 64) % 64 * 64 + n % 64 == n
    ensures 0 <= n / 262144 <= 4
    ensures n / 262144 == 0 ==> (n / 4096) % 64 >= 0x10
    ensures n / 262144 == 4 ==> (n / 4096) % 64 <= 0x0F
  {
    var q, p := n / 64, n / 4096;
    assert n == q * 64 + n % 64;
    assert q == p * 64 + q % 64;
    assert p == (n / 262144) * 64 + p % 64;
  }

  lemma DecodeOneFour(c: char, rest: seq<byte>)
    requires 0x10000 <= c as int
    ensures DecodeOne(EncodeChar(c) + rest) == Some((c, 4))
  {
    var n := c as int;
    var bs := EncodeChar(c) + rest;
    FourGroups(n);
    assert bs[0] as int == 0xF0 + n / 262144;
    assert bs[1] as int == 0x80 + (n / 4096) % 64;
    assert bs[2] as int == 0x80 + (n / 64) % 64 && bs[3] as int == 0x80 + n % 64;
  }

  /** The decoder reads one encoded scalar value back, followed by
      whatever comes after it. */
  lemma DecodeOneEncode(c: char, rest: seq<byte>)
    ensures DecodeOne(EncodeChar(c) + rest) == Some((c, |EncodeChar(c)|))
  {
    var n := c as int;
    if n < 0x80 {
    } else if n < 0x800 {
      DecodeOneTwo(c, rest);
    } else if n < 0x10000 {
      DecodeOneThree(c, rest);
    } else {
      DecodeOneFour(c, rest);
    }
  }

  /** Decoding the encoding of `s` followed by more bytes yields `s`
      followed by the decoding of those bytes, and fails exactly when they
      fail to decode. */
  lemma {:induction false} DecodeEncodeAppend(s: string, rest: seq<byte>)
    ensures Decode(Encode(s) + rest) ==
            match Decode(rest) case None => None case Some(t) => Some(s + t)
    decreases |s|
  {
    if s != [] {
      var e := EncodeChar(s[0]);
      assert Encode(s) + rest == e + (Encode(s[1..]) + rest);
      DecodeOneEncode(s[0], Encode(s[1..]) + rest);
      assert (e + (Encode(s[1..]) + rest))[|e|..] == Encode(s[1..]) + rest;
      DecodeEncodeAppend(s[1..], rest);
      assert [s[0]] + s[1..] == s;
      match Decode(rest) {
        case None =>
        case Some(t) => assert [s[0]] + (s[1..] + t) == s + t;
      }
    } else {
      assert Encode(s) + rest == rest;
      match Decode(rest) {
        case None =>
        case Some(t) => assert s + t == t;
      }
    }
  }

  /** Decoding undoes encoding. */
  lemma DecodeEncode(s: string)
    ensures Decode(Encode(s)) == Some(s)
  {
    DecodeEncodeAppend(s, []);
    assert Encode(s) + [] == Encode(s);
    assert s + [] == s;
  }
  /** The 6-bit groups of `x * 64 + y` are `x` and `y`. */
  lemma SplitGroup(x: int, y: int)
    requires 0 <= y < 64
    ensures (x * 64 + y) / 64 == x && (x * 64 + y) % 64 == y
  {
  }

  /** A two-byte sequence the decoder accepts is the encoding of what it
      yields. */
  lemma EncodeDecodeTwo(b0: int, b1: int)
    requires 0xC2 <= b0 <= 0xDF && 0x80 <= b1 <= 0xBF
    ensures var n := (b0 - 0xC0) * 64 + (b1 - 0x80);
            0x80 <= n < 0x800 && n / 64 == b0 - 0xC0 && n % 64 == b1 - 0x80
  {
    SplitGroup(b0 - 0xC0, b1 - 0x80);
  }

  lemma EncodeDecodeThree(b0: int, b1: int, b2: int)
    requires 0xE0 <= b0 <= 0xEF && 0x80 <= b1 <= 0xBF && 0x80 <= b2 <= 0xBF
    requires b0 == 0xE0 ==> b1 >= 0xA0
    ensures var n := (b0 - 0xE0) * 4096 + (b1 - 0x80) * 64 + (b2 - 0x80);
            && 0x800 <= n < 0x10000
            && n / 4096 == b0 - 0xE0 && (n / 64) % 64 == b1 - 0x80 && n % 64 == b2 - 0x80
  {
    var q := (b0 - 0xE0) * 64 + (b1 - 0x80);
    var n := (b0 - 0xE0) * 4096 + (b1 - 0x80) * 64 + (b2 - 0x80);
    assert n == q * 64 + (b2 - 0x80);
    SplitGroup(q, b2 - 0x80);
    SplitGroup(b0 - 0xE0, b1 - 0x80);
    assert n / 4096 == q / 64 by {
      assert n / 4096 == (q * 64 + (b2 - 0x80)) / 4096;
    }
  }

  lemma EncodeDecodeFour(b0: int, b1: int, b2: int, b3: int)
    requires 0xF0 <= b0 <= 0xF4 && 0x80 <= b1 <= 0xBF && 0x80 <= b2 <= 0xBF && 0x80 <= b3 <= 0xBF
    requires b0 == 0xF0 ==> b1 >= 0x90
    requires b0 == 0xF4 ==> b1 <= 0x8F
    ensures var n := (b0 - 0xF0) * 262144 + (b1 - 0x80) * 4096 + (b2 - 0x80) * 64 + (b3 - 0x80);
            && 0x10000 <= n <= 0x10FFFF
            && n / 262144 == b0 - 0xF0 && (n / 4096) % 64 == b1 - 0x80
            && (n / 64) % 64 == b2 - 0x80 && n % 64 == b3 - 0x80
  {
    var p := (b0 - 0xF0) * 64 + (b1 - 0x80);
    var q := p * 64 + (b2 - 0x80);
    var n := q * 64 + (b3 - 0x80);
    assert n == (b0 - 0xF0) * 262144 + (b1 - 0x80) * 4096 + (b2 - 0x80) * 64 + (b3 - 0x80);
    SplitGroup(q, b3 - 0x80);
    SplitGroup(p, b2 - 0x80);
    SplitGroup(b0 - 0xF0, b1 - 0x80);
    assert n / 4096 == p by {
      assert n / 64 == q;
      assert n / 4096 == (n / 64) / 64;
    }
    assert n / 262144 == b0 - 0xF0 by {
      assert n / 262144 == (n / 4096) / 64;
    }
  }

  lemma EncodeDecodeOneTwo(bs: seq<byte>)
    requires |bs| > 0 && 0xC2 <= bs[0] as int <= 0xDF && DecodeOne(bs).Some?
    ensures EncodeChar(DecodeOne(bs).value.0) == bs[..2]
  {
    EncodeDecodeTwo(bs[0] as int, bs[1] as int);
  }

  lemma EncodeDecodeOneThree(bs: seq<byte>)
    requires |bs| > 0 && 0xE0 <= bs[0] as int <= 0xEF && DecodeOne(bs).Some?
    ensures EncodeChar(DecodeOne(bs).value.0) == bs[..3]
  {
    EncodeDecodeThree(bs[0] as int, bs[1] as int, bs[2] as int);
  }

  lemma EncodeDecodeOneFour(bs: seq<byte>)
    requires |bs| > 0 && 0xF0 <= bs[0] as int && DecodeOne(bs).Some?
    ensures EncodeChar(DecodeOne(bs).value.0) == bs[..4]
  {
    EncodeDecodeFour(bs[0] as int, bs[1] as int, bs[2] as int, bs[3] as int);
  }

  /** Whatever the decoder reads at the front of `bs` is exactly the
      encoding of the scalar value it yields: no other byte sequence
      (an overlong form, a surrogate, a value above U+10FFFF) is accepted. */
  lemma EncodeDecodeOne(bs: seq<byte>)
    requires |bs| > 0 && DecodeOne(bs).Some?
    ensures EncodeChar(DecodeOne(bs).value.0) == bs[..DecodeOne(bs).value.1]
  {
    var b0 := bs[0] as int;
    if b0 < 0x80 {
    } else if b0 <= 0xDF {
      EncodeDecodeOneTwo(bs);
    } else if b0 <= 0xEF {
      EncodeDecodeOneThree(bs);
    } else {
      EncodeDecodeOneFour(bs);
    }
  }

  /** The decoder is strict: the only bytes that decode to a text are that
      text's UTF-8 encoding. */
  lemma {:induction false} EncodeDecode(bs: seq<byte>)
    ensures Decode(bs).Some? ==> Encode(Decode(bs).value) == bs
    decreases |bs|
  {
    if bs != [] && Decode(bs).Some? {
      var (c, n) := DecodeOne(bs).value;
      var rest := Decode(bs[n..]).value;
      var t := [c] + rest;
      assert Decode(bs) == Some(t);
      assert Encode(t) == EncodeChar(c) + Encode(rest) by {
        assert t[0] == c && t[1..] == rest;
      }
      assert EncodeChar(c) == bs[..n] by { EncodeDecodeOne(bs); }
      assert Encode(rest) == bs[n..] by { EncodeDecode(bs[n..]); }
      assert bs[..n] + bs[n..] == bs;
    }
  }
}

