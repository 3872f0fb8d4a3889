/** The Python `str` and `list` builtins that the price script relies on,
    written out with the semantics CPython gives them. */
module PyStr {

  /** Python's normalisation of one slice bound `i` against a length `n`:
      a negative bound counts from the end, and the result is clamped to
      `0..n`. */
  function SliceBound(i: int, n: nat): (k: nat)
    ensures k <= n
    ensures i < 0 && -i <= n ==> k == n + i
    ensures 0 <= i <= n ==> k == i
  {
    if i < 0 then (if i + n < 0 then 0 else i + n)
    else if i > n then n
    else i
  }

  /** `s[i:j]`: never fails, whatever the bounds. */
  function Slice(s: string, i: int, j: int): (r: string)
    ensures |r| <= |s|
    ensures 0 <= i <= j <= |s| ==> r == s[i..j]
    ensures 0 <= i <= j ==> |r| <= j - i
  {
    var a, b := SliceBound(i, |s|), SliceBound(j, |s|);
    if a <= b then s[a..b] else []
  }

  /** `s.startswith(p)`. */
  predicate StartsWith(s: string, p: string) {
    |p| <= |s| && s[..|p|] == p
  }

  /** `s.replace(pat, "")`: every non-overlapping occurrence of `pat`,
      scanning from the left, is removed; text that only becomes an
      occurrence after a removal is kept. */
  function RemoveAll(s: string, pat: string): (r: string)
    requires |pat| > 0
    ensures |r| <= |s|
    decreases |s|
  {
    if |s| < |pat| then s
    else if s[..|pat|] == pat then RemoveAll(s[|pat|..], pat)
    else [s[0]] + RemoveAll(s[1..], pat)
  }

  /** A string in which the last character of `pat` never occurs holds no
      occurrence of `pat`, so `replace` leaves it as it is. */
  lemma {:induction false} RemoveAllAbsent(s: string, pat: string)
    requires |pat| > 0 && pat[|pat| - 1] !in s
    ensures RemoveAll(s, pat) == s
    decreases |s|
  {
    if |s| >= |pat| {
      assert s[..|pat|][|pat| - 1] == s[|pat| - 1];
      assert s[..|pat|] != pat;
      assert pat[|pat| - 1] !in s[1..];
      RemoveAllAbsent(s[1..], pat);
      assert [s[0]] + s[1..] == s;
    }
  }

  /** `str.lower` restricted to ASCII letters. */
  function LowerChar(c: char): char {
    if 'A' <= c <= 'Z' then (c as int + 32) as char else c
  }

  /** `s.lower()`, on ASCII letters. */
  function Lower(s: string): (r: string)
    ensures |r| == |s|
    ensures forall k :: 0 <= k < |s| ==> r[k] == LowerChar(s[k])
  {
    seq(|s|, k requires 0 <= k < |s| => LowerChar(s[k]))
  }

  /** `lower()` leaves no ASCII capital behind, and lower-casing twice is
      lower-casing once. */
  lemma LowerFolds(s: string)
    ensures forall k :: 0 <= k < |s| ==> !('A' <= Lower(s)[k] <= 'Z')
    ensures Lower(Lower(s)) == Lower(s)
  {
  }

  /** The blanks `int()` skips around a literal: the ASCII blanks 9-13 and
      32, and every character above U+007F that `str.isspace()` accepts
      (CPython turns those into a space first). U+001C-U+001F pass through
      unchanged, so they are not blanks here. */
  predicate IsSpace(c: char) {
    var n := c as int;
    (9 <= n <= 13) || n == 32 || n == 0x85 || n == 0xA0 || n == 0x1680
    || (0x2000 <= n <= 0x200A) || n == 0x2028 || n == 0x2029 || n == 0x202F
    || n == 0x205F || n == 0x3000
  }

  /** The six ASCII blanks of C's `isspace`, which `bytes.fromhex` skips. */
  predicate IsAsciiSpace(c: char) {
    c == ' ' || (9 <= c as int <= 13)
  }

  /** Leading blanks removed. */
  function LStripSpace(s: string): string
    decreases |s|
  {
    if |s| > 0 && IsSpace(s[0]) then LStripSpace(s[1..]) else s
  }

  /** Trailing blanks removed. */
  function RStripSpace(s: string): string
    decreases |s|
  {
    if |s| > 0 && IsSpace(s[|s| - 1]) then RStripSpace(s[..|s| - 1]) else s
  }

  /** Blanks removed at both ends, as `int()` ignores them. */
  function Strip(s: string): string {
    RStripSpace(LStripSpace(s))
  }

  /** `LStripSpace` leaves a suffix that does not start with a blank, and
      only blanks were dropped. */
  lemma {:induction false} LStripSpaceSuffix(s: string)
    ensures var r := LStripSpace(s);
            && |r| <= |s| && r == s[|s| - |r|..]
            && (r == [] || !IsSpace(r[0]))
            && forall k :: 0 <= k < |s| - |r| ==> IsSpace(s[k])
    decreases |s|
  {
    if |s| > 0 && IsSpace(s[0]) {
      LStripSpaceSuffix(s[1..]);
      var r := LStripSpace(s);
      assert s[1..][|s| - 1 - |r|..] == s[|s| - |r|..];
      forall k | 0 <= k < |s| - |r| ensures IsSpace(s[k]) {
        if k > 0 { assert s[k] == s[1..][k - 1]; }
      }
    }
  }

  /** `RStripSpace` leaves a prefix that does not end with a blank, and
      only blanks were dropped. */
  lemma {:induction false} RStripSpacePrefix(s: string)
    ensures var r := RStripSpace(s);
            && |r| <= |s| && r == s[..|r|]
            && (r == [] || !IsSpace(r[|r| - 1]))
            && forall k :: |r| <= k < |s| ==> IsSpace(s[k])
    decreases |s|
  {
    if |s| > 0 && IsSpace(s[|s| - 1]) {
      RStripSpacePrefix(s[..|s| - 1]);
      var r := RStripSpace(s);
      assert s[..|s| - 1][..|r|] == s[..|r|];
    }
  }

  /** `Strip` keeps a contiguous part of the text. */
  lemma StripShorter(s: string)
    ensures |Strip(s)| <= |s|
  {
    LStripSpaceSuffix(s);
    RStripSpacePrefix(LStripSpace(s));
  }

  /** `s.rstrip(c)` for a single character `c`: the longest prefix of `s`
      after which only copies of `c` follow. */
  function RStripChar(s: string, c: char): (r: string)
    ensures |r| <= |s| && r == s[..|r|]
    ensures r == [] || r[|r| - 1] != c
    ensures forall k :: |r| <= k < |s| ==> s[k] == c
    decreases |s|
  {
    if |s| > 0 && s[|s| - 1] == c then RStripChar(s[..|s| - 1], c) else s
  }

  /** `xs.index(x)`: the first position holding `x`. */
  function IndexOf(xs: seq<string>, x: string): (i: nat)
    requires x in xs
    ensures i < |xs| && xs[i] == x
    ensures x !in xs[..i]
  {
    if xs[0] == x then 0
    else
      assert x in xs[1..] by { assert xs == [xs[0]] + xs[1..]; }
      var j := IndexOf(xs[1..], x);
      assert xs[..j + 1] == [xs[0]] + xs[1..][..j];
      j + 1
  }

  /** `xs.pop(i)`: the list without its element at `i`. */
  function PopAt(xs: seq<string>, i: nat): (r: seq<string>)
    requires i < |xs|
    ensures |r| == |xs| - 1
    ensures forall k :: 0 <= k < i ==> r[k] == xs[k]
    ensures forall k :: i <= k < |r| ==> r[k] == xs[k + 1]
  {
    xs[..i] + xs[i + 1..]
  }
}
