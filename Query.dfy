/** The contract query layer of `scripts/get_token_price.py`: each query
    builds the call data of one contract function (selector followed by
    padded arguments), sends it to a node through `eth_call`, guards the
    reply and decodes it with the codec.

    The node is an oracle: a function from the call (target contract,
    call data, block parameter) to the `result` of the JSON-RPC reply, or
    `None` when the request failed or the node reported an error. */
module Query {
  import opened Wrappers
  import opened PyStr
  import opened PyInt
  import opened Utf8
  import opened Codec

  /** One `eth_call`: `{"to": to, "data": data}` at block `block`. */
  datatype Call = Call(to: string, data: string, block: string)

  /** A node answering `eth_call`. */
  type Gateway = Call -> Option<string>

  const PANCAKESWAP_FACTORY: string := "0xcA143Ce32Fe78f1f7019d7d551a6402fC5350c73"
  const WBNB_ADDRESS: string := "0xbb4CdB9CBd36B01bD1cBaEBF2De08d9173bc095c"
  const USDT_ADDRESS: string := "0x55d398326f99059fF775485246999027B3197955"

  /** Four-byte function selectors. */
  const FUNC_GET_PAIR: string := "0xe6a43905"
  const FUNC_GET_RESERVES: string := "0x0902f1ac"
  const FUNC_TOKEN0: string := "0x0dfe1681"
  const FUNC_TOKEN1: string := "0xd21220a7"
  const FUNC_DECIMALS: string := "0x313ce567"
  const FUNC_SLOT0: string := "0x3850c7bd"
  const FUNC_SYMBOL: string := "0x95d89b41"

  /** The address the factory returns for a pair that does not exist. */
  const ZERO_ADDRESS: string := "0x0000000000000000000000000000000000000000"

  /** Python's `not res` for a reply: absent or the empty string. */
  predicate Falsy(res: Option<string>) {
    res.None? || res.value == ""
  }

  /** `get_decimals`: 18 when the token does not answer, or answers `0x`;
      otherwise the decoded word, which may raise. */
  function GetDecimals(node: Gateway, token: string, block: string): (r: Result<int>)
    ensures var res := node(Call(token, FUNC_DECIMALS, block));
            Falsy(res) || res.value == "0x" ==> r == Ok(18)
  {
    var res := node(Call(token, FUNC_DECIMALS, block));
    if Falsy(res) || res.value == "0x" then Ok(18) else DecodeUint(res.value)
  }

  /** `get_symbol`: `?` when the token does not answer; otherwise the
      decoded string, which never raises. */
  function GetSymbol(node: Gateway, token: string, block: string): (r: string)
    ensures Falsy(node(Call(token, FUNC_SYMBOL, block))) ==> r == UNKNOWN_SYMBOL
  {
    var res := node(Call(token, FUNC_SYMBOL, block));
    if Falsy(res) then UNKNOWN_SYMBOL else DecodeString(res.value)
  }

  /** The call data of `getPair(tokenA, tokenB)`. */
  function PairData(tokenA: string, tokenB: string): string {
    FUNC_GET_PAIR + PadAddress(tokenA) + PadAddress(tokenB)
  }

  /** `get_pair`: the address the factory reports for the pair of the two
      tokens, or `None` when it does not answer, answers `0x`, or answers
      with fewer than 26 characters. */
  function GetPair(node: Gateway, tokenA: string, tokenB: string, block: string): (r: Option<string>)
    ensures var res := node(Call(PANCAKESWAP_FACTORY, PairData(tokenA, tokenB), block));
            r.Some? <==> !Falsy(res) && res.value != "0x" && |res.value| >= 26
  {
    var res := node(Call(PANCAKESWAP_FACTORY, PairData(tokenA, tokenB), block));
    if Falsy(res) || res.value == "0x" then None else DecodeAddress(res.value)
  }

  /** `get_reserves`: `None` for a missing reply or one shorter than 130
      characters (`0x` and two words); otherwise the first two words, each
      read by `int(_, 16)`, which may raise. */
  function GetReserves(node: Gateway, pair: string, block: string): (r: Result<Option<(int, int)>>)
    ensures var res := node(Call(pair, FUNC_GET_RESERVES, block));
            r == Ok(None) <==> Falsy(res) || |res.value| < 130
  {
    var res := node(Call(pair, FUNC_GET_RESERVES, block));
    if Falsy(res) || |res.value| < 130 then Ok(None)
    else
      var raw := RemoveAll(res.value, "0x");
      match ParseInt(Slice(raw, 0, 64), 16)
      case ValueError => ValueError
      case Ok(reserve0) =>
        match ParseInt(Slice(raw, 64, 128), 16)
        case ValueError => ValueError
        case Ok(reserve1) => Ok(Some((reserve0, reserve1)))
  }

  /** An address-valued reply: `None` when absent or empty, otherwise
      `decode_address` of it. */
  function AddressReply(res: Option<string>): (r: Option<string>)
    ensures r.Some? <==> !Falsy(res) && |res.value| >= 26
  {
    if Falsy(res) then None else DecodeAddress(res.value)
  }

  /** `get_token0`. */
  function GetToken0(node: Gateway, pair: string, block: string): (r: Option<string>)
    ensures var res := node(Call(pair, FUNC_TOKEN0, block));
            r.Some? <==> !Falsy(res) && |res.value| >= 26
  {
    AddressReply(node(Call(pair, FUNC_TOKEN0, block)))
  }

  /** The `token1()` read of the V3 pool, written inline in
      `get_v3_pool_price`. */
  function GetToken1(node: Gateway, pool: string, block: string): (r: Option<string>)
    ensures var res := node(Call(pool, FUNC_TOKEN1, block));
            r.Some? <==> !Falsy(res) && |res.value| >= 26
  {
    AddressReply(node(Call(pool, FUNC_TOKEN1, block)))
  }

  /** The `slot0()` read of the V3 pool: `None` for a missing reply or one
      shorter than 66 characters (`0x` and one word); otherwise the first
      word, `sqrtPriceX96`, which may fail to parse. */
  function ReadSlot0(node: Gateway, pool: string, block: string): (r: Result<Option<int>>)
    ensures var res := node(Call(pool, FUNC_SLOT0, block));
            r == Ok(None) <==> Falsy(res) || |res.value| < 66
  {
    var res := node(Call(pool, FUNC_SLOT0, block));
    if Falsy(res) || |res.value| < 66 then Ok(None)
    else
      match ParseInt(Slice(RemoveAll(res.value, "0x"), 0, 64), 16)
      case ValueError => ValueError
      case Ok(s) => Ok(Some(s))
  }

  // ---------------------------------------------------------------------
  // The queries against a node that answers as an ABI-conforming contract.

  /** `getPair` call data for two 40-digit addresses, with or without `0x`:
      the selector and the two address words, 138 characters. */
  lemma PairDataShape(a: string, xa: string, b: string, xb: string)
    requires IsHexAddress(a) && (xa == a || xa == "0x" + a)
    requires IsHexAddress(b) && (xb == b || xb == "0x" + b)
    ensures PairData(xa, xb) == FUNC_GET_PAIR + (Zeros(24) + Lower(a)) + (Zeros(24) + Lower(b))
    ensures |PairData(xa, xb)| == 138
  {
    PadAddressRoundTrip(a, xa);
    PadAddressRoundTrip(b, xb);
  }

  /** A factory answering with the word of a pair address (a 40-digit
      address `p`) makes `get_pair` return that address, lower-cased. */
  lemma GetPairWord(node: Gateway, tokenA: string, tokenB: string, block: string, p: string)
    requires IsHexAddress(p)
    requires node(Call(PANCAKESWAP_FACTORY, PairData(tokenA, tokenB), block)) == Some("0x" + PadAddress(p))
    ensures GetPair(node, tokenA, tokenB, block) == Some("0x" + Lower(p))
  {
    PadAddressRoundTrip(p, p);
    var w := PadAddress(p);
    DecodeAddressWord(w);
    assert w[24..] == Lower(p);
    assert "0x" + w != "0x";
  }

  /** A token answering `decimals()` with a word holding `n` has `n`
      decimals. */
  lemma GetDecimalsWord(node: Gateway, token: string, block: string, n: nat)
    requires n < Pow(16, 64)
    requires node(Call(token, FUNC_DECIMALS, block)) == Some("0x" + Word(n))
    ensures GetDecimals(node, token, block) == Ok(n)
  {
    DecodeUintWord(n);
    assert "0x" + Word(n) != "0x";
  }

  /** A token answering `symbol()` with the ABI encoding of `s` has symbol
      `s`. */
  lemma GetSymbolAbi(node: Gateway, token: string, block: string, s: string)
    requires |Encode(s)| < Pow(16, 64)
    requires node(Call(token, FUNC_SYMBOL, block)) == Some("0x" + AbiString(s))
    ensures GetSymbol(node, token, block) == s
  {
    DecodeStringAbi(s);
  }

  /** A contract answering with the word of a 40-digit address `t` makes
      the address read return that address, lower-cased. */
  lemma AddressReplyWord(t: string)
    requires IsHexAddress(t)
    ensures AddressReply(Some("0x" + PadAddress(t))) == Some("0x" + Lower(t))
  {
    PadAddressRoundTrip(t, t);
    var w := PadAddress(t);
    DecodeAddressWord(w);
    assert w[24..] == Lower(t);
  }

  /** Two words and further hexadecimal digits: the `0x` prefix is the only
      one removed, and the first two words read back as their numbers. */
  lemma TwoWordReply(r0: nat, r1: nat, rest: string)
    requires r0 < Pow(16, 64) && r1 < Pow(16, 64) && IsLowerHex(rest)
    ensures var raw := Word(r0) + Word(r1) + rest;
            && |raw| >= 128
            && RemoveAll("0x" + raw, "0x") == raw
            && ParseInt(Slice(raw, 0, 64), 16) == Ok(r0)
            && ParseInt(Slice(raw, 64, 128), 16) == Ok(r1)
  {
    var raw := Word(r0) + Word(r1) + rest;
    assert IsLowerHex(raw) by {
      LowerHexAppend(Word(r0), Word(r1));
      LowerHexAppend(Word(r0) + Word(r1), rest);
    }
    assert RemoveAll("0x" + raw, "0x") == raw by {
      LowerHexDigits(raw);
      RemovePrefix(raw);
    }
    TwoWordsRead(r0, r1, rest);
  }

  /** A pair answering `getReserves()` with the words of `r0` and `r1`
      (and any further words, such as the timestamp) has reserves
      `(r0, r1)`. */
  lemma GetReservesWords(node: Gateway, pair: string, block: string, r0: nat, r1: nat, rest: string)
    requires r0 < Pow(16, 64) && r1 < Pow(16, 64) && IsLowerHex(rest)
    requires node(Call(pair, FUNC_GET_RESERVES, block)) == Some("0x" + (Word(r0) + Word(r1) + rest))
    ensures GetReserves(node, pair, block) == Ok(Some((r0, r1)))
  {
    TwoWordReply(r0, r1, rest);
  }

  /** Each reserve comes from at most 64 digits, so its magnitude is below
      `16^64 = 2^256`. */
  lemma GetReservesBound(node: Gateway, pair: string, block: string)
    requires GetReserves(node, pair, block).Ok? && GetReserves(node, pair, block).value.Some?
    ensures var (r0, r1) := GetReserves(node, pair, block).value.value;
            -(Pow(16, 64) as int) < r0 < Pow(16, 64) && -(Pow(16, 64) as int) < r1 < Pow(16, 64)
  {
    var raw := RemoveAll(node(Call(pair, FUNC_GET_RESERVES, block)).value, "0x");
    WordBound(Slice(raw, 0, 64));
    WordBound(Slice(raw, 64, 128));
  }

  /** A number `int(_, 16)` reads from at most one word of text has
      magnitude below `16^64`. */
  lemma WordBound(w: string)
    requires |w| <= 64 && ParseInt(w, 16).Ok?
    ensures -(Pow(16, 64) as int) < ParseInt(w, 16).value < Pow(16, 64)
  {
    ParseIntBound(w, 16);
    PowMonotone(16, |w|, 64);
  }

  /** A pool answering `slot0()` with the word of `s` first has
      `sqrtPriceX96 == s`. */
  lemma ReadSlot0Word(node: Gateway, pool: string, block: string, s: nat, rest: string)
    requires s < Pow(16, 64) && IsLowerHex(rest)
    requires node(Call(pool, FUNC_SLOT0, block)) == Some("0x" + (Word(s) + rest))
    ensures ReadSlot0(node, pool, block) == Ok(Some(s))
  {
    var raw := Word(s) + rest;
    assert IsLowerHex(raw) by { LowerHexAppend(Word(s), rest); }
    LowerHexDigits(raw);
    RemovePrefix(raw);
    assert raw[0..64] == Word(s);
    WordParses(s);
  }

  /** `sqrtPriceX96` comes from at most 64 digits. */
  lemma ReadSlot0Bound(node: Gateway, pool: string, block: string)
    requires ReadSlot0(node, pool, block).Ok? && ReadSlot0(node, pool, block).value.Some?
    ensures -(Pow(16, 64) as int) < ReadSlot0(node, pool, block).value.value < Pow(16, 64)
  {
    var res := node(Call(pool, FUNC_SLOT0, block));
    WordBound(Slice(RemoveAll(res.value, "0x"), 0, 64));
  }
}
