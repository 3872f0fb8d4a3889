# Token price over raw `eth_call`: a Dafny model

This project models `scripts/get_token_price.py`, a command-line tool for BNB
Smart Chain. The tool prices a token from on-chain AMM (automated market maker)
state by sending raw `eth_call` requests to a node and decoding the
hexadecimal replies by hand. It has three layers, and the model keeps them.

- **Hex/ABI codec** (`Codec.dfy`). The layout is the Solidity contract ABI,
  "Formal Specification of the Encoding".
  - `pad_address` and `decode_address` turn addresses into 32-byte words and
    back.
  - `decode_uint` reads `uint256` results.
  - `decode_string` reads a dynamic `string` result (offset word, length word,
    UTF-8 bytes), with a fallback for raw bytes.
  - `format_block` renders the block parameter of `eth_call`.
  - The codec rests on models of the Python builtins it uses:
    - `PyStr.dfy`: slices with negative or clamped bounds, `replace(p, "")`,
      `lower()`, `rstrip`, `startswith`, `list.index` and `list.pop`;
    - `PyInt.dfy`: `int(s, 10 | 16)` with blanks, sign, the `0x` prefix and
      PEP 515 underscores, and `hex(n)`;
    - `Utf8.dfy`: `bytes.fromhex` and the strict UTF-8 decoder.
- **Contract query layer** (`Query.dfy`).
  - Each query builds selector + argument words, asks the node and guards the
    reply before decoding it.
  - The guards are length floors of 130, 66 and 26 characters, and emptiness
    checks.
  - Decimals fall back to 18 and the symbol falls back to `?`.
  - The node is a pure function `Gateway = Call -> Option<string>` from
    (contract, call data, block) to the JSON-RPC `result`. `None` stands for a
    transport failure or an error reply.
- **Price resolution** (`Price.dfy`, `TokenPrice.dfy`).
  - The V2 constant-product rule: `(base/10^bd)/(target/10^td)`.
  - The V3 concentrated-liquidity rule: `(sqrtPriceX96/2^96)^2 · 10^(d0-d1)`
    and its reciprocal. Both are in exact `real` arithmetic.
  - `run()` and `get_v3_pool_price` are imperative methods: `TakeBlockFlag`,
    `ResolveV2`, `V3PoolPrice` and `Run`. Each way the script can end
    (an early exit, a traceback, a quote) is an outcome value.
  - Every method is proved against a predicate (`SplitBlockFlag`, `V2Sound`,
    `V3Sound`) that says, for each outcome, exactly when it happens and what
    it carries.

Each function of the script is one definition in the model:

- `pad_address`, `decode_address`, `decode_uint`, `decode_string` and
  `format_block` are `Codec.PadAddress`, `Codec.DecodeAddress`,
  `Codec.DecodeUint`, `Codec.DecodeString` and `Codec.FormatBlock`. The
  `try` body of `decode_string` is `Codec.DecodePayload`.
- `get_decimals`, `get_symbol`, `get_pair`, `get_reserves` and `get_token0`
  are `Query.GetDecimals`, `Query.GetSymbol`, `Query.GetPair`,
  `Query.GetReserves` and `Query.GetToken0`. `eth_call` is the `Gateway`
  parameter.
- `get_v3_pool_price` is the method `TokenPrice.V3PoolPrice`. Its inline
  `token1()` and `slot0()` reads are `Query.GetToken1` and `Query.ReadSlot0`.
- `run()` is the method `TokenPrice.Run`. Its `--block` handling is
  `TokenPrice.TakeBlockFlag`, specified by `TokenPrice.SplitBlockFlag`. Its
  V2 branch is `TokenPrice.ResolveV2`.
- The two price formulas are `Price.V2Price` and `Price.V3Prices`.
- The builtins are:
  - `int(s, base)` is `PyInt.ParseInt` and `hex(n)` is `PyInt.Hex`;
  - `bytes.fromhex` is `Utf8.FromHex` and UTF-8 decoding is `Utf8.Decode`;
  - `lower()` is `PyStr.Lower` and `replace(p, "")` is `PyStr.RemoveAll`.

`int()` can raise `ValueError`. It is modelled as `Result.ValueError`, and a
`ValueError` that escapes the script is the outcome `V2Raised` or `V3Raised`.

The model follows the code as written, including these behaviours:

- `pad_address` validates nothing. It drops every `0x`, not only a leading
  one.
- `decode_address` counts all characters, `0x` included, against its floor
  of 26. For a reply of 26 to 40 characters, the result is `0x` followed by
  the whole reply, including its own `0x`.
- `decode_address` keeps the reply's case. `decode_address(pad_address(a))`
  is `0x` + the lowercase address, because `pad_address` lower-cases.
- `decode_uint` is Python's `int(_, 16)`.
  - It accepts a sign, so it can return a negative number.
  - It accepts blanks and underscores. The blanks are tab, line feed,
    vertical tab, form feed, carriage return and space, plus the Unicode
    whitespace above U+007F. The separators U+001C to U+001F are not blanks.
  - It raises on anything else, and nothing catches that.
- `decode_string`: a failure on the offset-32 path gives `?` directly. It
  never reaches the raw-bytes fallback, even when the length word cuts a
  character that the whole payload spells out correctly.
- `get_decimals` defaults to 18 only for an empty or `0x` reply. A malformed
  reply raises.
- `run()` exits with status 0 when there is no pair or no liquidity. The V3
  branch returns normally on every failure it detects.
- The V3 reciprocal is 0 whenever the price is not positive, not only when
  it is zero.
- `token0()` is lower-cased without a `None` check. The model states this as
  the precondition `Token0Answered` rather than inventing a fallback.

## Model

| member | source | states |
|---|---|---|
| PyStr.Slice | scripts/get_token_price.py:51 | `s[i:j]` never fails; the result is no longer than `s` or than `j - i`, and for in-range bounds it is the plain subsequence |
| PyStr.RemoveAll | scripts/get_token_price.py:46 | `replace(p, "")` never lengthens the text |
| PyStr.RemoveAllAbsent | scripts/get_token_price.py:46 | text that does not hold the last character of `p` is left unchanged by `replace(p, "")` |
| PyStr.LowerFolds | scripts/get_token_price.py:212-213 | `lower()` leaves no ASCII capital, and lower-casing twice is lower-casing once |
| PyStr.RStripChar | scripts/get_token_price.py:73 | `rstrip('\x00')` keeps a prefix that does not end in NUL, and only NULs were removed |
| PyStr.IndexOf | scripts/get_token_price.py:184 | `args.index(x)` is a position holding `x`, and `x` occurs nowhere before it |
| PyStr.PopAt | scripts/get_token_price.py:188-189 | `pop(i)` loses one element; earlier elements stay, later ones move one place left |
| PyStr.LStripSpaceSuffix | scripts/get_token_price.py:56 | the leading-blank strip inside `int()` keeps a suffix that does not start with a blank, and drops only blanks |
| PyStr.RStripSpacePrefix | scripts/get_token_price.py:56 | the trailing-blank strip inside `int()` keeps a prefix that does not end with a blank, and drops only blanks |
| PyInt.DigitValue | scripts/get_token_price.py:56 | `int()`'s digit table: a value below 36 exactly for ASCII digits and letters |
| PyInt.ParseIntBound | scripts/get_token_price.py:56 | whatever `int(s, base)` returns has magnitude below `base^len(s)` |
| PyInt.ParseIntBlanks | scripts/get_token_price.py:84 | `int(" 5\t")` is 5, while `int()` of U+001C followed by `5` raises, because that separator is not a blank |
| PyInt.ParseIntRejects | scripts/get_token_price.py:84 | `int()` raises when the digit part holds a character that is neither a digit of the base nor `_` |
| PyInt.ParseAllDigits | scripts/get_token_price.py:113-114 | a text made only of digits reads as its big-endian value |
| PyInt.ParsePrefixed | scripts/get_token_price.py:56 | `int(_, 16)` of `0x`/`-0x` followed by hex digits is the signed value of the digits |
| PyInt.HexDigitsCorrect | scripts/get_token_price.py:84 | the digits `hex(n)` writes are nonempty, lowercase, minimal (no leading zero unless `n` is 0) and have value `n` |
| PyInt.HexDigitsLength | scripts/get_token_price.py:84 | a number below `16^k` takes at most `k` digits |
| PyInt.ValueZerosPrefix | scripts/get_token_price.py:53-56 | leading zero digits do not change a value |
| PyInt.ValueBound | scripts/get_token_price.py:113-114 | `k` digits of base `b` stay below `b^k` |
| PyInt.LowerHex | scripts/get_token_price.py:46 | lowercase hex is its own `lower()`, and `lower()` turns hex digits of either case into lowercase hex |
| PyInt.HexRoundTrip | scripts/get_token_price.py:84 | `int(hex(n), 16) == n` for every integer `n` |
| Utf8.FromHex | scripts/get_token_price.py:69 | `bytes.fromhex` yields at most one byte per two characters |
| Utf8.HexOfBytes | scripts/get_token_price.py:69 | the hex text of `k` bytes has `2k` lowercase digits |
| Utf8.FromHexOfBytes | scripts/get_token_price.py:69 | `bytes.fromhex` reads back the hex text of any bytes |
| Utf8.DecodeOne | scripts/get_token_price.py:69 | one decoding step consumes between 1 and 4 of the available bytes |
| Utf8.DecodeOneEncode | scripts/get_token_price.py:69 | the decoder reads back one encoded scalar value, whatever follows it |
| Utf8.DecodeEncodeAppend | scripts/get_token_price.py:73 | decoding an encoded text followed by more bytes gives the text followed by their decoding, and fails exactly when they fail |
| Utf8.DecodeEncode | scripts/get_token_price.py:69 | `e.decode('utf-8')` undoes `encode('utf-8')` |
| Utf8.EncodeDecodeOne | scripts/get_token_price.py:69 | the bytes one decoding step consumes are exactly the UTF-8 encoding of the character it yields, so no overlong form, surrogate or value above U+10FFFF is accepted |
| Utf8.EncodeDecode | scripts/get_token_price.py:69 | the decoder is strict: any byte string that decodes to a text is exactly that text's encoding |
| Codec.DecodeAddress | scripts/get_token_price.py:48-51 | `None` exactly for replies shorter than 26 characters; otherwise `0x` + the last `min(40, len)` characters |
| Codec.PadAddressEveryPrefix | scripts/get_token_price.py:44-46 | for lowercase hex `x` and `y`, `0x` + `x` + `0x` + `y` is padded as `x + y`: every `0x` is removed |
| Codec.PadAddressLowerHex | scripts/get_token_price.py:44-46 | for 40 hex digits of either case, with or without `0x`, `pad_address` gives 64 lowercase hex digits |
| Codec.PadAddressRoundTrip | scripts/get_token_price.py:44-51 | for 40 hex digits with or without `0x`: the word is 64 characters, 24 zeros + the lowercase address, and `decode_address` gives back `0x` + the lowercase address |
| Codec.DecodeAddressWord | scripts/get_token_price.py:48-51 | a full word reply yields its low-order 20 bytes |
| Codec.NoPrefixInHex | scripts/get_token_price.py:46 | hex digits hold no `0x`, so `replace` leaves them unchanged |
| Codec.DecodeUintDigits | scripts/get_token_price.py:53-56 | `""` and `"0x"` decode to 0; hex digits, bare or behind `0x`, decode to their non-negative big-endian value |
| Codec.DecodeUintLeadingZeros | scripts/get_token_price.py:53-56 | leading zero digits do not change the decoded value, with or without `0x` in front |
| Codec.DecodeUintWord | scripts/get_token_price.py:53-56 | the ABI word of any value below `2^256` decodes to that value |
| Codec.DecodeUintBound | scripts/get_token_price.py:53-56 | a decoded value of an `n`-character reply has magnitude below `16^n` |
| Codec.WordValue | scripts/get_token_price.py:113-114 | a 64-digit word holds its number |
| Codec.WordParses | scripts/get_token_price.py:113-114 | `int(_, 16)` reads a word back as its number |
| Codec.RemovePrefix | scripts/get_token_price.py:62 | `0x` + hex digits loses exactly its prefix to `replace("0x", "")` |
| Codec.WordWithNonzeroByteIsLarge | scripts/get_token_price.py:65-66 | a payload whose first byte is not zero has a first word far above 32 |
| Codec.DecodeString | scripts/get_token_price.py:58-60 | an empty or `0x` reply gives `?` |
| Codec.DecodeStringTrustsLength | scripts/get_token_price.py:64-69 | when the first word is 32, only the bytes the length word counts are decoded, and any further text is ignored; a failure there gives `?` |
| Codec.DecodeStringSplitCharacter | scripts/get_token_price.py:64-69 | a length of one byte in front of `c3a9`, which is valid UTF-8 for `é`, gives `?`: the cut character fails and the fallback is never tried |
| Codec.DecodeStringAbiBytes | scripts/get_token_price.py:64-69 | an ABI-encoded byte string decodes to the UTF-8 text of its bytes, or `?` when they are not UTF-8 |
| Codec.DecodeStringAbi | scripts/get_token_price.py:58-69 | the ABI encoding of any string decodes to that string |
| Codec.DecodeStringBytes32 | scripts/get_token_price.py:71-73 | a symbol sent as a NUL-padded `bytes32` takes the fallback and comes out without its padding |
| Codec.DecodeZeroBytes | scripts/get_token_price.py:73 | zero bytes decode to NUL characters |
| Codec.RStripNuls | scripts/get_token_price.py:73 | `rstrip('\x00')` removes exactly the NULs appended after a text |
| Codec.FormatBlockPassThrough | scripts/get_token_price.py:79-86 | `latest`, `0x…` and text that `int()` rejects pass through; any block that is changed is read back by `int(_, 16)` as the number `int()` read from it, signs, blanks and underscores included |
| Codec.FormatBlockSeparator | scripts/get_token_price.py:79-86 | the block U+001C followed by `5`, which `int()` rejects, is sent unchanged |
| Codec.FormatBlockDecimal | scripts/get_token_price.py:83-84 | a decimal numeral becomes `0x` + the minimal lowercase hex of its value (`0` gives `0x0`), which `int(_, 16)` reads back as that value |
| Codec.NegativeHexNotDecimal | scripts/get_token_price.py:84 | the `hex` of a negative number is not a decimal literal |
| Codec.FormatBlockIdempotent | scripts/get_token_price.py:79-86 | formatting a block twice is formatting it once |
| Query.GetDecimals | scripts/get_token_price.py:91-95 | an absent, empty or `0x` reply gives 18 |
| Query.GetDecimalsWord | scripts/get_token_price.py:91-95 | a `decimals()` word holding `n` gives `n` |
| Query.GetSymbol | scripts/get_token_price.py:97-100 | an absent or empty reply gives `?` |
| Query.GetSymbolAbi | scripts/get_token_price.py:97-100 | a `symbol()` reply that is the ABI encoding of `s` gives `s` |
| Query.PairDataShape | scripts/get_token_price.py:103 | `getPair` call data is the selector and two address words, 138 characters |
| Query.GetPair | scripts/get_token_price.py:102-106 | an address exactly when the reply is present, not `0x` and at least 26 characters long |
| Query.GetPairWord | scripts/get_token_price.py:102-106 | a factory answering with a pair's address word gives that address, lowercase |
| Query.GetReserves | scripts/get_token_price.py:108-115 | no reserves exactly when the reply is absent, empty or shorter than 130 characters |
| Query.GetReservesWords | scripts/get_token_price.py:108-115 | a reply of two words (and any further words) gives exactly their two numbers |
| Query.TwoWordReply | scripts/get_token_price.py:112-114 | after `replace("0x", "")` the first two words read back as their numbers |
| Query.GetReservesBound | scripts/get_token_price.py:108-115 | each reserve has magnitude below `2^256` |
| Query.AddressReply | scripts/get_token_price.py:117-120 | an address exactly when the reply is present and at least 26 characters long |
| Query.GetToken0 | scripts/get_token_price.py:117-120 | `token0()` gives an address exactly when the reply is present and at least 26 characters long |
| Query.GetToken1 | scripts/get_token_price.py:126-127 | `token1()` gives an address exactly when the reply is present and at least 26 characters long |
| Query.AddressReplyWord | scripts/get_token_price.py:117-120 | an address word reply gives that address, lowercase |
| Query.ReadSlot0 | scripts/get_token_price.py:146-152 | no root price exactly when the reply is absent, empty or shorter than 66 characters |
| Query.ReadSlot0Word | scripts/get_token_price.py:146-152 | a `slot0()` reply starting with the word of `s` gives `s` |
| Query.ReadSlot0Bound | scripts/get_token_price.py:151-152 | the root price has magnitude below `2^256` |
| Price.Pow10 | scripts/get_token_price.py:164 | `10**e` is positive, also for negative `e` |
| Price.V2PriceBalances | scripts/get_token_price.py:253 | price · target/10^td = base/10^bd; non-negative for non-negative reserves, positive for a positive base |
| Price.V2PriceSameDecimals | scripts/get_token_price.py:253 | with equal decimals the price is the plain reserve ratio |
| Price.V2PriceExample | scripts/get_token_price.py:253 | 10^24 target units against 500·10^18 base units, both with 18 decimals, give 0.0005 |
| Price.V3PricesReciprocal | scripts/get_token_price.py:160-170 | `p = (s/2^96)^2 · 10^(d0-d1)`; a nonzero root gives `p > 0` and `p·q = 1`; `q = 0` exactly when `p` is not positive |
| Price.V3PricesUnit | scripts/get_token_price.py:160-170 | a root of `2^96` between equal decimals gives 1 in both directions |
| TokenPrice.TakeBlockFlag | scripts/get_token_price.py:182-194 | the in-place `--block` handling computes `SplitBlockFlag` |
| TokenPrice.SplitBlockFlagRemovesPair | scripts/get_token_price.py:182-194 | without the flag nothing changes and the block is `latest`; the error exit happens exactly when the first `--block` is last; otherwise exactly the flag and its value are removed, the rest keeps its order, and the block is `format_block` of the value |
| TokenPrice.CutPair | scripts/get_token_price.py:188-189 | the two pops remove exactly the flag and the value from the multiset of arguments |
| TokenPrice.ResolveV2 | scripts/get_token_price.py:218-256 | each ending happens exactly under its guard: no pair or the zero address, no reserves, a raising `int()`, zero target reserve. A quote takes the target's reserve from slot 0 exactly when token0 is the target, its reserves are the pair's in some order, and it carries the V2 price and the base symbol (USDT over BNB over `BaseToken`) |
| TokenPrice.V3PoolPrice | scripts/get_token_price.py:122-170 | each ending happens exactly under its guard: a token address missing, a raising `int()`, no `slot0()`, a zero root. A quote carries both tokens, their symbols and decimals, and the V3 prices of a nonzero root |
| TokenPrice.BaseArg | scripts/get_token_price.py:212-213 | the base token is the second argument lower-cased, or WBNB lower-cased, and it is its own `lower()`, the form of the `WBNB_ADDRESS.lower()` and `USDT_ADDRESS.lower()` it is compared with at lines 255-256 |
| TokenPrice.Run | scripts/get_token_price.py:177-213 | the `--block` error, the two usage errors, the V3 branch and the V2 branch happen exactly under their conditions, on the arguments left after the flag, and each branch ends as its resolver promises |

## Left out

- The JSON-RPC transport is replaced by the `Gateway` oracle. This covers `rpc_call` and `eth_call` (`scripts/get_token_price.py:25-42`, `88-89`): urllib network I/O, JSON and the connection-error message.
- Because the oracle is a pure function, two identical calls get the same reply. Nothing models the chain head moving between the calls made under `latest`.
- Floating point: prices are exact reals, which the Python floats approximate. This leaves out rounding, a float overflow, and a `ZeroDivisionError` when `target/10^td` underflows to 0.0 for very large decimals.
- Output: all `print` output and the `:.8f` / `:,.2f` formatting. Each exit is an outcome value instead.
- `sys.exit`: `sys.exit(0)` and `sys.exit(1)` are outcomes. Process termination itself is not modelled.
- `main()` (`scripts/get_token_price.py:263-287`) is not modelled. It times two runs with the clock, and its local `URL = RPC_URL` does not reach `rpc_call`.
- The `except ValueError: pass` around the `--block` handling is not modelled. `args.index` cannot raise there, because the guard already found the flag.
- `int()` and `lower()` on non-ASCII text: `int()` also accepts non-ASCII Unicode digits, and Python's `lower()` maps non-ASCII letters. Both are modelled on ASCII only.
- CPython's limit on the number of digits `int()` converts is not modelled.
- A `result` that is not a JSON string (a number, an object) is not modelled. The oracle returns text.
- TokenPrice.ResolveV2: requires `Token0Answered` instead of modelling the `AttributeError` from `None.lower()` when `token0()` gives no address for a pair that has reserves.
- TokenPrice.Run: requires `RunAnswered`, the same condition for the V2 branch its arguments select.
- `scripts/check_bsc_sync.py`, the file patchers and the configuration scripts of the repository are not part of this model.
