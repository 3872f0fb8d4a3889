/** The command-line driver of `scripts/get_token_price.py`: the `--block`
    option is spliced out of the argument list, then either the V3 pool
    price or the V2 pair price is resolved by a sequence of queries, each
    guarded by an early exit. Printing is not modelled; each way the script
    ends is an outcome value instead. */
module TokenPrice {
  import opened Wrappers
  import opened PyStr
  import opened Codec
  import opened Query
  import opened Price

  // ---------------------------------------------------------------------
  // The `--block` option.

  /** The argument list once `--block` is handled: the remaining arguments
      and the block parameter, or the error exit for a `--block` with no
      value after it (status 1). */
  datatype BlockArgs = BlockArgs(args: seq<string>, block: string) | MissingBlockValue

  /** What handling `--block` means: without the flag the arguments stay
      and the block is `latest`; otherwise the first `--block` and the
      argument after it are cut out and that argument, through
      `format_block`, is the block. */
  function SplitBlockFlag(argv: seq<string>): BlockArgs {
    if "--block" !in argv then BlockArgs(argv, "latest")
    else
      var i := IndexOf(argv, "--block");
      if i + 1 < |argv| then BlockArgs(argv[..i] + argv[i + 2..], FormatBlock(argv[i + 1]))
      else MissingBlockValue
  }

  /** `--block` handling of `run()`: the flag's position is looked up and
      the list loses that position twice. */
  method TakeBlockFlag(argv: seq<string>) returns (r: BlockArgs)
    ensures r == SplitBlockFlag(argv)
  {
    var args := argv;
    var block := "latest";
    if "--block" in args {
      var idx := IndexOf(args, "--block");
      if idx + 1 < |args| {
        block := FormatBlock(args[idx + 1]);
        args := PopAt(args, idx);
        args := PopAt(args, idx);
        assert args == argv[..idx] + argv[idx + 2..];
      } else {
        return MissingBlockValue;
      }
    }
    return BlockArgs(args, block);
  }

  /** The flag and exactly one argument after it are removed and nothing
      else: the other arguments keep their order, and the value is the
      argument right after the first `--block`. The error exit happens
      exactly when that first `--block` is the last argument. */
  lemma SplitBlockFlagRemovesPair(argv: seq<string>)
    ensures "--block" !in argv ==> SplitBlockFlag(argv) == BlockArgs(argv, "latest")
    ensures SplitBlockFlag(argv).MissingBlockValue? <==>
            "--block" in argv && IndexOf(argv, "--block") == |argv| - 1
    ensures "--block" in argv && SplitBlockFlag(argv).BlockArgs? ==>
            var i, rest := IndexOf(argv, "--block"), SplitBlockFlag(argv).args;
            && |rest| == |argv| - 2
            && multiset(rest) + multiset{"--block", argv[i + 1]} == multiset(argv)
            && (forall k :: 0 <= k < i ==> rest[k] == argv[k])
            && (forall k :: i <= k < |rest| ==> rest[k] == argv[k + 2])
            && "--block" !in argv[..i]
            && SplitBlockFlag(argv).block == FormatBlock(argv[i + 1])
  {
    if "--block" in argv {
      var i := IndexOf(argv, "--block");
      if i + 1 < |argv| {
        var r := SplitBlockFlag(argv);
        assert r == BlockArgs(argv[..i] + argv[i + 2..], FormatBlock(argv[i + 1]));
        CutPair(argv, i, r.args);
      }
    }
  }

  /** Cutting out two neighbouring elements loses exactly those two and
      keeps the others in order. */
  lemma CutPair(xs: seq<string>, i: nat, rest: seq<string>)
    requires i + 1 < |xs| && rest == xs[..i] + xs[i + 2..]
    ensures |rest| == |xs| - 2
    ensures multiset(rest) + multiset{xs[i], xs[i + 1]} == multiset(xs)
    ensures forall k :: 0 <= k < i ==> rest[k] == xs[k]
    ensures forall k :: i <= k < |rest| ==> rest[k] == xs[k + 2]
  {
    assert xs == xs[..i] + [xs[i], xs[i + 1]] + xs[i + 2..];
    calc {
      multiset(xs);
      multiset(xs[..i]) + multiset([xs[i], xs[i + 1]]) + multiset(xs[i + 2..]);
      multiset(xs[..i] + xs[i + 2..]) + multiset{xs[i], xs[i + 1]};
    }
  }

  // ---------------------------------------------------------------------
  // V2: price of a token against a base token from the pair's reserves.

  /** How the V2 branch ends: a pair that does not exist (status 0), no
      reserves (status 1), a `ValueError` out of `int()` (a traceback,
      status 1), an empty target side (status 0), or a quote. */
  datatype V2Outcome =
    | PairNotFound
    | ReservesUnavailable(pair: string)
    | V2Raised
    | ZeroLiquidity(pair: string)
    | V2Quote(pair: string, price: real, baseSymbol: string,
              targetReserve: int, baseReserve: int,
              targetDecimals: int, baseDecimals: int)

  /** A pair the factory knows: some address that is not the zero one. */
  predicate Found(pair: Option<string>) {
    pair.Some? && pair.value != ZERO_ADDRESS
  }

  /** Whether the reserves of the pair could be read. */
  predicate HasReserves(node: Gateway, pair: string, block: string) {
    GetReserves(node, pair, block).Ok? && GetReserves(node, pair, block).value.Some?
  }

  /** `run()` calls `.lower()` on `token0()` of the pair without checking
      it for `None`: a node that found the pair and its reserves must also
      answer `token0()`, or the script fails outside any modelled path. */
  predicate Token0Answered(node: Gateway, target: string, base: string, block: string) {
    var pair := GetPair(node, target, base, block);
    Found(pair) && HasReserves(node, pair.value, block) ==> GetToken0(node, pair.value, block).Some?
  }

  const WBNB_LOWER: string := Lower(WBNB_ADDRESS)
  const USDT_LOWER: string := Lower(USDT_ADDRESS)

  /** The symbol printed next to the price names the base token. */
  predicate NamesBase(symbol: string, base: string) {
    && (base == USDT_LOWER ==> symbol == "USDT")
    && (base != USDT_LOWER && base == WBNB_LOWER ==> symbol == "BNB")
    && (base != USDT_LOWER && base != WBNB_LOWER ==> symbol == "BaseToken")
  }

  /** What the V2 branch promises. Every outcome but the quote happens
      exactly under its guard, in the order the script queries: the pair,
      its reserves, `token0()` and both decimals. In a quote the reserve of `token0` is the
      target's exactly when `token0` is the target, and the two reserves
      are the pair's two reserves in some order. A quote carries the V2
      price of the chosen reserves; `V2PriceBalances` says what it is. */
  predicate V2Sound(node: Gateway, target: string, base: string, block: string, o: V2Outcome)
    requires Token0Answered(node, target, base, block)
  {
    var pair := GetPair(node, target, base, block);
    var reserves := if pair.Some? then GetReserves(node, pair.value, block) else ValueError;
    var dt, db := GetDecimals(node, target, block), GetDecimals(node, base, block);
    && (o.PairNotFound? <==> !Found(pair))
    && (o.ReservesUnavailable? <==> Found(pair) && reserves == Ok(None))
    && (o.V2Raised? <==>
          Found(pair) && (reserves.ValueError? || (reserves.value.Some? && (dt.ValueError? || db.ValueError?))))
    && (o.ZeroLiquidity? <==>
          && Found(pair) && HasReserves(node, pair.value, block) && dt.Ok? && db.Ok?
          && var (r0, r1) := reserves.value.value;
             (if Lower(GetToken0(node, pair.value, block).value) == target then r0 else r1) == 0)
    && (o.ReservesUnavailable? || o.ZeroLiquidity? || o.V2Quote? ==> o.pair == pair.value)
    && (o.V2Quote? ==>
          && Found(pair) && HasReserves(node, pair.value, block)
          && var (r0, r1) := reserves.value.value;
             var token0 := GetToken0(node, pair.value, block).value;
             && multiset{o.targetReserve, o.baseReserve} == multiset{r0, r1}
             && (Lower(token0) == target ==> o.targetReserve == r0)
             && (Lower(token0) != target ==> o.targetReserve == r1)
             && dt == Ok(o.targetDecimals) && db == Ok(o.baseDecimals)
             && o.targetReserve != 0
             && o.price == V2Price(o.targetReserve, o.baseReserve, o.targetDecimals, o.baseDecimals)
             && NamesBase(o.baseSymbol, base))
  }

  /** Steps 1 to 5 of `run()`: find the pair, read its reserves, tell which
      reserve belongs to the target, read both decimals, and price. */
  method ResolveV2(node: Gateway, target: string, base: string, block: string) returns (o: V2Outcome)
    requires Token0Answered(node, target, base, block)
    ensures V2Sound(node, target, base, block, o)
  {
    var pair := GetPair(node, target, base, block);
    if pair.None? || pair.value == ZERO_ADDRESS {
      return PairNotFound;
    }
    var reserves := GetReserves(node, pair.value, block);
    if reserves.ValueError? {
      return V2Raised;
    }
    if reserves.value.None? {
      return ReservesUnavailable(pair.value);
    }
    var (reserve0, reserve1) := reserves.value.value;
    var token0 := GetToken0(node, pair.value, block);
    var targetReserve, baseReserve;
    if Lower(token0.value) == target {
      targetReserve, baseReserve := reserve0, reserve1;
    } else {
      targetReserve, baseReserve := reserve1, reserve0;
    }
    var targetDecimals := GetDecimals(node, target, block);
    if targetDecimals.ValueError? {
      return V2Raised;
    }
    var baseDecimals := GetDecimals(node, base, block);
    if baseDecimals.ValueError? {
      return V2Raised;
    }
    if targetReserve == 0 {
      return ZeroLiquidity(pair.value);
    }
    var price := V2Price(targetReserve, baseReserve, targetDecimals.value, baseDecimals.value);
    var baseSymbol := if base == WBNB_LOWER then "BNB" else "BaseToken";
    if base == USDT_LOWER {
      baseSymbol := "USDT";
    }
    o := V2Quote(pair.value, price, baseSymbol, targetReserve, baseReserve,
                 targetDecimals.value, baseDecimals.value);
  }

  // ---------------------------------------------------------------------
  // V3: price of a concentrated-liquidity pool from `slot0()`.

  /** How `get_v3_pool_price` ends: either token address missing, a
      `ValueError` out of `int()` (a traceback, status 1), no `slot0()`
      data, a zero root price, or the two prices. Every ending but the
      traceback returns normally. */
  datatype V3Outcome =
    | TokensUnavailable
    | V3Raised
    | SlotUnavailable
    | ZeroPrice
    | V3Quote(token0: string, token1: string, symbol0: string, symbol1: string,
              decimals0: int, decimals1: int, sqrtPriceX96: int,
              price: real, inverse: real)

  /** What `get_v3_pool_price` promises: each early ending happens exactly
      under its guard, and a quote carries the pool's tokens, their symbols
      and decimals, a nonzero root, the price of token0 in token1 as the
      V3 prices of that root (`V3PricesReciprocal` says what they are). */
  predicate V3Sound(node: Gateway, pool: string, block: string, o: V3Outcome) {
    var t0, t1 := GetToken0(node, pool, block), GetToken1(node, pool, block);
    var tokens := t0.Some? && t1.Some?;
    var d0 := if tokens then GetDecimals(node, t0.value, block) else ValueError;
    var d1 := if tokens then GetDecimals(node, t1.value, block) else ValueError;
    var slot := ReadSlot0(node, pool, block);
    var decimals := d0.Ok? && d1.Ok?;
    && (o.TokensUnavailable? <==> !tokens)
    && (o.V3Raised? <==> tokens && (!decimals || slot.ValueError?))
    && (o.SlotUnavailable? <==> tokens && decimals && slot == Ok(None))
    && (o.ZeroPrice? <==> tokens && decimals && slot == Ok(Some(0)))
    && (o.V3Quote? ==>
          && tokens && decimals
          && o.token0 == t0.value && o.token1 == t1.value
          && o.symbol0 == GetSymbol(node, t0.value, block)
          && o.symbol1 == GetSymbol(node, t1.value, block)
          && d0 == Ok(o.decimals0) && d1 == Ok(o.decimals1)
          && slot == Ok(Some(o.sqrtPriceX96)) && o.sqrtPriceX96 != 0
          && (o.price, o.inverse) == V3Prices(o.sqrtPriceX96, o.decimals0, o.decimals1))
  }

  /** `get_v3_pool_price`. */
  method V3PoolPrice(node: Gateway, pool: string, block: string) returns (o: V3Outcome)
    ensures V3Sound(node, pool, block, o)
  {
    var t0 := GetToken0(node, pool, block);
    var t1 := GetToken1(node, pool, block);
    if t0.None? || t1.None? {
      return TokensUnavailable;
    }
    var sym0 := GetSymbol(node, t0.value, block);
    var sym1 := GetSymbol(node, t1.value, block);
    var dec0 := GetDecimals(node, t0.value, block);
    if dec0.ValueError? {
      return V3Raised;
    }
    var dec1 := GetDecimals(node, t1.value, block);
    if dec1.ValueError? {
      return V3Raised;
    }
    var slot := ReadSlot0(node, pool, block);
    if slot.ValueError? {
      return V3Raised;
    }
    if slot.value.None? {
      return SlotUnavailable;
    }
    var sqrtPriceX96 := slot.value.value;
    if sqrtPriceX96 == 0 {
      return ZeroPrice;
    }
    var (price, inverse) := V3Prices(sqrtPriceX96, dec0.value, dec1.value);
    o := V3Quote(t0.value, t1.value, sym0, sym1, dec0.value, dec1.value, sqrtPriceX96, price, inverse);
  }

  // ---------------------------------------------------------------------
  // `run()`.

  /** How `run()` ends: the two usage errors and the `--block` error
      (status 1), or one of the two branches with its block parameter and
      arguments. */
  datatype RunOutcome =
    | BlockValueMissing
    | Usage
    | V3Usage
    | V3Run(block: string, pool: string, v3: V3Outcome)
    | V2Run(block: string, target: string, base: string, v2: V2Outcome)

  /** The base token: the second argument, or WBNB, lower-cased. */
  function BaseArg(args: seq<string>): (base: string)
    ensures |args| > 1 ==> base == Lower(args[1])
    ensures |args| <= 1 ==> base == WBNB_LOWER
    ensures Lower(base) == base
  {
    if |args| > 1 then LowerFolds(args[1]); Lower(args[1])
    else LowerFolds(WBNB_ADDRESS); WBNB_LOWER
  }

  /** What `run()` needs of the node: the `token0()` answer of the V2
      branch that its arguments select. */
  predicate RunAnswered(argv: seq<string>, node: Gateway) {
    match SplitBlockFlag(argv)
    case MissingBlockValue => true
    case BlockArgs(args, block) =>
      |args| >= 1 && args[0] != "--v3" ==> Token0Answered(node, Lower(args[0]), BaseArg(args), block)
  }

  /** `run()` on the arguments after the program name. */
  method Run(argv: seq<string>, node: Gateway) returns (o: RunOutcome)
    requires RunAnswered(argv, node)
    ensures o.BlockValueMissing? <==> SplitBlockFlag(argv).MissingBlockValue?
    ensures SplitBlockFlag(argv).BlockArgs? ==>
            var (args, block) := (SplitBlockFlag(argv).args, SplitBlockFlag(argv).block);
            && (o.Usage? <==> |args| == 0)
            && (o.V3Usage? <==> |args| == 1 && args[0] == "--v3")
            && (o.V3Run? <==> |args| >= 2 && args[0] == "--v3")
            && (o.V3Run? ==> o.block == block && o.pool == args[1] && V3Sound(node, args[1], block, o.v3))
            && (o.V2Run? <==> |args| >= 1 && args[0] != "--v3")
            && (o.V2Run? ==>
                  && o.block == block && o.target == Lower(args[0]) && o.base == BaseArg(args)
                  && Token0Answered(node, o.target, o.base, block)
                  && V2Sound(node, o.target, o.base, block, o.v2))
  {
    var flag := TakeBlockFlag(argv);
    if flag.MissingBlockValue? {
      return BlockValueMissing;
    }
    var args, block := flag.args, flag.block;
    if |args| < 1 {
      return Usage;
    }
    if args[0] == "--v3" {
      if |args| < 2 {
        return V3Usage;
      }
      var v3 := V3PoolPrice(node, args[1], block);
      return V3Run(block, args[1], v3);
    }
    var target := Lower(args[0]);
    var base := if |args| > 1 then Lower(args[1]) else WBNB_LOWER;
    var v2 := ResolveV2(node, target, base, block);
    return V2Run(block, target, base, v2);
  }
}
