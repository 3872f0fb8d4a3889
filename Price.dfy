/** The two price rules of `scripts/get_token_price.py`, in exact real
    arithmetic: the constant-product (V2) spot price from the two reserves
    of a pair, and the concentrated-liquidity (V3) spot price from the
    pool's `sqrtPriceX96`, both adjusted for token decimals. */
module Price {
  import opened PyInt

  /** `2**96`, the fixed-point unit of `sqrtPriceX96`. */
  const Q96: nat := 0x1_0000_0000_0000_0000_0000_0000

  /** `10**e` as Python computes it: an integer for `e >= 0` and the
      reciprocal `1 / 10**-e` for a negative exponent. */
  function Pow10(e: int): (r: real)
    ensures r > 0.0
  {
    if e >= 0 then Pow(10, e) as real else 1.0 / (Pow(10, -e) as real)
  }

  /** The V2 price of one target token in base tokens: the base reserve
      over the target reserve, each in whole tokens. */
  function V2Price(targetReserve: int, baseReserve: int, targetDecimals: int, baseDecimals: int): real
    requires targetReserve != 0
  {
    (baseReserve as real / Pow10(baseDecimals)) / (targetReserve as real / Pow10(targetDecimals))
  }

  /** The V2 price is the exchange rate that balances the pool: the
      target's reserve in whole tokens at that price is worth the base's
      reserve in whole tokens. With non-negative reserves it is
      non-negative, and zero only for an empty base side. */
  lemma V2PriceBalances(t: int, b: int, td: int, bd: int)
    requires t != 0
    ensures V2Price(t, b, td, bd) * (t as real / Pow10(td)) == b as real / Pow10(bd)
    ensures t > 0 && b >= 0 ==> V2Price(t, b, td, bd) >= 0.0
    ensures t > 0 && b > 0 ==> V2Price(t, b, td, bd) > 0.0
  {
    var x := b as real / Pow10(bd);
    var y := t as real / Pow10(td);
    assert y != 0.0;
    assert (x / y) * y == x;
    if t > 0 && b >= 0 {
      assert y > 0.0 && x >= 0.0;
    }
  }

  /** With equal decimals the V2 price is the plain reserve ratio. */
  lemma V2PriceSameDecimals(t: int, b: int, d: int)
    requires t != 0
    ensures V2Price(t, b, d, d) == b as real / t as real
  {
    var k := Pow10(d);
    assert (b as real / k) / (t as real / k) == b as real / t as real;
  }

  /** A pool of one million target tokens against 500 base tokens, both
      with 18 decimals, prices the target at 0.0005 base tokens. */
  lemma V2PriceExample()
    ensures V2Price(1_000_000_000_000_000_000_000_000, 500_000_000_000_000_000_000, 18, 18) == 0.0005
  {
    V2PriceSameDecimals(1_000_000_000_000_000_000_000_000, 500_000_000_000_000_000_000, 18);
  }

  /** `(sqrtPriceX96 / 2**96) ** 2`: the price of token0 in token1, in raw
      units. */
  function RawPrice(sqrtPriceX96: int): real {
    var s := sqrtPriceX96 as real / Q96 as real;
    s * s
  }

  /** The V3 prices: token1 per token0 adjusted by `10**(d0 - d1)`, and its
      reciprocal, or 0 when the first is not positive. */
  function V3Prices(sqrtPriceX96: int, decimals0: int, decimals1: int): (r: (real, real)) {
    var p := RawPrice(sqrtPriceX96) * Pow10(decimals0 - decimals1);
    (p, if p > 0.0 then 1.0 / p else 0.0)
  }

  /** The first V3 price is the squared fixed-point root scaled by the
      decimals, it is positive for every nonzero root, and then the two
      prices are reciprocal; the second is zero exactly when the first is
      not positive. */
  lemma V3PricesReciprocal(s: int, d0: int, d1: int)
    ensures var (p, q) := V3Prices(s, d0, d1);
            && p == (s as real / Q96 as real) * (s as real / Q96 as real) * Pow10(d0 - d1)
            && (s != 0 ==> p > 0.0 && p * q == 1.0)
            && (p <= 0.0 <==> q == 0.0)
            && (s == 0 ==> p == 0.0 && q == 0.0)
  {
    var x := s as real / Q96 as real;
    var (p, q) := V3Prices(s, d0, d1);
    if s != 0 {
      assert x != 0.0;
      assert x * x > 0.0;
      assert p > 0.0;
    }
    if p > 0.0 {
      assert q == 1.0 / p;
      assert q != 0.0;
    }
  }

  /** A root of exactly `2**96` between tokens of equal decimals is a price
      of 1 in both directions. */
  lemma V3PricesUnit(d: int)
    ensures V3Prices(Q96, d, d) == (1.0, 1.0)
  {
    assert Q96 as real / Q96 as real == 1.0;
    assert Pow10(0) == 1.0;
  }
}
