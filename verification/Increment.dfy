/** The minimum increment a bid must clear, and how fast prices therefore grow. */
module Increment {

  /** The bid configuration: a percentage of the current price with an absolute floor, both from the environment. */
  datatype BidConfigRaw = BidConfig(percent: real, floor: real)

  /** Configurations whose increments are positive. */
  type BidConfig = c: BidConfigRaw | c.percent >= 0.0 && c.floor > 0.0 witness BidConfig(1.0, 0.01)

  /** The highest starting price an auction, and the highest amount a bid may have. */
  const PRICE_MAX := 999_999_999

  function Ceil(x: real): (n: int)
    ensures x <= n as real < x + 1.0
  {
    -((-x).Floor)
  }

  function Share(price: int, percent: real): real {
    price as real * percent
  }

  /** A hundredth of `share`, rounded up and at least `floor`. */
  function Clamped(share: real, floor: real): (increment: real)
    ensures increment >= floor && 100.0 * increment >= share
  {
    var computed := Ceil(share / 100.0) as real;
    if computed > floor then computed else floor
  }

  function CalcMinIncrement(price: int, config: BidConfig): real {
    if price <= 0 then config.floor else Clamped(Share(price, config.percent), config.floor)
  }

  predicate Whole(x: real) {
    x.Floor as real == x
  }

  /** What an increment at a price must reach: the floor and the percentage. */
  predicate Suffices(x: real, price: int, config: BidConfig) {
    x >= config.floor && (price > 0 ==> 100.0 * x >= price as real * config.percent)
  }

  /**
   The increment is the floor where there is no price yet, or where a whole number up to the floor
   reaches the percentage. Otherwise it is the whole number above the floor that reaches the percentage
   while one less does not.
   */
  lemma IncrementExactly(price: int, config: BidConfig)
    ensures var increment, share := CalcMinIncrement(price, config), price as real * config.percent;
            && Suffices(increment, price, config)
            && (increment == config.floor <==> price <= 0 || share <= 100.0 * config.floor.Floor as real)
            && (increment != config.floor ==>
                  Whole(increment) && increment > config.floor && 100.0 * (increment - 1.0) < share)
  {
    var share := Share(price, config.percent);
    var computed := Ceil(share / 100.0);
    assert computed as real <= config.floor <==> computed <= config.floor.Floor;
    assert computed <= config.floor.Floor <==> share / 100.0 <= config.floor.Floor as real;
  }

  /** No smaller whole number suffices. */
  lemma IncrementIsLeast(price: int, config: BidConfig, n: int)
    requires Suffices(n as real, price, config)
    ensures CalcMinIncrement(price, config) <= n as real
  {
    IncrementExactly(price, config);
    var increment := CalcMinIncrement(price, config);
    if increment != config.floor { LeastWhole(increment.Floor, n, price as real * config.percent); }
  }

  lemma LeastWhole(m: int, n: int, share: real)
    requires 100.0 * (m as real - 1.0) < share <= 100.0 * n as real
    ensures m as real <= n as real
  {
    assert (m - n) as real < 1.0;
  }

  /**
   The floor itself can suffice and yet be passed over, exactly when the percentage lies between the
   whole number below the floor and the floor: never when the floor is whole.
   */
  lemma FloorPassedOverExactly(price: int, config: BidConfig)
    ensures Suffices(config.floor, price, config) && CalcMinIncrement(price, config) > config.floor <==>
              && price > 0
              && 100.0 * config.floor.Floor as real < price as real * config.percent <= 100.0 * config.floor
    ensures Whole(config.floor) && Suffices(config.floor, price, config) ==> CalcMinIncrement(price, config) == config.floor
  {
    IncrementExactly(price, config);
  }

  /** A higher price never asks for a smaller increment, and every increment is positive. */
  lemma IncrementMonotone(p: int, q: int, config: BidConfig)
    requires p <= q
    ensures 0.0 < CalcMinIncrement(p, config) <= CalcMinIncrement(q, config)
  {
    if 0 < p {
      MulMonotone(p as real, q as real, config.percent);
      ClampedMonotone(Share(p, config.percent), Share(q, config.percent), config.floor);
    }
  }

  lemma MulMonotone(x: real, y: real, c: real)
    requires x <= y && 0.0 <= c
    ensures x * c <= y * c
  {
  }

  lemma ClampedMonotone(x: real, y: real, floor: real)
    requires x <= y
    ensures Clamped(x, floor) <= Clamped(y, floor)
  {
    CeilMonotone(x / 100.0, y / 100.0);
  }

  lemma CeilMonotone(x: real, y: real)
    requires x <= y
    ensures Ceil(x) as real <= Ceil(y) as real
  {
    FloorMonotone(-y, -x);
    AsRealMonotone(Ceil(x), Ceil(y));
  }

  lemma FloorMonotone(x: real, y: real)
    requires x <= y
    ensures x.Floor <= y.Floor
  {
  }

  lemma AsRealMonotone(a: int, b: int)
    requires a <= b
    ensures a as real <= b as real
  {
  }

  /** An accepted bid is at least (1 + percent/100) times the price it beats. */
  lemma BidMultiplies(p: int, q: int, config: BidConfig)
    requires p > 0 && q as real >= p as real + CalcMinIncrement(p, config)
    ensures q > 0 && 100.0 * q as real >= p as real * (100.0 + config.percent)
  {
    IncrementMonotone(p, p, config);
    Distribute(p as real, config.percent);
  }

  lemma Distribute(x: real, c: real)
    ensures x * (100.0 + c) == 100.0 * x + x * c
  {
  }

  function Pow(base: real, n: nat): (p: real)
    ensures base >= 0.0 ==> p >= 0.0
    ensures base >= 1.0 ==> p >= 1.0
  {
    if n == 0 then 1.0 else PowStep(base, Pow(base, n - 1)); base * Pow(base, n - 1)
  }

  lemma PowStep(base: real, p: real)
    ensures base >= 0.0 && p >= 0.0 ==> base * p >= 0.0
    ensures base >= 1.0 && p >= 1.0 ==> base * p >= 1.0
  {
    if base >= 1.0 && p >= 1.0 { MulMonotone(1.0, base, p); }
  }

  /** A list of prices in which each one clears its predecessor by the increment due at that predecessor. */
  predicate FreshChain(prices: seq<int>, config: BidConfig) {
    var n := |prices| - 1;
    n >= 1 ==>
      FreshChain(prices[..n], config) && prices[n] as real >= prices[n - 1] as real + CalcMinIncrement(prices[n - 1], config)
  }

  /** Compound growth after n bids: the price is at least (1 + percent/100)^n times where it started. */
  predicate Grown(n: nat, start: int, price: int, percent: real) {
    Pow(100.0, n) * price as real >= Pow(100.0 + percent, n) * start as real
  }

  /** n accepted bids multiply a positive price by at least (1 + percent/100)^n. */
  lemma {:induction false} CompoundGrowth(prices: seq<int>, config: BidConfig)
    requires |prices| > 0 && prices[0] > 0 && FreshChain(prices, config)
    ensures prices[|prices| - 1] > 0
    ensures Grown(|prices| - 1, prices[0], prices[|prices| - 1], config.percent)
  {
    var n := |prices| - 1;
    if n == 0 {
      GrownAtZero(prices[0], config.percent);
    } else {
      CompoundGrowth(prices[..n], config);
      assert prices[..n][0] == prices[0] && prices[..n][n - 1] == prices[n - 1];
      GrownByBid(n - 1, prices[0], prices[n - 1], prices[n], config);
    }
  }

  lemma GrownByBid(n: nat, start: int, p: int, q: int, config: BidConfig)
    requires p > 0 && Grown(n, start, p, config.percent)
    requires q as real >= p as real + CalcMinIncrement(p, config)
    ensures q > 0 && Grown(n + 1, start, q, config.percent)
  {
    BidMultiplies(p, q, config);
    GrownStep(n, start, p, q, config.percent);
  }

  lemma GrownAtZero(price: int, percent: real)
    ensures Grown(0, price, price, percent)
  {
  }

  lemma GrownStep(n: nat, start: int, p: int, q: int, percent: real)
    requires percent >= 0.0 && Grown(n, start, p, percent)
    requires 100.0 * q as real >= p as real * (100.0 + percent)
    ensures Grown(n + 1, start, q, percent)
  {
    GrowthStep(Pow(100.0, n), Pow(100.0 + percent, n), p as real, q as real, start as real, percent);
  }

  lemma GrowthStep(a: real, b: real, p: real, q: real, start: real, percent: real)
    requires a > 0.0 && percent >= 0.0
    requires a * p >= b * start
    requires 100.0 * q >= p * (100.0 + percent)
    ensures (100.0 * a) * q >= ((100.0 + percent) * b) * start
  {
    var grown := p * (100.0 + percent);
    MulMonotone(grown, 100.0 * q, a);
    MulMonotone(b * start, a * p, 100.0 + percent);
    assert grown * a == (a * p) * (100.0 + percent);
    assert (b * start) * (100.0 + percent) == ((100.0 + percent) * b) * start;
    assert (100.0 * q) * a == (100.0 * a) * q;
  }

  /** So the number of bids under the price cap is bounded: (1 + percent/100)^n cannot exceed the cap. */
  lemma BidCountBounded(prices: seq<int>, config: BidConfig)
    requires |prices| > 0 && prices[0] >= 1 && FreshChain(prices, config)
    requires prices[|prices| - 1] <= PRICE_MAX
    ensures Pow(100.0 + config.percent, |prices| - 1) <= Pow(100.0, |prices| - 1) * PRICE_MAX as real
  {
    var n := |prices| - 1;
    CompoundGrowth(prices, config);
    GrownCapped(n, prices[0], prices[n], config.percent);
  }

  lemma GrownCapped(n: nat, start: int, price: int, percent: real)
    requires percent >= 0.0 && Grown(n, start, price, percent)
    requires start >= 1 && price <= PRICE_MAX
    ensures Pow(100.0 + percent, n) <= Pow(100.0, n) * PRICE_MAX as real
  {
    Capped(Pow(100.0, n), Pow(100.0 + percent, n), start as real, price as real, PRICE_MAX as real);
  }

  lemma Capped(a: real, b: real, start: real, price: real, cap: real)
    requires a >= 0.0 && b >= 0.0 && start >= 1.0 && price <= cap
    requires a * price >= b * start
    ensures b <= a * cap
  {
    MulMonotone(1.0, start, b);
    MulMonotone(price, cap, a);
    assert b * start == start * b && a * price == price * a && a * cap == cap * a;
  }
}
