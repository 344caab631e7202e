/** The floored constant-product curve and the fee model, over whole sequences of trades. */
module Curve {
  import opened Wrappers
  import opened Arith

  /** Python's ValueError for non-positive reserves or amounts. */
  datatype CurveError = ReservesNotPositive | AmountNotPositive

  /** Virtual reserves: lamports and token base units. */
  datatype Pool = Pool(s: int, t: int) {
    predicate Positive() {
      0 < s && 0 < t
    }

    function Product(): int {
      s * t
    }

    function Swapped(): Pool {
      Pool(t, s)
    }
  }

  function BuyOut(p: Pool, x: int): Result<int, CurveError> {
    if !p.Positive() then Err(ReservesNotPositive)
    else if x <= 0 then Err(AmountNotPositive)
    else Ok(p.t * x / (p.s + x))
  }

  function SellOut(p: Pool, units: int): Result<int, CurveError> {
    if !p.Positive() then Err(ReservesNotPositive)
    else if units <= 0 then Err(AmountNotPositive)
    else Ok(p.s * units / (p.t + units))
  }

  function PostBuy(p: Pool, x: int): Result<Pool, CurveError> {
    match BuyOut(p, x)
    case Err(e) => Err(e)
    case Ok(out) => Ok(Pool(p.s + x, p.t - out))
  }

  function PostSell(p: Pool, units: int): Result<Pool, CurveError> {
    match SellOut(p, units)
    case Err(e) => Err(e)
    case Ok(out) => Ok(Pool(p.s - out, p.t + units))
  }

  /** A sale is a purchase on the pool seen from the other side. */
  lemma SellIsBuySwapped(p: Pool, units: int)
    ensures SellOut(p, units) == BuyOut(p.Swapped(), units)
    ensures PostSell(p, units).Ok? == PostBuy(p.Swapped(), units).Ok?
    ensures PostSell(p, units).Ok? ==> PostSell(p, units).value == PostBuy(p.Swapped(), units).value.Swapped()
  {
  }

  /** The floor keeps the product from falling and lets it rise by less than the new lamport reserve. */
  lemma BuyKeepsProduct(p: Pool, x: int)
    requires p.Positive() && 0 < x
    ensures
      var q := PostBuy(p, x).value;
      && PostBuy(p, x).Ok?
      && q.Positive() && q.s == p.s + x && q.t <= p.t
      && p.Product() <= q.Product() < p.Product() + q.s
  {
    var s', out := p.s + x, BuyOut(p, x).value;
    FloorBounds(p.t * x, s');
    assert s' * (p.t - out) == p.s * p.t + p.t * x - s' * out;
    ProductMonotone(1, p.s, p.t);
    if p.t - out <= 0 {
      ProductMonotone(p.t - out, 0, s');
    }
    FloorMonotone(0, p.t * x, s') by {
      ProductMonotone(0, x, p.t);
    }
    FloorIs(0, s', 0);
  }

  // ---------------------------------------------------------------- splitting one trade

  function Total(xs: seq<int>): int
    decreases |xs|
  {
    if xs == [] then 0 else xs[0] + Total(xs[1..])
  }

  predicate AllPositive(xs: seq<int>) {
    forall i | 0 <= i < |xs| :: 0 < xs[i]
  }

  function Buys(p: Pool, xs: seq<int>): Result<Pool, CurveError>
    decreases |xs|
  {
    if xs == [] then Ok(p)
    else
      match PostBuy(p, xs[0])
      case Err(e) => Err(e)
      case Ok(q) => Buys(q, xs[1..])
  }

  function Sells(p: Pool, units: seq<int>): Result<Pool, CurveError>
    decreases |units|
  {
    if units == [] then Ok(p)
    else
      match PostSell(p, units[0])
      case Err(e) => Err(e)
      case Ok(q) => Sells(q, units[1..])
  }

  lemma {:induction false} TotalPositive(xs: seq<int>)
    requires AllPositive(xs)
    ensures 0 <= Total(xs) && (xs != [] ==> xs[0] <= Total(xs))
    decreases |xs|
  {
    if xs != [] {
      TotalPositive(xs[1..]);
    }
  }

  /** Each of n buys rounds the product up by at most the final lamport reserve less one. */
  lemma {:induction false} BuysBoundProduct(p: Pool, xs: seq<int>)
    requires p.Positive() && AllPositive(xs)
    ensures Buys(p, xs).Ok?
    ensures
      var q := Buys(p, xs).value;
      && q.Positive() && q.s == p.s + Total(xs)
      && p.Product() <= q.Product() <= p.Product() + |xs| * (q.s - 1)
    decreases |xs|
  {
    if xs != [] {
      var mid := PostBuy(p, xs[0]).value;
      BuyKeepsProduct(p, xs[0]);
      BuysBoundProduct(mid, xs[1..]);
      TotalPositive(xs[1..]);
      var q := Buys(p, xs).value;
      assert q.Product() <= p.Product() + (q.s - 1) + (|xs| - 1) * (q.s - 1);
    } else {
      assert 0 * (p.s - 1) == 0;
    }
  }

  /**
   Splitting a buy: n consecutive buys of a total never yield more tokens than one buy of that total,
   and fall short of it by at most n - 1 base units.
   */
  lemma SplitBuy(p: Pool, xs: seq<int>)
    requires p.Positive() && AllPositive(xs) && xs != []
    ensures Buys(p, xs).Ok? && BuyOut(p, Total(xs)).Ok?
    ensures
      var split, single := p.t - Buys(p, xs).value.t, BuyOut(p, Total(xs)).value;
      single - (|xs| - 1) <= split <= single
  {
    TotalPositive(xs);
    BuysBoundProduct(p, xs);
    BuyKeepsProduct(p, Total(xs));
    var many, one := Buys(p, xs).value, PostBuy(p, Total(xs)).value;
    LeftoverWithin(many.s, p.Product(), one.t, many.t, |xs|);
  }

  /** Two leftovers over one divisor, each rounded up from the same product once or n times. */
  lemma LeftoverWithin(d: int, product: int, once: int, often: int, n: int)
    requires 0 < d && 1 <= n
    requires product <= d * once < product + d
    requires product <= d * often <= product + n * (d - 1)
    ensures once <= often <= once + n - 1
  {
    var up, down := once - often, often - once - n + 1;
    assert d * up == d * once - d * often;
    FactorPositive(d, up);
    assert n * (d - 1) == d * n - n;
    assert d * down == d * often - d * once - d * n + d;
    FactorPositive(d, down);
  }

  lemma {:induction false} SellsAreBuysSwapped(p: Pool, units: seq<int>)
    ensures Sells(p, units).Ok? == Buys(p.Swapped(), units).Ok?
    ensures Sells(p, units).Ok? ==> Sells(p, units).value == Buys(p.Swapped(), units).value.Swapped()
    decreases |units|
  {
    if units != [] {
      SellIsBuySwapped(p, units[0]);
      if PostSell(p, units[0]).Ok? {
        SellsAreBuysSwapped(PostSell(p, units[0]).value, units[1..]);
      }
    }
  }

  /** The same for sales, in lamports. */
  lemma SplitSell(p: Pool, units: seq<int>)
    requires p.Positive() && AllPositive(units) && units != []
    ensures Sells(p, units).Ok? && SellOut(p, Total(units)).Ok?
    ensures
      var split, single := p.s - Sells(p, units).value.s, SellOut(p, Total(units)).value;
      single - (|units| - 1) <= split <= single
  {
    SplitBuy(p.Swapped(), units);
    SellsAreBuysSwapped(p, units);
    SellIsBuySwapped(p, Total(units));
  }

  // ---------------------------------------------------------------- whole runs without fees

  datatype Trade = Buy(lamports: int) | Sell(units: int)

  function Post(p: Pool, trade: Trade): Result<Pool, CurveError> {
    match trade
    case Buy(x) => PostBuy(p, x)
    case Sell(units) => PostSell(p, units)
  }

  function Trades(p: Pool, trades: seq<Trade>): Result<Pool, CurveError>
    decreases |trades|
  {
    if trades == [] then Ok(p)
    else
      match Post(p, trades[0])
      case Err(e) => Err(e)
      case Ok(q) => Trades(q, trades[1..])
  }

  predicate AmountPositive(trade: Trade) {
    match trade
    case Buy(x) => 0 < x
    case Sell(units) => 0 < units
  }

  /** A trade on positive reserves is refused exactly when its amount is not positive. */
  lemma TradeKeepsProduct(p: Pool, trade: Trade)
    requires p.Positive()
    ensures Post(p, trade).Ok? <==> AmountPositive(trade)
    ensures Post(p, trade).Ok? ==> Post(p, trade).value.Positive() && p.Product() <= Post(p, trade).value.Product()
  {
    match trade
    case Buy(x) =>
      if 0 < x {
        BuyKeepsProduct(p, x);
      }
    case Sell(units) =>
      SellIsBuySwapped(p, units);
      if 0 < units {
        BuyKeepsProduct(p.Swapped(), units);
      }
  }

  lemma {:induction false} RunKeepsProduct(p: Pool, trades: seq<Trade>)
    requires p.Positive()
    ensures Trades(p, trades).Ok? <==> forall i | 0 <= i < |trades| :: AmountPositive(trades[i])
    ensures Trades(p, trades).Ok? ==>
              Trades(p, trades).value.Positive() && p.Product() <= Trades(p, trades).value.Product()
    decreases |trades|
  {
    if trades != [] {
      TradeKeepsProduct(p, trades[0]);
      if Post(p, trades[0]).Ok? {
        RunKeepsProduct(Post(p, trades[0]).value, trades[1..]);
      }
      assert forall i | 1 <= i < |trades| :: trades[i] == trades[1..][i - 1];
      assert forall i | 0 <= i < |trades| - 1 :: trades[1..][i] == trades[i + 1];
    }
  }

  /** Two positive pools with ordered products cannot both have fallen. */
  lemma ProductDominates(p: Pool, q: Pool)
    requires p.Positive() && q.Positive() && p.Product() <= q.Product()
    ensures q.t <= p.t ==> p.s <= q.s
    ensures q.s <= p.s ==> p.t <= q.t
  {
    if q.t <= p.t && q.s < p.s {
      SmallerProduct(q.s, p.s, q.t, p.t);
    }
    if q.s <= p.s && q.t < p.t {
      SmallerProduct(q.t, p.t, q.s, p.s);
    }
  }

  lemma SmallerProduct(a: int, b: int, c: int, d: int)
    requires 0 < a < b && 0 < c <= d
    ensures a * c < b * d && c * a < d * b
  {
    ProductMonotone(c, d, a);
    ProductMonotone(a + 1, b, d);
  }

  /** No arbitrage: whoever ends a run with at least the starting tokens has gained no lamports. */
  lemma NoFreeLamports(p: Pool, trades: seq<Trade>)
    requires p.Positive() && Trades(p, trades).Ok?
    ensures
      var q := Trades(p, trades).value;
      && (p.t - q.t >= 0 ==> p.s - q.s <= 0)
      && (p.s - q.s >= 0 ==> p.t - q.t <= 0)
  {
    RunKeepsProduct(p, trades);
    ProductDominates(p, Trades(p, trades).value);
  }

  // ---------------------------------------------------------------- fees

  datatype FeeModel = FeeModel(venueFeeBps: int, baseFee: int, computeUnits: int, microLamportsPerCu: int) {
    function VenueFee(size: int): int {
      size * venueFeeBps / 10_000
    }

    function PriorityFee(): int {
      microLamportsPerCu * computeUnits / 1_000_000
    }

    function NetworkCost(): int {
      baseFee + PriorityFee()
    }

    function BuyNet(filled: int): int {
      filled - VenueFee(filled)
    }

    function BuyDebit(filled: int): int {
      filled + NetworkCost()
    }

    function SellProceeds(gross: int): int {
      gross - VenueFee(gross) - NetworkCost()
    }
  }

  const DEFAULT_FEES := FeeModel(100, 5_000, 200_000, 20_000)

  /** Between 0 and 10000 basis points the fee never exceeds the size it is taken from. */
  lemma VenueFeeWithin(fees: FeeModel, size: int)
    requires 0 <= fees.venueFeeBps && 0 <= size
    ensures 0 <= fees.VenueFee(size)
    ensures fees.venueFeeBps <= 10_000 ==> fees.VenueFee(size) <= size && 0 <= fees.BuyNet(size) <= size
  {
    ProductMonotone(0, size, fees.venueFeeBps);
    FloorMonotone(0, size * fees.venueFeeBps, 10_000);
    if fees.venueFeeBps <= 10_000 {
      SliceWithin(size, fees.venueFeeBps, 10_000);
    }
  }

  /** `q` is the floor of n over d. */
  predicate IsFloor(q: int, n: int, d: int) {
    d * q <= n < d * q + d
  }

  /** The fees as they are charged: basis points of the size and micro-lamports a compute unit, both floored. */
  lemma FeesExactly(fees: FeeModel, size: int)
    ensures IsFloor(fees.VenueFee(size), size * fees.venueFeeBps, 10_000)
    ensures IsFloor(fees.NetworkCost() - fees.baseFee, fees.microLamportsPerCu * fees.computeUnits, 1_000_000)
  {
    FloorBounds(size * fees.venueFeeBps, 10_000);
    FloorBounds(fees.microLamportsPerCu * fees.computeUnits, 1_000_000);
  }

  /** The shipped model: one percent to the venue, floored, and 9000 lamports to land a transaction. */
  lemma ShippedFees(size: int)
    ensures IsFloor(DEFAULT_FEES.VenueFee(size), size, 100) && DEFAULT_FEES.NetworkCost() == 9_000
  {
    FloorBounds(size * 100, 10_000);
  }

  /** A trader on a pool: cash, tokens, and the venue fees handed over so far. */
  datatype Desk = Desk(pool: Pool, cash: int, tokens: int, venueFees: int)

  datatype Order = BuyFor(filled: int) | SellUnits(units: int)

  /** One fill: the venue fee comes off what enters or leaves the curve, the network cost off cash. */
  function Fill(fees: FeeModel, d: Desk, order: Order): Result<Desk, CurveError> {
    match order
    case BuyFor(filled) =>
      (match BuyOut(d.pool, fees.BuyNet(filled))
       case Err(e) => Err(e)
       case Ok(out) =>
         Ok(Desk(PostBuy(d.pool, fees.BuyNet(filled)).value,
                 d.cash - fees.BuyDebit(filled), d.tokens + out, d.venueFees + fees.VenueFee(filled))))
    case SellUnits(units) =>
      (match SellOut(d.pool, units)
       case Err(e) => Err(e)
       case Ok(gross) =>
         Ok(Desk(PostSell(d.pool, units).value,
                 d.cash + fees.SellProceeds(gross), d.tokens - units, d.venueFees + fees.VenueFee(gross))))
  }

  function Fills(fees: FeeModel, d: Desk, orders: seq<Order>): Result<Desk, CurveError>
    decreases |orders|
  {
    if orders == [] then Ok(d)
    else
      match Fill(fees, d, orders[0])
      case Err(e) => Err(e)
      case Ok(next) => Fills(fees, next, orders[1..])
  }

  /** One fill conserves tokens and, network cost apart, lamports between trader, pool and venue. */
  lemma FillConserves(fees: FeeModel, d: Desk, order: Order)
    requires d.pool.Positive() && 0 <= fees.venueFeeBps && Fill(fees, d, order).Ok?
    requires order.BuyFor? ==> 0 <= order.filled
    ensures
      var next := Fill(fees, d, order).value;
      && next.pool.Positive() && d.pool.Product() <= next.pool.Product()
      && next.tokens + next.pool.t == d.tokens + d.pool.t
      && next.cash + next.pool.s + next.venueFees == d.cash + d.pool.s + d.venueFees - fees.NetworkCost()
      && d.venueFees <= next.venueFees
  {
    match order
    case BuyFor(filled) =>
      BuyKeepsProduct(d.pool, fees.BuyNet(filled));
      VenueFeeWithin(fees, filled);
    case SellUnits(units) =>
      SellIsBuySwapped(d.pool, units);
      BuyKeepsProduct(d.pool.Swapped(), units);
      var gross := SellOut(d.pool, units).value;
      assert 0 <= gross;
      VenueFeeWithin(fees, gross);
  }

  /**
   A buy, in what it moves: the venue keeps its floored share of the size and the curve gets the rest, cash
   pays the size and the network cost, and the tokens are the floor of the curve's formula.
   */
  lemma BuyMovesExactly(fees: FeeModel, d: Desk, filled: int)
    requires Fill(fees, d, BuyFor(filled)).Ok?
    ensures
      var next := Fill(fees, d, BuyFor(filled)).value;
      var fee, bought := next.venueFees - d.venueFees, next.tokens - d.tokens;
      && IsFloor(fee, filled * fees.venueFeeBps, 10_000)
      && next.pool.s == d.pool.s + filled - fee && next.pool.t == d.pool.t - bought
      && IsFloor(d.cash - next.cash - filled - fees.baseFee, fees.microLamportsPerCu * fees.computeUnits, 1_000_000)
      && IsFloor(bought, d.pool.t * (filled - fee), next.pool.s)
  {
    FeesExactly(fees, filled);
    FloorBounds(d.pool.t * fees.BuyNet(filled), d.pool.s + fees.BuyNet(filled));
  }

  /** A sale: the pool pays out the floor of its formula, and the fee and the network cost come off that. */
  lemma SaleMovesExactly(fees: FeeModel, d: Desk, units: int)
    requires Fill(fees, d, SellUnits(units)).Ok?
    ensures
      var next := Fill(fees, d, SellUnits(units)).value;
      var fee, gross := next.venueFees - d.venueFees, d.pool.s - next.pool.s;
      && IsFloor(gross, d.pool.s * units, next.pool.t)
      && next.tokens == d.tokens - units && next.pool.t == d.pool.t + units
      && IsFloor(fee, gross * fees.venueFeeBps, 10_000)
      && IsFloor(d.cash + gross - fee - next.cash - fees.baseFee,
                 fees.microLamportsPerCu * fees.computeUnits, 1_000_000)
  {
    FloorBounds(d.pool.s * units, d.pool.t + units);
    FeesExactly(fees, d.pool.s - Fill(fees, d, SellUnits(units)).value.pool.s);
  }

  /** A fill is refused for a reserve that is not positive, and after that for an amount that is not. */
  lemma FillRefusedExactly(fees: FeeModel, d: Desk, order: Order)
    ensures Fill(fees, d, order) == Err(ReservesNotPositive) <==> d.pool.s <= 0 || d.pool.t <= 0
    ensures Fill(fees, d, order) == Err(AmountNotPositive)
            <==> 0 < d.pool.s && 0 < d.pool.t
                 && match order
                    case BuyFor(filled) => filled - fees.VenueFee(filled) <= 0
                    case SellUnits(units) => units <= 0
  {
  }

  /** A buy is never asked to fill a negative size. */
  predicate SizesOk(orders: seq<Order>) {
    forall i | 0 <= i < |orders| :: orders[i].BuyFor? ==> 0 <= orders[i].filled
  }

  lemma {:induction false} FillsConserve(fees: FeeModel, d: Desk, orders: seq<Order>)
    requires d.pool.Positive() && 0 <= fees.venueFeeBps && SizesOk(orders) && Fills(fees, d, orders).Ok?
    ensures
      var end := Fills(fees, d, orders).value;
      && end.pool.Positive() && d.pool.Product() <= end.pool.Product()
      && end.tokens + end.pool.t == d.tokens + d.pool.t
      && end.cash + end.pool.s + end.venueFees
         == d.cash + d.pool.s + d.venueFees - |orders| * fees.NetworkCost()
      && d.venueFees <= end.venueFees
    decreases |orders|
  {
    if orders != [] {
      FillConserves(fees, d, orders[0]);
      FillsConserve(fees, Fill(fees, d, orders[0]).value, orders[1..]);
      assert |orders| * fees.NetworkCost() == fees.NetworkCost() + (|orders| - 1) * fees.NetworkCost();
    }
  }

  /**
   With fees, a run of m fills that ends with at least the starting tokens has cost at least m network
   costs and every venue fee charged on the way.
   */
  lemma EveryRunPaysItsCosts(fees: FeeModel, d: Desk, orders: seq<Order>)
    requires d.pool.Positive() && 0 <= fees.venueFeeBps && SizesOk(orders) && Fills(fees, d, orders).Ok?
    requires Fills(fees, d, orders).value.tokens >= d.tokens
    ensures
      var end := Fills(fees, d, orders).value;
      && end.cash <= d.cash - |orders| * fees.NetworkCost() - (end.venueFees - d.venueFees)
      && end.cash <= d.cash - |orders| * fees.NetworkCost()
  {
    FillsConserve(fees, d, orders);
    ProductDominates(d.pool, Fills(fees, d, orders).value.pool);
  }

  /** The shipped fees: 9000 lamports a transaction, so a round trip from flat loses at least 18000. */
  lemma DefaultRoundTripLoses(d: Desk, filled: int)
    requires d.pool.Positive() && 0 < filled
    requires Fill(DEFAULT_FEES, d, BuyFor(filled)).Ok?
    requires Fill(DEFAULT_FEES, d, BuyFor(filled)).value.tokens > d.tokens
    ensures
      var bought := Fill(DEFAULT_FEES, d, BuyFor(filled)).value;
      var sold := Fill(DEFAULT_FEES, bought, SellUnits(bought.tokens - d.tokens));
      sold.Ok? && sold.value.tokens == d.tokens && sold.value.cash <= d.cash - 18_000
  {
    var bought := Fill(DEFAULT_FEES, d, BuyFor(filled)).value;
    var sale := SellUnits(bought.tokens - d.tokens);
    FillConserves(DEFAULT_FEES, d, BuyFor(filled));
    var orders := [BuyFor(filled), sale];
    assert orders[1..] == [sale] && orders[1..][1..] == [];
    assert Fills(DEFAULT_FEES, d, orders) == Fills(DEFAULT_FEES, bought, [sale]);
    assert Fills(DEFAULT_FEES, bought, [sale]) == Fill(DEFAULT_FEES, bought, sale);
    EveryRunPaysItsCosts(DEFAULT_FEES, d, orders);
  }
}
