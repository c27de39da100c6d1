/**
 Money in binary64. Each operation on `number` computes the exact result and rounds it to a double,
 which section 4 of IEEE 754-2019 bounds by 2^-53 of the result (or, below the normal range, by far
 less than the 10^-30 allowed here). That is all `IsRounding` assumes, so the statements hold of any
 arithmetic that accurate, for amounts up to ten billion, the range of a Decimal(12, 2) column.
 `IsMonotone` adds that rounding keeps order, which is enough for some statements without a bound.
 */
module MoneyRounding {
  import opened Money
  import opened MoneyCents

  /** Ten billion, in cents. */
  const TOP: int := 1_000_000_000_000

  predicate Close(x: real, y: real, e: real) { y - e <= x <= y + e }

  /** `fl(x)` is as close to `x` as binary64 promises. */
  ghost predicate Accurate(fl: Rounding, x: real) {
    && fl(x).Finite?
    && Close(fl(x).v, x, Abs(x) / 9007199254740992.0 + 0.000000000000000000000000000001)
  }

  ghost predicate IsRounding(fl: Rounding) {
    && fl(0.0) == Finite(0.0)
    && forall x: real :: Abs(x) <= 1000000000000000.0 ==> Accurate(fl, x)
  }

  /** What one rounding of a number of size at most `b` can do. */
  function Ulp(b: real): real { b / 9007199254740992.0 + 0.000000000000000000000000000001 }

  lemma Rounds(fl: Rounding, x: real, b: real)
    requires IsRounding(fl) && Abs(x) <= b <= 1000000000000000.0
    ensures fl(x).Finite? && Close(fl(x).v, x, Ulp(b))
  {
    assert Accurate(fl, x);
  }

  /** The float nearest to `n` cents is within a ten-thousandth of a cent of it. */
  lemma CentsFloat(fl: Rounding, n: int)
    requires IsRounding(fl) && -TOP <= n <= TOP
    ensures fl(n as real / 100.0).Finite?
    ensures Close(fl(n as real / 100.0).v, n as real / 100.0, 0.0000012)
    ensures n < 0 ==> fl(n as real / 100.0).v < 0.0
    ensures n >= 0 ==> fl(n as real / 100.0).v >= 0.0
  {
    var x := n as real / 100.0;
    Rounds(fl, x, 10000000000.0);
    if n > 0 {
      Rounds(fl, x, x);
    } else if n < 0 {
      Rounds(fl, x, -x);
    }
  }

  lemma CreateOf(fl: Rounding, n: int, c: string)
    requires IsRounding(fl) && -TOP <= n <= TOP && c in CURRENCIES
    ensures New(fl(n as real / 100.0), c) == if n < 0 then Err(NegativeAmount) else Ok(OfCents(fl, n, c))
  {
    CentsFloat(fl, n);
  }

  /** `create` recovers the cents of any amount that lies within 0.00045 cents of them. */
  lemma CreateNear(fl: Rounding, x: real, n: int, c: string)
    requires IsRounding(fl) && -TOP <= n <= TOP && c in CURRENCIES
    requires Close(x, n as real / 100.0, 0.0000045)
    ensures CentsOf(fl, Finite(x)) == Finite(n as real)
    ensures Create(fl, Finite(x), c) == if n < 0 then Err(NegativeAmount) else Ok(OfCents(fl, n, c))
  {
    Rounds(fl, x * 100.0, 1100000000000.0);
    HalfUp(fl(x * 100.0).v, n);
    CreateOf(fl, n, c);
  }

  // ---------------------------------------------------------------- no drift

  /** Creating a Money from its own amount gives it back. */
  lemma RecreateIsIdentity(fl: Rounding, n: int, c: string)
    requires IsRounding(fl) && 0 <= n <= TOP && c in CURRENCIES
    ensures Create(fl, OfCents(fl, n, c).amount, c) == Ok(OfCents(fl, n, c))
  {
    CentsFloat(fl, n);
    CreateNear(fl, fl(n as real / 100.0).v, n, c);
  }

  lemma SumsAreExact(fl: Rounding, n: int, m: int, c: string)
    requires IsRounding(fl) && 0 <= n && 0 <= m && n + m <= TOP && c in CURRENCIES
    ensures AddsCents(fl, n, m, c)
  {
    var a, b := fl(n as real / 100.0), fl(m as real / 100.0);
    CentsFloat(fl, n);
    CentsFloat(fl, m);
    Rounds(fl, a.v + b.v, 10000000001.0);
    CreateNear(fl, fl(a.v + b.v).v, n + m, c);
  }

  /** A difference is exact, and refused exactly when it would be negative. */
  lemma DifferencesAreExact(fl: Rounding, n: int, m: int, c: string)
    requires IsRounding(fl) && 0 <= n <= TOP && 0 <= m <= TOP && c in CURRENCIES
    ensures SubtractsCents(fl, n, m, c)
  {
    var a, b := fl(n as real / 100.0), fl(m as real / 100.0);
    CentsFloat(fl, n);
    CentsFloat(fl, m);
    Rounds(fl, a.v - b.v, 10000000001.0);
    assert a.v + (-b.v) == a.v - b.v;
    CreateNear(fl, fl(a.v - b.v).v, n - m, c);
  }

  lemma ScaledError(a: real, x: real, e: real, q: real)
    requires Close(a, x, e) && 0.0 <= q
    ensures Close(Product(a, q), Product(x, q), Product(e, q))
  {
    assert (x - e) * q <= a * q <= (x + e) * q;
  }

  /** A rounding error scaled up is the rounding error of the scaled number, plus next to nothing. */
  lemma UlpScaled(x: real, q: real)
    requires 0.0 <= Product(x, q) <= 10000000000.0 && 0.0 <= q <= 1000000000000.0
    ensures Product(Ulp(x), q) <= 0.0000012
  {
    assert Product(Ulp(x), q) == x * q / 9007199254740992.0 + 0.000000000000000000000000000001 * q;
  }

  lemma CentsTimes(n: int, q: int)
    ensures Product(n as real / 100.0, q as real) == (n * q) as real / 100.0
  {
    assert (n * q) as real == n as real * q as real;
  }

  lemma FactorsFit(n: int, q: int)
    requires 0 < n && 0 <= q && n * q <= TOP
    ensures 0 <= n * q && q <= TOP
  {
    assert q <= n * q;
  }

  /** Multiplying by a whole number, as an order line does, is exact. */
  lemma ProductsAreExact(fl: Rounding, n: int, q: int, c: string)
    requires IsRounding(fl) && 0 <= n <= TOP && 0 <= q && n * q <= TOP && c in CURRENCIES
    ensures MultipliesCents(fl, n, q, c)
  {
    var x, a := n as real / 100.0, fl(n as real / 100.0);
    CentsFloat(fl, n);
    CentsTimes(n, q);
    if n == 0 {
      assert x == 0.0 && Product(0.0, q as real) == 0.0;
      CreateNear(fl, 0.0, 0, c);
    } else {
      FactorsFit(n, q);
      hide Product;
      Rounds(fl, x, x);
      ScaledError(a.v, x, Ulp(x), q as real);
      UlpScaled(x, q as real);
      var y := Product(a.v, q as real);
      Rounds(fl, y, 10000000001.0);
      CreateNear(fl, fl(y).v, n * q, c);
    }
  }

  /** `===` and `<` on amounts decide equality and order of the cents. */
  lemma ComparisonsDecideCents(fl: Rounding, n: int, m: int, c: string)
    requires IsRounding(fl) && 0 <= n <= TOP && 0 <= m <= TOP
    ensures Equals(OfCents(fl, n, c), OfCents(fl, m, c)) <==> n == m
    ensures IsLessThan(OfCents(fl, n, c), OfCents(fl, m, c)) == Ok(n < m)
    ensures IsGreaterThan(OfCents(fl, n, c), OfCents(fl, m, c)) == Ok(n > m)
    ensures IsLessThanOrEqual(OfCents(fl, n, c), OfCents(fl, m, c)) == Ok(n <= m)
    ensures IsGreaterThanOrEqual(OfCents(fl, n, c), OfCents(fl, m, c)) == Ok(n >= m)
  {
    CentsFloat(fl, n);
    CentsFloat(fl, m);
  }

  /** Taking an amount off works exactly when there is enough, and putting it back restores the value. */
  lemma SubtractThenAdd(fl: Rounding, n: int, m: int, c: string)
    requires IsRounding(fl) && 0 <= n <= TOP && 0 <= m <= TOP && c in CURRENCIES
    ensures var a, b := OfCents(fl, n, c), OfCents(fl, m, c);
            && (Subtract(fl, a, b).Ok? <==> IsGreaterThanOrEqual(a, b) == Ok(true))
            && (Subtract(fl, a, b).Ok? ==> Add(fl, Subtract(fl, a, b).value, b) == Ok(a))
  {
    ComparisonsDecideCents(fl, n, m, c);
    DifferencesAreExact(fl, n, m, c);
    if m <= n {
      SumsAreExact(fl, n - m, m, c);
      assert AddsCents(fl, n - m, m, c);
    }
  }

  /** Any way of building a Money from created ones by adding, subtracting and taking whole multiples. */
  datatype Expr =
    | Amount(x: Number)
    | Sum(a: Expr, b: Expr)
    | Difference(a: Expr, b: Expr)
    | Multiple(a: Expr, times: nat)

  function Eval(fl: Rounding, e: Expr, c: string): Result<Money> {
    match e
    case Amount(x) => Create(fl, x, c)
    case Sum(a, b) =>
      (match (Eval(fl, a, c), Eval(fl, b, c))
       case (Ok(x), Ok(y)) => Add(fl, x, y)
       case (Ok(_), Err(r)) => Err(r)
       case (Err(r), _) => Err(r))
    case Difference(a, b) =>
      (match (Eval(fl, a, c), Eval(fl, b, c))
       case (Ok(x), Ok(y)) => Subtract(fl, x, y)
       case (Ok(_), Err(r)) => Err(r)
       case (Err(r), _) => Err(r))
    case Multiple(a, q) =>
      (match Eval(fl, a, c)
       case Ok(x) => Multiply(fl, x, Finite(q as real))
       case Err(r) => Err(r))
  }

  /** The same expression in integer cents; only the created amounts are ever rounded. */
  function Cents(fl: Rounding, e: Expr): Result<int> {
    match e
    case Amount(x) =>
      if !CentsOf(fl, x).Finite? then Err(InvalidAmount)
      else if CentsOf(fl, x).v < 0.0 then Err(NegativeAmount)
      else Ok(CentsOf(fl, x).v.Floor)
    case Sum(a, b) =>
      (match (Cents(fl, a), Cents(fl, b))
       case (Ok(x), Ok(y)) => Ok(x + y)
       case (Ok(_), Err(r)) => Err(r)
       case (Err(r), _) => Err(r))
    case Difference(a, b) =>
      (match (Cents(fl, a), Cents(fl, b))
       case (Ok(x), Ok(y)) => if x < y then Err(NegativeAmount) else Ok(x - y)
       case (Ok(_), Err(r)) => Err(r)
       case (Err(r), _) => Err(r))
    case Multiple(a, q) =>
      (match Cents(fl, a)
       case Ok(x) => Ok(x * q)
       case Err(r) => Err(r))
  }

  /** The float nearest to a number of cents, or the same error. */
  function Floated(fl: Rounding, r: Result<int>, c: string): Result<Money> {
    match r
    case Ok(n) => Ok(OfCents(fl, n, c))
    case Err(e) => Err(e)
  }

  /** No intermediate result leaves the range of the price columns. */
  predicate InRange(fl: Rounding, e: Expr) {
    && (Cents(fl, e).Ok? ==> 0 <= Cents(fl, e).value <= TOP)
    && match e
       case Amount(x) => CentsOf(fl, x).Finite? ==> -TOP as real <= CentsOf(fl, x).v <= TOP as real
       case Sum(a, b) => InRange(fl, a) && InRange(fl, b)
       case Difference(a, b) => InRange(fl, a) && InRange(fl, b)
       case Multiple(a, _) => InRange(fl, a)
  }

  lemma AmountHasNoDrift(fl: Rounding, x: Number, c: string)
    requires IsRounding(fl) && c in CURRENCIES && InRange(fl, Amount(x))
    ensures Eval(fl, Amount(x), c) == Floated(fl, Cents(fl, Amount(x)), c)
  {
    if CentsOf(fl, x).Finite? {
      var n := RoundHalfUp(Times(fl, x, Finite(100.0)).v);
      assert CentsOf(fl, x) == Finite(n as real) && (n as real).Floor == n;
      CreateOf(fl, n, c);
    }
  }

  /**
   No drift: however long the expression, its value is the float nearest to the integer cents the same
   expression has, and it throws exactly where, and with the error with which, integer cents would.
   */
  lemma {:induction false} NoDrift(fl: Rounding, e: Expr, c: string)
    requires IsRounding(fl) && c in CURRENCIES && InRange(fl, e)
    ensures Eval(fl, e, c) == Floated(fl, Cents(fl, e), c)
  {
    hide Create, Add, Subtract, Multiply, CentsOf, OfCents, IsRounding;
    match e
    case Amount(x) => AmountHasNoDrift(fl, x, c);
    case Sum(a, b) =>
      NoDrift(fl, a, c);
      NoDrift(fl, b, c);
      if Cents(fl, a).Ok? && Cents(fl, b).Ok? {
        SumsAreExact(fl, Cents(fl, a).value, Cents(fl, b).value, c);
      }
    case Difference(a, b) =>
      NoDrift(fl, a, c);
      NoDrift(fl, b, c);
      if Cents(fl, a).Ok? && Cents(fl, b).Ok? {
        DifferencesAreExact(fl, Cents(fl, a).value, Cents(fl, b).value, c);
      }
    case Multiple(a, q) =>
      NoDrift(fl, a, c);
      if Cents(fl, a).Ok? {
        ProductsAreExact(fl, Cents(fl, a).value, q, c);
      }
  }

  // ---------------------------------------------------------------- percentages

  /** A product of a rounded amount and a percentage misses the exact product by at most a hundred times as much. */
  lemma ProductError(a: real, x: real, p: real, e: real)
    requires Close(a, x, e) && 0.0 <= p <= 100.0 && 0.0 <= e
    ensures Close(a * p, x * p, 100.0 * e)
  {
    ProductAtMost(a, x, p, e);
    ProductAtMost(x, a, p, e);
  }

  lemma ProductAtMost(a: real, x: real, p: real, e: real)
    requires a <= x + e && 0.0 <= p <= 100.0 && 0.0 <= e
    ensures a * p <= x * p + 100.0 * e
  {
    Monotone(a, x + e, p);
    assert a * p <= x * p + p * e;
    Monotone(p, 100.0, e);
    Combine(a * p, x * p, p * e, e);
  }

  lemma Combine(ap: real, xp: real, pe: real, e: real)
    requires ap <= xp + pe && pe <= 100.0 * e
    ensures ap <= xp + 100.0 * e
  {
  }

  lemma Monotone(a: real, b: real, p: real)
    requires a <= b && 0.0 <= p
    ensures a * p <= b * p
  {
  }

  /** The number `percentage` hands to `Math.round` is within a thousandth of the exact share of the cents. */
  lemma BeforeRounding(fl: Rounding, n: int, p: real) returns (y: real)
    requires IsRounding(fl) && 0 <= n <= TOP && 0.0 <= p <= 100.0
    ensures Times(fl, DividedBy100(fl, Times(fl, fl(n as real / 100.0), Finite(p))), Finite(100.0)) == Finite(y)
    ensures Close(y, Share(n as real, p), 0.001)
  {
    var a := fl(n as real / 100.0);
    CentsFloat(fl, n);
    ShareBounds(n as real, p);
    ProductNearShare(a.v, n, p);
    y := Chained(fl, a, p, Share(n as real, p));
  }

  lemma Chained(fl: Rounding, a: Number, p: real, share: real) returns (y: real)
    requires IsRounding(fl) && a.Finite? && 0.0 <= share <= 1000000000000.0 && Close(Product(a.v, p), share, 0.00012)
    ensures Times(fl, DividedBy100(fl, Times(fl, a, Finite(p))), Finite(100.0)) == Finite(y)
    ensures Close(y, share, 0.001)
  {
    y := RoundThrice(fl, Product(a.v, p), share);
  }

  lemma ProductNearShare(a: real, n: int, p: real)
    requires Close(a, n as real / 100.0, 0.0000012) && 0.0 <= p <= 100.0
    ensures Close(Product(a, p), Share(n as real, p), 0.00012)
  {
    CentShare(n, p);
    hide Share;
    ProductError(a, n as real / 100.0, p, 0.0000012);
  }

  /** The three roundings between the product and `Math.round`. */
  lemma RoundThrice(fl: Rounding, product: real, share: real) returns (y: real)
    requires IsRounding(fl) && 0.0 <= share <= 1000000000000.0 && Close(product, share, 0.00012)
    ensures fl(product).Finite? && fl(fl(product).v / 100.0).Finite?
    ensures fl(fl(fl(product).v / 100.0).v * 100.0) == Finite(y)
    ensures Close(y, share, 0.001)
  {
    Rounds(fl, product, 1000000000001.0);
    var q := fl(product).v / 100.0;
    Rounds(fl, q, 10000000001.0);
    var z := fl(q).v * 100.0;
    Rounds(fl, z, 1000000000002.0);
    y := fl(z).v;
  }

  /** A binary64 percentage is within 0.501 cents of the exact share, and never more than the amount. */
  lemma PercentIsClose(fl: Rounding, n: int, p: real, c: string)
    requires IsRounding(fl) && 0 <= n <= TOP && 0.0 <= p <= 100.0 && c in CURRENCIES
    ensures TakesPercent(fl, n, p, c, 0.501)
  {
    var y := BeforeRounding(fl, n, p);
    var r := RoundHalfUp(y);
    ShareBounds(n as real, p);
    PercentResult(fl, n, p, c, y);
    hide Share, PercentCents;
    HalfUp(y, r);
    CreateOf(fl, r, c);
  }

  lemma PercentResult(fl: Rounding, n: int, p: real, c: string, y: real)
    requires Times(fl, DividedBy100(fl, Times(fl, fl(n as real / 100.0), Finite(p))), Finite(100.0)) == Finite(y)
    requires 0.0 <= p <= 100.0
    ensures PercentCents(fl, n, p) == RoundHalfUp(y)
    ensures Percentage(fl, OfCents(fl, n, c), Finite(p)) == New(fl(RoundHalfUp(y) as real / 100.0), c)
  {
    assert (RoundHalfUp(y) as real).Floor == RoundHalfUp(y);
  }

  /** Unless the exact share lies within a thousandth of half a cent, binary64 rounds it to the same cent. */
  lemma PercentAgrees(fl: Rounding, n: int, p: real)
    requires IsRounding(fl) && 0 <= n <= TOP && 0.0 <= p <= 100.0
    requires var x := Share(n as real, p); !Close(x - x.Floor as real, 0.5, 0.001)
    ensures PercentCents(fl, n, p) == PercentCents(Exact, n, p)
  {
    var x := Share(n as real, p);
    var y := BeforeRounding(fl, n, p);
    PercentResult(fl, n, p, "IDR", y);
    ExactPercent(n, p, "IDR");
    hide Share, PercentCents;
    SameCent(x, y);
  }

  lemma SameCent(x: real, y: real)
    requires Close(y, x, 0.001) && !Close(x - x.Floor as real, 0.5, 0.001)
    ensures RoundHalfUp(x) == RoundHalfUp(y)
  {
    var n := if x - (x.Floor as real) < 0.5 then x.Floor else x.Floor + 1;
    HalfUp(x, n);
    HalfUp(y, n);
  }

  lemma RoundingMakes(fl: Rounding, n: int, c: string)
    requires IsRounding(fl) && -TOP <= n <= TOP && c in CURRENCIES
    ensures MakesCents(fl, n, c)
  {
    hide CentsOf;
    CentsFloat(fl, n);
    CreateNear(fl, n as real / 100.0, n, c);
    CreateNear(fl, fl(n as real / 100.0).v, n, c);
    CreateOf(fl, n, c);
  }

  /** Binary64 counts integer cents up to ten billion. */
  lemma RoundingCounts(fl: Rounding, c: string)
    requires IsRounding(fl) && c in CURRENCIES
    ensures Counts(fl, TOP, c)
  {
    hide IsRounding, MakesCents, AddsCents, SubtractsCents, MultipliesCents;
    CreateOf(fl, 0, c);
    RoundedZero(fl, c);
    forall n | -TOP <= n <= TOP
      ensures MakesCents(fl, n, c)
    {
      RoundingMakes(fl, n, c);
    }
    forall n, m | 0 <= n && 0 <= m && n + m <= TOP
      ensures AddsCents(fl, n, m, c)
    {
      SumsAreExact(fl, n, m, c);
    }
    forall n, m | 0 <= n <= TOP && 0 <= m <= TOP
      ensures SubtractsCents(fl, n, m, c)
    {
      DifferencesAreExact(fl, n, m, c);
    }
    forall n, q | 0 <= n <= TOP && 0 <= q && n * q <= TOP
      ensures MultipliesCents(fl, n, q, c)
    {
      ProductsAreExact(fl, n, q, c);
    }
  }

  lemma RoundedZero(fl: Rounding, c: string)
    requires IsRounding(fl) && c in CURRENCIES
    ensures Zero(c) == Ok(OfCents(fl, 0, c))
  {
    assert 0 as real / 100.0 == 0.0;
  }

  /** Binary64 follows integer cents: sums, differences and multiples exactly, percentages within 0.501 of a cent. */
  lemma RoundingTracks(fl: Rounding, c: string)
    requires IsRounding(fl) && c in CURRENCIES
    ensures Tracks(fl, 0.501, TOP, c)
  {
    hide IsRounding, Counts, TakesPercent;
    RoundingCounts(fl, c);
    forall n, p | 0 <= n <= TOP && 0.0 <= p <= 100.0
      ensures TakesPercent(fl, n, p, c, 0.501)
    {
      PercentIsClose(fl, n, p, c);
    }
  }

  /** In binary64: any chain of `k` discounts ends within 0.501 `k` cents of the exact product. */
  lemma DiscountsInDoubles(fl: Rounding, n: nat, ps: seq<real>, c: string) returns (k: int)
    requires IsRounding(fl) && n <= TOP && Percents(ps) && c in CURRENCIES
    ensures Discounted(fl, OfCents(fl, n, c), ps) == Ok(OfCents(fl, k, c))
    ensures 0 <= k <= n
    ensures Abs(k as real - Ideal(n as real, ps)) <= |ps| as real * 0.501
  {
    hide Discounted, Tracks, OfCents, Ideal, IsRounding;
    RoundingTracks(fl, c);
    k := DiscountChain(fl, 0.501, TOP, c, n, ps);
  }

  /** In binary64: summing `n` percentages and taking one of the sum differ by at most 0.501 `(n + 1)` cents. */
  lemma PercentageOfSumInDoubles(fl: Rounding, ns: seq<nat>, p: real, c: string) returns (apart: int, whole: int)
    requires IsRounding(fl) && CentSum(ns) <= TOP && 0.0 <= p <= 100.0 && c in CURRENCIES
    ensures SumOfPercentages(fl, OfCents(fl, 0, c), Amounts(fl, ns, c), p) == Ok(OfCents(fl, apart, c))
    ensures SumOf(fl, OfCents(fl, 0, c), Amounts(fl, ns, c)) == Ok(OfCents(fl, CentSum(ns), c))
    ensures Percentage(fl, OfCents(fl, CentSum(ns), c), Finite(p)) == Ok(OfCents(fl, whole, c))
    ensures Abs(apart as real - whole as real) <= (|ns| + 1) as real * 0.501
  {
    hide SumOf, SumOfPercentages, Amounts, Percentage, Tracks, OfCents, CentSum, IsRounding;
    RoundingTracks(fl, c);
    apart, whole := PercentageOfSum(fl, 0.501, TOP, c, ns, p);
  }

  /**
   A percentage and its complement make up the amount, to the cent unless the split falls within a
   thousandth of half a cent, and then within one cent.
   */
  lemma ComplementInDoubles(fl: Rounding, n: int, p: real)
    requires IsRounding(fl) && 0 <= n <= TOP && 0.0 <= p <= 100.0
    ensures var x, s := Share(n as real, p), PercentCents(fl, n, p) + PercentCents(fl, n, 100.0 - p);
            && n - 1 <= s <= n + 1
            && (!Close(x - x.Floor as real, 0.5, 0.001) ==> s == n)
  {
    hide PercentCents;
    var x := Share(n as real, p);
    ShareComplement(n as real, p);
    PercentIsClose(fl, n, p, "IDR");
    PercentIsClose(fl, n, 100.0 - p, "IDR");
    hide Share, IsRounding;
    if !Close(x - x.Floor as real, 0.5, 0.001) {
      FarFromHalf(n, x);
      PercentAgrees(fl, n, p);
      PercentAgrees(fl, n, 100.0 - p);
      ComplementSplit(n, p);
    }
  }

  lemma FarFromHalf(n: int, x: real)
    requires !Close(x - x.Floor as real, 0.5, 0.001)
    ensures !Close((n as real - x) - (n as real - x).Floor as real, 0.5, 0.001)
  {
    var f := x.Floor;
    if x == f as real {
      assert (n as real - x).Floor == n - f;
    } else {
      assert (n as real - x).Floor == n - f - 1;
    }
  }

  // ---------------------------------------------------------------- any amount, any multiplier

  /**
   Within ten billion, `create` keeps an amount to half a cent, give or take a thousandth, and refuses it
   only from minus half a cent down.
   */
  lemma CreateIsClose(fl: Rounding, x: real, c: string) returns (r: int)
    requires IsRounding(fl) && Abs(x) <= 10000000000.0 && c in CURRENCIES
    ensures Create(fl, Finite(x), c) == if r < 0 then Err(NegativeAmount) else Ok(OfCents(fl, r, c))
    ensures Abs(r as real - 100.0 * x) <= 0.501
    ensures -0.00499 <= x ==> Create(fl, Finite(x), c).Ok?
    ensures x <= -0.00502 ==> Create(fl, Finite(x), c).Err?
  {
    Rounds(fl, x * 100.0, 1000000000000.0);
    r := RoundHalfUp(fl(x * 100.0).v);
    HalfUp(fl(x * 100.0).v, r);
    CreateOf(fl, r, c);
  }

  lemma ScaledEitherWay(a: real, x: real, e: real, q: real)
    requires Close(a, x, e) && 0.0 <= e
    ensures Close(Product(a, q), Product(x, q), Product(e, Abs(q)))
  {
    if 0.0 <= q {
      ScaledError(a, x, e, q);
    } else {
      ScaledError(a, x, e, -q);
      assert Product(a, q) == -Product(a, -q) && Product(x, q) == -Product(x, -q);
    }
  }

  lemma FactorBound(n: int, x: real)
    requires 0 < n && Abs(Product(n as real, x)) <= 1000000000000.0
    ensures Abs(x) <= 1000000000000.0
    ensures Abs(Product(n as real / 100.0, x)) <= 10000000000.0
    ensures Product(n as real / 100.0, Abs(x)) == Abs(Product(n as real / 100.0, x))
    ensures Product(n as real / 100.0, x) == Product(n as real, x) / 100.0
  {
    assert Product(n as real / 100.0, x) == Product(n as real, x) / 100.0;
    Monotone(1.0, n as real, Abs(x));
  }

  lemma ProductNear(fl: Rounding, n: int, x: real)
    requires IsRounding(fl) && 0 <= n <= TOP && Abs(Product(n as real, x)) <= 1000000000000.0
    ensures fl(n as real / 100.0).Finite?
    ensures Close(Product(fl(n as real / 100.0).v, x), Product(n as real, x) / 100.0, 0.0000012)
  {
    var a := fl(n as real / 100.0);
    CentsFloat(fl, n);
    if n == 0 {
      assert 0 as real / 100.0 == 0.0 && Product(0.0, x) == 0.0;
    } else {
      FactorBound(n, x);
      hide Product;
      Rounds(fl, n as real / 100.0, n as real / 100.0);
      UlpScaled(n as real / 100.0, Abs(x));
      ScaledEitherWay(a.v, n as real / 100.0, Ulp(n as real / 100.0), x);
    }
  }

  /** Multiplying by any number gives cents within 0.501 of the exact product, and is refused if they are negative. */
  lemma MultiplyIsClose(fl: Rounding, n: int, x: real, c: string) returns (r: int)
    requires IsRounding(fl) && 0 <= n <= TOP && Abs(Product(n as real, x)) <= 1000000000000.0 && c in CURRENCIES
    ensures Multiply(fl, OfCents(fl, n, c), Finite(x)) == if r < 0 then Err(NegativeAmount) else Ok(OfCents(fl, r, c))
    ensures Abs(r as real - Product(n as real, x)) <= 0.501
  {
    hide Product;
    ProductNear(fl, n, x);
    var y := Product(fl(n as real / 100.0).v, x);
    Rounds(fl, y, 10000000001.0);
    var z := fl(y).v;
    TimesHundred(z);
    Rounds(fl, z * 100.0, 1000000000200.0);
    r := RoundHalfUp(fl(z * 100.0).v);
    HalfUp(fl(z * 100.0).v, r);
    CreateOf(fl, r, c);
  }

  lemma TimesHundred(z: real)
    ensures Product(z, 100.0) == z * 100.0
  {
  }

  // ---------------------------------------------------------------- monotone rounding

  /** Rounding never reverses an order and never gives NaN; it may overflow. All roundings of IEEE 754 are such. */
  ghost predicate IsMonotone(fl: Rounding) {
    && fl(0.0) == Finite(0.0)
    && forall x: real, y: real {:trigger fl(x), fl(y)} :: x <= y ==> LessOrEqual(fl(x), fl(y))
  }

  /** The assumptions on roundings can be met, and exact arithmetic is one that meets them. */
  lemma ExactIsARounding()
    ensures IsRounding(Exact) && IsMonotone(Exact)
  {
  }

  predicate Ordered(a: Number, b: Number) {
    LessOrEqual(Finite(0.0), a) && LessOrEqual(a, b)
  }

  lemma TimesOrdered(fl: Rounding, a: Number, b: Number, x: real, y: real)
    requires IsMonotone(fl) && Ordered(a, b) && 0.0 <= x <= y
    requires (a.Finite? && b.Finite?) || 0.0 < x
    ensures Ordered(Times(fl, a, Finite(x)), Times(fl, b, Finite(y)))
  {
    hide Product;
    if a.Finite? {
      ProductsOrdered(0.0, 0.0, a.v, x);
      assert LessOrEqual(fl(0.0), fl(Product(a.v, x)));
      if b.Finite? {
        ProductsOrdered(a.v, x, b.v, y);
        assert LessOrEqual(fl(Product(a.v, x)), fl(Product(b.v, y)));
      }
    }
  }

  lemma ProductsOrdered(a: real, x: real, b: real, y: real)
    requires 0.0 <= a <= b && 0.0 <= x <= y
    ensures Product(a, x) <= Product(b, y)
    ensures Product(0.0, x) == 0.0
  {
    Monotone(a, b, x);
    Monotone(x, y, b);
    Commutes(x, b);
    Commutes(y, b);
  }

  lemma Commutes(a: real, b: real)
    ensures a * b == b * a
  {
  }

  lemma DividedOrdered(fl: Rounding, a: Number, b: Number)
    requires IsMonotone(fl) && Ordered(a, b)
    ensures Ordered(DividedBy100(fl, a), DividedBy100(fl, b))
  {
    if a.Finite? {
      assert LessOrEqual(fl(0.0), fl(a.v / 100.0));
      if b.Finite? {
        assert LessOrEqual(fl(a.v / 100.0), fl(b.v / 100.0));
      }
    }
  }

  lemma RoundOrdered(a: Number, b: Number)
    requires Ordered(a, b)
    ensures Ordered(MathRound(a), MathRound(b))
  {
    if a.Finite? && b.Finite? {
      RoundMonotone(a.v, b.v);
    }
  }

  /** `create` never reverses an order of amounts, and accepts what is smaller than an accepted one. */
  lemma CreateOrdered(fl: Rounding, a: Number, b: Number, c: string)
    requires IsMonotone(fl) && Ordered(a, b) && Create(fl, b, c).Ok?
    ensures Create(fl, a, c).Ok? && LessOrEqual(Create(fl, a, c).value.amount, Create(fl, b, c).value.amount)
  {
    hide IsMonotone, MathRound, DividedBy100, Times;
    TimesOrdered(fl, a, b, 100.0, 100.0);
    RoundOrdered(Times(fl, a, Finite(100.0)), Times(fl, b, Finite(100.0)));
    DividedOrdered(fl, CentsOf(fl, a), CentsOf(fl, b));
  }

  /**
   Under any monotone rounding, for finite amounts of any size: a larger percentage of a larger amount is
   never smaller, and where it can be taken so can the smaller one.
   */
  lemma PercentageGrows(fl: Rounding, a: Money, b: Money, p: real, q: real)
    requires IsMonotone(fl) && a.currency == b.currency
    requires a.amount.Finite? && b.amount.Finite? && 0.0 <= a.amount.v <= b.amount.v && 0.0 <= p <= q <= 100.0
    requires Percentage(fl, b, Finite(q)).Ok?
    ensures Percentage(fl, a, Finite(p)).Ok?
    ensures LessOrEqual(Percentage(fl, a, Finite(p)).value.amount, Percentage(fl, b, Finite(q)).value.amount)
  {
    hide IsMonotone, DividedBy100, Times, Create;
    TimesOrdered(fl, a.amount, b.amount, p, q);
    DividedOrdered(fl, Times(fl, a.amount, Finite(p)), Times(fl, b.amount, Finite(q)));
    CreateOrdered(fl, DividedBy100(fl, Times(fl, a.amount, Finite(p))),
                  DividedBy100(fl, Times(fl, b.amount, Finite(q))), a.currency);
  }
}
