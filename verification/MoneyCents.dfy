/**
 Money as whole cents. `Counts` says that an arithmetic follows integer cents exactly in sums, differences
 and whole multiples, `Tracks` that its percentages are also within `delta` of a cent. Exact arithmetic
 tracks every amount within half a cent, binary64 (see `MoneyRounding`) amounts up to ten billion within
 0.501; the statements about chains and lists hold of any arithmetic that tracks.
 */
module MoneyCents {
  import opened Money

  function Abs(x: real): real { if x < 0.0 then -x else x }

  /** The cents of `p` percent of `n` cents, as `percentage` computes them. */
  function PercentCents(fl: Rounding, n: int, p: real): int {
    match CentsOf(fl, DividedBy100(fl, Times(fl, fl(n as real / 100.0), Finite(p))))
    case Finite(v) => v.Floor
    case _ => -1
  }

  /** `p` percent of `x`, exactly. */
  function Share(x: real, p: real): real { x * p / 100.0 }

  /** `k` errors of at most `delta` each. */
  function Errors(k: nat, delta: real): real {
    if k == 0 then 0.0 else Errors(k - 1, delta) + delta
  }

  lemma {:induction false} ErrorsAddUp(k: nat, delta: real)
    ensures Errors(k, delta) == k as real * delta
  {
    if k == 0 {
    } else {
      ErrorsAddUp(k - 1, delta);
      assert k as real * delta == (k - 1) as real * delta + delta;
    }
  }

  predicate AddsCents(fl: Rounding, n: int, m: int, c: string) {
    Add(fl, OfCents(fl, n, c), OfCents(fl, m, c)) == Ok(OfCents(fl, n + m, c))
  }

  predicate SubtractsCents(fl: Rounding, n: int, m: int, c: string) {
    Subtract(fl, OfCents(fl, n, c), OfCents(fl, m, c))
      == if n < m then Err(NegativeAmount) else Ok(OfCents(fl, n - m, c))
  }

  predicate MultipliesCents(fl: Rounding, n: int, q: int, c: string) {
    Multiply(fl, OfCents(fl, n, c), Finite(q as real)) == Ok(OfCents(fl, n * q, c))
  }

  /** `n` cents are recognised as such, given exactly or as the nearest float, and accepted unless negative. */
  predicate MakesCents(fl: Rounding, n: int, c: string) {
    && CentsOf(fl, Finite(n as real / 100.0)) == Finite(n as real)
    && CentsOf(fl, fl(n as real / 100.0)) == Finite(n as real)
    && New(fl(n as real / 100.0), c) == if n < 0 then Err(NegativeAmount) else Ok(OfCents(fl, n, c))
  }

  predicate TakesPercent(fl: Rounding, n: int, p: real, c: string, delta: real) {
    var r := PercentCents(fl, n, p);
    && Percentage(fl, OfCents(fl, n, c), Finite(p)) == Ok(OfCents(fl, r, c))
    && 0 <= r <= n && Abs(r as real - Share(n as real, p)) <= delta
  }

  /** The arithmetic computes like integer cents, up to `top`. */
  ghost predicate Counts(fl: Rounding, top: int, c: string) {
    && c in CURRENCIES
    && Zero(c) == Ok(OfCents(fl, 0, c))
    && (forall n :: -top <= n <= top ==> MakesCents(fl, n, c))
    && (forall n, m :: 0 <= n && 0 <= m && n + m <= top ==> AddsCents(fl, n, m, c))
    && (forall n, m :: 0 <= n <= top && 0 <= m <= top ==> SubtractsCents(fl, n, m, c))
    && (forall n, q :: 0 <= n <= top && 0 <= q && n * q <= top ==> MultipliesCents(fl, n, q, c))
  }

  ghost predicate Tracks(fl: Rounding, delta: real, top: int, c: string) {
    && Counts(fl, top, c)
    && forall n, p :: 0 <= n <= top && 0.0 <= p <= 100.0 ==> TakesPercent(fl, n, p, c, delta)
  }

  /** Why `create` refuses: no finite cents, negative cents, or an unknown currency, in that order. */
  lemma CreateErrors(fl: Rounding, top: int, amount: Number, c: string)
    requires Counts(fl, top, "IDR")
    requires CentsOf(fl, amount).Finite? ==> -top as real <= CentsOf(fl, amount).v <= top as real
    ensures Create(fl, amount, c) == Err(InvalidAmount) <==> !CentsOf(fl, amount).Finite?
    ensures Create(fl, amount, c) == Err(NegativeAmount) <==> CentsOf(fl, amount).Finite? && CentsOf(fl, amount).v < 0.0
    ensures Create(fl, amount, c) == Err(InvalidCurrency) <==>
            CentsOf(fl, amount).Finite? && 0.0 <= CentsOf(fl, amount).v && c !in CURRENCIES
    ensures Create(fl, amount, c).Err? ==>
              Create(fl, amount, c).error in {InvalidAmount, NegativeAmount, InvalidCurrency}
  {
    if CentsOf(fl, amount).Finite? {
      CreatedFromCents(fl, amount, c);
      assert MakesCents(fl, RoundHalfUp(Times(fl, amount, Finite(100.0)).v), "IDR");
    }
  }

  /** A percentage of whole cents is refused exactly outside 0 to 100. */
  lemma PercentRefused(fl: Rounding, delta: real, top: int, n: int, percent: Number, c: string)
    requires Tracks(fl, delta, top, c) && 0 <= n <= top
    ensures Percentage(fl, OfCents(fl, n, c), percent).Ok? <==> percent.Finite? && 0.0 <= percent.v <= 100.0
  {
    hide Counts;
    if percent.Finite? && 0.0 <= percent.v <= 100.0 {
      assert TakesPercent(fl, n, percent.v, c, delta);
    }
  }

  // ---------------------------------------------------------------- chains of discounts

  /** A percentage of every stage is taken off it: `m.subtract(m.percentage(p))`, once per entry. */
  function Discounted(fl: Rounding, m: Money, ps: seq<real>): Result<Money>
    decreases |ps|
  {
    if ps == [] then Ok(m)
    else
      match Percentage(fl, m, Finite(ps[0]))
      case Err(e) => Err(e)
      case Ok(off) =>
        match Subtract(fl, m, off)
        case Err(e) => Err(e)
        case Ok(rest) => Discounted(fl, rest, ps[1..])
  }

  predicate Percents(ps: seq<real>) { forall i :: 0 <= i < |ps| ==> 0.0 <= ps[i] <= 100.0 }

  /** The same chain on real numbers, nothing rounded: `x` times the product of the `1 - p / 100`. */
  function Ideal(x: real, ps: seq<real>): real
    decreases |ps|
  {
    if ps == [] then x else Ideal(x - Share(x, ps[0]), ps[1..])
  }

  lemma ShareAdds(x: real, y: real, p: real)
    ensures Share(x + y, p) == Share(x, p) + Share(y, p)
    ensures Share(0.0, p) == 0.0
  {
    assert (x + y) * p == x * p + y * p;
  }

  lemma ShareBounds(x: real, p: real)
    requires 0.0 <= x && 0.0 <= p <= 100.0
    ensures 0.0 <= Share(x, p) <= x
  {
    assert 0.0 <= x * p <= x * 100.0;
  }

  lemma DiscountContracts(x: real, y: real, p: real)
    requires 0.0 <= p <= 100.0
    ensures Abs((x - Share(x, p)) - (y - Share(y, p))) <= Abs(x - y)
  {
    hide Share;
    if x >= y {
      ShareAdds(y, x - y, p);
      ShareBounds(x - y, p);
    } else {
      ShareAdds(x, y - x, p);
      ShareBounds(y - x, p);
    }
  }

  /** Errors never grow on the way through a chain of discounts. */
  lemma {:induction false} IdealContracts(x: real, y: real, ps: seq<real>)
    requires Percents(ps)
    ensures Abs(Ideal(x, ps) - Ideal(y, ps)) <= Abs(x - y)
    decreases |ps|
  {
    if ps == [] {
    } else {
      DiscountContracts(x, y, ps[0]);
      IdealContracts(x - Share(x, ps[0]), y - Share(y, ps[0]), ps[1..]);
    }
  }

  lemma Triangle(a: real, b: real, c: real, d: real, e: real)
    requires Abs(a - b) <= d && Abs(b - c) <= e
    ensures Abs(a - c) <= d + e
  {
  }

  lemma {:induction false} DiscountSteps(fl: Rounding, delta: real, top: int, c: string, n: int, ps: seq<real>)
    returns (k: int)
    requires Tracks(fl, delta, top, c) && 0 <= n <= top && Percents(ps)
    ensures Discounted(fl, OfCents(fl, n, c), ps) == Ok(OfCents(fl, k, c))
    ensures 0 <= k <= n
    ensures Abs(k as real - Ideal(n as real, ps)) <= Errors(|ps|, delta)
    decreases |ps|
  {
    hide Percentage, Subtract, Add, OfCents, Share, PercentCents;
    if ps == [] {
      k := n;
    } else {
      var r := PercentCents(fl, n, ps[0]);
      var rest := ps[1..];
      assert TakesPercent(fl, n, ps[0], c, delta);
      assert SubtractsCents(fl, n, r, c);
      k := DiscountSteps(fl, delta, top, c, n - r, rest);
      var left := n as real - Share(n as real, ps[0]);
      IdealContracts((n - r) as real, left, rest);
      Triangle(k as real, Ideal((n - r) as real, rest), Ideal(left, rest), Errors(|rest|, delta), delta);
    }
  }

  /**
   A chain of percentage discounts never throws, never raises the amount, and ends within `delta`
   cents per discount of the exact real result.
   */
  lemma DiscountChain(fl: Rounding, delta: real, top: int, c: string, n: int, ps: seq<real>) returns (k: int)
    requires Tracks(fl, delta, top, c) && 0 <= n <= top && Percents(ps)
    ensures Discounted(fl, OfCents(fl, n, c), ps) == Ok(OfCents(fl, k, c))
    ensures 0 <= k <= n
    ensures Abs(k as real - Ideal(n as real, ps)) <= |ps| as real * delta
  {
    hide Percentage, Subtract, Add, OfCents, Share, PercentCents;
    k := DiscountSteps(fl, delta, top, c, n, ps);
    ErrorsAddUp(|ps|, delta);
  }

  // ---------------------------------------------------------------- sums of percentages

  /** `ms.reduce((sum, m) => sum.add(m), acc)` */
  function SumOf(fl: Rounding, acc: Money, ms: seq<Money>): Result<Money>
    decreases |ms|
  {
    if ms == [] then Ok(acc)
    else
      match Add(fl, acc, ms[0])
      case Err(e) => Err(e)
      case Ok(next) => SumOf(fl, next, ms[1..])
  }

  /** The same over `p` percent of each amount. */
  function SumOfPercentages(fl: Rounding, acc: Money, ms: seq<Money>, p: real): Result<Money>
    decreases |ms|
  {
    if ms == [] then Ok(acc)
    else
      match Percentage(fl, ms[0], Finite(p))
      case Err(e) => Err(e)
      case Ok(part) =>
        match Add(fl, acc, part)
        case Err(e) => Err(e)
        case Ok(next) => SumOfPercentages(fl, next, ms[1..], p)
  }

  function Amounts(fl: Rounding, ns: seq<nat>, c: string): (ms: seq<Money>)
    ensures |ms| == |ns|
  {
    seq(|ns|, i requires 0 <= i < |ns| => OfCents(fl, ns[i], c))
  }

  lemma AmountsTail(fl: Rounding, ns: seq<nat>, c: string)
    requires ns != []
    ensures Amounts(fl, ns, c)[0] == OfCents(fl, ns[0], c)
    ensures Amounts(fl, ns, c)[1..] == Amounts(fl, ns[1..], c)
  {
  }

  function CentSum(ns: seq<nat>): nat { if ns == [] then 0 else ns[0] + CentSum(ns[1..]) }

  lemma {:induction false} SumOfTracks(fl: Rounding, delta: real, top: int, c: string, acc: nat, ns: seq<nat>)
    requires Tracks(fl, delta, top, c) && acc + CentSum(ns) <= top
    ensures SumOf(fl, OfCents(fl, acc, c), Amounts(fl, ns, c)) == Ok(OfCents(fl, acc + CentSum(ns), c))
    decreases |ns|
  {
    hide Percentage, Subtract, Add, OfCents, Share, PercentCents;
    if ns == [] {
    } else {
      assert AddsCents(fl, acc, ns[0], c);
      AmountsTail(fl, ns, c);
      SumOfTracks(fl, delta, top, c, acc + ns[0], ns[1..]);
    }
  }

  /** Adding up `p` percent of every amount ends within `delta` cents per amount of `p` percent of the sum. */
  lemma {:induction false} PercentageSum(fl: Rounding, delta: real, top: int, c: string, acc: nat,
          ns: seq<nat>, p: real)
    returns (k: int)
    requires Tracks(fl, delta, top, c) && acc + CentSum(ns) <= top && 0.0 <= p <= 100.0
    ensures SumOfPercentages(fl, OfCents(fl, acc, c), Amounts(fl, ns, c), p) == Ok(OfCents(fl, k, c))
    ensures acc <= k <= acc + CentSum(ns)
    ensures Abs((k - acc) as real - Share(CentSum(ns) as real, p)) <= Errors(|ns|, delta)
    decreases |ns|
  {
    hide Percentage, Subtract, Add, OfCents, Share, PercentCents;
    if ns == [] {
      k := acc;
      ShareAdds(0.0, 0.0, p);
    } else {
      var r := PercentCents(fl, ns[0], p);
      var rest := ns[1..];
      assert TakesPercent(fl, ns[0], p, c, delta);
      assert AddsCents(fl, acc, r, c);
      AmountsTail(fl, ns, c);
      k := PercentageSum(fl, delta, top, c, acc + r, rest, p);
      ShareAdds(ns[0] as real, CentSum(rest) as real, p);
      CombineErrors(k - acc - r, Share(CentSum(rest) as real, p), r, Share(ns[0] as real, p),
                    Errors(|rest|, delta), delta);
    }
  }

  lemma CombineErrors(a: int, x: real, b: int, y: real, d: real, e: real)
    requires Abs(a as real - x) <= d && Abs(b as real - y) <= e
    ensures Abs((a + b) as real - (y + x)) <= d + e
  {
  }

  lemma SumSteps(fl: Rounding, delta: real, top: int, c: string, ns: seq<nat>, p: real) returns (apart: int, whole: int)
    requires Tracks(fl, delta, top, c) && CentSum(ns) <= top && 0.0 <= p <= 100.0
    ensures SumOfPercentages(fl, OfCents(fl, 0, c), Amounts(fl, ns, c), p) == Ok(OfCents(fl, apart, c))
    ensures Percentage(fl, OfCents(fl, CentSum(ns), c), Finite(p)) == Ok(OfCents(fl, whole, c))
    ensures Abs(apart as real - whole as real) <= Errors(|ns| + 1, delta)
  {
    hide Percentage, Subtract, Add, OfCents, Share, PercentCents;
    apart := PercentageSum(fl, delta, top, c, 0, ns, p);
    whole := PercentCents(fl, CentSum(ns), p);
    assert TakesPercent(fl, CentSum(ns), p, c, delta);
    Triangle(apart as real, Share(CentSum(ns) as real, p), whole as real, Errors(|ns|, delta), delta);
  }

  /** The percentage of a sum and the sum of the percentages differ by at most `delta` cents per amount, plus one. */
  lemma PercentageOfSum(fl: Rounding, delta: real, top: int, c: string, ns: seq<nat>, p: real)
    returns (apart: int, whole: int)
    requires Tracks(fl, delta, top, c) && CentSum(ns) <= top && 0.0 <= p <= 100.0
    ensures SumOfPercentages(fl, OfCents(fl, 0, c), Amounts(fl, ns, c), p) == Ok(OfCents(fl, apart, c))
    ensures SumOf(fl, OfCents(fl, 0, c), Amounts(fl, ns, c)) == Ok(OfCents(fl, CentSum(ns), c))
    ensures Percentage(fl, OfCents(fl, CentSum(ns), c), Finite(p)) == Ok(OfCents(fl, whole, c))
    ensures Abs(apart as real - whole as real) <= (|ns| + 1) as real * delta
  {
    hide Percentage, Subtract, Add, OfCents, Share, PercentCents, Tracks;
    SumOfTracks(fl, delta, top, c, 0, ns);
    apart, whole := SumSteps(fl, delta, top, c, ns, p);
    ErrorsAddUp(|ns| + 1, delta);
  }

  // ---------------------------------------------------------------- exact arithmetic

  /** Half-up rounding picks the one integer whose half-open unit interval holds the number. */
  lemma HalfUp(x: real, n: int)
    ensures RoundHalfUp(x) == n <==> n as real - 0.5 <= x < n as real + 0.5
  {
  }

  /** In exact arithmetic `create` accepts exactly the finite amounts of at least minus half a cent. */
  lemma CreateAccepts(amount: Number, c: string)
    ensures Create(Exact, amount, c).Ok? <==> amount.Finite? && -0.005 <= amount.v && c in CURRENCIES
    ensures Create(Exact, amount, c).Ok? ==>
              Create(Exact, amount, c).value == OfCents(Exact, RoundHalfUp(amount.v * 100.0), c)
  {
    if amount.Finite? {
      HalfUp(amount.v * 100.0, RoundHalfUp(amount.v * 100.0));
    }
  }

  lemma CreateCents(x: real, n: int, c: string)
    requires n as real / 100.0 - 0.005 <= x < n as real / 100.0 + 0.005 && c in CURRENCIES
    ensures Create(Exact, Finite(x), c) == if n < 0 then Err(NegativeAmount) else Ok(OfCents(Exact, n, c))
  {
    HalfUp(x * 100.0, n);
  }

  /** Sums and differences of whole cents are exact; a difference exists exactly when it is not negative. */
  lemma ExactSums(n: int, m: int, c: string)
    requires 0 <= n && 0 <= m && c in CURRENCIES
    ensures AddsCents(Exact, n, m, c) && SubtractsCents(Exact, n, m, c)
  {
    CreateCents(n as real / 100.0 + m as real / 100.0, n + m, c);
    CreateCents(n as real / 100.0 - m as real / 100.0, n - m, c);
  }

  /** Multiplying rounds the exact product half up, and is refused exactly when that is negative. */
  lemma ExactMultiply(n: int, x: real, c: string)
    requires 0 <= n && c in CURRENCIES
    ensures var r := RoundHalfUp(Product(n as real, x));
            Multiply(Exact, OfCents(Exact, n, c), Finite(x))
              == if r < 0 then Err(NegativeAmount) else Ok(OfCents(Exact, r, c))
  {
    var r := RoundHalfUp(Product(n as real, x));
    HalfUp(Product(n as real, x), r);
    assert Product(n as real / 100.0, x) == Product(n as real, x) / 100.0;
    CreateCents(Product(n as real, x) / 100.0, r, c);
  }

  lemma CentShare(n: int, p: real)
    ensures n as real / 100.0 * p == Share(n as real, p)
  {
    assert n as real / 100.0 * p == n as real * p / 100.0;
  }

  /** In exact arithmetic a percentage is the exact share rounded half up. */
  lemma ExactPercent(n: int, p: real, c: string)
    requires 0 <= n && 0.0 <= p <= 100.0 && c in CURRENCIES
    ensures PercentCents(Exact, n, p) == RoundHalfUp(Share(n as real, p))
    ensures TakesPercent(Exact, n, p, c, 0.5)
  {
    var x := Share(n as real, p);
    var r := RoundHalfUp(x);
    ShareBounds(n as real, p);
    CentShare(n, p);
    HalfUp(x, r);
    CreateCents(x / 100.0, r, c);
    assert Times(Exact, Exact(n as real / 100.0), Finite(p)) == Finite(x);
    assert Percentage(Exact, OfCents(Exact, n, c), Finite(p)) == Create(Exact, Finite(x / 100.0), c);
    assert CentsOf(Exact, Finite(x / 100.0)) == Finite(r as real);
  }

  lemma ExactMakes(n: int, c: string)
    requires c in CURRENCIES
    ensures MakesCents(Exact, n, c)
  {
    HalfUp(n as real, n);
    assert n as real / 100.0 * 100.0 == n as real;
  }

  lemma ExactMultiple(n: int, q: int, c: string)
    requires 0 <= n && 0 <= q && c in CURRENCIES
    ensures MultipliesCents(Exact, n, q, c)
  {
    assert Product(n as real, q as real) == (n * q) as real;
    HalfUp((n * q) as real, n * q);
    ExactMultiply(n, q as real, c);
  }

  /** Exact arithmetic counts cents of any size. */
  lemma ExactCounts(top: int, c: string)
    requires c in CURRENCIES
    ensures Counts(Exact, top, c)
  {
    hide MakesCents, AddsCents, SubtractsCents, MultipliesCents;
    forall n | -top <= n <= top
      ensures MakesCents(Exact, n, c)
    {
      ExactMakes(n, c);
    }
    forall n, m | 0 <= n && 0 <= m && n + m <= top
      ensures AddsCents(Exact, n, m, c)
    {
      ExactSums(n, m, c);
    }
    forall n, m | 0 <= n <= top && 0 <= m <= top
      ensures SubtractsCents(Exact, n, m, c)
    {
      ExactSums(n, m, c);
    }
    forall n, q | 0 <= n <= top && 0 <= q && n * q <= top
      ensures MultipliesCents(Exact, n, q, c)
    {
      ExactMultiple(n, q, c);
    }
  }

  lemma ExactTracks(top: int, c: string)
    requires c in CURRENCIES
    ensures Tracks(Exact, 0.5, top, c)
  {
    hide Counts, TakesPercent;
    ExactCounts(top, c);
    forall n, p | 0 <= n <= top && 0.0 <= p <= 100.0
      ensures TakesPercent(Exact, n, p, c, 0.5)
    {
      ExactPercent(n, p, c);
    }
  }

  lemma ShareComplement(x: real, p: real)
    ensures Share(x, 100.0 - p) == x - Share(x, p)
  {
    assert x * (100.0 - p) == x * 100.0 - x * p;
  }

  lemma SplitHalfUp(n: int, x: real)
    ensures RoundHalfUp(x) + RoundHalfUp(n as real - x) == if x - 0.5 == x.Floor as real then n + 1 else n
  {
    var f, g := x.Floor, x - x.Floor as real;
    if g < 0.5 {
      HalfUp(x, f);
      HalfUp(n as real - x, n - f);
    } else if g == 0.5 {
      HalfUp(x, f + 1);
      HalfUp(n as real - x, n - f);
    } else {
      HalfUp(x, f + 1);
      HalfUp(n as real - x, n - f - 1);
    }
  }

  /**
   A percentage and its complement make up the amount, with one cent too many exactly when the split
   falls on half a cent.
   */
  lemma ComplementSplit(n: int, p: real)
    requires 0 <= n && 0.0 <= p <= 100.0
    ensures var x := Share(n as real, p);
            PercentCents(Exact, n, p) + PercentCents(Exact, n, 100.0 - p)
              == if x - 0.5 == x.Floor as real then n + 1 else n
  {
    var x := Share(n as real, p);
    ShareComplement(n as real, p);
    SplitHalfUp(n, x);
    ExactPercent(n, p, "IDR");
    ExactPercent(n, 100.0 - p, "IDR");
  }

  lemma ShareMonotone(x: real, y: real, p: real, q: real)
    requires 0.0 <= x <= y && 0.0 <= p <= q
    ensures Share(x, p) <= Share(y, q)
  {
    assert x * p <= y * p <= y * q;
  }

  lemma RoundMonotone(x: real, y: real)
    requires x <= y
    ensures RoundHalfUp(x) <= RoundHalfUp(y)
  {
  }

  /** Percentages grow with the amount and with the percentage. */
  lemma PercentMonotone(n: int, m: int, p: real, q: real)
    requires 0 <= n <= m && 0.0 <= p <= q <= 100.0
    ensures PercentCents(Exact, n, p) <= PercentCents(Exact, m, q)
  {
    ExactPercent(n, p, "IDR");
    ExactPercent(m, q, "IDR");
    ShareMonotone(n as real, m as real, p, q);
    hide Share, PercentCents;
    RoundMonotone(Share(n as real, p), Share(m as real, q));
  }

  /** In exact arithmetic: any chain of `k` discounts ends within `k / 2` cents of the exact product. */
  lemma DiscountsInCents(n: nat, ps: seq<real>, c: string) returns (k: int)
    requires Percents(ps) && c in CURRENCIES
    ensures Discounted(Exact, OfCents(Exact, n, c), ps) == Ok(OfCents(Exact, k, c))
    ensures 0 <= k <= n
    ensures Abs(k as real - Ideal(n as real, ps)) <= |ps| as real * 0.5
  {
    hide Discounted, Tracks, OfCents, Ideal;
    ExactTracks(n, c);
    k := DiscountChain(Exact, 0.5, n, c, n, ps);
  }

  /** In exact arithmetic: summing `n` percentages and taking one of the sum differ by at most `(n + 1) / 2` cents. */
  lemma PercentageOfSumInCents(ns: seq<nat>, p: real, c: string) returns (apart: int, whole: int)
    requires 0.0 <= p <= 100.0 && c in CURRENCIES
    ensures SumOfPercentages(Exact, OfCents(Exact, 0, c), Amounts(Exact, ns, c), p) == Ok(OfCents(Exact, apart, c))
    ensures SumOf(Exact, OfCents(Exact, 0, c), Amounts(Exact, ns, c)) == Ok(OfCents(Exact, CentSum(ns), c))
    ensures Percentage(Exact, OfCents(Exact, CentSum(ns), c), Finite(p)) == Ok(OfCents(Exact, whole, c))
    ensures Abs(apart as real - whole as real) <= (|ns| + 1) as real * 0.5
  {
    hide SumOf, SumOfPercentages, Amounts, Percentage, Tracks, OfCents, CentSum;
    ExactTracks(CentSum(ns), c);
    apart, whole := PercentageOfSum(Exact, 0.5, CentSum(ns), c, ns, p);
  }
}
