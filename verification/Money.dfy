/**
 The `Money` value object. A JavaScript number is NaN, an infinity or a real; the arithmetic
 operations compute exactly and then round with `fl`, which every operation takes as an argument.
 `Exact` is the rounding that does nothing, so `Create(Exact, ..)` and its siblings are cents
 arithmetic; other modules say what survives when `fl` is a binary64 rounding.

 The sign of zero is not kept: `===`, `<` and `toFixed` do not see it.
 */
module Money {

  datatype Number = NaN | Infinite(negative: bool) | Finite(v: real)

  type Rounding = real -> Number

  function Exact(x: real): Number { Finite(x) }

  function Plus(fl: Rounding, a: Number, b: Number): Number {
    match (a, b)
    case (Finite(x), Finite(y)) => fl(x + y)
    case (Infinite(s), Infinite(t)) => if s == t then a else NaN
    case (NaN, _) => NaN
    case (_, NaN) => NaN
    case (Infinite(_), _) => a
    case (_, Infinite(_)) => b
  }

  function Negated(a: Number): Number {
    match a
    case NaN => NaN
    case Infinite(s) => Infinite(!s)
    case Finite(x) => Finite(-x)
  }

  function Minus(fl: Rounding, a: Number, b: Number): Number { Plus(fl, a, Negated(b)) }

  function Product(x: real, y: real): real { x * y }

  function Times(fl: Rounding, a: Number, b: Number): Number {
    match (a, b)
    case (Finite(x), Finite(y)) => fl(Product(x, y))
    case (Infinite(s), Infinite(t)) => Infinite(s != t)
    case (Infinite(s), Finite(y)) => if y == 0.0 then NaN else Infinite(s != (y < 0.0))
    case (Finite(x), Infinite(t)) => if x == 0.0 then NaN else Infinite(t != (x < 0.0))
    case _ => NaN
  }

  /** Division by the positive number the source divides by. */
  function DividedBy100(fl: Rounding, a: Number): Number {
    if a.Finite? then fl(a.v / 100.0) else a
  }

  /** Half up, as `Math.round`: the integer nearest to `x`, the larger one on a tie. */
  function RoundHalfUp(x: real): int { (x + 0.5).Floor }

  function MathRound(a: Number): Number {
    if a.Finite? then Finite(RoundHalfUp(a.v) as real) else a
  }

  /** `a < b`, which is false when either is NaN. */
  predicate Less(a: Number, b: Number) {
    match (a, b)
    case (Finite(x), Finite(y)) => x < y
    case (Infinite(s), Finite(_)) => s
    case (Finite(_), Infinite(t)) => !t
    case (Infinite(s), Infinite(t)) => s && !t
    case _ => false
  }

  /** `a === b` */
  predicate StrictEqual(a: Number, b: Number) { a == b && !a.NaN? }

  predicate LessOrEqual(a: Number, b: Number) { Less(a, b) || StrictEqual(a, b) }

  // ---------------------------------------------------------------- the value object

  datatype Error =
    InvalidAmount | NegativeAmount | InvalidCurrency | CurrencyMismatch | InvalidMultiplier | InvalidPercentage

  datatype Result<+T> = Ok(value: T) | Err(error: Error)

  datatype Money = Money(amount: Number, currency: string)

  const CURRENCIES: set<string> := {"IDR", "USD", "EUR", "SGD", "MYR"}

  /** The private constructor with `validate`. */
  function New(amount: Number, currency: string): Result<Money> {
    if !amount.Finite? then Err(InvalidAmount)
    else if Less(amount, Finite(0.0)) then Err(NegativeAmount)
    else if currency !in CURRENCIES then Err(InvalidCurrency)
    else Ok(Money(amount, currency))
  }

  /** The cents `create` rounds a finite amount to. */
  function CentsOf(fl: Rounding, amount: Number): Number { MathRound(Times(fl, amount, Finite(100.0))) }

  function Create(fl: Rounding, amount: Number, currency: string): Result<Money> {
    New(DividedBy100(fl, CentsOf(fl, amount)), currency)
  }

  function Zero(currency: string): Result<Money> { New(Finite(0.0), currency) }

  predicate Equals(a: Money, b: Money) { StrictEqual(a.amount, b.amount) && a.currency == b.currency }

  function IsGreaterThan(a: Money, b: Money): Result<bool> {
    if a.currency != b.currency then Err(CurrencyMismatch) else Ok(Less(b.amount, a.amount))
  }

  function IsLessThan(a: Money, b: Money): Result<bool> {
    if a.currency != b.currency then Err(CurrencyMismatch) else Ok(Less(a.amount, b.amount))
  }

  function IsGreaterThanOrEqual(a: Money, b: Money): Result<bool> {
    if a.currency != b.currency then Err(CurrencyMismatch) else Ok(LessOrEqual(b.amount, a.amount))
  }

  function IsLessThanOrEqual(a: Money, b: Money): Result<bool> {
    if a.currency != b.currency then Err(CurrencyMismatch) else Ok(LessOrEqual(a.amount, b.amount))
  }

  function Add(fl: Rounding, a: Money, b: Money): Result<Money> {
    if a.currency != b.currency then Err(CurrencyMismatch)
    else Create(fl, Plus(fl, a.amount, b.amount), a.currency)
  }

  function Subtract(fl: Rounding, a: Money, b: Money): Result<Money> {
    if a.currency != b.currency then Err(CurrencyMismatch)
    else Create(fl, Minus(fl, a.amount, b.amount), a.currency)
  }

  function Multiply(fl: Rounding, a: Money, multiplier: Number): Result<Money> {
    if !multiplier.Finite? then Err(InvalidMultiplier)
    else Create(fl, Times(fl, a.amount, multiplier), a.currency)
  }

  function Percentage(fl: Rounding, a: Money, percent: Number): Result<Money> {
    if Less(percent, Finite(0.0)) || Less(Finite(100.0), percent) then Err(InvalidPercentage)
    else Create(fl, DividedBy100(fl, Times(fl, a.amount, percent)), a.currency)
  }

  /** The Money whose amount is the float nearest to `n` cents. */
  function OfCents(fl: Rounding, n: int, currency: string): Money {
    Money(fl(n as real / 100.0), currency)
  }

  /** How the operators treat what is not finite: NaN spreads, infinities win unless they cancel. */
  lemma SpecialNumbers(fl: Rounding, a: Number, b: Number, s: bool)
    ensures Plus(fl, NaN, a) == Plus(fl, a, NaN) == Times(fl, NaN, a) == Times(fl, a, NaN) == NaN
    ensures Plus(fl, Infinite(s), a) == Plus(fl, a, Infinite(s))
              == if a.NaN? || a == Infinite(!s) then NaN else Infinite(s)
    ensures Minus(fl, Infinite(s), Infinite(s)) == NaN
    ensures Times(fl, Infinite(s), a) == Times(fl, a, Infinite(s))
    ensures LessOrEqual(a, b) && LessOrEqual(b, a) ==> a == b
    ensures a.NaN? || b.NaN? <==> !LessOrEqual(a, b) && !LessOrEqual(b, a)
    ensures !a.NaN? ==> LessOrEqual(Infinite(true), a) && LessOrEqual(a, Infinite(false))
  {
  }

  // ---------------------------------------------------------------- whatever the rounding

  /** A Money that `validate` lets exist. */
  ghost predicate Sound(fl: Rounding, m: Money) {
    && m.amount.Finite? && 0.0 <= m.amount.v && m.currency in CURRENCIES
    && exists n: int :: m == OfCents(fl, n, m.currency)
  }

  lemma CreatedFromCents(fl: Rounding, amount: Number, currency: string)
    requires CentsOf(fl, amount).Finite?
    ensures var n := RoundHalfUp(Times(fl, amount, Finite(100.0)).v);
            && CentsOf(fl, amount) == Finite(n as real)
            && Create(fl, amount, currency) == New(OfCents(fl, n, currency).amount, currency)
  {
  }

  /** Whatever goes in, NaN and overflow included, what comes out is finite, non-negative and whole cents. */
  lemma CreatedIsSound(fl: Rounding, amount: Number, currency: string)
    ensures Create(fl, amount, currency).Ok? ==> Sound(fl, Create(fl, amount, currency).value)
  {
    if Create(fl, amount, currency).Ok? {
      CreatedFromCents(fl, amount, currency);
      var n := RoundHalfUp(Times(fl, amount, Finite(100.0)).v);
      assert Create(fl, amount, currency).value == OfCents(fl, n, currency);
    }
  }

  /** Every operation that returns a Money returns a sound one in the receiver's currency. */
  lemma OperationsAreSound(fl: Rounding, a: Money, b: Money, x: Number)
    ensures Add(fl, a, b).Ok? ==>
              Sound(fl, Add(fl, a, b).value) && Add(fl, a, b).value.currency == a.currency == b.currency
    ensures Subtract(fl, a, b).Ok? ==>
              Sound(fl, Subtract(fl, a, b).value) && Subtract(fl, a, b).value.currency == a.currency == b.currency
    ensures Multiply(fl, a, x).Ok? ==>
              Sound(fl, Multiply(fl, a, x).value) && Multiply(fl, a, x).value.currency == a.currency
    ensures Percentage(fl, a, x).Ok? ==>
              Sound(fl, Percentage(fl, a, x).value) && Percentage(fl, a, x).value.currency == a.currency
    ensures x.NaN? ==> Create(fl, x, a.currency).Err? && Multiply(fl, a, x).Err? && Percentage(fl, a, x).Err?
  {
    CreatedIsSound(fl, Plus(fl, a.amount, b.amount), a.currency);
    CreatedIsSound(fl, Minus(fl, a.amount, b.amount), a.currency);
    CreatedIsSound(fl, Times(fl, a.amount, x), a.currency);
    CreatedIsSound(fl, DividedBy100(fl, Times(fl, a.amount, x)), a.currency);
  }

  // ---------------------------------------------------------------- which error

  lemma CurrencyList(c: string)
    ensures c in CURRENCIES <==> c == "IDR" || c == "USD" || c == "EUR" || c == "SGD" || c == "MYR"
    ensures Zero(c) == if c in CURRENCIES then Ok(Money(Finite(0.0), c)) else Err(InvalidCurrency)
  {
  }

  /** Different currencies are never compared or combined, and that is the only reason for this error. */
  lemma CurrenciesMustMatch(fl: Rounding, a: Money, b: Money)
    ensures a.currency != b.currency <==> Add(fl, a, b) == Err(CurrencyMismatch)
    ensures a.currency != b.currency <==> Subtract(fl, a, b) == Err(CurrencyMismatch)
    ensures a.currency != b.currency <==> IsGreaterThan(a, b) == Err(CurrencyMismatch)
    ensures a.currency != b.currency <==> IsLessThan(a, b) == Err(CurrencyMismatch)
    ensures a.currency != b.currency <==> IsGreaterThanOrEqual(a, b) == Err(CurrencyMismatch)
    ensures a.currency != b.currency <==> IsLessThanOrEqual(a, b) == Err(CurrencyMismatch)
    ensures a.currency != b.currency ==> !Equals(a, b)
  {
    hide CentsOf, Plus, Minus;
  }

  /** Which arguments `multiply` and `percentage` refuse as such; NaN percentages are refused as amounts. */
  lemma ArgumentErrors(fl: Rounding, a: Money, x: Number)
    ensures Multiply(fl, a, x) == Err(InvalidMultiplier) <==> !x.Finite?
    ensures Percentage(fl, a, x) == Err(InvalidPercentage) <==>
            x.Infinite? || (x.Finite? && (x.v < 0.0 || 100.0 < x.v))
    ensures Percentage(fl, a, NaN) == Err(InvalidAmount)
  {
    hide Plus;
  }
}
