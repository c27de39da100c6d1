/**
 What the order aggregate promises, over whole runs: the pricing rule and exactly when it breaks, the
 finality of completed and cancelled orders, and an event log that replays to the current status.

 Prices are stated in cents, for every arithmetic that counts cents up to `top`: exact arithmetic for any
 `top`, binary64 up to ten billion. The lemmas named `..InCents` and `..InDoubles` are those two cases.
 */
module OrderRuns {
  import opened Options
  import opened Money
  import opened MoneyCents
  import opened MoneyRounding
  import opened Orders

  // ---------------------------------------------------------------- amounts in cents

  function CentsIn(fl: Rounding, m: Money): int {
    match CentsOf(fl, m.amount)
    case Finite(v) => v.Floor
    case _ => -1
  }

  /** `m` is the float nearest to a whole number of cents, at most `top`, in currency `c`. */
  predicate WholeCents(fl: Rounding, top: int, m: Money, c: string) {
    0 <= CentsIn(fl, m) <= top && m == OfCents(fl, CentsIn(fl, m), c)
  }

  lemma CentsOfCents(fl: Rounding, top: int, n: nat, c: string)
    requires Counts(fl, top, c) && n <= top
    ensures CentsIn(fl, OfCents(fl, n, c)) == n && WholeCents(fl, top, OfCents(fl, n, c), c)
  {
    assert MakesCents(fl, n, c);
    assert (n as real).Floor == n;
  }

  function Gross(fl: Rounding, o: State): int {
    CentsIn(fl, o.subtotal) + CentsIn(fl, o.tax) + CentsIn(fl, o.shippingCost)
  }

  /** All amounts of the order are whole cents in its currency, and so are their sums. */
  predicate Priced(fl: Rounding, top: int, o: State) {
    && WholeCents(fl, top, o.subtotal, o.currency) && WholeCents(fl, top, o.tax, o.currency)
    && WholeCents(fl, top, o.shippingCost, o.currency) && WholeCents(fl, top, o.discountAmount, o.currency)
    && WholeCents(fl, top, o.total, o.currency) && Gross(fl, o) <= top
  }

  /** The documented rule: total = subtotal + tax + shipping cost - discount. */
  predicate Balanced(fl: Rounding, o: State) {
    CentsIn(fl, o.total) == Gross(fl, o) - CentsIn(fl, o.discountAmount)
  }

  lemma AddWholeCents(fl: Rounding, top: int, a: Money, b: Money, c: string)
    requires Counts(fl, top, c) && WholeCents(fl, top, a, c) && WholeCents(fl, top, b, c)
    ensures var n, m := CentsIn(fl, a), CentsIn(fl, b);
            && (n + m <= top ==> Add(fl, a, b) == Ok(OfCents(fl, n + m, c)))
            && Subtract(fl, a, b) == if n < m then Err(NegativeAmount) else Ok(OfCents(fl, n - m, c))
  {
    hide Add, Subtract, OfCents, CentsIn;
    var n, m := CentsIn(fl, a), CentsIn(fl, b);
    assert SubtractsCents(fl, n, m, c);
    if n + m <= top {
      assert AddsCents(fl, n, m, c);
    }
  }

  /** Whatever discount `d` is stored, the new total takes it off the gross amount. */
  lemma TakenOffGross(fl: Rounding, top: int, o: State, d: Money)
    requires Counts(fl, top, o.currency) && Priced(fl, top, o)
    ensures NewTotal(fl, o.(discountAmount := d)) == Subtract(fl, OfCents(fl, Gross(fl, o), o.currency), d)
  {
    hide Counts, Add, Subtract, OfCents, CentsIn;
    var c := o.currency;
    var both := CentsIn(fl, o.subtotal) + CentsIn(fl, o.tax);
    AddWholeCents(fl, top, o.subtotal, o.tax, c);
    CentsOfCents(fl, top, both, c);
    AddWholeCents(fl, top, OfCents(fl, both, c), o.shippingCost, c);
  }

  /** What `recalculateTotal` computes, and when it throws. */
  lemma NewTotalInCents(fl: Rounding, top: int, o: State)
    requires Counts(fl, top, o.currency) && Priced(fl, top, o)
    ensures NewTotal(fl, o) == if Gross(fl, o) < CentsIn(fl, o.discountAmount) then Err(NegativeAmount)
                               else Ok(OfCents(fl, Gross(fl, o) - CentsIn(fl, o.discountAmount), o.currency))
  {
    hide Counts, Add, Subtract, OfCents, CentsIn, NewTotal;
    TakenOffGross(fl, top, o, o.discountAmount);
    assert o.(discountAmount := o.discountAmount) == o;
    CentsOfCents(fl, top, Gross(fl, o), o.currency);
    AddWholeCents(fl, top, OfCents(fl, Gross(fl, o), o.currency), o.discountAmount, o.currency);
  }

  // ---------------------------------------------------------------- the pricing rule

  /** The amount is not a finite one beyond `top` cents. */
  predicate Within(fl: Rounding, top: int, amount: Number) {
    CentsOf(fl, amount).Finite? ==> -top as real <= CentsOf(fl, amount).v <= top as real
  }

  predicate CommandWithin(fl: Rounding, top: int, c: Command) {
    c.ApplyDiscount? ==> Within(fl, top, c.amount)
  }

  /** Which amounts `create` accepts, and the whole cents it makes of them. */
  lemma CreateWithin(fl: Rounding, top: int, amount: Number, c: string)
    requires Counts(fl, top, c) && Within(fl, top, amount)
    ensures Create(fl, amount, c).Ok? <==> CentsOf(fl, amount).Finite? && 0.0 <= CentsOf(fl, amount).v
    ensures Create(fl, amount, c).Ok? ==>
              var m := Create(fl, amount, c).value;
              WholeCents(fl, top, m, c) && CentsIn(fl, m) as real == CentsOf(fl, amount).v
    ensures Create(fl, amount, c).Err? ==>
              Create(fl, amount, c).error == if CentsOf(fl, amount).Finite? then NegativeAmount else InvalidAmount
  {
    if CentsOf(fl, amount).Finite? {
      CreatedFromCents(fl, amount, c);
      var n := RoundHalfUp(Times(fl, amount, Finite(100.0)).v);
      assert MakesCents(fl, n, c);
      if 0 <= n {
        CentsOfCents(fl, top, n, c);
      }
    }
  }

  /** The order may still be modified. */
  predicate IsOpen(o: State) { o.status != Completed && o.status != Cancelled }

  /**
   The commands that leave the pricing rule broken: a discount larger than what it is taken from, on an
   order that may still be modified. The call throws, but only after the discount has been stored.
   */
  predicate Overshoots(fl: Rounding, o: State, c: Command) {
    && c.ApplyDiscount? && IsOpen(o)
    && Create(fl, c.amount, o.currency).Ok?
    && CentsIn(fl, Create(fl, c.amount, o.currency).value) > Gross(fl, o)
  }

  /** Commands that store a discount and so decide the rule afresh. */
  predicate Reprices(fl: Rounding, o: State, c: Command) {
    IsOpen(o) && (c.RemoveDiscount? || (c.ApplyDiscount? && Create(fl, c.amount, o.currency).Ok?))
  }

  /** After storing discount `d`, recalculating balances the order exactly when the discount is covered. */
  lemma RecalculateBalances(fl: Rounding, top: int, o: State)
    requires Counts(fl, top, o.currency) && Priced(fl, top, o)
    ensures var after := RecalculateTotal(fl, o);
            && Priced(fl, top, after.state)
            && (after.outcome == Returned <==> CentsIn(fl, o.discountAmount) <= Gross(fl, o))
            && (Balanced(fl, after.state) <==> CentsIn(fl, o.discountAmount) <= Gross(fl, o))
            && (after.outcome != Returned ==> after.state == o)
  {
    hide Counts, OfCents, CentsIn, NewTotal;
    NewTotalInCents(fl, top, o);
    if CentsIn(fl, o.discountAmount) <= Gross(fl, o) {
      CentsOfCents(fl, top, Gross(fl, o) - CentsIn(fl, o.discountAmount), o.currency);
    }
  }

  lemma ZeroInCents(fl: Rounding, top: int, c: string)
    requires Counts(fl, top, c) && 0 <= top
    ensures Zero(c).Ok? && WholeCents(fl, top, Zero(c).value, c) && CentsIn(fl, Zero(c).value) == 0
  {
    CentsOfCents(fl, top, 0, c);
  }

  lemma ApplyDiscountBalances(fl: Rounding, top: int, o: State, id: string, amount: Number)
    requires Counts(fl, top, o.currency) && Priced(fl, top, o) && Within(fl, top, amount)
    requires IsOpen(o) && Create(fl, amount, o.currency).Ok?
    ensures var after := Step(fl, o, ApplyDiscount(id, amount));
            && Priced(fl, top, after.state)
            && (Balanced(fl, after.state) <==> !Overshoots(fl, o, ApplyDiscount(id, amount)))
            && (after.outcome == Returned <==> !Overshoots(fl, o, ApplyDiscount(id, amount)))
  {
    hide Counts, Create, OfCents, CentsIn, RecalculateTotal;
    var d := Create(fl, amount, o.currency).value;
    CreateWithin(fl, top, amount, o.currency);
    RecalculateBalances(fl, top, o.(discountId := Some(id), discountAmount := d));
  }

  lemma RemoveDiscountBalances(fl: Rounding, top: int, o: State)
    requires Counts(fl, top, o.currency) && Priced(fl, top, o) && IsOpen(o)
    ensures var after := Step(fl, o, RemoveDiscount);
            Priced(fl, top, after.state) && Balanced(fl, after.state) && after.outcome == Returned
  {
    hide Counts, Create, OfCents, CentsIn, RecalculateTotal;
    ZeroInCents(fl, top, o.currency);
    RecalculateBalances(fl, top, o.(discountId := None, discountAmount := Zero(o.currency).value));
  }

  /**
   After a command the order is balanced exactly when the command repriced it without overshooting, or
   did not reprice it and it was balanced before.
   */
  lemma StepBalances(fl: Rounding, top: int, o: State, c: Command)
    requires Counts(fl, top, o.currency) && Priced(fl, top, o) && CommandWithin(fl, top, c)
    ensures Priced(fl, top, Step(fl, o, c).state) && Step(fl, o, c).state.currency == o.currency
    ensures Balanced(fl, Step(fl, o, c).state) <==>
            if Reprices(fl, o, c) then !Overshoots(fl, o, c) else Balanced(fl, o)
  {
    hide Counts, Create, OfCents, CentsIn, NewTotal;
    match c
    case ApplyDiscount(id, amount) =>
      if Reprices(fl, o, c) {
        ApplyDiscountBalances(fl, top, o, id, amount);
      }
    case RemoveDiscount =>
      if Reprices(fl, o, c) {
        RemoveDiscountBalances(fl, top, o);
      }
    case _ =>
  }

  /** No command of the run overshoots at the point where it is called. */
  predicate NeverOvershoots(fl: Rounding, o: State, cs: seq<Command>)
    decreases |cs|
  {
    cs != [] ==> !Overshoots(fl, o, cs[0]) && NeverOvershoots(fl, Step(fl, o, cs[0]).state, cs[1..])
  }

  /** Over any run without an overshooting discount, the pricing rule holds throughout. */
  lemma {:induction false} RunBalances(fl: Rounding, top: int, o: State, cs: seq<Command>)
    requires Counts(fl, top, o.currency) && Priced(fl, top, o) && Balanced(fl, o)
    requires (forall c :: c in cs ==> CommandWithin(fl, top, c)) && NeverOvershoots(fl, o, cs)
    ensures Priced(fl, top, Run(fl, o, cs)) && Balanced(fl, Run(fl, o, cs))
    decreases |cs|
  {
    if cs == [] {
    } else {
      hide Counts, Priced, Balanced, Overshoots, Step, CommandWithin;
      StepBalances(fl, top, o, cs[0]);
      RunBalances(fl, top, Step(fl, o, cs[0]).state, cs[1..]);
    }
  }

  /** A bound on the discounts of a run. */
  lemma {:induction false} SomeTop(fl: Rounding, cs: seq<Command>) returns (top: nat)
    ensures forall c :: c in cs ==> CommandWithin(fl, top, c)
    decreases |cs|
  {
    if cs == [] {
      top := 0;
    } else {
      var rest := SomeTop(fl, cs[1..]);
      var one := SomeBound(fl, if cs[0].ApplyDiscount? then cs[0].amount else NaN);
      hide Within;
      top := rest + one;
      forall c | c in cs
        ensures CommandWithin(fl, top, c)
      {
        if c.ApplyDiscount? && c != cs[0] {
          assert c in cs[1..] && CommandWithin(fl, rest, c);
          WithinMore(fl, rest, top, c.amount);
        } else if c.ApplyDiscount? {
          WithinMore(fl, one, top, c.amount);
        }
      }
    }
  }

  lemma SomeBound(fl: Rounding, amount: Number) returns (top: nat)
    ensures Within(fl, top, amount)
  {
    top := 0;
    if CentsOf(fl, amount).Finite? {
      var v := CentsOf(fl, amount).v;
      top := if v < 0.0 then (-v).Floor + 1 else v.Floor + 1;
    }
  }

  lemma WithinMore(fl: Rounding, low: int, high: int, amount: Number)
    requires Within(fl, low, amount) && low <= high
    ensures Within(fl, high, amount)
  {
  }

  /** In exact arithmetic: the pricing rule over any run, with amounts of any size. */
  lemma RunBalancesInCents(top: int, o: State, cs: seq<Command>) returns (more: int)
    requires o.currency in CURRENCIES && Priced(Exact, top, o) && Balanced(Exact, o) && NeverOvershoots(Exact, o, cs)
    ensures Priced(Exact, more, Run(Exact, o, cs)) && Balanced(Exact, Run(Exact, o, cs))
  {
    hide Within, CentsIn, Run, NeverOvershoots, OfCents;
    var bound := SomeTop(Exact, cs);
    more := if top < bound then bound else top;
    forall c | c in cs
      ensures CommandWithin(Exact, more, c)
    {
      if c.ApplyDiscount? {
        assert CommandWithin(Exact, bound, c);
        WithinMore(Exact, bound, more, c.amount);
      }
    }
    ExactCounts(more, o.currency);
    RunBalances(Exact, more, o, cs);
  }

  /** In binary64: the pricing rule over any run, with amounts up to ten billion. */
  lemma RunBalancesInDoubles(fl: Rounding, o: State, cs: seq<Command>)
    requires IsRounding(fl) && o.currency in CURRENCIES && Priced(fl, TOP, o) && Balanced(fl, o)
    requires (forall c :: c in cs ==> CommandWithin(fl, TOP, c)) && NeverOvershoots(fl, o, cs)
    ensures Priced(fl, TOP, Run(fl, o, cs)) && Balanced(fl, Run(fl, o, cs))
  {
    hide *;
    RoundingCounts(fl, o.currency);
    RunBalances(fl, TOP, o, cs);
  }

  /** Any overshooting discount breaks the rule: the call throws, yet the discount stays, next to the old total. */
  lemma OvershootingBreaks(fl: Rounding, top: int, o: State, id: string, amount: Number)
    requires Counts(fl, top, o.currency) && Priced(fl, top, o) && Within(fl, top, amount)
    requires Overshoots(fl, o, ApplyDiscount(id, amount))
    ensures var after := Step(fl, o, ApplyDiscount(id, amount));
            && after.outcome == Threw(MoneyError(NegativeAmount))
            && after.state.discountId == Some(id)
            && after.state.discountAmount == Create(fl, amount, o.currency).value
            && after.state.total == o.total
            && Priced(fl, top, after.state) && !Balanced(fl, after.state)
  {
    hide Counts, Create, OfCents, CentsIn, NewTotal;
    CreateWithin(fl, top, amount, o.currency);
    var d := Create(fl, amount, o.currency).value;
    NewTotalInCents(fl, top, o.(discountId := Some(id), discountAmount := d));
    ApplyDiscountBalances(fl, top, o, id, amount);
  }

  /** Every order that may still be modified has a discount that breaks it: the next whole amount above its worth. */
  lemma OvershootExists(fl: Rounding, top: int, o: State, id: string)
    requires Counts(fl, top, o.currency) && Priced(fl, top, o) && IsOpen(o)
    requires 100 * (Gross(fl, o) / 100 + 1) <= top
    ensures var whole := Gross(fl, o) / 100 + 1;
            && Within(fl, top, Finite(whole as real))
            && Overshoots(fl, o, ApplyDiscount(id, Finite(whole as real)))
  {
    var whole := Gross(fl, o) / 100 + 1;
    var n := 100 * whole;
    assert MakesCents(fl, n, o.currency);
    assert n as real / 100.0 == whole as real;
    assert CentsOf(fl, Finite(whole as real)) == Finite(n as real);
    hide Counts, Create, OfCents, CentsIn, CentsOf;
    CreateWithin(fl, top, Finite(whole as real), o.currency);
  }

  /** A float past ten billion, less one within, is clearly negative. */
  lemma FarApart(fl: Rounding, n: int, g: int)
    requires IsRounding(fl) && IsMonotone(fl) && TOP < n && 0 <= g <= TOP
    requires fl(n as real / 100.0).Finite?
    ensures fl(g as real / 100.0).Finite?
    ensures fl(g as real / 100.0).v - fl(n as real / 100.0).v <= -0.009
  {
    var next := (TOP + 1) as real / 100.0;
    Rounds(fl, next, next);
    CentsFloat(fl, g);
    assert LessOrEqual(fl(next), fl(n as real / 100.0));
  }

  /** Nothing that comes from a clearly negative number is accepted, however large it is. */
  lemma NegativeRefused(fl: Rounding, x: real, c: string)
    requires IsRounding(fl) && IsMonotone(fl) && x <= -0.009
    ensures Create(fl, fl(x), c).Err?
  {
    Rounds(fl, -0.009, 0.009);
    Rounds(fl, -0.8, 0.8);
    Rounds(fl, -0.01, 0.01);
    assert LessOrEqual(fl(x), fl(-0.009));
    if fl(x).Finite? {
      var z := Product(fl(x).v, 100.0);
      assert LessOrEqual(fl(z), fl(-0.8));
      if fl(z).Finite? {
        RoundMonotone(fl(z).v, -0.51);
        HalfUp(-0.51, -1);
        assert LessOrEqual(fl(RoundHalfUp(fl(z).v) as real / 100.0), fl(-0.01));
      }
    }
  }

  /** In binary64, for finite amounts of any size: a discount past ten billion throws, and stays stored too. */
  lemma HugeDiscountThrows(fl: Rounding, o: State, id: string, amount: Number)
    requires IsRounding(fl) && IsMonotone(fl) && o.currency in CURRENCIES
    requires Priced(fl, TOP, o) && IsOpen(o)
    requires Create(fl, amount, o.currency).Ok? && CentsOf(fl, amount).v > TOP as real
    ensures var after := Step(fl, o, ApplyDiscount(id, amount));
            && after.outcome.Threw? && after.outcome.error.MoneyError?
            && after.state == o.(discountId := Some(id), discountAmount := Create(fl, amount, o.currency).value)
  {
    hide IsRounding, IsMonotone, Counts, CentsOf, Create, CentsIn, NewTotal;
    var d := Create(fl, amount, o.currency).value;
    RoundingCounts(fl, o.currency);
    TakenOffGross(fl, TOP, o, d);
    assert o.(discountId := Some(id)).(discountAmount := d) == o.(discountAmount := d).(discountId := Some(id));
    NameIsFree(fl, o.(discountAmount := d), id);
    HugeRefused(fl, amount, Gross(fl, o), o.currency);
  }

  lemma NameIsFree(fl: Rounding, o: State, id: string)
    ensures NewTotal(fl, o.(discountId := Some(id))) == NewTotal(fl, o)
  {
  }

  lemma HugeRefused(fl: Rounding, amount: Number, g: int, c: string)
    requires IsRounding(fl) && IsMonotone(fl) && 0 <= g <= TOP
    requires Create(fl, amount, c).Ok? && CentsOf(fl, amount).v > TOP as real
    ensures Subtract(fl, OfCents(fl, g, c), Create(fl, amount, c).value).Err?
  {
    CreatedFromCents(fl, amount, c);
    var n := RoundHalfUp(Times(fl, amount, Finite(100.0)).v);
    hide IsRounding, IsMonotone, CentsOf, Times, RoundHalfUp;
    FarApart(fl, n, g);
    NegativeRefused(fl, fl(g as real / 100.0).v - fl(n as real / 100.0).v, c);
    Opposite(fl(g as real / 100.0).v, fl(n as real / 100.0).v);
  }

  lemma Opposite(x: real, y: real)
    ensures x + (-y) == x - y
  {
  }

  // ---------------------------------------------------------------- what is accepted

  /** The statuses from which a transition command goes through, its own target included. */
  function Sources(c: Command): set<Status> {
    match c
    case MarkAsPaid => {PendingPayment, Paid}
    case StartFulfillment => {Paid, Fulfillment}
    case Complete => {Fulfillment, Completed}
    case Cancel => {PendingPayment, Paid, Cancelled}
    case _ => {}
  }

  function Target(c: Command): Status {
    match c
    case MarkAsPaid => Paid
    case StartFulfillment => Fulfillment
    case Complete => Completed
    case _ => Cancelled
  }

  predicate IsTransition(c: Command) {
    c.MarkAsPaid? || c.StartFulfillment? || c.Complete? || c.Cancel?
  }

  /** When a command is accepted: a transition from one of its sources, a change of a modifiable order that adds up. */
  lemma AcceptedExactly(fl: Rounding, top: int, o: State, c: Command)
    requires Counts(fl, top, o.currency) && Priced(fl, top, o) && CommandWithin(fl, top, c)
    ensures Step(fl, o, c).outcome == Returned <==>
            if IsTransition(c) then o.status in Sources(c)
            else && IsOpen(o)
                 && (c.ApplyDiscount? ==> Create(fl, c.amount, o.currency).Ok? && !Overshoots(fl, o, c))
    ensures IsTransition(c) && Step(fl, o, c).outcome == Returned ==> Step(fl, o, c).state.status == Target(c)
    ensures !IsTransition(c) ==> Step(fl, o, c).state.status == o.status
  {
    hide Create, OfCents, CentsIn, RecalculateTotal;
    if c.ApplyDiscount? || c.RemoveDiscount? {
      RepricingRecordsNothing(fl, o, c);
      RepricingAccepted(fl, top, o, c);
    }
  }

  lemma RepricingAccepted(fl: Rounding, top: int, o: State, c: Command)
    requires Counts(fl, top, o.currency) && Priced(fl, top, o) && CommandWithin(fl, top, c)
    requires c.ApplyDiscount? || c.RemoveDiscount?
    ensures Step(fl, o, c).outcome == Returned <==> Reprices(fl, o, c) && !Overshoots(fl, o, c)
  {
    hide Create, OfCents, CentsIn, RecalculateTotal;
    if Reprices(fl, o, c) {
      match c
      case ApplyDiscount(id, amount) => ApplyDiscountBalances(fl, top, o, id, amount);
      case RemoveDiscount =>
        RemoveDiscountBalances(fl, top, o);
    }
  }

  /**
   What an accepted command leaves: a transition its target status, new notes the notes, a discount its id
   and its cents taken off the total, a removal no discount at all. No other field changes.
   */
  lemma AcceptedLeaves(fl: Rounding, top: int, o: State, c: Command)
    requires Counts(fl, top, o.currency) && Priced(fl, top, o) && CommandWithin(fl, top, c)
    requires Step(fl, o, c).outcome == Returned
    ensures var after := Step(fl, o, c).state;
            && (IsTransition(c) ==> after == o.(status := Target(c), log := after.log))
            && (c.UpdateNotes? ==> after == o.(notes := c.notes))
            && (c.ApplyDiscount? ==>
                  && after == o.(discountId := Some(c.discountId), discountAmount := after.discountAmount,
                                 total := after.total)
                  && CentsOf(fl, c.amount) == Finite(CentsIn(fl, after.discountAmount) as real)
                  && CentsIn(fl, after.total) == Gross(fl, o) - CentsIn(fl, after.discountAmount))
            && (c.RemoveDiscount? ==>
                  && after == o.(discountId := None, discountAmount := after.discountAmount, total := after.total)
                  && CentsIn(fl, after.discountAmount) == 0 && CentsIn(fl, after.total) == Gross(fl, o))
  {
    hide Counts, Create, OfCents, CentsIn, NewTotal, Priced;
    match c
    case ApplyDiscount(id, amount) => AppliedLeaves(fl, top, o, id, amount);
    case RemoveDiscount => RemovedLeaves(fl, top, o);
    case _ =>
  }

  /** Recalculating changes the total and nothing else. */
  lemma RecalculateChangesTotal(fl: Rounding, top: int, o: State)
    requires Counts(fl, top, o.currency) && Priced(fl, top, o) && RecalculateTotal(fl, o).outcome == Returned
    ensures var after := RecalculateTotal(fl, o).state;
            && after == o.(total := after.total)
            && CentsIn(fl, after.total) == Gross(fl, o) - CentsIn(fl, o.discountAmount)
  {
    RecalculateBalances(fl, top, o);
    hide Counts, OfCents, CentsIn, NewTotal, Priced;
  }

  lemma AppliedLeaves(fl: Rounding, top: int, o: State, id: string, amount: Number)
    requires Counts(fl, top, o.currency) && Priced(fl, top, o) && Within(fl, top, amount)
    requires Step(fl, o, ApplyDiscount(id, amount)).outcome == Returned
    ensures var after := Step(fl, o, ApplyDiscount(id, amount)).state;
            && after == o.(discountId := Some(id), discountAmount := after.discountAmount, total := after.total)
            && CentsOf(fl, amount) == Finite(CentsIn(fl, after.discountAmount) as real)
            && CentsIn(fl, after.total) == Gross(fl, o) - CentsIn(fl, after.discountAmount)
  {
    hide Counts, Create, OfCents, CentsIn, CentsOf, RecalculateTotal, WholeCents;
    CreateWithin(fl, top, amount, o.currency);
    var d := Create(fl, amount, o.currency).value;
    RecalculateChangesTotal(fl, top, o.(discountId := Some(id), discountAmount := d));
  }

  lemma RemovedLeaves(fl: Rounding, top: int, o: State)
    requires Counts(fl, top, o.currency) && Priced(fl, top, o)
    requires Step(fl, o, RemoveDiscount).outcome == Returned
    ensures var after := Step(fl, o, RemoveDiscount).state;
            && after == o.(discountId := None, discountAmount := after.discountAmount, total := after.total)
            && CentsIn(fl, after.discountAmount) == 0 && CentsIn(fl, after.total) == Gross(fl, o)
  {
    hide Counts, OfCents, CentsIn, RecalculateTotal, WholeCents, Zero;
    TopNotNegative(fl, top, o);
    ZeroInCents(fl, top, o.currency);
    RecalculateChangesTotal(fl, top, o.(discountId := None, discountAmount := Zero(o.currency).value));
  }

  lemma TopNotNegative(fl: Rounding, top: int, o: State)
    requires Priced(fl, top, o)
    ensures 0 <= top
  {
  }

  /** Every command is idempotent: repeated after it was accepted, it is accepted, changes and records nothing. */
  lemma RepeatChangesNothing(fl: Rounding, o: State, c: Command)
    requires Step(fl, o, c).outcome == Returned
    ensures Step(fl, Step(fl, o, c).state, c) == After(Step(fl, o, c).state, Returned)
  {
    hide Create, Add, Subtract;
  }

  /**
   A command that throws changes nothing, except that a discount leaves its id behind, and its amount too
   unless that was refused itself.
   */
  lemma ThrowKeeps(fl: Rounding, top: int, o: State, c: Command)
    requires Step(fl, o, c).outcome != Returned && o.currency in CURRENCIES
    requires c.RemoveDiscount? ==> Counts(fl, top, o.currency) && Priced(fl, top, o)
    ensures Step(fl, o, c).state ==
            if !(c.ApplyDiscount? && IsOpen(o)) then o
            else if Create(fl, c.amount, o.currency).Err? then o.(discountId := Some(c.discountId))
            else o.(discountId := Some(c.discountId), discountAmount := Create(fl, c.amount, o.currency).value)
  {
    hide Create, Add, Subtract;
    if c.RemoveDiscount? {
      RepricingAccepted(fl, top, o, c);
    }
  }

  /** Which error a command throws. */
  lemma ThrowsWhy(fl: Rounding, top: int, o: State, c: Command)
    requires Counts(fl, top, o.currency) && Priced(fl, top, o)
    requires Step(fl, o, c).outcome != Returned
    ensures var error := Step(fl, o, c).outcome.error;
            && (c.Cancel? ==> error == CannotBeCancelled)
            && (IsTransition(c) && !c.Cancel? ==> error == InvalidTransition)
            && (!IsTransition(c) && !IsOpen(o) ==> error == TerminalStatus)
            && (IsOpen(o) && c.ApplyDiscount? && Create(fl, c.amount, o.currency).Err? ==>
                  error == MoneyError(Create(fl, c.amount, o.currency).error))
    ensures IsOpen(o) && c.ApplyDiscount? && Within(fl, top, c.amount) && Create(fl, c.amount, o.currency).Ok? ==>
              Step(fl, o, c).outcome.error == MoneyError(NegativeAmount)
    ensures !(IsOpen(o) && c.RemoveDiscount?)
  {
    hide Counts, Create, OfCents, CentsIn, RecalculateTotal;
    if IsOpen(o) && c.RemoveDiscount? {
      RemoveDiscountBalances(fl, top, o);
    }
    if IsOpen(o) && c.ApplyDiscount? && Within(fl, top, c.amount) && Create(fl, c.amount, o.currency).Ok? {
      ApplyDiscountBalances(fl, top, o, c.discountId, c.amount);
      OvershootingBreaks(fl, top, o, c.discountId, c.amount);
    }
  }

  /** The documented state machine, and that it reaches every status and ends exactly in the final ones. */
  lemma TransitionsExactly(a: Status, b: Status)
    ensures b in Successors(a) <==>
            || (a == Draft && b == PendingPayment) || (a == PendingPayment && (b == Paid || b == Cancelled))
            || (a == Paid && (b == Fulfillment || b == Cancelled)) || (a == Fulfillment && b == Completed)
    ensures IsTerminal(a) <==> Successors(a) == {}
  {
    assert Successors(Draft) == {PendingPayment} && PendingPayment in Successors(Draft);
    assert Paid in Successors(PendingPayment) && Fulfillment in Successors(Paid);
    assert Completed in Successors(Fulfillment);
  }

  // ---------------------------------------------------------------- finality

  /** A completed or cancelled order never changes again, whatever is called on it. */
  lemma {:induction false} TerminalIsFinal(fl: Rounding, o: State, cs: seq<Command>)
    requires !IsOpen(o)
    ensures Run(fl, o, cs) == o
    decreases |cs|
  {
    if cs == [] {
    } else {
      assert Step(fl, o, cs[0]).state == o;
      TerminalIsFinal(fl, o, cs[1..]);
    }
  }

  // ---------------------------------------------------------------- the event log

  /** The status the recorded transitions lead to, if each of them is legal and starts where the last one ended. */
  function Replay(log: seq<Event>): Option<Status> {
    if log == [] then None
    else
      var e := log[|log| - 1];
      var before := Replay(log[..|log| - 1]);
      match e
      case OrderCreated(_) => if before.None? then Some(PendingPayment) else None
      case StatusChanged(previous, next) =>
        if before == Some(previous) && next in Successors(previous) then Some(next) else None
      case _ => before
  }

  lemma ReplayOne(log: seq<Event>, e: Event)
    ensures Replay(log + [e]) ==
            match e
            case OrderCreated(_) => (if Replay(log).None? then Some(PendingPayment) else None)
            case StatusChanged(previous, next) =>
              (if Replay(log) == Some(previous) && next in Successors(previous) then Some(next) else None)
            case _ => Replay(log)
  {
    assert (log + [e])[..|log|] == log;
  }

  /** The events that announce one particular transition. */
  datatype Kind = OfPayment | OfCompletion | OfCancellation

  predicate Announces(e: Event, kind: Kind) {
    match kind
    case OfPayment => e.OrderPaid?
    case OfCompletion => e.OrderCompleted?
    case OfCancellation => e.OrderCancelled?
  }

  function Tally(log: seq<Event>, kind: Kind): nat {
    if log == [] then 0
    else Tally(log[..|log| - 1], kind) + if Announces(log[|log| - 1], kind) then 1 else 0
  }

  lemma TallyOne(log: seq<Event>, e: Event, kind: Kind)
    ensures Tally(log + [e], kind) == Tally(log, kind) + if Announces(e, kind) then 1 else 0
  {
    assert (log + [e])[..|log|] == log;
  }

  /** What has to stand in the log for a transition made while the total was `total`. */
  function Announced(previous: Status, next: Status, total: Money): seq<Event> {
    (match next
     case Paid => [OrderPaid(total)]
     case Completed => [OrderCompleted(total)]
     case Cancelled => [OrderCancelled(previous)]
     case _ => []) + [StatusChanged(previous, next)]
  }

  /** Event `i` announces a transition exactly when that transition is the next event. */
  predicate PairedAt(log: seq<Event>, i: nat)
    requires i < |log|
  {
    && (log[i].OrderPaid? ==> i + 1 < |log| && log[i + 1].StatusChanged? && log[i + 1].next == Paid)
    && (log[i].OrderCompleted? ==> i + 1 < |log| && log[i + 1].StatusChanged? && log[i + 1].next == Completed)
    && (log[i].OrderCancelled? ==> i + 1 < |log| && log[i + 1] == StatusChanged(log[i].previous, Cancelled))
    && (log[i].StatusChanged? && log[i].next == Paid ==> 0 < i && log[i - 1].OrderPaid?)
    && (log[i].StatusChanged? && log[i].next == Completed ==> 0 < i && log[i - 1].OrderCompleted?)
    && (log[i].StatusChanged? && log[i].next == Cancelled ==> 0 < i && log[i - 1] == OrderCancelled(log[i].previous))
  }

  predicate Paired(log: seq<Event>) {
    forall i :: 0 <= i < |log| ==> PairedAt(log, i)
  }

  /**
   The log replays to the status; each announcement stands directly before its transition; completion and
   cancellation are announced exactly once if the order is completed or cancelled, and payment exactly once
   if the order has been through PAID.
   */
  predicate Recorded(o: State) {
    && Replay(o.log) == Some(o.status) && o.status != Draft && Paired(o.log)
    && Tally(o.log, OfCompletion) == (if o.status == Completed then 1 else 0)
    && Tally(o.log, OfCancellation) == (if o.status == Cancelled then 1 else 0)
    && (o.status == PendingPayment ==> Tally(o.log, OfPayment) == 0)
    && (o.status == Paid || o.status == Fulfillment || o.status == Completed ==> Tally(o.log, OfPayment) == 1)
    && Tally(o.log, OfPayment) <= 1
  }

  lemma PairedExtends(log: seq<Event>, previous: Status, next: Status, total: Money)
    requires Paired(log)
    ensures Paired(log + Announced(previous, next, total))
  {
    var more := log + Announced(previous, next, total);
    forall i | 0 <= i < |more|
      ensures PairedAt(more, i)
    {
      if i < |log| {
        assert PairedAt(log, i);
      }
    }
  }

  /** A quiet event, one that neither transitions nor creates, does not disturb a replay. */
  lemma ReplayAnnounced(log: seq<Event>, previous: Status, next: Status, total: Money)
    requires Replay(log) == Some(previous) && next in Successors(previous)
    ensures Replay(log + Announced(previous, next, total)) == Some(next)
  {
    hide Replay, Successors;
    var change := StatusChanged(previous, next);
    if |Announced(previous, next, total)| == 1 {
      assert Announced(previous, next, total) == [change];
      ReplayOne(log, change);
    } else {
      var e := Announced(previous, next, total)[0];
      ReplayOne(log, e);
      ReplayOne(log + [e], change);
      assert log + Announced(previous, next, total) == log + [e] + [change];
    }
  }

  lemma TallyAnnounced(log: seq<Event>, previous: Status, next: Status, total: Money, kind: Kind)
    ensures Tally(log + Announced(previous, next, total), kind)
            == Tally(log, kind) + if (kind == OfPayment && next == Paid) || (kind == OfCompletion && next == Completed)
                                     || (kind == OfCancellation && next == Cancelled) then 1 else 0
  {
    hide Tally;
    var change := StatusChanged(previous, next);
    if |Announced(previous, next, total)| == 1 {
      assert Announced(previous, next, total) == [change];
      TallyOne(log, change, kind);
    } else {
      var e := Announced(previous, next, total)[0];
      TallyOne(log, e, kind);
      TallyOne(log + [e], change, kind);
      assert log + Announced(previous, next, total) == log + [e] + [change];
    }
  }

  /** What the log gains by a command: the announcement of its transition, with the total of that moment, or nothing. */
  function Told(fl: Rounding, o: State, c: Command): seq<Event> {
    if Step(fl, o, c).state.status == o.status then []
    else Announced(o.status, Step(fl, o, c).state.status, o.total)
  }

  lemma StepTells(fl: Rounding, o: State, c: Command)
    ensures Step(fl, o, c).state.log == o.log + Told(fl, o, c)
    ensures Step(fl, o, c).state.status != o.status ==> Step(fl, o, c).state.status in Successors(o.status)
  {
    hide Create, RecalculateTotal;
    if c.ApplyDiscount? || c.RemoveDiscount? {
      RepricingRecordsNothing(fl, o, c);
    } else {
      TellsItsTransition(fl, o, c);
    }
  }

  lemma TellsItsTransition(fl: Rounding, o: State, c: Command)
    requires !c.ApplyDiscount? && !c.RemoveDiscount?
    ensures Step(fl, o, c).state.log == o.log + Told(fl, o, c)
    ensures Step(fl, o, c).state.status != o.status ==> Step(fl, o, c).state.status in Successors(o.status)
  {
    assert o.log + [] == o.log;
    assert forall e: Event, f: Event :: o.log + [e] + [f] == o.log + ([e] + [f]);
  }

  function AllTold(fl: Rounding, o: State, cs: seq<Command>): seq<Event>
    decreases |cs|
  {
    if cs == [] then [] else Told(fl, o, cs[0]) + AllTold(fl, Step(fl, o, cs[0]).state, cs[1..])
  }

  /** Over any run the log gains exactly the announcements of the transitions made, each with its total. */
  lemma {:induction false} RunTells(fl: Rounding, o: State, cs: seq<Command>)
    ensures Run(fl, o, cs).log == o.log + AllTold(fl, o, cs)
    decreases |cs|
  {
    hide Step, Told;
    if cs == [] {
      assert o.log + [] == o.log;
    } else {
      var next := Step(fl, o, cs[0]).state;
      StepTells(fl, o, cs[0]);
      RunTells(fl, next, cs[1..]);
      assert o.log + Told(fl, o, cs[0]) + AllTold(fl, next, cs[1..])
          == o.log + (Told(fl, o, cs[0]) + AllTold(fl, next, cs[1..]));
    }
  }

  lemma StepRecords(fl: Rounding, o: State, c: Command)
    requires Recorded(o)
    ensures Recorded(Step(fl, o, c).state)
  {
    hide Step, Replay, Tally, Paired, Announced;
    var next := Step(fl, o, c).state.status;
    StepTells(fl, o, c);
    if next == o.status {
      assert o.log + [] == o.log;
    } else {
      ReplayAnnounced(o.log, o.status, next, o.total);
      PairedExtends(o.log, o.status, next, o.total);
      TallyAnnounced(o.log, o.status, next, o.total, OfPayment);
      TallyAnnounced(o.log, o.status, next, o.total, OfCompletion);
      TallyAnnounced(o.log, o.status, next, o.total, OfCancellation);
      TransitionsExactly(o.status, next);
    }
  }

  lemma RepricingRecordsNothing(fl: Rounding, o: State, c: Command)
    requires c.ApplyDiscount? || c.RemoveDiscount?
    ensures Step(fl, o, c).state.log == o.log && Step(fl, o, c).state.status == o.status
  {
  }

  /**
   Over any run from a recorded order, the events replay, by legal transitions only, to the current status.
   Completion is announced exactly once if and only if the order is completed, cancellation, with the status
   it came from, exactly once if and only if it is cancelled, payment at most once and exactly once if the
   order is paid, in fulfillment or completed, each directly before its transition.
   */
  lemma {:induction false} RunRecords(fl: Rounding, o: State, cs: seq<Command>)
    requires Recorded(o)
    ensures Recorded(Run(fl, o, cs))
    decreases |cs|
  {
    if cs == [] {
    } else {
      hide Recorded, Step;
      StepRecords(fl, o, cs[0]);
      RunRecords(fl, Step(fl, o, cs[0]).state, cs[1..]);
    }
  }
}
