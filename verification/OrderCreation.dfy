/**
 What `Order.create` makes of its parameters, and when it refuses. The parameters are read directly: an
 absent or NaN amount counts as none, absent and empty text as null, an absent or empty currency as IDR.
 */
module OrderCreation {
  import opened Options
  import opened Money
  import opened MoneyCents
  import opened MoneyRounding
  import opened Orders
  import opened OrderRuns

  // ---------------------------------------------------------------- items

  /** The cents an item costs: unit price times quantity. */
  function LineCost(fl: Rounding, item: Item): int { CentsIn(fl, item.unitPrice) * item.quantity }

  function ItemsCost(fl: Rounding, items: seq<Item>): int {
    if items == [] then 0 else LineCost(fl, items[0]) + ItemsCost(fl, items[1..])
  }

  predicate ItemOk(fl: Rounding, top: int, item: Item, c: string) {
    && WholeCents(fl, top, item.unitPrice, c) && WholeCents(fl, top, item.originalPrice, c)
    && 0 < item.quantity && !Blank(item.productId)
  }

  predicate ItemsOk(fl: Rounding, top: int, items: seq<Item>, c: string) {
    forall i :: 0 <= i < |items| ==> ItemOk(fl, top, items[i], c)
  }

  lemma CostNotNegative(n: int, q: int)
    requires 0 <= n && 0 < q
    ensures 0 <= n * q
  {
  }

  lemma {:induction false} ItemsCostNotNegative(fl: Rounding, top: int, items: seq<Item>, c: string)
    requires ItemsOk(fl, top, items, c)
    ensures 0 <= ItemsCost(fl, items)
    decreases |items|
  {
    if items == [] {
    } else {
      assert ItemOk(fl, top, items[0], c);
      CostNotNegative(CentsIn(fl, items[0].unitPrice), items[0].quantity);
      ItemsCostNotNegative(fl, top, items[1..], c);
    }
  }

  /** One step of the subtotal: the line is priced and added. */
  lemma LineAdded(fl: Rounding, top: int, acc: Money, item: Item, c: string) returns (line: Money, next: Money)
    requires Counts(fl, top, c) && WholeCents(fl, top, acc, c) && ItemOk(fl, top, item, c)
    requires CentsIn(fl, acc) + LineCost(fl, item) <= top
    ensures Multiply(fl, item.unitPrice, Finite(item.quantity as real)) == Ok(line)
    ensures Add(fl, acc, line) == Ok(next)
    ensures WholeCents(fl, top, next, c) && CentsIn(fl, next) == CentsIn(fl, acc) + LineCost(fl, item)
  {
    hide Counts, CentsIn, LineCost, ItemOk, Add, Multiply;
    var n := LineCost(fl, item);
    LinePriced(fl, top, item, c);
    line := OfCents(fl, n, c);
    CentsOfCents(fl, top, n, c);
    AddWholeCents(fl, top, acc, line, c);
    next := OfCents(fl, CentsIn(fl, acc) + n, c);
    CentsOfCents(fl, top, CentsIn(fl, acc) + n, c);
  }

  lemma WholeIsOfCents(fl: Rounding, top: int, m: Money, c: string)
    requires WholeCents(fl, top, m, c)
    ensures 0 <= CentsIn(fl, m) <= top && m == OfCents(fl, CentsIn(fl, m), c)
  {
  }

  /** A line costs what its price times its quantity says, and `multiply` finds that. */
  lemma LinePriced(fl: Rounding, top: int, item: Item, c: string)
    requires Counts(fl, top, c) && ItemOk(fl, top, item, c) && LineCost(fl, item) <= top
    ensures 0 <= LineCost(fl, item)
    ensures Multiply(fl, item.unitPrice, Finite(item.quantity as real)) == Ok(OfCents(fl, LineCost(fl, item), c))
  {
    CostNotNegative(CentsIn(fl, item.unitPrice), item.quantity);
    assert MultipliesCents(fl, CentsIn(fl, item.unitPrice), item.quantity, c);
  }

  /** The fold over the items adds up what they cost. */
  lemma {:induction false} SubtotalInCents(fl: Rounding, top: int, acc: Money, items: seq<Item>, c: string)
    requires Counts(fl, top, c) && WholeCents(fl, top, acc, c) && ItemsOk(fl, top, items, c)
    requires CentsIn(fl, acc) + ItemsCost(fl, items) <= top
    ensures Subtotal(fl, acc, items) == Ok(OfCents(fl, CentsIn(fl, acc) + ItemsCost(fl, items), c))
    decreases |items|
  {
    hide Counts, CentsIn, OfCents, Add, Multiply, ItemOk, WholeCents, LineCost;
    if items == [] {
      WholeIsOfCents(fl, top, acc, c);
    } else {
      ItemsCostNotNegative(fl, top, items[1..], c);
      assert ItemOk(fl, top, items[0], c);
      var line, next := LineAdded(fl, top, acc, items[0], c);
      SubtotalInCents(fl, top, next, items[1..], c);
    }
  }

  // ---------------------------------------------------------------- what goes in

  function CentsAsked(fl: Rounding, x: Number): int {
    match CentsOf(fl, x)
    case Finite(v) => v.Floor
    case _ => 0
  }

  function CountAsked(x: Number): int { if x.Finite? then x.v.Floor else 0 }

  function CostAsked(fl: Rounding, inputs: seq<ItemInput>): int {
    if inputs == [] then 0
    else CentsAsked(fl, inputs[0].unitPrice) * CountAsked(inputs[0].quantity) + CostAsked(fl, inputs[1..])
  }

  predicate ItemsWithin(fl: Rounding, top: int, inputs: seq<ItemInput>) {
    forall i :: 0 <= i < |inputs| ==> Within(fl, top, inputs[i].unitPrice) && Within(fl, top, inputs[i].originalPrice)
  }

  /** The cents an optional amount asks for: none if it is absent or NaN. */
  function OptionalCents(fl: Rounding, x: Option<Number>): int {
    match x
    case None => 0
    case Some(v) => if v.NaN? then 0 else CentsAsked(fl, v)
  }

  predicate OptionalWithin(fl: Rounding, top: int, x: Option<Number>) {
    x.Some? && !x.value.NaN? ==> Within(fl, top, x.value)
  }

  predicate OptionalAccepted(fl: Rounding, x: Option<Number>) {
    x.Some? && !x.value.NaN? ==> AmountAccepted(fl, x.value)
  }

  predicate AmountAccepted(fl: Rounding, x: Number) {
    CentsOf(fl, x).Finite? && 0.0 <= CentsOf(fl, x).v
  }

  predicate ExtrasWithin(fl: Rounding, top: int, ps: Params) {
    && OptionalWithin(fl, top, ps.tax) && OptionalWithin(fl, top, ps.shippingCost)
    && OptionalWithin(fl, top, ps.discountAmount)
  }

  /** The cents asked for before any discount. */
  function GrossAsked(fl: Rounding, ps: Params): int {
    CostAsked(fl, ps.items) + OptionalCents(fl, ps.tax) + OptionalCents(fl, ps.shippingCost)
  }

  /** What is asked for stays within `top` cents, one by one and added up. */
  predicate OrderWithin(fl: Rounding, top: int, ps: Params) {
    0 <= top && ItemsWithin(fl, top, ps.items) && ExtrasWithin(fl, top, ps) && GrossAsked(fl, ps) <= top
  }

  /** `x || 0` asks for what an optional amount asks for. */
  lemma OrZeroAsks(fl: Rounding, top: int, x: Option<Number>, c: string)
    requires Counts(fl, top, c) && 0 <= top
    ensures Within(fl, top, OrZero(x)) <==> OptionalWithin(fl, top, x)
    ensures AmountAccepted(fl, OrZero(x)) <==> OptionalAccepted(fl, x)
    ensures CentsAsked(fl, OrZero(x)) == OptionalCents(fl, x)
  {
    assert MakesCents(fl, 0, c);
    assert 0 as real / 100.0 == 0.0;
  }

  /** The item is the one asked for. */
  predicate ItemAsAsked(fl: Rounding, i: ItemInput, item: Item) {
    && item.productId == i.productId && i.quantity == Finite(item.quantity as real)
    && CentsOf(fl, i.unitPrice) == Finite(CentsIn(fl, item.unitPrice) as real)
    && CentsOf(fl, i.originalPrice) == Finite(CentsIn(fl, item.originalPrice) as real)
  }

  lemma ItemIsOk(fl: Rounding, top: int, i: ItemInput, c: string)
    requires Counts(fl, top, c) && Within(fl, top, i.unitPrice) && Within(fl, top, i.originalPrice)
    requires CreateItem(fl, i, c).Made?
    ensures ItemOk(fl, top, CreateItem(fl, i, c).value, c)
    ensures CentsIn(fl, CreateItem(fl, i, c).value.unitPrice) == CentsAsked(fl, i.unitPrice)
    ensures CreateItem(fl, i, c).value.quantity == CountAsked(i.quantity)
    ensures ItemAsAsked(fl, i, CreateItem(fl, i, c).value)
  {
    CreateWithin(fl, top, i.unitPrice, c);
    CreateWithin(fl, top, i.originalPrice, c);
    hide Counts, Create, CentsIn, CentsOf, OfCents, Within;
  }

  lemma {:induction false} ItemsAreOk(fl: Rounding, top: int, inputs: seq<ItemInput>, c: string)
    requires Counts(fl, top, c) && ItemsWithin(fl, top, inputs) && CreateItems(fl, inputs, c).Made?
    ensures ItemsOk(fl, top, CreateItems(fl, inputs, c).value, c)
    ensures |CreateItems(fl, inputs, c).value| == |inputs|
    ensures ItemsCost(fl, CreateItems(fl, inputs, c).value) == CostAsked(fl, inputs)
    ensures var items := CreateItems(fl, inputs, c).value;
            forall i :: 0 <= i < |inputs| ==> ItemAsAsked(fl, inputs[i], items[i])
    decreases |inputs|
  {
    if inputs == [] {
    } else {
      hide Counts, ItemOk, ItemAsAsked, CreateItem, Within, CentsIn, CentsAsked, CountAsked;
      ItemIsOk(fl, top, inputs[0], c);
      ItemsAreOk(fl, top, inputs[1..], c);
      var item, rest := CreateItem(fl, inputs[0], c).value, CreateItems(fl, inputs[1..], c).value;
      assert CreateItems(fl, inputs, c).value == [item] + rest;
      assert ([item] + rest)[1..] == rest;
    }
  }

  lemma ExtraInCents(fl: Rounding, top: int, x: Option<Number>, c: string)
    requires Counts(fl, top, c) && 0 <= top && OptionalWithin(fl, top, x) && Create(fl, OrZero(x), c).Ok?
    ensures WholeCents(fl, top, Create(fl, OrZero(x), c).value, c)
    ensures CentsIn(fl, Create(fl, OrZero(x), c).value) == OptionalCents(fl, x) >= 0
  {
    hide Counts, WholeCents, OrZero;
    OrZeroAsks(fl, top, x, c);
    CreateWithin(fl, top, OrZero(x), c);
  }

  /** Tax, shipping and discount are those asked for, each in its own field. */
  predicate AmountsAsAsked(fl: Rounding, ps: Params, o: State) {
    && CentsIn(fl, o.tax) == OptionalCents(fl, ps.tax)
    && CentsIn(fl, o.shippingCost) == OptionalCents(fl, ps.shippingCost)
    && CentsIn(fl, o.discountAmount) == OptionalCents(fl, ps.discountAmount)
  }

  /** Absent and empty text are both kept as null. */
  predicate TextAsAsked(asked: Option<string>, kept: Option<string>) {
    if asked.None? || asked.value == "" then kept == None else kept == asked
  }

  predicate LabelsAsAsked(ps: Params, o: State) {
    && o.userId == ps.userId && TextAsAsked(ps.discountId, o.discountId) && TextAsAsked(ps.notes, o.notes)
  }

  function Unpriced(fl: Rounding, ps: Params, items: seq<Item>, c: string): State
    requires Zero(c).Ok? && Create(fl, OrZero(ps.tax), c).Ok? && Create(fl, OrZero(ps.shippingCost), c).Ok?
    requires Create(fl, OrZero(ps.discountAmount), c).Ok?
  {
    State(ps.userId, PendingPayment, items, OfCents(fl, ItemsCost(fl, items), c), Create(fl, OrZero(ps.tax), c).value,
          Create(fl, OrZero(ps.shippingCost), c).value, Create(fl, OrZero(ps.discountAmount), c).value,
          Zero(c).value, c, OrNull(ps.discountId), OrNull(ps.notes), [])
  }

  /** The amounts of a new order, before its total is known. */
  lemma DraftPriced(fl: Rounding, top: int, ps: Params, items: seq<Item>, c: string)
    requires Counts(fl, top, c) && ItemsOk(fl, top, items, c) && OrderWithin(fl, top, ps)
    requires ItemsCost(fl, items) == CostAsked(fl, ps.items)
    requires Create(fl, OrZero(ps.tax), c).Ok? && Create(fl, OrZero(ps.shippingCost), c).Ok?
    requires Create(fl, OrZero(ps.discountAmount), c).Ok?
    ensures Zero(c).Ok? && Subtotal(fl, Zero(c).value, items) == Ok(OfCents(fl, ItemsCost(fl, items), c))
    ensures var draft := Unpriced(fl, ps, items, c);
            && Priced(fl, top, draft) && CentsIn(fl, draft.subtotal) == ItemsCost(fl, items)
            && Gross(fl, draft) == GrossAsked(fl, ps) && AmountsAsAsked(fl, ps, draft)
  {
    hide Counts, Create, OfCents, CentsIn, OptionalCents, OptionalWithin, Subtotal, ItemsOk, ItemsCost, CostAsked,
      ItemsWithin,
      Within, OrNull, OrZero, Zero;
    ItemsCostNotNegative(fl, top, items, c);
    ExtraInCents(fl, top, ps.tax, c);
    ExtraInCents(fl, top, ps.shippingCost, c);
    ExtraInCents(fl, top, ps.discountAmount, c);
    ZeroInCents(fl, top, c);
    SubtotalInCents(fl, top, Zero(c).value, items, c);
    CentsOfCents(fl, top, ItemsCost(fl, items), c);
  }

  /** What pricing a new order yields: the sum of its lines, and a total the rule gives. */
  lemma PricedFromItems(fl: Rounding, top: int, ps: Params, items: seq<Item>, c: string)
    requires Counts(fl, top, c) && ItemsOk(fl, top, items, c) && OrderWithin(fl, top, ps)
    requires ItemsCost(fl, items) == CostAsked(fl, ps.items) && PriceOrder(fl, ps, items, c).Ok?
    ensures var o := PriceOrder(fl, ps, items, c).value;
            && Priced(fl, top, o) && Balanced(fl, o) && CentsIn(fl, o.subtotal) == ItemsCost(fl, items)
            && o.items == items && o.currency == c && o.status == PendingPayment
            && AmountsAsAsked(fl, ps, o) && LabelsAsAsked(ps, o)
  {
    hide Counts, Create, OfCents, CentsIn, OptionalCents, NewTotal, Subtotal, ItemsOk, ItemsCost, OrderWithin, OrZero,
      Zero;
    DraftPriced(fl, top, ps, items, c);
    var draft := Unpriced(fl, ps, items, c);
    NewTotalInCents(fl, top, draft);
    CentsOfCents(fl, top, Gross(fl, draft) - CentsIn(fl, draft.discountAmount), c);
  }

  // ---------------------------------------------------------------- what creation accepts

  /** The quantity is 1, 2, 3 and so on. */
  predicate Countable(x: Number) {
    x.Finite? && x == Finite(x.v.Floor as real) && 1 <= x.v.Floor
  }

  predicate ItemAccepted(fl: Rounding, i: ItemInput) {
    && AmountAccepted(fl, i.unitPrice) && AmountAccepted(fl, i.originalPrice)
    && !Blank(i.productId) && Countable(i.quantity)
  }

  predicate ExtrasAccepted(fl: Rounding, ps: Params) {
    && OptionalAccepted(fl, ps.tax) && OptionalAccepted(fl, ps.shippingCost)
    && OptionalAccepted(fl, ps.discountAmount)
  }

  /** The discount asked for is covered by everything else. */
  predicate Covered(fl: Rounding, ps: Params) {
    OptionalCents(fl, ps.discountAmount) <= GrossAsked(fl, ps)
  }

  lemma ItemAcceptedExactly(fl: Rounding, top: int, i: ItemInput, c: string)
    requires Counts(fl, top, c) && Within(fl, top, i.unitPrice) && Within(fl, top, i.originalPrice)
    ensures CreateItem(fl, i, c).Made? <==> ItemAccepted(fl, i)
  {
    hide Counts, Create, CentsIn, CentsOf, OfCents, Within, Blank, WholeCents;
    CreateWithin(fl, top, i.unitPrice, c);
    CreateWithin(fl, top, i.originalPrice, c);
  }

  lemma {:induction false} ItemsAcceptedExactly(fl: Rounding, top: int, inputs: seq<ItemInput>, c: string)
    requires Counts(fl, top, c) && ItemsWithin(fl, top, inputs)
    ensures CreateItems(fl, inputs, c).Made? <==> forall i :: i in inputs ==> ItemAccepted(fl, i)
    decreases |inputs|
  {
    hide Counts, ItemAccepted, CreateItem, Within;
    if inputs == [] {
    } else {
      ItemAcceptedExactly(fl, top, inputs[0], c);
      ItemsAcceptedExactly(fl, top, inputs[1..], c);
      assert inputs == [inputs[0]] + inputs[1..];
    }
  }

  lemma ExtraAcceptedExactly(fl: Rounding, top: int, x: Option<Number>, c: string)
    requires Counts(fl, top, c) && 0 <= top && OptionalWithin(fl, top, x)
    ensures OptionalAccepted(fl, x) <==> Create(fl, OrZero(x), c).Ok?
  {
    hide Counts, OrZero, OptionalAccepted, Create, WholeCents;
    OrZeroAsks(fl, top, x, c);
    CreateWithin(fl, top, OrZero(x), c);
  }

  lemma ExtrasAcceptedExactly(fl: Rounding, top: int, ps: Params, c: string)
    requires Counts(fl, top, c) && 0 <= top && ExtrasWithin(fl, top, ps)
    ensures ExtrasAccepted(fl, ps) <==>
            && Create(fl, OrZero(ps.tax), c).Ok? && Create(fl, OrZero(ps.shippingCost), c).Ok?
            && Create(fl, OrZero(ps.discountAmount), c).Ok?
  {
    hide Counts, OrZero, OptionalAccepted;
    ExtraAcceptedExactly(fl, top, ps.tax, c);
    ExtraAcceptedExactly(fl, top, ps.shippingCost, c);
    ExtraAcceptedExactly(fl, top, ps.discountAmount, c);
  }

  lemma PriceAcceptedExactly(fl: Rounding, top: int, ps: Params, items: seq<Item>, c: string)
    requires Counts(fl, top, c) && ItemsOk(fl, top, items, c) && OrderWithin(fl, top, ps)
    requires ItemsCost(fl, items) == CostAsked(fl, ps.items)
    ensures PriceOrder(fl, ps, items, c).Ok? <==> ExtrasAccepted(fl, ps) && Covered(fl, ps)
  {
    hide Counts, Create, OfCents, CentsIn, OptionalCents, NewTotal, Subtotal, ItemsOk, ItemsCost, CostAsked,
      ItemsWithin,
      ExtrasWithin, ExtrasAccepted, OrZero, Zero;
    ExtrasAcceptedExactly(fl, top, ps, c);
    if ExtrasAccepted(fl, ps) {
      DraftPriced(fl, top, ps, items, c);
      NewTotalInCents(fl, top, Unpriced(fl, ps, items, c));
    }
  }

  /** What an order has to be made of. */
  predicate OrderAccepted(fl: Rounding, ps: Params) {
    && ps.items != [] && (forall i :: i in ps.items ==> ItemAccepted(fl, i))
    && ExtrasAccepted(fl, ps) && Covered(fl, ps)
    && !Blank(ps.userId) && (ps.notes.Some? && ps.notes.value != "" ==> !Blank(ps.notes.value))
  }

  lemma PricedKeepsText(fl: Rounding, ps: Params, items: seq<Item>, c: string)
    requires PriceOrder(fl, ps, items, c).Ok?
    ensures var o := PriceOrder(fl, ps, items, c).value; LabelsAsAsked(ps, o)
  {
    hide Subtotal, Create, NewTotal, Zero;
  }

  /**
   An order is created exactly when it has items, all of them valid, every amount rounds to non-negative
   cents, the discount is covered, and user and notes are not blank.
   */
  lemma CreatedExactly(fl: Rounding, top: int, ps: Params)
    requires Counts(fl, top, CurrencyOf(ps)) && OrderWithin(fl, top, ps)
    ensures CreateOrder(fl, ps).Made? <==> OrderAccepted(fl, ps)
  {
    hide Counts, PriceOrder, CreateItems, ItemAccepted, ExtrasAccepted, Covered, Blank, ItemsWithin, ExtrasWithin,
      CostAsked, CentsAsked, ItemsOk, ItemsCost;
    var c := CurrencyOf(ps);
    ItemsAcceptedExactly(fl, top, ps.items, c);
    if CreateItems(fl, ps.items, c).Made? {
      var items := CreateItems(fl, ps.items, c).value;
      ItemsAreOk(fl, top, ps.items, c);
      PriceAcceptedExactly(fl, top, ps, items, c);
      if PriceOrder(fl, ps, items, c).Ok? {
        PricedKeepsText(fl, ps, items, c);
      }
    }
  }

  // ---------------------------------------------------------------- why creation fails

  predicate AmountFault(fl: Rounding, x: Number, e: OrderError) {
    || (e == MoneyError(InvalidAmount) && !CentsOf(fl, x).Finite?)
    || (e == MoneyError(NegativeAmount) && CentsOf(fl, x).Finite? && CentsOf(fl, x).v < 0.0)
  }

  predicate OptionalFault(fl: Rounding, x: Option<Number>, e: OrderError) {
    x.Some? && !x.value.NaN? && AmountFault(fl, x.value, e)
  }

  predicate ItemFault(fl: Rounding, i: ItemInput, e: OrderError) {
    || AmountFault(fl, i.unitPrice, e) || AmountFault(fl, i.originalPrice, e)
    || (e == InProductId && Blank(i.productId))
    || (e == InQuantity && !Countable(i.quantity))
  }

  predicate ExtrasFault(fl: Rounding, ps: Params, e: OrderError) {
    || OptionalFault(fl, ps.tax, e) || OptionalFault(fl, ps.shippingCost, e) || OptionalFault(fl, ps.discountAmount, e)
  }

  /** Something about what was asked for deserves error `e`. */
  predicate OrderFault(fl: Rounding, ps: Params, e: OrderError) {
    || (exists i :: i in ps.items && ItemFault(fl, i, e))
    || (e == IsEmpty && ps.items == [])
    || ExtrasFault(fl, ps, e)
    || (e == MoneyError(NegativeAmount) && !Covered(fl, ps))
    || (e == InUserId && Blank(ps.userId))
    || (e == InNotes && ps.notes.Some? && ps.notes.value != "" && Blank(ps.notes.value))
  }

  lemma ItemFails(fl: Rounding, top: int, i: ItemInput, c: string)
    requires Counts(fl, top, c) && Within(fl, top, i.unitPrice) && Within(fl, top, i.originalPrice)
    requires CreateItem(fl, i, c).Failed?
    ensures ItemFault(fl, i, CreateItem(fl, i, c).error)
  {
    hide Counts, Create, CentsIn, CentsOf, OfCents, Within, Blank, WholeCents;
    CreateWithin(fl, top, i.unitPrice, c);
    CreateWithin(fl, top, i.originalPrice, c);
  }

  lemma {:induction false} ItemsFail(fl: Rounding, top: int, inputs: seq<ItemInput>, c: string)
    requires Counts(fl, top, c) && ItemsWithin(fl, top, inputs) && CreateItems(fl, inputs, c).Failed?
    ensures exists i :: i in inputs && ItemFault(fl, i, CreateItems(fl, inputs, c).error)
    decreases |inputs|
  {
    hide Counts, ItemFault, CreateItem, Within;
    if CreateItem(fl, inputs[0], c).Failed? {
      ItemFails(fl, top, inputs[0], c);
      assert inputs[0] in inputs;
    } else {
      ItemsFail(fl, top, inputs[1..], c);
    }
  }

  lemma ExtraFails(fl: Rounding, top: int, x: Option<Number>, c: string)
    requires Counts(fl, top, c) && 0 <= top && OptionalWithin(fl, top, x)
    ensures Create(fl, OrZero(x), c).Err? ==> OptionalFault(fl, x, MoneyError(Create(fl, OrZero(x), c).error))
  {
    OrZeroAsks(fl, top, x, c);
    CreateWithin(fl, top, OrZero(x), c);
    hide Counts, Create, WholeCents, CentsOf;
  }

  lemma PriceFails(fl: Rounding, top: int, ps: Params, items: seq<Item>, c: string)
    requires Counts(fl, top, c) && ItemsOk(fl, top, items, c) && OrderWithin(fl, top, ps)
    requires ItemsCost(fl, items) == CostAsked(fl, ps.items) <= top && PriceOrder(fl, ps, items, c).Err?
    ensures var e := MoneyError(PriceOrder(fl, ps, items, c).error);
            ExtrasFault(fl, ps, e) || (e == MoneyError(NegativeAmount) && !Covered(fl, ps))
  {
    hide Counts, Create, OfCents, CentsIn, OptionalCents, OptionalFault, NewTotal, Subtotal, ItemsOk, ItemsCost,
      CostAsked, ItemsWithin, ExtrasAccepted, OrZero, Zero;
    ExtraFails(fl, top, ps.tax, c);
    ExtraFails(fl, top, ps.shippingCost, c);
    ExtraFails(fl, top, ps.discountAmount, c);
    ExtrasAcceptedExactly(fl, top, ps, c);
    SubtotalMade(fl, top, items, c);
    if ExtrasAccepted(fl, ps) {
      DraftPriced(fl, top, ps, items, c);
      NewTotalInCents(fl, top, Unpriced(fl, ps, items, c));
    }
  }

  lemma SubtotalMade(fl: Rounding, top: int, items: seq<Item>, c: string)
    requires Counts(fl, top, c) && 0 <= top && ItemsOk(fl, top, items, c) && ItemsCost(fl, items) <= top
    ensures Zero(c).Ok? && Subtotal(fl, Zero(c).value, items).Ok?
  {
    hide Counts, WholeCents, CentsIn, OfCents, ItemsOk, ItemsCost, Subtotal, Zero;
    ZeroInCents(fl, top, c);
    SubtotalInCents(fl, top, Zero(c).value, items, c);
  }

  /** When `create` throws, what was asked for deserves that very error. */
  lemma FailureHasCause(fl: Rounding, top: int, ps: Params)
    requires Counts(fl, top, CurrencyOf(ps)) && OrderWithin(fl, top, ps) && CostAsked(fl, ps.items) <= top
    requires CreateOrder(fl, ps).Failed?
    ensures OrderFault(fl, ps, CreateOrder(fl, ps).error)
  {
    hide Counts, PriceOrder, CreateItems, ItemFault, ExtrasFault, Covered, Blank, ItemsWithin, ExtrasWithin,
      CostAsked, OptionalCents, ItemsOk, ItemsCost;
    var c := CurrencyOf(ps);
    if CreateItems(fl, ps.items, c).Failed? {
      ItemsFail(fl, top, ps.items, c);
    } else {
      var items := CreateItems(fl, ps.items, c).value;
      ItemsAreOk(fl, top, ps.items, c);
      if PriceOrder(fl, ps, items, c).Err? {
        PriceFails(fl, top, ps, items, c);
      } else {
        PricedKeepsText(fl, ps, items, c);
      }
    }
  }

  // ---------------------------------------------------------------- the order made

  /** What is true of every order fresh from `create`. */
  predicate FreshOrder(fl: Rounding, top: int, ps: Params, o: State) {
    && o.items != [] && |o.items| == |ps.items| && o.status == PendingPayment
    && ItemsOk(fl, top, o.items, o.currency) && Priced(fl, top, o) && Balanced(fl, o)
    && CentsIn(fl, o.subtotal) == ItemsCost(fl, o.items) == CostAsked(fl, ps.items)
    && Recorded(o) && Validate(o) == Made(o)
    && AsAsked(fl, ps, o)
  }

  /** Every field of the order is what was asked for. */
  predicate AsAsked(fl: Rounding, ps: Params, o: State) {
    && |o.items| == |ps.items| && (forall i :: 0 <= i < |ps.items| ==> ItemAsAsked(fl, ps.items[i], o.items[i]))
    && AmountsAsAsked(fl, ps, o) && LabelsAsAsked(ps, o)
    && o.currency == (if ps.currency.None? || ps.currency.value == "" then "IDR" else ps.currency.value)
    && o.log == [OrderCreated(o.total)]
  }

  /**
   A created order is the one asked for: item by item, amount by amount, label by label. It has at least one
   item, waits for payment, costs what its lines add up to, obeys the pricing rule, and its log already
   replays to its status.
   */
  lemma CreatedOrder(fl: Rounding, top: int, ps: Params)
    requires Counts(fl, top, CurrencyOf(ps)) && OrderWithin(fl, top, ps) && CreateOrder(fl, ps).Made?
    ensures FreshOrder(fl, top, ps, CreateOrder(fl, ps).value)
  {
    hide Counts, PriceOrder, CreateItems, ItemsOk, WholeCents, CentsIn, Blank, Trim, ItemsCost, CostAsked, ItemsWithin,
      ExtrasWithin, ItemAsAsked;
    var c := CurrencyOf(ps);
    ItemsAreOk(fl, top, ps.items, c);
    var items := CreateItems(fl, ps.items, c).value;
    PricedFromItems(fl, top, ps, items, c);
    CreatedLog(CreateOrder(fl, ps).value.total);
  }

  lemma CreatedLog(total: Money)
    ensures Replay([OrderCreated(total)]) == Some(PendingPayment) && Paired([OrderCreated(total)])
    ensures forall kind :: Tally([OrderCreated(total)], kind) == 0
  {
    assert [] + [OrderCreated(total)] == [OrderCreated(total)];
    ReplayOne([], OrderCreated(total));
    forall kind
      ensures Tally([OrderCreated(total)], kind) == 0
    {
      TallyOne([], OrderCreated(total), kind);
    }
  }

  lemma CreatedInCurrency(fl: Rounding, ps: Params)
    requires CreateOrder(fl, ps).Made?
    ensures CurrencyOf(ps) in CURRENCIES
  {
    hide CreateItems, Subtotal, Create, NewTotal, Blank;
  }

  /** In binary64: for orders within ten billion. */
  lemma CreatedOrderInDoubles(fl: Rounding, ps: Params)
    requires IsRounding(fl) && OrderWithin(fl, TOP, ps) && CreateOrder(fl, ps).Made?
    ensures FreshOrder(fl, TOP, ps, CreateOrder(fl, ps).value)
  {
    hide *;
    CreatedInCurrency(fl, ps);
    RoundingCounts(fl, CurrencyOf(ps));
    CreatedOrder(fl, TOP, ps);
  }

  lemma {:induction false} SomeItemsTop(fl: Rounding, inputs: seq<ItemInput>) returns (top: nat)
    ensures forall more :: top <= more ==> ItemsWithin(fl, more, inputs)
    decreases |inputs|
  {
    if inputs == [] {
      top := 0;
    } else {
      var rest := SomeItemsTop(fl, inputs[1..]);
      var a := SomeBound(fl, inputs[0].unitPrice);
      var b := SomeBound(fl, inputs[0].originalPrice);
      hide Within;
      top := rest + a + b;
      forall more | top <= more
        ensures ItemsWithin(fl, more, inputs)
      {
        assert ItemsWithin(fl, more, inputs[1..]);
        WithinMore(fl, a, more, inputs[0].unitPrice);
        WithinMore(fl, b, more, inputs[0].originalPrice);
        assert forall i :: 0 < i < |inputs| ==> inputs[i] == inputs[1..][i - 1];
      }
    }
  }

  lemma SomeOptionalBound(fl: Rounding, x: Option<Number>) returns (top: nat)
    ensures forall more :: top <= more ==> OptionalWithin(fl, more, x)
  {
    top := SomeBound(fl, if x.Some? then x.value else NaN);
    forall more | top <= more
      ensures OptionalWithin(fl, more, x)
    {
      if x.Some? {
        WithinMore(fl, top, more, x.value);
      }
    }
  }

  lemma SomeOrderTop(fl: Rounding, ps: Params) returns (top: nat)
    ensures OrderWithin(fl, top, ps)
  {
    hide ItemsWithin, OptionalWithin, GrossAsked;
    var a := SomeItemsTop(fl, ps.items);
    var b := SomeOptionalBound(fl, ps.tax);
    var d := SomeOptionalBound(fl, ps.shippingCost);
    var e := SomeOptionalBound(fl, ps.discountAmount);
    var sum := GrossAsked(fl, ps);
    top := a + b + d + e + if sum < 0 then 0 else sum;
  }

  /** In exact arithmetic: for orders of any size. */
  lemma CreatedOrderInCents(ps: Params) returns (top: int)
    requires CreateOrder(Exact, ps).Made?
    ensures FreshOrder(Exact, top, ps, CreateOrder(Exact, ps).value)
  {
    hide *;
    CreatedInCurrency(Exact, ps);
    top := SomeOrderTop(Exact, ps);
    ExactCounts(top, CurrencyOf(ps));
    CreatedOrder(Exact, top, ps);
  }
}
