/**
 The order aggregate: its state machine, its pricing, and the events it records. As in `Money`, the
 rounding of the arithmetic is an argument.

 A method of the source that throws may already have changed fields; `After` keeps both.
 */
module Orders {
  import opened Options
  import opened Money

  // ---------------------------------------------------------------- status

  datatype Status = Draft | PendingPayment | Paid | Fulfillment | Completed | Cancelled

  /** `VALID_TRANSITIONS` */
  function Successors(s: Status): set<Status> {
    match s
    case Draft => {PendingPayment}
    case PendingPayment => {Paid, Cancelled}
    case Paid => {Fulfillment, Cancelled}
    case Fulfillment => {Completed}
    case Completed => {}
    case Cancelled => {}
  }

  predicate IsTerminal(s: Status) { s == Completed || s == Cancelled }

  // ---------------------------------------------------------------- the aggregate's state

  datatype Item = Item(productId: string, quantity: int, unitPrice: Money, originalPrice: Money)

  datatype Event =
    | OrderCreated(total: Money)
    | OrderPaid(total: Money)
    | OrderCompleted(total: Money)
    | OrderCancelled(previous: Status)
    | StatusChanged(previous: Status, next: Status)

  datatype State = State(
    userId: string, status: Status, items: seq<Item>,
    subtotal: Money, tax: Money, shippingCost: Money, discountAmount: Money, total: Money, currency: string,
    discountId: Option<string>, notes: Option<string>,
    log: seq<Event>)

  datatype OrderError =
    | MoneyError(error: Error) | IsEmpty | InProductId | InQuantity | InUserId | InNotes
    | InCreatedAt | InUpdatedAt | InDates
    | TerminalStatus | InvalidTransition | CannotBeCancelled

  datatype Outcome = Returned | Threw(error: OrderError)

  datatype After = After(state: State, outcome: Outcome)

  datatype Command =
    | MarkAsPaid | StartFulfillment | Complete | Cancel
    | UpdateNotes(notes: Option<string>)
    | ApplyDiscount(discountId: string, amount: Number)
    | RemoveDiscount

  // ---------------------------------------------------------------- commands

  /** `changeStatus`, then the events of the calling method: those in `first`, and the change itself. */
  function ChangeStatus(o: State, next: Status, first: seq<Event>): After {
    if next !in Successors(o.status) then After(o, Threw(InvalidTransition))
    else After(o.(status := next, log := o.log + first + [StatusChanged(o.status, next)]), Returned)
  }

  /** `subtotal + tax + shippingCost - discountAmount`, by the operations of `Money`. */
  function NewTotal(fl: Rounding, o: State): Result<Money> {
    match Add(fl, o.subtotal, o.tax)
    case Err(e) => Err(e)
    case Ok(taxed) =>
      match Add(fl, taxed, o.shippingCost)
      case Err(e) => Err(e)
      case Ok(gross) => Subtract(fl, gross, o.discountAmount)
  }

  function RecalculateTotal(fl: Rounding, o: State): After {
    match NewTotal(fl, o)
    case Err(e) => After(o, Threw(MoneyError(e)))
    case Ok(t) => After(o.(total := t), Returned)
  }

  function Step(fl: Rounding, o: State, c: Command): After {
    match c
    case MarkAsPaid =>
      if o.status == Paid then After(o, Returned) else ChangeStatus(o, Paid, [OrderPaid(o.total)])
    case StartFulfillment =>
      if o.status == Fulfillment then After(o, Returned) else ChangeStatus(o, Fulfillment, [])
    case Complete =>
      if o.status == Completed then After(o, Returned) else ChangeStatus(o, Completed, [OrderCompleted(o.total)])
    case Cancel =>
      if o.status == Cancelled then After(o, Returned)
      else if o.status != PendingPayment && o.status != Paid then After(o, Threw(CannotBeCancelled))
      else
        var events := [OrderCancelled(o.status), StatusChanged(o.status, Cancelled)];
        After(o.(status := Cancelled, log := o.log + events), Returned)
    case UpdateNotes(notes) =>
      if IsTerminal(o.status) then After(o, Threw(TerminalStatus)) else After(o.(notes := notes), Returned)
    case ApplyDiscount(id, amount) =>
      if IsTerminal(o.status) then After(o, Threw(TerminalStatus))
      else
        var named := o.(discountId := Some(id));
        (match Create(fl, amount, o.currency)
         case Err(e) => After(named, Threw(MoneyError(e)))
         case Ok(d) => RecalculateTotal(fl, named.(discountAmount := d)))
    case RemoveDiscount =>
      if IsTerminal(o.status) then After(o, Threw(TerminalStatus))
      else
        var bare := o.(discountId := None);
        match Zero(o.currency)
        case Err(e) => After(bare, Threw(MoneyError(e)))
        case Ok(z) => RecalculateTotal(fl, bare.(discountAmount := z))
  }

  function Run(fl: Rounding, o: State, cs: seq<Command>): State
    decreases |cs|
  {
    if cs == [] then o else Run(fl, Step(fl, o, cs[0]).state, cs[1..])
  }

  // ---------------------------------------------------------------- creation

  datatype ItemInput = ItemInput(productId: string, quantity: Number, unitPrice: Number, originalPrice: Number)

  datatype Params = Params(
    userId: string, items: seq<ItemInput>,
    tax: Option<Number>, shippingCost: Option<Number>, discountAmount: Option<Number>,
    discountId: Option<string>, notes: Option<string>, currency: Option<string>)

  datatype Made<+T> = Made(value: T) | Failed(error: OrderError)

  /** White space and line terminators of ECMAScript. */
  predicate IsSpace(c: char) {
    || '\t' <= c <= '\r' || c == ' ' || c == '\U{A0}' || c == '\U{1680}' || '\U{2000}' <= c <= '\U{200A}'
    || c == '\U{2028}' || c == '\U{2029}' || c == '\U{202F}' || c == '\U{205F}' || c == '\U{3000}' || c == '\U{FEFF}'
  }

  predicate Blank(s: string) { forall i :: 0 <= i < |s| ==> IsSpace(s[i]) }

  function TrimStart(s: string): (t: string)
    ensures t == [] <==> Blank(s)
    ensures t != [] ==> !IsSpace(t[0])
  {
    if s != [] && IsSpace(s[0]) then TrimStart(s[1..]) else s
  }

  function TrimEnd(s: string): (t: string)
    ensures s != [] && !IsSpace(s[0]) ==> t != []
  {
    if s != [] && IsSpace(s[|s| - 1]) then TrimEnd(s[..|s| - 1]) else s
  }

  /** `s.trim()` */
  function Trim(s: string): (t: string)
    ensures t == [] <==> Blank(s)
  {
    TrimEnd(TrimStart(s))
  }

  /** `x || 0`: absent and NaN count as 0. */
  function OrZero(x: Option<Number>): Number {
    if x.None? || x.value.NaN? then Finite(0.0) else x.value
  }

  /** `s || null` */
  function OrNull(s: Option<string>): Option<string> { if s == Some("") then None else s }

  predicate IsPositiveInteger(x: Number) { x.Finite? && x.v.Floor as real == x.v && 0.0 < x.v }

  /** `OrderItem.create`: prices are made first, then the constructor validates. */
  function CreateItem(fl: Rounding, i: ItemInput, currency: string): Made<Item> {
    match (Create(fl, i.unitPrice, currency), Create(fl, i.originalPrice, currency))
    case (Err(e), _) => Failed(MoneyError(e))
    case (_, Err(e)) => Failed(MoneyError(e))
    case (Ok(u), Ok(p)) =>
      if Trim(i.productId) == [] then Failed(InProductId)
      else if !IsPositiveInteger(i.quantity) then Failed(InQuantity)
      else Made(Item(i.productId, i.quantity.v.Floor, u, p))
  }

  function CreateItems(fl: Rounding, inputs: seq<ItemInput>, currency: string): Made<seq<Item>> {
    if inputs == [] then Made([])
    else
      match CreateItem(fl, inputs[0], currency)
      case Failed(e) => Failed(e)
      case Made(item) =>
        match CreateItems(fl, inputs[1..], currency)
        case Failed(e) => Failed(e)
        case Made(items) => Made([item] + items)
  }

  /** `items.reduce((sum, item) => sum.add(item.getSubtotal()), acc)` */
  function Subtotal(fl: Rounding, acc: Money, items: seq<Item>): Result<Money>
    decreases |items|
  {
    if items == [] then Ok(acc)
    else
      match Multiply(fl, items[0].unitPrice, Finite(items[0].quantity as real))
      case Err(e) => Err(e)
      case Ok(line) =>
        match Add(fl, acc, line)
        case Err(e) => Err(e)
        case Ok(sum) => Subtotal(fl, sum, items[1..])
  }

  /** The validation every constructed order goes through, created or reconstructed. */
  function Validate(o: State): Made<State> {
    if Trim(o.userId) == [] then Failed(InUserId)
    else if o.notes.Some? && Trim(o.notes.value) == [] then Failed(InNotes)
    else Made(o)
  }

  /** The amounts of an order about to be created. */
  function PriceOrder(fl: Rounding, ps: Params, items: seq<Item>, currency: string): Result<State> {
    match Zero(currency)
    case Err(e) => Err(e)
    case Ok(zero) =>
      match Subtotal(fl, zero, items)
      case Err(e) => Err(e)
      case Ok(subtotal) =>
        match (Create(fl, OrZero(ps.tax), currency), Create(fl, OrZero(ps.shippingCost), currency),
               Create(fl, OrZero(ps.discountAmount), currency))
        case (Err(e), _, _) => Err(e)
        case (_, Err(e), _) => Err(e)
        case (_, _, Err(e)) => Err(e)
        case (Ok(tax), Ok(shipping), Ok(discount)) =>
          var draft := State(ps.userId, PendingPayment, items, subtotal, tax, shipping, discount, zero, currency,
                             OrNull(ps.discountId), OrNull(ps.notes), []);
          match NewTotal(fl, draft)
          case Err(e) => Err(e)
          case Ok(total) => Ok(draft.(total := total))
  }

  function CurrencyOf(ps: Params): string {
    if ps.currency.None? || ps.currency.value == "" then "IDR" else ps.currency.value
  }

  /** `Order.create` */
  function CreateOrder(fl: Rounding, ps: Params): Made<State> {
    var currency := CurrencyOf(ps);
    match CreateItems(fl, ps.items, currency)
    case Failed(e) => Failed(e)
    case Made(items) =>
      if items == [] then Failed(IsEmpty)
      else
        match PriceOrder(fl, ps, items, currency)
        case Err(e) => Failed(MoneyError(e))
        case Ok(priced) =>
          match Validate(priced)
          case Failed(e) => Failed(e)
          case Made(o) => Made(o.(log := [OrderCreated(o.total)]))
  }

  // ---------------------------------------------------------------- dates and reloading

  /** An order with its dates; `None` is an invalid `Date`. */
  datatype Dated = Dated(order: State, createdAt: Option<int>, updatedAt: Option<int>)

  /** The commands that reach `applyChange`: accepted, and not as a repetition. */
  predicate Touches(fl: Rounding, o: State, c: Command) {
    && Step(fl, o, c).outcome == Returned
    && match c
       case MarkAsPaid => o.status != Paid
       case StartFulfillment => o.status != Fulfillment
       case Complete => o.status != Completed
       case Cancel => o.status != Cancelled
       case UpdateNotes(notes) => notes != o.notes
       case _ => true
  }

  /** A command given when the clock shows `now`. */
  function DatedStep(fl: Rounding, d: Dated, c: Command, now: int): Dated {
    Dated(Step(fl, d.order, c).state, d.createdAt, if Touches(fl, d.order, c) then Some(now) else d.updatedAt)
  }

  /** `Order.reconstruct`: a stored order is validated again, dates included. */
  function Reconstruct(d: Dated): Made<Dated> {
    if Trim(d.order.userId) == [] then Failed(InUserId)
    else if d.createdAt.None? then Failed(InCreatedAt)
    else if d.updatedAt.None? then Failed(InUpdatedAt)
    else if d.updatedAt.value < d.createdAt.value then Failed(InDates)
    else
      match Validate(d.order)
      case Failed(e) => Failed(e)
      case Made(_) => Made(d)
  }

  function DatedRun(fl: Rounding, d: Dated, calls: seq<(Command, int)>): Dated
    decreases |calls|
  {
    if calls == [] then d else DatedRun(fl, DatedStep(fl, d, calls[0].0, calls[0].1), calls[1..])
  }

  /** White space as ECMAScript lists it, by code point. */
  lemma SpacesByCodePoint(c: char)
    ensures IsSpace(c) <==> c as int in {9, 10, 11, 12, 13, 32, 160, 5760, 8192, 8193, 8194, 8195, 8196, 8197, 8198,
                                         8199, 8200, 8201, 8202, 8232, 8233, 8239, 8287, 12288, 65279}
  {
  }
}
