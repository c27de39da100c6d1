/**
 The `Order` class: methods that assign the fields one after the other, so that a throw in the middle
 leaves the earlier assignments in place. Each is proved to be the step `Orders` specifies.
 */
module OrderAggregate {
  import opened Options
  import opened Money
  import opened Orders
  import DomainEvents

  class Order {
    /** The rounding of the engine's arithmetic. */
    const fl: Rounding
    const userId: string
    const items: seq<Item>
    const currency: string
    const subtotal: Money
    const tax: Money
    const shippingCost: Money
    var status: Status
    var discountAmount: Money
    var total: Money
    var discountId: Option<string>
    var notes: Option<string>
    const createdAt: int
    var updatedAt: int

    /** The inherited part: the queue of domain events. */
    const root: DomainEvents.AggregateRoot<Event>

    ghost predicate Valid()
      reads this, root
    {
      root.Valid()
    }

    /** The order as a value; its log is every event it has ever recorded, pulled or not. */
    ghost function Value(): State
      reads this, root, root.domainEvents
    {
      State(userId, status, items, subtotal, tax, shippingCost, discountAmount, total, currency, discountId, notes,
            DomainEvents.History(root.State()))
    }

    /** `create`, given the values it computed: the constructor and the first event. */
    constructor (fl: Rounding, o: State, now: int)
      requires o.log == [OrderCreated(o.total)]
      ensures Valid() && fresh(root) && fresh(root.domainEvents)
      ensures Value() == o && this.fl == fl && createdAt == updatedAt == now
    {
      this.fl, createdAt, updatedAt := fl, now, now;
      userId, items, currency := o.userId, o.items, o.currency;
      subtotal, tax, shippingCost := o.subtotal, o.tax, o.shippingCost;
      status, discountAmount, total, discountId, notes := o.status, o.discountAmount, o.total, o.discountId, o.notes;
      root := new DomainEvents.AggregateRoot();
      new;
      Record(OrderCreated(o.total));
    }

    /** `addDomainEvent` */
    method Record(e: Event)
      requires Valid()
      modifies root.domainEvents
      ensures Valid()
      ensures Value() == old(Value()).(log := old(Value()).log + [e])
    {
      ghost var before := root.State();
      root.AddDomainEvent(e);
      DomainEvents.ApplyHistory(before, DomainEvents.Add(e));
    }

    /** `applyChange` */
    method Touch(now: int)
      modifies this`updatedAt
      ensures updatedAt == now
    {
      updatedAt := now;
    }

    /** `changeStatus` */
    method ChangeStatusTo(next: Status) returns (r: Outcome)
      modifies this`status
      ensures r == if next in Successors(old(status)) then Returned else Threw(InvalidTransition)
      ensures status == if r == Returned then next else old(status)
    {
      if next !in Successors(status) {
        return Threw(InvalidTransition);
      }
      status := next;
      r := Returned;
    }

    method MarkOrderAsPaid(now: int) returns (r: Outcome)
      requires Valid()
      modifies this, root.domainEvents
      ensures Valid() && After(Value(), r) == Step(fl, old(Value()), MarkAsPaid)
      ensures updatedAt == if Touches(fl, old(Value()), MarkAsPaid) then now else old(updatedAt)
    {
      if status == Paid {
        return Returned;
      }
      var previous := status;
      r := ChangeStatusTo(Paid);
      if r != Returned {
        return;
      }
      Touch(now);
      Record(OrderPaid(total));
      Record(StatusChanged(previous, status));
    }

    method StartOrderFulfillment(now: int) returns (r: Outcome)
      requires Valid()
      modifies this, root.domainEvents
      ensures Valid() && After(Value(), r) == Step(fl, old(Value()), StartFulfillment)
      ensures updatedAt == if Touches(fl, old(Value()), StartFulfillment) then now else old(updatedAt)
    {
      if status == Fulfillment {
        return Returned;
      }
      var previous := status;
      ghost var log := Value().log;
      r := ChangeStatusTo(Fulfillment);
      if r != Returned {
        return;
      }
      Touch(now);
      Record(StatusChanged(previous, status));
      assert log + [] == log;
    }

    method CompleteOrder(now: int) returns (r: Outcome)
      requires Valid()
      modifies this, root.domainEvents
      ensures Valid() && After(Value(), r) == Step(fl, old(Value()), Complete)
      ensures updatedAt == if Touches(fl, old(Value()), Complete) then now else old(updatedAt)
    {
      if status == Completed {
        return Returned;
      }
      var previous := status;
      r := ChangeStatusTo(Completed);
      if r != Returned {
        return;
      }
      Touch(now);
      Record(OrderCompleted(total));
      Record(StatusChanged(previous, status));
    }

    /** Assigns the status directly; the guard before it does what `changeStatus` would. */
    method CancelOrder(now: int) returns (r: Outcome)
      requires Valid()
      modifies this, root.domainEvents
      ensures Valid() && After(Value(), r) == Step(fl, old(Value()), Cancel)
      ensures updatedAt == if Touches(fl, old(Value()), Cancel) then now else old(updatedAt)
    {
      if status == Cancelled {
        return Returned;
      }
      if status != PendingPayment && status != Paid {
        return Threw(CannotBeCancelled);
      }
      var previous := status;
      ghost var log := Value().log;
      status := Cancelled;
      Touch(now);
      Record(OrderCancelled(previous));
      Record(StatusChanged(previous, status));
      assert log + [OrderCancelled(previous)] + [StatusChanged(previous, status)]
          == log + [OrderCancelled(previous), StatusChanged(previous, status)];
      r := Returned;
    }

    method UpdateOrderNotes(newNotes: Option<string>, now: int) returns (r: Outcome)
      requires Valid()
      modifies this`notes, this`updatedAt
      ensures Valid() && After(Value(), r) == Step(fl, old(Value()), UpdateNotes(newNotes))
      ensures updatedAt == if Touches(fl, old(Value()), UpdateNotes(newNotes)) then now else old(updatedAt)
    {
      if IsTerminal(status) {
        return Threw(TerminalStatus);
      }
      if newNotes != notes {
        notes := newNotes;
        Touch(now);
      }
      r := Returned;
    }

    /** `recalculateTotal`: assigns the total only if every operation of the sum succeeds. */
    method Recalculate() returns (r: Outcome)
      modifies this`total
      ensures After(Value(), r) == RecalculateTotal(fl, old(Value()))
    {
      var taxed := Add(fl, subtotal, tax);
      if taxed.Err? {
        return Threw(MoneyError(taxed.error));
      }
      var gross := Add(fl, taxed.value, shippingCost);
      if gross.Err? {
        return Threw(MoneyError(gross.error));
      }
      var net := Subtract(fl, gross.value, discountAmount);
      if net.Err? {
        return Threw(MoneyError(net.error));
      }
      total := net.value;
      r := Returned;
    }

    /** Stores the id, then the amount, then recalculates: a throw keeps what has been stored. */
    method ApplyOrderDiscount(id: string, amount: Number, now: int) returns (r: Outcome)
      requires Valid()
      modifies this`discountId, this`discountAmount, this`total, this`updatedAt
      ensures Valid() && After(Value(), r) == Step(fl, old(Value()), ApplyDiscount(id, amount))
      ensures updatedAt == if Touches(fl, old(Value()), ApplyDiscount(id, amount)) then now else old(updatedAt)
    {
      if IsTerminal(status) {
        return Threw(TerminalStatus);
      }
      discountId := Some(id);
      var d := Create(fl, amount, currency);
      if d.Err? {
        return Threw(MoneyError(d.error));
      }
      discountAmount := d.value;
      r := Recalculate();
      if r == Returned {
        Touch(now);
      }
    }

    method RemoveOrderDiscount(now: int) returns (r: Outcome)
      requires Valid()
      modifies this`discountId, this`discountAmount, this`total, this`updatedAt
      ensures Valid() && After(Value(), r) == Step(fl, old(Value()), RemoveDiscount)
      ensures updatedAt == if Touches(fl, old(Value()), RemoveDiscount) then now else old(updatedAt)
    {
      if IsTerminal(status) {
        return Threw(TerminalStatus);
      }
      discountId := None;
      var z := Zero(currency);
      if z.Err? {
        return Threw(MoneyError(z.error));
      }
      discountAmount := z.value;
      r := Recalculate();
      if r == Returned {
        Touch(now);
      }
    }
  }
}
