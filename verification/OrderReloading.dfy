/**
 Orders with their dates: when a stored order can be reconstructed, and what can spoil that.
 */
module OrderReloading {
  import opened Options
  import opened Money
  import opened Orders
  import opened OrderRuns

  /** A stored order is reconstructed, unchanged, exactly if its dates are valid and in order and no text is blank. */
  lemma ReconstructExactly(d: Dated)
    ensures Reconstruct(d) == Made(d) <==>
            && d.createdAt.Some? && d.updatedAt.Some? && d.createdAt.value <= d.updatedAt.value
            && !Blank(d.order.userId) && (d.order.notes.Some? ==> !Blank(d.order.notes.value))
    ensures Reconstruct(d).Made? ==> Reconstruct(d).value == d
  {
  }

  /** An order is stamped with the time of a command exactly if the command changed it or stored a discount anew. */
  lemma StampedExactly(fl: Rounding, d: Dated, c: Command, now: int)
    ensures DatedStep(fl, d, c, now).order == Step(fl, d.order, c).state
    ensures DatedStep(fl, d, c, now).createdAt == d.createdAt
    ensures DatedStep(fl, d, c, now).updatedAt ==
            if if c.ApplyDiscount? || c.RemoveDiscount? then Step(fl, d.order, c).outcome == Returned
               else Step(fl, d.order, c).state != d.order
            then Some(now) else d.updatedAt
  {
    hide Create, RecalculateTotal;
  }

  predicate SetsBlankNotes(o: State, c: Command) {
    c.UpdateNotes? && IsOpen(o) && c.notes.Some? && Blank(c.notes.value)
  }

  /**
   A stored order can be reconstructed after a command exactly unless the command set blank notes, which
   `updateNotes` does not check, or changed the order while the clock stood before its creation.
   */
  lemma StepKeepsReloadable(fl: Rounding, d: Dated, c: Command, now: int)
    requires Reconstruct(d) == Made(d)
    ensures var after := DatedStep(fl, d, c, now);
            Reconstruct(after) == Made(after) <==>
              !SetsBlankNotes(d.order, c) && (Touches(fl, d.order, c) ==> d.createdAt.value <= now)
  {
    hide Blank, Trim, Create, RecalculateTotal;
    if c.ApplyDiscount? || c.RemoveDiscount? {
      RepricingKeepsText(fl, d.order, c);
    }
  }

  lemma RepricingKeepsText(fl: Rounding, o: State, c: Command)
    requires c.ApplyDiscount? || c.RemoveDiscount?
    ensures Step(fl, o, c).state.userId == o.userId && Step(fl, o, c).state.notes == o.notes
  {
  }

  /** Over any run that never sets blank notes, by a clock not behind the order's creation, it stays reconstructible. */
  lemma {:induction false} RunKeepsReloadable(fl: Rounding, d: Dated, calls: seq<(Command, int)>)
    requires Reconstruct(d) == Made(d)
    requires forall call :: call in calls ==> d.createdAt.value <= call.1
    requires forall call :: call in calls && call.0.UpdateNotes? && call.0.notes.Some? ==> !Blank(call.0.notes.value)
    ensures Reconstruct(DatedRun(fl, d, calls)) == Made(DatedRun(fl, d, calls))
    decreases |calls|
  {
    if calls == [] {
    } else {
      hide Blank, Trim, Step, Touches, Validate;
      StepKeepsReloadable(fl, d, calls[0].0, calls[0].1);
      RunKeepsReloadable(fl, DatedStep(fl, d, calls[0].0, calls[0].1), calls[1..]);
    }
  }
}
