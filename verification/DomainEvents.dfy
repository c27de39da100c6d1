/**
 The event queue every aggregate root inherits: events are pushed onto an array, and a pull hands
 that very array to the caller and starts a new one.
 */
module DomainEvents {

  /** A JavaScript array: an object, shared by everyone who holds a reference to it. */
  class JsArray<E> {
    var items: seq<E>

    constructor ()
      ensures items == []
    {
      items := [];
    }

    method Push(e: E)
      modifies this
      ensures items == old(items) + [e]
    {
      items := items + [e];
    }
  }

  // ---------------------------------------------------------------- the queue as a value

  /** What has been pulled so far, batch by batch, and what is waiting. */
  datatype Queue<E> = Queue(pulled: seq<seq<E>>, pending: seq<E>)

  datatype Op<E> = Add(event: E) | Pull

  function Apply<E>(q: Queue<E>, op: Op<E>): Queue<E> {
    match op
    case Add(e) => Queue(q.pulled, q.pending + [e])
    case Pull => Queue(q.pulled + [q.pending], [])
  }

  function Run<E>(q: Queue<E>, ops: seq<Op<E>>): Queue<E>
    decreases |ops|
  {
    if ops == [] then q else Run(Apply(q, ops[0]), ops[1..])
  }

  function Flatten<E>(batches: seq<seq<E>>): seq<E> {
    if batches == [] then [] else Flatten(batches[..|batches| - 1]) + batches[|batches| - 1]
  }

  /** The event an operation adds, if any. */
  function Brought<E>(op: Op<E>): seq<E> { if op.Add? then [op.event] else [] }

  /** The events a run adds, in order. */
  function Added<E>(ops: seq<Op<E>>): seq<E> {
    if ops == [] then [] else Brought(ops[0]) + Added(ops[1..])
  }

  /** Everything that has ever been added, in order. */
  function History<E>(q: Queue<E>): seq<E> { Flatten(q.pulled) + q.pending }

  lemma ApplyHistory<E>(q: Queue<E>, op: Op<E>)
    ensures History(Apply(q, op)) == History(q) + Brought(op)
  {
    if op.Pull? {
      assert (q.pulled + [q.pending])[..|q.pulled|] == q.pulled;
    }
  }

  lemma Regroup<E>(a: seq<E>, b: seq<E>, c: seq<E>)
    ensures (a + b) + c == a + (b + c)
  {
  }

  /**
   Delivered once and in order: over any run, the batches pulled one after the other followed by what
   is still waiting are exactly the events added.
   */
  lemma {:induction false} RunDeliversInOrder<E>(q: Queue<E>, ops: seq<Op<E>>)
    ensures History(Run(q, ops)) == History(q) + Added(ops)
    decreases |ops|
  {
    if ops == [] {
    } else {
      hide History, Apply, Brought;
      ApplyHistory(q, ops[0]);
      RunDeliversInOrder(Apply(q, ops[0]), ops[1..]);
      Regroup(History(q), Brought(ops[0]), Added(ops[1..]));
    }
  }

  /** A batch, once pulled, stays what it was: later operations only append to the list of batches. */
  lemma {:induction false} PulledBatchesStay<E>(q: Queue<E>, ops: seq<Op<E>>)
    ensures q.pulled <= Run(q, ops).pulled
    decreases |ops|
  {
    if ops == [] {
    } else {
      PulledBatchesStay(Apply(q, ops[0]), ops[1..]);
    }
  }

  // ---------------------------------------------------------------- what callers get

  /** The batch a call returns to its caller, if any. */
  function Returned<E>(q: Queue<E>, op: Op<E>): seq<seq<E>> { if op.Pull? then [q.pending] else [] }

  /** The batches returned over a run, in order. */
  function AllReturned<E>(q: Queue<E>, ops: seq<Op<E>>): seq<seq<E>>
    decreases |ops|
  {
    if ops == [] then [] else Returned(q, ops[0]) + AllReturned(Apply(q, ops[0]), ops[1..])
  }

  /** The events of at most one batch. */
  function Head<E>(batches: seq<seq<E>>): seq<E> { if batches == [] then [] else batches[0] }

  lemma FlattenNothing<E>()
    ensures Flatten<E>([]) == []
  {
  }

  lemma Splice<E>(a: seq<E>, b: seq<E>, c: seq<E>, d: seq<E>, e: seq<E>, f: seq<E>, g: seq<E>)
    requires b + c == d + e && a + d == f + g
    ensures (a + b) + c == f + (g + e)
  {
    Regroup(a, b, c);
    Regroup(a, d, e);
    Regroup(f, g, e);
  }

  lemma FlattenLast<E>(batches: seq<seq<E>>, last: seq<E>)
    ensures Flatten(batches + [last]) == Flatten(batches) + last
  {
    assert (batches + [last])[..|batches|] == batches;
  }

  lemma FlattenHead<E>(front: seq<seq<E>>)
    requires |front| <= 1
    ensures Flatten(front) == Head(front)
  {
    assert front != [] ==> front[..0] == [];
  }

  lemma {:induction false} FlattenFront<E>(front: seq<seq<E>>, rest: seq<seq<E>>)
    requires |front| <= 1
    ensures Flatten(front + rest) == Head(front) + Flatten(rest)
    decreases |rest|
  {
    hide Flatten, Head;
    if rest == [] {
      assert front + rest == front;
      FlattenHead(front);
      FlattenNothing<E>();
    } else {
      var init, last := rest[..|rest| - 1], rest[|rest| - 1];
      assert rest == init + [last];
      Regroup(front, init, [last]);
      FlattenFront(front, init);
      FlattenLast(front + init, last);
      FlattenLast(init, last);
      Regroup(Head(front), Flatten(init), last);
    }
  }

  /**
   Seen from the callers: what the pulls of a run returned, one batch after the other, followed by what
   is pending at the end, is what was pending at the start followed by the events added. Nothing is
   delivered twice and nothing is lost.
   */
  lemma {:induction false} CallersGetEverythingOnce<E>(q: Queue<E>, ops: seq<Op<E>>)
    ensures Flatten(AllReturned(q, ops)) + Run(q, ops).pending == q.pending + Added(ops)
    ensures Run(q, ops).pulled == q.pulled + AllReturned(q, ops)
    decreases |ops|
  {
    hide Flatten, Apply, Brought, Returned;
    if ops == [] {
      FlattenNothing<E>();
    } else {
      var next, first := Apply(q, ops[0]), Head(Returned(q, ops[0]));
      var rest := AllReturned(next, ops[1..]);
      CallersGetEverythingOnce(next, ops[1..]);
      StepGives(q, ops[0]);
      FlattenFront(Returned(q, ops[0]), rest);
      Splice(first, Flatten(rest), Run(q, ops).pending, next.pending, Added(ops[1..]), q.pending, Brought(ops[0]));
      Regroup(q.pulled, Returned(q, ops[0]), rest);
    }
  }

  /** A call returns and leaves pending what was pending before and what it brought. */
  lemma StepGives<E>(q: Queue<E>, op: Op<E>)
    ensures |Returned(q, op)| <= 1 && Head(Returned(q, op)) + Apply(q, op).pending == q.pending + Brought(op)
    ensures op.Pull? ==> Apply(q, op).pending == []
    ensures Apply(q, op).pulled == q.pulled + Returned(q, op)
  {
  }

  // ---------------------------------------------------------------- the aggregate root

  class AggregateRoot<E> {
    var domainEvents: JsArray<E>

    /** The contents of the batches at the time they were pulled, and the arrays handed out. */
    ghost var pulled: seq<seq<E>>
    ghost var handedOut: set<JsArray<E>>

    ghost function State(): Queue<E>
      reads this, domainEvents
    {
      Queue(pulled, domainEvents.items)
    }

    /** The array being filled is no longer, or not yet, in a caller's hands. */
    ghost predicate Valid()
      reads this
    {
      domainEvents !in handedOut
    }

    constructor ()
      ensures Valid() && fresh(domainEvents)
      ensures State() == Queue([], []) && handedOut == {}
    {
      domainEvents := new JsArray();
      pulled, handedOut := [], {};
    }

    /** `addDomainEvent`: changes only the array being filled, so no batch already handed out. */
    method AddDomainEvent(event: E)
      requires Valid()
      modifies domainEvents
      ensures Valid()
      ensures State() == Apply(old(State()), Add(event))
      ensures domainEvents.items == old(domainEvents.items) + [event] && pulled == old(pulled)
      ensures forall batch :: batch in handedOut ==> batch.items == old(batch.items)
    {
      domainEvents.Push(event);
    }

    /** `pullDomainEvents`: hands out the array itself and goes on with a new one. */
    method PullDomainEvents() returns (events: JsArray<E>)
      requires Valid()
      modifies this
      ensures Valid() && fresh(domainEvents)
      ensures events == old(domainEvents) && events.items == old(domainEvents.items)
      ensures domainEvents.items == [] && pulled == old(pulled) + [events.items]
      ensures State() == Apply(old(State()), Pull)
      ensures handedOut == old(handedOut) + {events}
      ensures forall batch :: batch in handedOut ==> batch.items == old(batch.items)
    {
      events := domainEvents;
      pulled, handedOut := pulled + [domainEvents.items], handedOut + {events};
      domainEvents := new JsArray();
    }
  }

  /** The contents of arrays in callers' hands. */
  ghost function Contents<E>(batches: seq<JsArray<E>>): (cs: seq<seq<E>>)
    reads batches
    ensures |cs| == |batches|
  {
    if batches == [] then [] else [batches[0].items] + Contents(batches[1..])
  }

  /**
   Any sequence of calls: at the end, the arrays returned along the way still hold what was delivered in
   them, and together with what is pending that is exactly what was added.
   */
  method Perform<E>(root: AggregateRoot<E>, ops: seq<Op<E>>) returns (batches: seq<JsArray<E>>)
    requires root.Valid()
    modifies root, root.domainEvents
    ensures root.Valid() && (root.domainEvents == old(root.domainEvents) || fresh(root.domainEvents))
    ensures old(root.handedOut) <= root.handedOut && forall b :: b in batches ==> b in root.handedOut
    ensures forall b :: b in old(root.handedOut) ==> b.items == old(b.items)
    ensures Contents(batches) == AllReturned(old(root.State()), ops)
    ensures root.State() == Run(old(root.State()), ops)
    ensures Flatten(Contents(batches)) + root.domainEvents.items == old(root.domainEvents.items) + Added(ops)
    decreases |ops|
  {
    ghost var start := root.State();
    if ops == [] {
      batches := [];
    } else {
      match ops[0] {
        case Add(event) =>
          root.AddDomainEvent(event);
          batches := Perform(root, ops[1..]);
        case Pull =>
          var events := root.PullDomainEvents();
          var rest := Perform(root, ops[1..]);
          batches := [events] + rest;
          assert batches[1..] == rest;
      }
    }
    CallersGetEverythingOnce(start, ops);
  }
}
