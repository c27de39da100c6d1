/**
 Who owns a query compiler in wasm memory: the JavaScript object that wraps it, until `free` is called
 on it, or the finalization registry, once the object has been collected. The wasm side is known by
 contract: `querycompiler_new` returns a pointer no live compiler has, possibly one used before;
 freeing a live pointer releases it; freeing 0 only throws; anything else would be a fault.
 */
module QueryCompilers {

  datatype World<!O> = World(
    hasRegistry: bool,       // whether the engine has FinalizationRegistry
    pointers: map<O, nat>,   // the objects not yet collected, with their `__wbg_ptr`
    cells: map<O, nat>,      // what is registered with `E`, by unregister token
    serial: map<O, nat>,     // which compiler an object was constructed for
    live: map<nat, nat>,     // wasm memory: the compiler at each live pointer
    made: nat,               // compilers allocated so far, numbered from 0
    released: seq<nat>,      // compilers released, in order
    faults: nat              // frees of a pointer that is neither 0 nor live
  )

  function Initial<O>(hasRegistry: bool): World<O> {
    World(hasRegistry, map[], map[], map[], map[], 0, [], 0)
  }

  datatype Event<O> =
    | Construct(object: O, pointer: nat)
    | Compile(object: O)
    | Free(object: O)
    | Collect(object: O)
    | Finalize(object: O)

  /** `__wbg_querycompiler_free` */
  function Release<O>(w: World<O>, p: nat): World<O> {
    if p in w.live then w.(live := w.live - {p}, released := w.released + [w.live[p]])
    else if p == 0 then w
    else w.(faults := w.faults + 1)
  }

  /** What may happen next. A finalizer runs for an object that is gone and still registered. */
  predicate Enabled<O>(w: World<O>, e: Event<O>) {
    match e
    case Construct(x, p) => x !in w.serial && 0 < p && p !in w.live
    case Compile(x) => x in w.pointers
    case Free(x) => x in w.pointers
    case Collect(x) => x in w.pointers
    case Finalize(x) => x in w.cells && x !in w.pointers
  }

  function Step<O>(w: World<O>, e: Event<O>): World<O>
    requires Enabled(w, e)
  {
    match e
    case Construct(x, p) =>
      w.(pointers := w.pointers[x := p],
         cells := if w.hasRegistry then w.cells[x := p] else w.cells,
         serial := w.serial[x := w.made],
         live := w.live[p := w.made],
         made := w.made + 1)
    case Compile(x) => w
    case Free(x) => Release(w.(pointers := w.pointers[x := 0], cells := w.cells - {x}), w.pointers[x])
    case Collect(x) => w.(pointers := w.pointers - {x})
    case Finalize(x) => Release(w.(cells := w.cells - {x}), w.cells[x])
  }

  predicate Possible<O>(w: World<O>, events: seq<Event<O>>)
    decreases |events|
  {
    events != [] ==> Enabled(w, events[0]) && Possible(Step(w, events[0]), events[1..])
  }

  function Run<O>(w: World<O>, events: seq<Event<O>>): World<O>
    requires Possible(w, events)
    decreases |events|
  {
    if events == [] then w else Run(Step(w, events[0]), events[1..])
  }

  // ---------------------------------------------------------------- what every step keeps

  /** Pointer `p`, held for object `x`, is the live address of the very compiler `x` was made for. */
  predicate Owns<O>(w: World<O>, x: O, p: nat) {
    x in w.serial && p in w.live && w.live[p] == w.serial[x]
  }

  predicate Holding<O>(w: World<O>) {
    && (forall x :: x in w.pointers ==> x in w.serial && (w.pointers[x] == 0 || Owns(w, x, w.pointers[x])))
    && (forall x :: x in w.cells ==> Owns(w, x, w.cells[x]))
    && 0 !in w.live
  }

  /** While an object is live its pointer is non-zero exactly when it is registered, for that pointer. */
  predicate Registered<O>(w: World<O>) {
    if w.hasRegistry
    then forall x :: x in w.pointers ==> if x in w.cells then w.cells[x] == w.pointers[x] else w.pointers[x] == 0
    else w.cells == map[]
  }

  /** Serial numbers are unique, and every compiler made is either live or released, once. */
  predicate Accounted<O>(w: World<O>) {
    && (forall x, y :: x in w.serial && y in w.serial && x != y ==> w.serial[x] != w.serial[y])
    && (forall x :: x in w.serial ==> w.serial[x] < w.made)
    && (forall p, q :: p in w.live && q in w.live && p != q ==> w.live[p] != w.live[q])
    && (forall p :: p in w.live ==> w.live[p] < w.made && w.live[p] !in w.released)
    && (forall i, j :: 0 <= i < j < |w.released| ==> w.released[i] != w.released[j])
    && (forall i :: 0 <= i < |w.released| ==> w.released[i] < w.made)
    && (forall n :: 0 <= n < w.made ==> n in w.released || n in w.live.Values)
  }

  /** Nothing live is out of reach of both its object and the registry, where there is one. */
  predicate Reachable<O>(w: World<O>) {
    w.hasRegistry ==> forall p :: p in w.live ==> exists x :: x in w.cells && w.cells[x] == p
  }

  predicate Sound<O>(w: World<O>) {
    Holding(w) && Registered(w) && Accounted(w) && Reachable(w) && w.faults == 0
  }

  /** Releasing an owned pointer, with no object or cell left that holds it, keeps the books in order. */
  lemma ReleaseKeepsBooks<O>(w: World<O>, p: nat)
    requires Accounted(w) && p in w.live
    ensures Accounted(Release(w, p))
  {
    var after := Release(w, p);
    forall n | 0 <= n < after.made
      ensures n in after.released || n in after.live.Values
    {
      if n != w.live[p] && n !in w.released {
        var q :| q in w.live && w.live[q] == n;
        assert after.live[q] == n;
      }
    }
  }

  /** Two different objects never own the same pointer. */
  lemma OwnersDiffer<O>(w: World<O>, x: O, y: O, p: nat)
    requires Accounted(w) && Owns(w, x, p) && Owns(w, y, p)
    ensures x == y
  {
  }

  lemma ConstructKeepsBooks<O>(w: World<O>, x: O, p: nat)
    requires Accounted(w) && Enabled(w, Construct(x, p))
    ensures Accounted(Step(w, Construct(x, p)))
  {
    var after := Step(w, Construct(x, p));
    forall n | 0 <= n < after.made
      ensures n in after.released || n in after.live.Values
    {
      if n == w.made {
        assert after.live[p] == n;
      } else if n !in w.released {
        var q :| q in w.live && w.live[q] == n;
        assert after.live[q] == n;
      }
    }
  }

  lemma ConstructStaysReachable<O>(w: World<O>, x: O, p: nat)
    requires Reachable(w) && Enabled(w, Construct(x, p)) && (forall y :: y in w.cells ==> y in w.serial)
    ensures Reachable(Step(w, Construct(x, p)))
  {
    var after := Step(w, Construct(x, p));
    if w.hasRegistry {
      forall q | q in after.live
        ensures exists y :: y in after.cells && after.cells[y] == q
      {
        if q == p {
          assert after.cells[x] == p;
        } else {
          var y :| y in w.cells && w.cells[y] == q;
          assert after.cells[y] == q;
        }
      }
    }
  }

  lemma ConstructKeepsHolding<O>(w: World<O>, x: O, p: nat)
    requires Holding(w) && Registered(w) && Enabled(w, Construct(x, p))
    ensures Holding(Step(w, Construct(x, p))) && Registered(Step(w, Construct(x, p)))
  {
    var after := Step(w, Construct(x, p));
    forall y, q | Owns(w, y, q)
      ensures Owns(after, y, q)
    {
    }
  }

  lemma ConstructKeepsSound<O>(w: World<O>, x: O, p: nat)
    requires Sound(w) && Enabled(w, Construct(x, p))
    ensures Sound(Step(w, Construct(x, p)))
  {
    ConstructKeepsHolding(w, x, p);
    hide Registered, Accounted, Reachable;
    ConstructKeepsBooks(w, x, p);
    ConstructStaysReachable(w, x, p);
  }

  lemma SameBooks<O>(w: World<O>, v: World<O>)
    requires w.serial == v.serial && w.live == v.live && w.made == v.made && w.released == v.released
    ensures Accounted(w) <==> Accounted(v)
  {
  }

  lemma FreeOfNothing<O>(w: World<O>, x: O)
    requires x in w.pointers && w.pointers[x] == 0 && x !in w.cells && 0 !in w.live
    ensures Step(w, Free(x)) == w
  {
    assert w.pointers[x := 0] == w.pointers && w.cells - {x} == w.cells;
  }

  lemma FreeReleases<O>(w: World<O>, x: O)
    requires Sound(w) && x in w.pointers && w.pointers[x] != 0
    ensures Sound(Step(w, Free(x)))
  {
    var p := w.pointers[x];
    var dropped := w.(pointers := w.pointers[x := 0], cells := w.cells - {x});
    SameBooks(w, dropped);
    ReleaseKeepsBooks(dropped, p);
    DropKeepsRest(w, dropped, x, p);
    assert Step(w, Free(x)) == Release(dropped, p);
  }

  lemma FreeKeepsSound<O>(w: World<O>, x: O)
    requires Sound(w) && Enabled(w, Free(x))
    ensures Sound(Step(w, Free(x)))
  {
    if w.pointers[x] == 0 {
      FreeOfNothing(w, x);
    } else {
      FreeReleases(w, x);
    }
  }

  lemma FinalizeKeepsSound<O>(w: World<O>, x: O)
    requires Sound(w) && Enabled(w, Finalize(x))
    ensures Sound(Step(w, Finalize(x)))
  {
    var p := w.cells[x];
    var dropped := w.(cells := w.cells - {x});
    ReleaseKeepsBooks(dropped, p);
    DropKeepsRest(w, dropped, x, p);
  }

  /** Once `x` has given up its pointer, releasing it takes nothing away from any other object. */
  lemma DropKeepsHolding<O>(w: World<O>, dropped: World<O>, x: O, p: nat)
    requires Holding(w) && Accounted(w) && Owns(w, x, p)
    requires dropped == w.(pointers := dropped.pointers, cells := w.cells - {x})
    requires dropped.pointers.Keys == w.pointers.Keys
    requires forall y :: y in dropped.pointers ==> dropped.pointers[y] == if y == x then 0 else w.pointers[y]
    ensures Holding(Release(dropped, p))
  {
    var after := Release(dropped, p);
    forall y, q | y != x && Owns(w, y, q)
      ensures Owns(after, y, q)
    {
      if q == p {
        OwnersDiffer(w, x, y, p);
      }
    }
  }

  lemma DropKeepsRest<O>(w: World<O>, dropped: World<O>, x: O, p: nat)
    requires Sound(w) && Owns(w, x, p)
    requires dropped == w.(pointers := dropped.pointers, cells := w.cells - {x})
    requires dropped.pointers.Keys == w.pointers.Keys
    requires forall y :: y in dropped.pointers ==> dropped.pointers[y] == if y == x then 0 else w.pointers[y]
    ensures Holding(Release(dropped, p)) && Registered(Release(dropped, p)) && Reachable(Release(dropped, p))
    ensures Release(dropped, p).faults == 0
  {
    DropKeepsHolding(w, dropped, x, p);
    assert x in w.cells ==> w.cells[x] == p by {
      if x in w.cells {
        SamePointer(w, x, w.cells[x], p);
      }
    }
    StillReachable(w, Release(dropped, p), x, p);
  }

  lemma SamePointer<O>(w: World<O>, x: O, p: nat, q: nat)
    requires Accounted(w) && Owns(w, x, p) && Owns(w, x, q)
    ensures p == q
  {
  }

  /** Every pointer but the one given up keeps its cell. */
  lemma StillReachable<O>(w: World<O>, after: World<O>, x: O, p: nat)
    requires Sound(w) && after.hasRegistry == w.hasRegistry && after.cells == w.cells - {x}
    requires x in w.cells ==> w.cells[x] == p
    requires forall q :: q in after.live ==> q in w.live && q != p
    ensures Reachable(after)
  {
    if w.hasRegistry {
      forall q | q in after.live
        ensures exists y :: y in after.cells && after.cells[y] == q
      {
        var y :| y in w.cells && w.cells[y] == q;
        assert after.cells[y] == q;
      }
    }
  }

  /** Every step keeps the ownership protocol sound. */
  lemma StepKeepsSound<O>(w: World<O>, e: Event<O>)
    requires Sound(w) && Enabled(w, e)
    ensures Sound(Step(w, e))
  {
    match e
    case Construct(x, p) => ConstructKeepsSound(w, x, p);
    case Compile(x) =>
    case Free(x) => FreeKeepsSound(w, x);
    case Collect(x) =>
    case Finalize(x) => FinalizeKeepsSound(w, x);
  }

  lemma {:induction false} RunKeepsSound<O>(w: World<O>, events: seq<Event<O>>)
    requires Sound(w) && Possible(w, events)
    ensures Sound(Run(w, events))
    decreases |events|
  {
    if events == [] {
    } else {
      StepKeepsSound(w, events[0]);
      RunKeepsSound(Step(w, events[0]), events[1..]);
    }
  }

  // ---------------------------------------------------------------- what follows for whole runs

  /**
   In every interleaving of construction, compilation, freeing, repeated freeing, collection and
   finalization, no compiler is released twice and nothing else is ever freed.
   */
  lemma ReleasedAtMostOnce<O>(hasRegistry: bool, events: seq<Event<O>>)
    requires Possible(Initial<O>(hasRegistry), events)
    ensures var w := Run(Initial<O>(hasRegistry), events);
            && w.faults == 0
            && (forall i, j :: 0 <= i < j < |w.released| ==> w.released[i] != w.released[j])
            && (forall p :: p in w.live ==> w.live[p] !in w.released)
  {
    RunKeepsSound(Initial<O>(hasRegistry), events);
  }

  /** With a registry, once every object is collected and every finalizer has run, nothing is left allocated. */
  lemma NothingLeaks<O>(events: seq<Event<O>>)
    requires Possible(Initial<O>(true), events)
    requires var w := Run(Initial<O>(true), events); w.pointers == map[] && w.cells == map[]
    ensures var w := Run(Initial<O>(true), events); w.live == map[] && forall n :: 0 <= n < w.made ==> n in w.released
  {
    RunKeepsSound(Initial<O>(true), events);
    assert Run(Initial<O>(true), events).hasRegistry by { RunKeepsRegistry(Initial<O>(true), events); }
  }

  lemma {:induction false} RunKeepsRegistry<O>(w: World<O>, events: seq<Event<O>>)
    requires Possible(w, events)
    ensures Run(w, events).hasRegistry == w.hasRegistry
    decreases |events|
  {
    if events == [] {
    } else {
      RunKeepsRegistry(Step(w, events[0]), events[1..]);
    }
  }

  /** At any point of any run, a compile call passes wasm 0 or the live compiler of that very object. */
  lemma CompileUsesOwn<O>(hasRegistry: bool, events: seq<Event<O>>, x: O)
    requires Possible(Initial<O>(hasRegistry), events)
    requires x in Run(Initial<O>(hasRegistry), events).pointers
    ensures Enabled(Run(Initial<O>(hasRegistry), events), Compile(x))
    ensures var w := Run(Initial<O>(hasRegistry), events); w.pointers[x] == 0 || Owns(w, x, w.pointers[x])
  {
    RunKeepsSound(Initial<O>(hasRegistry), events);
  }

  /** Freeing an object again releases nothing and is no fault; it only passes 0. */
  lemma FreeTwice<O>(w: World<O>, x: O)
    requires Sound(w) && x in w.pointers
    ensures Step(w, Free(x)).pointers[x] == 0
    ensures Step(Step(w, Free(x)), Free(x)) == Step(w, Free(x))
  {
    FreeKeepsSound(w, x);
    FreeOfNothing(Step(w, Free(x)), x);
  }

  // ---------------------------------------------------------------- what each event does

  /** A new object gets a pointer of its own to a new compiler, and is registered if there is a registry. */
  lemma ConstructGives<O>(w: World<O>, x: O, p: nat)
    requires Sound(w) && x !in w.serial && 0 < p && p !in w.live
    ensures Enabled(w, Construct(x, p))
    ensures var after := Step(w, Construct(x, p));
            && x in after.pointers && after.pointers[x] == p && Owns(after, x, p)
            && after.made == w.made + 1 && after.released == w.released && after.live.Keys == w.live.Keys + {p}
            && (w.hasRegistry ==> x in after.cells && after.cells[x] == p)
            && (forall y :: y in w.pointers ==> y in after.pointers && (y != x ==> after.pointers[y] == w.pointers[y]))
  {
  }

  /** Dropping an object changes nothing in wasm and leaves its finalizer, if it has one, able to run. */
  lemma CollectOnlyForgets<O>(w: World<O>, x: O)
    requires x in w.pointers
    ensures Enabled(w, Collect(x))
    ensures var after := Step(w, Collect(x));
            && x !in after.pointers && after.live == w.live && after.released == w.released && after.cells == w.cells
            && (forall y :: y in w.pointers && y != x ==> y in after.pointers && after.pointers[y] == w.pointers[y])
            && (x in w.cells ==> Enabled(after, Finalize(x)))
  {
  }

  /**
   Freeing an object that still has its pointer releases its own compiler and nothing else, with or
   without a registry, and unregisters it.
   */
  lemma FreeReleasesOwn<O>(w: World<O>, x: O)
    requires Sound(w) && x in w.pointers && w.pointers[x] != 0
    ensures Enabled(w, Free(x))
    ensures var after, p := Step(w, Free(x)), w.pointers[x];
            && p in w.live && after.live == w.live - {p}
            && after.released == w.released + [w.serial[x]]
            && x in after.pointers && after.pointers[x] == 0 && x !in after.cells
            && (forall y :: y in w.pointers && y != x ==> y in after.pointers && after.pointers[y] == w.pointers[y])
  {
  }

  /** A finalizer releases the compiler of the object that is gone, and nothing else. */
  lemma FinalizeReleasesOwn<O>(w: World<O>, x: O)
    requires Sound(w) && x in w.cells && x !in w.pointers
    ensures Enabled(w, Finalize(x))
    ensures var after, p := Step(w, Finalize(x)), w.cells[x];
            && p in w.live && after.live == w.live - {p}
            && after.released == w.released + [w.serial[x]] && x !in after.cells && after.pointers == w.pointers
  {
  }

  // ---------------------------------------------------------------- exactly what is released

  /** An empty pointer means that the compiler has been released. */
  predicate EmptyMeansReleased<O>(w: World<O>) {
    forall x :: x in w.pointers && x in w.serial && w.pointers[x] == 0 ==> w.serial[x] in w.released
  }

  ghost predicate Releases<O>(e: Event<O>, x: O) { e == Free(x) || e == Finalize(x) }

  /** From `w` to `after` exactly the compiler of `y` was released. */
  predicate ReleasedOne<O>(w: World<O>, after: World<O>, y: O) {
    && y in w.serial && after.serial == w.serial && after.released == w.released + [w.serial[y]]
    && forall z :: z in after.pointers ==> z in w.pointers && (z != y ==> after.pointers[z] == w.pointers[z])
  }

  lemma ReleasedOneExactly<O>(w: World<O>, after: World<O>, y: O, x: O)
    requires Accounted(w) && EmptyMeansReleased(w) && ReleasedOne(w, after, y)
    ensures EmptyMeansReleased(after)
    ensures x in w.serial ==> (w.serial[x] in after.released <==> w.serial[x] in w.released || x == y)
  {
    assert w.serial[y] in after.released;
  }

  lemma ConstructReleasesNothing<O>(w: World<O>, y: O, p: nat, x: O)
    requires Accounted(w) && EmptyMeansReleased(w) && Enabled(w, Construct(y, p))
    ensures var after := Step(w, Construct(y, p));
            && EmptyMeansReleased(after) && after.released == w.released
            && after.serial.Keys == w.serial.Keys + {y} && after.serial[y] !in w.released
            && (x in w.serial ==> after.serial[x] == w.serial[x])
  {
  }

  lemma StepReleases<O>(w: World<O>, e: Event<O>, x: O)
    requires Sound(w) && EmptyMeansReleased(w) && Enabled(w, e)
    ensures EmptyMeansReleased(Step(w, e))
    ensures Releases(e, x) ==> x in w.serial
    ensures x in w.serial ==> x in Step(w, e).serial && Step(w, e).serial[x] == w.serial[x]
    ensures x in w.serial ==> (w.serial[x] in Step(w, e).released <==> w.serial[x] in w.released || Releases(e, x))
    ensures x !in w.serial && x in Step(w, e).serial ==> Step(w, e).serial[x] !in Step(w, e).released
  {
    hide Reachable, Accounted, Registered;
    match e
    case Construct(y, p) => ConstructReleasesNothing(w, y, p, x);
    case Compile(y) =>
    case Free(y) =>
      if w.pointers[y] == 0 {
        EmptyIsUnregistered(w, y);
        FreeOfNothing(w, y);
      } else {
        FreeReleasesOwn(w, y);
        ReleasedOneExactly(w, Step(w, e), y, x);
      }
    case Collect(y) =>
    case Finalize(y) =>
      FinalizeReleasesOwn(w, y);
      ReleasedOneExactly(w, Step(w, e), y, x);
  }

  lemma EmptyIsUnregistered<O>(w: World<O>, y: O)
    requires Sound(w) && y in w.pointers && w.pointers[y] == 0
    ensures y !in w.cells && 0 !in w.live
  {
  }

  lemma {:induction false} RunReleases<O>(w: World<O>, events: seq<Event<O>>, x: O)
    requires Sound(w) && EmptyMeansReleased(w) && Possible(w, events)
    ensures var after := Run(w, events);
            && (x in w.serial ==> x in after.serial && after.serial[x] == w.serial[x])
            && (x in after.serial ==>
                  (after.serial[x] in after.released <==>
                     (x in w.serial && w.serial[x] in w.released) || exists e :: e in events && Releases(e, x)))
            && (x !in after.serial ==> forall e :: e in events ==> !Releases(e, x))
    decreases |events|
  {
    hide Sound, EmptyMeansReleased, Step, Enabled, Releases;
    if events == [] {
    } else {
      var next := Step(w, events[0]);
      StepKeepsSound(w, events[0]);
      StepReleases(w, events[0], x);
      RunReleases(next, events[1..], x);
      assert events == [events[0]] + events[1..];
    }
  }

  /**
   With or without a finalization registry, at the end of any run a compiler has been released if and only
   if its object was freed or its finalizer ran. Without a registry there are no finalizers, so exactly
   the objects nobody freed leak.
   */
  lemma ReleasedExactly<O>(hasRegistry: bool, events: seq<Event<O>>, x: O)
    requires Possible(Initial<O>(hasRegistry), events)
    requires x in Run(Initial<O>(hasRegistry), events).serial
    ensures var w := Run(Initial<O>(hasRegistry), events);
            && (w.serial[x] in w.released <==> Free(x) in events || Finalize(x) in events)
            && (!hasRegistry ==> Finalize(x) !in events)
  {
    RunReleases(Initial<O>(hasRegistry), events, x);
    if !hasRegistry {
      NoFinalizers(Initial<O>(hasRegistry), events, x);
    }
  }

  lemma {:induction false} NoFinalizers<O>(w: World<O>, events: seq<Event<O>>, x: O)
    requires !w.hasRegistry && w.cells == map[] && Possible(w, events)
    ensures Finalize(x) !in events
    decreases |events|
  {
    if events == [] {
    } else {
      NoFinalizers(Step(w, events[0]), events[1..], x);
      assert events == [events[0]] + events[1..];
    }
  }

  // ---------------------------------------------------------------- nothing has to leak

  /**
   Where there is a registry, any state can be cleared: the engine can still collect every object and run
   every finalizer, after which nothing is allocated.
   */
  lemma {:induction false} CanBeCleared<O>(w: World<O>) returns (events: seq<Event<O>>)
    requires Sound(w) && w.hasRegistry
    ensures Possible(w, events) && Run(w, events).live == map[]
    ensures forall e :: e in events ==> e.Collect? || e.Finalize?
    decreases |w.pointers| + |w.cells|
  {
    hide Holding, Registered, Accounted;
    if x :| x in w.pointers {
      StepKeepsSound(w, Collect(x));
      CollectOnlyForgets(w, x);
      var next := Step(w, Collect(x));
      FewerKeys(w.pointers, x);
      var rest := CanBeCleared(next);
      events := [Collect(x)] + rest;
      assert events[1..] == rest;
    } else if x :| x in w.cells {
      StepKeepsSound(w, Finalize(x));
      FinalizeReleasesOwn(w, x);
      var next := Step(w, Finalize(x));
      FewerKeys(w.cells, x);
      var rest := CanBeCleared(next);
      events := [Finalize(x)] + rest;
      assert events[1..] == rest;
    } else {
      events := [];
    }
  }

  lemma FewerKeys<O>(m: map<O, nat>, x: O)
    requires x in m
    ensures |m - {x}| == |m| - 1
  {
    assert (m - {x}).Keys == m.Keys - {x};
    assert |m.Keys - {x}| == |m.Keys| - 1;
  }
}
