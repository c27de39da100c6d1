/**
 The `QueryCompiler` class (`F` in the minified source), the finalization registry `E` and the wasm
 exports they call, as objects. Each method takes one step of the protocol in `QueryCompilers`.
 */
module QueryCompilerObjects {
  import opened QueryCompilers

  class QueryCompiler {
    /** `__wbg_ptr` */
    var ptr: nat

    constructor (p: nat)
      ensures ptr == p
    {
      ptr := p;
    }
  }

  /** `E`: the finalization registry, or the stub that ignores every call where the engine has none. */
  class Registry {
    const present: bool
    var cells: map<QueryCompiler, nat>

    constructor (present: bool)
      ensures this.present == present && cells == map[]
    {
      this.present, cells := present, map[];
    }

    method Register(target: QueryCompiler, held: nat)
      modifies this
      ensures cells == if present then old(cells)[target := held] else old(cells)
    {
      if present {
        cells := cells[target := held];
      }
    }

    method Unregister(token: QueryCompiler)
      modifies this
      ensures cells == if present then old(cells) - {token} else old(cells)
    {
      if present {
        cells := cells - {token};
      }
    }
  }

  class Host {
    const E: Registry

    /** The wasm side: the compiler at each live pointer, and the releases so far. */
    var live: map<nat, nat>
    var made: nat
    var released: seq<nat>
    var faults: nat

    /** The objects not yet collected, and the compiler each was made for. */
    ghost var objects: set<QueryCompiler>
    ghost var serial: map<QueryCompiler, nat>

    ghost function State(): World<QueryCompiler>
      reads this, E, objects
    {
      World(E.present, map c | c in objects :: c.ptr, E.cells, serial, live, made, released, faults)
    }

    ghost predicate Valid()
      reads this, E, objects
    {
      Sound(State()) && objects <= serial.Keys
    }

    constructor (hasRegistry: bool)
      ensures Valid() && fresh(E) && objects == {}
      ensures State() == Initial(hasRegistry)
    {
      E := new Registry(hasRegistry);
      live, made, released, faults := map[], 0, [], 0;
      objects, serial := {}, map[];
    }

    /** `__wbg_querycompiler_free`: throws on 0, releases a live pointer. */
    method WasmFree(p: nat) returns (threw: bool)
      modifies this`live, this`released, this`faults
      ensures State() == Release(old(State()), p)
      ensures threw == (p !in old(live))
      ensures p in old(live) ==> live == old(live) - {p} && released == old(released) + [old(live)[p]]
    {
      threw := p !in live;
      if p in live {
        live, released := live - {p}, released + [live[p]];
      } else if p != 0 {
        faults := faults + 1;
      }
    }

    /** The constructor of `F`; wasm may refuse, and then no object comes into being. */
    method NewCompiler() returns (c: QueryCompiler?)
      requires Valid()
      modifies this, E
      ensures Valid()
      ensures c == null ==> State() == old(State())
      ensures c != null ==> fresh(c) && 0 < c.ptr && Enabled(old(State()), Construct(c, c.ptr))
                            && State() == Step(old(State()), Construct(c, c.ptr))
    {
      if p: nat :| 0 < p < 0x1_0000_0000 && p !in live {
        if * {
          c := Wrap(p);
          return;
        }
      }
      c := null;
    }

    /** The rest of the constructor, once wasm has returned the pointer to a new compiler. */
    method Wrap(p: nat) returns (wrapper: QueryCompiler)
      requires Valid() && 0 < p && p !in live
      modifies this, E
      ensures Valid() && fresh(wrapper) && wrapper.ptr == p
      ensures Enabled(old(State()), Construct(wrapper, p)) && State() == Step(old(State()), Construct(wrapper, p))
    {
      hide Sound;
      ghost var before := State();
      wrapper := new QueryCompiler(p);
      assert wrapper !in serial;
      live, made := live[p := made], made + 1;
      serial := serial[wrapper := made - 1];
      objects := objects + {wrapper};
      E.Register(wrapper, p);
      assert State().pointers == before.pointers[wrapper := p];
      StepKeepsSound(before, Construct(wrapper, p));
    }

    /** `__destroy_into_raw`: takes the pointer out of the object and off the registry. */
    method DestroyIntoRaw(c: QueryCompiler) returns (t: nat)
      modifies c, E
      ensures t == old(c.ptr) && c.ptr == 0
      ensures E.cells == if E.present then old(E.cells) - {c} else old(E.cells)
    {
      t := c.ptr;
      c.ptr := 0;
      E.Unregister(c);
    }

    /** `free`, which may be called any number of times; it throws exactly when the object is already empty. */
    method FreeCompiler(c: QueryCompiler) returns (threw: bool)
      requires Valid() && c in objects
      modifies this, E, c
      ensures Valid()
      ensures State() == Step(old(State()), Free(c))
      ensures threw <==> old(c.ptr) == 0
      ensures c.ptr == 0 && c !in E.cells
      ensures old(c.ptr) != 0 ==> && old(c.ptr) in old(live) && live == old(live) - {old(c.ptr)}
                                  && c in old(serial) && released == old(released) + [old(serial)[c]]
    {
      ghost var before := State();
      assert !E.present ==> E.cells == map[];
      var t := DestroyIntoRaw(c);
      assert State() == before.(pointers := before.pointers[c := 0], cells := before.cells - {c});
      threw := WasmFree(t);
      StepKeepsSound(before, Free(c));
      if t != 0 {
        FreeReleasesOwn(before, c);
      }
    }

    /** The pointer `compile` and `compileBatch` pass to wasm: 0, or this object's own live compiler. */
    method PointerForCompile(c: QueryCompiler) returns (p: nat)
      requires Valid() && c in objects
      ensures p == State().pointers[c] && (p == 0 || Owns(State(), c, p))
    {
      p := c.ptr;
    }

    /** The engine drops an object nobody can reach any more. */
    ghost method CollectObject(c: QueryCompiler)
      requires Valid() && c in objects
      modifies this`objects
      ensures Valid()
      ensures State() == Step(old(State()), Collect(c))
    {
      ghost var before := State();
      objects := objects - {c};
      assert State().pointers == before.pointers - {c};
      StepKeepsSound(before, Collect(c));
    }

    /** The registry's callback for an object that has been collected. */
    method FinalizerRuns(c: QueryCompiler)
      requires Valid() && c in E.cells && c !in objects
      modifies this, E
      ensures Valid()
      ensures State() == Step(old(State()), Finalize(c))
      ensures && old(E.cells)[c] in old(live) && live == old(live) - {old(E.cells)[c]}
              && c in old(serial) && released == old(released) + [old(serial)[c]]
    {
      ghost var before := State();
      var held := E.cells[c];
      E.cells := E.cells - {c};
      assert State() == before.(cells := before.cells - {c});
      FinalizeReleasesOwn(before, c);
      var threw := WasmFree(held);
      StepKeepsSound(before, Finalize(c));
    }
  }
}
