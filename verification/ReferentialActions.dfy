/**
 Inserts and deletes over the schema's tables. The delete rules come from the schema; how a delete
 carries them out is this model's reading of the referential actions of section 11.8 of
 ISO/IEC 9075-2: a delete removes one row at a time, in whatever order the engine likes, refuses as
 soon as a row it is about to remove is referred to under a Restrict rule, and otherwise nulls the
 SetNull references to that row and queues the Cascade ones. A refused delete is rolled back.
 */
module ReferentialActions {
  import opened StoreSchema

  datatype Outcome = Done(db: Database) | Refused

  // ---------------------------------------------------------------- one row at a time

  /** The rows that refer to `target` under `rule`. */
  function Referrers(db: Database, target: Key, rule: Rule): (ks: set<Key>)
    ensures ks <= db.Keys
  {
    set k | k in db && (exists fk :: fk in db[k].refs && OnDelete(fk) == rule && Refers(db, k, fk, target))
  }

  /** `row` with its SetNull references into `gone` nulled. */
  function Nulled(row: Row, gone: set<Key>): Row {
    Row(map fk | fk in row.refs && !(OnDelete(fk) == SetNull && Key(Parent(fk), row.refs[fk]) in gone) :: row.refs[fk],
        row.values, row.deletedAt)
  }

  /** The database without the rows in `gone`, and with the SetNull references to them nulled. */
  function Erase(db: Database, gone: set<Key>): Database {
    map k | k in db && k !in gone :: Nulled(db[k], gone)
  }

  /** A delete under way: what is left, and which rows are still to be removed. */
  datatype Work = Work(db: Database, pending: set<Key>)

  function Remove(w: Work, k: Key): Work {
    Work(Erase(w.db, {k}), w.pending - {k} + (Referrers(w.db, k, Cascade) - {k}))
  }

  /** Removing the rows of `schedule` in that order is one complete way to carry the delete out. */
  predicate Execution(w: Work, schedule: seq<Key>, result: Outcome)
    decreases |schedule|
  {
    if w.pending == {} then schedule == [] && result == Done(w.db)
    else
      && schedule != [] && schedule[0] in w.pending
      && if Referrers(w.db, schedule[0], Restrict) != {}
         then |schedule| == 1 && result == Refused
         else Execution(Remove(w, schedule[0]), schedule[1..], result)
  }

  // ---------------------------------------------------------------- all at once

  /** The rows that a Cascade rule ties to some row of `s`. */
  function CascadeFrom(db: Database, s: set<Key>): (ks: set<Key>)
    ensures ks <= db.Keys
  {
    set k | k in db && exists fk :: fk in db[k].refs && OnDelete(fk) == Cascade && Key(Parent(fk), db[k].refs[fk]) in s
  }

  /** Everything that goes when the rows in `s` go. */
  function Closure(db: Database, s: set<Key>): (c: set<Key>)
    requires s <= db.Keys
    ensures s <= c <= db.Keys
    ensures CascadeFrom(db, c) <= c
    ensures forall t: set<Key> :: s <= t && CascadeFrom(db, t) <= t ==> c <= t
    decreases |db.Keys - s|
  {
    var more := CascadeFrom(db, s);
    if more <= s then s
    else
      Shrinks(db.Keys, s, more);
      assert forall t: set<Key> :: s <= t && CascadeFrom(db, t) <= t ==> more <= t;
      Closure(db, s + more)
  }

  lemma Shrinks(all: set<Key>, s: set<Key>, more: set<Key>)
    requires s <= all && more <= all && !(more <= s)
    ensures |all - (s + more)| < |all - s|
  {
    var x :| x in more && x !in s;
    assert all - (s + more) < all - s;
    SubsetSmaller(all - (s + more), all - s);
  }

  lemma SubsetSmaller(a: set<Key>, b: set<Key>)
    requires a < b
    ensures |a| < |b|
  {
    assert b == a + (b - a);
    assert |b| == |a| + |b - a|;
  }

  /** What deleting row `k` does: refuse if it is protected, else erase exactly its Cascade closure. */
  function Delete(db: Database, k: Key): Outcome
    requires k in db
  {
    if Referrers(db, k, Restrict) != {} then Refused else Done(Erase(db, Closure(db, {k})))
  }

  // ---------------------------------------------------------------- every order gives the same result

  lemma NulledTwice(row: Row, r: set<Key>, k: Key)
    ensures Nulled(Nulled(row, r), {k}) == Nulled(row, r + {k})
  {
  }

  lemma EraseTwice(db: Database, r: set<Key>, k: Key)
    ensures Erase(Erase(db, r), {k}) == Erase(db, r + {k})
  {
    forall c | c in db && c !in r + {k}
      ensures Nulled(Nulled(db[c], r), {k}) == Nulled(db[c], r + {k})
    {
      NulledTwice(db[c], r, k);
    }
  }

  lemma EraseNothing(db: Database)
    ensures Erase(db, {}) == db
  {
    forall k | k in db
      ensures Nulled(db[k], {}) == db[k]
    {
      assert Nulled(db[k], {}).refs == db[k].refs;
    }
  }

  /** Erasing rows leaves the Cascade and Restrict references of the others in place. */
  lemma ReferrersErase(db: Database, r: set<Key>, target: Key, rule: Rule)
    requires rule != SetNull
    ensures Referrers(Erase(db, r), target, rule) == Referrers(db, target, rule) - r
  {
    var rest := Erase(db, r);
    forall k | k in db && k !in r
      ensures k in Referrers(rest, target, rule) <==> k in Referrers(db, target, rule)
    {
      forall fk | OnDelete(fk) == rule
        ensures Refers(rest, k, fk, target) <==> Refers(db, k, fk, target)
      {
      }
    }
  }

  /** A row the closure picked up is there because a Cascade reference leads into the closure. */
  lemma ClosureMember(db: Database, s: set<Key>, k: Key)
    requires s <= db.Keys && k in Closure(db, s) && k !in s
    ensures k in CascadeFrom(db, Closure(db, s))
  {
    var c := Closure(db, s);
    var t := c - {k};
    assert s <= t && !(c <= t);
    assert CascadeFrom(db, t) <= CascadeFrom(db, c) <= c;
  }

  /** Only the row named in a delete can be protected; what its cascades reach cannot. */
  lemma OnlyRootIsProtected(db: Database, root: Key, k: Key)
    requires Shaped(db) && root in db && k in Closure(db, {root}) && k != root
    ensures Referrers(db, k, Restrict) == {}
  {
    ClosureMember(db, {root}, k);
    var fk :| fk in db[k].refs && OnDelete(fk) == Cascade;
    if x :| x in Referrers(db, k, Restrict) {
      var guard :| guard in db[x].refs && OnDelete(guard) == Restrict && Refers(db, x, guard, k);
      assert Child(fk) == k.table == Parent(guard);
      CascadedRowsAreUnprotected(fk, guard);
    }
  }

  /** Where a delete of `root` stands after removing the rows in `removed`. */
  predicate Midway(db: Database, root: Key, w: Work, removed: set<Key>)
    requires root in db
  {
    var c := Closure(db, {root});
    && w.db == Erase(db, removed)
    && removed + w.pending <= c && removed !! w.pending
    && CascadeFrom(db, removed) <= removed + w.pending
    && (if removed == {} then w.pending == {root} else root in removed && Referrers(db, root, Restrict) == {})
  }

  lemma RemoveKeepsMidway(db: Database, root: Key, w: Work, removed: set<Key>, k: Key)
    requires Shaped(db) && root in db && Midway(db, root, w, removed)
    requires k in w.pending && Referrers(w.db, k, Restrict) == {}
    ensures Midway(db, root, Remove(w, k), removed + {k})
  {
    var c := Closure(db, {root});
    EraseTwice(db, removed, k);
    ReferrersErase(db, removed, k, Cascade);
    ReferrersErase(db, removed, k, Restrict);
    CascadeFromOneMore(db, removed, k);
    CascadeFromOneMore(db, c, k);
    assert c + {k} == c;
    Requeue(removed, w.pending, c, CascadeFrom(db, removed), Referrers(db, k, Cascade), k);
  }

  /** The bookkeeping of one removal, on sets alone. */
  lemma Requeue(removed: set<Key>, pending: set<Key>, c: set<Key>, known: set<Key>, found: set<Key>, k: Key)
    requires removed + pending <= c && removed !! pending && known <= removed + pending
    requires found <= c && k in pending
    ensures var next := pending - {k} + (found - removed - {k});
            && removed + {k} + next <= c && (removed + {k}) !! next && known + found <= removed + {k} + next
  {
  }

  lemma CascadeFromOneMore(db: Database, s: set<Key>, k: Key)
    ensures CascadeFrom(db, s + {k}) == CascadeFrom(db, s) + Referrers(db, k, Cascade)
  {
  }

  /** Refusal can only happen at the first step, and then nothing has been removed. */
  lemma RefusedAtRoot(db: Database, root: Key, w: Work, removed: set<Key>, k: Key)
    requires Shaped(db) && root in db && Midway(db, root, w, removed)
    requires k in w.pending && Referrers(w.db, k, Restrict) != {}
    ensures removed == {} && k == root && Referrers(db, root, Restrict) != {}
  {
    ReferrersErase(db, removed, k, Restrict);
    if k != root {
      OnlyRootIsProtected(db, root, k);
    }
  }

  lemma {:induction false} ExecutionFrom(db: Database, root: Key, w: Work, removed: set<Key>,
          schedule: seq<Key>, result: Outcome)
    requires Shaped(db) && root in db && Midway(db, root, w, removed)
    requires Execution(w, schedule, result)
    ensures result == Delete(db, root)
    decreases |schedule|
  {
    if w.pending == {} {
      assert {root} <= removed && CascadeFrom(db, removed) <= removed;
      assert removed == Closure(db, {root});
    } else {
      var k := schedule[0];
      if Referrers(w.db, k, Restrict) != {} {
        RefusedAtRoot(db, root, w, removed, k);
      } else {
        RemoveKeepsMidway(db, root, w, removed, k);
        ExecutionFrom(db, root, Remove(w, k), removed + {k}, schedule[1..], result);
      }
    }
  }

  /**
   In whatever order the rows are removed, a delete ends as the declarative definition says: refused
   exactly when the row itself is protected, otherwise with exactly its Cascade closure gone.
   */
  lemma EveryOrderAgrees(db: Database, root: Key, schedule: seq<Key>, result: Outcome)
    requires Shaped(db) && root in db
    requires Execution(Work(db, {root}), schedule, result)
    ensures result == Delete(db, root)
  {
    EraseNothing(db);
    ExecutionFrom(db, root, Work(db, {root}), {}, schedule, result);
  }

  /** From any point a delete can be completed, whichever pending row is taken next; it ends within one step per row. */
  lemma {:induction false} ExecutionEnds(w: Work) returns (schedule: seq<Key>, result: Outcome)
    requires w.pending <= w.db.Keys
    ensures Execution(w, schedule, result)
    ensures |schedule| <= |w.db|
    decreases |w.db|
  {
    if w.pending == {} {
      schedule, result := [], Done(w.db);
    } else {
      var k :| k in w.pending;
      if Referrers(w.db, k, Restrict) != {} {
        schedule, result := [k], Refused;
        assert |w.db| > 0;
      } else {
        var next := Remove(w, k);
        assert next.db.Keys == w.db.Keys - {k};
        var rest;
        rest, result := ExecutionEnds(next);
        schedule := [k] + rest;
        assert schedule[1..] == rest;
      }
    }
  }
}
