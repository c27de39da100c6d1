/**
 What holds of the database over whole runs of inserts and deletes: integrity, and the survival of
 everything a payment rests on. Then what single deletes do to the tables people ask about.
 */
module DatabaseRuns {
  import opened Options
  import opened StoreSchema
  import opened ReferentialActions

  datatype Op = Insert(key: Key, row: Row) | Remove(key: Key) | Mark(key: Key, deletedAt: Option<string>)

  /** An insert is accepted when the key is new and no constraint would be broken. */
  predicate Insertable(s: Schema, db: Database, k: Key, row: Row) {
    && k !in db && RowShape(k.table, row)
    && (forall fk :: fk in row.refs ==> Key(Parent(fk), row.refs[fk]) in db)
    && (forall u, l {:trigger Clash(u, row, db[l])} ::
          u in Uniques(s) && l in db && l.table == u.table == k.table ==> !Clash(u, row, db[l]))
  }

  /** `db` with row `k` soft-deleted, or brought back. */
  function Marked(db: Database, k: Key, at: Option<string>): Database
    requires k in db
  {
    db[k := db[k].(deletedAt := at)]
  }

  /** A soft deletion, or a restoration that clashes with no row, is accepted. */
  predicate Markable(s: Schema, db: Database, k: Key, at: Option<string>)
    requires k in db
  {
    forall u, l {:trigger Clash(u, db[k].(deletedAt := at), db[l])} ::
      u in Uniques(s) && l in db && l != k && l.table == u.table == k.table ==>
      !Clash(u, db[k].(deletedAt := at), db[l])
  }

  /** One statement: a rejected insert or restoration, a refused delete and a delete of nothing change nothing. */
  function Apply(s: Schema, db: Database, op: Op): Database {
    match op
    case Insert(k, row) => if Insertable(s, db, k, row) then db[k := row] else db
    case Remove(k) => if k in db && Delete(db, k).Done? then Delete(db, k).db else db
    case Mark(k, at) => if k in db && Markable(s, db, k, at) then Marked(db, k, at) else db
  }

  function Run(s: Schema, db: Database, ops: seq<Op>): Database
    decreases |ops|
  {
    if ops == [] then db else Run(s, Apply(s, db, ops[0]), ops[1..])
  }

  lemma RunOne(s: Schema, db: Database, ops: seq<Op>)
    requires ops != []
    ensures Run(s, db, ops[..1]) == Apply(s, db, ops[0])
  {
    assert ops[..1][1..] == [];
  }

  // ---------------------------------------------------------------- integrity

  lemma ClashSymmetric(u: Unique, a: Row, b: Row)
    ensures Clash(u, a, b) <==> Clash(u, b, a)
  {
  }

  lemma InsertKeepsConsistent(s: Schema, db: Database, k: Key, row: Row)
    requires Consistent(s, db) && Insertable(s, db, k, row)
    ensures Consistent(s, db[k := row])
  {
    var after := db[k := row];
    forall u, a, b | u in Uniques(s) && a in after && b in after && a != b && a.table == u.table == b.table
      ensures !Clash(u, after[a], after[b])
    {
      ClashSymmetric(u, after[a], after[b]);
    }
  }

  lemma MarkKeepsConsistent(s: Schema, db: Database, k: Key, at: Option<string>)
    requires Consistent(s, db) && k in db && Markable(s, db, k, at)
    ensures Consistent(s, Marked(db, k, at))
  {
    var after := Marked(db, k, at);
    assert after.Keys == db.Keys;
    forall u, a, b | u in Uniques(s) && a in after && b in after && a != b && a.table == u.table == b.table
      ensures !Clash(u, after[a], after[b])
    {
      ClashSymmetric(u, after[a], after[b]);
    }
  }

  /** Marking a row as deleted is always accepted; only bringing one back can clash. */
  lemma DeletionIsMarkable(s: Schema, db: Database, k: Key, at: string)
    requires NothingClashes(s, db) && k in db
    ensures Markable(s, db, k, Some(at))
  {
    forall u, l | u in Uniques(s) && l in db && l != k && l.table == u.table == k.table
      ensures !Clash(u, db[k].(deletedAt := Some(at)), db[l])
    {
      assert !Clash(u, db[k], db[l]);
    }
  }

  /** Nulling SetNull references cannot make two rows clash, since unique constraints do not mention them. */
  lemma NulledClash(s: Schema, u: Unique, a: Row, b: Row, gone: set<Key>)
    requires u in Uniques(s) && Clash(u, Nulled(a, gone), Nulled(b, gone))
    ensures Clash(u, a, b)
  {
  }

  lemma NulledShape(table: Table, row: Row, gone: set<Key>)
    requires RowShape(table, row)
    ensures RowShape(table, Nulled(row, gone))
  {
    forall fk | Child(fk) == table && !Nullable(fk)
      ensures fk in Nulled(row, gone).refs
    {
      if OnDelete(fk) == SetNull {
        NulledKeysAreFree(fk);
      }
    }
  }

  /** A reference that survives an erasure points at a row that survives it. */
  lemma SurvivorsResolve(db: Database, root: Key, k: Key, fk: Fk)
    requires Shaped(db) && NothingDangles(db) && root in db && Referrers(db, root, Restrict) == {}
    requires var gone := Closure(db, {root}); k in db && k !in gone && fk in Nulled(db[k], gone).refs
    ensures Key(Parent(fk), db[k].refs[fk]) in db && Key(Parent(fk), db[k].refs[fk]) !in Closure(db, {root})
  {
    var gone := Closure(db, {root});
    var target := Key(Parent(fk), db[k].refs[fk]);
    assert Refers(db, k, fk, target);
    if target in gone && OnDelete(fk) == Restrict {
      assert k in Referrers(db, target, Restrict);
      OnlyRootIsProtected(db, root, target);
    }
  }

  lemma DeleteKeepsConsistent(s: Schema, db: Database, k: Key)
    requires Consistent(s, db) && k in db && Delete(db, k).Done?
    ensures Consistent(s, Delete(db, k).db)
  {
    var gone := Closure(db, {k});
    var after := Erase(db, gone);
    forall l | l in after
      ensures RowShape(l.table, after[l])
    {
      NulledShape(l.table, db[l], gone);
    }
    forall l, fk | l in after && fk in after[l].refs
      ensures Key(Parent(fk), after[l].refs[fk]) in after
    {
      SurvivorsResolve(db, k, l, fk);
    }
    forall u, a, b | u in Uniques(s) && a in after && b in after && a != b && a.table == u.table == b.table
      ensures !Clash(u, after[a], after[b])
    {
      if Clash(u, after[a], after[b]) {
        NulledClash(s, u, db[a], db[b], gone);
      }
    }
  }

  /** Over any run of inserts and deletes no reference dangles and every unique constraint holds. */
  lemma {:induction false} RunKeepsConsistent(s: Schema, db: Database, ops: seq<Op>)
    requires Consistent(s, db)
    ensures Consistent(s, Run(s, db, ops))
    decreases |ops|
  {
    if ops == [] {
    } else {
      match ops[0] {
        case Insert(k, row) => if Insertable(s, db, k, row) { InsertKeepsConsistent(s, db, k, row); }
        case Remove(k) => if k in db && Delete(db, k).Done? { DeleteKeepsConsistent(s, db, k); }
        case Mark(k, at) => if k in db && Markable(s, db, k, at) { MarkKeepsConsistent(s, db, k, at); }
      }
      RunKeepsConsistent(s, Apply(s, db, ops[0]), ops[1..]);
    }
  }

  // ---------------------------------------------------------------- payments

  /** Payment `p` is on file, for order `o`, placed by user `u`. */
  predicate Paid(db: Database, p: Key, o: Key, u: Key) {
    && p.table == Payment
    && Refers(db, p, PaymentOrder, o) && o in db
    && Refers(db, o, OrderUser, u) && u in db
  }

  /** No Cascade rule reaches payments, orders or users: they go only when deleted by name. */
  lemma GoesOnlyByName(db: Database, root: Key, k: Key)
    requires Shaped(db) && root in db && k in db && k != root
    requires k.table == Payment || k.table == Order || k.table == User
    ensures k !in Closure(db, {root})
  {
    if k in Closure(db, {root}) {
      ClosureMember(db, {root}, k);
      var fk :| fk in db[k].refs && OnDelete(fk) == Cascade;
      NeverCascaded(fk);
    }
  }

  lemma NeverCascaded(fk: Fk)
    requires OnDelete(fk) == Cascade
    ensures Child(fk) != Payment && Child(fk) != Order && Child(fk) != User
  {
  }

  lemma ProtectedByReference(db: Database, k: Key, fk: Fk, target: Key)
    requires Refers(db, k, fk, target) && OnDelete(fk) == Restrict
    ensures Referrers(db, target, Restrict) != {}
  {
    assert k in Referrers(db, target, Restrict);
  }

  lemma ReferenceSurvives(db: Database, gone: set<Key>, k: Key, fk: Fk, target: Key)
    requires Refers(db, k, fk, target) && OnDelete(fk) != SetNull && k !in gone
    ensures Refers(Erase(db, gone), k, fk, target)
  {
  }

  lemma InsertKeepsPaid(db: Database, k: Key, row: Row, p: Key, o: Key, u: Key)
    requires Paid(db, p, o, u) && k !in db
    ensures Paid(db[k := row], p, o, u)
  {
    assert db[k := row][p] == db[p] && db[k := row][o] == db[o];
  }

  lemma MarkKeepsPaid(db: Database, k: Key, at: Option<string>, p: Key, o: Key, u: Key)
    requires Paid(db, p, o, u) && k in db
    ensures Paid(Marked(db, k, at), p, o, u)
  {
    var after := Marked(db, k, at);
    assert after[p].refs == db[p].refs && after[o].refs == db[o].refs;
  }

  lemma PaidProtects(db: Database, p: Key, o: Key, u: Key)
    requires Paid(db, p, o, u)
    ensures Referrers(db, o, Restrict) != {} && Referrers(db, u, Restrict) != {}
  {
    hide Referrers;
    ProtectedByReference(db, p, PaymentOrder, o);
    ProtectedByReference(db, o, OrderUser, u);
  }

  lemma DeleteKeepsPaid(s: Schema, db: Database, k: Key, p: Key, o: Key, u: Key)
    requires Consistent(s, db) && Paid(db, p, o, u)
    requires k in db && k.table != Payment && Delete(db, k).Done?
    ensures Paid(Delete(db, k).db, p, o, u)
  {
    hide Refers, Referrers, Erase, NothingClashes, NothingDangles, RowShape, CascadeFrom;
    PaidProtects(db, p, o, u);
    EraseKeepsPaid(db, k, p, o, u);
  }

  lemma EraseKeepsPaid(db: Database, k: Key, p: Key, o: Key, u: Key)
    requires Shaped(db) && Paid(db, p, o, u)
    requires k in db && k != p && k != o && k != u
    ensures Paid(Erase(db, Closure(db, {k})), p, o, u)
  {
    hide Erase, RowShape, Refers, CascadeFrom;
    var gone := Closure(db, {k});
    PaidTables(db, p, o, u);
    GoesOnlyByName(db, k, p);
    GoesOnlyByName(db, k, o);
    GoesOnlyByName(db, k, u);
    ReferenceSurvives(db, gone, p, PaymentOrder, o);
    ReferenceSurvives(db, gone, o, OrderUser, u);
    RowSurvives(db, gone, o);
    RowSurvives(db, gone, u);
  }

  lemma PaidTables(db: Database, p: Key, o: Key, u: Key)
    requires Paid(db, p, o, u)
    ensures p in db && p.table == Payment && o in db && o.table == Order && u in db && u.table == User
  {
  }

  lemma RowSurvives(db: Database, gone: set<Key>, k: Key)
    requires k in db && k !in gone
    ensures k in Erase(db, gone)
  {
  }

  /**
   As long as payments themselves are not deleted, no run removes a payment, the order it pays for or
   the user who placed that order, nor re-points the references between them.
   */
  lemma {:induction false} PaymentsSurvive(s: Schema, db: Database, ops: seq<Op>, p: Key, o: Key, u: Key)
    requires Consistent(s, db) && Paid(db, p, o, u)
    requires forall op :: op in ops && op.Remove? ==> op.key.table != Payment
    ensures Paid(Run(s, db, ops), p, o, u)
    decreases |ops|
  {
    hide Consistent, Delete, Paid;
    if ops == [] {
    } else {
      RunKeepsConsistent(s, db, ops[..1]);
      RunOne(s, db, ops);
      match ops[0] {
        case Insert(k, row) => if Insertable(s, db, k, row) { InsertKeepsPaid(db, k, row, p, o, u); }
        case Remove(k) => if k in db && Delete(db, k).Done? { DeleteKeepsPaid(s, db, k, p, o, u); }
        case Mark(k, at) => if k in db && Markable(s, db, k, at) { MarkKeepsPaid(db, k, at, p, o, u); }
      }
      PaymentsSurvive(s, Apply(s, db, ops[0]), ops[1..], p, o, u);
    }
  }

  // ---------------------------------------------------------------- deleting a user

  /** The rows that belong to user `u` alone: logins, addresses, the cart and what is in it. */
  predicate Belongs(db: Database, k: Key, u: Key) {
    || Refers(db, k, AuthProviderUser, u)
    || Refers(db, k, AddressUser, u)
    || Refers(db, k, CartUser, u)
    || exists cart :: cart in db && Refers(db, k, CartItemCart, cart) && Refers(db, cart, CartUser, u)
  }

  lemma CascadesTo(t: Table, fk: Fk)
    requires OnDelete(fk) == Cascade && Parent(fk) == t
    ensures t == User ==> fk == AuthProviderUser || fk == AddressUser || fk == CartUser
    ensures t == Cart ==> fk == CartItemCart
    ensures t == AuthProvider || t == Address || t == CartItem ==> false
  {
  }

  lemma OwnedAreClosed(db: Database, u: Key, own: set<Key>)
    requires Shaped(db) && u.table == User
    requires forall k :: k in own <==> k == u || (k in db && Belongs(db, k, u))
    ensures CascadeFrom(db, own) <= own
  {
    forall k | k in CascadeFrom(db, own)
      ensures k in own
    {
      var fk :| fk in db[k].refs && OnDelete(fk) == Cascade && Key(Parent(fk), db[k].refs[fk]) in own;
      var target := Key(Parent(fk), db[k].refs[fk]);
      assert Refers(db, k, fk, target);
      BelongingTable(db, target, u);
      CascadesTo(target.table, fk);
    }
  }

  lemma OwnedGo(db: Database, s: set<Key>, u: Key, k: Key)
    requires CascadeFrom(db, s) <= s && u in s && k in db && Belongs(db, k, u)
    ensures k in s
  {
    if cart :| cart in db && Refers(db, k, CartItemCart, cart) && Refers(db, cart, CartUser, u) {
      assert cart in CascadeFrom(db, s);
    }
    assert k in CascadeFrom(db, s);
  }

  lemma UserClosure(db: Database, u: Key)
    requires Shaped(db) && u in db && u.table == User
    ensures forall k :: k in Closure(db, {u}) <==> k == u || (k in db && Belongs(db, k, u))
  {
    hide Belongs, CascadeFrom, Shaped;
    var c := Closure(db, {u});
    var own := set k | k in db && (k == u || Belongs(db, k, u));
    OwnedAreClosed(db, u, own);
    assert c <= own;
    forall k | k in db && Belongs(db, k, u)
      ensures k in c
    {
      OwnedGo(db, c, u, k);
    }
  }

  lemma BelongingTable(db: Database, k: Key, u: Key)
    requires Shaped(db) && u.table == User && (k == u || (k in db && Belongs(db, k, u)))
    ensures k == u || k.table == AuthProvider || k.table == Address || k.table == CartItem || Refers(db, k, CartUser, u)
    ensures Refers(db, k, CartUser, u) ==> k.table == Cart
  {
  }

  /**
   A user can be deleted exactly when they have no orders. Then exactly their logins, addresses, cart
   and cart items go with them, although cart items also refer to products under a Restrict rule; no
   product is touched, and chat sessions and audit entries stay with the user nulled.
   */
  lemma DeletingUser(db: Database, u: Key)
    requires Shaped(db) && u in db && u.table == User
    ensures Delete(db, u).Done? <==> !exists o :: o in db && Refers(db, o, OrderUser, u)
    ensures Delete(db, u).Done? ==>
              var after := Delete(db, u).db;
              && (forall k :: k in after <==> k in db && k != u && !Belongs(db, k, u))
              && (forall k :: k in db && k.table == Product ==> k in after && after[k] == db[k])
              && (forall k :: k in db && (Refers(db, k, ChatSessionUser, u) || Refers(db, k, AuditLogActor, u)) ==>
                    k in after && ChatSessionUser !in after[k].refs && AuditLogActor !in after[k].refs)
  {
    UserClosure(db, u);
    if o :| o in Referrers(db, u, Restrict) {
      var fk :| fk in db[o].refs && OnDelete(fk) == Restrict && Refers(db, o, fk, u);
      assert fk == OrderUser;
    }
    if o :| o in db && Refers(db, o, OrderUser, u) {
      assert o in Referrers(db, u, Restrict);
    }
    if Delete(db, u).Done? {
      SparedByUser(db, u);
    }
  }

  lemma SparedByUser(db: Database, u: Key)
    requires Shaped(db) && u in db && u.table == User
    requires forall k :: k in Closure(db, {u}) <==> k == u || (k in db && Belongs(db, k, u))
    ensures var after := Erase(db, Closure(db, {u}));
            && (forall k :: k in db && k.table == Product ==> k in after && after[k] == db[k])
            && (forall k :: k in db && (Refers(db, k, ChatSessionUser, u) || Refers(db, k, AuditLogActor, u)) ==>
                  k in after && ChatSessionUser !in after[k].refs && AuditLogActor !in after[k].refs)
  {
    var gone := Closure(db, {u});
    forall k | k in db && k.table == Product
      ensures k !in gone && Nulled(db[k], gone) == db[k]
    {
      ProductSpared(db, gone, u, k);
    }
    forall k | k in db && (Refers(db, k, ChatSessionUser, u) || Refers(db, k, AuditLogActor, u))
      ensures k !in gone && ChatSessionUser !in Nulled(db[k], gone).refs && AuditLogActor !in Nulled(db[k], gone).refs
    {
      TraceNulled(db, gone, u, k);
    }
  }

  lemma ProductSpared(db: Database, gone: set<Key>, u: Key, k: Key)
    requires k in db && RowShape(k.table, db[k]) && k.table == Product && u.table == User
    requires k in gone <==> k == u || Belongs(db, k, u)
    ensures k !in gone && Nulled(db[k], gone) == db[k]
  {
    assert forall fk :: fk in db[k].refs ==> Child(fk) == Product;
    assert db[k].refs == map[];
    assert Nulled(db[k], gone).refs == map[];
  }

  lemma TraceNulled(db: Database, gone: set<Key>, u: Key, k: Key)
    requires k in db && RowShape(k.table, db[k]) && u.table == User && u in gone
    requires Refers(db, k, ChatSessionUser, u) || Refers(db, k, AuditLogActor, u)
    requires k in gone <==> k == u || Belongs(db, k, u)
    ensures k !in gone && ChatSessionUser !in Nulled(db[k], gone).refs && AuditLogActor !in Nulled(db[k], gone).refs
  {
    var fk := if Refers(db, k, ChatSessionUser, u) then ChatSessionUser else AuditLogActor;
    assert Child(fk) == k.table;
    assert fk in db[k].refs && Key(Parent(fk), db[k].refs[fk]) == u;
  }

  // ---------------------------------------------------------------- deleting anything

  /** Row `k` hangs on row `l` by a Cascade reference. */
  predicate Hangs(db: Database, k: Key, l: Key) {
    k in db && exists fk :: fk in db[k].refs && OnDelete(fk) == Cascade && Refers(db, k, fk, l)
  }

  /** Row `k` is one of the rows that keep `root` from being deleted. */
  predicate Guards(db: Database, k: Key, root: Key) {
    || Refers(db, k, OrderUser, root) || Refers(db, k, PaymentOrder, root)
    || Refers(db, k, CartItemProduct, root) || Refers(db, k, OrderItemProduct, root)
  }

  /**
   A delete is refused exactly when the row is a user with an order, an order with a payment, or a
   product in a cart or an order; what it would cascade to never matters.
   */
  lemma RefusedExactly(db: Database, root: Key)
    requires root in db
    ensures Delete(db, root).Refused? <==> exists k :: k in db && Guards(db, k, root)
  {
    if k :| k in Referrers(db, root, Restrict) {
      var fk :| fk in db[k].refs && OnDelete(fk) == Restrict && Refers(db, k, fk, root);
      assert Guards(db, k, root);
    }
    if k :| k in db && Guards(db, k, root) {
      GuardRefers(db, k, root);
    }
  }

  lemma GuardRefers(db: Database, k: Key, root: Key)
    requires k in db && Guards(db, k, root)
    ensures k in Referrers(db, root, Restrict)
  {
    var fk := if Refers(db, k, OrderUser, root) then OrderUser
              else if Refers(db, k, PaymentOrder, root) then PaymentOrder
              else if Refers(db, k, CartItemProduct, root) then CartItemProduct else OrderItemProduct;
    assert Refers(db, k, fk, root) && OnDelete(fk) == Restrict;
  }

  /** Row `k` is a part of `root`: stock, discounts and discount links of a product, items of a cart or order. */
  predicate PartOf(db: Database, k: Key, root: Key) {
    || Refers(db, k, InventoryProduct, root) || Refers(db, k, ProductDiscountProduct, root)
    || Refers(db, k, DiscountProductDiscount, root) || Refers(db, k, DiscountProductProduct, root)
    || Refers(db, k, CartItemCart, root) || Refers(db, k, OrderItemOrder, root)
    || Refers(db, k, DocumentChunkDocument, root) || Refers(db, k, ChatMessageSession, root)
  }

  /** Below a row that is not a user, a cascade stops after one level. */
  lemma PartsAreBottom(fk: Fk, up: Fk)
    requires OnDelete(fk) == Cascade && OnDelete(up) == Cascade && Parent(up) != User
    ensures Parent(fk) != Child(up)
  {
    CascadeDescends(fk);
    CascadeDescends(up);
  }

  lemma PartHangs(db: Database, k: Key, root: Key)
    requires root.table != User
    ensures PartOf(db, k, root) <==> Hangs(db, k, root)
  {
    if PartOf(db, k, root) {
      var fk := if Refers(db, k, InventoryProduct, root) then InventoryProduct
                else if Refers(db, k, ProductDiscountProduct, root) then ProductDiscountProduct
                else if Refers(db, k, DiscountProductDiscount, root) then DiscountProductDiscount
                else if Refers(db, k, DiscountProductProduct, root) then DiscountProductProduct
                else if Refers(db, k, CartItemCart, root) then CartItemCart
                else if Refers(db, k, OrderItemOrder, root) then OrderItemOrder
                else if Refers(db, k, DocumentChunkDocument, root) then DocumentChunkDocument
                else ChatMessageSession;
      assert fk in db[k].refs && OnDelete(fk) == Cascade && Refers(db, k, fk, root);
    }
    if Hangs(db, k, root) {
      var fk :| fk in db[k].refs && OnDelete(fk) == Cascade && Refers(db, k, fk, root);
    }
  }

  lemma HangersAreClosed(db: Database, root: Key, own: set<Key>)
    requires Shaped(db) && root.table != User
    requires forall k :: k in own <==> k == root || Hangs(db, k, root)
    ensures CascadeFrom(db, own) <= own
  {
    forall k | k in CascadeFrom(db, own)
      ensures k in own
    {
      var fk :| fk in db[k].refs && OnDelete(fk) == Cascade && Key(Parent(fk), db[k].refs[fk]) in own;
      var target := Key(Parent(fk), db[k].refs[fk]);
      assert Refers(db, k, fk, target);
      if target != root {
        var up :| up in db[target].refs && OnDelete(up) == Cascade && Refers(db, target, up, root);
        PartsAreBottom(fk, up);
      }
    }
  }

  lemma HangersGo(db: Database, s: set<Key>, k: Key, l: Key)
    requires CascadeFrom(db, s) <= s && l in s && Hangs(db, k, l)
    ensures k in s
  {
    assert k in CascadeFrom(db, s);
  }

  /** Deleting anything but a user takes exactly its parts with it: the cascade stops after one level. */
  lemma DeletingParts(db: Database, root: Key)
    requires Shaped(db) && root in db && root.table != User
    ensures forall k :: k in Closure(db, {root}) <==> k == root || PartOf(db, k, root)
  {
    hide Hangs, PartOf, CascadeFrom;
    var c := Closure(db, {root});
    var own := set k | k in db && (k == root || Hangs(db, k, root));
    forall k
      ensures k in own <==> k == root || Hangs(db, k, root)
    {
      HangersExist(db, k, root);
    }
    HangersAreClosed(db, root, own);
    assert c <= own;
    forall k
      ensures k in c <==> k == root || PartOf(db, k, root)
    {
      PartHangs(db, k, root);
      if Hangs(db, k, root) {
        HangersGo(db, c, k, root);
      }
    }
  }

  lemma HangersExist(db: Database, k: Key, l: Key)
    ensures Hangs(db, k, l) ==> k in db
  {
  }

  // ---------------------------------------------------------------- rows that stay

  /** Row `k` is there from the beginning to the end of a run. */
  predicate Lives(s: Schema, db: Database, ops: seq<Op>, k: Key)
    decreases |ops|
  {
    k in db && (ops != [] ==> Lives(s, Apply(s, db, ops[0]), ops[1..], k))
  }

  /** Row `k` keeps its columns, and of its references exactly those whose rows are still there. */
  predicate OnlyLoses(before: Database, after: Database, k: Key)
    requires k in before && k in after
  {
    && after[k].values == before[k].values
    && after[k].refs.Keys <= before[k].refs.Keys
    && forall fk :: fk in before[k].refs ==>
         && (fk in after[k].refs <==> Key(Parent(fk), before[k].refs[fk]) in after)
         && (fk in after[k].refs ==> after[k].refs[fk] == before[k].refs[fk])
  }

  lemma DeleteOnlyLoses(db: Database, root: Key, k: Key)
    requires Shaped(db) && NothingDangles(db) && root in db && Delete(db, root).Done?
    requires k in db && k !in Closure(db, {root})
    ensures OnlyLoses(db, Delete(db, root).db, k)
  {
    hide RowShape, CascadeFrom;
    var gone := Closure(db, {root});
    forall fk | fk in db[k].refs
      ensures fk in Nulled(db[k], gone).refs <==> Key(Parent(fk), db[k].refs[fk]) !in gone
    {
      if fk in Nulled(db[k], gone).refs {
        SurvivorsResolve(db, root, k, fk);
      }
    }
  }

  lemma StepOnlyLoses(s: Schema, db: Database, op: Op, k: Key)
    requires Consistent(s, db) && k in db && k in Apply(s, db, op)
    ensures OnlyLoses(db, Apply(s, db, op), k)
  {
    hide NothingClashes, RowShape, Markable, CascadeFrom;
    match op
    case Insert(l, row) =>
    case Remove(l) => if l in db && Delete(db, l).Done? { DeleteOnlyLoses(db, l, k); }
    case Mark(l, at) =>
  }

  /** A reference once nulled stays null. */
  lemma {:induction false} NulledForGood(s: Schema, db: Database, ops: seq<Op>, k: Key, fk: Fk)
    requires Consistent(s, db) && Lives(s, db, ops, k) && fk !in db[k].refs
    ensures k in Run(s, db, ops) && fk !in Run(s, db, ops)[k].refs
    decreases |ops|
  {
    if ops == [] {
    } else {
      hide Apply, Consistent;
      StepOnlyLoses(s, db, ops[0], k);
      RunKeepsConsistent(s, db, ops[..1]);
      RunOne(s, db, ops);
      NulledForGood(s, Apply(s, db, ops[0]), ops[1..], k, fk);
    }
  }

  /**
   Whatever a run does, a row that is there throughout keeps its columns, and each of its references for
   exactly as long as the row referred to is there: one row is never changed by deleting another in any
   other way.
   */
  lemma {:induction false} ReferencesFollowTargets(s: Schema, db: Database, ops: seq<Op>, k: Key, fk: Fk)
    requires Consistent(s, db) && Lives(s, db, ops, k)
    ensures k in Run(s, db, ops) && Run(s, db, ops)[k].values == db[k].values
    ensures fk in db[k].refs ==>
              && (fk in Run(s, db, ops)[k].refs <==> Lives(s, db, ops, Key(Parent(fk), db[k].refs[fk])))
              && (fk in Run(s, db, ops)[k].refs ==> Run(s, db, ops)[k].refs[fk] == db[k].refs[fk])
    ensures fk !in db[k].refs ==> fk !in Run(s, db, ops)[k].refs
    decreases |ops|
  {
    if ops == [] {
      Resolves(s, db, k, fk);
    } else {
      hide Apply, Consistent;
      var next := Apply(s, db, ops[0]);
      StepOnlyLoses(s, db, ops[0], k);
      RunKeepsConsistent(s, db, ops[..1]);
      RunOne(s, db, ops);
      Resolves(s, db, k, fk);
      ReferencesFollowTargets(s, next, ops[1..], k, fk);
      if fk !in next[k].refs {
        NulledForGood(s, next, ops[1..], k, fk);
      }
    }
  }

  lemma Resolves(s: Schema, db: Database, k: Key, fk: Fk)
    requires Consistent(s, db) && k in db
    ensures fk in db[k].refs ==> Key(Parent(fk), db[k].refs[fk]) in db
  {
  }

  // ---------------------------------------------------------------- closure as reachability

  /** A chain of Cascade references leads from the first row of the path to the last. */
  predicate CascadePath(db: Database, path: seq<Key>) {
    path != [] && forall i :: 0 <= i < |path| - 1 ==> Hangs(db, path[i], path[i + 1])
  }

  lemma {:induction false} PathStaysInClosure(db: Database, root: Key, path: seq<Key>)
    requires root in db && CascadePath(db, path) && path[|path| - 1] == root
    ensures path[0] in Closure(db, {root})
    decreases |path|
  {
    if |path| > 1 {
      assert CascadePath(db, path[1..]) by {
        forall i | 0 <= i < |path| - 2
          ensures Hangs(db, path[1..][i], path[1..][i + 1])
        {
          assert Hangs(db, path[i + 1], path[i + 2]);
        }
      }
      PathStaysInClosure(db, root, path[1..]);
      assert Hangs(db, path[0], path[1]);
      assert path[0] in CascadeFrom(db, Closure(db, {root}));
    }
  }

  /** The rows a delete of `root` removes are exactly those a chain of Cascade references ties to it. */
  lemma ClosureIsReachability(db: Database, root: Key, k: Key)
    requires root in db
    ensures k in Closure(db, {root}) <==>
            exists path :: CascadePath(db, path) && path[0] == k && path[|path| - 1] == root
  {
    if path :| CascadePath(db, path) && path[0] == k && path[|path| - 1] == root {
      PathStaysInClosure(db, root, path);
    }
    var tied := set l | l in db && Tied(db, root, l);
    assert CascadePath(db, [root]);
    assert Tied(db, root, root);
    forall l | l in CascadeFrom(db, tied)
      ensures l in tied
    {
      TiedBelow(db, root, tied, l);
    }
    assert CascadeFrom(db, tied) <= tied;
    assert Closure(db, {root}) <= tied;
  }

  ghost predicate Tied(db: Database, root: Key, k: Key) {
    exists path :: CascadePath(db, path) && path[0] == k && path[|path| - 1] == root
  }

  lemma TiedBelow(db: Database, root: Key, tied: set<Key>, l: Key)
    requires l in CascadeFrom(db, tied)
    requires forall m :: m in tied ==> Tied(db, root, m)
    ensures Tied(db, root, l)
  {
    var fk :| fk in db[l].refs && OnDelete(fk) == Cascade && Key(Parent(fk), db[l].refs[fk]) in tied;
    var m := Key(Parent(fk), db[l].refs[fk]);
    assert Refers(db, l, fk, m);
    var path :| CascadePath(db, path) && path[0] == m && path[|path| - 1] == root;
    var longer := [l] + path;
    forall i | 0 <= i < |longer| - 1
      ensures Hangs(db, longer[i], longer[i + 1])
    {
      if i > 0 {
        assert Hangs(db, path[i - 1], path[i]);
      }
    }
    assert CascadePath(db, longer) && longer[0] == l && longer[|longer| - 1] == root;
  }

  // ---------------------------------------------------------------- what one statement does

  lemma NoSelfReference(fk: Fk)
    ensures Parent(fk) != Child(fk)
  {
  }

  lemma ConsistentIsInsertable(s: Schema, db: Database, k: Key, row: Row)
    requires k !in db && Consistent(s, db[k := row])
    ensures Insertable(s, db, k, row)
  {
    var after := db[k := row];
    assert after[k] == row;
    forall fk | fk in row.refs
      ensures Key(Parent(fk), row.refs[fk]) in db
    {
      NoSelfReference(fk);
      assert Key(Parent(fk), after[k].refs[fk]) in after;
    }
    forall u, l | u in Uniques(s) && l in db && l.table == u.table == k.table
      ensures !Clash(u, row, db[l])
    {
      assert !Clash(u, after[k], after[l]);
    }
  }

  /** An insert stores the row exactly when the database with it meets every constraint, and else changes nothing. */
  lemma InsertedExactly(s: Schema, db: Database, k: Key, row: Row)
    requires Consistent(s, db) && k !in db
    ensures k in Apply(s, db, Insert(k, row)) <==> Consistent(s, db[k := row])
    ensures Apply(s, db, Insert(k, row)) == if Consistent(s, db[k := row]) then db[k := row] else db
  {
    if Insertable(s, db, k, row) {
      InsertKeepsConsistent(s, db, k, row);
    }
    if Consistent(s, db[k := row]) {
      ConsistentIsInsertable(s, db, k, row);
    }
  }

  /**
   When a new product on sale is accepted: in the generated schema if no product has its SKU, after the
   migration if no other product on sale has it.
   */
  lemma ProductAccepted(s: Schema, db: Database, k: Key, row: Row)
    requires Consistent(s, db) && k !in db && k.table == Product && RowShape(Product, row) && row.deletedAt.None?
    ensures k in Apply(s, db, Insert(k, row)) <==>
            forall l :: l in db && l.table == Product && (s == Declared || db[l].deletedAt.None?) ==>
              db[l].values[ProductSku] != row.values[ProductSku]
  {
    NoProductRefs(row);
    forall l | l in db && l.table == Product
      ensures Clash(TheUnique(s, Product), row, db[l]) <==>
              db[l].values[ProductSku] == row.values[ProductSku] && (s == Declared || db[l].deletedAt.None?)
    {
      ClashMeans(s, Product, row, db[l]);
    }
    hide Clash, TheUnique, Uniques, RowShape;
    forall u
      ensures u in Uniques(s) && u.table == Product <==> u == TheUnique(s, Product)
    {
      UniquesAreThese(s, u);
      TheUniqueTable(s, Product);
    }
  }

  lemma NoProductRefs(row: Row)
    requires RowShape(Product, row)
    ensures row.refs == map[] && ProductSku in row.values
  {
    assert forall fk :: fk in row.refs ==> Child(fk) == Product;
  }

  lemma ConsistentIsMarkable(s: Schema, db: Database, k: Key, at: Option<string>)
    requires k in db && Consistent(s, Marked(db, k, at))
    ensures Markable(s, db, k, at)
  {
    var after := Marked(db, k, at);
    forall u, l | u in Uniques(s) && l in db && l != k && l.table == u.table == k.table
      ensures !Clash(u, db[k].(deletedAt := at), db[l])
    {
      assert !Clash(u, after[k], after[l]);
    }
  }

  /**
   A soft deletion or restoration happens exactly when the database it leads to meets every constraint, and
   touches one row.
   */
  lemma MarkedExactly(s: Schema, db: Database, k: Key, at: Option<string>)
    requires Consistent(s, db) && k in db
    ensures var wanted := db[k := db[k].(deletedAt := at)];
            && Apply(s, db, Mark(k, at)) == (if Consistent(s, wanted) then wanted else db)
            && (Apply(s, db, Mark(k, at))[k].deletedAt == at <==> Consistent(s, wanted))
  {
    var wanted := db[k := db[k].(deletedAt := at)];
    if Markable(s, db, k, at) {
      MarkKeepsConsistent(s, db, k, at);
    }
    if Consistent(s, wanted) {
      ConsistentIsMarkable(s, db, k, at);
    }
    if db[k].deletedAt == at {
      assert wanted == db;
    }
  }

  /**
   A delete removes its row exactly when no guarding row refers to it. Then exactly the rows that a chain of
   Cascade references ties to it go too, the others keep their columns, their mark and every reference
   whose row is still there; a refused delete changes nothing.
   */
  lemma RemovedExactly(s: Schema, db: Database, k: Key)
    requires Consistent(s, db) && k in db
    ensures var after := Apply(s, db, Remove(k));
            && (k !in after <==> !exists g :: g in db && Guards(db, g, k))
            && (k in after ==> after == db)
            && (k !in after ==> forall l :: l in after <==> l in db && !Tied(db, k, l))
            && (forall l :: l in after ==> l in db && OnlyLoses(db, after, l) && after[l].deletedAt == db[l].deletedAt)
  {
    hide Consistent, Guards, Tied, OnlyLoses, CascadeFrom, Referrers;
    var after := Apply(s, db, Remove(k));
    RefusedExactly(db, k);
    if Delete(db, k).Done? {
      forall l
        ensures l in Closure(db, {k}) <==> Tied(db, k, l)
      {
        TiedExactly(db, k, l);
      }
    }
    forall l | l in after
      ensures l in db && OnlyLoses(db, after, l) && after[l].deletedAt == db[l].deletedAt
    {
      StepOnlyLoses(s, db, Remove(k), l);
    }
  }

  lemma TiedExactly(db: Database, root: Key, k: Key)
    requires root in db
    ensures k in Closure(db, {root}) <==> Tied(db, root, k)
  {
    ClosureIsReachability(db, root, k);
  }

  /** A delete never cascades back up: what goes with a row lies in strictly lower tables. */
  lemma CascadeRunsDown(db: Database, root: Key, k: Key)
    requires Shaped(db) && root in db && k in Closure(db, {root}) && k != root
    ensures Height(k.table) < Height(root.table)
  {
    var below := set l | l in db && (l == root || Height(l.table) < Height(root.table));
    forall l | l in CascadeFrom(db, below)
      ensures l in below
    {
      var fk :| fk in db[l].refs && OnDelete(fk) == Cascade && Key(Parent(fk), db[l].refs[fk]) in below;
      CascadeDescends(fk);
    }
    assert CascadeFrom(db, below) <= below;
    assert Closure(db, {root}) <= below;
  }
}
