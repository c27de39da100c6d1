/**
 The tables, foreign keys and unique constraints of the database schema embedded in the generated
 client (`inlineSchema`), and the databases they admit.

 Only what the constraints can see is kept: a row is its foreign keys, with a null one left out, the
 scalar columns that unique constraints mention, and its mark of soft deletion.
 */
module StoreSchema {
  import opened Options

  datatype Table =
    | User | AuthProvider | Address | Product | Inventory | Discount | ProductDiscount | DiscountProduct
    | Cart | CartItem | Order | OrderItem | Payment | Document | DocumentChunk | ChatSession | ChatMessage
    | AuditLog | Outbox

  /** One foreign key per relation, named after its table and the row it points at. */
  datatype Fk =
    | AuthProviderUser | AddressUser | InventoryProduct | ProductDiscountProduct
    | DiscountProductDiscount | DiscountProductProduct | CartUser | CartItemCart | CartItemProduct
    | OrderUser | OrderDiscount | OrderItemOrder | OrderItemProduct | PaymentOrder
    | DocumentChunkDocument | ChatSessionUser | ChatMessageSession | AuditLogActor

  datatype Rule = Cascade | Restrict | SetNull

  function Child(fk: Fk): Table {
    match fk
    case AuthProviderUser => AuthProvider
    case AddressUser => Address
    case InventoryProduct => Inventory
    case ProductDiscountProduct => ProductDiscount
    case DiscountProductDiscount => DiscountProduct
    case DiscountProductProduct => DiscountProduct
    case CartUser => Cart
    case CartItemCart => CartItem
    case CartItemProduct => CartItem
    case OrderUser => Order
    case OrderDiscount => Order
    case OrderItemOrder => OrderItem
    case OrderItemProduct => OrderItem
    case PaymentOrder => Payment
    case DocumentChunkDocument => DocumentChunk
    case ChatSessionUser => ChatSession
    case ChatMessageSession => ChatMessage
    case AuditLogActor => AuditLog
  }

  function Parent(fk: Fk): Table {
    match fk
    case AuthProviderUser => User
    case AddressUser => User
    case InventoryProduct => Product
    case ProductDiscountProduct => Product
    case DiscountProductDiscount => Discount
    case DiscountProductProduct => Product
    case CartUser => User
    case CartItemCart => Cart
    case CartItemProduct => Product
    case OrderUser => User
    case OrderDiscount => Discount
    case OrderItemOrder => Order
    case OrderItemProduct => Product
    case PaymentOrder => Order
    case DocumentChunkDocument => Document
    case ChatSessionUser => User
    case ChatMessageSession => ChatSession
    case AuditLogActor => User
  }

  function OnDelete(fk: Fk): Rule {
    match fk
    case CartItemProduct => Restrict
    case OrderUser => Restrict
    case OrderItemProduct => Restrict
    case PaymentOrder => Restrict
    case OrderDiscount => SetNull
    case ChatSessionUser => SetNull
    case AuditLogActor => SetNull
    case _ => Cascade
  }

  /** The foreign keys whose column is declared optional. */
  predicate Nullable(fk: Fk) {
    fk == OrderDiscount || fk == ChatSessionUser || fk == AuditLogActor
  }

  // ---------------------------------------------------------------- unique constraints

  datatype Column =
    | UserEmail | ProviderName | ProviderId | ProductSku | VoucherCode | OrderNumber | ProviderRef | StorageKey

  function Owner(c: Column): Table {
    match c
    case UserEmail => User
    case ProviderName => AuthProvider
    case ProviderId => AuthProvider
    case ProductSku => Product
    case VoucherCode => Discount
    case OrderNumber => Order
    case ProviderRef => Payment
    case StorageKey => Document
  }

  /** The columns of one unique constraint, some scalar, some foreign keys, and whether it ignores soft-deleted rows. */
  datatype Unique = Unique(table: Table, columns: set<Column>, keys: set<Fk>, liveOnly: bool)

  /**
   The schema in the generated client makes a product's SKU unique; the last migration replaces that by
   an index over the products that are not soft-deleted. Everything else is the same in both.
   */
  datatype Schema = Declared | Migrated

  function Uniques(s: Schema): set<Unique> {
    {
      Unique(User, {UserEmail}, {}, false),
      Unique(AuthProvider, {ProviderName, ProviderId}, {}, false),
      Unique(Product, {ProductSku}, {}, s == Migrated),
      Unique(Inventory, {}, {InventoryProduct}, false),
      Unique(Discount, {VoucherCode}, {}, false),
      Unique(DiscountProduct, {}, {DiscountProductDiscount, DiscountProductProduct}, false),
      Unique(Cart, {}, {CartUser}, false),
      Unique(Order, {OrderNumber}, {}, false),
      Unique(Payment, {ProviderRef}, {}, false),
      Unique(Document, {StorageKey}, {}, false)
    }
  }

  // ---------------------------------------------------------------- databases

  type Id = string

  datatype Key = Key(table: Table, id: Id)

  datatype Row = Row(refs: map<Fk, Id>, values: map<Column, string>, deletedAt: Option<string>)

  type Database = map<Key, Row>

  /** Row `k` refers to row `target` through `fk`. */
  predicate Refers(db: Database, k: Key, fk: Fk, target: Key) {
    k in db && fk in db[k].refs && target == Key(Parent(fk), db[k].refs[fk])
  }

  /** A row of `table` has no foreign keys but its own, and every column that is not optional. */
  predicate RowShape(table: Table, row: Row) {
    && (forall fk :: fk in row.refs ==> Child(fk) == table)
    && (forall fk :: Child(fk) == table && !Nullable(fk) ==> fk in row.refs)
    && (forall c :: Owner(c) == table ==> c in row.values)
  }

  /** Two rows a unique constraint applies to agree, with nothing null, on all its columns. */
  predicate Clash(u: Unique, a: Row, b: Row) {
    && (u.liveOnly ==> a.deletedAt.None? && b.deletedAt.None?)
    && (forall c :: c in u.columns ==> c in a.values && c in b.values && a.values[c] == b.values[c])
    && (forall fk :: fk in u.keys ==> fk in a.refs && fk in b.refs && a.refs[fk] == b.refs[fk])
  }

  predicate Shaped(db: Database) {
    forall k :: k in db ==> RowShape(k.table, db[k])
  }

  predicate NothingDangles(db: Database) {
    forall k, fk {:trigger db[k].refs[fk]} :: k in db && fk in db[k].refs ==> Key(Parent(fk), db[k].refs[fk]) in db
  }

  predicate NothingClashes(s: Schema, db: Database) {
    forall u, k, l {:trigger Clash(u, db[k], db[l])} ::
      u in Uniques(s) && k in db && l in db && k != l && k.table == u.table == l.table ==>
      !Clash(u, db[k], db[l])
  }

  predicate Consistent(s: Schema, db: Database) {
    Shaped(db) && NothingDangles(db) && NothingClashes(s, db)
  }

  // ---------------------------------------------------------------- facts about the schema

  /** No row that a delete can reach by cascading is protected by a Restrict rule. */
  lemma CascadedRowsAreUnprotected(fk: Fk, guard: Fk)
    requires OnDelete(fk) == Cascade && OnDelete(guard) == Restrict
    ensures Child(fk) != Parent(guard)
  {
  }

  /** What a delete may null is exactly what is optional, and it takes part in no unique constraint. */
  lemma NulledKeysAreFree(fk: Fk)
    ensures OnDelete(fk) == SetNull <==> Nullable(fk)
    ensures OnDelete(fk) == SetNull ==> forall s, u :: u in Uniques(s) ==> fk !in u.keys
  {
  }

  /** How far a cascade can still run from a table. */
  function Height(t: Table): nat {
    match t
    case User => 2
    case Cart => 1
    case Product => 1
    case Discount => 1
    case Order => 1
    case Document => 1
    case ChatSession => 1
    case _ => 0
  }

  /** The Cascade relation is acyclic: it only ever leads downwards. */
  lemma CascadeDescends(fk: Fk)
    requires OnDelete(fk) == Cascade
    ensures Height(Child(fk)) < Height(Parent(fk))
  {
  }

  // ---------------------------------------------------------------- unique constraints by name

  /** What no two rows of a table may have in common. */
  predicate SameByName(s: Schema, t: Table, a: Row, b: Row)
    requires RowShape(t, a) && RowShape(t, b)
  {
    match t
    case User => a.values[UserEmail] == b.values[UserEmail]
    case AuthProvider =>
      && a.values[ProviderName] == b.values[ProviderName]
      && a.values[ProviderId] == b.values[ProviderId]
    case Product =>
      && a.values[ProductSku] == b.values[ProductSku]
      && (s == Declared || (a.deletedAt.None? && b.deletedAt.None?))
    case Inventory => a.refs[InventoryProduct] == b.refs[InventoryProduct]
    case Discount => a.values[VoucherCode] == b.values[VoucherCode]
    case DiscountProduct =>
      && a.refs[DiscountProductDiscount] == b.refs[DiscountProductDiscount]
      && a.refs[DiscountProductProduct] == b.refs[DiscountProductProduct]
    case Cart => a.refs[CartUser] == b.refs[CartUser]
    case Order => a.values[OrderNumber] == b.values[OrderNumber]
    case Payment => a.values[ProviderRef] == b.values[ProviderRef]
    case Document => a.values[StorageKey] == b.values[StorageKey]
    case _ => false
  }

  predicate HasUnique(t: Table) {
    t != Address && t != ProductDiscount && t != CartItem && t != OrderItem && t != DocumentChunk
    && t != ChatSession && t != ChatMessage && t != AuditLog && t != Outbox
  }

  /** The one unique constraint of a table that has any. */
  function TheUnique(s: Schema, t: Table): Unique
    requires HasUnique(t)
  {
    match t
    case User => Unique(User, {UserEmail}, {}, false)
    case AuthProvider => Unique(AuthProvider, {ProviderName, ProviderId}, {}, false)
    case Product => Unique(Product, {ProductSku}, {}, s == Migrated)
    case Inventory => Unique(Inventory, {}, {InventoryProduct}, false)
    case Discount => Unique(Discount, {VoucherCode}, {}, false)
    case DiscountProduct => Unique(DiscountProduct, {}, {DiscountProductDiscount, DiscountProductProduct}, false)
    case Cart => Unique(Cart, {}, {CartUser}, false)
    case Order => Unique(Order, {OrderNumber}, {}, false)
    case Payment => Unique(Payment, {ProviderRef}, {}, false)
    case _ => Unique(Document, {StorageKey}, {}, false)
  }

  lemma UniquesAreThese(s: Schema, u: Unique)
    ensures u in Uniques(s) <==> HasUnique(u.table) && u == TheUnique(s, u.table)
  {
  }

  lemma TheUniqueTable(s: Schema, t: Table)
    requires HasUnique(t)
    ensures TheUnique(s, t).table == t
  {
  }

  lemma ColumnsClash(u: Unique, a: Row, b: Row, c: Column, d: Column)
    requires u.columns == {c, d} && u.keys == {} && c in a.values && c in b.values && d in a.values && d in b.values
    ensures Clash(u, a, b) <==> (u.liveOnly ==> a.deletedAt.None? && b.deletedAt.None?)
                                && a.values[c] == b.values[c] && a.values[d] == b.values[d]
  {
  }

  lemma KeysClash(u: Unique, a: Row, b: Row, k: Fk, l: Fk)
    requires u.columns == {} && u.keys == {k, l} && !u.liveOnly
    requires k in a.refs && k in b.refs && l in a.refs && l in b.refs
    ensures Clash(u, a, b) <==> a.refs[k] == b.refs[k] && a.refs[l] == b.refs[l]
  {
  }

  lemma ClashMeans(s: Schema, t: Table, a: Row, b: Row)
    requires RowShape(t, a) && RowShape(t, b)
    ensures SameByName(s, t, a, b) <==> HasUnique(t) && Clash(TheUnique(s, t), a, b)
  {
    hide Clash;
    if HasUnique(t) {
      var u := TheUnique(s, t);
      match t {
        case User => ColumnsClash(u, a, b, UserEmail, UserEmail);
        case AuthProvider => ColumnsClash(u, a, b, ProviderName, ProviderId);
        case Product => ColumnsClash(u, a, b, ProductSku, ProductSku);
        case Inventory => KeysClash(u, a, b, InventoryProduct, InventoryProduct);
        case Discount => ColumnsClash(u, a, b, VoucherCode, VoucherCode);
        case DiscountProduct => KeysClash(u, a, b, DiscountProductDiscount, DiscountProductProduct);
        case Cart => KeysClash(u, a, b, CartUser, CartUser);
        case Order => ColumnsClash(u, a, b, OrderNumber, OrderNumber);
        case Payment => ColumnsClash(u, a, b, ProviderRef, ProviderRef);
        case Document => ColumnsClash(u, a, b, StorageKey, StorageKey);
      }
    }
  }

  lemma ClashByName(s: Schema, t: Table, a: Row, b: Row)
    requires RowShape(t, a) && RowShape(t, b)
    ensures SameByName(s, t, a, b) <==> exists u :: u in Uniques(s) && u.table == t && Clash(u, a, b)
  {
    hide RowShape, SameByName, Uniques, Clash, TheUnique, HasUnique;
    ClashMeans(s, t, a, b);
    if HasUnique(t) {
      TheUniqueTable(s, t);
      UniquesAreThese(s, TheUnique(s, t));
    }
    forall u | u in Uniques(s)
      ensures HasUnique(u.table) && u == TheUnique(s, u.table)
    {
      UniquesAreThese(s, u);
    }
  }

  /**
   The unique constraints mean exactly this: no two users share an email, no two logins a provider and its
   id, no two carts a user, no two stocks a product, no two links a discount and product, no two discounts a
   code, no two orders a number, no two payments a provider reference, no two documents a storage key, and
   no two products (live ones, after the migration) an SKU. Nothing else is unique.
   */
  lemma UniqueByName(s: Schema, db: Database)
    requires Shaped(db)
    ensures NothingClashes(s, db) <==>
            forall a, b {:trigger db[a], db[b]} :: a in db && b in db && a != b && a.table == b.table ==>
              !SameByName(s, a.table, db[a], db[b])
  {
    hide Clash, SameByName, Uniques;
    forall a, b | a in db && b in db && a != b && a.table == b.table
      ensures SameByName(s, a.table, db[a], db[b]) <==>
              exists u :: u in Uniques(s) && u.table == a.table && Clash(u, db[a], db[b])
    {
      ClashByName(s, a.table, db[a], db[b]);
    }
  }

  // ---------------------------------------------------------------- references by name

  datatype Link = Link(child: Table, key: Fk, parent: Table, required: bool)

  /** The relations, table by table: which row refers to which, and whether it has to. */
  const LINKS: set<Link> := {
    Link(AuthProvider, AuthProviderUser, User, true),
    Link(Address, AddressUser, User, true),
    Link(Inventory, InventoryProduct, Product, true),
    Link(ProductDiscount, ProductDiscountProduct, Product, true),
    Link(DiscountProduct, DiscountProductDiscount, Discount, true),
    Link(DiscountProduct, DiscountProductProduct, Product, true),
    Link(Cart, CartUser, User, true),
    Link(CartItem, CartItemCart, Cart, true),
    Link(CartItem, CartItemProduct, Product, true),
    Link(Order, OrderUser, User, true),
    Link(Order, OrderDiscount, Discount, false),
    Link(OrderItem, OrderItemOrder, Order, true),
    Link(OrderItem, OrderItemProduct, Product, true),
    Link(Payment, PaymentOrder, Order, true),
    Link(DocumentChunk, DocumentChunkDocument, Document, true),
    Link(ChatSession, ChatSessionUser, User, false),
    Link(ChatMessage, ChatMessageSession, ChatSession, true),
    Link(AuditLog, AuditLogActor, User, false)
  }

  lemma LinksAreThese(l: Link)
    ensures l in LINKS <==> l == Link(Child(l.key), l.key, Parent(l.key), !Nullable(l.key))
  {
  }

  /**
   In a consistent database a row has exactly the references of its table, all the required ones among them,
   and each leads to an existing row of the table it should: a cart item stands on a cart and a product, an
   order on a user and, if any, a discount, and so on.
   */
  lemma EveryRowStands(s: Schema, db: Database, k: Key)
    requires Consistent(s, db) && k in db
    ensures forall fk :: fk in db[k].refs ==> exists l :: l in LINKS && l.key == fk && l.child == k.table
    ensures forall l :: l in LINKS && l.child == k.table ==>
              && (l.required ==> l.key in db[k].refs)
              && (l.key in db[k].refs ==> Key(l.parent, db[k].refs[l.key]) in db)
  {
    hide LINKS, Child, Parent, Nullable, NothingClashes;
    forall fk | fk in db[k].refs
      ensures exists l :: l in LINKS && l.key == fk && l.child == k.table
    {
      LinksAreThese(Link(Child(fk), fk, Parent(fk), !Nullable(fk)));
    }
    forall l | l in LINKS
      ensures l == Link(Child(l.key), l.key, Parent(l.key), !Nullable(l.key))
    {
      LinksAreThese(l);
    }
  }
}
