# Verified model of the store backend

Dafny models of the parts of this repository whose correctness is not visible from one function, with
proofs of what they promise. `dafny verify dfyconfig.toml` checks everything.

**Strings across a growing linear memory** (`Unicode`, `Transcoding`, `LinearMemory`, `StringPassing`).
Prisma's query compiler runs in WebAssembly, and its JavaScript glue copies strings into and out of a
memory whose buffer is detached whenever it grows. `Unicode` holds the UTF-8 encoder of section 3 of
RFC 3629 and, independently of it, the decoder automaton of the WHATWG Encoding Standard; `Transcoding`
relates the two. `LinearMemory` is the memory with its live blocks and an allocator that is
nondeterministic within its contract: it may trap, may grow the memory, may hand out any free range and
may overwrite everything outside the live blocks. Addresses cross the border as signed 32-bit integers,
negative for the upper half of the memory. A ghost counter, `strays`, records every JavaScript store that goes through a stale view, past the end of one, or outside every live block.
`StringPassing.Glue` is the glue itself, as a class with the source's variables `p`, `b`, `f`, `y`, `S`.
The minified function `l` is split at its branches: `PassString` is `l`, `PassWhole` its branch without a
`realloc`, `CopyAscii` its loop, `EncodeTail` (with `GrowAndWrite` and `WriteTail`) what follows the loop.

**Ownership of query compilers** (`QueryCompilers`, `QueryCompilerObjects`). Explicit `free`, repeated
`free`, garbage collection and finalizers as a transition system, and the objects that implement it.

**Money** (`Money`, `MoneyCents`, `MoneyRounding`, `MoneyText`). Every operation takes the rounding of the
arithmetic as an argument: `Exact` gives cents arithmetic; `IsRounding` says of binary64 that a result of
size up to 10^15 is off by at most 2^-53 of itself (section 4 of IEEE 754-2019), or by 10^-30 near zero;
`IsMonotone`, where it is used, that rounding keeps order. `MoneyRounding.ExactIsARounding` shows that the
assumptions can be met. `Counts` and `Tracks` are the common interface: chains of discounts, sums of
percentages and orders are proved once, for any arithmetic that counts or tracks integer cents up to a
bound, and instantiated for exact arithmetic (any bound) and binary64 (ten billion).

**Delete rules of the schema** (`StoreSchema`, `ReferentialActions`, `DatabaseRuns`). Tables, relations,
delete rules and unique constraints are those of the Prisma 7.3.0 schema; for the SKU also those of the
last migration, and every result holds for both. How a delete carries the rules
out is this model's reading of section 11.8 of ISO/IEC 9075-2: rows are removed one at a time in any
order. `Delete` is the declarative result, and every order is proved to reach it.

**Domain events** (`DomainEvents`), **orders** (`Orders`, `OrderRuns`, `OrderCreation`, `OrderReloading`,
`OrderAggregate`) and **UUIDs**
(`Uuid`). Event arrays are heap objects, so that a pulled batch can be proved untouched. An order's
methods assign fields one after the other; a throw keeps the earlier assignments, and the model keeps them
too. The clock is an argument. `Order` refers to its inherited event queue by a field.

## Where the code and its documentation disagree

The models follow the code.

- The order's documented key invariant, total = subtotal + tax + shippingCost - discountAmount
  (`order.entity.ts`, line 71), does not survive `applyDiscount` with more than subtotal + tax +
  shippingCost: the call throws, but only after the discount has been stored. `OrderRuns.StepBalances`
  gives the exact condition, `OrderRuns.OvershootExists` a whole amount that does it for every order that
  can be modified.
- The validation in the constructor promises that notes are not blank and that an order is not updated
  before it is created. `updateNotes` and the clock are not checked, so `reconstruct` can refuse an order
  that was stored (`OrderReloading.StepKeepsReloadable`).
- The generated schema makes a product's SKU unique; `prisma/schema.prisma` and the last migration make it
  unique among products that are not soft-deleted. The model has both (`StoreSchema.Schema`).

## Where the code is narrower than it looks

- `k`, `V` and `J` use the return address as wasm passes it, without the `>>> 0` that `m` has. A return area
  at 2^31 or above arrives as a negative number, `setInt32` throws, and the string that was just passed
  stays allocated (`StringPassing.Glue.ReturnString`, `StringPassing.Glue.ReturnToUpperHalf`).
- `J` reports an absent string as address 0 next to the length of whichever string was passed last
  (`StringPassing.Glue.ReturnOptionalString`).
- `equals` on identifiers compares text: the same UUID in another letter case is unequal
  (`Uuid.EqualsDecidesTextNotValue`, `Uuid.EqualsMissesCase`).
- `Money.create` rejects negative amounts only after rounding, so what rounds to zero cents from below is
  accepted as zero (`MoneyCents.CreateAccepts`, `MoneyRounding.CreateIsClose`).

## Model

| member | source | states |
|---|---|---|
| Transcoding.DecodeEncode | src/generated/prisma/query_compiler_bg.js:1 | decoding the UTF-8 form of any UTF-16 string, a leading byte order mark included, gives the string with each lone surrogate replaced by U+FFFD and nothing else changed |
| Transcoding.RepairWellFormed | src/generated/prisma/query_compiler_bg.js:1 | the replaced string has no lone surrogate, and it is the original exactly when the original had none, so the round trip is the identity for well-formed strings and only those |
| Transcoding.DecodeExactly | src/generated/prisma/query_compiler_bg.js:1 | the fatal decoder returns a string exactly when the string is well formed and the bytes are its encoding; it throws on everything else, overlong forms and encoded surrogates included |
| Transcoding.EncodeInjective | src/generated/prisma/query_compiler_bg.js:1 | two strings pass as the same bytes exactly when they differ at most in which lone surrogate stood where |
| Transcoding.EncodeLength | src/generated/prisma/query_compiler_bg.js:1 | one to three bytes per code unit: what the factor 3 of the worst-case capacity rests on |
| Transcoding.EncodeDistributes | src/generated/prisma/query_compiler_bg.js:1 | a string can be cut and encoded in two parts exactly when the cut does not separate a surrogate pair |
| Transcoding.EncodeAfterAscii | src/generated/prisma/query_compiler_bg.js:1 | after any ASCII prefix, the encoding is the prefix unit by unit followed by the encoding of the rest |
| StringPassing.DecodedExactly | src/generated/prisma/query_compiler_bg.js:1 | `decode` returns a text exactly for that text's encoding, and so throws for everything that encodes no text the engine can hold |
| LinearMemory.Instance.Malloc | src/generated/prisma/query_compiler_bg.js:1 | the contract `l` may rely on: a fresh block of the size asked for, apart from all live blocks, which keep their bytes; the memory may have grown; on a trap no block has changed owner |
| LinearMemory.Instance.Realloc | src/generated/prisma/query_compiler_bg.js:1 | the contract of the resizing call: demands the block's exact current size, may move it, keeps the common prefix and every other block |
| LinearMemory.Instance.StoreElement | src/generated/prisma/query_compiler_bg.js:1 | an indexed store through a view: dropped on a detached buffer or past the end; counted as a stray unless it lands in a live block of the current memory |
| LinearMemory.Instance.StoreAll | src/generated/prisma/query_compiler_bg.js:1 | `set` through a view: throws and writes nothing when the data does not fit; counted as a stray unless it lands in a live block of the current memory |
| LinearMemory.Instance.SetInt32 | src/generated/prisma/query_compiler_bg.js:2 | a word store through a data view: throws and writes nothing for a negative offset or where the four bytes do not fit; counted as a stray unless it lands in a live block of the current memory |
| StringPassing.Glue.constructor | src/generated/prisma/query_compiler_bg.js:1 | the module's initial state meets the invariant on cached views and decoder budget that every method keeps |
| StringPassing.Glue.ByteView | src/generated/prisma/query_compiler_bg.js:1 | `a` always returns a view of all of the current memory, also after growth has detached the cached one |
| StringPassing.Glue.WordView | src/generated/prisma/query_compiler_bg.js:1 | `u` always returns a view of the current memory, in engines that report detachment and in those that do not |
| StringPassing.Glue.NativeEncodeInto | src/generated/prisma/query_compiler_bg.js:1 | the engine's `encodeInto` writes the encoding of the longest prefix of whole code points that fits, and stops at a code point boundary |
| StringPassing.Glue.PolyfillEncodeInto | src/generated/prisma/query_compiler_bg.js:1 | the module's own `encodeInto` writes the whole encoding if there is room, else throws and writes nothing |
| StringPassing.Glue.EncodeInto | src/generated/prisma/query_compiler_bg.js:1 | where the string fits, the two forms of `encodeInto` write the same bytes and return the same counts; where it does not, the native one stops short and the polyfill throws |
| StringPassing.Glue.CopyAscii | src/generated/prisma/query_compiler_bg.js:1 | the loop stops at the first unit above 127 or at the end, and has then written exactly the encoding of what it passed over, with no stray store |
| StringPassing.TailFits | src/generated/prisma/query_compiler_bg.js:1 | the capacity `c + 3*rest` holds the whole encoding and at least the original block, stays below 2^32, and the final size is never 0 |
| StringPassing.TailWritten | src/generated/prisma/query_compiler_bg.js:1 | prefix and separately encoded rest, one behind the other in memory, spell the encoding of the whole string |
| StringPassing.Glue.GrowAndWrite | src/generated/prisma/query_compiler_bg.js:1 | growing the block and encoding the rest behind the prefix leaves the whole encoding in the (possibly moved) block, within its capacity; other blocks keep their bytes; a trap leaves the blocks as they were |
| StringPassing.Glue.EncodeTail | src/generated/prisma/query_compiler_bg.js:1 | the non-ASCII path of `l` ends in a block of exactly the encoded size that spells the encoding of the whole string |
| StringPassing.Glue.PassWhole | src/generated/prisma/query_compiler_bg.js:1 | the simple branch of `l`: encoded bytes in a fresh block of exactly that size, `f` their number |
| StringPassing.Glue.PassString | src/generated/prisma/query_compiler_bg.js:1 | for every string, allocator and engine, both branches of `l` end in the same state: a fresh block of size exactly `f` holding the encoding, every earlier live block with its bytes, no stray store; the only failure is a trap, which changes neither `f` nor an earlier block |
| StringPassing.Glue.ReturnPair | src/generated/prisma/query_compiler_bg.js:2 | the two `setInt32` calls put pointer and length where wasm loads them as unsigned 32-bit numbers and touch no other byte, if the address arrives non-negative; otherwise they throw and no byte changes; never a stray store |
| StringPassing.Glue.ReturnString | src/generated/prisma/query_compiler_bg.js:2 | when nothing traps, `k` and `V` succeed if and only if the return area lies below 2^31: they then report the address and length of a faithful copy, also when the copy made memory grow; otherwise they throw with the string passed, its block live, `f` its length and the area untouched; in every case no live block but the area changes and no store is stray |
| StringPassing.Glue.ReturnOptionalString | src/generated/prisma/query_compiler_bg.js:2 | `J` succeeds under the same condition, and then reports address 0 exactly for an absent string, with the stale length of the previous one; for an absent string nothing is allocated even if it throws |
| StringPassing.Glue.ReturnToUpperHalf | src/generated/prisma/query_compiler_bg.js:2 | the failing case: with a live return area at 0x8000_0000, `k` never succeeds, and unless it traps a RangeError leaves the copy allocated |
| StringPassing.UpperHalfIsPlaced | src/generated/prisma/query_compiler_bg.js:2 | such an area is possible: the allocator may place a block where addresses turn negative |
| StringPassing.Glue.ChargeBudget | src/generated/prisma/query_compiler_bg.js:1 | the accounting of `R`: the decoder is replaced exactly when its budget would be used up, and replacements times budget plus current count never exceed twice the bytes decoded |
| StringPassing.Glue.DecodeSlice | src/generated/prisma/query_compiler_bg.js:1 | `R` decodes exactly the bytes asked for from the current memory, and throws for malformed bytes and for text longer than the engine can hold; `S` stays the sum of the blocks its decoder was handed, below 2146435072 unless that was one block |
| StringPassing.Glue.GetString | src/generated/prisma/query_compiler_bg.js:1 | `m` reads addresses of 2^31 and above, which wasm passes as negative numbers, correctly, for every length a Rust slice can have, and returns a text exactly if the bytes there are its encoding |
| StringPassing.Glue.ReturnThenGet | src/generated/prisma/query_compiler_bg.js:1-2 | the round trip through memory: unless a call traps, a string written by `k` is read back by `m` from the reported address and length if and only if the return area lies below 2^31, wherever the string itself lies; it comes back repaired, unchanged if well formed |
| QueryCompilers.StepKeepsSound | src/generated/prisma/query_compiler_bg.js:2 | construct, compile, free, collect and finalize each keep the ownership invariant: an object's pointer is 0 or the live address of the compiler it was made for, and is non-zero exactly when it is registered with `E` for that pointer |
| QueryCompilers.RunKeepsSound | src/generated/prisma/query_compiler_bg.js:2 | the same over every interleaving |
| QueryCompilers.ReleasedAtMostOnce | src/generated/prisma/query_compiler_bg.js:2 | in every interleaving from the start, with or without a finalization registry and even if wasm reuses addresses, no compiler is released twice and nothing that is not live is ever freed |
| QueryCompilers.NothingLeaks | src/generated/prisma/query_compiler_bg.js:2 | with a registry, when all objects are collected and all finalizers have run, every compiler ever made has been released |
| QueryCompilers.ReleasedExactly | src/generated/prisma/query_compiler_bg.js:2 | in any engine, at the end of any run a compiler has been released if and only if its object was freed or its finalizer ran; without a registry, exactly the compilers of objects nobody freed leak |
| QueryCompilers.CanBeCleared | src/generated/prisma/query_compiler_bg.js:2 | with a registry, from any reachable state collections and finalizers alone can release everything |
| QueryCompilers.FreeReleasesOwn | src/generated/prisma/query_compiler_bg.js:2 | freeing an object that still has its pointer releases its own compiler and nothing else, with or without a registry, and leaves it empty and unregistered |
| QueryCompilers.FinalizeReleasesOwn | src/generated/prisma/query_compiler_bg.js:2 | a finalizer releases the compiler of its collected object and nothing else |
| QueryCompilers.ConstructGives | src/generated/prisma/query_compiler_bg.js:2 | a new object owns a new compiler at a pointer of its own, and is registered for it if there is a registry |
| QueryCompilers.CollectOnlyForgets | src/generated/prisma/query_compiler_bg.js:2 | collecting an object changes nothing in wasm and leaves its finalizer able to run |
| QueryCompilers.CompileUsesOwn | src/generated/prisma/query_compiler_bg.js:2 | at any point of any run, `compile` and `compileBatch` pass 0 or the object's own live compiler, never one released or reused |
| QueryCompilers.FreeTwice | src/generated/prisma/query_compiler_bg.js:2 | a repeated `free` passes 0 and changes nothing |
| QueryCompilerObjects.Host.NewCompiler | src/generated/prisma/query_compiler_bg.js:2 | the constructor of `F` takes exactly the construct step, or none if wasm refuses |
| QueryCompilerObjects.Host.DestroyIntoRaw | src/generated/prisma/query_compiler_bg.js:2 | hands over the pointer, leaving 0 in the object and no registration |
| QueryCompilerObjects.Host.FreeCompiler | src/generated/prisma/query_compiler_bg.js:2 | `free` throws exactly when the object had been freed before; otherwise it releases exactly this object's compiler, in engines with and without a registry; either way the object ends empty and unregistered |
| QueryCompilerObjects.Host.PointerForCompile | src/generated/prisma/query_compiler_bg.js:2 | the pointer passed to wasm is 0 or this object's own live compiler |
| QueryCompilerObjects.Host.FinalizerRuns | src/generated/prisma/query_compiler_bg.js:2 | the callback of `E` releases exactly the compiler of the collected object |
| Money.CreatedIsSound | src/core/domain/money.vo.ts:21-45 | whatever goes in, NaN, infinities and overflow included, a created Money is finite, non-negative, in a valid currency, and the float of a whole number of cents |
| Money.OperationsAreSound | src/core/domain/money.vo.ts:87-117 | so is the result of every operation, in the receiver's currency; operands of different currencies never combine; NaN is always refused |
| Money.CurrenciesMustMatch | src/core/domain/money.vo.ts:63-117 | `add`, `subtract` and the four comparisons refuse with a currency mismatch exactly when the currencies differ, and then the amounts are not equal either |
| Money.ArgumentErrors | src/core/domain/money.vo.ts:97-109 | `multiply` refuses its argument exactly when it is not finite, `percentage` exactly when it is outside 0 to 100; a NaN percentage is refused as an amount |
| Money.CurrencyList | src/core/domain/money.vo.ts:36-49 | the currencies are IDR, USD, EUR, SGD and MYR, and `zero` exists exactly in these |
| Money.SpecialNumbers | src/core/domain/money.vo.ts:42-109 | how the operators treat what is not finite: NaN spreads through sums and products, infinities win unless they cancel, and comparisons with NaN fail |
| MoneyCents.CreateAccepts | src/core/domain/money.vo.ts:27-45 | in exact arithmetic `create` succeeds exactly for finite amounts from -0.005 in a valid currency, and rounds half up |
| MoneyCents.CreateErrors | src/core/domain/money.vo.ts:27-45 | in any arithmetic that counts cents, which of its three errors `create` throws, and exactly when |
| MoneyCents.ExactSums | src/core/domain/money.vo.ts:87-95 | sums and differences of whole cents are exact for all amounts; a difference is refused exactly when it would be negative |
| MoneyCents.ExactMultiply | src/core/domain/money.vo.ts:97-102 | multiplying by any real number rounds the exact product half up, and is refused exactly when that is negative |
| MoneyCents.ExactPercent | src/core/domain/money.vo.ts:104-109 | a percentage is the exact share rounded half up, between 0 and the amount |
| MoneyCents.PercentRefused | src/core/domain/money.vo.ts:104-109 | in any arithmetic that tracks cents, a percentage is refused exactly for NaN, infinities and numbers outside 0 to 100 |
| MoneyCents.ComplementSplit | src/core/domain/money.vo.ts:104-109 | `percentage(p)` plus `percentage(100-p)` is the amount, one cent more exactly when the split falls on half a cent |
| MoneyCents.PercentMonotone | src/core/domain/money.vo.ts:104-109 | in exact arithmetic percentages of cents grow with the amount and with the percentage |
| MoneyCents.DiscountChain | src/core/domain/money.vo.ts:92-109 | in any arithmetic that tracks cents within delta up to the amount, a chain of k percentage discounts never throws, never raises the amount, and ends within k delta cents of the exact real product |
| MoneyCents.DiscountsInCents | src/core/domain/money.vo.ts:92-109 | in exact arithmetic, for all amounts, the chain ends within k/2 cents |
| MoneyCents.PercentageOfSum | src/core/domain/money.vo.ts:87-109 | in any arithmetic that tracks cents within delta: for any list of n amounts, the sum of their percentages and the percentage of their sum differ by at most (n+1) delta cents |
| MoneyCents.PercentageOfSumInCents | src/core/domain/money.vo.ts:87-109 | in exact arithmetic, for all amounts, they differ by at most (n+1)/2 cents |
| MoneyCents.ExactTracks | src/core/domain/money.vo.ts:42-109 | exact arithmetic tracks integer cents of any size: sums, differences and whole multiples exactly, percentages within half a cent |
| MoneyRounding.CreateNear | src/core/domain/money.vo.ts:42-45 | in binary64, `create` recovers the cents of any amount within 0.00045 cents of them |
| MoneyRounding.CreateIsClose | src/core/domain/money.vo.ts:27-45 | in binary64, for every amount up to ten billion, `create` keeps it within 0.501 cents, refuses it exactly when those cents are negative, so never from -0.00499 up and always from -0.00502 down |
| MoneyRounding.RecreateIsIdentity | src/core/domain/money.vo.ts:42-45 | creating a Money from the amount of one gives it back |
| MoneyRounding.SumsAreExact | src/core/domain/money.vo.ts:87-90 | the binary64 sum of two amounts is the float nearest to the sum of their cents |
| MoneyRounding.DifferencesAreExact | src/core/domain/money.vo.ts:92-95 | likewise for differences, refused exactly when negative |
| MoneyRounding.ProductsAreExact | src/core/domain/money.vo.ts:97-102 | likewise for whole multiples |
| MoneyRounding.MultiplyIsClose | src/core/domain/money.vo.ts:97-102 | multiplying by any number gives whole cents within 0.501 of the exact product, and is refused exactly when they are negative |
| MoneyRounding.NoDrift | src/core/domain/money.vo.ts:42-102 | for every expression of created amounts, sums, differences and whole multiples within Decimal(12, 2), the binary64 result is the float nearest to the integer cents, and an error is thrown exactly where integer cents would throw it |
| MoneyRounding.ComparisonsDecideCents | src/core/domain/money.vo.ts:63-85 | `===` and the four comparisons on floats decide equality and order of the cents |
| MoneyRounding.SubtractThenAdd | src/core/domain/money.vo.ts:77-95 | `subtract` succeeds exactly when `isGreaterThanOrEqual`, and adding back restores the very same value |
| MoneyRounding.PercentIsClose | src/core/domain/money.vo.ts:104-109 | a binary64 percentage is within 0.501 cents of the exact share and between 0 and the amount |
| MoneyRounding.PercentAgrees | src/core/domain/money.vo.ts:104-109 | and it is the same cent as in exact arithmetic unless the share is within a thousandth of a half cent |
| MoneyRounding.RoundingTracks | src/core/domain/money.vo.ts:42-109 | binary64 tracks integer cents up to ten billion, so the statements about chains, lists and orders hold in it, with delta 0.501 |
| MoneyRounding.DiscountsInDoubles | src/core/domain/money.vo.ts:92-109 | in binary64, for amounts up to ten billion, a chain of k discounts never throws, never raises the amount and ends within 0.501 k cents of the exact product |
| MoneyRounding.PercentageOfSumInDoubles | src/core/domain/money.vo.ts:87-109 | in binary64, for amounts adding up to at most ten billion, the percentage of a sum and the sum of the percentages differ by at most 0.501 (n+1) cents |
| MoneyRounding.ComplementInDoubles | src/core/domain/money.vo.ts:104-109 | in binary64 `percentage(p)` plus `percentage(100-p)` is within a cent of the amount, and is the amount unless the split falls within a thousandth of half a cent |
| MoneyRounding.PercentageGrows | src/core/domain/money.vo.ts:104-109 | under any monotone rounding, for finite amounts of any size, a larger percentage of a larger amount is never smaller, and where it can be taken so can the smaller one |
| MoneyText.FixedReadsBack | src/core/domain/money.vo.ts:119-121 | the two-decimal text determines the rounded cents: they can be read back from it |
| MoneyText.FixedShape | src/core/domain/money.vo.ts:119-121 | the amount is printed with one point, exactly two digits after it, at least one before, and no needless leading zero |
| MoneyText.TextBegins | src/core/domain/money.vo.ts:119-121 | the text is the currency, a space, and an amount that reads back as the rounded cents |
| MoneyText.PrintsCents | src/core/domain/money.vo.ts:119-121 | the text of a reachable amount shows exactly its cents, whatever the float's last bits |
| MoneyText.ToStringDecidesEquals | src/core/domain/money.vo.ts:119-121 | two reachable amounts below ten billion, in any currencies, print alike exactly when `equals` holds |
| StoreSchema.CascadedRowsAreUnprotected | src/generated/prisma/internal/class.ts:23 | no table reached by a Cascade rule is protected by a Restrict rule |
| StoreSchema.CascadeDescends | src/generated/prisma/internal/class.ts:23 | the Cascade relation is acyclic |
| StoreSchema.UniqueByName | src/generated/prisma/internal/class.ts:23 | the unique constraints by name, and that there are no others: user email, login provider and id, stock per product, discount code, link of discount and product, cart per user, order number, payment reference, storage key, and SKU, among live products only after the migration |
| StoreSchema.EveryRowStands | src/generated/prisma/internal/class.ts:23 | in a consistent database a row has exactly the references its table declares, all the required ones among them, and each leads to an existing row of the declared table |
| ReferentialActions.Closure | src/generated/prisma/internal/class.ts:23 | the rows that go with a set of rows are the least set containing it and closed under Cascade references; computing it terminates |
| ReferentialActions.EveryOrderAgrees | src/generated/prisma/internal/class.ts:23 | in whatever order a delete removes rows, nulls references and queues cascades, it ends as the declarative definition says: refused exactly when the row itself is protected, else exactly the Cascade closure gone and exactly the SetNull references into it nulled |
| ReferentialActions.ExecutionEnds | src/generated/prisma/internal/class.ts:23 | every delete can be carried to its end, within one step per row |
| ReferentialActions.OnlyRootIsProtected | src/generated/prisma/internal/class.ts:23 | a Restrict rule can stop a delete only at the row named in it, never at one it cascades to |
| DatabaseRuns.InsertKeepsConsistent | src/generated/prisma/internal/class.ts:23 | an accepted insert keeps every constraint, under either schema |
| DatabaseRuns.InsertedExactly | src/generated/prisma/internal/class.ts:23 | an insert under a new key stores the row exactly when the database with it meets every constraint, and else changes nothing |
| DatabaseRuns.ProductAccepted | prisma/migrations/20260308080048_add_partial_unique_sku/migration.sql:5-7 | a new product on sale is accepted exactly if no product, or after the migration no other product on sale, has its SKU |
| DatabaseRuns.MarkedExactly | prisma/migrations/20260308080048_add_partial_unique_sku/migration.sql:5-7 | a soft deletion or restoration happens exactly when the database it leads to meets every constraint, and touches one row |
| DatabaseRuns.RemovedExactly | src/generated/prisma/internal/class.ts:23 | a delete removes its row exactly when no guarding row refers to it; then exactly the rows tied to it by a chain of Cascade references go, the others keep columns, mark and every reference whose row is still there; a refused delete changes nothing |
| DatabaseRuns.DeleteKeepsConsistent | src/generated/prisma/internal/class.ts:23 | so does a completed delete: no reference dangles, no required column becomes null, no two rows clash on a unique constraint |
| DatabaseRuns.RunKeepsConsistent | src/generated/prisma/internal/class.ts:23 | over any run of inserts, deletes, soft deletions and restorations no foreign key dangles and every unique constraint holds, under the generated schema and under the migrated one |
| DatabaseRuns.DeletionIsMarkable | prisma/migrations/20260308080048_add_partial_unique_sku/migration.sql:5-7 | soft-deleting a product never violates the partial unique index; only bringing one back can |
| DatabaseRuns.PaymentsSurvive | src/generated/prisma/internal/class.ts:23 | no run of inserts, soft deletions and deletes, none of them of a payment by name, removes a payment, its order or the user who placed it, or re-points the references between them |
| DatabaseRuns.RefusedExactly | src/generated/prisma/internal/class.ts:23 | a delete is refused exactly for a user with an order, an order with a payment, and a product in a cart or an order |
| DatabaseRuns.DeletingUser | src/generated/prisma/internal/class.ts:23 | a user can be deleted exactly when they have no orders; then exactly their logins, addresses, cart and cart items go, although cart items refer to products under Restrict; products are untouched and chat sessions and audit entries stay without their user |
| DatabaseRuns.DeletingParts | src/generated/prisma/internal/class.ts:23 | deleting any other row takes exactly its direct parts with it: the cascade is one level deep |
| DatabaseRuns.ReferencesFollowTargets | src/generated/prisma/internal/class.ts:23 | over any run, a row that is there throughout keeps its columns, and keeps each of its references if and only if the row referred to is there throughout; a reference once nulled stays null |
| DatabaseRuns.ClosureIsReachability | src/generated/prisma/internal/class.ts:23 | a row goes exactly when a chain of Cascade references leads from it to the deleted row |
| DatabaseRuns.CascadeRunsDown | src/generated/prisma/internal/class.ts:23 | whatever goes with a row lies in strictly lower tables |
| DomainEvents.RunDeliversInOrder | src/core/domain/aggregate-root.base.ts:5-15 | over any run of adds and pulls, the batches recorded as pulled followed by the pending events are exactly the events added, in order |
| DomainEvents.CallersGetEverythingOnce | src/core/domain/aggregate-root.base.ts:7-15 | seen from the callers: what the pulls of any run returned, one after the other, followed by what is pending at the end, is what was pending at the start followed by the events added; nothing is delivered twice or lost |
| DomainEvents.Perform | src/core/domain/aggregate-root.base.ts:4-16 | the same of the objects: after any sequence of calls the arrays returned along the way still hold what was delivered in them, and with the pending ones that is exactly what was added |
| DomainEvents.PulledBatchesStay | src/core/domain/aggregate-root.base.ts:11-15 | the list of batches pulled is only ever appended to |
| DomainEvents.AggregateRoot.constructor | src/core/domain/aggregate-root.base.ts:5 | a new aggregate has nothing pending and a fresh array |
| DomainEvents.AggregateRoot.AddDomainEvent | src/core/domain/aggregate-root.base.ts:7-9 | takes the add step and changes no array already handed out |
| DomainEvents.AggregateRoot.PullDomainEvents | src/core/domain/aggregate-root.base.ts:11-15 | hands out the very array that was pending, with its events, goes on with a fresh empty one, and so leaves this and all earlier batches to their holders |
| OrderRuns.NewTotalInCents | src/modules/order/domain/entities/order.entity.ts:463-468 | in any arithmetic that counts cents, recalculation gives subtotal + tax + shippingCost - discountAmount to the cent, and throws exactly when that is negative |
| OrderRuns.AcceptedExactly | src/modules/order/domain/entities/order.entity.ts:287-447 | when each command is accepted, and where it takes the status: a transition exactly from its documented sources or its own target, a discount exactly if the order is open and can cover it |
| OrderRuns.AcceptedLeaves | src/modules/order/domain/entities/order.entity.ts:287-447 | what an accepted command leaves: a transition its target, new notes the notes, a discount its id and its cents taken off the total, a removal no discount and the full total; no other field changes |
| OrderRuns.RepeatChangesNothing | src/modules/order/domain/entities/order.entity.ts:287-447 | every command is idempotent: once accepted, a repetition is accepted, changes nothing and records no event |
| OrderRuns.ThrowKeeps | src/modules/order/domain/entities/order.entity.ts:272-468 | a command that throws leaves the order as it was, except that `applyDiscount` on an open order leaves the discount id behind, and exactly if the amount was valid also the amount |
| OrderRuns.ThrowsWhy | src/modules/order/domain/entities/order.entity.ts:272-468 | which error each refused command throws, and that removing a discount from an open order never throws |
| OrderRuns.StepBalances | src/modules/order/domain/entities/order.entity.ts:287-447 | in any arithmetic that counts cents: after a command the documented total holds if and only if, for a command that stores a discount, the discount is at most subtotal + tax + shippingCost, and for any other, it held before |
| OrderRuns.RunBalances | src/modules/order/domain/entities/order.entity.ts:69-73 | over any run without an overshooting discount the documented total holds throughout |
| OrderRuns.RunBalancesInCents | src/modules/order/domain/entities/order.entity.ts:69-73 | the same in exact arithmetic, for amounts of any size |
| OrderRuns.RunBalancesInDoubles | src/modules/order/domain/entities/order.entity.ts:69-73 | the same in binary64, for amounts up to ten billion |
| OrderRuns.OvershootingBreaks | src/modules/order/domain/entities/order.entity.ts:428-435 | an overshooting discount throws and yet stays stored next to the old total |
| OrderRuns.OvershootExists | src/modules/order/domain/entities/order.entity.ts:428-435 | every order that can be modified has such a discount: the next whole amount above what it is worth |
| OrderRuns.HugeDiscountThrows | src/modules/order/domain/entities/order.entity.ts:428-435 | in binary64 a discount beyond ten billion, of any finite size, throws and stays stored too |
| OrderRuns.TerminalIsFinal | src/modules/order/domain/entities/order.entity.ts:69-73 | no run of commands changes a completed or cancelled order |
| OrderRuns.RunRecords | src/modules/order/domain/entities/order.entity.ts:287-407 | over any run the recorded events replay, by allowed transitions only, to the current status; completion is announced exactly once if and only if the order is completed, cancellation, with the status it came from, exactly once if and only if cancelled, payment at most once and exactly once if paid, in fulfillment or completed; each stands directly before its transition |
| OrderRuns.RunTells | src/modules/order/domain/entities/order.entity.ts:287-407 | over any run the log gains exactly the announcements of the transitions made, in order, those of payment and completion with the total of that moment |
| OrderCreation.CreatedOrder | src/modules/order/domain/entities/order.entity.ts:129-198 | in any arithmetic that counts cents: a created order is the one asked for, item by item (product, quantity, both prices), tax, shipping and discount each in its field, user, discount id, notes and currency (IDR only if absent or empty); its subtotal is the sum of price times quantity, the documented total holds, and its log is the one creation event |
| OrderCreation.CreatedOrderInCents | src/modules/order/domain/entities/order.entity.ts:129-198 | the same in exact arithmetic, for orders of any size |
| OrderCreation.CreatedOrderInDoubles | src/modules/order/domain/entities/order.entity.ts:129-198 | the same in binary64, for orders within ten billion |
| OrderCreation.CreatedExactly | src/modules/order/domain/entities/order.entity.ts:129-198 | `create` succeeds if and only if there are items, all valid, every amount given rounds to non-negative cents (absent and NaN amounts count as none), the discount is covered by the rest, and user and notes are not blank |
| OrderCreation.FailureHasCause | src/modules/order/domain/entities/order.entity.ts:86-165 | when `create` throws, what was asked for deserves that very error |
| OrderCreation.SubtotalInCents | src/modules/order/domain/entities/order.entity.ts:150-153 | the fold over items gives the sum of price times quantity in cents, for any list of items |
| OrderReloading.StepKeepsReloadable | src/modules/order/domain/entities/order.entity.ts:86-120 | a stored order can be reconstructed after a command exactly unless the command set blank notes on an order open to modification, or changed it while the clock stood before its creation |
| OrderReloading.RunKeepsReloadable | src/modules/order/domain/entities/order.entity.ts:86-120 | over any run without blank notes, by a clock not behind its creation, an order stays reconstructible |
| OrderReloading.ReconstructExactly | src/modules/order/domain/entities/order.entity.ts:86-120 | `reconstruct` accepts an order exactly if its dates are valid and in order and neither user nor notes are blank |
| OrderReloading.StampedExactly | src/modules/order/domain/entities/order.entity.ts:287-472 | the time of the last change is set exactly by commands that changed the order or stored a discount |
| OrderAggregate.Order.constructor | src/modules/order/domain/entities/order.entity.ts:164-197 | a new order holds the computed values and one recorded event |
| OrderAggregate.Order.MarkOrderAsPaid | src/modules/order/domain/entities/order.entity.ts:287-314 | takes exactly the step of the state machine, in fields, outcome, events recorded and time of the last change |
| OrderAggregate.Order.StartOrderFulfillment | src/modules/order/domain/entities/order.entity.ts:319-336 | likewise |
| OrderAggregate.Order.CompleteOrder | src/modules/order/domain/entities/order.entity.ts:341-368 | likewise |
| OrderAggregate.Order.CancelOrder | src/modules/order/domain/entities/order.entity.ts:373-407 | likewise, although it assigns the status without `changeStatus` |
| OrderAggregate.Order.UpdateOrderNotes | src/modules/order/domain/entities/order.entity.ts:416-423 | likewise |
| OrderAggregate.Order.ApplyOrderDiscount | src/modules/order/domain/entities/order.entity.ts:428-435 | likewise, including what is stored when it throws half-way |
| OrderAggregate.Order.RemoveOrderDiscount | src/modules/order/domain/entities/order.entity.ts:440-447 | likewise |
| OrderAggregate.Order.ChangeStatusTo | src/modules/order/domain/entities/order.entity.ts:453-461 | changes the status exactly along an allowed transition |
| OrderAggregate.Order.Recalculate | src/modules/order/domain/entities/order.entity.ts:463-468 | the three operations in sequence assign the total, or throw and assign nothing, as specified |
| Uuid.MatchesFlat | src/core/domain/unique-identifier.base.ts:3 | matching a sequence of counted character classes is matching position by position |
| Uuid.AcceptsShape | src/core/domain/unique-identifier.base.ts:3-14 | the regex fixes the class of each of 36 positions and nothing else |
| Uuid.AcceptsExactly | src/core/domain/unique-identifier.base.ts:3-14 | the regex accepts exactly the hex-and-dash printings, in either case, of 128-bit numbers with version 1 to 8 and variant bits 10 (sections 4, 4.1 and 4.2 of RFC 9562) |
| Uuid.PrintInjective | src/core/domain/unique-identifier.base.ts:3 | two 128-bit numbers with the same printing are equal |
| Uuid.SameValueUpToCase | src/core/domain/unique-identifier.base.ts:20-22 | two accepted texts stand for the same UUID exactly when they differ at most in letter case |
| Uuid.EqualsDecidesTextNotValue | src/core/domain/unique-identifier.base.ts:20-22 | `equals` holds exactly for the same UUID written in the same case |
| Uuid.EqualsMissesCase | src/core/domain/unique-identifier.base.ts:20-22 | every UUID text with a lower-case letter has another accepted text of the same UUID that `equals` tells apart |

## Left out

- OrderCreation.FailureHasCause: like `OrderCreation.CreatedOrder`, for items, extras and their sums within the bound of the arithmetic.
- OrderRuns.StepBalances: in binary64 it covers amounts up to ten billion, the range of Decimal(12, 2). `OrderRuns.HugeDiscountThrows` covers larger discounts; larger prices are not covered.
- MoneyRounding.NoDrift: uses only the error bound of binary64, so it says nothing outside Decimal(12, 2), where doubles eventually stop telling neighbouring cents apart.
- MoneyCents.ExactMultiply: exact arithmetic only; `MoneyRounding.MultiplyIsClose` is the statement for binary64, within 0.501 cents instead of half a cent.
- MoneyText.ToStringDecidesEquals: `toFixed` is modelled below 10^21, where it does not switch to exponents; the sign of zero, which neither `===`, `<` nor `toFixed` shows, is not kept.
- StringPassing.Glue.PassString: strings are at most 2^29 - 24 code units (V8's limit), so that no size wraps at 2^32. If the last `realloc` traps, the block grown for the worst case stays allocated, as in the source.
- StringPassing.Glue.ReturnString: the return area wasm passes in is taken to be part of a live block.
- StringPassing.Glue.GetString: lengths are at most 2^31 - 1, the largest Rust allows a slice, so that a length never arrives negative.
- StringPassing.Glue.WordView: the wasm instance is set once; a second `__wbg_set_wasm` would leave cached views of the first, and is not modelled.
- QueryCompilers.ReleasedAtMostOnce: `free` while a call on the same compiler is still running (a panic in wasm) is not modelled.
- DatabaseRuns.RunKeepsConsistent: besides inserts, deletes and soft deletions no UPDATE statements, and no columns that are neither foreign keys nor mentioned by a unique constraint.
- Engine behaviour of deletes: the schema gives the rules, the procedure is this model's reading of the SQL standard.
- OrderAggregate.Order.constructor: the two clock readings of `create` are taken as one; order numbers and event ids, which are random, are left out.
- The one-off `y.decode()` that warms a new decoder up, which reads no bytes.
- The wasm compiler itself, the externref table, the debug printer `I` whose text `V` passes on, and the one-line shims.
- The payment, cart, discount, product, inventory and user aggregates: the order is the one with the richest state.
- Controllers, modules, configuration, filters, guards, the mailer and the other generated Prisma files: wiring and types.
- Error message texts: errors are constructors of a datatype.
