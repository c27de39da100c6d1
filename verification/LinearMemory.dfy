/**
 The WebAssembly instance as its JavaScript glue sees it: a linear memory whose buffer is detached
 and replaced when it grows, views over such buffers, and an allocator known only by contract.

 The allocator methods are nondeterministic. They may trap, may grow the memory, may hand out any
 free range and may scribble over every byte outside the live blocks; callers learn only what the
 `ensures` clauses say, so what is proved of a caller holds for every allocator meeting them.
 */
module LinearMemory {
  import opened Unicode

  const ADDRESS_SPACE: nat := 0x1_0000_0000

  /** No Rust allocation is larger than `isize::MAX` on a 32-bit target. */
  const MAX_BLOCK: nat := 0x7FFF_FFFF

  /** What a foreign call gives back: a value, an exception thrown by wasm, or a JavaScript RangeError. */
  datatype Outcome<+T> = Ok(value: T) | Trap | RangeError

  /** `x >>> 0` on a 32-bit integer that wasm returned as signed. */
  function ToUint32(x: int): (n: nat)
    ensures n < ADDRESS_SPACE
  {
    x % ADDRESS_SPACE
  }

  /** What an `i32` of wasm is in JavaScript. */
  type Int32 = x: int | -0x8000_0000 <= x < 0x8000_0000

  /** How wasm hands an address to JavaScript: as a signed integer, negative for the upper half of the memory. */
  function AsInt32(n: nat): (x: Int32)
    requires n < ADDRESS_SPACE
    ensures ToUint32(x) == n
    ensures x < 0 <==> 0x8000_0000 <= n
  {
    if n < 0x8000_0000 then n else n - ADDRESS_SPACE
  }

  class ArrayBuffer {
    var bytes: seq<Byte>
    var detached: bool

    constructor (initial: seq<Byte>)
      ensures bytes == initial && !detached
    {
      bytes, detached := initial, false;
    }
  }

  datatype Uint8Array = Uint8Array(buffer: ArrayBuffer, offset: nat, length: nat) {
    function ByteLength(): nat
      reads buffer
    {
      if buffer.detached then 0 else length
    }

    /** `subarray(begin, end)`, which clamps both ends to the view. */
    function Subarray(begin: nat, end: nat): Uint8Array
      reads buffer
    {
      var n := ByteLength();
      var from := if begin < n then begin else n;
      var to := if end < n then end else n;
      Uint8Array(buffer, offset + from, if from <= to then to - from else 0)
    }

    /** The bytes the view covers. */
    function Contents(): seq<Byte>
      requires !buffer.detached && offset + length <= |buffer.bytes|
      reads buffer
    {
      buffer.bytes[offset..offset + length]
    }
  }

  datatype DataView = DataView(buffer: ArrayBuffer)

  /** The four bytes `setInt32(.., x, true)` writes. */
  function LittleEndian(x: int): (data: seq<Byte>)
    ensures |data| == 4
  {
    [x % 0x100, x / 0x100 % 0x100, x / 0x1_0000 % 0x100, x / 0x100_0000 % 0x100]
  }

  // ---------------------------------------------------------------- blocks

  /** Live allocations: start address to size. Empty allocations own no memory and are not recorded. */
  type Blocks = map<nat, nat>

  predicate Apart(p: nat, n: nat, q: nat, m: nat) { p + n <= q || q + m <= p }

  predicate WellPlaced(blocks: Blocks, size: nat) {
    && (forall q :: q in blocks ==> 0 < q && 0 < blocks[q] <= MAX_BLOCK && q + blocks[q] <= size)
    && (forall q, r {:trigger Apart(q, blocks[q], r, blocks[r])} ::
          q in blocks && r in blocks && q != r ==> Apart(q, blocks[q], r, blocks[r]))
  }

  /** The range `[p, p + n)` lies inside a live block. */
  ghost predicate InLiveBlock(blocks: Blocks, p: nat, n: nat) {
    exists q :: q in blocks && q <= p && p + n <= q + blocks[q]
  }

  /** The bytes `data` stand at address `p`. */
  ghost predicate Holds(bytes: seq<Byte>, p: nat, data: seq<Byte>) {
    p + |data| <= |bytes| && forall j :: p <= j < p + |data| ==> bytes[j] == data[j - p]
  }

  /** The bytes in `[p, p + n)` are the same in `after` as in `before`. */
  predicate SameRange(before: seq<Byte>, after: seq<Byte>, p: nat, n: nat)
    requires |before| <= |after|
  {
    forall k :: p <= k < p + n && k < |before| ==> after[k] == before[k]
  }

  /** The memory has not shrunk and every byte of every block in `blocks` is unchanged. */
  predicate Kept(blocks: Blocks, before: seq<Byte>, after: seq<Byte>) {
    && |before| <= |after|
    && forall q {:trigger SameRange(before, after, q, blocks[q])} ::
         q in blocks ==> SameRange(before, after, q, blocks[q])
  }

  function Min(a: nat, b: nat): nat { if a <= b then a else b }

  /** `bytes` with `data` written over the range that starts at `p`. */
  function Overwritten(bytes: seq<Byte>, p: nat, data: seq<Byte>): (r: seq<Byte>)
    requires p + |data| <= |bytes|
    ensures |r| == |bytes|
  {
    seq(|bytes|, j requires 0 <= j < |bytes| => if p <= j < p + |data| then data[j - p] else bytes[j])
  }

  /** The `n` bytes at `q` are those that stood at `p` before. */
  ghost predicate Moved(before: seq<Byte>, p: nat, after: seq<Byte>, q: nat, n: nat) {
    && p + n <= |before| && q + n <= |after|
    && forall j :: q <= j < q + n ==> after[j] == before[j - q + p]
  }

  lemma KeptTransitive(blocks: Blocks, a: seq<Byte>, b: seq<Byte>, c: seq<Byte>)
    requires Kept(blocks, a, b) && Kept(blocks, b, c)
    ensures Kept(blocks, a, c)
  {
    forall q | q in blocks
      ensures SameRange(a, c, q, blocks[q])
    {
      assert SameRange(a, b, q, blocks[q]) && SameRange(b, c, q, blocks[q]);
    }
  }

  /** Writing inside the block at `q` disturbs none of the others. */
  lemma OverwriteKeeps(others: Blocks, q: nat, n: nat, bytes: seq<Byte>, p: nat, data: seq<Byte>)
    requires q !in others && q + n <= |bytes| && WellPlaced(others[q := n], |bytes|)
    requires q <= p && p + |data| <= q + n
    ensures Kept(others, bytes, Overwritten(bytes, p, data))
  {
    var blocks := others[q := n];
    forall b | b in others
      ensures SameRange(bytes, Overwritten(bytes, p, data), b, others[b])
    {
      assert b in blocks && q in blocks && Apart(q, blocks[q], b, blocks[b]);
    }
  }

  class Instance {
    var buffer: ArrayBuffer
    var blocks: Blocks

    /**
     Counts the stores made from JavaScript that went wrong: through a view of a detached buffer,
     past the end of the view, or outside every live block.
     */
    ghost var strays: nat

    ghost predicate Valid()
      reads this, buffer
    {
      && !buffer.detached
      && 0 < |buffer.bytes| <= ADDRESS_SPACE
      && WellPlaced(blocks, |buffer.bytes|)
    }

    /** A freshly instantiated module: some memory and no allocations. */
    constructor (initial: seq<Byte>)
      requires 0 < |initial| <= ADDRESS_SPACE
      ensures Valid() && fresh(buffer) && buffer.bytes == initial && blocks == map[]
    {
      buffer := new ArrayBuffer(initial);
      blocks := map[];
      strays := 0;
    }

    /**
     Anything wasm may do to its memory while it runs: grow it, and rewrite every byte that is not
     in a live block. Growing detaches the old buffer.
     */
    method Run()
      requires Valid()
      modifies this`buffer, buffer
      ensures Valid()
      ensures buffer == old(buffer) || (fresh(buffer) && old(buffer).detached)
      ensures buffer == old(buffer) ==> |buffer.bytes| == |old(buffer.bytes)|
      ensures Kept(blocks, old(buffer.bytes), buffer.bytes)
    {
      var before := buffer.bytes;
      assert Kept(blocks, before, before);
      var after: seq<Byte> :| |before| <= |after| <= ADDRESS_SPACE && Kept(blocks, before, after);
      if * {
        buffer.detached, buffer.bytes := true, [];
        buffer := new ArrayBuffer(after);
      } else if |after| == |before| {
        buffer.bytes := after;
      }
    }

    /** `__wbindgen_malloc`: a fresh block, or a dangling non-null pointer when nothing was asked for. */
    method Malloc(size: nat) returns (r: Outcome<Int32>)
      requires Valid()
      requires size < ADDRESS_SPACE
      modifies this`buffer, this`blocks, buffer
      ensures Valid()
      ensures buffer == old(buffer) || (fresh(buffer) && old(buffer).detached)
      ensures buffer == old(buffer) ==> |buffer.bytes| == |old(buffer.bytes)|
      ensures Kept(old(blocks), old(buffer.bytes), buffer.bytes)
      ensures !r.RangeError?
      ensures r.Trap? ==> blocks == old(blocks)
      ensures r.Ok? ==> var p := ToUint32(r.value);
                        && 0 < p && p + size <= |buffer.bytes|
                        && p !in old(blocks)
                        && blocks == if size == 0 then old(blocks) else old(blocks)[p := size]
    {
      Run();
      if * {
        return Trap;
      }
      if p: nat :| 0 < p < ADDRESS_SPACE && p + size <= |buffer.bytes| && p !in blocks
                   && (size == 0 || WellPlaced(blocks[p := size], |buffer.bytes|)) {
        if size > 0 {
          blocks := blocks[p := size];
        }
        return Ok(AsInt32(p));
      }
      r := Trap;
    }

    /**
     `__wbindgen_realloc`: resizes a live block, possibly moving it; the common prefix is preserved.
     The Rust allocator demands the exact current size and forbids a new size of zero. Sizes reach
     wasm as 32-bit integers, so neither method may be asked for 2^32 bytes or more.
     */
    method Realloc(p: nat, oldSize: nat, newSize: nat) returns (r: Outcome<Int32>)
      requires Valid()
      requires p in blocks && blocks[p] == oldSize && 0 < newSize < ADDRESS_SPACE
      modifies this`buffer, this`blocks, buffer
      ensures Valid()
      ensures buffer == old(buffer) || (fresh(buffer) && old(buffer).detached)
      ensures buffer == old(buffer) ==> |buffer.bytes| == |old(buffer.bytes)|
      ensures Kept(old(blocks) - {p}, old(buffer.bytes), buffer.bytes)
      ensures !r.RangeError?
      ensures r.Trap? ==> blocks == old(blocks)
      ensures r.Ok? ==> var q := ToUint32(r.value);
                        && q + newSize <= |buffer.bytes|
                        && q !in old(blocks) - {p}
                        && blocks == (old(blocks) - {p})[q := newSize]
                        && Moved(old(buffer.bytes), p, buffer.bytes, q, Min(oldSize, newSize))
    {
      ghost var before := buffer.bytes;
      Run();
      ghost var here := buffer.bytes;
      r := Relocate(p, oldSize, newSize);
      KeptTransitive(old(blocks) - {p}, before, here, buffer.bytes);
      assert SameRange(before, here, p, oldSize);
    }

    /** The part of `Realloc` that picks a place and copies, or gives up. */
    method Relocate(p: nat, oldSize: nat, newSize: nat) returns (r: Outcome<Int32>)
      requires Valid()
      requires p in blocks && blocks[p] == oldSize && 0 < newSize
      modifies this`blocks, buffer`bytes
      ensures Valid()
      ensures |buffer.bytes| == |old(buffer.bytes)|
      ensures Kept(old(blocks) - {p}, old(buffer.bytes), buffer.bytes)
      ensures !r.RangeError?
      ensures r.Trap? ==> blocks == old(blocks) && buffer.bytes == old(buffer.bytes)
      ensures r.Ok? ==> var q := ToUint32(r.value);
                        && q + newSize <= |buffer.bytes|
                        && q !in old(blocks) - {p}
                        && blocks == (old(blocks) - {p})[q := newSize]
                        && Moved(old(buffer.bytes), p, buffer.bytes, q, Min(oldSize, newSize))
    {
      var rest := blocks - {p};
      var here := buffer.bytes;
      var prefix := here[p..p + Min(oldSize, newSize)];
      if q: nat :| 0 < q < ADDRESS_SPACE && q + newSize <= |here| && q !in rest
                   && WellPlaced(rest[q := newSize], |here|) {
        if * {
          OverwriteKeeps(rest, q, newSize, here, q, prefix);
          buffer.bytes := Overwritten(here, q, prefix);
          blocks := rest[q := newSize];
          return Ok(AsInt32(q));
        }
      }
      r := Trap;
    }

    // ---------------------------------------------------------------- stores from JavaScript

    /** `view[i] = x`: a store past the end of the view, or into a detached buffer, is dropped. */
    method StoreElement(view: Uint8Array, i: nat, x: Byte)
      modifies view.buffer`bytes, this`strays
      ensures var at := view.offset + i;
              var good := i < view.ByteLength() && at < |old(view.buffer.bytes)|;
              && view.buffer.bytes == (if good then old(view.buffer.bytes)[at := x] else old(view.buffer.bytes))
              && strays == if good && view.buffer == buffer && InLiveBlock(blocks, at, 1) then old(strays)
                           else old(strays) + 1
    {
      var at := view.offset + i;
      var good := i < view.ByteLength() && at < |view.buffer.bytes|;
      ghost var ok := good && view.buffer == buffer && InLiveBlock(blocks, at, 1);
      if good {
        view.buffer.bytes := view.buffer.bytes[at := x];
      }
      if !ok {
        strays := strays + 1;
      }
    }

    /** `view.set(data)`: throws a RangeError, writing nothing, when `data` does not fit. */
    method StoreAll(view: Uint8Array, data: seq<Byte>) returns (fits: bool)
      modifies view.buffer`bytes, this`strays
      ensures var at := view.offset;
              && fits == (|data| <= view.ByteLength() && at + |data| <= |old(view.buffer.bytes)|)
              && view.buffer.bytes == (if fits then Overwritten(old(view.buffer.bytes), at, data)
                                       else old(view.buffer.bytes))
              && strays == if !fits || data == [] || (view.buffer == buffer && InLiveBlock(blocks, at, |data|))
                           then old(strays) else old(strays) + 1
    {
      var at := view.offset;
      fits := |data| <= view.ByteLength() && at + |data| <= |view.buffer.bytes|;
      ghost var ok := !fits || data == [] || (view.buffer == buffer && InLiveBlock(blocks, at, |data|));
      if fits {
        view.buffer.bytes := Overwritten(view.buffer.bytes, at, data);
      }
      if !ok {
        strays := strays + 1;
      }
    }

    /**
     `view.setInt32(at, x, true)` on a view of a whole buffer: throws a RangeError, writing nothing, when
     the offset is negative or the four bytes do not fit.
     */
    method SetInt32(view: DataView, at: int, x: int) returns (fits: bool)
      modifies view.buffer`bytes, this`strays
      ensures fits == (!view.buffer.detached && 0 <= at && at + 4 <= |old(view.buffer.bytes)|)
      ensures view.buffer.bytes == if fits then Overwritten(old(view.buffer.bytes), at, LittleEndian(x))
                                   else old(view.buffer.bytes)
      ensures strays == if !fits || (view.buffer == buffer && InLiveBlock(blocks, at, 4)) then old(strays)
                        else old(strays) + 1
    {
      fits := !view.buffer.detached && 0 <= at && at + 4 <= |view.buffer.bytes|;
      ghost var ok := !fits || (view.buffer == buffer && InLiveBlock(blocks, at, 4));
      if fits {
        view.buffer.bytes := Overwritten(view.buffer.bytes, at, LittleEndian(x));
      }
      if !ok {
        strays := strays + 1;
      }
    }
  }
}
