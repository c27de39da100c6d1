/**
 The JavaScript side of the query compiler's string passing (`query_compiler_bg.js`): the cached
 views `a` and `u`, the string writers `l`, `k`/`V` and `J`, and the string readers `R` and `m`.

 Field names follow the minified source: `o` is the wasm instance, `p` and `b` are the cached views,
 `f` is the length of the last string passed, `y` is the decoder and `S` the bytes it has been given.
 */
module StringPassing {
  import opened Options
  import opened Unicode
  import opened Transcoding
  import opened LinearMemory

  /** Bytes a decoder may be handed before it is replaced (`U` in the source). */
  const DECODER_BUDGET: nat := 2146435072

  /** What `decode` gives: it throws for malformed bytes, and for text longer than the engine can hold. */
  function Decoded(bytes: seq<Byte>): Option<JsString> {
    match Decode(bytes)
    case None => None
    case Some(t) => if |t| <= MAX_STRING_LENGTH then Some(t) else None
  }

  /** `decode` returns a text exactly for its encoding, and throws for all else that encodes no text it can hold. */
  lemma DecodedExactly(bytes: seq<Byte>, t: JsString)
    ensures Decoded(bytes) == Some(t) <==> WellFormed(t) && Encode(t) == bytes
  {
    DecodeExactly(bytes, t);
  }

  class TextDecoder {
    /** The lengths of the blocks this decoder has been given, in order. */
    ghost var fed: seq<nat>

    constructor ()
      ensures fed == []
    {
      fed := [];
    }

    method DecodeBlock(bytes: seq<Byte>) returns (r: Option<JsString>)
      modifies this
      ensures fed == old(fed) + [|bytes|]
      ensures r == Decoded(bytes)
    {
      fed := fed + [|bytes|];
      r := Decoded(bytes);
    }
  }

  ghost function Sum(lengths: seq<nat>): nat {
    if lengths == [] then 0 else Sum(lengths[..|lengths| - 1]) + lengths[|lengths| - 1]
  }

  /** Each replaced decoder is paid for by at least half a budget of bytes decoded. */
  ghost predicate ReplacementsPaidFor(replaced: nat, current: nat, total: nat) {
    replaced * 2146435072 + current <= 2 * total
  }

  lemma SumAppend(lengths: seq<nat>, t: nat)
    ensures Sum(lengths + [t]) == Sum(lengths) + t
  {
    assert (lengths + [t])[..|lengths|] == lengths;
  }

  /** The unsigned 32-bit integer wasm loads from address `at`. */
  ghost function Load32(bytes: seq<Byte>, at: nat): int
    requires at + 4 <= |bytes|
  {
    var b0: int, b1: int, b2: int, b3: int := bytes[at], bytes[at + 1], bytes[at + 2], bytes[at + 3];
    b0 + b1 * 0x100 + b2 * 0x1_0000 + b3 * 0x100_0000
  }

  /** `later` has every block of `earlier`, with its size. */
  ghost predicate Extends(earlier: Blocks, later: Blocks) {
    forall q :: q in earlier ==> q in later && later[q] == earlier[q]
  }

  lemma OverwriteTwice(bytes: seq<Byte>, p: nat, x: seq<Byte>, y: seq<Byte>)
    requires p + |x| + |y| <= |bytes|
    ensures Overwritten(Overwritten(bytes, p, x), p + |x|, y) == Overwritten(bytes, p, x + y)
  {
  }

  lemma OverwriteOne(bytes: seq<Byte>, p: nat, x: seq<Byte>, i: Byte)
    requires p + |x| < |bytes|
    ensures Overwritten(bytes, p, x)[p + |x| := i] == Overwritten(bytes, p, x + [i])
  {
  }

  /** Data survives the move of the block it stands in. */
  lemma HoldsMoved(before: seq<Byte>, p: nat, data: seq<Byte>, after: seq<Byte>, q: nat, n: nat)
    requires Holds(before, p, data) && Moved(before, p, after, q, n) && |data| <= n
    ensures Holds(after, q, data)
  {
  }

  lemma EncodeHead(s: seq<CodeUnit>)
    requires s != []
    ensures Encode(s[..HeadWidth(s)]) == Utf8(HeadScalar(s))
  {
    var head := s[..HeadWidth(s)];
    assert HeadWidth(head) == HeadWidth(s) && HeadScalar(head) == HeadScalar(s) && head[HeadWidth(head)..] == [];
    assert Encode(head) == Utf8(HeadScalar(s)) + Encode([]);
  }

  /** `read` falls between two code points of `s`. */
  ghost predicate Boundary(s: seq<CodeUnit>, read: nat) {
    read <= |s| && !SplitsPair(s[..read], s[read..])
  }

  /** The code point at a boundary can be encoded on its own, and ends at a boundary again. */
  lemma EncodeStep(s: seq<CodeUnit>, read: nat)
    requires Boundary(s, read) && read < |s|
    ensures var w := HeadWidth(s[read..]);
            && Boundary(s, read + w)
            && Encode(s[..read + w]) == Encode(s[..read]) + Utf8(HeadScalar(s[read..]))
  {
    var tail := s[read..];
    var head := tail[..HeadWidth(tail)];
    assert s[..read + |head|] == s[..read] + head;
    EncodeConcat(s[..read], head);
    EncodeHead(tail);
  }

  /** A prefix that ends at a boundary is encoded to a prefix, and a shorter one leaves a code point to encode. */
  lemma PrefixFits(s: seq<CodeUnit>, read: nat)
    requires Boundary(s, read)
    ensures read == |s| ==> s[..read] == s
    ensures read < |s| ==> |Encode(s)| >= |Encode(s[..read])| + |Utf8(HeadScalar(s[read..]))|
  {
    assert s[..read] + s[read..] == s;
    EncodeConcat(s[..read], s[read..]);
  }

  class Glue {
    const o: Instance
    /** Whether the engine's `TextEncoder` has `encodeInto`; otherwise the module installs its own. */
    const hasEncodeInto: bool
    /** Whether the engine's buffers have a `detached` property. */
    const reportsDetached: bool

    var p: Option<Uint8Array>
    var b: Option<DataView>
    var f: nat
    var y: TextDecoder
    var S: nat

    /** Bytes handed to all decoders so far, and how many decoders have been replaced. */
    ghost var total: nat
    ghost var replaced: nat

    ghost function Cached(): set<object>
      reads this
    {
      (if p.Some? then {p.value.buffer} else {}) + (if b.Some? then {b.value.buffer} else {})
    }

    /** A cached view is over the current memory, all of it, or over a buffer that growth has detached. */
    ghost predicate CachesValid()
      reads this, o, o.buffer, Cached()
    {
      && (p.Some? ==> p.value.buffer.detached || p.value == Uint8Array(o.buffer, 0, |o.buffer.bytes|))
      && (b.Some? ==> b.value.buffer.detached || b.value.buffer == o.buffer)
    }

    ghost predicate BudgetValid()
      reads this, y
    {
      && S == Sum(y.fed)
      && (S < DECODER_BUDGET || |y.fed| == 1)
      && ReplacementsPaidFor(replaced, S, total)
    }

    ghost predicate Valid()
      reads this, o, o.buffer, Cached(), y
    {
      o.Valid() && CachesValid() && BudgetValid() && f < ADDRESS_SPACE
    }

    constructor (instance: Instance, hasEncodeInto: bool, reportsDetached: bool)
      requires instance.Valid()
      ensures Valid() && o == instance && f == 0
    {
      o := instance;
      this.hasEncodeInto, this.reportsDetached := hasEncodeInto, reportsDetached;
      p, b, f, S, total, replaced := None, None, 0, 0, 0, 0;
      y := new TextDecoder();
    }

    // ---------------------------------------------------------------- cached views

    /** `a()`: a byte view of the whole current memory, made anew when the cached one has died. */
    method ByteView() returns (v: Uint8Array)
      requires o.Valid() && CachesValid()
      modifies this`p
      ensures CachesValid()
      ensures v == Uint8Array(o.buffer, 0, |o.buffer.bytes|)
    {
      if p.None? || p.value.ByteLength() == 0 {
        p := Some(Uint8Array(o.buffer, 0, |o.buffer.bytes|));
      }
      v := p.value;
    }

    /** `u()`: a data view of the current memory, in engines with and without `detached`. */
    method WordView() returns (v: DataView)
      requires Valid()
      modifies this`b
      ensures Valid()
      ensures v == DataView(o.buffer)
    {
      if || b.None?
         || (reportsDetached && b.value.buffer.detached)
         || (!reportsDetached && b.value.buffer != o.buffer) {
        b := Some(DataView(o.buffer));
      }
      v := b.value;
    }

    // ---------------------------------------------------------------- encodeInto

    /** The view is over current memory and lies inside a live block. */
    ghost predicate Writable(view: Uint8Array)
      reads o, o.buffer
    {
      && view.buffer == o.buffer && !o.buffer.detached
      && view.offset + view.length <= |o.buffer.bytes|
      && InLiveBlock(o.blocks, view.offset, view.length)
    }

    method WritePoint(view: Uint8Array, at: nat, point: seq<Byte>)
      requires Writable(view)
      requires at + |point| <= view.length
      modifies o.buffer`bytes, o`strays
      ensures o.buffer.bytes == Overwritten(old(o.buffer.bytes), view.offset + at, point)
      ensures o.strays == old(o.strays)
    {
      assert InLiveBlock(o.blocks, view.offset + at, |point|);
      var fits := o.StoreAll(view.Subarray(at, at + |point|), point);
    }

    /** The engine's `encodeInto`: writes whole code points while they fit. */
    method NativeEncodeInto(s: seq<CodeUnit>, view: Uint8Array) returns (read: nat, written: nat)
      requires Writable(view)
      modifies o.buffer`bytes, o`strays
      ensures Boundary(s, read)
      ensures written == |Encode(s[..read])| <= view.length
      ensures o.buffer.bytes == Overwritten(old(o.buffer.bytes), view.offset, Encode(s[..read]))
      ensures read < |s| ==> view.length < written + |Utf8(HeadScalar(s[read..]))|
      ensures o.strays == old(o.strays)
    {
      hide Utf8, HeadScalar;
      read, written := 0, 0;
      ghost var start, out := o.buffer.bytes, [];
      assert Overwritten(start, view.offset, out) == start;
      while read < |s|
        invariant Writable(view) && Boundary(s, read)
        invariant out == Encode(s[..read])
        invariant written == |out| <= view.length
        invariant o.buffer.bytes == Overwritten(start, view.offset, out)
        invariant o.strays == old(o.strays)
      {
        var point := Utf8(HeadScalar(s[read..]));
        if view.length < written + |point| {
          break;
        }
        WritePoint(view, written, point);
        OverwriteTwice(start, view.offset, out, point);
        EncodeStep(s, read);
        out := out + point;
        read, written := read + HeadWidth(s[read..]), written + |point|;
      }
    }

    /** The module's own `encodeInto`, for engines without one: no room check, so `set` may throw. */
    method PolyfillEncodeInto(s: seq<CodeUnit>, view: Uint8Array) returns (r: Outcome<(nat, nat)>)
      requires Writable(view)
      modifies o.buffer`bytes, o`strays
      ensures |Encode(s)| <= view.length ==>
                && r == Ok((|s|, |Encode(s)|))
                && o.buffer.bytes == Overwritten(old(o.buffer.bytes), view.offset, Encode(s))
      ensures view.length < |Encode(s)| ==> r == RangeError && o.buffer.bytes == old(o.buffer.bytes)
      ensures o.strays == old(o.strays)
    {
      var n := Encode(s);
      var fits := o.StoreAll(view, n);
      if !fits {
        return RangeError;
      }
      r := Ok((|s|, |n|));
    }

    /** Whichever `encodeInto` is installed; where the string fits, the two cannot be told apart. */
    method EncodeInto(s: seq<CodeUnit>, view: Uint8Array) returns (r: Outcome<(nat, nat)>)
      requires Writable(view)
      modifies o.buffer`bytes, o`strays
      ensures |Encode(s)| <= view.length ==>
                && r == Ok((|s|, |Encode(s)|))
                && o.buffer.bytes == Overwritten(old(o.buffer.bytes), view.offset, Encode(s))
      ensures view.length < |Encode(s)| ==>
                if hasEncodeInto then r.Ok? && r.value.0 < |s| else r == RangeError
      ensures o.strays == old(o.strays)
    {
      hide Encode, Utf8, HeadScalar, Overwritten, InLiveBlock;
      if hasEncodeInto {
        var read, written := NativeEncodeInto(s, view);
        PrefixFits(s, read);
        r := Ok((read, written));
      } else {
        r := PolyfillEncodeInto(s, view);
      }
    }

    // ---------------------------------------------------------------- passing a string to wasm

    /** Calls `__wbindgen_malloc` and reads the pointer it returns as unsigned. */
    method Allocate(size: nat) returns (r: Outcome<nat>)
      requires Valid() && size < ADDRESS_SPACE
      modifies o`buffer, o`blocks, o.buffer
      ensures Valid()
      ensures o.buffer == old(o.buffer) || (fresh(o.buffer) && old(o.buffer).detached)
      ensures Kept(old(o.blocks), old(o.buffer.bytes), o.buffer.bytes)
      ensures r.Ok? || r.Trap?
      ensures r.Trap? ==> o.blocks == old(o.blocks)
      ensures r.Ok? ==> && 0 < r.value < ADDRESS_SPACE && r.value + size <= |o.buffer.bytes|
                        && r.value !in old(o.blocks)
                        && o.blocks == if size == 0 then old(o.blocks) else old(o.blocks)[r.value := size]
    {
      var m := o.Malloc(size);
      r := if m.Ok? then Ok(ToUint32(m.value)) else Trap;
    }

    /**
     Calls `__wbindgen_realloc` and reads the pointer it returns as unsigned. `others` are the live
     blocks besides the one being resized.
     */
    method Reallocate(q: nat, oldSize: nat, newSize: nat, ghost others: Blocks) returns (r: Outcome<nat>)
      requires Valid()
      requires q !in others && o.blocks == others[q := oldSize] && 0 < newSize < ADDRESS_SPACE
      modifies o`buffer, o`blocks, o.buffer
      ensures Valid()
      ensures o.buffer == old(o.buffer) || (fresh(o.buffer) && old(o.buffer).detached)
      ensures Kept(others, old(o.buffer.bytes), o.buffer.bytes)
      ensures r.Ok? || r.Trap?
      ensures r.Trap? ==> o.blocks == old(o.blocks)
      ensures r.Ok? ==> && 0 < r.value < ADDRESS_SPACE && r.value + newSize <= |o.buffer.bytes|
                        && r.value !in others && o.blocks == others[r.value := newSize]
                        && Moved(old(o.buffer.bytes), q, o.buffer.bytes, r.value, Min(oldSize, newSize))
    {
      assert o.blocks - {q} == others;
      var m := o.Realloc(q, oldSize, newSize);
      r := if m.Ok? then Ok(ToUint32(m.value)) else Trap;
      assert r.Ok? ==> r.value in o.blocks;
    }

    /** The ASCII loop of `l`: copies code units until the first one above 127. */
    method CopyAscii(s: Uint8Array, r: nat, e: seq<CodeUnit>) returns (c: nat)
      requires s == Uint8Array(o.buffer, 0, |o.buffer.bytes|) && r + |e| <= |o.buffer.bytes|
      requires e != [] ==> Writable(Uint8Array(o.buffer, r, |e|))
      modifies o.buffer`bytes, o`strays
      ensures o.strays == old(o.strays)
      ensures c <= |e| && IsAscii(e[..c]) && (c < |e| ==> e[c] > 127)
      ensures |Encode(e[..c])| == c
      ensures o.buffer.bytes == Overwritten(old(o.buffer.bytes), r, Encode(e[..c]))
    {
      c := 0;
      ghost var start, out := o.buffer.bytes, [];
      assert Overwritten(start, r, out) == start;
      while c < |e|
        invariant c <= |e| && IsAscii(e[..c])
        invariant |out| == c && out == Encode(e[..c])
        invariant o.buffer.bytes == Overwritten(start, r, out)
        invariant o.strays == old(o.strays)
      {
        var i := e[c];
        if i > 127 {
          break;
        }
        assert InLiveBlock(o.blocks, r + c, 1);
        o.StoreElement(s, r + c, i);
        OverwriteOne(start, r, out, i);
        AsciiStep(e, c);
        out := out + [i];
        c := c + 1;
      }
    }

    /** Encodes the rest of `e` behind its first `c` bytes, in a block with room for the worst case. */
    method WriteTail(e: JsString, c: nat, rest: seq<CodeUnit>, q: nat, capacity: nat, ghost others: Blocks)
      returns (written: nat)
      requires Valid() && c < |e| && IsAscii(e[..c]) && rest == e[c..] && capacity == c + |rest| * 3
      requires q !in others && o.blocks == others[q := capacity] && Holds(o.buffer.bytes, q, Encode(e[..c]))
      modifies this`p, o`strays, o.buffer`bytes
      ensures Valid() && o.strays == old(o.strays)
      ensures c + written == |Encode(e)| <= capacity
      ensures Holds(o.buffer.bytes, q, Encode(e))
      ensures Kept(others, old(o.buffer.bytes), o.buffer.bytes)
    {
      hide Encode, Holds, Kept, IsAscii;
      ghost var before := o.buffer.bytes;
      var view := ByteView();
      assert q in o.blocks;
      var room := view.Subarray(q + c, q + capacity);
      TailFits(e, c);
      var encoded := EncodeInto(rest, room);
      written := encoded.value.1;
      TailWritten(e, c, before, q);
      OverwriteKeeps(others, q, capacity, before, q + c, Encode(rest));
    }

    /** The first half of `l`'s tail: grow the block for the worst case and encode behind the prefix. */
    method GrowAndWrite(e: JsString, r: nat, c: nat, ghost others: Blocks)
      returns (q: Outcome<nat>, capacity: nat, written: nat)
      requires Valid() && c < |e| && IsAscii(e[..c])
      requires r !in others && o.blocks == others[r := |e|] && Holds(o.buffer.bytes, r, Encode(e[..c]))
      modifies this`p, o`buffer, o`blocks, o`strays, o.buffer
      ensures Valid() && o.strays == old(o.strays)
      ensures o.buffer == old(o.buffer) || (fresh(o.buffer) && old(o.buffer).detached)
      ensures Kept(others, old(o.buffer.bytes), o.buffer.bytes)
      ensures q.Ok? || q.Trap?
      ensures q.Trap? ==> o.blocks == old(o.blocks)
      ensures q.Ok? ==> && q.value !in others && o.blocks == others[q.value := capacity]
                        && Holds(o.buffer.bytes, q.value, Encode(e))
                        && c + written == |Encode(e)| <= capacity
    {
      ghost var before := o.buffer.bytes;
      var rest := if c != 0 then e[c..] else e;
      capacity, written := c + |rest| * 3, 0;
      TailFits(e, c);
      q := Reallocate(r, |e|, capacity, others);
      if !q.Ok? {
        return;
      }
      ghost var grown := o.buffer.bytes;
      HoldsMoved(before, r, Encode(e[..c]), grown, q.value, |e|);
      written := WriteTail(e, c, rest, q.value, capacity, others);
      KeptTransitive(others, before, grown, o.buffer.bytes);
    }

    /**
     The rest of `l`, entered when the ASCII loop stopped early: grow the block for the worst case,
     encode what is left behind the prefix, and give the surplus back.
     */
    method EncodeTail(e: JsString, r: nat, c: nat, ghost others: Blocks) returns (q: Outcome<nat>, length: nat)
      requires Valid() && c < |e| && IsAscii(e[..c])
      requires r !in others && o.blocks == others[r := |e|] && Holds(o.buffer.bytes, r, Encode(e[..c]))
      modifies this`p, o`buffer, o`blocks, o`strays, o.buffer
      ensures Valid() && o.strays == old(o.strays)
      ensures o.buffer == old(o.buffer) || (fresh(o.buffer) && old(o.buffer).detached)
      ensures Kept(others, old(o.buffer.bytes), o.buffer.bytes)
      ensures q.Ok? || q.Trap?
      ensures q.Trap? ==> Extends(others, o.blocks)
      ensures q.Ok? ==> && 0 < q.value < ADDRESS_SPACE && length == |Encode(e)|
                        && q.value !in others && o.blocks == others[q.value := length]
                        && Holds(o.buffer.bytes, q.value, Encode(e))
    {
      hide Encode, Kept, Holds, WellPlaced, IsAscii;
      ghost var before := o.buffer.bytes;
      TailFits(e, c);
      var grown, capacity, written := GrowAndWrite(e, r, c, others);
      length := c + written;
      if !grown.Ok? {
        return grown, length;
      }
      ghost var full := o.buffer.bytes;
      q := Reallocate(grown.value, capacity, length, others);
      KeptTransitive(others, before, full, o.buffer.bytes);
      if q.Ok? {
        HoldsMoved(full, grown.value, Encode(e), o.buffer.bytes, q.value, |Encode(e)|);
      }
    }

    /**
     What `l` leaves behind when it succeeds: `f` bytes at `ptr`, in a block of exactly that size that
     no earlier block overlaps, spelling the encoding of `e`. The empty string owns no block.
     */
    ghost predicate Passed(e: JsString, ptr: nat, earlier: Blocks)
      reads this, o, o.buffer
    {
      && f == |Encode(e)| && 0 < ptr < ADDRESS_SPACE && ptr !in earlier
      && o.blocks == (if e == [] then earlier else earlier[ptr := f])
      && Holds(o.buffer.bytes, ptr, Encode(e))
    }

    /** The branch of `l` taken without a `realloc` argument: encode, then allocate the exact size. */
    method PassWhole(e: JsString) returns (d: Outcome<nat>)
      requires Valid()
      modifies this`p, this`f, o`buffer, o`blocks, o`strays, o.buffer
      ensures Valid() && o.strays == old(o.strays)
      ensures o.buffer == old(o.buffer) || (fresh(o.buffer) && old(o.buffer).detached)
      ensures Kept(old(o.blocks), old(o.buffer.bytes), o.buffer.bytes)
      ensures d.Ok? || d.Trap?
      ensures d.Ok? ==> Passed(e, d.value, old(o.blocks))
      ensures d.Trap? ==> f == old(f) && o.blocks == old(o.blocks)
    {
      hide Encode, Holds, Kept;
      ghost var earlier, before := o.blocks, o.buffer.bytes;
      var i := Encode(e);
      EncodeLength(e);
      d := Allocate(|i|);
      if !d.Ok? {
        return;
      }
      ghost var obtained := o.buffer.bytes;
      assert i != [] ==> d.value in o.blocks;
      var view := ByteView();
      var fits := o.StoreAll(view.Subarray(d.value, d.value + |i|), i);
      if !fits {
        return RangeError;
      }
      f := |i|;
      WriteKept(earlier, o.blocks, before, obtained, d.value, i);
    }

    /**
     `l`: copies a string into wasm memory. `growable` says whether the caller passed `realloc`; both
     branches leave the same bytes, in a block of the same size.
     */
    method PassString(e: JsString, growable: bool) returns (r: Outcome<nat>)
      requires Valid()
      modifies this`p, this`f, o`buffer, o`blocks, o`strays, o.buffer
      ensures Valid() && o.strays == old(o.strays)
      ensures o.buffer == old(o.buffer) || (fresh(o.buffer) && old(o.buffer).detached)
      ensures Kept(old(o.blocks), old(o.buffer.bytes), o.buffer.bytes)
      ensures r.Ok? || r.Trap?
      ensures r.Ok? ==> Passed(e, r.value, old(o.blocks))
      ensures r.Trap? ==> f == old(f) && Extends(old(o.blocks), o.blocks)
    {
      hide Encode, Kept, Holds, WellPlaced, Overwritten, IsAscii;
      EncodeLength(e);
      if !growable {
        r := PassWhole(e);
        return;
      }
      ghost var earlier, before := o.blocks, o.buffer.bytes;
      r := Allocate(|e|);
      if !r.Ok? {
        return;
      }
      ghost var obtained := o.buffer.bytes;
      assert e != [] ==> r.value in o.blocks;
      var s := ByteView();
      var c := CopyAscii(s, r.value, e);
      ghost var copied := o.buffer.bytes;
      WriteKept(earlier, o.blocks, before, obtained, r.value, Encode(e[..c]));
      if c != |e| {
        r, c := EncodeTail(e, r.value, c, earlier);
        KeptTransitive(earlier, before, copied, o.buffer.bytes);
        if !r.Ok? {
          return;
        }
      } else {
        assert e[..c] == e;
      }
      f := c;
    }

    // ---------------------------------------------------------------- returning a string to wasm

    /**
     Writes a length and then a pointer into the eight bytes wasm reserved at address `e`, inside the
     block `area`. Each store asks for the view again. The address is used as wasm passes it, so one in
     the upper half of the memory is negative and the first store throws.
     */
    method ReturnPair(e: Int32, ptr: int, len: int, ghost area: nat) returns (r: Outcome<()>)
      requires Valid() && 0 <= ptr < ADDRESS_SPACE && 0 <= len < ADDRESS_SPACE
      requires InArea(e, area)
      modifies this`b, o.buffer`bytes, o`strays
      ensures Valid() && o.strays == old(o.strays)
      ensures r == if 0 <= e then Ok(()) else RangeError
      ensures |o.buffer.bytes| == |old(o.buffer.bytes)|
      ensures r.Ok? ==> && e + 8 <= |o.buffer.bytes|
                        && Load32(o.buffer.bytes, e) == ptr && Load32(o.buffer.bytes, e + 4) == len
      ensures r.Ok? ==> SameBut(old(o.buffer.bytes), o.buffer.bytes, e)
      ensures r.RangeError? ==> o.buffer.bytes == old(o.buffer.bytes)
    {
      hide Load32, LittleEndian;
      ghost var before := o.buffer.bytes;
      if 0 <= e {
        assert InLiveBlock(o.blocks, e + 4, 4) && InLiveBlock(o.blocks, e, 4);
      }
      var view := WordView();
      var fits := o.SetInt32(view, e + 4, len);
      if !fits {
        return RangeError;
      }
      ghost var half := o.buffer.bytes;
      view := WordView();
      fits := o.SetInt32(view, e, ptr);
      if !fits {
        return RangeError;
      }
      PairStored(before, half, o.buffer.bytes, e, ptr, len);
      r := Ok(());
    }

    /** The eight bytes wasm reserved at the address it passes as `e` lie in the live block `area`. */
    ghost predicate InArea(e: Int32, area: nat)
      reads o
    {
      area in o.blocks && area <= ToUint32(e) && ToUint32(e) + 8 <= area + o.blocks[area]
    }

    /**
     `k` and `V`: pass a string and report its address and length in the return area at `e`. When nothing
     traps, this succeeds exactly if the area lies below 2^31. Otherwise it throws, but only after the
     string has been passed: its block stays allocated, `f` is its length, and no byte of the area has changed.
     */
    method ReturnString(e: Int32, n: JsString, ghost area: nat) returns (r: Outcome<nat>, ghost ptr: nat)
      requires Valid() && InArea(e, area)
      modifies this`p, this`b, this`f, o`buffer, o`blocks, o`strays, o.buffer
      ensures Valid() && o.strays == old(o.strays)
      ensures o.buffer == old(o.buffer) || (fresh(o.buffer) && old(o.buffer).detached)
      ensures Kept(old(o.blocks) - {area}, old(o.buffer.bytes), o.buffer.bytes)
      ensures !r.Trap? ==> (r.Ok? <==> 0 <= e)
      ensures r.Ok? ==> r.value == ptr && e + 8 <= |o.buffer.bytes|
                        && Load32(o.buffer.bytes, e) == ptr && Load32(o.buffer.bytes, e + 4) == |Encode(n)|
      ensures r.RangeError? ==> Kept(old(o.blocks), old(o.buffer.bytes), o.buffer.bytes)
      ensures !r.Trap? ==> Passed(n, ptr, old(o.blocks))
      ensures r.Trap? ==> f == old(f) && Extends(old(o.blocks), o.blocks)
    {
      hide Encode, Kept, Holds, WellPlaced, Overwritten;
      ghost var earlier, before := o.blocks, o.buffer.bytes;
      var passed := PassString(n, true);
      KeptWithout(earlier, area, before, o.buffer.bytes);
      ptr := 0;
      if !passed.Ok? {
        return Trap, ptr;
      }
      ghost var bytes, blocks := o.buffer.bytes, o.blocks;
      PassedExtends(earlier, passed.value, blocks, f);
      EncodeLength(n);
      ptr := passed.value;
      var stored := ReturnPair(e, passed.value, f, area);
      if stored.RangeError? {
        return RangeError, ptr;
      }
      PairKept(earlier, area, blocks, before, bytes, o.buffer.bytes, e);
      PairMisses(earlier, area, blocks, bytes, o.buffer.bytes, e, ptr, Encode(n));
      r := Ok(passed.value);
    }

    /**
     `J`: like `k`, but an absent string is reported as address 0, next to whatever length was passed last,
     and then nothing is allocated even if the report throws.
     */
    method ReturnOptionalString(e: Int32, n: Option<JsString>, ghost area: nat)
      returns (r: Outcome<nat>, ghost ptr: nat)
      requires Valid() && InArea(e, area)
      modifies this`p, this`b, this`f, o`buffer, o`blocks, o`strays, o.buffer
      ensures Valid() && o.strays == old(o.strays)
      ensures Kept(old(o.blocks) - {area}, old(o.buffer.bytes), o.buffer.bytes)
      ensures !r.Trap? ==> (r.Ok? <==> 0 <= e)
      ensures r.Ok? ==> e + 8 <= |o.buffer.bytes|
                        && Load32(o.buffer.bytes, e) == r.value && Load32(o.buffer.bytes, e + 4) == f
                        && (r.value == 0 <==> n.None?)
      ensures r.RangeError? ==> Kept(old(o.blocks), old(o.buffer.bytes), o.buffer.bytes)
      ensures n.Some? && !r.Trap? ==> Passed(n.value, ptr, old(o.blocks)) && (r.Ok? ==> r.value == ptr)
      ensures n.None? ==> !r.Trap? && f == old(f) && o.blocks == old(o.blocks)
    {
      hide Encode, Kept, Holds, WellPlaced, Overwritten;
      if n.Some? {
        r, ptr := ReturnString(e, n.value, area);
        return;
      }
      ghost var blocks, before := o.blocks, o.buffer.bytes;
      KeptItself(blocks, before);
      KeptWithout(blocks, area, before, before);
      ptr := 0;
      var stored := ReturnPair(e, 0, f, area);
      if stored.RangeError? {
        return RangeError, ptr;
      }
      PairKept(blocks, area, blocks, before, before, o.buffer.bytes, e);
      r := Ok(0);
    }

    /**
     The failing case on its own: a live return area at 2^31, where addresses turn negative, is enough
     for `k` never to succeed, whatever the string.
     */
    method ReturnToUpperHalf(n: JsString) returns (r: Outcome<nat>)
      requires Valid() && 0x8000_0000 in o.blocks && 8 <= o.blocks[0x8000_0000]
      modifies this`p, this`b, this`f, o`buffer, o`blocks, o`strays, o.buffer
      ensures Valid()
      ensures r.Trap? || (r.RangeError? && f == |Encode(n)|)
      ensures r.RangeError? && n != [] ==>
                exists ptr :: && ptr !in old(o.blocks) && o.blocks == old(o.blocks)[ptr := f]
                              && Holds(o.buffer.bytes, ptr, Encode(n))
    {
      hide Encode, Kept, Holds, WellPlaced, Overwritten;
      ghost var ptr;
      r, ptr := ReturnString(AsInt32(0x8000_0000), n, 0x8000_0000);
    }

    // ---------------------------------------------------------------- reading a string from wasm

    /** The accounting in `R`: count `t` bytes, and start a new decoder when the budget is used up. */
    method ChargeBudget(t: nat)
      requires BudgetValid()
      modifies this`S, this`y, this`total, this`replaced
      ensures total == old(total) + t
      ensures S == Sum(y.fed) + t
      ensures S < DECODER_BUDGET || y.fed == []
      ensures ReplacementsPaidFor(replaced, S, total)
      ensures if old(S) + t < DECODER_BUDGET
              then y == old(y) && replaced == old(replaced)
              else fresh(y) && y.fed == [] && replaced == old(replaced) + 1
    {
      S, total := S + t, total + t;
      if S >= DECODER_BUDGET {
        y := new TextDecoder();
        S, replaced := t, replaced + 1;
      }
    }

    /**
     `R`: decodes `t` bytes at `e`, counting them against the decoder's budget and replacing the
     decoder when the budget would be used up. `None` is the exception `decode` throws. No slice that Rust
     hands out is longer than a block can be.
     */
    method DecodeSlice(e: nat, t: nat) returns (r: Option<JsString>)
      requires Valid() && e + t <= |o.buffer.bytes| && t <= MAX_BLOCK
      modifies this`p, this`S, this`y, this`total, this`replaced, y
      ensures Valid()
      ensures r == Decoded(o.buffer.bytes[e..e + t])
      ensures total == old(total) + t
      ensures if old(S) + t < DECODER_BUDGET
              then y == old(y) && y.fed == old(y.fed) + [t] && replaced == old(replaced)
              else fresh(y) && y.fed == [t] && replaced == old(replaced) + 1
    {
      ChargeBudget(t);
      var view := ByteView();
      var slice := view.Subarray(e, e + t);
      r := HandOver(slice.Contents());
    }

    /** The last step of `R`: the bytes already counted go to the current decoder. */
    method HandOver(bytes: seq<Byte>) returns (r: Option<JsString>)
      requires S == Sum(y.fed) + |bytes| && (S < DECODER_BUDGET || y.fed == [])
      modifies y
      ensures r == Decoded(bytes)
      ensures y.fed == old(y.fed) + [|bytes|]
      ensures S == Sum(y.fed) && (S < DECODER_BUDGET || |y.fed| == 1)
    {
      SumAppend(y.fed, |bytes|);
      r := y.DecodeBlock(bytes);
    }

    /** `m`: the pointer arrives as a signed 32-bit integer, and here it is converted. */
    method GetString(e: Int32, t: nat) returns (r: Option<JsString>)
      requires Valid() && ToUint32(e) + t <= |o.buffer.bytes| && t <= MAX_BLOCK
      modifies this`p, this`S, this`y, this`total, this`replaced, y
      ensures Valid()
      ensures r == Decoded(o.buffer.bytes[ToUint32(e)..ToUint32(e) + t])
      ensures forall s: JsString ::
                r == Some(s) <==> WellFormed(s) && Encode(s) == o.buffer.bytes[ToUint32(e)..ToUint32(e) + t]
    {
      hide Decoded, Encode, WellFormed;
      r := DecodeSlice(ToUint32(e), t);
      forall s: JsString
        ensures r == Some(s) <==> WellFormed(s) && Encode(s) == o.buffer.bytes[ToUint32(e)..ToUint32(e) + t]
      {
        DecodedExactly(o.buffer.bytes[ToUint32(e)..ToUint32(e) + t], s);
      }
    }

    /**
     The round trip: a string reported through a return area and read back from the address and length
     found there comes back repaired, and unchanged when it was well formed. Unless a call traps, it gets
     that far exactly when the return area lies below 2^31; the string itself may lie anywhere.
     */
    method ReturnThenGet(e: Int32, n: JsString, ghost area: nat) returns (r: Outcome<Option<JsString>>)
      requires Valid() && InArea(e, area)
      modifies this, o, o.buffer, y
      ensures Valid() && o.strays == old(o.strays)
      ensures !r.Trap? ==> (r.Ok? <==> 0 <= e)
      ensures r.Ok? ==> r.value == Some(Repair(n))
      ensures r.Ok? && WellFormed(n) ==> r.value == Some(n)
    {
      hide Encode, Kept, Holds, WellPlaced, Overwritten, Decode, Repair, WellFormed;
      ghost var passed;
      var reported;
      reported, passed := ReturnString(e, n, area);
      if reported.Trap? {
        return Trap;
      }
      if reported.RangeError? {
        return RangeError;
      }
      var ptr := LoadWord(e);
      var len := LoadWord(e + 4);
      EncodeLength(n);
      HoldsSlice(o.buffer.bytes, ptr, Encode(n));
      DecodeEncode(n);
      RepairWellFormed(n);
      var text := GetString(AsInt32(ptr), len);
      r := Ok(text);
    }

    /** A load by wasm code. */
    method LoadWord(at: nat) returns (x: nat)
      requires at + 4 <= |o.buffer.bytes|
      ensures x == Load32(o.buffer.bytes, at) && x < ADDRESS_SPACE
    {
      var b0: int, b1: int, b2: int, b3: int :=
        o.buffer.bytes[at], o.buffer.bytes[at + 1], o.buffer.bytes[at + 2], o.buffer.bytes[at + 3];
      x := b0 + b1 * 0x100 + b2 * 0x1_0000 + b3 * 0x100_0000;
    }
  }

  lemma HoldsSlice(bytes: seq<Byte>, p: nat, data: seq<Byte>)
    requires Holds(bytes, p, data)
    ensures p + |data| <= |bytes| && bytes[p..p + |data|] == data
  {
  }

  /** `after` differs from `before` at most in the eight bytes at `at`. */
  predicate SameBut(before: seq<Byte>, after: seq<Byte>, at: nat) {
    |after| == |before| && forall j :: 0 <= j < |after| && !(at <= j < at + 8) ==> after[j] == before[j]
  }

  lemma PairStored(before: seq<Byte>, half: seq<Byte>, after: seq<Byte>, at: nat, ptr: int, len: int)
    requires at + 8 <= |before| && 0 <= ptr < ADDRESS_SPACE && 0 <= len < ADDRESS_SPACE
    requires half == Overwritten(before, at + 4, LittleEndian(len)) && after == Overwritten(half, at, LittleEndian(ptr))
    ensures SameBut(before, after, at)
    ensures Load32(after, at) == ptr && Load32(after, at + 4) == len
  {
    LoadWritten(ptr);
    LoadWritten(len);
  }

  /** The lower bounds on addresses hold up to the top: a block may start where addresses turn negative. */
  lemma UpperHalfIsPlaced()
    ensures WellPlaced(map[0x8000_0000 := 8], ADDRESS_SPACE) && AsInt32(0x8000_0000) < 0
  {
  }

  lemma KeptItself(blocks: Blocks, bytes: seq<Byte>)
    ensures Kept(blocks, bytes, bytes)
  {
  }

  lemma KeptWithout(blocks: Blocks, area: nat, before: seq<Byte>, after: seq<Byte>)
    requires Kept(blocks, before, after)
    ensures Kept(blocks - {area}, before, after)
  {
    forall q | q in blocks - {area}
      ensures SameRange(before, after, q, (blocks - {area})[q])
    {
      assert SameRange(before, after, q, blocks[q]);
    }
  }

  lemma PassedExtends(earlier: Blocks, ptr: nat, blocks: Blocks, size: nat)
    requires ptr !in earlier && (blocks == earlier || blocks == earlier[ptr := size])
    ensures Extends(earlier, blocks)
  {
  }

  lemma LoadWritten(x: int)
    requires 0 <= x < ADDRESS_SPACE
    ensures Load32(LittleEndian(x), 0) == x
  {
  }

  /** The stores to the return area leave every other block alone. */
  lemma PairKept(earlier: Blocks, area: nat, blocks: Blocks,
          before: seq<Byte>, passed: seq<Byte>, after: seq<Byte>, at: nat)
    requires Kept(earlier, before, passed) && SameBut(passed, after, at)
    requires Extends(earlier, blocks) && WellPlaced(blocks, |passed|)
    requires area in earlier && area <= at && at + 8 <= area + earlier[area]
    ensures Kept(earlier - {area}, before, after)
  {
    forall q | q in earlier - {area}
      ensures SameRange(before, after, q, earlier[q])
    {
      assert SameRange(before, passed, q, earlier[q]);
      assert q in blocks && area in blocks && Apart(q, blocks[q], area, blocks[area]);
    }
  }

  /** The stores to the return area leave the string alone. */
  lemma PairMisses(earlier: Blocks, area: nat, blocks: Blocks,
          passed: seq<Byte>, after: seq<Byte>, at: nat, p: nat, data: seq<Byte>)
    requires Holds(passed, p, data) && SameBut(passed, after, at)
    requires area in earlier && area <= at && at + 8 <= area + earlier[area] && p !in earlier
    requires WellPlaced(blocks, |passed|) && Extends(earlier, blocks)
    requires data == [] || (p in blocks && blocks[p] == |data|)
    ensures Holds(after, p, data)
  {
    if data != [] {
      assert p in blocks && area in blocks && Apart(p, blocks[p], area, blocks[area]);
    }
  }

  /** Filling a block that has just been obtained keeps every earlier block. */
  lemma WriteKept(earlier: Blocks, blocks: Blocks, before: seq<Byte>, obtained: seq<Byte>, p: nat, data: seq<Byte>)
    requires Kept(earlier, before, obtained) && WellPlaced(blocks, |obtained|)
    requires p !in earlier && p + |data| <= |obtained|
    requires if p in blocks then |data| <= blocks[p] && blocks == earlier[p := blocks[p]]
             else blocks == earlier && data == []
    ensures Kept(earlier, before, Overwritten(obtained, p, data))
    ensures Holds(Overwritten(obtained, p, data), p, data)
  {
    if p in blocks {
      OverwriteKeeps(earlier, p, blocks[p], obtained, p, data);
      KeptTransitive(earlier, before, obtained, Overwritten(obtained, p, data));
    } else {
      assert Overwritten(obtained, p, data) == obtained;
    }
  }

  /** The worst case reserved for the tail is enough, and the block is never empty. */
  lemma TailFits(e: JsString, c: nat)
    requires c < |e| && IsAscii(e[..c])
    ensures |Encode(e[..c])| == c
    ensures 0 < |Encode(e[c..])| <= 3 * |e[c..]|
    ensures |Encode(e)| == c + |Encode(e[c..])|
    ensures |e| <= c + 3 * |e[c..]| < ADDRESS_SPACE
    ensures (if c != 0 then e[c..] else e) == e[c..]
  {
    CutAfterAscii(e, c);
    EncodeLength(e[c..]);
  }

  lemma AppendHolds(bytes: seq<Byte>, q: nat, x: seq<Byte>, y: seq<Byte>, whole: seq<Byte>)
    requires Holds(bytes, q, x) && q + |x| + |y| <= |bytes| && whole == x + y
    ensures Holds(Overwritten(bytes, q + |x|, y), q, whole)
  {
  }

  /** Prefix and tail, written one behind the other, are the encoding of the whole string. */
  lemma TailWritten(e: JsString, c: nat, bytes: seq<Byte>, q: nat)
    requires c < |e| && IsAscii(e[..c])
    requires Holds(bytes, q, Encode(e[..c])) && q + c + |Encode(e[c..])| <= |bytes|
    ensures Holds(Overwritten(bytes, q + c, Encode(e[c..])), q, Encode(e))
  {
    hide Encode, Holds, IsAscii;
    CutAfterAscii(e, c);
    AppendHolds(bytes, q, Encode(e[..c]), Encode(e[c..]), Encode(e));
  }

  lemma AsciiStep(e: seq<CodeUnit>, c: nat)
    requires c < |e| && IsAscii(e[..c]) && e[c] <= 127
    ensures IsAscii(e[..c + 1])
    ensures Encode(e[..c + 1]) == Encode(e[..c]) + [e[c]]
  {
    assert e[..c + 1] == e[..c] + [e[c]];
    EncodeAscii(e[..c]);
    EncodeAscii(e[..c + 1]);
  }
}
