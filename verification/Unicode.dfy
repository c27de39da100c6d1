/**
 Strings as the JavaScript engine holds them (sequences of UTF-16 code units, lone surrogates
 allowed), the UTF-8 encoder behind `TextEncoder.encode`, and the UTF-8 decoder behind
 `TextDecoder.decode` with `fatal` and `ignoreBOM` set.

 The encoder follows section 3 of RFC 3629. The decoder is the byte-at-a-time state machine of the
 WHATWG Encoding Standard (its section on the UTF-8 decoder), so the two are independent
 definitions and the round-trip lemmas relate them.
 */
module Unicode {
  import opened Options

  type CodeUnit = u: int | 0 <= u < 0x1_0000
  type Byte = b: int | 0 <= b < 0x100
  type Scalar = v: int | 0 <= v < 0xD800 || 0xE000 <= v < 0x11_0000

  /** The longest string the engine can hold (V8: 2^29 - 24 code units). */
  const MAX_STRING_LENGTH: nat := 0x1FFF_FFE8
  type JsString = s: seq<CodeUnit> | |s| <= MAX_STRING_LENGTH

  /** U+FFFD, which stands in for a lone surrogate. */
  const REPLACEMENT: Scalar := 0xFFFD

  // ---------------------------------------------------------------- UTF-16

  predicate IsHigh(u: CodeUnit) { 0xD800 <= u < 0xDC00 }

  predicate IsLow(u: CodeUnit) { 0xDC00 <= u < 0xE000 }

  /** Code unit `i` is half of a surrogate pair whose other half is missing. */
  predicate Lone(s: seq<CodeUnit>, i: nat)
    requires i < |s|
  {
    || (IsHigh(s[i]) && !(i + 1 < |s| && IsLow(s[i + 1])))
    || (IsLow(s[i]) && !(0 < i && IsHigh(s[i - 1])))
  }

  predicate WellFormed(s: seq<CodeUnit>) {
    forall i :: 0 <= i < |s| ==> !Lone(s, i)
  }

  /** `s` with every lone surrogate replaced by U+FFFD. */
  function Repair(s: seq<CodeUnit>): (t: seq<CodeUnit>)
    ensures |t| == |s|
  {
    seq(|s|, i requires 0 <= i < |s| => if Lone(s, i) then REPLACEMENT else s[i])
  }

  /** Number of code units the first code point of `s` takes. */
  function HeadWidth(s: seq<CodeUnit>): (w: nat)
    requires s != []
    ensures 1 <= w <= 2 && w <= |s|
  {
    if IsHigh(s[0]) && 1 < |s| && IsLow(s[1]) then 2 else 1
  }

  /** The first code point of `s`, lone surrogates already replaced. */
  function HeadScalar(s: seq<CodeUnit>): Scalar
    requires s != []
  {
    if HeadWidth(s) == 2 then 0x1_0000 + (s[0] - 0xD800) * 0x400 + (s[1] - 0xDC00)
    else if IsHigh(s[0]) || IsLow(s[0]) then REPLACEMENT
    else s[0]
  }

  /** The code units of one scalar value. */
  function Units(v: Scalar): (s: seq<CodeUnit>)
    ensures 1 <= |s| <= 2
  {
    if v < 0x1_0000 then [v]
    else [0xD800 + (v - 0x1_0000) / 0x400, 0xDC00 + (v - 0x1_0000) % 0x400]
  }

  // ---------------------------------------------------------------- UTF-8 encoder

  /** Section 3 of RFC 3629. */
  function Utf8(v: Scalar): (bytes: seq<Byte>)
    ensures 1 <= |bytes| <= 4
  {
    if v < 0x80 then [v]
    else if v < 0x800 then [0xC0 + v / 0x40, 0x80 + v % 0x40]
    else if v < 0x1_0000 then [0xE0 + v / 0x40 / 0x40, 0x80 + v / 0x40 % 0x40, 0x80 + v % 0x40]
    else [0xF0 + v / 0x40 / 0x40 / 0x40, 0x80 + v / 0x40 / 0x40 % 0x40, 0x80 + v / 0x40 % 0x40, 0x80 + v % 0x40]
  }

  /** `TextEncoder.encode`. */
  function Encode(s: seq<CodeUnit>): seq<Byte> {
    if s == [] then [] else Utf8(HeadScalar(s)) + Encode(s[HeadWidth(s)..])
  }

  // ---------------------------------------------------------------- UTF-8 decoder

  /**
   What the decoder remembers between two bytes: the bits collected so far, how many continuation
   bytes it has seen and needs, and the range the next one must lie in.
   */
  datatype Decoder = Decoder(point: int, seen: nat, needed: nat, lower: int, upper: int)

  const START := Decoder(0, 0, 0, 0x80, 0xBF)

  datatype Step = Reject | More(next: Decoder) | Emit(v: int)

  function Feed(d: Decoder, b: Byte): Step {
    if d.needed == 0 then
      if b <= 0x7F then Emit(b)
      else if 0xC2 <= b <= 0xDF then More(Decoder(b - 0xC0, 0, 1, 0x80, 0xBF))
      else if 0xE0 <= b <= 0xEF then
        More(Decoder(b - 0xE0, 0, 2, if b == 0xE0 then 0xA0 else 0x80, if b == 0xED then 0x9F else 0xBF))
      else if 0xF0 <= b <= 0xF4 then
        More(Decoder(b - 0xF0, 0, 3, if b == 0xF0 then 0x90 else 0x80, if b == 0xF4 then 0x8F else 0xBF))
      else Reject
    else if !(d.lower <= b <= d.upper) then Reject
    else
      var point := d.point * 0x40 + (b - 0x80);
      if d.seen + 1 == d.needed then Emit(point)
      else More(Decoder(point, d.seen + 1, d.needed, 0x80, 0xBF))
  }

  /**
   The decoder states that input can lead to. The bounds are what keeps surrogates, overlong forms
   and values past U+10FFFF from ever being emitted.
   */
  predicate Reachable(d: Decoder) {
    var ordinary := d.lower == 0x80 && d.upper == 0xBF;
    match (d.needed, d.seen)
    case (0, _) => d == START
    case (1, 0) => 0x2 <= d.point < 0x20 && ordinary
    case (2, 0) =>
      0 <= d.point < 0x10 &&
      d.lower == (if d.point == 0 then 0xA0 else 0x80) && d.upper == (if d.point == 0xD then 0x9F else 0xBF)
    case (2, 1) => 0x20 <= d.point < 0x400 && !(0x360 <= d.point < 0x380) && ordinary
    case (3, 0) =>
      0 <= d.point <= 4 &&
      d.lower == (if d.point == 0 then 0x90 else 0x80) && d.upper == (if d.point == 4 then 0x8F else 0xBF)
    case (3, 1) => 0x10 <= d.point < 0x110 && ordinary
    case (3, 2) => 0x400 <= d.point < 0x4400 && ordinary
    case _ => false
  }

  lemma FeedStaysReachable(d: Decoder, b: Byte)
    requires Reachable(d)
    ensures Feed(d, b).More? ==> Reachable(Feed(d, b).next)
    ensures Feed(d, b).Emit? ==> 0 <= Feed(d, b).v < 0xD800 || 0xE000 <= Feed(d, b).v < 0x11_0000
  {
  }

  /** Runs the decoder to the end of its input; `None` is the exception a fatal decoder throws. */
  function DecodeFrom(d: Decoder, bytes: seq<Byte>): Option<seq<CodeUnit>>
    requires Reachable(d)
    decreases |bytes|
  {
    if bytes == [] then
      if d.needed == 0 then Some([]) else None
    else
      FeedStaysReachable(d, bytes[0]);
      match Feed(d, bytes[0])
      case Reject => None
      case More(next) => DecodeFrom(next, bytes[1..])
      case Emit(v) =>
        match DecodeFrom(START, bytes[1..])
        case None => None
        case Some(rest) => Some(Units(v) + rest)
  }

  /** `TextDecoder.decode`; a leading byte order mark is kept like any other character. */
  function Decode(bytes: seq<Byte>): Option<seq<CodeUnit>> {
    DecodeFrom(START, bytes)
  }
}
