/**
 What encoding and decoding do to each other: decoding an encoded string repairs it, the decoder
 accepts exactly the encodings, and encoding distributes over a cut exactly when the cut does not
 split a surrogate pair.
 */
module Transcoding {
  import opened Options
  import opened Unicode

  // ---------------------------------------------------------------- encode, then decode

  lemma FeedMore(d: Decoder, b: Byte, rest: seq<Byte>)
    requires Reachable(d) && Feed(d, b).More?
    ensures Reachable(Feed(d, b).next)
    ensures DecodeFrom(d, [b] + rest) == DecodeFrom(Feed(d, b).next, rest)
  {
    FeedStaysReachable(d, b);
    assert ([b] + rest)[1..] == rest;
  }

  /** The output of a decoder that has just emitted `v` and has `rest` still to read. */
  function Emitted(v: Scalar, rest: seq<Byte>): Option<seq<CodeUnit>> {
    match Decode(rest)
    case None => None
    case Some(t) => Some(Units(v) + t)
  }

  lemma FeedEmit(d: Decoder, b: Byte, rest: seq<Byte>)
    requires Reachable(d) && Feed(d, b).Emit?
    ensures 0 <= Feed(d, b).v < 0xD800 || 0xE000 <= Feed(d, b).v < 0x11_0000
    ensures DecodeFrom(d, [b] + rest) == Emitted(Feed(d, b).v, rest)
  {
    FeedStaysReachable(d, b);
    assert ([b] + rest)[1..] == rest;
  }

  /** The decoder reads back one encoded scalar value, of whichever length. */
  lemma DecodeScalar(v: Scalar, rest: seq<Byte>)
    ensures Decode(Utf8(v) + rest) == Emitted(v, rest)
  {
    var u := Utf8(v);
    if |u| == 1 {
      FeedEmit(START, u[0], rest);
    } else if |u| == 2 {
      assert u + rest == [u[0]] + ([u[1]] + rest);
      FeedMore(START, u[0], [u[1]] + rest);
      FeedEmit(Feed(START, u[0]).next, u[1], rest);
    } else if |u| == 3 {
      DecodeThree(v, rest);
    } else {
      DecodeFour(v, rest);
    }
  }

  /** The states the decoder passes through on a three-byte character. */
  lemma ThreeSteps(v: Scalar)
    requires |Utf8(v)| == 3
    ensures var u := Utf8(v);
            var d1 := Decoder(v / 0x40 / 0x40, 0, 2,
                              if u[0] == 0xE0 then 0xA0 else 0x80, if u[0] == 0xED then 0x9F else 0xBF);
            var d2 := Decoder(v / 0x40, 1, 2, 0x80, 0xBF);
            && Feed(START, u[0]) == More(d1) && Reachable(d1)
            && Feed(d1, u[1]) == More(d2) && Reachable(d2)
            && Feed(d2, u[2]) == Emit(v)
  {
  }

  lemma DecodeThree(v: Scalar, rest: seq<Byte>)
    requires |Utf8(v)| == 3
    ensures Decode(Utf8(v) + rest) == Emitted(v, rest)
  {
    var u := Utf8(v);
    ThreeSteps(v);
    var d1 := Feed(START, u[0]).next;
    var d2 := Feed(d1, u[1]).next;
    var rest2 := [u[2]] + rest;
    var rest1 := [u[1]] + rest2;
    assert u + rest == [u[0]] + rest1;
    assert DecodeFrom(START, [u[0]] + rest1) == DecodeFrom(d1, rest1) by { FeedMore(START, u[0], rest1); }
    assert DecodeFrom(d1, rest1) == DecodeFrom(d2, rest2) by { FeedMore(d1, u[1], rest2); }
    assert DecodeFrom(d2, rest2) == Emitted(v, rest) by { FeedEmit(d2, u[2], rest); }
  }

  /** The states the decoder passes through on a four-byte character. */
  lemma FourSteps(v: Scalar)
    requires |Utf8(v)| == 4
    ensures var u := Utf8(v);
            var d1 := Decoder(v / 0x40 / 0x40 / 0x40, 0, 3,
                              if u[0] == 0xF0 then 0x90 else 0x80, if u[0] == 0xF4 then 0x8F else 0xBF);
            var d2 := Decoder(v / 0x40 / 0x40, 1, 3, 0x80, 0xBF);
            var d3 := Decoder(v / 0x40, 2, 3, 0x80, 0xBF);
            && Feed(START, u[0]) == More(d1) && Reachable(d1)
            && Feed(d1, u[1]) == More(d2) && Reachable(d2)
            && Feed(d2, u[2]) == More(d3) && Reachable(d3)
            && Feed(d3, u[3]) == Emit(v)
  {
  }

  lemma DecodeFour(v: Scalar, rest: seq<Byte>)
    requires |Utf8(v)| == 4
    ensures Decode(Utf8(v) + rest) == Emitted(v, rest)
  {
    var u := Utf8(v);
    FourSteps(v);
    var d1 := Feed(START, u[0]).next;
    var d2 := Feed(d1, u[1]).next;
    var d3 := Feed(d2, u[2]).next;
    var rest3 := [u[3]] + rest;
    var rest2 := [u[2]] + rest3;
    var rest1 := [u[1]] + rest2;
    assert u + rest == [u[0]] + rest1;
    assert DecodeFrom(START, [u[0]] + rest1) == DecodeFrom(d1, rest1) by { FeedMore(START, u[0], rest1); }
    assert DecodeFrom(d1, rest1) == DecodeFrom(d2, rest2) by { FeedMore(d1, u[1], rest2); }
    assert DecodeFrom(d2, rest2) == DecodeFrom(d3, rest3) by { FeedMore(d2, u[2], rest3); }
    assert DecodeFrom(d3, rest3) == Emitted(v, rest) by { FeedEmit(d3, u[3], rest); }
  }

  /** Repairing a string repairs its first code point and then the rest. */
  lemma RepairHead(s: seq<CodeUnit>)
    requires s != []
    ensures Repair(s) == Units(HeadScalar(s)) + Repair(s[HeadWidth(s)..])
  {
    var w := HeadWidth(s);
    var tail := s[w..];
    forall i | w <= i < |s|
      ensures Lone(s, i) == Lone(tail, i - w)
    {
      assert s[i] == tail[i - w];
    }
    assert |Units(HeadScalar(s))| == w;
    assert Repair(s)[..w] == Units(HeadScalar(s));
    assert Repair(s)[w..] == Repair(tail);
  }

  /** Decoding what was encoded gives the string back with its lone surrogates replaced. */
  lemma {:induction false} DecodeEncode(s: seq<CodeUnit>)
    ensures Decode(Encode(s)) == Some(Repair(s))
    decreases |s|
  {
    if s == [] {
    } else {
      var tail := s[HeadWidth(s)..];
      DecodeEncode(tail);
      DecodeScalar(HeadScalar(s), Encode(tail));
      RepairHead(s);
    }
  }

  lemma RepairWellFormed(s: seq<CodeUnit>)
    ensures WellFormed(Repair(s))
    ensures Repair(s) == s <==> WellFormed(s)
  {
    var t := Repair(s);
    forall i | 0 <= i < |s|
      ensures !Lone(t, i)
      ensures t[i] == s[i] <==> !Lone(s, i)
    {
      if IsHigh(s[i]) && i + 1 < |s| && IsLow(s[i + 1]) {
        assert !Lone(s, i + 1);
      }
      if IsLow(s[i]) && 0 < i && IsHigh(s[i - 1]) {
        assert !Lone(s, i - 1);
      }
    }
    if t == s {
      assert forall i :: 0 <= i < |s| ==> t[i] == s[i];
    }
  }

  // ---------------------------------------------------------------- decode, then encode

  lemma Digit(q: int, r: int)
    requires 0 <= r < 0x40
    ensures (q * 0x40 + r) / 0x40 == q && (q * 0x40 + r) % 0x40 == r
  {
  }

  /** What the lead byte of a character with `needed` continuation bytes adds to its bits. */
  function LeadMark(needed: nat): int {
    if needed == 1 then 0xC0 else if needed == 2 then 0xE0 else 0xF0
  }

  /** `c` are the bytes of the unfinished character that brought the decoder into state `d`. */
  predicate Took(d: Decoder, c: seq<int>) {
    if d.needed == 0 then c == []
    else
      && |c| == d.seen + 1
      && (forall i :: 1 <= i < |c| ==> 0x80 <= c[i] <= 0xBF)
      && (|c| == 1 ==> d.point == c[0] - LeadMark(d.needed))
      && (|c| == 2 ==> d.point == (c[0] - LeadMark(d.needed)) * 0x40 + (c[1] - 0x80))
      && (|c| == 3 ==> d.point == ((c[0] - LeadMark(d.needed)) * 0x40 + (c[1] - 0x80)) * 0x40 + (c[2] - 0x80))
  }

  lemma TookMore(d: Decoder, c: seq<int>, b: Byte)
    requires Reachable(d) && Took(d, c) && Feed(d, b).More?
    ensures Took(Feed(d, b).next, c + [b])
  {
  }

  lemma TookEmit(d: Decoder, c: seq<int>, b: Byte)
    requires Reachable(d) && Took(d, c) && Feed(d, b).Emit?
    ensures 0 <= Feed(d, b).v < 0xD800 || 0xE000 <= Feed(d, b).v < 0x11_0000
    ensures Utf8(Feed(d, b).v) == c + [b]
  {
    FeedStaysReachable(d, b);
    if c != [] {
      Digit(d.point, b - 0x80);
    }
    if |c| == 2 {
      Digit(c[0] - 0xE0, c[1] - 0x80);
    } else if |c| == 3 {
      var top := (c[0] - 0xF0) * 0x40 + (c[1] - 0x80);
      Digit(top, c[2] - 0x80);
      Digit(c[0] - 0xF0, c[1] - 0x80);
    }
  }

  /** Putting a scalar value in front of a well-formed string puts its bytes in front. */
  lemma EncodePrepend(v: Scalar, t: seq<CodeUnit>)
    requires WellFormed(t)
    ensures WellFormed(Units(v) + t)
    ensures Encode(Units(v) + t) == Utf8(v) + Encode(t)
  {
    var u := Units(v);
    var s := u + t;
    assert t != [] ==> !Lone(t, 0);
    assert HeadWidth(s) == |u| && HeadScalar(s) == v;
    assert s[|u|..] == t;
    forall i | 0 <= i < |s|
      ensures !Lone(s, i)
    {
      if |u| <= i {
        assert !Lone(t, i - |u|);
      }
    }
  }

  /** Having taken `c`, the decoder accepts `bytes`, and `c + bytes` encodes the well-formed string it returns. */
  predicate Encodes(d: Decoder, c: seq<int>, bytes: seq<Byte>)
    requires Reachable(d)
  {
    && DecodeFrom(d, bytes).Some?
    && WellFormed(DecodeFrom(d, bytes).value)
    && c + bytes == Encode(DecodeFrom(d, bytes).value)
  }

  lemma Regroup(c: seq<int>, b: Byte, rest: seq<Byte>)
    ensures c + ([b] + rest) == (c + [b]) + rest
  {
  }

  lemma EncodesMore(d: Decoder, c: seq<int>, b: Byte, rest: seq<Byte>)
    requires Reachable(d) && Feed(d, b).More? && Reachable(Feed(d, b).next)
    requires Encodes(Feed(d, b).next, c + [b], rest)
    ensures Encodes(d, c, [b] + rest)
  {
    FeedMore(d, b, rest);
    Regroup(c, b, rest);
  }

  lemma CompleteCharacter(c: seq<int>, b: Byte, v: Scalar, t: seq<CodeUnit>)
    requires Utf8(v) == c + [b] && WellFormed(t)
    ensures WellFormed(Units(v) + t)
    ensures c + ([b] + Encode(t)) == Encode(Units(v) + t)
  {
    EncodePrepend(v, t);
    Regroup(c, b, Encode(t));
  }

  lemma EncodesEmit(d: Decoder, c: seq<int>, b: Byte, rest: seq<Byte>)
    requires Reachable(d) && Took(d, c) && Feed(d, b).Emit?
    requires Encodes(START, [], rest)
    ensures Encodes(d, c, [b] + rest)
  {
    FeedEmit(d, b, rest);
    TookEmit(d, c, b);
    CompleteCharacter(c, b, Feed(d, b).v, Decode(rest).value);
    assert [] + rest == rest;
  }

  /** Whatever the decoder accepts is the encoding of the well-formed string it returns. */
  lemma {:induction false} DecodeFromEncodes(d: Decoder, c: seq<int>, bytes: seq<Byte>)
    requires Reachable(d) && Took(d, c) && DecodeFrom(d, bytes).Some?
    ensures Encodes(d, c, bytes)
    decreases |bytes|
  {
    if bytes == [] {
    } else {
      var b, rest := bytes[0], bytes[1..];
      assert bytes == [b] + rest;
      FeedStaysReachable(d, b);
      match Feed(d, b)
      case Reject =>
      case More(next) =>
        TookMore(d, c, b);
        DecodeFromEncodes(next, c + [b], rest);
        EncodesMore(d, c, b, rest);
      case Emit(v) =>
        DecodeFromEncodes(START, [], rest);
        EncodesEmit(d, c, b, rest);
    }
  }

  /** The decoder accepts a byte string exactly when it encodes some well-formed string. */
  lemma DecodeExactly(bytes: seq<Byte>, t: seq<CodeUnit>)
    ensures Decode(bytes) == Some(t) <==> WellFormed(t) && Encode(t) == bytes
  {
    if Decode(bytes) == Some(t) {
      DecodeFromEncodes(START, [], bytes);
      assert [] + bytes == bytes;
    }
    if WellFormed(t) && Encode(t) == bytes {
      DecodeEncode(t);
      RepairWellFormed(t);
    }
  }

  /** Two strings have the same bytes exactly when they differ only in which lone surrogate stood where. */
  lemma EncodeInjective(s: seq<CodeUnit>, t: seq<CodeUnit>)
    ensures Encode(s) == Encode(t) <==> Repair(s) == Repair(t)
  {
    DecodeEncode(s);
    DecodeEncode(t);
    EncodeRepair(s);
    EncodeRepair(t);
  }

  lemma EncodeRepair(s: seq<CodeUnit>)
    ensures Encode(Repair(s)) == Encode(s)
  {
    DecodeEncode(s);
    DecodeExactly(Encode(s), Repair(s));
  }

  // ---------------------------------------------------------------- cutting a string

  /** The cut between `a` and `b` separates the halves of a surrogate pair. */
  predicate SplitsPair(a: seq<CodeUnit>, b: seq<CodeUnit>) {
    a != [] && b != [] && IsHigh(a[|a| - 1]) && IsLow(b[0])
  }

  /** One code unit never costs more than three bytes and never less than one. */
  lemma {:induction false} EncodeLength(s: seq<CodeUnit>)
    ensures |s| <= |Encode(s)| <= 3 * |s|
    decreases |s|
  {
    if s == [] {
    } else {
      EncodeLength(s[HeadWidth(s)..]);
    }
  }

  lemma {:induction false} EncodeConcat(a: seq<CodeUnit>, b: seq<CodeUnit>)
    requires !SplitsPair(a, b)
    ensures Encode(a + b) == Encode(a) + Encode(b)
    decreases |a|
  {
    if a == [] {
      assert a + b == b;
    } else {
      var w := HeadWidth(a);
      assert HeadWidth(a + b) == w && HeadScalar(a + b) == HeadScalar(a);
      assert (a + b)[w..] == a[w..] + b;
      EncodeConcat(a[w..], b);
    }
  }

  lemma PairLengths(h: CodeUnit, l: CodeUnit)
    requires IsHigh(h) && IsLow(l)
    ensures |Encode([h])| == |Encode([l])| == 3
    ensures |Encode([h, l])| == 4
  {
    assert [h][1..] == [l][1..] == [h, l][2..] == [];
  }

  /** A split pair costs six bytes where the whole one costs four. */
  lemma EncodeSplitPair(front: seq<CodeUnit>, h: CodeUnit, l: CodeUnit, back: seq<CodeUnit>)
    requires IsHigh(h) && IsLow(l)
    ensures |Encode(front + [h])| + |Encode([l] + back)| == |Encode(front + ([h, l] + back))| + 2
  {
    PairLengths(h, l);
    EncodeConcat(front, [h]);
    EncodeConcat([l], back);
    EncodeConcat(front, [h, l] + back);
    EncodeConcat([h, l], back);
  }

  /** Encoding distributes over a cut exactly when the cut does not split a surrogate pair. */
  lemma EncodeDistributes(a: seq<CodeUnit>, b: seq<CodeUnit>)
    ensures Encode(a + b) == Encode(a) + Encode(b) <==> !SplitsPair(a, b)
  {
    if SplitsPair(a, b) {
      var front, h, l, back := a[..|a| - 1], a[|a| - 1], b[0], b[1..];
      CutPair(a, b);
      EncodeSplitPair(front, h, l, back);
    } else {
      EncodeConcat(a, b);
    }
  }

  lemma CutPair(a: seq<CodeUnit>, b: seq<CodeUnit>)
    requires SplitsPair(a, b)
    ensures var front, h, l, back := a[..|a| - 1], a[|a| - 1], b[0], b[1..];
            front + [h] == a && [l] + back == b && front + ([h, l] + back) == a + b
  {
  }

  predicate IsAscii(s: seq<CodeUnit>) {
    forall i :: 0 <= i < |s| ==> s[i] <= 127
  }

  lemma {:induction false} EncodeAscii(s: seq<CodeUnit>)
    requires IsAscii(s)
    ensures Encode(s) == s
    decreases |s|
  {
    if s == [] {
    } else {
      EncodeAscii(s[1..]);
    }
  }

  lemma CutAfterAscii(s: seq<CodeUnit>, c: nat)
    requires c <= |s| && IsAscii(s[..c])
    ensures |Encode(s[..c])| == c
    ensures Encode(s) == Encode(s[..c]) + Encode(s[c..])
  {
    assert s == s[..c] + s[c..];
    EncodeConcat(s[..c], s[c..]);
    EncodeAscii(s[..c]);
  }

  /** The ASCII prefix can be copied unit by unit and the rest encoded on its own. */
  lemma EncodeAfterAscii(s: seq<CodeUnit>, c: nat)
    requires c <= |s| && IsAscii(s[..c])
    ensures Encode(s) == s[..c] + Encode(s[c..])
  {
    CutAfterAscii(s, c);
    EncodeAscii(s[..c]);
  }
}
