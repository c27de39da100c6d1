/**
 The UUID recogniser of `UniqueIdentifier` against the meaning of a UUID: a 128-bit number whose
 version and variant fields lie where sections 4.1 and 4.2 of RFC 9562 put them, printed in the
 hex-and-dash format of section 4.
 */
module Uuid {

  // ---------------------------------------------------------------- the regular expression

  datatype CharClass = Hex | Dash | Version | Variant

  predicate InClass(c: char, cls: CharClass) {
    match cls
    case Hex => '0' <= c <= '9' || 'a' <= c <= 'f' || 'A' <= c <= 'F'
    case Dash => c == '-'
    case Version => '1' <= c <= '8'
    case Variant => c == '8' || c == '9' || c == 'a' || c == 'b' || c == 'A' || c == 'B'
  }

  /** A class with its repetition count. */
  datatype Atom = Atom(cls: CharClass, count: nat)

  const UUID_REGEX: seq<Atom> := [
    Atom(Hex, 8), Atom(Dash, 1), Atom(Hex, 4), Atom(Dash, 1), Atom(Version, 1), Atom(Hex, 3), Atom(Dash, 1),
    Atom(Variant, 1), Atom(Hex, 3), Atom(Dash, 1), Atom(Hex, 12)]

  /** Anchored matching of a sequence of fixed repetitions. */
  predicate Matches(re: seq<Atom>, s: string)
    decreases |re|
  {
    if re == [] then s == []
    else
      && re[0].count <= |s|
      && (forall i :: 0 <= i < re[0].count ==> InClass(s[i], re[0].cls))
      && Matches(re[1..], s[re[0].count..])
  }

  /** `validate`: whether the constructor accepts the value. */
  predicate Accepts(s: string) { Matches(UUID_REGEX, s) }

  /** `equals` */
  predicate Equals(s: string, t: string) { s == t }

  /** The class each of the 36 positions must belong to. */
  function ClassAt(i: nat): CharClass {
    if i == 8 || i == 13 || i == 18 || i == 23 then Dash
    else if i == 14 then Version
    else if i == 19 then Variant
    else Hex
  }

  predicate Shaped(s: string) {
    |s| == 36 && forall i :: 0 <= i < 36 ==> InClass(s[i], ClassAt(i))
  }

  /** The classes a sequence of atoms demands, position by position. */
  function Flat(re: seq<Atom>): (cs: seq<CharClass>)
    decreases |re|
  {
    if re == [] then [] else Repeat(re[0].cls, re[0].count) + Flat(re[1..])
  }

  function Repeat(cls: CharClass, n: nat): (cs: seq<CharClass>)
    ensures |cs| == n && forall i :: 0 <= i < n ==> cs[i] == cls
  {
    seq(n, _ => cls)
  }

  predicate Fits(s: string, cs: seq<CharClass>) {
    |s| == |cs| && forall i :: 0 <= i < |cs| ==> InClass(s[i], cs[i])
  }

  lemma FitsConcat(s: string, a: seq<CharClass>, b: seq<CharClass>)
    ensures Fits(s, a + b) <==> |a| <= |s| && Fits(s[..|a|], a) && Fits(s[|a|..], b)
  {
    if |s| == |a| + |b| {
      assert s == s[..|a|] + s[|a|..];
      forall i | 0 <= i < |b|
        ensures (a + b)[|a| + i] == b[i] && s[|a| + i] == s[|a|..][i]
      {
      }
    }
  }

  /** Matching fixed repetitions is matching position by position. */
  lemma {:induction false} MatchesFlat(re: seq<Atom>, s: string)
    ensures Matches(re, s) <==> Fits(s, Flat(re))
    decreases |re|
  {
    if re == [] {
    } else {
      var n := re[0].count;
      FitsConcat(s, Repeat(re[0].cls, n), Flat(re[1..]));
      if n <= |s| {
        MatchesFlat(re[1..], s[n..]);
        assert Fits(s[..n], Repeat(re[0].cls, n)) <==> forall i :: 0 <= i < n ==> InClass(s[i], re[0].cls) by {
          hide InClass;
          assert forall i :: 0 <= i < n ==> s[..n][i] == s[i];
        }
      }
    }
  }

  /** The layout of a UUID from one position on. */
  function Layout(from: nat): seq<CharClass>
    requires from <= 36
  {
    seq(36 - from, i requires 0 <= i < 36 - from => ClassAt(from + i))
  }

  function Start(k: nat): nat
    requires k <= 11
  {
    if k == 0 then 0 else if k == 1 then 8 else if k == 2 then 9 else if k == 3 then 13 else if k == 4 then 14
    else if k == 5 then 15 else if k == 6 then 18 else if k == 7 then 19 else if k == 8 then 20
    else if k == 9 then 23 else if k == 10 then 24 else 36
  }

  lemma AtomsCover(k: nat)
    requires k < 11
    ensures Start(k) + UUID_REGEX[k].count == Start(k + 1) <= 36
    ensures forall j :: Start(k) <= j < Start(k + 1) ==> ClassAt(j) == UUID_REGEX[k].cls
  {
  }

  lemma {:induction false} FlatFrom(k: nat)
    requires k <= 11
    ensures Start(k) <= 36 && Flat(UUID_REGEX[k..]) == Layout(Start(k))
    decreases 11 - k
  {
    if k == 11 {
    } else {
      AtomsCover(k);
      FlatFrom(k + 1);
      var re := UUID_REGEX[k..];
      assert re[1..] == UUID_REGEX[k + 1..];
      LayoutSplits(Start(k), re[0].count, re[0].cls);
    }
  }

  lemma LayoutSplits(from: nat, n: nat, cls: CharClass)
    requires from + n <= 36 && forall j :: from <= j < from + n ==> ClassAt(j) == cls
    ensures Layout(from) == Repeat(cls, n) + Layout(from + n)
  {
    hide ClassAt;
    forall i | 0 <= i < 36 - from
      ensures Layout(from)[i] == (Repeat(cls, n) + Layout(from + n))[i]
    {
      if n <= i {
        assert from + i == from + n + (i - n);
      }
    }
  }

  /** The regex fixes the class of each of 36 positions, and nothing else. */
  lemma AcceptsShape(s: string)
    ensures Accepts(s) <==> Shaped(s)
  {
    hide ClassAt, InClass, Matches;
    FlatFrom(0);
    assert UUID_REGEX[0..] == UUID_REGEX;
    MatchesFlat(UUID_REGEX, s);
    assert Layout(0) == seq(36, i requires 0 <= i < 36 => ClassAt(i));
  }

  // ---------------------------------------------------------------- 128-bit numbers

  /** The hex digit of weight 16^k. */
  function Nibble(v: nat, k: nat): (d: int)
    ensures 0 <= d < 16
  {
    if k == 0 then v % 16 else Nibble(v / 16, k - 1)
  }

  /** The number that hex digits spell, most significant first. */
  function Number(ds: seq<int>): nat
    requires forall i :: 0 <= i < |ds| ==> 0 <= ds[i] < 16
  {
    if ds == [] then 0 else Number(ds[..|ds| - 1]) * 16 + ds[|ds| - 1]
  }

  function Pow16(n: nat): nat { if n == 0 then 1 else 16 * Pow16(n - 1) }

  const TWO_TO_THE_128: nat := 0x1_0000_0000_0000_0000_0000_0000_0000_0000

  lemma {:induction false} Pow16Adds(m: nat, n: nat)
    ensures Pow16(m + n) == Pow16(m) * Pow16(n)
    decreases n
  {
    if n == 0 {
    } else {
      Pow16Adds(m, n - 1);
      assert Pow16(m) * (16 * Pow16(n - 1)) == 16 * (Pow16(m) * Pow16(n - 1));
    }
  }

  lemma Pow16Of32()
    ensures Pow16(32) == TWO_TO_THE_128
  {
    assert Pow16(4) == 0x1_0000;
    Pow16Adds(4, 4);
    assert Pow16(8) == 0x1_0000_0000;
    Pow16Adds(8, 8);
    assert Pow16(16) == 0x1_0000_0000_0000_0000;
    Pow16Adds(16, 16);
  }

  lemma {:induction false} NumberBound(ds: seq<int>)
    requires forall i :: 0 <= i < |ds| ==> 0 <= ds[i] < 16
    ensures Number(ds) < Pow16(|ds|)
    decreases |ds|
  {
    if ds == [] {
    } else {
      NumberBound(ds[..|ds| - 1]);
    }
  }

  lemma {:induction false} NibbleOfNumber(ds: seq<int>, j: nat)
    requires forall i :: 0 <= i < |ds| ==> 0 <= ds[i] < 16
    requires j < |ds|
    ensures Nibble(Number(ds), |ds| - 1 - j) == ds[j]
    decreases |ds|
  {
    var front := ds[..|ds| - 1];
    assert Number(ds) / 16 == Number(front) && Number(ds) % 16 == ds[|ds| - 1];
    if j < |front| {
      NibbleOfNumber(front, j);
    }
  }

  /** A number is determined by its hex digits. */
  lemma {:induction false} NibblesDetermine(v: nat, w: nat, n: nat)
    requires v < Pow16(n) && w < Pow16(n)
    requires forall k :: 0 <= k < n ==> Nibble(v, k) == Nibble(w, k)
    ensures v == w
    decreases n
  {
    if n == 0 {
    } else {
      assert Nibble(v, 0) == Nibble(w, 0);
      forall k | 0 <= k < n - 1
        ensures Nibble(v / 16, k) == Nibble(w / 16, k)
      {
        assert Nibble(v, k + 1) == Nibble(w, k + 1);
      }
      NibblesDetermine(v / 16, w / 16, n - 1);
    }
  }

  /** Bits 48 to 51 hold the version, the two bits from 64 on the variant; both counted from the front. */
  predicate WellMarked(v: nat) {
    1 <= Nibble(v, 19) <= 8 && Nibble(v, 15) / 4 == 2
  }

  // ---------------------------------------------------------------- printing

  /** Where hex digit `j` stands in the text. */
  function Position(j: nat): nat
    requires j < 32
  {
    if j < 8 then j else if j < 12 then j + 1 else if j < 16 then j + 2 else if j < 20 then j + 3 else j + 4
  }

  /** Which hex digit stands at position `i`. */
  function Slot(i: nat): (j: nat)
    requires i < 36 && ClassAt(i) != Dash
    ensures j < 32 && Position(j) == i
  {
    if i < 8 then i else if i < 13 then i - 1 else if i < 18 then i - 2 else if i < 23 then i - 3 else i - 4
  }

  function HexChar(d: int): char
    requires 0 <= d < 16
  {
    if d < 10 then ('0' as int + d) as char else ('a' as int + (d - 10)) as char
  }

  function HexValue(c: char): (d: int)
    requires InClass(c, Hex)
    ensures 0 <= d < 16
  {
    if '0' <= c <= '9' then c as int - '0' as int
    else if 'a' <= c <= 'f' then c as int - 'a' as int + 10
    else c as int - 'A' as int + 10
  }

  function LowerChar(c: char): char {
    if 'A' <= c <= 'Z' then (c as int - 'A' as int + 'a' as int) as char else c
  }

  function Lower(s: string): (t: string)
    ensures |t| == |s|
  {
    seq(|s|, i requires 0 <= i < |s| => LowerChar(s[i]))
  }

  /** The lower-case hex-and-dash text of a 128-bit number. */
  function Print(v: nat): (t: string)
    ensures |t| == 36
  {
    seq(36, i requires 0 <= i < 36 => if ClassAt(i) == Dash then '-' else HexChar(Nibble(v, 31 - Slot(i))))
  }

  // ---------------------------------------------------------------- text and number

  /** The hex digits of a UUID text. */
  function Digits(s: string): (ds: seq<int>)
    requires Shaped(s)
    ensures |ds| == 32 && forall j :: 0 <= j < 32 ==> 0 <= ds[j] < 16
  {
    seq(32, j requires 0 <= j < 32 => DigitAt(s, j))
  }

  function DigitAt(s: string, j: nat): (d: int)
    requires Shaped(s) && j < 32
    ensures 0 <= d < 16
  {
    assert InClass(s[Position(j)], ClassAt(Position(j)));
    HexValue(s[Position(j)])
  }

  /** The 128-bit number a UUID text stands for. */
  function Value(s: string): (v: nat)
    requires Accepts(s)
  {
    AcceptsShape(s);
    Number(Digits(s))
  }

  lemma HexCharOfValue(c: char)
    requires InClass(c, Hex)
    ensures HexChar(HexValue(c)) == LowerChar(c)
  {
  }

  lemma DashStays()
    ensures LowerChar('-') == '-'
  {
  }

  lemma PrintsBack(s: string, i: nat)
    requires Accepts(s) && i < 36
    ensures |s| == 36 && LowerChar(s[i]) == Print(Value(s))[i]
  {
    hide Matches, HexChar, HexValue, LowerChar, Number, Nibble;
    AcceptsShape(s);
    assert InClass(s[i], ClassAt(i));
    if ClassAt(i) == Dash {
      DashStays();
    } else {
      NibbleOfNumber(Digits(s), Slot(i));
      HexCharOfValue(s[i]);
    }
  }

  /** An accepted text is a printing of its value, which is a well-marked 128-bit number. */
  lemma AcceptedIsPrinting(s: string)
    requires Accepts(s)
    ensures Value(s) < TWO_TO_THE_128 && WellMarked(Value(s)) && Lower(s) == Print(Value(s))
  {
    AcceptsShape(s);
    NumberBound(Digits(s));
    Pow16Of32();
    Marks(s);
    hide ClassAt, InClass, Matches, LowerChar, Print, WellMarked;
    forall i | 0 <= i < 36
      ensures LowerChar(s[i]) == Print(Value(s))[i]
    {
      PrintsBack(s, i);
    }
  }

  lemma Marks(s: string)
    requires Accepts(s)
    ensures WellMarked(Value(s))
  {
    AcceptsShape(s);
    assert Slot(14) == 12 && Slot(19) == 16;
    NibbleOfNumber(Digits(s), 12);
    NibbleOfNumber(Digits(s), 16);
    assert InClass(s[14], ClassAt(14)) && InClass(s[19], ClassAt(19));
  }

  lemma CharOfHex(c: char, d: int)
    requires 0 <= d < 16 && LowerChar(c) == HexChar(d)
    ensures InClass(c, Hex) && HexValue(c) == d
    ensures 1 <= d <= 8 ==> InClass(c, Version)
    ensures d / 4 == 2 ==> InClass(c, Variant)
  {
  }

  lemma PrintingIsAccepted(s: string, v: nat)
    requires WellMarked(v) && Lower(s) == Print(v)
    ensures Accepts(s)
  {
    assert |s| == 36;
    forall i | 0 <= i < 36
      ensures InClass(s[i], ClassAt(i))
    {
      assert Lower(s)[i] == Print(v)[i];
      if ClassAt(i) != Dash {
        CharOfHex(s[i], Nibble(v, 31 - Slot(i)));
      }
    }
    AcceptsShape(s);
  }

  /**
   The regex accepts exactly the printings, in either letter case, of 128-bit numbers with a version
   from 1 to 8 and the variant bits 10.
   */
  lemma AcceptsExactly(s: string)
    ensures Accepts(s) <==> exists v: nat :: v < TWO_TO_THE_128 && WellMarked(v) && Lower(s) == Print(v)
  {
    if Accepts(s) {
      AcceptedIsPrinting(s);
    }
    if v: nat :| v < TWO_TO_THE_128 && WellMarked(v) && Lower(s) == Print(v) {
      PrintingIsAccepted(s, v);
    }
  }

  /** Printing loses nothing. */
  lemma PrintInjective(v: nat, w: nat)
    requires v < TWO_TO_THE_128 && w < TWO_TO_THE_128 && Print(v) == Print(w)
    ensures v == w
  {
    hide HexChar, Pow16;
    Pow16Of32();
    forall k | 0 <= k < 32
      ensures Nibble(v, k) == Nibble(w, k)
    {
      var i := Position(31 - k);
      assert ClassAt(i) != Dash && Slot(i) == 31 - k;
      assert Print(v)[i] == Print(w)[i];
      HexCharInjective(Nibble(v, k), Nibble(w, k));
    }
    NibblesDetermine(v, w, 32);
  }

  lemma HexCharInjective(d: int, e: int)
    requires 0 <= d < 16 && 0 <= e < 16 && HexChar(d) == HexChar(e)
    ensures d == e
  {
  }

  /** Two accepted texts stand for the same UUID exactly when they differ at most in letter case. */
  lemma SameValueUpToCase(s: string, t: string)
    requires Accepts(s) && Accepts(t)
    ensures Value(s) == Value(t) <==> Lower(s) == Lower(t)
  {
    AcceptedIsPrinting(s);
    AcceptedIsPrinting(t);
    if Lower(s) == Lower(t) {
      PrintInjective(Value(s), Value(t));
    }
  }

  /** The positions a text writes in capitals. */
  predicate SameCase(s: string, t: string) {
    |s| == |t| && forall i :: 0 <= i < |s| ==> ('A' <= s[i] <= 'Z' <==> 'A' <= t[i] <= 'Z')
  }

  lemma CaseAndLetters(s: string, t: string)
    requires Lower(s) == Lower(t) && SameCase(s, t)
    ensures s == t
  {
    forall i | 0 <= i < |s|
      ensures s[i] == t[i]
    {
      assert Lower(s)[i] == Lower(t)[i];
    }
  }

  /** `equals` means the same UUID written in the same case, not just the same UUID. */
  lemma EqualsDecidesTextNotValue(s: string, t: string)
    requires Accepts(s) && Accepts(t)
    ensures Equals(s, t) <==> Value(s) == Value(t) && SameCase(s, t)
  {
    hide Accepts, Value, Lower;
    SameValueUpToCase(s, t);
    if Value(s) == Value(t) && SameCase(s, t) {
      CaseAndLetters(s, t);
    }
  }

  /** Every UUID whose text has a letter has two accepted texts that `equals` tells apart. */
  lemma EqualsMissesCase(s: string, i: nat)
    requires Accepts(s) && i < |s| && 'a' <= s[i] <= 'f'
    ensures var t := s[i := (s[i] as int - 'a' as int + 'A' as int) as char];
            Accepts(t) && Value(t) == Value(s) && !Equals(s, t)
  {
    var t := s[i := (s[i] as int - 'a' as int + 'A' as int) as char];
    AcceptedIsPrinting(s);
    assert Lower(t) == Lower(s);
    PrintingIsAccepted(t, Value(s));
    SameValueUpToCase(s, t);
    assert s[i] != t[i];
  }
}
