/**
 `Money.toString`: the currency code, a space, and the amount in the two-decimal notation of
 `Number.prototype.toFixed`. It can be read back, so equal strings mean equal money.
 */
module MoneyText {
  import opened Money
  import opened MoneyCents
  import opened MoneyRounding

  function Digit(d: int): char
    requires 0 <= d < 10
  {
    ('0' as int + d) as char
  }

  /** Decimal notation without leading zeros. */
  function Digits(n: nat): (s: string)
    ensures s != []
  {
    if n < 10 then [Digit(n)] else Digits(n / 10) + [Digit(n % 10)]
  }

  /** At least three digits, so that two can follow the point. */
  function Padded(s: string): (t: string)
    requires s != []
    ensures |t| >= 3
  {
    if |s| == 1 then "00" + s else if |s| == 2 then "0" + s else s
  }

  /** `x.toFixed(2)`: the nearest number of hundredths, the larger one on a tie, with its point put in. */
  function ToFixed2(x: real): string
    requires 0.0 <= x < 1000000000000000000000.0
  {
    var m := Padded(Digits(RoundHalfUp(x * 100.0)));
    m[..|m| - 2] + "." + m[|m| - 2..]
  }

  function ToString(m: Money): string
    requires m.amount.Finite? && 0.0 <= m.amount.v < 1000000000000000000000.0
  {
    m.currency + " " + ToFixed2(m.amount.v)
  }

  // ---------------------------------------------------------------- reading back

  function ValueOf(s: string): int {
    if s == [] then 0 else ValueOf(s[..|s| - 1]) * 10 + (s[|s| - 1] as int - '0' as int)
  }

  /** The cents a printed amount stands for: its digits with the point left out. */
  function CentsPrinted(s: string): int
    requires |s| >= 3
  {
    ValueOf(s[..|s| - 3] + s[|s| - 2..])
  }

  lemma {:induction false} DigitsValue(n: nat)
    ensures ValueOf(Digits(n)) == n
  {
    if n < 10 {
      assert Digits(n)[..0] == [];
    } else {
      DigitsValue(n / 10);
      assert Digits(n)[..|Digits(n)| - 1] == Digits(n / 10);
    }
  }

  lemma LeadingZero(s: string)
    requires 1 <= |s| <= 2
    ensures ValueOf("0" + s) == ValueOf(s)
  {
    var t := "0" + s;
    assert t[..|t| - 1] == "0" + s[..|s| - 1];
    assert "0"[..0] == [];
    if |s| == 2 {
      assert ("0" + s[..1])[..1] == "0" && s[..1][..0] == [];
    } else {
      assert "0" + s[..0] == "0";
    }
  }

  lemma PaddedValue(s: string)
    requires s != []
    ensures ValueOf(Padded(s)) == ValueOf(s)
  {
    if |s| == 1 {
      LeadingZero(s);
      LeadingZero("0" + s);
      assert "0" + ("0" + s) == "00" + s;
    } else if |s| == 2 {
      LeadingZero(s);
    }
  }

  /** Printing loses nothing: the cents can be read back from the text. */
  lemma FixedReadsBack(x: real)
    requires 0.0 <= x < 1000000000000000000000.0
    ensures |ToFixed2(x)| >= 4
    ensures CentsPrinted(ToFixed2(x)) == RoundHalfUp(x * 100.0)
  {
    var n: nat := RoundHalfUp(x * 100.0);
    DigitsValue(n);
    PaddedValue(Digits(n));
    PointLeftOut(Padded(Digits(n)));
  }

  lemma PointLeftOut(m: string)
    requires |m| >= 3
    ensures CentsPrinted(m[..|m| - 2] + "." + m[|m| - 2..]) == ValueOf(m)
  {
    var s := m[..|m| - 2] + "." + m[|m| - 2..];
    assert s[..|s| - 3] == m[..|m| - 2] && s[|s| - 2..] == m[|m| - 2..];
    assert m[..|m| - 2] + m[|m| - 2..] == m;
  }

  predicate AllDigits(s: string) { forall i :: 0 <= i < |s| ==> '0' <= s[i] <= '9' }

  lemma {:induction false} DigitsShape(n: nat)
    ensures AllDigits(Digits(n)) && (Digits(n)[0] == '0' ==> |Digits(n)| == 1)
    ensures Digits(n) == "0" <==> n == 0
  {
    if n >= 10 {
      DigitsShape(n / 10);
    }
  }

  /** One point, two digits after it, at least one before, digits everywhere else, and no needless leading zero. */
  lemma FixedShape(x: real)
    requires 0.0 <= x < 1000000000000000000000.0
    ensures var s := ToFixed2(x);
            && |s| >= 4 && s[|s| - 3] == '.'
            && AllDigits(s[..|s| - 3]) && AllDigits(s[|s| - 2..])
            && (s[0] == '0' ==> |s| == 4)
  {
    var n: nat := RoundHalfUp(x * 100.0);
    DigitsShape(n);
    hide Digits;
    var m := Padded(Digits(n));
    assert AllDigits(m) && (m[0] == '0' ==> |m| == 3);
    var s := m[..|m| - 2] + "." + m[|m| - 2..];
    assert s[..|s| - 3] == m[..|m| - 2] && s[|s| - 2..] == m[|m| - 2..];
  }

  /** A text starts with its currency and a space, and the amount follows. */
  lemma TextBegins(m: Money)
    requires m.amount.Finite? && 0.0 <= m.amount.v < 1000000000000000000000.0 && m.currency in CURRENCIES
    ensures var s := ToString(m);
            && |s| >= 8 && s[..3] == m.currency && s[3] == ' '
            && CentsPrinted(s[4..]) == RoundHalfUp(m.amount.v * 100.0)
  {
    FixedReadsBack(m.amount.v);
    hide ToFixed2, CentsPrinted;
    assert |m.currency| == 3;
    assert (m.currency + " " + ToFixed2(m.amount.v))[4..] == ToFixed2(m.amount.v);
  }

  /** The text of a reachable amount shows exactly its cents. */
  lemma PrintsCents(fl: Rounding, n: int, c: string)
    requires IsRounding(fl) && 0 <= n <= TOP
    ensures var m := OfCents(fl, n, c);
            && m.amount.Finite? && 0.0 <= m.amount.v < 1000000000000000000000.0
            && |ToFixed2(m.amount.v)| >= 4 && CentsPrinted(ToFixed2(m.amount.v)) == n
  {
    CentsFloat(fl, n);
    var x := fl(n as real / 100.0).v;
    HalfUp(x * 100.0, n);
    FixedReadsBack(x);
  }

  /** Two reachable amounts below ten billion print alike exactly when they are equal. */
  lemma ToStringDecidesEquals(fl: Rounding, n: int, m: int, c: string, d: string)
    requires IsRounding(fl) && 0 <= n <= TOP && 0 <= m <= TOP && c in CURRENCIES && d in CURRENCIES
    ensures var a, b := OfCents(fl, n, c), OfCents(fl, m, d);
            && a.amount.Finite? && 0.0 <= a.amount.v < 1000000000000000000000.0
            && b.amount.Finite? && 0.0 <= b.amount.v < 1000000000000000000000.0
            && (ToString(a) == ToString(b) <==> Equals(a, b))
  {
    PrintsCents(fl, n, c);
    PrintsCents(fl, m, d);
    var a, b := OfCents(fl, n, c), OfCents(fl, m, d);
    SameText(c, d, ToFixed2(a.amount.v), ToFixed2(b.amount.v));
    ComparisonsDecideCents(fl, n, m, c);
  }

  lemma SameText(c: string, d: string, s: string, t: string)
    requires c in CURRENCIES && d in CURRENCIES
    ensures c + " " + s == d + " " + t <==> c == d && s == t
  {
    assert |c| == |d| == 3;
    assert (c + " " + s)[..3] == c && (d + " " + t)[..3] == d;
    assert (c + " " + s)[4..] == s && (d + " " + t)[4..] == t;
  }
}
