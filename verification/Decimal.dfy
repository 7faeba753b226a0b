/** Decimal text: printing a number, padding it with zeros, and reading digits back. */
module Decimal {

  predicate IsDigit(c: char) { '0' <= c <= '9' }

  predicate AllDigits(s: string) { forall i | 0 <= i < |s| :: IsDigit(s[i]) }

  function DigitChar(d: nat): (c: char)
    requires d < 10
    ensures IsDigit(c)
  {
    ('0' as int + d) as char
  }

  function Digit(c: char): (d: nat)
    requires IsDigit(c)
    ensures d < 10
  {
    c as int - '0' as int
  }

  function Print(n: nat): (s: string)
    ensures s != [] && AllDigits(s)
  {
    if n < 10 then [DigitChar(n)] else Print(n / 10) + [DigitChar(n % 10)]
  }

  function Value(s: string): nat
    requires AllDigits(s)
  {
    if s == [] then 0 else 10 * Value(s[..|s| - 1]) + Digit(s[|s| - 1])
  }

  /** Zero padding on the left up to `width`, as the format `{:0<width>d}` does. */
  function PadTo(s: string, width: nat): (r: string)
    decreases width - |s|
  {
    if |s| >= width then s else PadTo("0" + s, width)
  }

  function Pow10(k: nat): (p: nat)
    ensures p >= 1
  {
    if k == 0 then 1 else 10 * Pow10(k - 1)
  }

  lemma {:induction false} Pow10Grows(a: nat, b: nat)
    requires a <= b
    ensures Pow10(a) <= Pow10(b)
  {
    if a < b { Pow10Grows(a, b - 1); }
  }

  lemma {:induction false} ValueOfPrint(n: nat)
    ensures Value(Print(n)) == n
  {
    if n >= 10 {
      ValueOfPrint(n / 10);
      assert Print(n)[..|Print(n)| - 1] == Print(n / 10);
    }
  }

  lemma {:induction false} PrintLength(n: nat, k: nat)
    requires k >= 1
    ensures |Print(n)| <= k <==> n < Pow10(k)
  {
    if n >= 10 && k >= 2 {
      PrintLength(n / 10, k - 1);
    } else if n < 10 {
      assert Pow10(k) >= 10;
    } else {
      assert Pow10(1) == 10 * Pow10(0);
    }
  }

  lemma {:induction false} LeadingZero(s: string)
    requires AllDigits(s)
    ensures AllDigits("0" + s) && Value("0" + s) == Value(s)
  {
    if s != [] {
      LeadingZero(s[..|s| - 1]);
      assert ("0" + s)[..|s|] == "0" + s[..|s| - 1];
    }
  }

  lemma {:induction false} Padded(s: string, width: nat)
    requires AllDigits(s)
    ensures AllDigits(PadTo(s, width)) && Value(PadTo(s, width)) == Value(s)
    ensures |PadTo(s, width)| == if |s| >= width then |s| else width
    decreases width - |s|
  {
    if |s| < width {
      LeadingZero(s);
      Padded("0" + s, width);
    }
  }

  lemma {:induction false} ValueBound(s: string)
    requires AllDigits(s)
    ensures Value(s) < Pow10(|s|)
  {
    if s != [] {
      ValueBound(s[..|s| - 1]);
    }
  }

  /** How many digits a numeric field of at most `width` characters takes from the front of `s`. */
  function DigitRun(s: string, width: nat): (k: nat)
    ensures k <= |s| && k <= width && AllDigits(s[..k])
  {
    if s == [] || width == 0 || !IsDigit(s[0]) then 0 else 1 + DigitRun(s[1..], width - 1)
  }

  lemma {:induction false} DigitRunOfField(field: string, rest: string, width: nat)
    requires AllDigits(field)
    requires |field| <= width
    requires |field| < width ==> rest == [] || !IsDigit(rest[0])
    ensures DigitRun(field + rest, width) == |field|
  {
    if field != [] {
      assert (field + rest)[1..] == field[1..] + rest;
      DigitRunOfField(field[1..], rest, width - 1);
    } else if rest != [] {
      assert (field + rest)[0] == rest[0];
    }
  }

  lemma TenTimes(n: nat, k: nat)
    ensures n * Pow10(k + 1) == 10 * (n * Pow10(k))
  {
    assert Pow10(k + 1) == 10 * Pow10(k);
  }

  /** Digits count in tens, most significant first. */
  lemma {:induction false} ValueIsPositional(a: string, b: string)
    requires AllDigits(a) && AllDigits(b)
    ensures AllDigits(a + b) && Value(a + b) == Value(a) * Pow10(|b|) + Value(b)
  {
    if b == [] {
      assert a + b == a;
    } else {
      var front, last := b[..|b| - 1], b[|b| - 1];
      ValueIsPositional(a, front);
      assert (a + b)[..|a + b| - 1] == a + front;
      assert Value(a + b) == 10 * Value(a + front) + Digit(last);
      TenTimes(Value(a), |front|);
    }
  }

  lemma ValueOfDigit(c: char)
    requires '0' <= c <= '9'
    ensures AllDigits([c]) && Value([c]) == c as int - '0' as int
  {
    assert [c][..0] == [];
  }

  lemma {:induction false} SameValueSameText(a: string, b: string)
    requires AllDigits(a) && AllDigits(b) && |a| == |b| && Value(a) == Value(b)
    ensures a == b
  {
    if a != [] {
      var n := |a| - 1;
      SameValueSameText(a[..n], b[..n]);
      assert a == a[..n] + [a[n]] && b == b[..n] + [b[n]];
    }
  }

  /** Printing a number of at most `|s|` digits and padding it gives back the digits it was read from. */
  lemma PrintOfValue(s: string)
    requires AllDigits(s) && s != []
    ensures PadTo(Print(Value(s)), |s|) == s
  {
    var printed := Print(Value(s));
    ValueBound(s);
    PrintLength(Value(s), |s|);
    Padded(printed, |s|);
    ValueOfPrint(Value(s));
    SameValueSameText(PadTo(printed, |s|), s);
  }
}
