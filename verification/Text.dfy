/** Decimal numerals and dotted addresses, as Go's fmt and net packages print them. */
module Text {

  function Digit(d: nat): (c: char)
    requires d < 10
    ensures DigitValue(c) == d
    ensures c != '.' && c != '-' && c != ':'
  {
    "0123456789"[d]
  }

  function DigitValue(c: char): int {
    c as int - '0' as int
  }

  /** The numeral `%d` prints for a non-negative integer. */
  function Numeral(n: nat): (s: string)
    ensures |s| > 0 && s[0] != '-'
    ensures '.' !in s && ':' !in s
  {
    if n < 10 then [Digit(n)] else Numeral(n / 10) + [Digit(n % 10)]
  }

  /** The numeral `%d` prints for any integer. */
  function Decimal(n: int): (s: string)
    ensures '.' !in s && ':' !in s && |s| > 0
  {
    if n < 0 then "-" + Numeral(-n) else Numeral(n)
  }

  /** The integer a string of digits denotes. */
  function NumeralValue(s: string): int {
    if s == "" then 0 else NumeralValue(s[..|s| - 1]) * 10 + DigitValue(s[|s| - 1])
  }

  /** The integer a decimal numeral with an optional sign denotes. */
  function DecimalValue(s: string): int {
    if s != "" && s[0] == '-' then -NumeralValue(s[1..]) else NumeralValue(s)
  }

  lemma {:induction false} NumeralRoundTrip(n: nat)
    ensures NumeralValue(Numeral(n)) == n
  {
    if n < 10 {
      assert Numeral(n)[..0] == "";
    } else {
      var s := Numeral(n);
      assert s[..|s| - 1] == Numeral(n / 10);
      NumeralRoundTrip(n / 10);
    }
  }

  lemma DecimalRoundTrip(n: int)
    ensures DecimalValue(Decimal(n)) == n
  {
    if n < 0 {
      NumeralRoundTrip(-n);
      assert Decimal(n)[1..] == Numeral(-n);
    } else {
      NumeralRoundTrip(n);
    }
  }

  /** Digits come in the usual order, and a minus sign in front. */
  lemma {:induction false} NumeralText()
    ensures Decimal(51820) == "51820" && Decimal(-7) == "-7"
  {
    assert Numeral(5) == "5" && Numeral(51) == "51" && Numeral(518) == "518" && Numeral(5182) == "5182";
  }

  /** A string is cut in one way only at its last colon. */
  lemma {:induction false} LastColonUnique(x: string, a: string, y: string, b: string)
    requires ':' !in a && ':' !in b
    requires x + ":" + a == y + ":" + b
    ensures x == y && a == b
  {
    if |x| < |y| {
      ColonAt(x, a, y, b);
    } else if |y| < |x| {
      ColonAt(y, b, x, a);
    }
    var s := x + ":" + a;
    assert x == s[..|x|] && y == s[..|y|] && a == s[|x| + 1..] && b == s[|y| + 1..];
  }

  /** A longer front puts its colon into the other's tail. */
  lemma {:induction false} ColonAt(x: string, a: string, y: string, b: string)
    requires |x| < |y| && x + ":" + a == y + ":" + b
    ensures ':' in a
  {
    var s := x + ":" + a;
    assert (y + ":" + b)[|y|] == ':';
    assert s[|y|] == a[|y| - |x| - 1];
  }

  /** An address with a port is read back in one way only, colons in the address included. */
  lemma {:induction false} HostPortInjective(x: string, m: int, y: string, n: int)
    ensures x + ":" + Decimal(m) == y + ":" + Decimal(n) <==> x == y && m == n
  {
    if x + ":" + Decimal(m) == y + ":" + Decimal(n) {
      LastColonUnique(x, Decimal(m), y, Decimal(n));
      DecimalRoundTrip(m);
      DecimalRoundTrip(n);
    }
  }
}
