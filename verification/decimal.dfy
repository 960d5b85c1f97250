/** Decimal rendering of non-negative integers, as Python's `str(n)` and
    `f"{n:02d}"` produce it, together with a reader that inverts it. */
module Decimal {
  import opened Wrappers

  predicate IsDigit(c: char) {
    '0' <= c <= '9'
  }

  predicate AllDigits(s: string) {
    forall i :: 0 <= i < |s| ==> IsDigit(s[i])
  }

  function DigitChar(d: nat): (c: char)
    requires d < 10
    ensures IsDigit(c)
  {
    (d + '0' as int) as char
  }

  function DigitValue(c: char): nat
    requires IsDigit(c)
  {
    (c as int - '0' as int) as nat
  }

  /** The number a string of decimal digits denotes (0 for the empty string). */
  function DigitsValue(s: string): nat
    requires AllDigits(s)
    decreases |s|
  {
    if |s| == 0 then 0 else DigitsValue(s[..|s| - 1]) * 10 + DigitValue(s[|s| - 1])
  }

  /** Python's `str(n)` for a non-negative integer: digits only, no leading
      zero, and denoting `n`. */
  function NatToString(n: nat): (s: string)
    ensures |s| >= 1
    ensures AllDigits(s)
    ensures |s| > 1 ==> s[0] != '0'
    ensures DigitsValue(s) == n
    ensures |s| == 1 <==> n < 10
    decreases n
  {
    if n < 10 then [DigitChar(n)]
    else
      var s := NatToString(n / 10) + [DigitChar(n % 10)];
      assert s[..|s| - 1] == NatToString(n / 10);
      s
  }

  /** Python's `f"{n:02d}"` for a non-negative integer: zero-padded to at
      least two digits, still denoting `n`. */
  function Pad2(n: nat): (s: string)
    ensures |s| >= 2
    ensures AllDigits(s)
    ensures DigitsValue(s) == n
    ensures |s| == 2 <==> n < 100
    ensures n >= 10 ==> s == NatToString(n)
  {
    if n < 10 then
      var s := "0" + NatToString(n);
      assert s[..1] == "0";
      s
    else
      var s := NatToString(n);
      assert |s| == 2 ==> n == DigitsValue(s[..1]) * 10 + DigitValue(s[1]) < 100 by {
        if |s| == 2 {
          assert DigitsValue(s[..1]) == DigitValue(s[0]);
        }
      }
      assert |s| > 2 ==> n >= 100 by {
        if |s| > 2 {
          LeadingDigitBound(s);
        }
      }
      s
  }

  /** A digit string of length at least 3 with a non-zero first digit denotes
      at least 100. */
  lemma {:induction false} LeadingDigitBound(s: string)
    requires |s| >= 3 && AllDigits(s) && s[0] != '0'
    ensures DigitsValue(s) >= 100
    decreases |s|
  {
    var p := s[..|s| - 1];
    if |s| == 3 {
      assert p[..1] == s[..1];
      assert DigitsValue(s[..1]) == DigitValue(s[0]) >= 1;
      assert DigitsValue(p) >= 10;
    } else {
      LeadingDigitBound(p);
    }
  }

  /** Reads a non-empty string of decimal digits; anything else reads as nothing. */
  function ParseNat(s: string): (r: Option<nat>)
    ensures r.Some? <==> |s| > 0 && AllDigits(s)
  {
    if |s| > 0 && AllDigits(s) then Some(DigitsValue(s)) else None
  }

  /** Reading back what `str(n)` prints gives `n`. */
  lemma ParseNatToString(n: nat)
    ensures ParseNat(NatToString(n)) == Some(n)
  {
  }

  /** Reading back what `f"{n:02d}"` prints gives `n`. */
  lemma ParseNatPad2(n: nat)
    ensures ParseNat(Pad2(n)) == Some(n)
  {
  }
}
