/** Decimal numerals, as the code prints and reads them. */
module Numerals {
  predicate IsDigit(c: char) { '0' <= c <= '9' }

  function Digit(n: nat): char
    requires n < 10
    ensures IsDigit(Digit(n))
  {
    ('0' as int + n) as char
  }

  /** fmt's %d of a non-negative number. */
  function Decimal(n: nat): (s: string)
    ensures s != ""
  {
    if n < 10 then [Digit(n)] else Decimal(n / 10) + [Digit(n % 10)]
  }

  /** The number a string of digits denotes. */
  function DigitsValue(s: string): nat
    requires forall i | 0 <= i < |s| :: IsDigit(s[i])
  {
    if s == "" then 0
    else
      assert IsDigit(s[|s| - 1]);
      DigitsValue(s[..|s| - 1]) * 10 + (s[|s| - 1] as int - '0' as int)
  }

  ghost predicate CanonicalDigits(s: string) {
    && s != ""
    && (forall i | 0 <= i < |s| :: IsDigit(s[i]))
    && (s[0] == '0' ==> s == "0")
  }

  lemma {:induction false} DecimalValue(n: nat)
    ensures CanonicalDigits(Decimal(n))
    ensures DigitsValue(Decimal(n)) == n
    ensures Decimal(n)[0] == '0' ==> n == 0
  {
    if n >= 10 {
      DecimalValue(n / 10);
      var s := Decimal(n);
      assert s[..|s| - 1] == Decimal(n / 10);
      assert s[0] == Decimal(n / 10)[0];
    } else {
      var s := Decimal(n);
      assert s[..|s| - 1] == "";
    }
  }

  lemma {:induction false} ValueDecimal(s: string)
    requires CanonicalDigits(s)
    ensures Decimal(DigitsValue(s)) == s
    ensures s != "0" ==> DigitsValue(s) > 0
  {
    var init, last := s[..|s| - 1], s[|s| - 1];
    if init == "" {
      assert DigitsValue(init) == 0;
    } else {
      assert init[0] == s[0];
      ValueDecimal(init);
      assert DigitsValue(s) / 10 == DigitsValue(init);
      assert DigitsValue(s) % 10 == last as int - '0' as int;
    }
    assert s == init + [last];
  }
}
