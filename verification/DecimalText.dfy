/** Numbers written in decimal, as `std::to_string` writes them. */
module DecimalText {

  function Digit(d: nat): char
    requires d < 10
  {
    '0' + d as char
  }

  function Decimal(n: nat): string {
    if n < 10 then [Digit(n)] else Decimal(n / 10) + [Digit(n % 10)]
  }

  predicate IsDigits(text: string) {
    text != "" && forall c | c in text :: '0' <= c <= '9'
  }

  lemma {:induction false} DecimalIsDigits(n: nat)
    ensures IsDigits(Decimal(n))
  {
    if n >= 10 {
      DecimalIsDigits(n / 10);
    }
  }

  /** The number that digits stand for, the last digit counting one and each before it ten times more. */
  function Number(digits: string): int {
    if digits == "" then 0
    else 10 * Number(digits[..|digits| - 1]) + (digits[|digits| - 1] as int - '0' as int)
  }

  lemma {:induction false} NumberOfDecimal(n: nat)
    ensures Number(Decimal(n)) == n
  {
    if n < 10 {
      assert Number(Decimal(n)[..0]) == 0;
    } else {
      var text := Decimal(n / 10);
      NumberOfDecimal(n / 10);
      assert Decimal(n)[..|text|] == text;
    }
  }

  lemma DecimalLength(n: nat)
    ensures |Decimal(n)| > 1 <==> n >= 10
  {
    if n >= 10 {
      DecimalIsDigits(n / 10);
    }
  }

  lemma {:induction false} DecimalInjective(m: nat, n: nat)
    requires Decimal(m) == Decimal(n)
    ensures m == n
  {
    DecimalLength(m);
    DecimalLength(n);
    var s := Decimal(m);
    if m >= 10 {
      assert s[..|s| - 1] == Decimal(m / 10) == Decimal(n / 10);
      DecimalInjective(m / 10, n / 10);
      assert s[|s| - 1] == Digit(m % 10) == Digit(n % 10);
    }
  }

  /** The text of `m` begins that of `n` exactly when some last digits of `n` can be dropped to get `m`. */
  lemma {:induction false} DecimalPrefix(m: nat, n: nat)
    ensures Decimal(m) <= Decimal(n) <==> m == n || (n >= 10 && Decimal(m) <= Decimal(n / 10))
  {
    if Decimal(m) <= Decimal(n) && m != n {
      DecimalIsDigits(m);
      DecimalLength(n);
      if |Decimal(m)| == |Decimal(n)| {
        DecimalInjective(m, n);
      }
      assert n >= 10;
      assert Decimal(n)[..|Decimal(n)| - 1] == Decimal(n / 10);
    }
  }
}
