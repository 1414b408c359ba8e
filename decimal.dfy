/**
 * Decimal numerals as the C library writes and reads them for the task file:
 * printf "%d" and "%02d" on the way out, scanf "%d" on the way back.
 */
module Decimal {
  import opened Wrappers

  predicate IsDigit(c: char) {
    '0' <= c <= '9'
  }

  function DigitValue(c: char): (d: nat)
    requires IsDigit(c)
    ensures d < 10
  {
    c as int - '0' as int
  }

  function DigitChar(d: nat): (c: char)
    requires d < 10
    ensures IsDigit(c) && DigitValue(c) == d
  {
    ('0' as int + d) as char
  }

  predicate AllDigits(s: string) {
    forall i :: 0 <= i < |s| ==> IsDigit(s[i])
  }

  /** A numeral as printf writes it: digits, possibly after a minus sign. */
  predicate IsNumeral(s: string) {
    forall i :: 0 <= i < |s| ==> IsDigit(s[i]) || s[i] == '-'
  }

  /** The digits of n, most significant first, without leading zeros. */
  function NatDigits(n: nat): (s: string)
    ensures |s| >= 1 && IsDigit(s[0])
    ensures n > 0 ==> s[0] != '0'
    ensures n < 10 ==> |s| == 1
    ensures 10 <= n < 100 ==> |s| == 2
    ensures n >= 10 ==> |s| >= 2
  {
    if n < 10 then [DigitChar(n)] else NatDigits(n / 10) + [DigitChar(n % 10)]
  }

  /** The value of a run of digits; leading zeros are allowed. */
  function ValueOf(s: string): nat
    requires AllDigits(s)
  {
    if s == [] then 0 else 10 * ValueOf(s[..|s| - 1]) + DigitValue(s[|s| - 1])
  }

  /** printf "%d": a minus sign leads exactly the negative values. */
  function FormatInt(i: int): (s: string)
    ensures |s| >= 1 && (s[0] == '-' <==> i < 0)
  {
    if i < 0 then "-" + NatDigits(-i) else NatDigits(i)
  }

  /** printf "%02d": a single-digit non-negative value gets a leading zero. */
  function FormatInt02(i: int): (s: string)
    ensures 0 <= i ==> |s| >= 2 && IsDigit(s[0])
    ensures 0 <= i < 100 ==> |s| == 2 && AllDigits(s)
    ensures 0 <= i < 10 <==> 0 <= i && s[0] == '0'
    ensures i < 0 ==> |s| >= 2 && s[0] == '-'
  {
    NatDigitsAreDigits(if i < 0 then -i else i);
    if 0 <= i < 10 then "0" + NatDigits(i) else FormatInt(i)
  }

  /** scanf "%d" applied to a whole field: an optional sign and at least one digit. */
  function ParseInt(s: string): (r: Option<int>)
    ensures r.Some? ==> s != [] && (r.value < 0 ==> s[0] == '-')
    ensures r.Some? && s[0] != '-' && s[0] != '+' ==> AllDigits(s)
  {
    if |s| >= 2 && s[0] == '-' && AllDigits(s[1..]) then Some(-(ValueOf(s[1..]) as int))
    else if |s| >= 2 && s[0] == '+' && AllDigits(s[1..]) then Some(ValueOf(s[1..]))
    else if |s| >= 1 && AllDigits(s) then Some(ValueOf(s))
    else None
  }

  lemma {:induction false} NatDigitsAreDigits(n: nat)
    ensures |NatDigits(n)| >= 1 && AllDigits(NatDigits(n))
  {
    if n >= 10 {
      NatDigitsAreDigits(n / 10);
    }
  }

  /** printf writes only digits and a minus sign, so never a newline or a colon. */
  lemma FormatAreNumerals(i: int)
    ensures IsNumeral(FormatInt(i)) && IsNumeral(FormatInt02(i))
    ensures '\n' !in FormatInt(i) && ':' !in FormatInt02(i) && '\n' !in FormatInt02(i)
    ensures FormatInt(i) != [] && FormatInt02(i) != []
  {
    NatDigitsAreDigits(if i < 0 then -i else i);
  }

  lemma {:induction false} ValueOfNatDigits(n: nat)
    ensures AllDigits(NatDigits(n)) && ValueOf(NatDigits(n)) == n
  {
    NatDigitsAreDigits(n);
    if n >= 10 {
      var s := NatDigits(n);
      NatDigitsAreDigits(n / 10);
      assert s[..|s| - 1] == NatDigits(n / 10);
      ValueOfNatDigits(n / 10);
    }
  }

  /** Reading back what printf "%d" wrote gives the same integer. */
  lemma ParseFormatInt(i: int)
    ensures ParseInt(FormatInt(i)) == Some(i)
  {
    var s := FormatInt(i);
    if i < 0 {
      var d := NatDigits(-i);
      assert s == "-" + d;
      assert s[0] == '-' && s[1..] == d;
      ValueOfNatDigits(-i);
      assert ParseInt(s) == Some(-(ValueOf(d) as int));
    } else {
      var d := NatDigits(i);
      assert s == d;
      ValueOfNatDigits(i);
      NatDigitsAreDigits(i);
      assert IsDigit(s[0]);
    }
  }

  /** Reading back what printf "%02d" wrote gives the same integer: the padding zero is harmless. */
  lemma ParseFormatInt02(i: int)
    ensures ParseInt(FormatInt02(i)) == Some(i)
  {
    if 0 <= i < 10 {
      var s := FormatInt02(i);
      NatDigitsAreDigits(i);
      assert s == ['0', DigitChar(i)];
      assert s[..1] == ['0'];
      assert ValueOf(s[..1]) == 0 by {
        assert s[..1][..0] == [];
      }
    } else {
      ParseFormatInt(i);
    }
  }
}
