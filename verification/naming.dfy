/** The zero padding `create_filename` applies to season and episode numbers before they go into
    the output file name template. */
module Naming {
  import opened Strings

  /** `str(n)` when `n >= 10`, otherwise `str(n)` with a `0` in front. */
  function Padded(n: int): string
  {
    if n >= 10 then IntToString(n) else "0" + IntToString(n)
  }

  /** A leading zero does not change the value of a numeral. */
  lemma {:induction false} ParseDigitsLeadingZero(s: string)
    requires AllDigits(s)
    ensures AllDigits("0" + s)
    ensures ParseDigits("0" + s) == ParseDigits(s)
    decreases |s|
  {
    var z := "0" + s;
    if |s| > 0 {
      assert z[..|z| - 1] == "0" + s[..|s| - 1];
      ParseDigitsLeadingZero(s[..|s| - 1]);
    } else {
      assert z == "0";
    }
  }

  /** A non-negative number pads to at least two digits (exactly two below one hundred) that read
      back as the number; only a one-digit number gets a leading zero, and from ten on the text is
      the plain numeral. */
  lemma {:induction false} PaddedDigits(n: nat)
    ensures AllDigits(Padded(n))
    ensures ParseDigits(Padded(n)) == n
    ensures |Padded(n)| >= 2
    ensures n < 100 ==> |Padded(n)| == 2
    ensures Padded(n)[0] == '0' <==> n < 10
    ensures n >= 10 ==> Padded(n) == NatToString(n)
  {
    var s := NatToString(n);
    NatToStringDigits(n);
    if n < 10 {
      assert s == [DigitChar(n)];
      ParseDigitsLeadingZero(s);
    } else {
      assert s == NatToString(n / 10) + [DigitChar(n % 10)];
      if n < 100 {
        assert NatToString(n / 10) == [DigitChar(n / 10)];
      }
    }
  }

  /** Different season or episode numbers give different padded text. */
  lemma {:induction false} PaddedInjective(i: nat, j: nat)
    requires Padded(i) == Padded(j)
    ensures i == j
  {
    PaddedDigits(i);
    PaddedDigits(j);
  }

  /** A negative number passes the `>= 10` test's else branch and gets the zero in front of its
      minus sign. */
  lemma {:induction false} PaddedNegative(n: int)
    requires n < 0
    ensures Padded(n) == "0-" + NatToString(-n)
    ensures !AllDigits(Padded(n))
  {
    var digits := NatToString(-n);
    assert IntToString(n) == "-" + digits;
    var p := "0" + ("-" + digits);
    assert p == "0-" + digits;
    assert p[1] == '-' && !IsDigit(p[1]);
  }
}
