/** Python's `str` of a non-negative integer. */
module Decimals {
  function Decimal(n: nat): (r: string)
    ensures r != []
  {
    (if n < 10 then [] else Decimal(n / 10)) + [(48 + n % 10) as char]
  }

  function ValueOf(s: string): nat
    requires Digits(s)
  {
    if s == [] then 0 else 10 * ValueOf(s[..|s| - 1]) + (s[|s| - 1] as nat - 48)
  }

  predicate Digits(s: string) {
    forall i | 0 <= i < |s| :: '0' <= s[i] <= '9'
  }

  predicate Canonical(s: string) {
    s != [] && Digits(s) && (|s| > 1 ==> s[0] != '0')
  }

  lemma {:induction false} DecimalIsCanonical(n: nat)
    ensures Canonical(Decimal(n)) && ValueOf(Decimal(n)) == n
    ensures n > 0 ==> Decimal(n)[0] != '0'
  {
    if n >= 10 {
      DecimalIsCanonical(n / 10);
      assert Decimal(n)[..|Decimal(n)| - 1] == Decimal(n / 10);
    } else {
      assert Decimal(n)[..0] == [];
    }
  }

  lemma Division(h: nat, d: nat)
    requires d < 10
    ensures (10 * h + d) / 10 == h && (10 * h + d) % 10 == d
  {
  }

  /** Without a leading zero the digits before the last one count. */
  lemma {:induction false} ValueGrows(s: string)
    requires Canonical(s) && |s| > 1
    ensures ValueOf(s[..|s| - 1]) >= 1 && ValueOf(s) >= 10
  {
    var high := s[..|s| - 1];
    if |high| > 1 {
      ValueGrows(high);
    } else {
      assert high[..0] == [] && ValueOf(high) == high[0] as nat - 48;
    }
  }

  lemma DecimalSnoc(h: nat, last: char, v: nat)
    requires 1 <= h && '0' <= last <= '9' && v == 10 * h + (last as nat - 48)
    ensures Decimal(v) == Decimal(h) + [last]
  {
    Division(h, last as nat - 48);
  }

  lemma OneDigit(s: string)
    requires |s| == 1 && Digits(s)
    ensures s == Decimal(ValueOf(s))
  {
    assert s[..0] == [];
  }

  /** `str(n)` is the one way to write `n` in digits without leading zeros. */
  lemma {:induction false} CanonicalIsDecimal(s: string)
    requires Canonical(s)
    ensures s == Decimal(ValueOf(s))
    ensures |s| > 1 ==> ValueOf(s) >= 10
  {
    if |s| == 1 {
      OneDigit(s);
    } else {
      var high, last := s[..|s| - 1], s[|s| - 1];
      ValueGrows(s);
      CanonicalIsDecimal(high);
      DecimalSnoc(ValueOf(high), last, ValueOf(s));
      Split(s);
    }
  }

  lemma Split(s: string)
    requires s != []
    ensures s == s[..|s| - 1] + [s[|s| - 1]]
  {
  }
}
