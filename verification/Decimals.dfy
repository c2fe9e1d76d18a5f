/** Decimal numbers in ASCII. */
module Decimals {
  import opened Bits

  const ZERO: u8 := 48

  predicate IsDigit(c: u8) {
    48 <= c <= 57
  }

  predicate AllDigits(s: bytes) {
    forall i :: 0 <= i < |s| ==> IsDigit(s[i])
  }

  /** The decimal digits of a number, most significant first. */
  function Digits(n: nat): (s: bytes)
    ensures s != [] && AllDigits(s) && (s[0] == ZERO ==> n == 0 && s == [ZERO])
  {
    if n < 10 then [ZERO + n] else Digits(n / 10) + [ZERO + n % 10]
  }

  /** The number that a string of digits denotes. */
  function Value(s: bytes): nat
    requires AllDigits(s)
  {
    if s == [] then 0 else 10 * Value(s[..|s| - 1]) + (s[|s| - 1] - ZERO)
  }

  /** The values of decimal digits. */
  function DigitValues(s: bytes): (x: seq<int>)
    ensures |x| == |s| && forall i :: 0 <= i < |s| ==> x[i] == s[i] - '0' as int
  {
    seq(|s|, i requires 0 <= i < |s| => s[i] - '0' as int)
  }

  /** The decimal digits of a number denote it, in ASCII and without a leading zero. */
  lemma {:induction false} DigitsAreDecimal(n: nat)
    ensures var s := Digits(n);
            FromDigits(DigitValues(s), 10) == n && (s[0] == '0' as int ==> n == 0) &&
            forall i :: 0 <= i < |s| ==> '0' as int <= s[i] <= '9' as int
  {
    if n >= 10 {
      DigitsAreDecimal(n / 10);
      var s, low := Digits(n / 10), ZERO + n % 10;
      assert DigitValues(s + [low]) == DigitValues(s) + [n % 10];
      AppendDigit(DigitValues(s), n % 10, 10);
    }
  }

  /** Any digits denote their number in base 10. */
  lemma {:induction false} ValueIsNumber(s: bytes)
    requires AllDigits(s)
    ensures Value(s) == FromDigits(DigitValues(s), 10)
  {
    if s != [] {
      var high := s[..|s| - 1];
      ValueIsNumber(high);
      assert DigitValues(s)[..|s| - 1] == DigitValues(high);
    }
  }

  lemma {:induction false} ValueOfDigits(n: nat)
    ensures Value(Digits(n)) == n
  {
    if n >= 10 {
      ValueOfDigits(n / 10);
      assert Digits(n)[..|Digits(n)| - 1] == Digits(n / 10);
    }
  }

  /** Digits without a leading zero are the digits of the number they denote. */
  lemma {:induction false} DigitsOfValue(s: bytes)
    requires s != [] && AllDigits(s) && (s[0] == ZERO ==> s == [ZERO])
    ensures Digits(Value(s)) == s
  {
    var n := |s|;
    if n > 1 {
      var high := s[..n - 1];
      DigitsOfValue(high);
      ValuePositive(high);
      assert s == high + [s[n - 1]];
    } else {
      assert s == [s[0]] && s[..0] == [];
    }
  }

  lemma {:induction false} ValuePositive(s: bytes)
    requires s != [] && AllDigits(s) && s[0] != ZERO
    ensures Value(s) > 0
  {
    if |s| > 1 {
      ValuePositive(s[..|s| - 1]);
    }
  }

  lemma ValueAppend(s: bytes, c: u8)
    requires AllDigits(s) && IsDigit(c)
    ensures AllDigits(s + [c]) && Value(s + [c]) == 10 * Value(s) + (c - ZERO)
  {
    assert (s + [c])[..|s|] == s;
  }

  /** More digits never denote less. */
  lemma {:induction false} ValueOfPrefix(s: bytes, n: nat)
    requires AllDigits(s) && n <= |s|
    ensures AllDigits(s[..n]) && Value(s[..n]) <= Value(s)
    decreases |s|
  {
    if n < |s| {
      ValueOfPrefix(s[..|s| - 1], n);
      assert s[..|s| - 1][..n] == s[..n];
    } else {
      assert s[..n] == s;
    }
  }
}
