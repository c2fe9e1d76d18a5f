/** Base-128 numbers, as in the tags and object identifiers of X.690, sections 8.1.2.4.2 and 8.19.2:
    big endian, seven bits to an octet, bit 8 set in all octets but the last, and no leading zeros. */
module Base128Numbers {
  import opened Bits

  /** The octets of `v` when more octets follow. */
  function Continued(v: nat): bytes {
    if v == 0 then [] else Continued(v / 128) + [128 + v % 128]
  }

  function Base128(n: nat): (s: bytes)
    ensures s != []
  {
    Continued(n / 128) + [n % 128]
  }

  /** The low seven bits of every octet. */
  function SevenBits(s: bytes): (x: seq<int>)
    ensures |x| == |s| && forall i :: 0 <= i < |s| ==> x[i] == s[i] % 128
  {
    seq(|s|, i requires 0 <= i < |s| => s[i] % 128)
  }

  lemma {:induction false} ContinuedIsNumber(v: nat)
    ensures var s := Continued(v);
            FromDigits(SevenBits(s), 128) == v && (forall i :: 0 <= i < |s| ==> s[i] >= 128) && (s != [] ==> s[0] != 0x80)
    decreases v
  {
    hide FromDigits;
    if v > 0 {
      ContinuedIsNumber(v / 128);
      var s, low := Continued(v / 128), v % 128;
      RemainderUnique(128 + low, 128, 1, low);
      assert SevenBits(s + [128 + low]) == SevenBits(s) + [low];
      AppendDigit(SevenBits(s), low, 128);
    } else {
      NoNumber();
    }
  }

  lemma NoNumber()
    ensures Continued(0) == [] && FromDigits([], 128) == 0
  {
  }

  /** The octets of a number: its digits in base 128, seven bits to an octet; bit 8 is set in all
      octets but the last; and the first octet adds something. */
  lemma OctetsAreNumber(n: nat)
    ensures var s := Base128(n);
            FromDigits(SevenBits(s), 128) == n && s[0] != 0x80 &&
            forall i :: 0 <= i < |s| ==> (s[i] >= 128 <==> i < |s| - 1)
  {
    hide Continued, FromDigits;
    ContinuedIsNumber(n / 128);
    var s, low := Continued(n / 128), n % 128;
    assert SevenBits(s + [low]) == SevenBits(s) + [low];
    AppendDigit(SevenBits(s), low, 128);
  }

  /** One more octet. */
  lemma ContinuedStep(v: nat, low: nat)
    requires low < 128 && (v > 0 || low > 0)
    ensures Continued(128 * v + low) == Continued(v) + [128 + low]
  {
    RemainderUnique(128 * v + low, 128, v, low);
  }

  lemma Base128Step(v: nat, low: nat)
    requires low < 128
    ensures Base128(128 * v + low) == Continued(v) + [low]
  {
    hide Continued, Base128;
    var n := 128 * v + low;
    RemainderUnique(n, 128, v, low);
    Base128Of(n);
  }

  lemma Base128Of(n: nat)
    ensures Base128(n) == Continued(n / 128) + [n % 128]
  {
  }

  /** `n >> 7 * s`. */
  function Shift7(n: nat, s: nat): nat {
    if s == 0 then n else Shift7(n, s - 1) / 128
  }

  lemma {:induction false} Shift7IsShift(n: nat, s: nat)
    ensures Shift7(n, s) == n / Pow2(7 * s)
  {
    if s > 0 {
      Shift7IsShift(n, s - 1);
      var p := Pow2(7 * (s - 1));
      PowerStep(7 * (s - 1));
      DivTwice(n, p, 128);
    } else {
      assert Pow2(0) == 1;
    }
  }

  lemma PowerStep(k: nat)
    ensures Pow2(k + 7) == Pow2(k) * 128
  {
    assert Pow2(k + 2) == Pow2(k) * 4;
    assert Pow2(k + 4) == Pow2(k + 2) * 4;
    assert Pow2(k + 6) == Pow2(k + 4) * 4;
  }

  lemma DivTwice(n: nat, p: nat, q: nat)
    requires p > 0 && q > 0
    ensures p * q > 0 && n / (p * q) == n / p / q
  {
    var a, r := n / p, n % p;
    var b, t := a / q, a % q;
    assert p * (q * b + t) == (p * q) * b + p * t;
    MulAtLeast(p, q - 1, t);
    assert p * (q - 1) == p * q - p;
    RemainderUnique(n, p * q, b, p * t + r);
  }

  /** The shifts that leave something are exactly those below the number of octets. */
  lemma {:induction false} ShiftsLeft(n: nat, s: nat)
    ensures Shift7(n, s) == 0 <==> s >= |Continued(n)|
    decreases s
  {
    if s > 0 {
      ShiftOutside(n, s - 1);
      ShiftsLeft(n / 128, s - 1);
    }
  }

  lemma {:induction false} ShiftOutside(n: nat, s: nat)
    ensures Shift7(n, s + 1) == Shift7(n / 128, s)
  {
    if s > 0 {
      ShiftOutside(n, s - 1);
    }
  }

  /** Number of octets of `n`. */
  lemma OctetCount(n: nat)
    ensures |Base128(n)| == if n == 0 then 1 else |Continued(n)|
  {
  }

  /** The floor of the binary logarithm. */
  function Ilog2(n: nat): nat
    requires n > 0
  {
    if n == 1 then 0 else 1 + Ilog2(n / 2)
  }

  lemma {:induction false} OctetsByLogarithm(n: nat)
    requires n > 0
    ensures |Base128(n)| == Ilog2(n) / 7 + 1
  {
    OctetCount(n);
    if n < 128 {
      SmallLogarithm(n);
    } else {
      LogarithmStep(n);
      OctetCount(n / 128);
      OctetsByLogarithm(n / 128);
    }
  }

  lemma {:induction false} LogarithmOfLess(n: nat, k: nat)
    requires 0 < n < Pow2(k)
    ensures Ilog2(n) < k
  {
    if n > 1 {
      LogarithmOfLess(n / 2, k - 1);
    }
  }

  lemma {:induction false} LogarithmOfMore(n: nat, k: nat)
    requires n >= Pow2(k)
    ensures Ilog2(n) >= k
  {
    if k > 0 {
      LogarithmOfMore(n / 2, k - 1);
    }
  }

  lemma SmallLogarithm(n: nat)
    requires 0 < n < 128
    ensures Ilog2(n) < 7 && |Continued(n)| == 1
  {
    hide Ilog2;
    assert Pow2(7) == 128;
    LogarithmOfLess(n, 7);
    assert Continued(0) == [];
  }

  lemma LogarithmStep(n: nat)
    requires n >= 128
    ensures Ilog2(n) == 7 + Ilog2(n / 128)
  {
    hide Ilog2;
    Halve(n);
    Halve(n / 2);
    Halve(n / 4);
    Halve(n / 8);
    Halve(n / 16);
    Halve(n / 32);
    Halve(n / 64);
  }

  lemma Halve(n: nat)
    requires n >= 2
    ensures Ilog2(n) == 1 + Ilog2(n / 2)
  {
  }

  /** Octets of the 32-bit numbers. */
  lemma OctetRanges(n: nat)
    ensures |Continued(n)| <= 1 <==> n < 0x80
    ensures |Continued(n)| <= 2 <==> n < 0x4000
    ensures |Continued(n)| <= 3 <==> n < 0x20_0000
    ensures |Continued(n)| <= 4 <==> n < 0x1000_0000
    ensures n < 0x1_0000_0000 ==> |Continued(n)| <= 5
  {
    ShiftsLeft(n, 1);
    ShiftsLeft(n, 2);
    ShiftsLeft(n, 3);
    ShiftsLeft(n, 4);
    ShiftsLeft(n, 5);
    ShiftBy(n, 1);
    ShiftBy(n, 2);
    ShiftBy(n, 3);
    ShiftBy(n, 4);
  }

  lemma ShiftBy(n: nat, s: nat)
    ensures Shift7(n, s + 1) == Shift7(n, s) / 128
  {
  }
}
