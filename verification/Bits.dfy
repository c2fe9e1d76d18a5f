/** Machine integers and the bitwise operators of the source, over unbounded integers.

    `x << k` is `x * Pow2(k)`, and `x >> k` on a signed or unsigned integer is
    `x / Pow2(k)` because Dafny's division by a positive number rounds down.
    `And`, `Or` and `Xor` are the two's complement operators of any width.
  */
module Bits {
  type u8 = x: int | 0 <= x < 0x100
  type u32 = x: int | 0 <= x < 0x1_0000_0000
  type bytes = seq<u8>

  const USIZE_MAX: nat := 0xFFFF_FFFF_FFFF_FFFF
  const ISIZE_MAX: nat := 0x7FFF_FFFF_FFFF_FFFF

  /** The bytes of ASCII text. */
  function Ascii(s: string): (b: bytes)
    requires forall i :: 0 <= i < |s| ==> s[i] as int < 128
    ensures |b| == |s| && forall i :: 0 <= i < |s| ==> b[i] == s[i] as int
  {
    seq(|s|, i requires 0 <= i < |s| => s[i] as int)
  }

  function Min(x: int, y: int): int {
    if x <= y then x else y
  }

  function Abs(x: int): nat {
    if x < 0 then -x else x
  }

  function SaturatingSub(x: nat, y: nat): nat {
    if x < y then 0 else x - y
  }

  /** `n` copies of a byte. */
  function Fill(b: u8, n: nat): (s: bytes)
    ensures |s| == n && forall i :: 0 <= i < n ==> s[i] == b
  {
    if n == 0 then [] else [b] + Fill(b, n - 1)
  }

  /** The number that digits denote, the most significant first. */
  function FromDigits(digits: seq<int>, base: int): int {
    if digits == [] then 0 else base * FromDigits(digits[..|digits| - 1], base) + digits[|digits| - 1]
  }

  /** The number that digits denote, the least significant first. */
  function FromReversedDigits(digits: seq<int>, base: int): int {
    if digits == [] then 0 else digits[0] + base * FromReversedDigits(digits[1..], base)
  }

  lemma AppendDigit(digits: seq<int>, digit: int, base: int)
    ensures FromDigits(digits + [digit], base) == base * FromDigits(digits, base) + digit
  {
    assert (digits + [digit])[..|digits|] == digits;
  }

  function Pow2(k: nat): (p: int)
    ensures p > 0
  {
    if k == 0 then 1 else 2 * Pow2(k - 1)
  }

  function And(x: int, y: int): int
    decreases Abs(x)
  {
    if x == 0 || y == 0 then 0
    else if x == -1 then y
    else if y == -1 then x
    else 2 * And(x / 2, y / 2) + if x % 2 == 1 && y % 2 == 1 then 1 else 0
  }

  function Or(x: int, y: int): int
    decreases Abs(x)
  {
    if x == 0 then y
    else if y == 0 then x
    else if x == -1 || y == -1 then -1
    else 2 * Or(x / 2, y / 2) + if x % 2 == 1 || y % 2 == 1 then 1 else 0
  }

  function Xor(x: int, y: int): int
    decreases Abs(x)
  {
    if x == 0 then y
    else if y == 0 then x
    else if x == -1 then -1 - y
    else if y == -1 then -1 - x
    else 2 * Xor(x / 2, y / 2) + if x % 2 != y % 2 then 1 else 0
  }

  ghost predicate Fits(x: int, k: nat) {
    -Pow2(k) <= x < Pow2(k)
  }

  /** `&` of two (k+1)-bit signed numbers is one, negative exactly when both are. */
  lemma {:induction false} AndRange(x: int, y: int, k: nat)
    requires Fits(x, k) && Fits(y, k)
    ensures Fits(And(x, y), k)
    ensures And(x, y) < 0 <==> x < 0 && y < 0
    decreases k
  {
    if k > 0 {
      AndRange(x / 2, y / 2, k - 1);
    }
  }

  /** `|` of two (k+1)-bit signed numbers is one, negative exactly when either is. */
  lemma {:induction false} OrRange(x: int, y: int, k: nat)
    requires Fits(x, k) && Fits(y, k)
    ensures Fits(Or(x, y), k)
    ensures Or(x, y) < 0 <==> x < 0 || y < 0
    ensures Or(x, y) == 0 <==> x == 0 && y == 0
    decreases k
  {
    if k > 0 {
      OrRange(x / 2, y / 2, k - 1);
    }
  }

  /** Masking with `k` low ones keeps the remainder modulo `2^k`. */
  lemma {:induction false} AndLowMask(x: int, k: nat)
    ensures And(x, Pow2(k) - 1) == x % Pow2(k)
    decreases k
  {
    if k > 0 {
      AndLowMask(x / 2, k - 1);
      HalfRemainder(x, Pow2(k - 1));
    }
  }

  lemma HalfRemainder(x: int, p: int)
    requires p > 0
    ensures x % (2 * p) == 2 * (x / 2 % p) + x % 2
  {
    var q, r := x / 2 / p, x / 2 % p;
    assert x == (2 * p) * q + (2 * r + x % 2);
    RemainderUnique(x, 2 * p, q, 2 * r + x % 2);
  }

  lemma RemainderUnique(x: int, d: int, q: int, r: int)
    requires 0 <= r < d && x == d * q + r
    ensures x / d == q && x % d == r
  {
    var q' := x / d;
    assert x == d * q' + x % d;
    if q > q' {
      MulAtLeast(d, q, q' + 1);
    } else if q < q' {
      MulAtLeast(d, q', q + 1);
    }
  }

  lemma MulAtLeast(d: int, x: int, y: int)
    requires d > 0 && x >= y
    ensures d * x >= d * y && d * (y - 1) == d * y - d
  {
  }

  /** Quotient and remainder of a number written as high and low part. */
  lemma Glue(high: int, low: int, k: int)
    requires k == 4 || k == 16 || k == 64
    requires 0 <= low < k
    ensures (high * k + low) / k == high && (high * k + low) % k == low
  {
  }

  /** Clearing `k` low bits. */
  lemma {:induction false} AndHighMask(x: int, k: nat)
    ensures And(x, -Pow2(k)) == x - x % Pow2(k)
    decreases k
  {
    if k > 0 {
      AndHighMask(x / 2, k - 1);
      HalfRemainder(x, Pow2(k - 1));
    }
  }

  /** `|` into low bits that are clear is addition. */
  lemma {:induction false} OrIntoZeros(x: int, low: int, k: nat)
    requires 0 <= low < Pow2(k)
    ensures Or(x * Pow2(k), low) == x * Pow2(k) + low
    decreases k
  {
    if k > 0 && x != 0 && low != 0 {
      var p := Pow2(k - 1);
      assert x * Pow2(k) == 2 * (x * p);
      OrIntoZeros(x, low / 2, k - 1);
    }
  }

  lemma {:induction false} OrSymmetric(x: int, y: int)
    ensures Or(x, y) == Or(y, x)
    decreases Abs(x)
  {
    if x != 0 && x != -1 && y != 0 && y != -1 {
      OrSymmetric(x / 2, y / 2);
    }
  }

  lemma {:induction false} XorZero(x: int, y: int)
    ensures Xor(x, y) == 0 <==> x == y
    decreases Abs(x)
  {
    if x != 0 && x != -1 && y != 0 && y != -1 {
      XorZero(x / 2, y / 2);
    }
  }

  /** A mask with `k` low zeros looks at the high part only. */
  lemma {:induction false} AndShifted(x: nat, m: nat, k: nat)
    ensures And(x, m * Pow2(k)) == And(x / Pow2(k), m) * Pow2(k)
    decreases k
  {
    hide And;
    if k > 0 {
      var p := Pow2(k - 1);
      assert m * Pow2(k) == 2 * (m * p);
      AndEven(x, m * p);
      AndShifted(x / 2, m, k - 1);
      DivHalf(x, p);
      assert And(x / 2 / p, m) * Pow2(k) == 2 * (And(x / 2 / p, m) * p);
    }
  }

  lemma AndEven(x: nat, n: nat)
    ensures And(x, 2 * n) == 2 * And(x / 2, n)
  {
  }

  lemma DivHalf(x: nat, p: nat)
    requires p > 0
    ensures x / (2 * p) == x / 2 / p
  {
    var q, r := x / 2 / p, x / 2 % p;
    assert x == (2 * p) * q + (2 * r + x % 2);
    RemainderUnique(x, 2 * p, q, 2 * r + x % 2);
  }
}
