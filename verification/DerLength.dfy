/** Lengths in DER (der/src/length.rs): X.690, sections 8.1.3 and 10.1. */
module DerLength {
  import opened Bits
  import opened DerTag
  import opened Wrappers

  const MAX_LENGTH: nat := 0xFFFF_FFFF
  const INDEFINITE_LENGTH_OCTET: u8 := 0x80

  /** The error at a position: the end of the input shows as an overflow when the position that was
      asked for is not a 32-bit number. */
  function Located(error: ErrorKind, end: nat): ErrorKind {
    if error == Incomplete && end > 0xFFFF_FFFF then Overflow else error
  }

  /** The `k` low octets of `n`, big endian. */
  function BigEndian(n: nat, k: nat): (s: bytes)
    ensures |s| == k
  {
    if k == 0 then [] else BigEndian(n / 256, k - 1) + [n % 256]
  }

  /** The number that octets denote. */
  function FromBigEndian(s: bytes): nat {
    if s == [] then 0 else 256 * FromBigEndian(s[..|s| - 1]) + s[|s| - 1]
  }

  /** `initial_octet`. */
  function InitialOctet(len: u32): Option<u8> {
    if 0x80 <= len <= 0xFF then Some(0x81)
    else if 0x100 <= len <= 0xFFFF then Some(0x82)
    else if 0x1_0000 <= len <= 0xFF_FFFF then Some(0x83)
    else if 0x100_0000 <= len then Some(0x84)
    else None
  }

  /** The length octets: as few as possible. */
  function LengthOctets(len: u32): (s: bytes)
    ensures 1 <= |s| <= 5
  {
    match InitialOctet(len)
    case None => [len]
    case Some(initial) => [initial] + BigEndian(len, initial - 0x80)
  }

  /** `encoded_len`. */
  function LengthLen(len: u32): u32 {
    if len <= 0x7F then 1
    else if len <= 0xFF then 2
    else if len <= 0xFFFF then 3
    else if len <= 0xFF_FFFF then 4
    else 5
  }

  /** Length octets: a length below 128 is its own octet; otherwise the low bits of the first octet
      count the others, which are the length in base 256 without a leading zero. */
  lemma LengthIsNumber(len: u32)
    ensures var s := LengthOctets(len);
            if len < 128 then s == [len]
            else |s| > 1 && s[0] as int == 0x80 + (|s| - 1) && s[1] != 0 && FromDigits(s[1..], 256) == len
  {
    hide FromDigits, BigEndian;
    if len >= 128 {
      var k := InitialOctet(len).value - 0x80;
      PowersOf256();
      OctetsOfNumber(len, k);
      DigitsOfOctets(BigEndian(len, k));
      FirstOctet(len, k);
      assert LengthOctets(len)[1..] == BigEndian(len, k);
    }
  }

  lemma {:induction false} DigitsOfOctets(s: bytes)
    ensures FromBigEndian(s) == FromDigits(s, 256)
  {
    if s != [] {
      DigitsOfOctets(s[..|s| - 1]);
    }
  }

  lemma {:induction false} FirstOctet(n: nat, k: nat)
    requires k > 0 && Pow256(k - 1) <= n < Pow256(k)
    ensures BigEndian(n, k)[0] != 0
    decreases k
  {
    if k > 1 {
      FirstOctet(n / 256, k - 1);
    } else {
      assert BigEndian(n / 256, 0) == [];
    }
  }

  /** The length at the start of `s`, and the number of octets it takes. */
  function ReadLength(s: bytes): (r: Result<(u32, nat), ErrorKind>)
    ensures r.Ok? ==> 0 < r.value.1 <= |s|
  {
    if s == [] then Err(Incomplete)
    else if s[0] < 0x80 then Ok((s[0], 1))
    else if s[0] == INDEFINITE_LENGTH_OCTET then Err(IndefiniteLength)
    else if s[0] > 0x84 then Err(Overlength)
    else
      var k := s[0] - 0x80;
      if |s| < 1 + k then Err(Incomplete)
      else
        FourOctets(s[1..1 + k]);
        var len: u32 := FromBigEndian(s[1..1 + k]);
        if InitialOctet(len) == Some(s[0]) then Ok((len, 1 + k)) else Err(Overlength)
  }

  lemma LengthLenIsExact(len: u32)
    ensures LengthLen(len) == |LengthOctets(len)|
  {
  }

  /** Fewer octets than a length has are too few. */
  lemma LengthIsIncomplete(len: u32, k: nat)
    requires k < |LengthOctets(len)|
    ensures ReadLength(LengthOctets(len)[..k]) == Err(Incomplete)
  {
    hide BigEndian, FromBigEndian;
  }

  /** Octets that are no length, and why: an indefinite length, more than four octets, too few
      octets, and more octets than the length needs. */
  lemma WhyNoLength(s: bytes)
    ensures s == [] ==> ReadLength(s) == Err(Incomplete)
    ensures s != [] && s[0] == 0x80 ==> ReadLength(s) == Err(IndefiniteLength)
    ensures s != [] && s[0] > 0x84 ==> ReadLength(s) == Err(Overlength)
    ensures s != [] && 0x80 < s[0] <= 0x84 ==>
              var k := s[0] - 0x80;
              if |s| <= k then ReadLength(s) == Err(Incomplete)
              else
                var len := FromDigits(s[1..1 + k], 256);
                ReadLength(s) == if len < 0x80 || len < Pow256(k - 1) then Err(Overlength) else Ok((len, 1 + k))
  {
    hide FromBigEndian, FromDigits;
    PowersOf256();
    if s != [] && 0x80 < s[0] <= 0x84 && |s| > s[0] - 0x80 {
      var k := s[0] - 0x80;
      DigitsOfOctets(s[1..1 + k]);
      FromBigEndianRange(s[1..1 + k]);
    }
  }

  function Pow256(k: nat): (p: int)
    ensures p > 0
  {
    if k == 0 then 1 else 256 * Pow256(k - 1)
  }

  lemma {:induction false} FromBigEndianRange(s: bytes)
    ensures FromBigEndian(s) < Pow256(|s|)
  {
    if s != [] {
      FromBigEndianRange(s[..|s| - 1]);
    }
  }

  lemma FourOctets(s: bytes)
    requires |s| <= 4
    ensures FromBigEndian(s) < 0x1_0000_0000
  {
    FromBigEndianRange(s);
    PowersOf256();
  }

  lemma PowersOf256()
    ensures Pow256(0) == 1 && Pow256(1) == 0x100 && Pow256(2) == 0x1_0000
    ensures Pow256(3) == 0x100_0000 && Pow256(4) == 0x1_0000_0000
  {
  }

  /** Octets denote their number. */
  lemma {:induction false} OctetsOfNumber(n: nat, k: nat)
    requires n < Pow256(k)
    ensures FromBigEndian(BigEndian(n, k)) == n
  {
    if k > 0 {
      OctetsOfNumber(n / 256, k - 1);
      assert BigEndian(n, k)[..k - 1] == BigEndian(n / 256, k - 1);
    }
  }

  /** A number denoted by `k` octets has those octets. */
  lemma {:induction false} NumberOfOctets(s: bytes)
    ensures BigEndian(FromBigEndian(s), |s|) == s
  {
    if s != [] {
      var high, low := s[..|s| - 1], s[|s| - 1];
      NumberOfOctets(high);
      RemainderUnique(FromBigEndian(s), 256, FromBigEndian(high), low);
      assert s == high + [low];
    }
  }

  /** A length is read exactly where its octets are: the coding is prefix-free, and only the
      shortest form is accepted. */
  lemma LengthIsReadExactly(s: bytes, len: u32, n: nat)
    ensures ReadLength(s) == Ok((len, n)) <==> LengthOctets(len) <= s && n == |LengthOctets(len)|
  {
    hide BigEndian, FromBigEndian;
    PowersOf256();
    if LengthOctets(len) <= s && InitialOctet(len).Some? {
      var k := InitialOctet(len).value - 0x80;
      assert s[0] == LengthOctets(len)[0];
      assert s[1..1 + k] == LengthOctets(len)[1..] == BigEndian(len, k);
      OctetsOfNumber(len, k);
    }
    if ReadLength(s) == Ok((len, n)) && s[0] > 0x80 {
      NumberOfOctets(s[1..n]);
      assert s[..n] == [s[0]] + s[1..n];
    }
  }
}
