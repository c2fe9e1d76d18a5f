/** Base64 text as a number: RFC 4648 takes the bits of the data six at a time, so the text is the
    data in base 64 (base64ct/src/alphabet.rs, base64ct/src/encoding.rs).  This says what the
    encoding is without following its blocks. */
module Base64Numbers {
  import opened Bits
  import opened Alphabets
  import opened Codec

  /** The values of the characters. */
  function Sextet(a: Alphabet, s: bytes): (x: seq<int>)
    requires AllChars(a, s)
    ensures |x| == |s| && forall i :: 0 <= i < |s| ==> x[i] == FromChar(a, s[i])
  {
    seq(|s|, i requires 0 <= i < |s| => FromChar(a, s[i]))
  }

  lemma SextetsConcat(a: Alphabet, s: bytes, t: bytes)
    requires AllChars(a, s) && AllChars(a, t)
    ensures AllChars(a, s + t) && Sextet(a, s + t) == Sextet(a, s) + Sextet(a, t)
  {
    hide FromChar, IsChar;
    CharsOfParts(a, s, t);
  }

  // ----- groups -----

  /** The four groups of six bits are the three bytes as one number, in either order. */
  lemma GroupIsNumber(b0: u8, b1: u8, b2: u8)
    ensures var q: seq<int> := Sextets(BigEndian, b0, b1, b2);
            64 * (64 * (64 * q[0] + q[1]) + q[2]) + q[3] == 256 * (256 * (b0 as int) + b1) + b2
    ensures var q: seq<int> := Sextets(LittleEndian, b0, b1, b2);
            q[0] + 64 * (q[1] + 64 * (q[2] + 64 * q[3])) == (b0 as int) + 256 * (b1 + 256 * (b2 as int))
  {
  }

  /** The values of the characters of a block. */
  lemma SextetsOfBlock(e: Encoding, d: bytes)
    requires !e.padded && 1 <= |d| <= 3
    ensures AllChars(e.alphabet, EncodeBlock(e, d))
    ensures var q := Sextets(e.alphabet.order, d[0], if |d| > 1 then d[1] else 0, if |d| > 2 then d[2] else 0);
            Sextet(e.alphabet, EncodeBlock(e, d)) == q[..|d| + 1]
  {
    hide Sextets, Encodes, Lookup, IsChar;
    BlockRoundTrip(e, d);
    if |d| == 3 {
      FullBlock(e, d);
    } else {
      BlockOfSextets(e, d);
    }
  }

  // ----- most significant bits first -----

  /** The bits of a short last block that reach no byte. */
  function SpareBits(n: nat): nat {
    if n % 3 == 1 then 4 else if n % 3 == 2 then 2 else 0
  }

  lemma AppendTwo(x: seq<int>, d0: int, d1: int, base: int)
    ensures FromDigits(x + [d0, d1], base) == base * (base * FromDigits(x, base) + d0) + d1
  {
    hide FromDigits;
    assert x + [d0, d1] == x + [d0] + [d1];
    AppendDigit(x, d0, base);
    AppendDigit(x + [d0], d1, base);
  }

  lemma AppendThree(x: seq<int>, d0: int, d1: int, d2: int, base: int)
    ensures FromDigits(x + [d0, d1, d2], base) == base * (base * (base * FromDigits(x, base) + d0) + d1) + d2
  {
    hide FromDigits;
    assert x + [d0, d1, d2] == x + [d0, d1] + [d2];
    AppendTwo(x, d0, d1, base);
    AppendDigit(x + [d0, d1], d2, base);
  }

  lemma AppendFour(x: seq<int>, d0: int, d1: int, d2: int, d3: int, base: int)
    ensures FromDigits(x + [d0, d1, d2, d3], base) ==
            base * (base * (base * (base * FromDigits(x, base) + d0) + d1) + d2) + d3
  {
    hide FromDigits;
    assert x + [d0, d1, d2, d3] == x + [d0, d1, d2] + [d3];
    AppendThree(x, d0, d1, d2, base);
    AppendDigit(x + [d0, d1, d2], d3, base);
  }

  /** The digits of a block appended to equal numbers. */
  lemma AppendGroup(x: seq<int>, a: bytes, g: bytes)
    requires 1 <= |g| <= 3 && FromDigits(x, 64) == FromDigits(a, 256)
    ensures var q := Sextets(BigEndian, g[0], if |g| > 1 then g[1] else 0, if |g| > 2 then g[2] else 0);
            FromDigits(x + q[..|g| + 1], 64) == FromDigits(a + g, 256) * Pow2(SpareBits(|g|))
  {
    hide FromDigits, Sextets, Pow2;
    var q: seq<int> := Sextets(BigEndian, g[0], if |g| > 1 then g[1] else 0, if |g| > 2 then g[2] else 0);
    SmallPowers();
    if |g| == 1 {
      assert g == [g[0]] && q[..2] == [q[0], q[1]];
      AppendOneByte(x, a, g[0]);
    } else if |g| == 2 {
      assert g == [g[0], g[1]] && q[..3] == [q[0], q[1], q[2]];
      AppendTwoBytes(x, a, g[0], g[1]);
    } else {
      assert g == [g[0], g[1], g[2]] && q[..4] == [q[0], q[1], q[2], q[3]];
      AppendThreeBytes(x, a, g[0], g[1], g[2]);
    }
  }

  lemma AppendOneByte(x: seq<int>, a: bytes, b0: u8)
    requires FromDigits(x, 64) == FromDigits(a, 256)
    ensures var q: seq<int> := Sextets(BigEndian, b0, 0, 0);
            FromDigits(x + [q[0], q[1]], 64) == FromDigits(a + [b0], 256) * 16
  {
    hide FromDigits, Sextets;
    var q: seq<int> := Sextets(BigEndian, b0, 0, 0);
    AppendTwo(x, q[0], q[1], 64);
    AppendDigit(a, b0, 256);
    OneByte(b0);
  }

  lemma AppendTwoBytes(x: seq<int>, a: bytes, b0: u8, b1: u8)
    requires FromDigits(x, 64) == FromDigits(a, 256)
    ensures var q: seq<int> := Sextets(BigEndian, b0, b1, 0);
            FromDigits(x + [q[0], q[1], q[2]], 64) == FromDigits(a + [b0, b1], 256) * 4
  {
    hide FromDigits, Sextets;
    var q: seq<int> := Sextets(BigEndian, b0, b1, 0);
    AppendThree(x, q[0], q[1], q[2], 64);
    AppendTwo(a, b0, b1, 256);
    TwoBytes(b0, b1);
  }

  lemma AppendThreeBytes(x: seq<int>, a: bytes, b0: u8, b1: u8, b2: u8)
    requires FromDigits(x, 64) == FromDigits(a, 256)
    ensures var q: seq<int> := Sextets(BigEndian, b0, b1, b2);
            FromDigits(x + [q[0], q[1], q[2], q[3]], 64) == FromDigits(a + [b0, b1, b2], 256)
  {
    hide FromDigits, Sextets;
    var q: seq<int> := Sextets(BigEndian, b0, b1, b2);
    AppendFour(x, q[0], q[1], q[2], q[3], 64);
    AppendThree(a, b0, b1, b2, 256);
    GroupIsNumber(b0, b1, b2);
  }

  lemma SmallPowers()
    ensures Pow2(0) == 1 && Pow2(2) == 4 && Pow2(4) == 16
  {
  }

  lemma OneByte(b0: u8)
    ensures var q: seq<int> := Sextets(BigEndian, b0, 0, 0); 64 * q[0] + q[1] == 16 * (b0 as int)
  {
  }

  lemma TwoBytes(b0: u8, b1: u8)
    ensures var q: seq<int> := Sextets(BigEndian, b0, b1, 0);
            64 * (64 * q[0] + q[1]) + q[2] == 4 * (256 * (b0 as int) + b1)
  {
  }

  /** A block appended to whole blocks. */
  lemma AppendBlock(e: Encoding, a: bytes, g: bytes)
    requires !e.padded && e.alphabet.order == BigEndian && |a| % 3 == 0 && 1 <= |g| <= 3
    requires AllChars(e.alphabet, Encoded(e, a))
    requires FromDigits(Sextet(e.alphabet, Encoded(e, a)), 64) == FromDigits(a, 256)
    ensures AllChars(e.alphabet, Encoded(e, a + g))
    ensures FromDigits(Sextet(e.alphabet, Encoded(e, a + g)), 64) == FromDigits(a + g, 256) * Pow2(SpareBits(|g|))
  {
    hide Encoded, EncodeBlock, FromDigits, Sextets, Encodes, Lookup, IsChar, SpareBits;
    EncodedConcat(e, a, g);
    OneBlock(e, g);
    SextetsOfBlock(e, g);
    SextetsConcat(e.alphabet, Encoded(e, a), Encoded(e, g));
    AppendGroup(Sextet(e.alphabet, Encoded(e, a)), a, g);
  }

  lemma OneBlock(e: Encoding, g: bytes)
    requires 1 <= |g| <= 3
    ensures Encoded(e, g) == EncodeBlock(e, g)
  {
    hide EncodeBlock;
  }

  /** The text is the data in base 64, after the spare bits of the last block have been added. */
  lemma {:induction false} TextIsNumber(e: Encoding, d: bytes)
    requires !e.padded && e.alphabet.order == BigEndian
    ensures AllChars(e.alphabet, Encoded(e, d))
    ensures FromDigits(Sextet(e.alphabet, Encoded(e, d)), 64) == FromDigits(d, 256) * Pow2(SpareBits(|d|))
    decreases |d|
  {
    hide Encoded, FromDigits, FromChar, IsChar, SpareBits, LastStart, Sextet;
    EncodedDecodes(e, d);
    if d == [] {
      NoBlocks(e);
    } else {
      var k := LastStart(|d|, 3);
      var a, g := d[..k], d[k..];
      LastBlockLength(|d|);
      EncodedDecodes(e, a);
      TextIsNumber(e, a);
      AppendBlock(e, a, g);
      assert d == a + g;
    }
  }

  lemma LastBlockLength(n: nat)
    requires n > 0
    ensures 1 <= n - LastStart(n, 3) <= 3 && SpareBits(n - LastStart(n, 3)) == SpareBits(n)
    ensures LastStart(n, 3) % 3 == 0 && Pow2(SpareBits(LastStart(n, 3))) == 1
  {
    assert Pow2(0) == 1;
    var q, r := (n - 1) / 3, (n - 1) % 3;
    RemainderUnique(LastStart(n, 3), 3, q, 0);
    RemainderUnique(n, 3, if r == 2 then q + 1 else q, if r == 2 then 0 else r + 1);
  }

  lemma NoBlocks(e: Encoding)
    ensures Encoded(e, []) == [] && Sextet(e.alphabet, []) == [] && FromDigits([], 64) == FromDigits([], 256) == 0
    ensures FromReversedDigits([], 64) == FromReversedDigits([], 256) == 0
  {
  }

  // ----- least significant bits first -----

  lemma ReversedGroup(q: seq<int>, x: seq<int>, base: int)
    requires 2 <= |q| <= 4
    ensures FromReversedDigits(q + x, base) ==
            if |q| == 2 then q[0] + base * (q[1] + base * FromReversedDigits(x, base))
            else if |q| == 3 then q[0] + base * (q[1] + base * (q[2] + base * FromReversedDigits(x, base)))
            else q[0] + base * (q[1] + base * (q[2] + base * (q[3] + base * FromReversedDigits(x, base))))
  {
    hide FromReversedDigits;
    var s := q + x;
    ReversedStep(s, base);
    ReversedStep(s[1..], base);
    assert s[1..][1..] == s[2..];
    if |q| == 2 {
      assert s[2..] == x;
    } else {
      ReversedStep(s[2..], base);
      assert s[2..][1..] == s[3..];
      if |q| == 3 {
        assert s[3..] == x;
      } else {
        ReversedStep(s[3..], base);
        assert s[3..][1..] == x;
      }
    }
  }

  lemma ReversedStep(s: seq<int>, base: int)
    requires s != []
    ensures FromReversedDigits(s, base) == s[0] + base * FromReversedDigits(s[1..], base)
  {
  }

  /** In the other bit order the text is the data in base 64, least significant digits first. */
  lemma {:induction false} TextIsReversedNumber(e: Encoding, d: bytes)
    requires !e.padded && e.alphabet.order == LittleEndian
    ensures AllChars(e.alphabet, Encoded(e, d))
    ensures FromReversedDigits(Sextet(e.alphabet, Encoded(e, d)), 64) == FromReversedDigits(d, 256)
    decreases |d|
  {
    hide Encoded, EncodeBlock, FromReversedDigits, FromChar, IsChar, Sextets, Sextet;
    EncodedDecodes(e, d);
    NoBlocks(e);
    if |d| >= 3 {
      FirstBlock(e, d);
      EncodedDecodes(e, d[3..]);
      SextetsOfBlock(e, d[..3]);
      SextetsConcat(e.alphabet, EncodeBlock(e, d[..3]), Encoded(e, d[3..]));
      TextIsReversedNumber(e, d[3..]);
      ReversedWhole(Sextet(e.alphabet, Encoded(e, d[3..])), d);
    } else if d != [] {
      OneBlock(e, d);
      SextetsOfBlock(e, d);
      ReversedShort(d);
    }
  }

  lemma ReversedWhole(x: seq<int>, d: bytes)
    requires |d| >= 3 && FromReversedDigits(x, 64) == FromReversedDigits(d[3..], 256)
    ensures FromReversedDigits(Sextets(LittleEndian, d[0], d[1], d[2])[..4] + x, 64) == FromReversedDigits(d, 256)
  {
    hide FromReversedDigits, Sextets;
    var q: seq<int> := Sextets(LittleEndian, d[0], d[1], d[2]);
    GroupIsNumber(d[0], d[1], d[2]);
    assert q[..4] == q;
    ReversedGroup(q, x, 64);
    ReversedGroup(d[..3], d[3..], 256);
    assert d == d[..3] + d[3..];
  }

  lemma ReversedShort(d: bytes)
    requires 1 <= |d| <= 2
    ensures var q := Sextets(LittleEndian, d[0], if |d| == 2 then d[1] else 0, 0);
            FromReversedDigits(q[..|d| + 1], 64) == FromReversedDigits(d, 256)
  {
    hide FromReversedDigits;
    var q: seq<int> := Sextets(LittleEndian, d[0], if |d| == 2 then d[1] else 0, 0);
    var none: seq<int> := [];
    assert FromReversedDigits(none, 64) == FromReversedDigits(none, 256) == 0 by {
      NothingReversed();
    }
    ReversedGroup(q[..|d| + 1], none, 64);
    assert q[..|d| + 1] + none == q[..|d| + 1];
    if |d| == 2 {
      ReversedGroup(d, none, 256);
      assert d + none == d;
    } else {
      ReversedStep(d, 256);
      assert d[1..] == none;
    }
  }

  lemma NothingReversed()
    ensures FromReversedDigits([], 64) == FromReversedDigits([], 256) == 0
  {
  }

  // ----- padding -----

  /** Padded text is a multiple of four characters, at most two of which are padding. */
  lemma PaddedText(e: Encoding, d: bytes)
    requires e.padded
    ensures var s, u := Encoded(e, d), Encoded(e.Unpadded(), d);
            |s| == (|d| + 2) / 3 * 4 && |u| == (4 * |d| + 2) / 3 && |s| - 2 <= |u| <= |s| &&
            s == u + Fill('=' as int, |s| - |u|)
  {
    hide Encoded;
    EncodedPadding(e, d);
    EncodedLength(e, d);
    EncodedLength(e.Unpadded(), d);
    var q, r := |d| / 3, |d| % 3;
    EncodedLenOfGroups(|d|, false);
    EncodedLenOfGroups(|d|, true);
    RemainderUnique(4 * |d| + 2, 3, 4 * q + if r == 0 then 0 else r + 1, if r == 0 then 2 else if r == 1 then 0 else 1);
    RemainderUnique(|d| + 2, 3, if r == 0 then q else q + 1, (r + 2) % 3);
  }
}
