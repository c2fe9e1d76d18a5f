/** One-shot Base64 (base64ct/src/encoding.rs), for padded and unpadded encodings over
    any valid alphabet: RFC 4648, sections 4 and 5.

    `Encoded` is the reference definition of the encoding.  The methods work chunk by
    chunk on arrays, as the source does; decoding is specified as the inverse of `Encoded`.
  */
module Codec {
  import opened Bits
  import opened Alphabets
  import opened Slices
  import opened Wrappers

  datatype Encoding = Encoding(alphabet: Alphabet, padded: bool) {
    function Unpadded(): Encoding {
      this.(padded := false)
    }
  }

  datatype Error = InvalidEncoding | InvalidLength

  // ----- reference definition -----

  function EncodeBlock(e: Encoding, d: bytes): (s: bytes)
    requires 1 <= |d| <= 3
    ensures |s| == if e.padded then 4 else |d| + 1
  {
    EncodeGroup(e.alphabet, d + Fill(0, 3 - |d|))[..|d| + 1] + if e.padded then Fill(PAD, 3 - |d|) else []
  }

  function Encoded(e: Encoding, d: bytes): (s: bytes) {
    if d == [] then []
    else if |d| <= 3 then EncodeBlock(e, d)
    else EncodeBlock(e, d[..3]) + Encoded(e, d[3..])
  }

  /** The length arithmetic of `encoded_len_inner`, without its overflow check. */
  function EncodedLen(n: nat, padded: bool): nat {
    var len := (n + 2) / 3 * 4;
    if padded || n % 3 == 0 then len else len - (3 - n % 3)
  }

  /** The encoded length in terms of whole groups and bytes left over. */
  lemma EncodedLenOfGroups(n: nat, padded: bool)
    ensures var q, r := n / 3, n % 3;
            n == 3 * q + r && EncodedLen(n, padded) == 4 * q + if r == 0 then 0 else if padded then 4 else r + 1
  {
    var q, r := n / 3, n % 3;
    RemainderUnique(n + 2, 3, if r == 0 then q else q + 1, (r + 2) % 3);
  }

  /** The overflow check of `encoded_len_inner` never fires: slices hold at most ISIZE_MAX bytes. */
  lemma EncodedLenFitsUsize(n: nat, padded: bool)
    requires n <= ISIZE_MAX
    ensures EncodedLen(n, padded) <= (n + 2) / 3 * 4 <= USIZE_MAX
  {
  }

  lemma {:induction false} EncodedLength(e: Encoding, d: bytes)
    ensures |Encoded(e, d)| == EncodedLen(|d|, e.padded)
  {
    hide EncodeBlock, EncodedLen;
    EncodedLenOfGroups(|d|, e.padded);
    if |d| > 3 {
      EncodedLength(e, d[3..]);
      EncodedLenOfGroups(|d| - 3, e.padded);
    }
  }

  lemma FullBlock(e: Encoding, d: bytes)
    requires |d| == 3
    ensures EncodeBlock(e, d) == EncodeBlock(e.Unpadded(), d) == EncodeGroup(e.alphabet, d)
  {
    hide EncodeGroup;
    assert d + Fill(0, 0) == d;
  }

  lemma FirstBlock(e: Encoding, d: bytes)
    requires |d| >= 3
    ensures Encoded(e, d) == EncodeBlock(e, d[..3]) + Encoded(e, d[3..])
  {
    hide EncodeBlock;
    assert |d| == 3 ==> d[..3] == d && d[3..] == [];
  }

  /** Whole 3-byte groups encode independently of what follows. */
  lemma {:induction false} EncodedConcat(e: Encoding, a: bytes, b: bytes)
    requires |a| % 3 == 0
    ensures Encoded(e, a + b) == Encoded(e, a) + Encoded(e, b)
    ensures Encoded(e, a) == Encoded(e.Unpadded(), a)
  {
    hide EncodeBlock;
    if a == [] {
      assert a + b == b;
    } else {
      hide Encoded;
      FullBlock(e, a[..3]);
      FirstBlock(e, a);
      FirstBlock(e.Unpadded(), a);
      FirstBlock(e, a + b);
      EncodedConcat(e, a[3..], b);
      assert (a + b)[..3] == a[..3] && (a + b)[3..] == a[3..] + b;
    }
  }

  function PadCount(n: nat): nat {
    (3 - n % 3) % 3
  }

  lemma BlockPadding(e: Encoding, d: bytes)
    requires e.padded && 1 <= |d| <= 3
    ensures EncodeBlock(e, d) == EncodeBlock(e.Unpadded(), d) + Fill(PAD, 3 - |d|)
  {
    hide EncodeGroup;
  }

  lemma {:induction false} EncodedPadding(e: Encoding, d: bytes)
    requires e.padded
    ensures Encoded(e, d) == Encoded(e.Unpadded(), d) + Fill(PAD, PadCount(|d|))
  {
    hide EncodeBlock;
    if |d| > 3 {
      BlockPadding(e, d[..3]);
      EncodedPadding(e, d[3..]);
    } else if d != [] {
      BlockPadding(e, d);
    }
  }

  // ----- block-by-block decoding of unpadded text -----

  function DecodeBlock(a: Alphabet, s: bytes): (d: bytes)
    requires 1 <= |s| <= 4 && AllChars(a, s)
    ensures |d| == 3 * |s| / 4
  {
    DecodeGroup(a, s + Fill(UPPER_A, 4 - |s|))[..3 * |s| / 4]
  }

  function DecodeBlocks(a: Alphabet, s: bytes): (d: bytes)
    requires AllChars(a, s)
    ensures |d| == DecodedLen(|s|)
  {
    if s == [] then []
    else if |s| <= 4 then DecodeBlock(a, s)
    else DecodeBlock(a, s[..4]) + DecodeBlocks(a, s[4..])
  }

  /** `decoded_len`: the length of the data decoded from unpadded text. */
  function DecodedLen(n: nat): nat {
    3 * (n / 4) + 3 * (n % 4) / 4
  }

  lemma {:induction false} DecodeBlocksConcat(a: Alphabet, s: bytes, t: bytes)
    requires |s| % 4 == 0 && AllChars(a, s) && AllChars(a, t)
    ensures AllChars(a, s + t) && DecodeBlocks(a, s + t) == DecodeBlocks(a, s) + DecodeBlocks(a, t)
  {
    hide DecodeBlock, DecodedLen;
    if s == [] {
      assert s + t == t;
    } else {
      DecodeBlocksConcat(a, s[4..], t);
      assert (s + t)[..4] == s[..4] && (s + t)[4..] == s[4..] + t;
      assert s[4..] == [] ==> s[..4] == s;
      assert s[4..] + t == [] ==> (s + t)[..4] == s + t;
    }
  }

  /** The filler characters and the zero bits of a short block do not reach its data. */
  lemma BlockRoundTrip(e: Encoding, d: bytes)
    requires !e.padded && 1 <= |d| <= 3
    ensures AllChars(e.alphabet, EncodeBlock(e, d))
    ensures DecodeBlock(e.alphabet, EncodeBlock(e, d)) == d
  {
    var a := e.alphabet;
    var full := d + Fill(0, 3 - |d|);
    var q := EncodeGroup(a, full);
    GroupRoundTrip(a, full);
    var s := EncodeBlock(e, d) + Fill(UPPER_A, 3 - |d|);
    assert |s| == 4 && forall i :: 0 <= i <= |d| ==> s[i] == q[i];
    TailIgnoresFiller(a, q, s, |d|);
  }

  /** The first `n` bytes of a group are determined by its first `n + 1` characters. */
  lemma TailIgnoresFiller(a: Alphabet, q: bytes, s: bytes, n: nat)
    requires 1 <= n <= 3 && |q| == |s| == 4
    requires AllChars(a, q) && AllChars(a, s)
    requires forall i :: 0 <= i <= n ==> s[i] == q[i]
    requires forall i :: n < i < 4 ==> FromChar(a, q[i]) == 0
    ensures DecodeGroup(a, q)[..n] == DecodeGroup(a, s)[..n]
  {
  }

  // ----- the encoding is canonical -----

  /** Unpadded encodings decode block by block to the original data. */
  lemma {:induction false} EncodedDecodes(e: Encoding, d: bytes)
    requires !e.padded
    ensures AllChars(e.alphabet, Encoded(e, d)) && |Encoded(e, d)| % 4 != 1
    ensures DecodeBlocks(e.alphabet, Encoded(e, d)) == d
  {
    hide EncodeBlock, DecodeBlock;
    if d == [] {
    } else if |d| <= 3 {
      BlockRoundTrip(e, d);
    } else {
      BlockRoundTrip(e, d[..3]);
      EncodedDecodes(e, d[3..]);
      DecodeBlocksConcat(e.alphabet, EncodeBlock(e, d[..3]), Encoded(e, d[3..]));
    }
  }

  /** Start of the last block, as `last_block_start` computes it. */
  function LastStart(n: nat, blockSize: nat): (start: nat)
    requires blockSize > 0
    ensures start <= n
  {
    var m := if n == 0 then 0 else n - 1;
    m / blockSize * blockSize
  }

  lemma LastStartOfRest(n: nat, blockSize: nat)
    requires 0 < blockSize < n
    ensures LastStart(n, blockSize) == blockSize + LastStart(n - blockSize, blockSize)
  {
    RemainderUnique(n - 1, blockSize, (n - 1 - blockSize) / blockSize + 1, (n - 1 - blockSize) % blockSize);
  }

  lemma LastStartOfFirst(n: nat, blockSize: nat)
    requires n <= blockSize && 0 < blockSize
    ensures LastStart(n, blockSize) == 0
  {
    if n > 0 {
      RemainderUnique(n - 1, blockSize, 0, n - 1);
    }
  }

  lemma {:induction false} LastBlockOfEncoded(e: Encoding, d: bytes)
    requires d != []
    ensures 1 <= |d| - LastStart(|d|, 3) <= 3
    ensures LastStart(|Encoded(e, d)|, 4) == LastStart(|d|, 3) / 3 * 4
    ensures Encoded(e, d)[LastStart(|Encoded(e, d)|, 4)..] == EncodeBlock(e, d[LastStart(|d|, 3)..])
  {
    hide EncodeBlock, LastStart;
    var s := Encoded(e, d);
    if |d| <= 3 {
      LastStartOfFirst(|d|, 3);
      LastStartOfFirst(|s|, 4);
      assert d[0..] == d && s[0..] == s;
    } else {
      var d' := d[3..];
      LastBlockOfEncoded(e, d');
      LastStartOfRest(|d|, 3);
      LastStartOfRest(|s|, 4);
      assert d'[LastStart(|d'|, 3)..] == d[LastStart(|d|, 3)..];
      assert s[LastStart(|s|, 4)..] == Encoded(e, d')[LastStart(|s| - 4, 4)..];
    }
  }

  /** Text whose last block survives re-encoding is the encoding of what it decodes to:
      the other blocks carry no spare bits. */
  lemma {:induction false} DecodedReencodes(e: Encoding, s: bytes)
    requires !e.padded && AllChars(e.alphabet, s) && s != [] && |s| % 4 != 1
    requires var d := DecodeBlocks(e.alphabet, s);
             EncodeBlock(e, d[LastStart(|d|, 3)..]) == s[LastStart(|s|, 4)..]
    ensures Encoded(e, DecodeBlocks(e.alphabet, s)) == s
  {
    hide EncodeBlock, DecodeBlock, LastStart, DecodedLen;
    var d := DecodeBlocks(e.alphabet, s);
    if |s| <= 4 {
      LastStartOfFirst(|d|, 3);
      LastStartOfFirst(|s|, 4);
      assert d[0..] == d && s[0..] == s;
    } else {
      var s', d' := s[4..], d[3..];
      assert d' == DecodeBlocks(e.alphabet, s');
      DecodedLenPositive(|s'|);
      LastStartOfRest(|d|, 3);
      LastStartOfRest(|s|, 4);
      assert d'[LastStart(|d'|, 3)..] == d[LastStart(|d|, 3)..];
      assert s'[LastStart(|s'|, 4)..] == s[LastStart(|s|, 4)..];
      DecodedReencodes(e, s');
      WholeBlockReencodes(e, s[..4]);
      assert d[..3] == DecodeBlock(e.alphabet, s[..4]);
      assert s == s[..4] + s';
    }
  }

  lemma DecodedLenPositive(n: nat)
    requires n > 0 && n % 4 != 1
    ensures DecodedLen(n) > 0
  {
  }

  lemma WholeBlockReencodes(e: Encoding, s: bytes)
    requires |s| == 4 && AllChars(e.alphabet, s)
    ensures EncodeBlock(e, DecodeBlock(e.alphabet, s)) == s
  {
    hide EncodeGroup, DecodeGroup;
    GroupIsCanonical(e.alphabet, s);
    assert s + Fill(UPPER_A, 0) == s;
    assert DecodeGroup(e.alphabet, s)[..3] == DecodeGroup(e.alphabet, s);
    FullBlock(e, DecodeBlock(e.alphabet, s));
  }

  // ----- padding -----

  /** `is_pad_ct`: branch-free comparison with the padding character. */
  function IsPad(c: u8): (bit: int)
    ensures bit == if c == PAD then 1 else 0
  {
    BetweenIsMask(PAD, PAD, c);
    And(Between(PAD - 1, PAD + 1, c), 1)
  }

  /** Padding characters among the last two. */
  ghost function CountPads(s: bytes): nat {
    (if |s| >= 2 && s[|s| - 2] == PAD then 1 else 0) + if |s| >= 2 && s[|s| - 1] == PAD then 1 else 0
  }

  /** `decode_padding`: the unpadded length and an error bit for malformed padding. */
  function DecodePadding(input: bytes): (r: Result<(nat, int), Error>)
    ensures r.Ok? <==> |input| % 4 == 0
    ensures r.Err? ==> r.error == InvalidEncoding
    ensures r.Ok? ==> r.value.0 <= |input| && |input| - r.value.0 <= 2 && 0 <= r.value.1 <= 1
    ensures r.Ok? ==> r.value.0 == |input| - CountPads(input)
    ensures r.Ok? ==> (r.value.1 == 0 <==> input == input[..r.value.0] + Fill(PAD, |input| - r.value.0))
  {
    if |input| % 4 != 0 then Err(InvalidEncoding)
    else if input == [] then Ok((0, 0))
    else
      var b0, b1 := input[|input| - 2], input[|input| - 1];
      var paddingLen := IsPad(b0) + IsPad(b1);
      var unpaddedLen := |input| - paddingLen;
      var err :=
        if paddingLen == 1 then Xor(IsPad(b1), 1)
        else if paddingLen == 2 then Xor(And(IsPad(b0), IsPad(b1)), 1)
        else 0;
      assert input[unpaddedLen..] == Fill(PAD, paddingLen) <==> err == 0;
      Ok((unpaddedLen, err))
  }

  /** Unpadded text of `src` and whether its padding is well formed. */
  ghost predicate Unpads(e: Encoding, src: bytes, n: nat) {
    n <= |src| &&
    if e.padded then |src| % 4 == 0 && |src| - n <= 2 && src == src[..n] + Fill(PAD, |src| - n)
    else n == |src|
  }

  /** Padded text is an encoding exactly when its unpadded part is. */
  lemma UnpaddedPart(e: Encoding, src: bytes, n: nat, d: bytes)
    requires Unpads(e, src, n)
    ensures src[..n] == Encoded(e.Unpadded(), d) ==> src == Encoded(e, d)
    ensures AllChars(e.alphabet, src[..n]) && src == Encoded(e, d) ==> src[..n] == Encoded(e.Unpadded(), d)
  {
    hide Encoded, EncodedLen, PadCount;
    var u := Encoded(e.Unpadded(), d);
    EncodedLength(e.Unpadded(), d);
    EncodedLength(e, d);
    if e.padded {
      PaddedLength(|d|);
      EncodedPadding(e, d);
      if src[..n] == u {
        SamePadCount(|d|, |src| - n);
      }
      if src == Encoded(e, d) && AllChars(e.alphabet, src[..n]) {
        EncodedDecodes(e.Unpadded(), d);
        assert !IsChar(e.alphabet, PAD);
        assert |u| < |src| ==> src[|u|] == PAD;
        assert n < |src| ==> src[n] == PAD;
        assert src[..n] == u;
      }
    }
  }

  lemma SamePadCount(n: nat, k: nat)
    requires k <= 2 && (EncodedLen(n, false) + k) % 4 == 0
    ensures k == PadCount(n)
  {
    hide EncodedLen;
    EncodedLenOfGroups(n, false);
    var q, r := n / 3, n % 3;
    var x := k + if r == 0 then 0 else r + 1;
    RemainderUnique(EncodedLen(n, false) + k, 4, if x < 4 then q else q + 1, if x < 4 then x else x - 4);
  }

  /** Every encoding has well-formed padding, and the decoder finds it. */
  lemma EncodedUnpads(e: Encoding, d: bytes)
    ensures !e.padded ==> Encoded(e, d) == Encoded(e.Unpadded(), d)
    ensures var s := Encoded(e, d);
            e.padded ==>
              DecodePadding(s).Ok? && DecodePadding(s).value == (|Encoded(e.Unpadded(), d)|, 0)
  {
    hide Encoded, DecodePadding, EncodedLen, PadCount, CountPads, Fill;
    if e.padded {
      PaddedLength(|d|);
      EncodedLength(e, d);
      EncodedLength(e.Unpadded(), d);
      EncodedPadding(e, d);
      EncodedDecodes(e.Unpadded(), d);
      CountPadsOf(e.alphabet, Encoded(e.Unpadded(), d), PadCount(|d|));
    }
  }

  lemma PaddedLength(n: nat)
    ensures EncodedLen(n, true) == EncodedLen(n, false) + PadCount(n)
    ensures EncodedLen(n, true) % 4 == 0 && PadCount(n) <= 2
    ensures PadCount(n) > 0 ==> EncodedLen(n, false) >= 2
  {
  }

  lemma CountPadsOf(a: Alphabet, u: bytes, k: nat)
    requires AllChars(a, u) && k <= 2 && (|u| >= 2 || k == 0)
    ensures var s := u + Fill(PAD, k);
            CountPads(s) == k && s == s[..|u|] + Fill(PAD, |s| - |u|)
  {
    var s := u + Fill(PAD, k);
    assert !IsChar(a, PAD);
    if |u| >= 2 {
      assert s[|u| - 1] != PAD && s[|u| - 2] != PAD;
    }
  }

  /** The encoding is injective. */
  lemma EncodedInjective(e: Encoding, d: bytes, d': bytes)
    requires Encoded(e, d) == Encoded(e, d')
    ensures d == d'
  {
    hide EncodeBlock;
    EncodedUnpads(e, d);
    EncodedUnpads(e, d');
    var u, u' := Encoded(e.Unpadded(), d), Encoded(e.Unpadded(), d');
    if e.padded {
      EncodedPadding(e, d);
      EncodedPadding(e, d');
      assert u == Encoded(e, d)[..|u|] && u' == Encoded(e, d')[..|u'|];
    }
    EncodedDecodes(e.Unpadded(), d);
    EncodedDecodes(e.Unpadded(), d');
  }

  // ----- the chunked implementations -----

  /** Encode `src` into the slice `dst[lo..hi]`. */
  method Encode(e: Encoding, src: bytes, dst: array<u8>, lo: nat, hi: nat) returns (r: Result<nat, Error>)
    requires lo <= hi <= dst.Length
    modifies dst
    ensures r == if |Encoded(e, src)| <= hi - lo then Ok(|Encoded(e, src)|) else Err(InvalidLength)
    ensures r.Ok? ==> dst[lo..lo + r.value] == Encoded(e, src)
    ensures r.Ok? ==> dst[..lo] == old(dst[..lo]) && dst[lo + r.value..] == old(dst[lo + r.value..])
    ensures r.Err? ==> dst[..] == old(dst[..])
  {
    hide Encoded, EncodedLen, EncodeBlock, Fill;
    EncodedLength(e, src);
    var elen := EncodedLen(|src|, e.padded);
    if elen > hi - lo {
      return Err(InvalidLength);
    }
    var blocks := |src| / 3;
    SplitRemainder(e, src);
    EncodeChunks(e, src, blocks, dst, lo, lo + elen);
    if 3 * blocks < |src| {
      ghost var before := dst[..];
      assert elen == 4 * blocks + |EncodeBlock(e, src[3 * blocks..])|;
      EncodeRemainder(e, src[3 * blocks..], dst, lo + 4 * blocks);
      AppendOutput(before, dst[..], lo, lo + 4 * blocks, EncodeBlock(e, src[3 * blocks..]));
    }
    r := Ok(elen);
  }

  method EncodeChunks(e: Encoding, src: bytes, blocks: nat, dst: array<u8>, lo: nat, end: nat)
    requires 3 * blocks <= |src| && lo + 4 * blocks <= end <= dst.Length
    modifies dst
    ensures dst[lo..lo + 4 * blocks] == Encoded(e, src[..3 * blocks])
    ensures dst[..lo] == old(dst[..lo]) && dst[end..] == old(dst[end..])
  {
    for i := 0 to blocks
      invariant dst[lo..lo + 4 * i] == Encoded(e, src[..3 * i])
      invariant dst[..lo] == old(dst[..lo]) && dst[end..] == old(dst[end..])
    {
      EncodeChunk(e, src, i, dst, lo, end);
    }
  }

  /** The encoding ends in the block of the bytes left over by the full chunks. */
  lemma SplitRemainder(e: Encoding, src: bytes)
    ensures var n := |src| / 3;
            Encoded(e, []) == [] && |Encoded(e, src[..3 * n])| == 4 * n &&
            Encoded(e, src) == Encoded(e, src[..3 * n]) +
                               if 3 * n < |src| then EncodeBlock(e, src[3 * n..]) else []
  {
    hide EncodeBlock;
    var n := |src| / 3;
    assert src == src[..3 * n] + src[3 * n..];
    EncodedConcat(e, src[..3 * n], src[3 * n..]);
    EncodedLength(e, src[..3 * n]);
  }

  /** One full chunk. */
  method EncodeChunk(e: Encoding, src: bytes, i: nat, dst: array<u8>, lo: nat, end: nat)
    requires 3 * i + 3 <= |src| && lo + 4 * i + 4 <= end <= dst.Length
    requires dst[lo..lo + 4 * i] == Encoded(e, src[..3 * i])
    modifies dst
    ensures dst[lo..lo + 4 * i + 4] == Encoded(e, src[..3 * i + 3])
    ensures dst[..lo] == old(dst[..lo]) && dst[end..] == old(dst[end..])
  {
    hide EncodeGroup;
    var chunk := src[3 * i..3 * i + 3];
    var at := lo + 4 * i;
    ghost var before := dst[..];
    Encode3Bytes(e.alphabet, chunk, dst, at);
    FullBlock(e, chunk);
    EncodedConcat(e, src[..3 * i], chunk);
    assert src[..3 * i] + chunk == src[..3 * i + 3];
    Untouched(before, dst[..], at, at + 4, lo, end);
    assert dst[lo..at + 4] == dst[lo..at] + dst[at..at + 4];
  }

  /** The last one or two bytes: masked padding, or a truncated group. */
  method EncodeRemainder(e: Encoding, rem: bytes, dst: array<u8>, at: nat)
    requires 1 <= |rem| <= 2 && at + |EncodeBlock(e, rem)| <= dst.Length
    modifies dst
    ensures dst[..at] == old(dst[..at])
    ensures dst[at..at + |EncodeBlock(e, rem)|] == EncodeBlock(e, rem)
    ensures dst[at + |EncodeBlock(e, rem)|..] == old(dst[at + |EncodeBlock(e, rem)|..])
  {
    hide EncodeGroup;
    var tmpIn := rem + Fill(0, 3 - |rem|);
    if e.padded {
      Encode3Bytes(e.alphabet, tmpIn, dst, at);
      var mask: u8 := if |rem| == 1 then 0 else 255;
      assert And(0, 255 - mask) == 0;
      ByteMasks(dst[at + 2], mask);
      dst[at + 2] := Or(And(dst[at + 2], mask), And(PAD, 255 - mask));
      dst[at + 3] := PAD;
    } else {
      var tmpOut := new u8[4];
      Encode3Bytes(e.alphabet, tmpIn, tmpOut, 0);
      assert tmpOut[..] == tmpOut[0..4];
      CopyFromSlice(dst, at, tmpOut[..|rem| + 1]);
    }
  }

  /** Selecting between a byte and the padding with a mask and its complement. */
  lemma ByteMasks(c: u8, mask: u8)
    requires mask == 0 || mask == 255
    ensures Or(And(c, mask), And(PAD, 255 - mask)) == if mask == 0 then PAD else c
  {
    if mask == 0 {
      FullMask(PAD);
      assert And(c, 0) == 0;
    } else {
      FullMask(c);
      assert And(PAD, 0) == 0;
    }
  }

  lemma FullMask(c: u8)
    ensures And(c, 255) == c
  {
    hide And;
    assert Pow2(4) == 16;
    assert Pow2(8) == 16 * Pow2(4);
    AndLowMask(c, 8);
  }

  /** `validate_last_block`: re-encode the last decoded block and compare it with the
      last encoded one, accumulating the differing bits. */
  method ValidateLastBlock(e: Encoding, encoded: bytes, decoded: bytes) returns (r: Result<(), Error>)
    requires 1 <= |decoded| - LastStart(|decoded|, 3) <= 3
    requires |encoded| - LastStart(|encoded|, 4) == |EncodeBlock(e, decoded[LastStart(|decoded|, 3)..])|
    ensures r == if encoded[LastStart(|encoded|, 4)..] == EncodeBlock(e, decoded[LastStart(|decoded|, 3)..])
                 then Ok(()) else Err(InvalidEncoding)
  {
    hide EncodeBlock;
    var encBlock := encoded[LastStart(|encoded|, 4)..];
    var decBlock := decoded[LastStart(|decoded|, 3)..];
    var buf := new u8[4];
    var len := Encode(e, decBlock, buf, 0, 4);
    var block := buf[..len.value];
    var acc: int := 0;
    for i := 0 to |block|
      invariant 0 <= acc < 256
      invariant acc == 0 <==> block[..i] == encBlock[..i]
    {
      assert block[..i + 1] == block[..i] + [block[i]] && encBlock[..i + 1] == encBlock[..i] + [encBlock[i]];
      OrOfDifference(acc, block[i], encBlock[i]);
      acc := Or(acc, Xor(block[i], encBlock[i]));
    }
    r := if acc == 0 then Ok(()) else Err(InvalidEncoding);
  }

  lemma OrOfDifference(acc: u8, x: u8, y: u8)
    ensures 0 <= Or(acc, Xor(x, y)) < 256
    ensures Or(acc, Xor(x, y)) == 0 <==> acc == 0 && x == y
  {
    XorZero(x, y);
    XorByte(x, y, 8);
    assert Pow2(4) == 16;
    assert Pow2(8) == 16 * Pow2(4);
    OrRange(acc, Xor(x, y), 8);
  }

  lemma {:induction false} XorByte(x: int, y: int, k: nat)
    requires 0 <= x < Pow2(k) && 0 <= y < Pow2(k)
    ensures 0 <= Xor(x, y) < Pow2(k)
    decreases k
  {
    if k > 0 {
      XorByte(x / 2, y / 2, k - 1);
    }
  }

  /** Decode the full chunks of `u`, collecting the error bits. */
  method DecodeChunks(a: Alphabet, u: bytes, dst: array<u8>, lo: nat, end: nat, err0: int) returns (err: int)
    requires lo + DecodedLen(|u|) <= end <= dst.Length && 0 <= err0 <= 1
    modifies dst
    ensures 0 <= err <= 1
    ensures var n := |u| / 4;
            (err == 0 <==> err0 == 0 && AllChars(a, u[..4 * n])) &&
            (err == 0 ==> dst[lo..lo + 3 * n] == DecodeBlocks(a, u[..4 * n]))
    ensures dst[..lo] == old(dst[..lo]) && dst[end..] == old(dst[end..])
  {
    hide DecodeBlocks;
    err := err0;
    assert DecodeBlocks(a, []) == [];
    for i := 0 to |u| / 4
      invariant 0 <= err <= 1
      invariant err == 0 ==> err0 == 0 && AllChars(a, u[..4 * i])
      invariant err0 == 0 && AllChars(a, u[..4 * i]) ==> err == 0
      invariant err == 0 ==> dst[lo..lo + 3 * i] == DecodeBlocks(a, u[..4 * i])
      invariant dst[..lo] == old(dst[..lo]) && dst[end..] == old(dst[end..])
    {
      err := DecodeChunk(a, u, i, dst, lo, end, err);
    }
  }

  method DecodeChunk(a: Alphabet, u: bytes, i: nat, dst: array<u8>, lo: nat, end: nat, err0: int) returns (err: int)
    requires 4 * i + 4 <= |u| && lo + 3 * i + 3 <= end <= dst.Length && 0 <= err0 <= 1
    requires err0 == 0 ==> AllChars(a, u[..4 * i]) && dst[lo..lo + 3 * i] == DecodeBlocks(a, u[..4 * i])
    modifies dst
    ensures 0 <= err <= 1
    ensures err == 0 <==> err0 == 0 && AllChars(a, u[..4 * i + 4])
    ensures err == 0 ==> dst[lo..lo + 3 * i + 3] == DecodeBlocks(a, u[..4 * i + 4])
    ensures dst[..lo] == old(dst[..lo]) && dst[end..] == old(dst[end..])
  {
    hide DecodeBlock, DecodeGroup, Or;
    var chunk := u[4 * i..4 * i + 4];
    ghost var before := dst[..];
    var at := lo + 3 * i;
    var bit := Decode3Bytes(a, chunk, dst, at);
    Untouched(before, dst[..], at, at + 3, lo, end);
    OrBits(err0, bit);
    assert u[..4 * i + 4] == u[..4 * i] + chunk;
    assert AllChars(a, u[..4 * i + 4]) ==> AllChars(a, chunk);
    err := Or(err0, bit);
    if err == 0 {
      DecodeBlocksConcat(a, u[..4 * i], chunk);
      WholeBlock(a, chunk);
    }
  }

  lemma WholeBlock(a: Alphabet, s: bytes)
    requires |s| == 4 && AllChars(a, s)
    ensures DecodeBlocks(a, s) == DecodeGroup(a, s)
  {
    hide DecodeGroup;
    assert s + Fill(UPPER_A, 0) == s;
    assert DecodeGroup(a, s)[..3] == DecodeGroup(a, s);
  }

  lemma OrBits(x: int, y: int)
    requires 0 <= x <= 1 && 0 <= y <= 1
    ensures 0 <= Or(x, y) <= 1 && (Or(x, y) == 0 <==> x == 0 && y == 0)
  {
  }

  /** The one to three characters left over by the full chunks, completed with a filler. */
  method DecodeRemainder(a: Alphabet, rem: bytes, dst: array<u8>, at: nat) returns (err: int)
    requires |rem| <= 3 && at + 3 * |rem| / 4 <= dst.Length
    modifies dst
    ensures err == if AllChars(a, rem) && |rem| != 1 then 0 else 1
    ensures err == 0 ==> dst[at..at + 3 * |rem| / 4] == DecodeBlocks(a, rem)
    ensures dst[..at] == old(dst[..at]) && dst[at + 3 * |rem| / 4..] == old(dst[at + 3 * |rem| / 4..])
  {
    hide DecodeGroup, Or;
    var tmpIn := rem + Fill(UPPER_A, 4 - |rem|);
    assert IsChar(a, UPPER_A) && forall i :: 0 <= i < |rem| ==> tmpIn[i] == rem[i];
    var tmpOut := new u8[3];
    err := Decode3Bytes(a, tmpIn, tmpOut, 0);
    assert tmpOut[..] == tmpOut[0..3];
    OrBits(if |rem| == 0 || |rem| >= 2 then 0 else 1, err);
    err := Or(if |rem| == 0 || |rem| >= 2 then 0 else 1, err);
    CopyFromSlice(dst, at, tmpOut[..3 * |rem| / 4]);
  }

  /** Everything that `decode` does to unpadded text before it looks at the error bits. */
  method DecodeText(a: Alphabet, u: bytes, dst: array<u8>, lo: nat, err0: int) returns (err: int)
    requires lo + DecodedLen(|u|) <= dst.Length && 0 <= err0 <= 1
    modifies dst
    ensures err == 0 <==> err0 == 0 && AllChars(a, u) && |u| % 4 != 1
    ensures err == 0 ==> dst[lo..lo + DecodedLen(|u|)] == DecodeBlocks(a, u)
    ensures dst[..lo] == old(dst[..lo])
    ensures dst[lo + DecodedLen(|u|)..] == old(dst[lo + DecodedLen(|u|)..])
  {
    hide DecodeBlocks, Or;
    var full := |u| / 4;
    var rem := u[4 * full..];
    var dlen := DecodedLen(|u|);
    assert u == u[..4 * full] + rem;
    err := DecodeChunks(a, u, dst, lo, lo + dlen, err0);
    ghost var before := dst[..];
    var bit := DecodeRemainder(a, rem, dst, lo + 3 * full);
    Untouched(before, dst[..], lo + 3 * full, lo + dlen, lo, lo + dlen);
    OrBits(err, bit);
    err := Or(err, bit);
    if err == 0 {
      DecodeBlocksConcat(a, u[..4 * full], rem);
    }
  }

  // ----- what decoding accepts -----

  /** Length of the text without its padding; 0 when the length alone is wrong. */
  function UnpaddedLen(e: Encoding, src: bytes): (n: nat)
    ensures n <= |src|
  {
    if !e.padded then |src| else match DecodePadding(src) case Ok((n, _)) => n case Err(_) => 0
  }

  ghost predicate LastBlockReencodes(e: Encoding, src: bytes, d: bytes) {
    d != [] && src[LastStart(|src|, 4)..] == EncodeBlock(e, d[LastStart(|d|, 3)..])
  }

  /** The checks `decode` and `decode_in_place` share: padding, foreign characters, and
      a stray last character. */
  ghost predicate TextChecks(e: Encoding, src: bytes) {
    var n := UnpaddedLen(e, src);
    Unpads(e, src, n) && AllChars(e.alphabet, src[..n]) && n % 4 != 1
  }

  /** `decode` also checks the spare bits of the last block. */
  ghost predicate Checks(e: Encoding, src: bytes) {
    TextChecks(e, src) &&
    (src != [] ==> LastBlockReencodes(e, src, DecodeBlocks(e.alphabet, src[..UnpaddedLen(e, src)])))
  }

  /** The data that `decode` yields, given enough room. */
  ghost function Decoded(e: Encoding, src: bytes): Option<bytes> {
    if Checks(e, src) then Some(DecodeBlocks(e.alphabet, src[..UnpaddedLen(e, src)])) else None
  }

  /** The last block of text is one longer than that of its data. */
  lemma LastLengths(n: nat)
    requires n > 0 && n % 4 != 1
    ensures DecodedLen(n) > 0 && n - LastStart(n, 4) == DecodedLen(n) - LastStart(DecodedLen(n), 3) + 1
  {
    var q, t := (n - 1) / 4, (n - 1) % 4;
    RemainderUnique(n, 4, if t == 3 then q + 1 else q, if t == 3 then 0 else t + 1);
    RemainderUnique(DecodedLen(n) - 1, 3, q, t - 1);
  }

  lemma SameLastStart(m: nat, n: nat)
    requires m % 4 == 0 && n <= m && m - n <= 2
    ensures LastStart(m, 4) == LastStart(n, 4)
  {
    if m > 0 {
      RemainderUnique(m - 1, 4, m / 4 - 1, 3);
      RemainderUnique(n - 1, 4, m / 4 - 1, 3 - (m - n));
    }
  }

  /** The last block without its padding. */
  lemma LastBlockUnpads(e: Encoding, src: bytes, n: nat, d: bytes)
    requires Unpads(e, src, n) && n % 4 != 1 && src != [] && |d| == DecodedLen(n)
    requires LastBlockReencodes(e, src, d)
    ensures n > 0 && src[..n][LastStart(n, 4)..] == EncodeBlock(e.Unpadded(), d[LastStart(|d|, 3)..])
  {
    hide EncodeBlock, LastStart, DecodedLen;
    var last := d[LastStart(|d|, 3)..];
    LastLengths(n);
    if e.padded {
      SameLastStart(|src|, n);
      BlockPadding(e, last);
      assert src[LastStart(|src|, 4)..] == src[..n][LastStart(n, 4)..] + Fill(PAD, |src| - n);
    } else {
      assert src[..n] == src;
    }
  }

  lemma ChecksSuffice(e: Encoding, src: bytes)
    requires Checks(e, src)
    ensures src == Encoded(e, DecodeBlocks(e.alphabet, src[..UnpaddedLen(e, src)]))
  {
    hide EncodeBlock, DecodeBlocks, Encoded, UnpaddedLen;
    var n := UnpaddedLen(e, src);
    var u := src[..n];
    var d := DecodeBlocks(e.alphabet, u);
    if src == [] {
      assert d == [] && Encoded(e, []) == [] by { EncodedLength(e, []); }
    } else {
      LastBlockUnpads(e, src, n, d);
      DecodedReencodes(e.Unpadded(), u);
      UnpaddedPart(e, src, n, d);
    }
  }

  lemma UnpaddedLenOfEncoded(e: Encoding, d: bytes)
    ensures var s, u := Encoded(e, d), Encoded(e.Unpadded(), d);
            UnpaddedLen(e, s) == |u| && Unpads(e, s, |u|) && s[..|u|] == u
  {
    hide Encoded, DecodePadding, EncodedLen;
    EncodedUnpads(e, d);
    EncodedLength(e, d);
    PaddedLength(|d|);
    if e.padded {
      EncodedPadding(e, d);
    }
  }

  lemma ChecksAreNecessary(e: Encoding, d: bytes)
    ensures Decoded(e, Encoded(e, d)) == Some(d)
  {
    hide EncodeBlock, DecodeBlocks, Encoded, UnpaddedLen, Unpads;
    UnpaddedLenOfEncoded(e, d);
    EncodedDecodes(e.Unpadded(), d);
    if d != [] {
      LastBlockOfEncoded(e, d);
    } else {
      EncodedLength(e, d);
    }
  }

  /** Decoding accepts exactly the image of encoding: encodings are canonical. */
  lemma DecodesExactlyEncodings(e: Encoding, src: bytes, d: bytes)
    ensures Decoded(e, src) == Some(d) <==> src == Encoded(e, d)
  {
    hide EncodeBlock, DecodeBlocks, Encoded;
    if Checks(e, src) {
      ChecksSuffice(e, src);
    }
    if src == Encoded(e, d) {
      ChecksAreNecessary(e, d);
    }
  }

  /** The two last blocks that `validate_last_block` compares have the same length. */
  lemma LastBlocksMatch(e: Encoding, src: bytes, n: nat)
    requires Unpads(e, src, n) && n % 4 != 1 && src != []
    ensures var dlen := DecodedLen(n);
            dlen > 0 && 1 <= dlen - LastStart(dlen, 3) <= 3 &&
            |src| - LastStart(|src|, 4) == if e.padded then 4 else dlen - LastStart(dlen, 3) + 1
  {
    var q, r := (n - 1) / 4, (n - 1) % 4 + 1;
    assert n == 4 * q + r && DecodedLen(n) == 3 * q + (r - 1);
    RemainderUnique(DecodedLen(n) - 1, 3, q, r - 2);
    assert LastStart(DecodedLen(n), 3) == 3 * q;
    if e.padded {
      RemainderUnique(|src| - 1, 4, |src| / 4 - 1, 3);
    }
  }

  /** Decode `src` into the slice `dst[lo..hi]`. */
  method Decode(e: Encoding, src: bytes, dst: array<u8>, lo: nat, hi: nat) returns (r: Result<nat, Error>)
    requires lo <= hi <= dst.Length
    modifies dst
    ensures r.Ok? ==> r.value <= hi - lo && Decoded(e, src) == Some(dst[lo..lo + r.value])
    ensures r.Ok? ==> r.value == DecodedLen(UnpaddedLen(e, src))
    ensures r == Err(InvalidLength) ==> DecodedLen(UnpaddedLen(e, src)) > hi - lo
    ensures r == Err(InvalidEncoding) ==> Decoded(e, src) == None
    ensures DecodedLen(UnpaddedLen(e, src)) > hi - lo ==> r == Err(InvalidLength)
    ensures dst[..lo] == old(dst[..lo]) && dst[hi..] == old(dst[hi..])
    ensures r.Ok? ==> dst[lo + r.value..] == old(dst[lo + r.value..])
  {
    hide DecodeBlocks, Encoded, DecodePadding, EncodeBlock, AllChars, Fill;
    var n, err := |src|, 0;
    if e.padded {
      var padding := DecodePadding(src);
      if padding.Err? {
        return Err(padding.error);
      }
      n, err := padding.value.0, padding.value.1;
    }
    var dlen := DecodedLen(n);
    if dlen > hi - lo {
      return Err(InvalidLength);
    }
    ghost var before := dst[..];
    err := DecodeText(e.alphabet, src[..n], dst, lo, err);
    Untouched(before, dst[..], lo, lo + dlen, lo, hi);
    if err != 0 {
      return Err(InvalidEncoding);
    }
    r := Ok(dlen);
    if src != [] {
      LastBlocksMatch(e, src, n);
      var valid := ValidateLastBlock(e, src, dst[lo..lo + dlen]);
      if valid.Err? {
        return Err(valid.error);
      }
    }
  }

  // ----- decoding in place -----

  /** Decode the array over itself.  A chunk is read before it is overwritten, and later
      chunks are never written: the result is the block-by-block decoding of the original
      contents.  Spare bits of the last block are not checked. */
  method DecodeInPlace(e: Encoding, buf: array<u8>) returns (r: Result<nat, Error>)
    modifies buf
    ensures r.Ok? <==> TextChecks(e, old(buf[..]))
    ensures r.Err? ==> r.error == InvalidEncoding
    ensures r.Ok? ==>
              var u := old(buf[..])[..UnpaddedLen(e, old(buf[..]))];
              r.value == DecodedLen(|u|) <= buf.Length && buf[..r.value] == DecodeBlocks(e.alphabet, u)
    ensures var d := Decoded(e, old(buf[..])); d.Some? ==> r.Ok? && buf[..r.value] == d.value
  {
    hide DecodeBlocks, DecodePadding, AllChars, Fill, LastBlockReencodes;
    var n, err := buf.Length, 0;
    if e.padded {
      var padding := DecodePadding(buf[..]);
      if padding.Err? {
        return Err(padding.error);
      }
      n, err := padding.value.0, padding.value.1;
    }
    assert buf[..n] == buf[..][..n];
    err := InPlaceText(e.alphabet, buf, n, err);
    r := if err == 0 then Ok(DecodedLen(n)) else Err(InvalidEncoding);
  }

  method InPlaceText(a: Alphabet, buf: array<u8>, n: nat, err0: int) returns (err: int)
    requires n <= buf.Length && 0 <= err0 <= 1
    modifies buf
    ensures err == 0 <==> err0 == 0 && AllChars(a, old(buf[..n])) && n % 4 != 1
    ensures err == 0 ==> buf[..DecodedLen(n)] == DecodeBlocks(a, old(buf[..n]))
  {
    hide DecodeBlocks, AllChars, Or;
    var full := n / 4;
    ghost var u := buf[..n];
    assert u[..4 * full] == buf[..4 * full] && u[4 * full..] == buf[4 * full..n];
    err := InPlaceChunks(a, buf, n, err0);
    var rem := buf[4 * full..n];
    assert u == u[..4 * full] + rem;
    CharsOfParts(a, u[..4 * full], rem);
    var tmpOut := new u8[3];
    var bit := DecodeRemainder(a, rem, tmpOut, 0);
    OrBits(err, bit);
    err := Or(err, bit);
    if err == 0 {
      DecodeBlocksConcat(a, u[..4 * full], rem);
      var out := tmpOut[..3 * |rem| / 4];
      assert out == tmpOut[0..0 + 3 * |rem| / 4];
      CopyFromSlice(buf, 3 * full, out);
      ghost var end := 3 * full + |out|;
      assert buf[..end] == buf[..3 * full] + buf[3 * full..end];
    }
  }

  lemma CharsOfParts(a: Alphabet, s: bytes, t: bytes)
    ensures AllChars(a, s + t) <==> AllChars(a, s) && AllChars(a, t)
  {
    assert forall i :: 0 <= i < |s| ==> (s + t)[i] == s[i];
    assert forall i :: 0 <= i < |t| ==> (s + t)[|s| + i] == t[i];
  }

  method InPlaceChunks(a: Alphabet, buf: array<u8>, n: nat, err0: int) returns (err: int)
    requires n <= buf.Length && 0 <= err0 <= 1
    modifies buf
    ensures 0 <= err <= 1
    ensures buf[n / 4 * 4..n] == old(buf[n / 4 * 4..n])
    ensures var whole := old(buf[..n / 4 * 4]);
            (err == 0 <==> err0 == 0 && AllChars(a, whole)) &&
            (err == 0 ==> buf[..3 * (n / 4)] == DecodeBlocks(a, whole))
  {
    hide DecodeBlocks;
    err := err0;
    ghost var original := buf[..];
    assert DecodeBlocks(a, []) == [];
    for chunk := 0 to n / 4
      invariant 0 <= err <= 1
      invariant err == 0 ==> err0 == 0 && AllChars(a, original[..4 * chunk])
      invariant err0 == 0 && AllChars(a, original[..4 * chunk]) ==> err == 0
      invariant err == 0 ==> buf[..3 * chunk] == DecodeBlocks(a, original[..4 * chunk])
      invariant buf[4 * chunk..] == original[4 * chunk..]
    {
      err := InPlaceChunk(a, buf, chunk, original, err);
    }
    assert original[n / 4 * 4..n] == original[n / 4 * 4..][..n % 4];
    assert buf[n / 4 * 4..n] == buf[n / 4 * 4..][..n % 4];
    assert original[..4 * (n / 4)] == old(buf[..n / 4 * 4]);
  }

  method InPlaceChunk(a: Alphabet, buf: array<u8>, chunk: nat, ghost original: bytes, err0: int) returns (err: int)
    requires |original| == buf.Length && 4 * chunk + 4 <= buf.Length && 0 <= err0 <= 1
    requires err0 == 0 ==>
               AllChars(a, original[..4 * chunk]) && buf[..3 * chunk] == DecodeBlocks(a, original[..4 * chunk])
    requires buf[4 * chunk..] == original[4 * chunk..]
    modifies buf
    ensures 0 <= err <= 1
    ensures err == 0 <==> err0 == 0 && AllChars(a, original[..4 * chunk + 4])
    ensures err == 0 ==> buf[..3 * chunk + 3] == DecodeBlocks(a, original[..4 * chunk + 4])
    ensures buf[4 * chunk + 4..] == original[4 * chunk + 4..]
  {
    hide DecodeBlock, DecodeGroup, Or;
    var p4 := buf[4 * chunk..4 * chunk + 4];
    assert p4 == buf[4 * chunk..][..4] == original[4 * chunk..4 * chunk + 4];
    assert original[..4 * chunk + 4] == original[..4 * chunk] + p4;
    assert AllChars(a, original[..4 * chunk + 4]) ==> AllChars(a, p4);
    ghost var rest := buf[4 * chunk + 4..];
    assert rest == buf[4 * chunk..][4..] == original[4 * chunk + 4..];
    var tmpOut := new u8[3];
    var bit := Decode3Bytes(a, p4, tmpOut, 0);
    var out := tmpOut[..];
    assert out == tmpOut[0..3];
    CopyFromSlice(buf, 3 * chunk, out);
    OrBits(err0, bit);
    err := Or(err0, bit);
    assert buf[4 * chunk + 4..] == buf[3 * chunk + 3..][chunk + 1..];
    if err == 0 {
      DecodeBlocksConcat(a, original[..4 * chunk], p4);
      WholeBlock(a, p4);
      assert buf[..3 * chunk + 3] == buf[..3 * chunk] + buf[3 * chunk..3 * chunk + 3];
    }
  }

  // ----- spare bits -----

  /** The bits of the last character that reach no byte are zero. */
  predicate SpareBitsClear(a: Alphabet, u: bytes)
    requires AllChars(a, u)
  {
    var n := |u|;
    if n % 4 == 2 then
      var last := FromChar(a, u[n - 1]);
      if a.order == BigEndian then last % 16 == 0 else last < 4
    else if n % 4 == 3 then
      var last := FromChar(a, u[n - 1]);
      if a.order == BigEndian then last % 4 == 0 else last < 16
    else true
  }

  /** A short group comes back from its bytes exactly when its spare bits are zero. */
  lemma SpareBitsOfTwo(order: BitOrder, x0: sextet, x1: sextet, x2: sextet, x3: sextet)
    ensures var q := Sextets(order, Octets(order, x0, x1, x2, x3)[0], 0, 0);
            q[0] == x0 && (q[1] == x1 <==> if order == BigEndian then x1 % 16 == 0 else x1 < 4)
  {
    hide Sextets, Octets;
    match order
    case BigEndian => BigEndianSpareBitsOfTwo(x0, x1, x2, x3);
    case LittleEndian => LittleEndianSpareBitsOfTwo(x0, x1, x2, x3);
  }

  lemma BigEndianSpareBitsOfTwo(x0: sextet, x1: sextet, x2: sextet, x3: sextet)
    ensures var q := Sextets(BigEndian, Octets(BigEndian, x0, x1, x2, x3)[0], 0, 0);
            q[0] == x0 && (q[1] == x1 <==> x1 % 16 == 0)
  {
    var b := Octets(BigEndian, x0, x1, x2, x3)[0];
    Regroup(b, x0, x1 / 16, 4);
    Rejoin(x1, 16);
  }

  lemma LittleEndianSpareBitsOfTwo(x0: sextet, x1: sextet, x2: sextet, x3: sextet)
    ensures var q := Sextets(LittleEndian, Octets(LittleEndian, x0, x1, x2, x3)[0], 0, 0);
            q[0] == x0 && (q[1] == x1 <==> x1 < 4)
  {
    var b := Octets(LittleEndian, x0, x1, x2, x3)[0];
    Regroup(b, x1 % 4, x0, 64);
    Rejoin(x1, 4);
  }

  lemma SpareBitsOfThree(order: BitOrder, x0: sextet, x1: sextet, x2: sextet, x3: sextet)
    ensures var d := Octets(order, x0, x1, x2, x3);
            var q := Sextets(order, d[0], d[1], 0);
            q[0] == x0 && q[1] == x1 && (q[2] == x2 <==> if order == BigEndian then x2 % 4 == 0 else x2 < 16)
  {
    hide Sextets, Octets;
    match order
    case BigEndian => BigEndianSpareBits(x0, x1, x2, x3);
    case LittleEndian => LittleEndianSpareBits(x0, x1, x2, x3);
  }

  lemma BigEndianSpareBits(x0: sextet, x1: sextet, x2: sextet, x3: sextet)
    ensures var d := Octets(BigEndian, x0, x1, x2, x3);
            var q := Sextets(BigEndian, d[0], d[1], 0);
            q[0] == x0 && q[1] == x1 && (q[2] == x2 <==> x2 % 4 == 0)
  {
    var d := Octets(BigEndian, x0, x1, x2, x3);
    Regroup(d[0], x0, x1 / 16, 4);
    Regroup(d[1], x1 % 16, x2 / 4, 16);
    Rejoin(x1, 16);
    Rejoin(x2, 4);
  }

  lemma LittleEndianSpareBits(x0: sextet, x1: sextet, x2: sextet, x3: sextet)
    ensures var d := Octets(LittleEndian, x0, x1, x2, x3);
            var q := Sextets(LittleEndian, d[0], d[1], 0);
            q[0] == x0 && q[1] == x1 && (q[2] == x2 <==> x2 < 16)
  {
    var d := Octets(LittleEndian, x0, x1, x2, x3);
    Regroup(d[0], x1 % 4, x0, 64);
    Regroup(d[1], x2 % 16, x1 / 4, 16);
    Rejoin(x1, 4);
    Rejoin(x2, 16);
  }

  /** Characters and sextets determine each other. */
  lemma CharOfSextet(a: Alphabet, v: sextet, c: u8)
    requires IsChar(a, c)
    ensures ToChar(a, v) == c <==> v == FromChar(a, c)
  {
    hide Lookup, Encodes;
  }

  lemma ShortBlockReencodes(e: Encoding, s: bytes)
    requires !e.padded && 2 <= |s| <= 3 && AllChars(e.alphabet, s)
    ensures EncodeBlock(e, DecodeBlock(e.alphabet, s)) == s <==> SpareBitsClear(e.alphabet, s)
  {
    hide ToChar, FromChar, Sextets, Octets, Lookup;
    var a := e.alphabet;
    var full := s + Fill(UPPER_A, 4 - |s|);
    var x0, x1 := FromChar(a, full[0]), FromChar(a, full[1]);
    var x2, x3 := FromChar(a, full[2]), FromChar(a, full[3]);
    var d := DecodeBlock(a, s);
    var q := Sextets(a.order, d[0], if |s| == 3 then d[1] else 0, 0);
    if |s| == 2 {
      SpareBitsOfTwo(a.order, x0, x1, x2, x3);
    } else {
      SpareBitsOfThree(a.order, x0, x1, x2, x3);
      CharOfSextet(a, q[2], s[2]);
    }
    CharOfSextet(a, q[0], s[0]);
    CharOfSextet(a, q[1], s[1]);
    BlockOfSextets(e, d);
  }

  /** The characters of a short block. */
  lemma BlockOfSextets(e: Encoding, d: bytes)
    requires !e.padded && 1 <= |d| <= 2
    ensures var q := Sextets(e.alphabet.order, d[0], if |d| == 2 then d[1] else 0, 0);
            EncodeBlock(e, d) ==
            [ToChar(e.alphabet, q[0]), ToChar(e.alphabet, q[1]), ToChar(e.alphabet, q[2])][..|d| + 1]
  {
    hide ToChar, Sextets;
    var full := d + Fill(0, 3 - |d|);
    assert full[0] == d[0] && full[2] == 0 && full[1] == if |d| == 2 then d[1] else 0;
  }

  /** Unpadded text is an encoding exactly when its spare bits are zero. */
  lemma {:induction false} SpareBitsDecide(e: Encoding, u: bytes)
    requires !e.padded && AllChars(e.alphabet, u) && |u| % 4 != 1
    ensures Encoded(e, DecodeBlocks(e.alphabet, u)) == u <==> SpareBitsClear(e.alphabet, u)
    decreases |u|
  {
    hide EncodeBlock, DecodeBlock, SpareBitsClear, DecodedLen;
    var d := DecodeBlocks(e.alphabet, u);
    if |u| <= 4 {
      if |u| == 4 {
        SpareBitsOfWhole(e.alphabet, u);
        WholeBlockReencodes(e, u);
      } else if u != [] {
        ShortBlockReencodes(e, u);
      } else {
        SpareBitsOfWhole(e.alphabet, u);
      }
    } else {
      var first, rest := u[..4], u[4..];
      WholeBlockReencodes(e, first);
      SpareBitsOfRest(e.alphabet, u);
      SpareBitsDecide(e, rest);
      DecodedLenPositive(|rest|);
      assert d[..3] == DecodeBlock(e.alphabet, first) && d[3..] == DecodeBlocks(e.alphabet, rest);
      assert Encoded(e, d) == first + Encoded(e, d[3..]);
      assert u == first + rest && Encoded(e, d)[4..] == Encoded(e, d[3..]);
    }
  }

  lemma SpareBitsOfRest(a: Alphabet, u: bytes)
    requires AllChars(a, u) && |u| > 4
    ensures SpareBitsClear(a, u) <==> SpareBitsClear(a, u[4..])
  {
    hide FromChar, IsChar;
    assert u[4..][|u| - 5] == u[|u| - 1];
  }

  lemma SpareBitsOfWhole(a: Alphabet, u: bytes)
    requires AllChars(a, u) && |u| % 4 == 0
    ensures SpareBitsClear(a, u)
  {
  }

  /** What `decode` checks beyond `decode_in_place`: exactly the spare bits of the last
      character. */
  lemma DecodesIfSpareBitsClear(e: Encoding, src: bytes)
    requires TextChecks(e, src)
    ensures Decoded(e, src).Some? <==> SpareBitsClear(e.alphabet, src[..UnpaddedLen(e, src)])
  {
    hide EncodeBlock, DecodeBlocks, Encoded, UnpaddedLen, Unpads, Decoded, SpareBitsClear;
    var n := UnpaddedLen(e, src);
    var u := src[..n];
    var d := DecodeBlocks(e.alphabet, u);
    SpareBitsDecide(e.Unpadded(), u);
    UnpaddedPart(e, src, n, d);
    DecodesExactlyEncodings(e, src, d);
    if Decoded(e, src).Some? {
      var d' := Decoded(e, src).value;
      DecodesExactlyEncodings(e, src, d');
      UnpaddedPart(e, src, n, d');
      EncodedDecodes(e.Unpadded(), d');
    }
  }

  /** A text that decodes in place although it is not an encoding: the last character of `AB`
      has a spare bit set. */
  lemma InPlaceAcceptsSpareBits()
    ensures var e := Encoding(Standard(), false);
            TextChecks(e, [65, 66]) && Decoded(e, [65, 66]) == None
  {
    hide Decoded, Valid, Lookup;
    var e, s := Encoding(Standard(), false), [65, 66];
    FirstLetters();
    assert UnpaddedLen(e, s) == 2 && s[..2] == s;
    DecodesIfSpareBitsClear(e, s);
  }

  lemma FirstLetters()
    ensures Lookup(STANDARD.decoder, 65) == 0 && Lookup(STANDARD.decoder, 66) == 1
  {
    hide Lookup;
    ShippedAlphabetsAreValid();
    LookupFindsMatch(STANDARD.decoder, 65, 0);
    LookupFindsMatch(STANDARD.decoder, 66, 0);
  }
}
