/** The slice reader (der/src/reader/slice.rs, der/src/reader/position.rs) and the decoders of
    tags, lengths and headers that run on it. */
module DerReader {
  import opened Bits
  import opened Base128Numbers
  import opened DerTag
  import opened DerLength
  import opened DerHeader
  import opened Wrappers

  /** Maximum number of nested messages. */
  const MAX_DEPTH: nat := 64

  class SliceReader {
    var input: bytes
    var failed: bool
    /** The position: how much may be read, how much has been read, and the nesting depth. */
    var inputLen: nat
    var position: nat
    var depth: nat

    ghost predicate Valid()
      reads this
    {
      position <= inputLen == |input| <= MAX_LENGTH && depth <= MAX_DEPTH
    }

    function Remaining(): bytes
      reads this
      requires Valid()
    {
      input[position..]
    }

    ghost function Frame(): (bytes, nat, nat)
      reads this
    {
      (input, inputLen, depth)
    }

    /** `n` more bytes have been read than at position `start`. */
    ghost predicate At(start: nat, n: nat)
      reads this
    {
      Valid() && !failed && position == start + n
    }

    constructor (input: bytes)
      requires |input| <= MAX_LENGTH
      ensures Valid() && !failed && this.input == input && position == 0 && depth == 0
    {
      this.input, failed, inputLen, position, depth := input, false, |input|, 0, 0;
    }

    static method New(input: bytes) returns (r: Result<SliceReader, ErrorKind>)
      ensures if |input| <= 0xFFFF_FFFF then r.Ok? else r == Err(Overflow)
      ensures r.Ok? ==>
                var c := r.value;
                fresh(c) && c.Valid() && !c.failed && c.input == input && c.position == 0 && c.depth == 0
    {
      if |input| > MAX_LENGTH {
        return Err(Overflow);
      }
      var c := new SliceReader(input);
      r := Ok(c);
    }

    /** `clone`, for peeking. */
    method Clone() returns (c: SliceReader)
      requires Valid()
      ensures fresh(c) && c.Valid() && c.Frame() == Frame() && c.position == position && c.failed == failed
    {
      c := new SliceReader(input);
      c.failed, c.position, c.depth := failed, position, depth;
    }

    /** `advance`. */
    method Advance(amount: u32) returns (r: Result<(), ErrorKind>)
      modifies this`position
      ensures r.Ok? <==> old(position) + amount <= MAX_LENGTH && old(position) + amount <= inputLen
      ensures position == old(position) + if r.Ok? then amount else 0
    {
      var newPosition := position + amount;
      if newPosition > MAX_LENGTH {
        return Err(Overflow);
      }
      if newPosition > inputLen {
        return Err(Incomplete);
      }
      position := newPosition;
      r := Ok(());
    }

    method ReadSlice(len: u32) returns (r: Result<bytes, ErrorKind>)
      requires Valid()
      modifies this
      ensures Frame() == old(Frame()) && Valid()
      ensures if old(failed) then r == Err(Failed)
              else if len <= |old(Remaining())| then r == Ok(old(Remaining())[..len]) && At(old(position), len)
              else r == Err(Located(Incomplete, old(position) as int + len))
    {
      if failed {
        return Err(Failed);
      }
      var remaining := input[position..];
      if len <= |remaining| {
        var advanced := Advance(len);
        r := Ok(remaining[..len]);
      } else {
        if position + len > MAX_LENGTH {
          return Err(Overflow);
        }
        failed := true;
        r := Err(Incomplete);
      }
    }

    method ReadByte() returns (r: Result<u8, ErrorKind>)
      requires Valid()
      modifies this
      ensures Frame() == old(Frame()) && Valid()
      ensures if old(failed) then r == Err(Failed)
              else if old(Remaining()) != [] then r == Ok(old(Remaining())[0]) && At(old(position), 1)
              else r == Err(Located(Incomplete, inputLen + 1))
    {
      var slice := ReadSlice(1);
      r := match slice case Ok(s) => Ok(s[0]) case Err(error) => Err(error);
    }

    /** `error`: the reader has failed for good. */
    method Fail(kind: ErrorKind) returns (e: ErrorKind)
      modifies this`failed
      ensures e == kind && failed
    {
      failed := true;
      e := kind;
    }

    /** `finish`. */
    method Finish() returns (r: Result<(), ErrorKind>)
      requires Valid()
      modifies this
      ensures r == if old(failed) then Err(Failed) else if old(Remaining()) != [] then Err(TrailingData) else Ok(())
    {
      if failed {
        return Err(Failed);
      }
      if position != inputLen {
        failed := true;
        return Err(TrailingData);
      }
      r := Ok(());
    }
  }

  // ----- tags -----

  lemma ConstructedFlag(first: u8)
    ensures And(first, CONSTRUCTED_FLAG) != 0 <==> ConstructedBit(first)
  {
    hide And;
    assert Pow2(5) == 0x20 && Pow2(1) == 2;
    AndShifted(first, 1, 5);
    AndLowMask(first / 32, 1);
  }

  lemma NumberBits(first: u8)
    ensures And(first, NUMBER_MASK) == first % 32
  {
    assert Pow2(5) == 32;
    AndLowMask(first, 5);
  }

  /** The high bit of an octet, and the other bits added to shifted ones. */
  lemma PartBits(v: nat, byte: u8)
    requires v < 0x200_0000
    ensures And(byte, 0x80) == 0 <==> byte < 0x80
    ensures Or(v * 128, And(byte, 0x7F)) == 128 * v + byte % 128
  {
    hide And, Or;
    assert Pow2(7) == 0x80 && Pow2(1) == 2;
    AndShifted(byte, 1, 7);
    AndLowMask(byte / 0x80, 1);
    AndLowMask(byte, 7);
    OrIntoZeros(v, byte % 128, 7);
  }

  /** `leading_zeros` of a 32-bit number. */
  function LeadingZeros(n: u32): int {
    if n == 0 then 32 else 31 - Ilog2(n)
  }

  lemma FewLeadingZeros(n: u32)
    ensures LeadingZeros(n) < 7 <==> n >= 0x200_0000
  {
    hide Ilog2;
    assert Pow2(12) == 0x1000 && Pow2(24) == 0x100_0000 && Pow2(25) == 0x200_0000;
    if n >= 0x200_0000 {
      LogarithmOfMore(n, 25);
    } else if n > 0 {
      LogarithmOfLess(n, 25);
    }
  }

  /** The cases of reading one octet of a tag number. */
  lemma PartCases(s: bytes, i: nat, v: nat)
    requires i < 5 && v < 0x200_0000
    ensures ReadParts(s, i, v) ==
            if s == [] then Err(Incomplete)
            else
              var n := 128 * v + s[0] % 128;
              if s[0] < 128 then (if n < 31 then Err(TagNumberInvalid) else Ok((n, 1)))
              else if (i == 0 && n == 0) || n >= 0x200_0000 then Err(TagNumberInvalid)
              else Plus(ReadParts(s[1..], i + 1, n), 1)
  {
  }

  /** The octets of a tag number after the first octet. */
  method ParseParts(reader: SliceReader) returns (r: Result<u32, ErrorKind>)
    requires reader.Valid() && !reader.failed
    modifies reader
    ensures reader.Valid() && reader.Frame() == old(reader.Frame())
    ensures match ReadParts(old(reader.Remaining()), 0, 0)
            case Ok((number, k)) => r == Ok(number) && reader.At(old(reader.position), k)
            case Err(error) => r == Err(Located(error, reader.inputLen + 1))
  {
    hide And, Or, LeadingZeros, ReadParts;
    ghost var s := reader.Remaining();
    var n: nat := 0;
    ghost var v: nat := 0;
    for i := 0 to TAG_MAX_SIZE - 1
      invariant v < 0x200_0000 && n == v * 128
      invariant reader.At(old(reader.position), i) && reader.Frame() == old(reader.Frame())
      invariant i <= |s| && reader.Remaining() == s[i..]
      invariant ReadParts(s, 0, 0) == Plus(ReadParts(s[i..], i, v), i)
    {
      PartCases(s[i..], i, v);
      var byte := reader.ReadByte();
      if byte.Err? {
        return Err(byte.error);
      }
      PartBits(v, byte.value);
      n := Or(n, And(byte.value, 0x7F));
      FewLeadingZeros(n);
      if And(byte.value, 0x80) == 0 {
        if n < NUMBER_MASK {
          var error := reader.Fail(TagNumberInvalid);
          return Err(error);
        }
        return Ok(n);
      } else if i == 0 && n == 0 {
        var error := reader.Fail(TagNumberInvalid);
        return Err(error);
      }
      if LeadingZeros(n) < 7 {
        var error := reader.Fail(TagNumberInvalid);
        return Err(error);
      }
      assert s[i..][1..] == s[i + 1..];
      v := n;
      n := n * 128;
    }
    NoPartsLeft(s[5..], v);
    var error := reader.Fail(TagNumberInvalid);
    r := Err(error);
  }

  lemma NoPartsLeft(s: bytes, v: nat)
    requires v < 0x200_0000
    ensures ReadParts(s, 5, v) == Err(TagNumberInvalid)
  {
  }

  /** A tag, and its constructed bit. */
  method DecodeTag(reader: SliceReader) returns (r: Result<(Tag, bool), ErrorKind>)
    requires reader.Valid()
    modifies reader
    ensures reader.Valid() && reader.Frame() == old(reader.Frame())
    ensures if old(reader.failed) then r == Err(Failed)
            else
              match ReadTag(old(reader.Remaining()))
              case Ok((tag, k)) => r == Ok((tag, tag.IsConstructed())) && reader.At(old(reader.position), k)
              case Err(error) => r == Err(Located(error, reader.inputLen + 1))
  {
    hide And, ReadParts, UniversalTag, ClassTag, Tag.IsConstructed;
    ghost var s := reader.Remaining();
    var byte := reader.ReadByte();
    if byte.Err? {
      return Err(byte.error);
    }
    var first := byte.value;
    ConstructedFlag(first);
    NumberBits(first);
    assert reader.Remaining() == s[1..];
    if ReadTag(s).Ok? {
      ConstructedBitOfTag(s);
    }
    var isConstructed := And(first, CONSTRUCTED_FLAG) != 0;
    if first >= 0x40 {
      var number := Ok(And(first, NUMBER_MASK));
      if And(first, NUMBER_MASK) == NUMBER_MASK {
        number := ParseParts(reader);
      }
      r := match number
        case Ok(n) => Ok((ClassTag(first, n), isConstructed))
        case Err(error) => Err(error);
    } else if first == 0x1F {
      var error := reader.Fail(TagNumberInvalid);
      r := Err(error);
    } else {
      match UniversalTag(first) {
        case Some(tag) => r := Ok((tag, isConstructed));
        case None =>
          var error := reader.Fail(TagUnknown(first));
          r := Err(error);
      }
    }
  }

  // ----- lengths -----

  /** The octets of a long length. */
  method ReadOctets(reader: SliceReader, k: nat) returns (r: Result<u32, ErrorKind>)
    requires reader.Valid() && !reader.failed && k <= 4
    modifies reader
    ensures reader.Valid() && reader.Frame() == old(reader.Frame())
    ensures if k <= |old(reader.Remaining())| then
              r == Ok(FromBigEndian(old(reader.Remaining())[..k])) && reader.At(old(reader.position), k)
            else r == Err(Located(Incomplete, reader.inputLen + 1))
  {
    hide Or, FromBigEndian;
    ghost var s := reader.Remaining();
    var len: nat := 0;
    assert FromBigEndian(s[..0]) == 0 by {
      NoOctets();
    }
    for i := 0 to k
      invariant reader.At(old(reader.position), i) && reader.Frame() == old(reader.Frame())
      invariant i <= |s| && reader.Remaining() == s[i..]
      invariant len == FromBigEndian(s[..i]) < Pow256(i)
    {
      var byte := reader.ReadByte();
      if byte.Err? {
        return Err(byte.error);
      }
      ShiftIn(s, i);
      // checked_shl
      len := Or(len * 256 % 0x1_0000_0000, byte.value);
    }
    PowersOf256();
    r := Ok(len);
  }

  lemma NoOctets()
    ensures FromBigEndian([]) == 0
  {
  }

  /** Shifting in the next octet. */
  lemma ShiftIn(s: bytes, i: nat)
    requires i < |s| && i < 4
    ensures FromBigEndian(s[..i]) * 256 < 0x1_0000_0000
    ensures Or(FromBigEndian(s[..i]) * 256 % 0x1_0000_0000, s[i]) == FromBigEndian(s[..i + 1]) < Pow256(i + 1)
  {
    hide Or;
    var high := FromBigEndian(s[..i]);
    FromBigEndianRange(s[..i]);
    FromBigEndianRange(s[..i + 1]);
    PowersOf256();
    assert s[..i + 1][..i] == s[..i];
    assert Pow2(8) == 256;
    OrIntoZeros(high, s[i], 8);
  }

  method DecodeLength(reader: SliceReader) returns (r: Result<u32, ErrorKind>)
    requires reader.Valid()
    modifies reader
    ensures reader.Valid() && reader.Frame() == old(reader.Frame())
    ensures if old(reader.failed) then r == Err(Failed)
            else
              match ReadLength(old(reader.Remaining()))
              case Ok((len, k)) => r == Ok(len) && reader.At(old(reader.position), k)
              case Err(error) => r == Err(Located(error, reader.inputLen + 1))
  {
    hide FromBigEndian, InitialOctet;
    ghost var s := reader.Remaining();
    var byte := reader.ReadByte();
    if byte.Err? {
      return Err(byte.error);
    }
    var first := byte.value;
    if first < INDEFINITE_LENGTH_OCTET {
      return Ok(first);
    } else if first == INDEFINITE_LENGTH_OCTET {
      var error := reader.Fail(IndefiniteLength);
      return Err(error);
    } else if first > 0x84 {
      var error := reader.Fail(Overlength);
      return Err(error);
    }
    assert reader.Remaining() == s[1..];
    var len := ReadOctets(reader, first - 0x80);
    if len.Err? {
      return Err(len.error);
    }
    assert s[1..][..first - 0x80] == s[1..1 + (first - 0x80)];
    if InitialOctet(len.value) == Some(first) {
      r := Ok(len.value);
    } else {
      var error := reader.Fail(Overlength);
      r := Err(error);
    }
  }

  // ----- headers -----

  method DecodeHeader(reader: SliceReader) returns (r: Result<Header, ErrorKind>)
    requires reader.Valid()
    modifies reader
    ensures reader.Valid() && reader.Frame() == old(reader.Frame())
    ensures if old(reader.failed) then r == Err(Failed)
            else
              match ReadHeader(old(reader.Remaining()))
              case Ok((h, k)) => r == Ok(h) && reader.At(old(reader.position), k)
              case Err(error) => r == Err(Located(error, reader.inputLen + 1))
  {
    hide ReadTag, ReadLength, Tag.IsConstructed, ConstructedBit;
    ghost var s := reader.Remaining();
    var tag := DecodeTag(reader);
    if tag.Err? {
      return Err(tag.error);
    }
    ConstructedBitOfTag(s);
    assert reader.Remaining() == s[ReadTag(s).value.1..];
    var length := DecodeLength(reader);
    if length.Err? {
      if length.error == Overlength {
        var error := reader.Fail(Length(tag.value.0));
        return Err(error);
      }
      return Err(length.error);
    }
    r := Ok(Header(tag.value.0, length.value, tag.value.1));
  }

  /** The bytes of the next value with its header, without decoding them: the computed length
      of the header is the number of octets it was read from. */
  method TlvBytes(reader: SliceReader) returns (r: Result<bytes, ErrorKind>)
    requires reader.Valid()
    modifies reader
    ensures reader.Valid() && reader.Frame() == old(reader.Frame())
    ensures var s := old(reader.Remaining());
            if old(reader.failed) then r == Err(Failed)
            else
              match ReadHeader(s)
              case Ok((h, k)) =>
                if k + h.length <= |s| then r == Ok(s[..k + h.length]) && reader.At(old(reader.position), k + h.length)
                else r == Err(Located(Incomplete, old(reader.position) + k + h.length))
              case Err(error) => r == Err(Located(error, reader.inputLen + 1))
  {
    hide ReadHeader, HeaderOctets, HeaderLen;
    ghost var s := reader.Remaining();
    var peeked := reader.Clone();
    var header := DecodeHeader(peeked);
    if header.Err? {
      return Err(header.error);
    }
    var h := header.value;
    HeaderIsReadExactly(s, h, ReadHeader(s).value.1);
    HeaderLenIsExact(h.tag, h.length);
    var len := HeaderLen(h.tag, h.length) + h.length;
    if len > MAX_LENGTH {
      return Err(Overflow);
    }
    r := reader.ReadSlice(len);
  }
}
