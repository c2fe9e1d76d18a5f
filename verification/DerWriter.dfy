/** The slice writer (der/src/writer/slice.rs) and the encoders of tags, lengths and headers
    that run on it. */
module DerWriter {
  import opened Bits
  import opened Base128Numbers
  import opened DerTag
  import opened DerLength
  import opened DerHeader
  import opened Slices
  import opened Wrappers

  class SliceWriter {
    const buffer: array<u8>
    var failed: bool
    var position: nat

    ghost predicate Valid()
      reads this
    {
      position <= buffer.Length && position <= MAX_LENGTH
    }

    ghost function Written(): bytes
      reads this, buffer
      requires Valid()
    {
      buffer[..position]
    }

    /** Whether `n` more bytes can be written. */
    ghost predicate HasRoom(n: nat)
      reads this
    {
      !failed && position + n <= buffer.Length && position + n <= MAX_LENGTH
    }

    /** Why `n` bytes, in one or more parts, cannot be written. */
    ghost predicate IsReason(error: ErrorKind, n: nat)
      reads this
    {
      if failed then error == Failed
      else error == Overlength || (error == Overflow && position + n > 0xFFFF_FFFF)
    }

    constructor (buffer: array<u8>)
      ensures Valid() && !failed && position == 0 && this.buffer == buffer
    {
      this.buffer, failed, position := buffer, false, 0;
    }

    method Write(slice: bytes) returns (r: Result<(), ErrorKind>)
      requires Valid()
      modifies this, buffer
      ensures Valid()
      ensures r.Ok? <==> old(HasRoom(|slice|))
      ensures r.Ok? ==> !failed && Written() == old(Written()) + slice
      ensures r.Err? ==> old(IsReason(r.error, |slice|))
      ensures r.Err? ==> position == old(position) && buffer[..] == old(buffer[..])
      ensures r.Err? ==>
                r.error == if old(failed) then Failed
                           else if old(position) + |slice| > MAX_LENGTH then Overflow
                           else Overlength
    {
      if failed {
        return Err(Failed);
      }
      if |slice| > MAX_LENGTH || position + |slice| > MAX_LENGTH {
        failed := true;
        return Err(Overflow);
      }
      if position + |slice| > buffer.Length {
        return Err(Overlength);
      }
      ghost var before := Written();
      CopyFromSlice(buffer, position, slice);
      assert buffer[..position + |slice|] == before + slice;
      position := position + |slice|;
      r := Ok(());
    }

    method WriteByte(byte: u8) returns (r: Result<(), ErrorKind>)
      requires Valid()
      modifies this, buffer
      ensures Valid()
      ensures r.Ok? <==> old(HasRoom(1))
      ensures r.Ok? ==> !failed && Written() == old(Written()) + [byte]
      ensures r.Err? ==> old(IsReason(r.error, 1))
      ensures r.Err? ==> position == old(position) && buffer[..] == old(buffer[..])
    {
      r := Write([byte]);
    }

    method Finish() returns (r: Result<bytes, ErrorKind>)
      requires Valid()
      ensures r == if failed then Err(Failed) else Ok(Written())
    {
      if failed {
        return Err(Failed);
      }
      r := Ok(buffer[..position]);
    }
  }

  // ----- tags -----

  /** Putting class, form and number bits together. */
  lemma LeadBits(t: Tag, low: u8)
    requires low < 32
    ensures var form := if t.IsConstructed() then 1 else 0;
            0 <= Or(t.Class(), form * 32) < 256 && Or(Or(t.Class(), form * 32), low) == LeadOctet(t, low)
  {
    hide Or;
    var form := if t.IsConstructed() then 1 else 0;
    assert Pow2(5) == 32 && Pow2(6) == 64;
    OrIntoZeros(t.Class() / 64, form * 32, 6);
    OrIntoZeros(t.Class() / 32 + form, low, 5);
  }

  /** The octets of a tag number, most significant first: the loop of `encode`. */
  method WriteNumber(writer: SliceWriter, number: u32) returns (r: Result<(), ErrorKind>)
    requires writer.Valid() && number >= 31
    modifies writer, writer.buffer
    ensures writer.Valid()
    ensures r.Ok? <==> old(writer.HasRoom(|Base128(number)|))
    ensures r.Ok? ==> !writer.failed && writer.Written() == old(writer.Written()) + Base128(number)
    ensures r.Err? ==> old(writer.IsReason(r.error, |Base128(number)|))
  {
    hide And, Or, Ilog2, Continued, Base128, Shift7;
    LogarithmOfWord(number);
    OctetsByLogarithm(number);
    var extraBytes := Ilog2(number) / 7 + 1;
    ghost var before := writer.Written();
    OctetCount(number);
    AllShifted(number);
    assert before + [] == before;
    for shift := extraBytes downto 0
      invariant writer.Valid() && writer.failed == old(writer.failed) && (shift < extraBytes ==> !writer.failed)
      invariant writer.position == |before| + extraBytes - shift
      invariant shift > 0 ==> writer.Written() == before + Continued(Shift7(number, shift))
      invariant shift == 0 ==> writer.Written() == before + Base128(number)
    {
      NumberOctet(number, shift);
      var byte := And(number / Pow2(shift * 7), 0x7F);
      if shift != 0 {
        byte := Or(byte, 0x80);
      }
      var written := writer.WriteByte(byte);
      if written.Err? {
        return Err(written.error);
      }
      assert before + (Continued(Shift7(number, shift + 1)) + [byte]) ==
             before + Continued(Shift7(number, shift + 1)) + [byte];
    }
    r := Ok(());
  }

  lemma AllShifted(n: u32)
    requires n > 0
    ensures Continued(Shift7(n, |Base128(n)|)) == []
  {
    ShiftsLeft(n, |Base128(n)|);
    OctetCount(n);
  }

  /** One octet, and what has been written with it. */
  lemma NumberOctet(n: u32, shift: nat)
    requires n > 0 && shift < |Base128(n)|
    ensures var low := And(n / Pow2(shift * 7), 0x7F);
            0 <= low < 128 && Or(low, 0x80) == low + 128 &&
            (shift == 0 ==> Base128(n) == Continued(Shift7(n, 1)) + [low]) &&
            (shift > 0 ==> Continued(Shift7(n, shift)) == Continued(Shift7(n, shift + 1)) + [low + 128])
  {
    hide And, Or, Continued;
    Shift7IsShift(n, shift);
    assert Pow2(7) == 128;
    AndLowMask(Shift7(n, shift), 7);
    var low := Shift7(n, shift) % 128;
    OrSymmetric(low, 0x80);
    OrIntoZeros(1, low, 7);
    OctetCount(n);
    ShiftsLeft(n, shift);
    assert Shift7(n, shift + 1) == Shift7(n, shift) / 128;
    if shift > 0 {
      ContinuedStep(Shift7(n, shift + 1), low);
    }
  }

  method EncodeTag(writer: SliceWriter, tag: Tag) returns (r: Result<(), ErrorKind>)
    requires writer.Valid()
    modifies writer, writer.buffer
    ensures writer.Valid()
    ensures r.Ok? <==> old(writer.HasRoom(|TagOctets(tag)|))
    ensures r.Ok? ==> !writer.failed && writer.Written() == old(writer.Written()) + TagOctets(tag)
    ensures r.Err? ==> old(writer.IsReason(r.error, |TagOctets(tag)|))
  {
    hide And, Or, Base128, LeadOctet, Tag.Class, Tag.IsConstructed;
    var number := tag.Number();
    LeadBits(tag, if number < 31 then number else 31);
    var firstByte: u8 := Or(tag.Class(), (if tag.IsConstructed() then 1 else 0) * 32);
    if number < NUMBER_MASK {
      LowNumber(number);
      r := writer.WriteByte(Or(firstByte, And(number, 0x1F)));
    } else {
      ghost var before := writer.Written();
      r := writer.WriteByte(Or(firstByte, NUMBER_MASK));
      if r.Ok? {
        r := WriteNumber(writer, number);
        assert before + [LeadOctet(tag, 31)] + Base128(number) == before + TagOctets(tag);
      }
    }
  }

  lemma LowNumber(n: u32)
    ensures n < 31 ==> And(n, 0x1F) == n
  {
    hide And;
    assert Pow2(5) == 32;
    AndLowMask(n, 5);
  }

  // ----- lengths and headers -----

  /** `to_be_bytes` without its leading zeros. */
  lemma StripLeadingZeros(len: u32)
    ensures var b := BigEndian(len, 4);
            BigEndian(len, 3) == b[1..] && BigEndian(len, 2) == b[2..] && BigEndian(len, 1) == b[3..] &&
            (b[0] == 0 <==> len < 0x100_0000) && (b[0] == b[1] == 0 <==> len < 0x1_0000) &&
            (b[0] == b[1] == b[2] == 0 <==> len < 0x100)
  {
    Suffix(len, 3);
    Suffix(len, 2);
    Suffix(len, 1);
    PowersOf256();
    OctetsOfNumber(len, 4);
    var b := BigEndian(len, 4);
    assert b == [b[0], b[1], b[2], b[3]];
    assert len == 0x100_0000 * (b[0] as int) + 0x1_0000 * (b[1] as int) + 0x100 * (b[2] as int) + b[3] by {
      ValueOfFour(b);
    }
  }

  lemma {:induction false} Suffix(n: nat, k: nat)
    ensures BigEndian(n, k) == BigEndian(n, k + 1)[1..]
  {
    if k > 0 {
      Suffix(n / 256, k - 1);
    }
  }

  lemma ValueOfFour(b: bytes)
    requires |b| == 4
    ensures FromBigEndian(b) == 0x100_0000 * (b[0] as int) + 0x1_0000 * (b[1] as int) + 0x100 * (b[2] as int) + b[3]
  {
    assert b[..3][..2] == b[..2] && b[..2][..1] == b[..1] && b[..1][..0] == [];
    assert FromBigEndian([]) == 0;
    assert FromBigEndian(b[..1]) == b[0];
    assert FromBigEndian(b[..2]) == 256 * (b[0] as int) + b[1];
    assert FromBigEndian(b[..3]) == 256 * (256 * (b[0] as int) + b[1]) + b[2];
  }

  method EncodeLength(writer: SliceWriter, len: u32) returns (r: Result<(), ErrorKind>)
    requires writer.Valid()
    modifies writer, writer.buffer
    ensures writer.Valid()
    ensures r.Ok? <==> old(writer.HasRoom(|LengthOctets(len)|))
    ensures r.Ok? ==> !writer.failed && writer.Written() == old(writer.Written()) + LengthOctets(len)
    ensures r.Err? ==> old(writer.IsReason(r.error, |LengthOctets(len)|))
  {
    hide BigEndian;
    match InitialOctet(len) {
      case Some(initial) =>
        ghost var before := writer.Written();
        r := writer.WriteByte(initial);
        if r.Err? {
          return;
        }
        StripLeadingZeros(len);
        var b := BigEndian(len, 4);
        if b[0] == 0 && b[1] == 0 && b[2] == 0 {
          assert b[3..] == [b[3]];
          r := writer.WriteByte(b[3]);
        } else if b[0] == 0 && b[1] == 0 {
          r := writer.Write(b[2..]);
        } else if b[0] == 0 {
          r := writer.Write(b[1..]);
        } else {
          r := writer.Write(b);
        }
        assert r.Ok? ==> writer.Written() == before + LengthOctets(len);
      case None =>
        r := writer.WriteByte(len % 256);
    }
  }

  method EncodeHeader(writer: SliceWriter, header: Header) returns (r: Result<(), ErrorKind>)
    requires writer.Valid()
    modifies writer, writer.buffer
    ensures writer.Valid()
    ensures r.Ok? <==> old(writer.HasRoom(|HeaderOctets(header.tag, header.length)|))
    ensures r.Ok? ==>
              !writer.failed && writer.Written() == old(writer.Written()) + HeaderOctets(header.tag, header.length)
    ensures r.Err? ==> old(writer.IsReason(r.error, |HeaderOctets(header.tag, header.length)|))
  {
    hide TagOctets, LengthOctets;
    ghost var before := writer.Written();
    r := EncodeTag(writer, header.tag);
    if r.Ok? {
      r := EncodeLength(writer, header.length);
      assert before + TagOctets(header.tag) + LengthOctets(header.length) ==
             before + HeaderOctets(header.tag, header.length);
    }
  }
}
