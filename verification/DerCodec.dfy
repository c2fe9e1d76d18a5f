/** Encoding and decoding of nested values on readers and writers (der/src/encode.rs,
    der/src/decode.rs, der/src/reader.rs), against the functions of `DerTree`. */
module DerCodec {
  import opened Bits
  import opened DerTag
  import opened DerLength
  import opened DerHeader
  import opened DerReader
  import opened DerTree
  import opened DerWriter
  import opened Wrappers

  // ----- decoding -----

  /** The blanket `decode`: header, tag check, and the value in a nested reader.  The nesting
      depth is restored in any case. */
  method Decode(reader: SliceReader, schema: Schema) returns (r: Result<Value, ErrorKind>)
    requires reader.Valid() && !reader.failed
    modifies reader
    ensures match DecodeTlv(old(reader.Remaining()), schema, MAX_DEPTH - old(reader.depth), old(reader.position))
            case Ok((v, n)) => r == Ok(v) && reader.At(old(reader.position), n) && reader.Frame() == old(reader.Frame())
            case Err(error) => r == Err(error)
    ensures reader.depth == old(reader.depth)
    decreases schema, 2
  {
    hide ReadHeader, DecodeContents;
    ghost var s := reader.Remaining();
    var header := DecodeHeader(reader);
    if header.Err? {
      return Err(header.error);
    }
    var h := header.value;
    if h.tag != SchemaTag(schema) {
      return Err(TagUnexpected(SchemaTag(schema), h.tag));
    }
    ghost var n := ReadHeader(s).value.1;
    assert reader.Remaining() == s[n..];
    r := ReadNested(reader, h, schema);
    assert n + h.length <= |s| ==> s[n..][..h.length] == s[n..n + h.length];
  }

  /** The value octets of a nested value, which must take all of their length. */
  ghost function NestedContents(s: bytes, len: nat, schema: Schema, depth: nat, at: nat): Result<Value, ErrorKind> {
    if len > |s| then Err(Located(Incomplete, at + len))
    else if depth == 0 then Err(NestingDepth)
    else
      match DecodeContents(s[..len], schema, depth - 1, at)
      case Err(error) => Err(error)
      case Ok((v, k)) => if k == len then Ok(v) else Err(TrailingData)
  }

  /** `read_nested`: no more than `len` bytes, and exactly that many.  The outer input is
      restored whenever the nested reader has been entered. */
  method ReadNested(reader: SliceReader, header: Header, schema: Schema) returns (r: Result<Value, ErrorKind>)
    requires reader.Valid() && !reader.failed
    modifies reader
    ensures var depth := MAX_DEPTH - old(reader.depth);
            match NestedContents(old(reader.Remaining()), header.length, schema, depth, old(reader.position))
            case Ok(v) => r == Ok(v) && reader.At(old(reader.position), header.length)
            case Err(error) => r == Err(error)
    ensures header.length <= |old(reader.Remaining())| && old(reader.depth) < MAX_DEPTH ==>
              reader.Frame() == old(reader.Frame())
    ensures reader.depth == old(reader.depth)
    decreases schema, 1
  {
    hide DecodeContents;
    var len := header.length;
    var prefixLen := reader.position + len;
    if prefixLen > MAX_LENGTH {
      return Err(Overflow);
    }
    if prefixLen > |reader.input| {
      return Err(Incomplete);
    }
    var input, inputLen := reader.input, reader.inputLen;
    reader.input := input[..prefixLen];
    if reader.depth + 1 > MAX_DEPTH {
      return Err(NestingDepth);
    }
    reader.depth := reader.depth + 1;
    reader.inputLen := prefixLen;
    assert reader.Remaining() == old(reader.Remaining())[..len];
    r := DecodeValue(reader, header, schema);
    var finished := reader.position == reader.inputLen;
    reader.input, reader.inputLen := input, inputLen;
    reader.depth := SaturatingSub(reader.depth, 1);
    if r.Ok? && !finished {
      reader.failed := true;
      return Err(TrailingData);
    }
  }

  /** `decode_value`: a leaf reads its length, a struct its fields. */
  method DecodeValue(reader: SliceReader, header: Header, schema: Schema) returns (r: Result<Value, ErrorKind>)
    requires reader.Valid() && !reader.failed && |reader.Remaining()| == header.length
    modifies reader
    ensures match DecodeContents(old(reader.Remaining()), schema, MAX_DEPTH - old(reader.depth), old(reader.position))
            case Ok((v, n)) => r == Ok(v) && reader.At(old(reader.position), n) && reader.Frame() == old(reader.Frame())
            case Err(error) => r == Err(error)
    ensures reader.depth == old(reader.depth)
    decreases schema, 0
  {
    hide DecodeFields;
    match schema {
      case Primitive(tag) =>
        ghost var s := reader.Remaining();
        var content := reader.ReadSlice(header.length);
        assert s[..header.length] == s;
        r := match content case Ok(s) => Ok(Octets(tag, s)) case Err(error) => Err(error);
      case Struct(fields) =>
        var values := DecodeStruct(reader, fields);
        r := match values case Ok(vs) => Ok(Record(vs)) case Err(error) => Err(error);
    }
  }

  /** The derived decoder: one `reader.decode()` for each field in turn. */
  method DecodeStruct(reader: SliceReader, fields: Fields) returns (r: Result<Values, ErrorKind>)
    requires reader.Valid() && !reader.failed
    modifies reader
    ensures match DecodeFields(old(reader.Remaining()), fields, MAX_DEPTH - old(reader.depth), old(reader.position))
            case Ok((vs, n)) => r == Ok(vs) && reader.At(old(reader.position), n) && reader.Frame() == old(reader.Frame())
            case Err(error) => r == Err(error)
    ensures reader.depth == old(reader.depth)
    decreases fields
  {
    hide DecodeTlv, DecodeFields, SliceReader.Frame, SliceReader.Remaining;
    match fields {
      case NoFields =>
        NoFieldsLeft(NoValues, MAX_DEPTH - reader.depth, reader.Remaining(), reader.position);
        r := Ok(NoValues);
      case Field(schema, rest) =>
        ghost var s, depth := reader.Remaining(), MAX_DEPTH - reader.depth;
        FirstField(s, schema, rest, depth, reader.position);
        var first := DecodeField(reader, schema);
        if first.Err? {
          return Err(first.error);
        }
        var others := DecodeStruct(reader, rest);
        r := match others case Ok(vs) => Ok(Item(first.value, vs)) case Err(error) => Err(error);
    }
  }

  /** `reader.decode()`: the reader fails for good when decoding fails. */
  method DecodeField(reader: SliceReader, schema: Schema) returns (r: Result<Value, ErrorKind>)
    requires reader.Valid() && !reader.failed
    modifies reader
    ensures var s := old(reader.Remaining());
            match DecodeTlv(s, schema, MAX_DEPTH - old(reader.depth), old(reader.position))
            case Ok((v, n)) =>
              r == Ok(v) && reader.At(old(reader.position), n) && reader.Frame() == old(reader.Frame()) &&
              reader.Remaining() == s[n..]
            case Err(error) => r == Err(error) && reader.failed
    ensures reader.depth == old(reader.depth)
    decreases schema, 3
  {
    hide DecodeTlv;
    r := Decode(reader, schema);
    if r.Err? {
      reader.failed := true;
    }
  }

  /** What `from_der` makes of its input. */
  ghost function Decoded(input: bytes, schema: Schema): Result<Value, ErrorKind> {
    if |input| > MAX_LENGTH then Err(Overflow)
    else
      match DecodeTlv(input, schema, MAX_DEPTH, 0)
      case Err(error) => Err(error)
      case Ok((v, n)) => if n == |input| then Ok(v) else Err(TrailingData)
  }

  /** `from_der` accepts exactly the encodings of the values of the type that are nested at
      most 64 deep. */
  lemma DecodedExactly(input: bytes, schema: Schema, v: Value)
    ensures Decoded(input, schema) == Ok(v) <==>
            Conforms(v, schema) && Depth(v) <= 64 && EncodedLen(v).Some? && Encoding(v) == input
  {
    hide DecodeTlv, Encoding, EncodedLen, Conforms, Depth;
    if |input| <= MAX_LENGTH {
      TlvIsDecodedExactly(input, schema, MAX_DEPTH, v, |input|, 0);
      assert input[..|input|] == input;
    }
  }

  /** What `from_der` refuses, and why: another tag, part of an encoding, more than an encoding,
      and a value that is nested too deep. */
  lemma RefusedFor(input: bytes, schema: Schema, v: Value)
    requires |input| <= MAX_LENGTH && Conforms(v, schema) && EncodedLen(v).Some?
    ensures input < Encoding(v) ==> Decoded(input, schema) == Err(Incomplete)
    ensures Encoding(v) < input && Depth(v) <= 64 ==> Decoded(input, schema) == Err(TrailingData)
    ensures Encoding(v) <= input && Depth(v) > 64 ==> Decoded(input, schema) == Err(NestingDepth)
  {
    hide DecodeTlv, Encoding, EncodedLen, Conforms, Depth;
    if input < Encoding(v) {
      PartOfEncoding(v, schema, MAX_DEPTH, |input|, 0);
      assert input == Encoding(v)[..|input|];
    }
    if Encoding(v) <= input {
      if Depth(v) > 64 {
        TooDeep(v, schema, MAX_DEPTH, input, 0);
      } else {
        EncodedTlv(v, schema, MAX_DEPTH, input, 0);
      }
    }
  }

  /** `from_der`, with the error of the first thing that is wrong. */
  method FromDer(input: bytes, schema: Schema) returns (r: Result<Value, ErrorKind>)
    ensures forall tag: Tag, length: u32 ::
              |input| <= MAX_LENGTH && HeaderOctets(tag, length) <= input && tag != SchemaTag(schema) ==>
              r.Err? && r.error.TagUnexpected? && r.error.expected == SchemaTag(schema) && r.error.actual == tag
    ensures match Decoded(input, schema)
            case Ok(v) => r == Ok(v)
            case Err(error) => r == Err(error)
    ensures forall v: Value ::
              r == Ok(v) <==>
              Conforms(v, schema) && Depth(v) <= 64 && EncodedLen(v).Some? && Encoding(v) == input
  {
    hide DecodeTlv, Encoding, EncodedLen, Conforms, Depth;
    forall v: Value
      ensures Decoded(input, schema) == Ok(v) <==>
              Conforms(v, schema) && Depth(v) <= 64 && EncodedLen(v).Some? && Encoding(v) == input
    {
      DecodedExactly(input, schema, v);
    }
    forall tag: Tag, length: u32 | HeaderOctets(tag, length) <= input && tag != SchemaTag(schema)
      ensures DecodeTlv(input, schema, MAX_DEPTH, 0) == Err(TagUnexpected(SchemaTag(schema), tag))
    {
      OtherTag(input, schema, MAX_DEPTH, tag, length, 0);
    }
    var created := SliceReader.New(input);
    if created.Err? {
      return Err(created.error);
    }
    var reader := created.value;
    assert reader.Remaining() == input;
    r := Decode(reader, schema);
    if r.Err? {
      return;
    }
    var finished := reader.Finish();
    if finished.Err? {
      return Err(finished.error);
    }
  }

  // ----- encoding -----

  /** The blanket `encode`: header, then value. */
  method Encode(writer: SliceWriter, v: Value) returns (r: Result<(), ErrorKind>)
    requires writer.Valid()
    modifies writer, writer.buffer
    ensures writer.Valid()
    ensures r.Ok? <==> EncodedLen(v).Some? && old(writer.HasRoom(EncodedLen(v).value))
    ensures r.Ok? ==> !writer.failed && writer.Written() == old(writer.Written()) + Encoding(v)
    ensures ValueLen(v).None? ==> r == Err(Overflow)
    ensures r.Err? && ValueLen(v).Some? ==>
              old(writer.IsReason(r.error, HeaderLen(ValueTag(v), ValueLen(v).value) as int + ValueLen(v).value))
    decreases v, 1
  {
    hide HeaderOctets, HeaderLen, ValueLen, Contents;
    var len := ValueLen(v);
    if len.None? {
      return Err(Overflow);
    }
    HeaderLenIsExact(ValueTag(v), len.value);
    ghost var before := writer.Written();
    var header := EncodeHeader(writer, NewHeader(ValueTag(v), len.value));
    if header.Err? {
      return header;
    }
    r := EncodeValue(writer, v);
    assert before + HeaderOctets(ValueTag(v), len.value) + Contents(v) ==
           before + (HeaderOctets(ValueTag(v), len.value) + Contents(v));
  }

  /** `encode_value`: the octets of a leaf, or the fields in order. */
  method EncodeValue(writer: SliceWriter, v: Value) returns (r: Result<(), ErrorKind>)
    requires writer.Valid() && !writer.failed && ValueLen(v).Some?
    modifies writer, writer.buffer
    ensures writer.Valid()
    ensures r.Ok? <==> old(writer.HasRoom(ValueLen(v).value))
    ensures r.Ok? ==> !writer.failed && writer.Written() == old(writer.Written()) + Contents(v)
    ensures r.Err? ==> old(writer.IsReason(r.error, ValueLen(v).value))
    decreases v, 0
  {
    hide SumLengths, ConcatAll;
    match v {
      case Octets(_, content) => r := writer.Write(content);
      case Record(vs) =>
        r := EncodeStruct(writer, vs);
    }
  }

  lemma LengthOfEncoded(v: Value)
    ensures EncodedLen(v).Some? ==>
              ValueLen(v).Some? &&
              EncodedLen(v).value == HeaderLen(ValueTag(v), ValueLen(v).value) as int + ValueLen(v).value
  {
    hide HeaderLen, ValueLen;
  }

  lemma Associative(a: bytes, b: bytes, c: bytes)
    ensures a + b + c == a + (b + c)
  {
  }

  /** The derived encoder: one `encode` for each field in turn. */
  method EncodeStruct(writer: SliceWriter, vs: Values) returns (r: Result<(), ErrorKind>)
    requires writer.Valid() && !writer.failed && SumLengths(0, vs).Some?
    modifies writer, writer.buffer
    ensures writer.Valid()
    ensures r.Ok? <==> old(writer.HasRoom(SumLengths(0, vs).value))
    ensures r.Ok? ==> !writer.failed && writer.Written() == old(writer.Written()) + ConcatAll(vs)
    ensures r.Err? ==> old(writer.IsReason(r.error, SumLengths(0, vs).value))
    decreases vs
  {
    hide EncodedLen, Encoding, SumLengths, ConcatAll;
    match vs {
      case NoValues =>
        NoFieldsLeft(vs, 0, [], 0);
        assert writer.Written() + [] == writer.Written();
        r := Ok(());
      case Item(v, rest) =>
        FirstAndRest(vs);
        LengthOfEncoded(v);
        ghost var before := writer.Written();
        r := Encode(writer, v);
        if r.Err? {
          return;
        }
        r := EncodeStruct(writer, rest);
        Associative(before, Encoding(v), ConcatAll(rest));
    }
  }

  /** `to_der`: the encoding, of exactly the length computed in advance. */
  method ToDer(v: Value) returns (r: Result<bytes, ErrorKind>)
    ensures r == if EncodedLen(v).Some? then Ok(Encoding(v)) else Err(Overflow)
  {
    hide EncodedLen, Encoding;
    var expected := EncodedLen(v);
    if expected.None? {
      return Err(Overflow);
    }
    var buffer := new u8[expected.value];
    var writer := new SliceWriter(buffer);
    assert writer.Written() == [];
    var encoded := Encode(writer, v);
    assert [] + Encoding(v) == Encoding(v);
    var finished := writer.Finish();
    r := match encoded case Ok(_) => finished case Err(error) => Err(error);
    if r.Ok? && |r.value| != expected.value {
      return Err(Incomplete);
    }
  }
}
