/** Derived SEQUENCEs, nested to any depth, over leaves whose value is a string of octets
    (der/src/encode.rs, der/src/decode.rs, der/src/reader.rs, der_derive/src/sequence.rs). */
module DerTree {
  import opened Bits
  import opened DerTag
  import opened DerLength
  import opened DerHeader
  import opened Wrappers

  /** The type of a value: a leaf with a fixed tag, or a struct with its fields in order. */
  datatype Schema = Primitive(tag: Tag) | Struct(fields: Fields)

  datatype Fields = NoFields | Field(first: Schema, rest: Fields)

  datatype Value = Octets(tag: Tag, content: bytes) | Record(values: Values)

  datatype Values = NoValues | Item(first: Value, rest: Values)

  function SchemaTag(schema: Schema): Tag {
    match schema
    case Primitive(tag) => tag
    case Struct(_) => Sequence
  }

  function ValueTag(v: Value): Tag {
    match v
    case Octets(tag, _) => tag
    case Record(_) => Sequence
  }

  /** The value is of the type. */
  predicate Conforms(v: Value, schema: Schema)
    decreases v
  {
    match schema
    case Primitive(tag) => v.Octets? && v.tag == tag
    case Struct(fields) => v.Record? && AllConform(v.values, fields)
  }

  predicate AllConform(vs: Values, fields: Fields)
    decreases vs
  {
    match fields
    case NoFields => vs.NoValues?
    case Field(schema, rest) => vs.Item? && Conforms(vs.first, schema) && AllConform(vs.rest, rest)
  }

  /** Number of nested values, counting the value itself. */
  function Depth(v: Value): nat {
    match v
    case Octets(_, _) => 1
    case Record(vs) => 1 + DepthOfAll(vs)
  }

  function DepthOfAll(vs: Values): nat {
    match vs
    case NoValues => 0
    case Item(v, rest) => if Depth(v) >= DepthOfAll(rest) then Depth(v) else DepthOfAll(rest)
  }

  // ----- lengths, with their overflow checks -----

  /** Checked addition of lengths. */
  function AddLengths(x: u32, y: u32): Option<u32> {
    if x + y <= MAX_LENGTH then Some(x + y) else None
  }

  /** `for_tlv`. */
  function ForTlv(len: u32, tag: Tag): Option<u32> {
    AddLengths(HeaderLen(tag, len), len)
  }

  function ValueLen(v: Value): Option<u32>
    decreases v, 0
  {
    match v
    case Octets(_, content) => if |content| <= MAX_LENGTH then Some(|content|) else None
    case Record(vs) => SumLengths(0, vs)
  }

  /** `encoded_len`. */
  function EncodedLen(v: Value): Option<u32>
    decreases v, 1
  {
    match ValueLen(v)
    case Some(len) => ForTlv(len, ValueTag(v))
    case None => None
  }

  /** `len` and the lengths of the fields. */
  function SumLengths(len: u32, vs: Values): Option<u32>
    decreases vs
  {
    match vs
    case NoValues => Some(len)
    case Item(v, rest) =>
      match EncodedLen(v)
      case None => None
      case Some(x) =>
        match AddLengths(len, x)
        case None => None
        case Some(sum) => SumLengths(sum, rest)
  }

  lemma {:induction false} SumFrom(len: u32, vs: Values)
    ensures SumLengths(len, vs) == (match SumLengths(0, vs) case Some(sum) => AddLengths(len, sum) case None => None)
    decreases vs
  {
    hide EncodedLen;
    match vs
    case NoValues =>
    case Item(v, rest) =>
      match EncodedLen(v)
      case None =>
      case Some(x) =>
        SumFrom(x, rest);
        if len + x <= MAX_LENGTH {
          SumFrom(len + x, rest);
        }
  }

  // ----- lengths without the checks -----

  /** The number of value octets, however large. */
  function FullContents(v: Value): nat
    decreases v, 0
  {
    match v
    case Octets(_, content) => |content|
    case Record(vs) => FullSum(vs)
  }

  /** The number of octets of a value, however large. */
  function FullLen(v: Value): nat
    decreases v, 1
  {
    var n := FullContents(v);
    |TagOctets(ValueTag(v))| + (if n < 0x80 then 1 else if n < 0x100 then 2 else if n < 0x1_0000 then 3
                                else if n < 0x100_0000 then 4 else 5) + n
  }

  function FullSum(vs: Values): nat
    decreases vs
  {
    match vs
    case NoValues => 0
    case Item(v, rest) => FullLen(v) + FullSum(rest)
  }

  /** The checked length is the full length, and it is refused exactly when that has more than 32
      bits: no check along the way fires too early or too late. */
  lemma {:induction false} LengthIsChecked(v: Value)
    ensures ValueLen(v) == if FullContents(v) <= 0xFFFF_FFFF then Some(FullContents(v)) else None
    ensures EncodedLen(v) == if FullLen(v) <= 0xFFFF_FFFF then Some(FullLen(v)) else None
    decreases v
  {
    hide EncodedLen, FullLen;
    match v {
      case Octets(_, _) =>
      case Record(vs) => SumIsChecked(vs);
    }
    HeaderIsCounted(v);
  }

  lemma HeaderIsCounted(v: Value)
    requires ValueLen(v) == if FullContents(v) <= 0xFFFF_FFFF then Some(FullContents(v)) else None
    ensures EncodedLen(v) == if FullLen(v) <= 0xFFFF_FFFF then Some(FullLen(v)) else None
  {
    hide TagOctets, TagLen, ValueLen, FullContents, ValueTag;
    TagLenIsExact(ValueTag(v));
  }

  lemma {:induction false} SumIsChecked(vs: Values)
    ensures SumLengths(0, vs) == if FullSum(vs) <= 0xFFFF_FFFF then Some(FullSum(vs)) else None
    decreases vs
  {
    hide EncodedLen, FullLen;
    match vs
    case NoValues =>
    case Item(v, rest) =>
      LengthIsChecked(v);
      SumIsChecked(rest);
      if EncodedLen(v).Some? {
        SumFrom(EncodedLen(v).value, rest);
      }
  }

  /** The value octets. */
  function Contents(v: Value): (s: bytes)
    requires ValueLen(v).Some?
    ensures |s| == ValueLen(v).value
    decreases v, 0
  {
    match v
    case Octets(_, content) => content
    case Record(vs) => ConcatAll(vs)
  }

  /** The header and the value octets: as many as computed in advance. */
  function Encoding(v: Value): (s: bytes)
    requires EncodedLen(v).Some?
    ensures |s| == EncodedLen(v).value && s != []
    decreases v, 1
  {
    HeaderLenIsExact(ValueTag(v), ValueLen(v).value);
    HeaderOctets(ValueTag(v), ValueLen(v).value) + Contents(v)
  }

  function ConcatAll(vs: Values): (s: bytes)
    requires SumLengths(0, vs).Some?
    ensures |s| == SumLengths(0, vs).value
    decreases vs
  {
    match vs
    case NoValues => []
    case Item(v, rest) => SumFrom(EncodedLen(v).value, rest); Encoding(v) + ConcatAll(rest)
  }

  // ----- decoding, as a function -----

  /** The value at the start of `s`, nested at most `depth` deep, and the number of octets it takes. */
  function DecodeTlv(s: bytes, schema: Schema, depth: nat, at: nat): (r: Result<(Value, nat), ErrorKind>)
    ensures r.Ok? ==> 0 < r.value.1 <= |s|
    decreases schema
  {
    match ReadHeader(s)
    case Err(error) => Err(Located(error, at + |s| + 1))
    case Ok((h, n)) =>
      if h.tag != SchemaTag(schema) then Err(TagUnexpected(SchemaTag(schema), h.tag))
      else if n + h.length > |s| then Err(Located(Incomplete, at + n + h.length))
      else if depth == 0 then Err(NestingDepth)
      else
        match DecodeContents(s[n..n + h.length], schema, depth - 1, at + n)
        case Err(error) => Err(error)
        case Ok((v, k)) => if k == h.length then Ok((v, n + k)) else Err(TrailingData)
  }

  /** The value octets at the start of `s`; a leaf takes all of `s`. */
  function DecodeContents(s: bytes, schema: Schema, depth: nat, at: nat): (r: Result<(Value, nat), ErrorKind>)
    ensures r.Ok? ==> r.value.1 <= |s|
    decreases schema, 0
  {
    match schema
    case Primitive(tag) => Ok((Octets(tag, s), |s|))
    case Struct(fields) =>
      match DecodeFields(s, fields, depth, at)
      case Err(error) => Err(error)
      case Ok((vs, k)) => Ok((Record(vs), k))
  }

  /** The fields at the start of `s`, one after the other. */
  function DecodeFields(s: bytes, fields: Fields, depth: nat, at: nat): (r: Result<(Values, nat), ErrorKind>)
    ensures r.Ok? ==> r.value.1 <= |s|
    decreases fields
  {
    match fields
    case NoFields => Ok((NoValues, 0))
    case Field(schema, rest) =>
      match DecodeTlv(s, schema, depth, at)
      case Err(error) => Err(error)
      case Ok((v, n)) =>
        match DecodeFields(s[n..], rest, depth, at + n)
        case Err(error) => Err(error)
        case Ok((vs, k)) => Ok((Item(v, vs), n + k))
  }

  lemma FirstField(s: bytes, schema: Schema, rest: Fields, depth: nat, at: nat)
    ensures var first, all := DecodeTlv(s, schema, depth, at), DecodeFields(s, Field(schema, rest), depth, at);
            if first.Err? then all == Err(first.error)
            else
              var others := DecodeFields(s[first.value.1..], rest, depth, at + first.value.1);
              if others.Err? then all == Err(others.error)
              else all == Ok((Item(first.value.0, others.value.0), first.value.1 + others.value.1))
  {
    hide DecodeTlv;
  }

  // ----- decoding is the inverse of encoding -----

  /** The octets of `v` are at the start of `s`. */
  ghost predicate IsEncoded(v: Value, s: bytes, n: nat) {
    EncodedLen(v).Some? && Encoding(v) <= s && n == |Encoding(v)|
  }

  /** The fields are at the start of `s`. */
  ghost predicate AreEncoded(vs: Values, s: bytes, n: nat) {
    SumLengths(0, vs).Some? && ConcatAll(vs) <= s && n == |ConcatAll(vs)|
  }

  /** The contents are at the start of `s`. */
  ghost predicate IsContents(v: Value, s: bytes, n: nat) {
    ValueLen(v).Some? && Contents(v) <= s && n == |Contents(v)|
  }

  lemma HeaderThenContents(v: Value, s: bytes, h: Header, n: nat)
    requires |s| <= MAX_LENGTH && ReadHeader(s) == Ok((h, n)) && h.tag == ValueTag(v) && n + h.length <= |s|
    requires IsContents(v, s[n..n + h.length], h.length)
    ensures IsEncoded(v, s, n + h.length)
  {
    hide HeaderOctets, HeaderLen, ReadHeader;
    HeaderIsReadExactly(s, h, n);
    HeaderLenIsExact(h.tag, h.length);
    assert Contents(v) == s[n..n + h.length];
    assert s[..n + h.length] == s[..n] + s[n..n + h.length];
  }

  lemma FieldThenRest(v: Value, vs: Values, s: bytes, n: nat, k: nat)
    requires |s| <= MAX_LENGTH && n <= |s| && IsEncoded(v, s, n) && AreEncoded(vs, s[n..], k)
    ensures AreEncoded(Item(v, vs), s, n + k)
  {
    hide Encoding, EncodedLen;
    SumFrom(n, vs);
    PrefixOfConcat(Encoding(v), ConcatAll(vs), s);
  }

  /** What is decoded is of the type and not too deep, and its encoding is what was read. */
  lemma {:induction false} DecodedTlv(s: bytes, schema: Schema, depth: nat, at: nat)
    requires |s| <= MAX_LENGTH && DecodeTlv(s, schema, depth, at).Ok?
    ensures var (v, n) := DecodeTlv(s, schema, depth, at).value;
            Conforms(v, schema) && Depth(v) <= depth && IsEncoded(v, s, n)
    decreases schema, 1
  {
    hide ReadHeader, IsEncoded, IsContents;
    var (h, n) := ReadHeader(s).value;
    var contents := s[n..n + h.length];
    DecodedContents(contents, schema, depth - 1, at + n);
    HeaderThenContents(DecodeContents(contents, schema, depth - 1, at + n).value.0, s, h, n);
  }

  lemma {:induction false} DecodedContents(s: bytes, schema: Schema, depth: nat, at: nat)
    requires |s| <= MAX_LENGTH && DecodeContents(s, schema, depth, at).Ok?
    ensures var (v, n) := DecodeContents(s, schema, depth, at).value;
            Conforms(v, schema) && ValueTag(v) == SchemaTag(schema) && Depth(v) <= depth + 1 && IsContents(v, s, n)
    decreases schema, 0
  {
    match schema
    case Primitive(tag) =>
    case Struct(fields) => DecodedFields(s, fields, depth, at);
  }

  lemma {:induction false} DecodedFields(s: bytes, fields: Fields, depth: nat, at: nat)
    requires |s| <= MAX_LENGTH && DecodeFields(s, fields, depth, at).Ok?
    ensures var (vs, n) := DecodeFields(s, fields, depth, at).value;
            AllConform(vs, fields) && DepthOfAll(vs) <= depth && AreEncoded(vs, s, n)
    decreases fields
  {
    hide DecodeTlv, DecodeFields, IsEncoded, AreEncoded, Conforms, AllConform, Depth, DepthOfAll;
    match fields
    case NoFields => NothingConforms(s, depth, at);
    case Field(schema, rest) =>
      FirstField(s, schema, rest, depth, at);
      var (v, n) := DecodeTlv(s, schema, depth, at).value;
      DecodedTlv(s, schema, depth, at);
      DecodedFields(s[n..], rest, depth, at + n);
      var (vs, k) := DecodeFields(s[n..], rest, depth, at + n).value;
      FieldThenRest(v, vs, s, n, k);
      OneMoreConforms(v, vs, schema, rest, depth);
  }

  lemma NothingConforms(s: bytes, depth: nat, at: nat)
    ensures DecodeFields(s, NoFields, depth, at) == Ok((NoValues, 0))
    ensures AllConform(NoValues, NoFields) && DepthOfAll(NoValues) <= depth && AreEncoded(NoValues, s, 0)
  {
  }

  lemma OneMoreConforms(v: Value, vs: Values, schema: Schema, rest: Fields, depth: nat)
    requires Conforms(v, schema) && AllConform(vs, rest) && Depth(v) <= depth && DepthOfAll(vs) <= depth
    ensures AllConform(Item(v, vs), Field(schema, rest)) && DepthOfAll(Item(v, vs)) <= depth
  {
  }

  /** Every value of the type that is not too deep is decoded from its encoding. */
  lemma {:induction false} EncodedTlv(v: Value, schema: Schema, depth: nat, s: bytes, at: nat)
    requires Conforms(v, schema) && Depth(v) <= depth && EncodedLen(v).Some? && Encoding(v) <= s
    ensures DecodeTlv(s, schema, depth, at) == Ok((v, |Encoding(v)|))
    decreases schema, 1
  {
    hide HeaderOctets, HeaderLen, ReadHeader, DecodeContents;
    var tag, len := ValueTag(v), ValueLen(v).value;
    HeaderLenIsExact(tag, len);
    var n := |HeaderOctets(tag, len)|;
    PrefixOfConcat(HeaderOctets(tag, len), Contents(v), s);
    HeaderIsReadExactly(s, NewHeader(tag, len), n);
    assert s[n..n + len] == Contents(v);
    EncodedContents(v, schema, depth - 1, at + n);
  }

  lemma {:induction false} EncodedContents(v: Value, schema: Schema, depth: nat, at: nat)
    requires Conforms(v, schema) && Depth(v) <= depth + 1 && ValueLen(v).Some?
    ensures ValueTag(v) == SchemaTag(schema)
    ensures DecodeContents(Contents(v), schema, depth, at) == Ok((v, |Contents(v)|))
    decreases schema, 0
  {
    match schema
    case Primitive(tag) =>
    case Struct(fields) => EncodedFields(v.values, fields, depth, Contents(v), at);
  }

  lemma FirstAndRest(vs: Values)
    requires vs.Item? && SumLengths(0, vs).Some?
    ensures EncodedLen(vs.first).Some? && SumLengths(0, vs.rest).Some?
    ensures ConcatAll(vs) == Encoding(vs.first) + ConcatAll(vs.rest)
  {
    hide Encoding, EncodedLen;
    SumFrom(EncodedLen(vs.first).value, vs.rest);
  }

  lemma NoFieldsLeft(vs: Values, depth: nat, s: bytes, at: nat)
    ensures DecodeFields(s, NoFields, depth, at) == Ok((NoValues, 0))
    ensures AllConform(vs, NoFields) ==> vs == NoValues
    ensures SumLengths(0, NoValues).Some? && ConcatAll(NoValues) == []
  {
  }

  lemma FirstOfAll(vs: Values, schema: Schema, rest: Fields, depth: nat)
    requires AllConform(vs, Field(schema, rest)) && DepthOfAll(vs) <= depth
    ensures vs.Item? && Conforms(vs.first, schema) && AllConform(vs.rest, rest)
    ensures Depth(vs.first) <= depth && DepthOfAll(vs.rest) <= depth
  {
  }

  lemma {:induction false} EncodedFields(vs: Values, fields: Fields, depth: nat, s: bytes, at: nat)
    requires AllConform(vs, fields) && DepthOfAll(vs) <= depth && SumLengths(0, vs).Some? && ConcatAll(vs) <= s
    ensures DecodeFields(s, fields, depth, at) == Ok((vs, |ConcatAll(vs)|))
    decreases fields
  {
    hide DecodeTlv, DecodeFields, Encoding, EncodedLen, ConcatAll, SumLengths, Conforms, AllConform, Depth, DepthOfAll;
    match fields
    case NoFields => NoFieldsLeft(vs, depth, s, at);
    case Field(schema, rest) =>
      FirstOfAll(vs, schema, rest, depth);
      FirstField(s, schema, rest, depth, at);
      FirstAndRest(vs);
      var v := vs.first;
      PrefixOfConcat(Encoding(v), ConcatAll(vs.rest), s);
      EncodedTlv(v, schema, depth, s, at);
      EncodedFields(vs.rest, rest, depth, s[|Encoding(v)|..], at + |Encoding(v)|);
  }

  // ----- octets that are refused -----

  /** The encoding of a leaf, and of a struct: its fields in order, behind 0x30 and their length. */
  lemma EncodingByParts(v: Value)
    requires EncodedLen(v).Some?
    ensures ValueLen(v).Some? && |Contents(v)| == ValueLen(v).value
    ensures Encoding(v) ==
            (if v.Record? then [0x30] else TagOctets(v.tag)) + LengthOctets(ValueLen(v).value) + Contents(v)
    ensures v.Octets? ==> Contents(v) == v.content
    ensures v.Record? && v.values.NoValues? ==> Contents(v) == []
    ensures v.Record? && v.values.Item? ==>
              EncodedLen(v.values.first).Some? && SumLengths(0, v.values.rest).Some? &&
              Contents(v) == Encoding(v.values.first) + ConcatAll(v.values.rest)
  {
    hide LengthOctets, ConcatAll, SumLengths, TagOctets, EncodedLen;
    assert ValueLen(v).Some? by {
      LengthIsChecked(v);
    }
    LeadsWithTag(v);
    UniversalOctets();
    NoFieldsLeft(NoValues, 0, [], 0);
    if v.Record? && v.values.Item? {
      FirstAndRest(v.values);
    }
  }

  lemma LeadsWithTag(v: Value)
    requires EncodedLen(v).Some?
    ensures Encoding(v) == TagOctets(ValueTag(v)) + LengthOctets(ValueLen(v).value) + Contents(v)
  {
    hide LengthOctets, TagOctets, Contents;
  }

  /** A header with another tag. */
  lemma OtherTag(s: bytes, schema: Schema, depth: nat, tag: Tag, length: u32, at: nat)
    requires HeaderOctets(tag, length) <= s && tag != SchemaTag(schema)
    ensures DecodeTlv(s, schema, depth, at) == Err(TagUnexpected(SchemaTag(schema), tag))
  {
    hide ReadHeader, HeaderOctets, DecodeContents;
    HeaderIsReadExactly(s, NewHeader(tag, length), |HeaderOctets(tag, length)|);
  }

  /** Part of an encoding. */
  lemma PartOfEncoding(v: Value, schema: Schema, depth: nat, k: nat, at: nat)
    requires Conforms(v, schema) && EncodedLen(v).Some? && k < |Encoding(v)|
    ensures at + |Encoding(v)| <= MAX_LENGTH ==> DecodeTlv(Encoding(v)[..k], schema, depth, at) == Err(Incomplete)
    ensures DecodeTlv(Encoding(v)[..k], schema, depth, at) in {Err(Incomplete), Err(Overflow)}
  {
    hide ReadHeader, HeaderOctets, DecodeContents, Contents, ValueLen, HeaderLen;
    var tag, len := ValueTag(v), ValueLen(v).value;
    HeaderLenIsExact(tag, len);
    var s, n := Encoding(v)[..k], |HeaderOctets(tag, len)|;
    if k < n {
      HeaderIsIncomplete(tag, len, k);
      assert s == HeaderOctets(tag, len)[..k];
    } else {
      assert s[..n] == HeaderOctets(tag, len);
      HeaderIsReadExactly(s, NewHeader(tag, len), n);
    }
  }

  /** A value that is nested too deep is refused for that, wherever the depth is exceeded. */
  lemma {:induction false} TooDeep(v: Value, schema: Schema, depth: nat, s: bytes, at: nat)
    requires Conforms(v, schema) && Depth(v) > depth && EncodedLen(v).Some? && Encoding(v) <= s
    ensures DecodeTlv(s, schema, depth, at) == Err(NestingDepth)
    decreases schema, 1
  {
    hide HeaderOctets, HeaderLen, ReadHeader, DecodeContents;
    var tag, len := ValueTag(v), ValueLen(v).value;
    HeaderLenIsExact(tag, len);
    var n := |HeaderOctets(tag, len)|;
    PrefixOfConcat(HeaderOctets(tag, len), Contents(v), s);
    HeaderIsReadExactly(s, NewHeader(tag, len), n);
    assert s[n..n + len] == Contents(v);
    ConformingTag(v, schema);
    if depth > 0 {
      TooDeepContents(v, schema, depth - 1, at + n);
    }
  }

  lemma ConformingTag(v: Value, schema: Schema)
    requires Conforms(v, schema)
    ensures ValueTag(v) == SchemaTag(schema)
  {
  }

  lemma {:induction false} TooDeepContents(v: Value, schema: Schema, depth: nat, at: nat)
    requires Conforms(v, schema) && Depth(v) > depth + 1 && ValueLen(v).Some?
    ensures DecodeContents(Contents(v), schema, depth, at) == Err(NestingDepth)
    decreases schema, 0
  {
    match schema
    case Primitive(tag) =>
    case Struct(fields) => TooDeepFields(v.values, fields, depth, Contents(v), at);
  }

  lemma {:induction false} TooDeepFields(vs: Values, fields: Fields, depth: nat, s: bytes, at: nat)
    requires AllConform(vs, fields) && DepthOfAll(vs) > depth && SumLengths(0, vs).Some? && ConcatAll(vs) <= s
    ensures DecodeFields(s, fields, depth, at) == Err(NestingDepth)
    decreases fields
  {
    hide DecodeTlv, DecodeFields, Encoding, EncodedLen, ConcatAll, SumLengths, Conforms, Depth;
    match fields
    case NoFields => assert false;
    case Field(schema, rest) =>
      FirstField(s, schema, rest, depth, at);
      FirstAndRest(vs);
      var v := vs.first;
      PrefixOfConcat(Encoding(v), ConcatAll(vs.rest), s);
      if Depth(v) > depth {
        TooDeep(v, schema, depth, s, at);
      } else {
        EncodedTlv(v, schema, depth, s, at);
        TooDeepFields(vs.rest, rest, depth, s[|Encoding(v)|..], at + |Encoding(v)|);
      }
  }

  /** Octets behind the fields of a struct, within its length. */
  lemma MoreThanFields(vs: Values, fields: Fields, depth: nat, more: bytes, s: bytes, at: nat)
    requires AllConform(vs, fields) && DepthOfAll(vs) < depth && SumLengths(0, vs).Some? && more != []
    requires |ConcatAll(vs) + more| <= MAX_LENGTH
    requires HeaderOctets(Sequence, |ConcatAll(vs) + more|) + (ConcatAll(vs) + more) <= s
    ensures DecodeTlv(s, Struct(fields), depth, at) == Err(TrailingData)
  {
    hide HeaderOctets, ReadHeader, DecodeFields, ConcatAll, SumLengths, AllConform, DepthOfAll;
    var body := ConcatAll(vs) + more;
    var n := |HeaderOctets(Sequence, |body|)|;
    PrefixOfConcat(HeaderOctets(Sequence, |body|), body, s);
    HeaderIsReadExactly(s, NewHeader(Sequence, |body|), n);
    assert s[n..n + |body|] == body;
    EncodedFields(vs, fields, depth - 1, body, at + n);
  }

  /** Decoding accepts exactly the encodings of the values of the type: no other octets, no
      value twice, and no nesting beyond the limit. */
  lemma TlvIsDecodedExactly(s: bytes, schema: Schema, depth: nat, v: Value, n: nat, at: nat)
    requires |s| <= MAX_LENGTH
    ensures DecodeTlv(s, schema, depth, at) == Ok((v, n)) <==>
            Conforms(v, schema) && Depth(v) <= depth && IsEncoded(v, s, n)
  {
    hide DecodeTlv, Encoding, EncodedLen;
    if DecodeTlv(s, schema, depth, at) == Ok((v, n)) {
      DecodedTlv(s, schema, depth, at);
    }
    if Conforms(v, schema) && Depth(v) <= depth && IsEncoded(v, s, n) {
      EncodedTlv(v, schema, depth, s, at);
    }
  }

  /** A value comes back from its encoding if and only if it is not nested too deep. */
  lemma RoundTrip(v: Value, schema: Schema, depth: nat, at: nat)
    requires Conforms(v, schema) && EncodedLen(v).Some?
    ensures DecodeTlv(Encoding(v), schema, depth, at) == Ok((v, |Encoding(v)|)) <==> Depth(v) <= depth
  {
    TlvIsDecodedExactly(Encoding(v), schema, depth, v, |Encoding(v)|, at);
  }
}
