/** ASN.1 tags in DER (der/src/tag.rs): X.690, section 8.1.2. */
module DerTag {
  import opened Bits
  import opened Base128Numbers
  import opened Wrappers

  datatype Tag =
    | Boolean | Integer | BitString | OctetString | Null | ObjectIdentifier | Real | Enumerated
    | Utf8String | RelativeOid | Sequence | Set | NumericString | PrintableString | TeletexString
    | VideotexString | Ia5String | UtcTime | GeneralizedTime | VisibleString | GeneralString | BmpString
    | Application(constructed: bool, number: u32)
    | ContextSpecific(constructed: bool, number: u32)
    | Private(constructed: bool, number: u32)
  {
    /** The two class bits of the identifier octet. */
    function Class(): u8 {
      match this
      case Application(_, _) => 0x40
      case ContextSpecific(_, _) => 0x80
      case Private(_, _) => 0xC0
      case _ => 0
    }

    function Number(): u32 {
      match this
      case Boolean => 1
      case Integer => 2
      case BitString => 3
      case OctetString => 4
      case Null => 5
      case ObjectIdentifier => 6
      case Real => 9
      case Enumerated => 10
      case Utf8String => 12
      case RelativeOid => 13
      case Sequence => 16
      case Set => 17
      case NumericString => 18
      case PrintableString => 19
      case TeletexString => 20
      case VideotexString => 21
      case Ia5String => 22
      case UtcTime => 23
      case GeneralizedTime => 24
      case VisibleString => 26
      case GeneralString => 27
      case BmpString => 30
      case Application(_, n) => n
      case ContextSpecific(_, n) => n
      case Private(_, n) => n
    }

    predicate IsConstructed() {
      match this
      case Sequence => true
      case Set => true
      case Application(constructed, _) => constructed
      case ContextSpecific(constructed, _) => constructed
      case Private(constructed, _) => constructed
      case _ => false
    }
  }

  datatype ErrorKind =
    | Failed
    | Incomplete
    | IndefiniteLength
    | Length(tag: Tag)
    | NestingDepth
    | Overflow
    | Overlength
    | TagNumberInvalid
    | TagUnexpected(expected: Tag, actual: Tag)
    | TagUnknown(byte: u8)
    | TrailingData

  const CONSTRUCTED_FLAG: u8 := 0x20
  /** The low bits of the identifier octet when the number follows in further octets. */
  const NUMBER_MASK: u8 := 0x1F
  const TAG_MAX_SIZE: nat := 6

  // ----- octets of a tag -----

  function LeadOctet(t: Tag, low: u8): u8
    requires low < 32
  {
    t.Class() + (if t.IsConstructed() then CONSTRUCTED_FLAG else 0) + low
  }

  /** The identifier octets of a tag. */
  function TagOctets(t: Tag): (s: bytes)
    ensures s != []
  {
    if t.Number() < 31 then [LeadOctet(t, t.Number())] else [LeadOctet(t, 31)] + Base128(t.Number())
  }

  /** The identifier octets of the universal types: X.690, section 8.1.2, and X.680, section 8. */
  lemma UniversalOctets()
    ensures TagOctets(Boolean) == [0x01] && TagOctets(Integer) == [0x02] && TagOctets(BitString) == [0x03]
    ensures TagOctets(OctetString) == [0x04] && TagOctets(Null) == [0x05] && TagOctets(ObjectIdentifier) == [0x06]
    ensures TagOctets(Real) == [0x09] && TagOctets(Enumerated) == [0x0A] && TagOctets(Utf8String) == [0x0C]
    ensures TagOctets(RelativeOid) == [0x0D] && TagOctets(Sequence) == [0x30] && TagOctets(Set) == [0x31]
    ensures TagOctets(NumericString) == [0x12] && TagOctets(PrintableString) == [0x13]
    ensures TagOctets(TeletexString) == [0x14] && TagOctets(VideotexString) == [0x15]
    ensures TagOctets(Ia5String) == [0x16] && TagOctets(UtcTime) == [0x17] && TagOctets(GeneralizedTime) == [0x18]
    ensures TagOctets(VisibleString) == [0x1A] && TagOctets(GeneralString) == [0x1B] && TagOctets(BmpString) == [0x1E]
  {
    hide TagOctets;
    SimpleTypes();
    OtherTypes();
    StringTypes();
    OtherStringTypes();
  }

  lemma SimpleTypes()
    ensures TagOctets(Boolean) == [0x01] && TagOctets(Integer) == [0x02] && TagOctets(BitString) == [0x03]
    ensures TagOctets(OctetString) == [0x04] && TagOctets(Null) == [0x05] && TagOctets(ObjectIdentifier) == [0x06]
  {
    hide Base128;
  }

  lemma OtherTypes()
    ensures TagOctets(Real) == [0x09] && TagOctets(Enumerated) == [0x0A] && TagOctets(RelativeOid) == [0x0D]
    ensures TagOctets(Sequence) == [0x30] && TagOctets(Set) == [0x31]
    ensures TagOctets(UtcTime) == [0x17] && TagOctets(GeneralizedTime) == [0x18]
  {
    hide Base128;
  }

  lemma StringTypes()
    ensures TagOctets(Utf8String) == [0x0C] && TagOctets(NumericString) == [0x12] && TagOctets(PrintableString) == [0x13]
    ensures TagOctets(TeletexString) == [0x14] && TagOctets(VideotexString) == [0x15]
  {
    hide Base128;
  }

  lemma OtherStringTypes()
    ensures TagOctets(Ia5String) == [0x16]
    ensures TagOctets(VisibleString) == [0x1A] && TagOctets(GeneralString) == [0x1B] && TagOctets(BmpString) == [0x1E]
  {
    hide Base128;
  }

  /** The identifier octets of the other classes: the class in the two high bits, then the
      constructed bit, then the number, which takes further octets in base 128 from 31 on. */
  lemma ClassOctets(constructed: bool, number: u32, t: Tag)
    requires t in {Application(constructed, number), ContextSpecific(constructed, number), Private(constructed, number)}
    ensures var s := TagOctets(t);
            s[0] / 64 == (if t.Application? then 1 else if t.ContextSpecific? then 2 else 3) &&
            (s[0] / 32 % 2 == 1 <==> constructed) &&
            if number < 31 then s == [s[0]] && s[0] % 32 == number
            else
              s[0] % 32 == 31 && |s| > 1 && s[1] != 0x80 && FromDigits(SevenBits(s[1..]), 128) == number &&
              forall i :: 1 <= i < |s| ==> (s[i] >= 128 <==> i < |s| - 1)
  {
    hide Base128, FromDigits;
    if number >= 31 {
      OctetsAreNumber(number);
      assert TagOctets(t)[1..] == Base128(number);
    }
  }

  /** `encoded_len`. */
  function TagLen(t: Tag): u32 {
    if t.Number() <= 30 then 1 else LogarithmOfWord(t.Number()); Ilog2(t.Number()) / 7 + 2
  }

  lemma LogarithmOfWord(n: u32)
    requires n > 0
    ensures Ilog2(n) < 32
  {
    assert Pow2(8) == 0x100 && Pow2(16) == 0x1_0000 && Pow2(24) == 0x100_0000 && Pow2(32) == 0x1_0000_0000;
    LogarithmOfLess(n, 32);
  }

  lemma TagLenIsExact(t: Tag)
    ensures TagLen(t) == |TagOctets(t)| <= TAG_MAX_SIZE
  {
    hide Ilog2, Base128;
    if t.Number() > 30 {
      LogarithmOfWord(t.Number());
      OctetsByLogarithm(t.Number());
    }
  }

  // ----- reading a tag -----

  function UniversalTag(byte: u8): Option<Tag> {
    match byte
    case 0x01 => Some(Boolean)
    case 0x02 => Some(Integer)
    case 0x03 => Some(BitString)
    case 0x04 => Some(OctetString)
    case 0x05 => Some(Null)
    case 0x06 => Some(ObjectIdentifier)
    case 0x09 => Some(Real)
    case 0x0A => Some(Enumerated)
    case 0x0C => Some(Utf8String)
    case 0x0D => Some(RelativeOid)
    case 0x12 => Some(NumericString)
    case 0x13 => Some(PrintableString)
    case 0x14 => Some(TeletexString)
    case 0x15 => Some(VideotexString)
    case 0x16 => Some(Ia5String)
    case 0x17 => Some(UtcTime)
    case 0x18 => Some(GeneralizedTime)
    case 0x1A => Some(VisibleString)
    case 0x1B => Some(GeneralString)
    case 0x1E => Some(BmpString)
    case 0x30 => Some(Sequence)
    case 0x31 => Some(Set)
    case _ => None
  }

  /** The rest of a tag number after `i` octets with value `v`; also the number of octets read. */
  function ReadParts(s: bytes, i: nat, v: nat): (r: Result<(u32, nat), ErrorKind>)
    requires i <= 5 && v < 0x200_0000
    ensures r.Ok? ==> r.value.1 <= |s|
    decreases 5 - i
  {
    if i == 5 then Err(TagNumberInvalid)
    else if s == [] then Err(Incomplete)
    else
      var n := 128 * v + s[0] % 128;
      if s[0] < 128 then (if n < 31 then Err(TagNumberInvalid) else Ok((n, 1)))
      else if (i == 0 && n == 0) || n >= 0x200_0000 then Err(TagNumberInvalid)
      else
        match ReadParts(s[1..], i + 1, n)
        case Err(error) => Err(error)
        case Ok((number, k)) => Ok((number, k + 1))
  }

  /** The number of a tag of a class other than universal. */
  function ReadNumber(first: u8, s: bytes): (r: Result<(u32, nat), ErrorKind>)
    ensures r.Ok? ==> r.value.1 <= |s|
  {
    if first % 32 != 31 then Ok((first % 32, 0)) else ReadParts(s, 0, 0)
  }

  function ClassTag(first: u8, number: u32): Tag {
    var constructed := first / 32 % 2 == 1;
    if first < 0x80 then Application(constructed, number)
    else if first < 0xC0 then ContextSpecific(constructed, number)
    else Private(constructed, number)
  }

  /** The tag at the start of `s`, and the number of octets it takes. */
  function ReadTag(s: bytes): (r: Result<(Tag, nat), ErrorKind>)
    ensures r.Ok? ==> 0 < r.value.1 <= |s|
  {
    if s == [] then Err(Incomplete)
    else if s[0] >= 0x40 then
      match ReadNumber(s[0], s[1..])
      case Err(error) => Err(error)
      case Ok((number, k)) => Ok((ClassTag(s[0], number), k + 1))
    else if s[0] == 0x1F then Err(TagNumberInvalid)
    else
      match UniversalTag(s[0])
      case Some(t) => Ok((t, 1))
      case None => Err(TagUnknown(s[0]))
  }

  // ----- reading is the inverse of writing -----

  /** The result with `k` more octets read. */
  function Plus(r: Result<(u32, nat), ErrorKind>, k: nat): Result<(u32, nat), ErrorKind> {
    match r
    case Err(error) => Err(error)
    case Ok((number, n)) => Ok((number, n + k))
  }

  /** An octet that is not the last. */
  lemma ReadsOctet(s: bytes, i: nat, v: nat)
    requires i < 5 && s != [] && s[0] >= 128
    requires v < 0x200_0000 && 0 < 128 * v + s[0] % 128 < 0x200_0000
    ensures ReadParts(s, i, v) == Plus(ReadParts(s[1..], i + 1, 128 * v + s[0] % 128), 1)
  {
  }

  /** Reading the leading octets of a number. */
  lemma {:induction false} ReadsContinued(v: nat, rest: bytes)
    requires 0 < v < 0x200_0000
    ensures |Continued(v)| <= 4
    ensures ReadParts(Continued(v) + rest, 0, 0) == Plus(ReadParts(rest, |Continued(v)|, v), |Continued(v)|)
    decreases v
  {
    hide ReadParts;
    OctetRanges(v);
    OctetRanges(v / 128);
    var high, low := v / 128, [128 + v % 128];
    assert Continued(v) + rest == Continued(high) + (low + rest);
    assert (low + rest)[1..] == rest;
    RemainderUnique(low[0], 128, 1, v % 128);
    ReadsOctet(low + rest, |Continued(high)|, high);
    if high == 0 {
      assert Continued(high) == [] && [] + (low + rest) == low + rest;
    } else {
      ReadsContinued(high, low + rest);
    }
  }

  /** The last octet. */
  lemma ReadsLast(s: bytes, i: nat, v: nat, n: u32)
    requires n >= 31 && v == n / 128 && s != [] && s[0] == n % 128
    ensures i <= 4 ==> ReadParts(s, i, v) == Ok((n, 1))
  {
  }

  lemma ReadsNumber(n: u32, rest: bytes)
    requires n >= 31
    ensures ReadParts(Base128(n) + rest, 0, 0) == Ok((n, |Base128(n)|))
  {
    hide ReadParts;
    var high, low := n / 128, [n % 128];
    assert Base128(n) + rest == Continued(high) + (low + rest);
    ReadsLast(low + rest, |Continued(high)|, high, n);
    if high == 0 {
      assert Continued(high) == [] && [] + (low + rest) == low + rest;
    } else {
      ReadsContinued(high, low + rest);
    }
  }

  /** What is read after the octets of `v` completes them to the octets of the number. */
  lemma {:induction false} ReadIsMinimal(s: bytes, i: nat, v: nat)
    requires i <= 5 && v < 0x200_0000 && (i > 0 ==> v > 0) && (i == 0 ==> v == 0)
    requires ReadParts(s, i, v).Ok?
    ensures var (number, k) := ReadParts(s, i, v).value;
            number >= 31 && Continued(v) + s[..k] == Base128(number)
    decreases 5 - i
  {
    hide Continued, Base128, ReadParts;
    ReadPartsOfOctet(s, i, v);
    var n := 128 * v + s[0] % 128;
    if s[0] < 128 {
      Base128Step(v, s[0] % 128);
      assert s[..1] == [s[0]];
    } else {
      ContinuedStep(v, s[0] % 128);
      ReadIsMinimal(s[1..], i + 1, n);
      var (number, k) := ReadParts(s[1..], i + 1, n).value;
      assert s[..k + 1] == [s[0]] + s[1..][..k];
      assert [128 + s[0] % 128] == [s[0]];
      assert Continued(v) + s[..k + 1] == Continued(n) + s[1..][..k];
    }
  }

  /** The cases of a successful read. */
  lemma ReadPartsOfOctet(s: bytes, i: nat, v: nat)
    requires i <= 5 && v < 0x200_0000 && (i == 0 ==> v == 0)
    requires ReadParts(s, i, v).Ok?
    ensures i < 5 && s != []
    ensures var n := 128 * v + s[0] % 128;
            if s[0] < 128 then n >= 31 && ReadParts(s, i, v) == Ok((n, 1))
            else n < 0x200_0000 && (i > 0 || n > 0) && ReadParts(s[1..], i + 1, n).Ok? &&
                 ReadParts(s, i, v) == Plus(ReadParts(s[1..], i + 1, n), 1)
  {
  }

  /** The first octet determines class, form and low bits. */
  lemma LeadOctetIsUnique(t: Tag, low: u8, first: u8)
    requires low < 32
    requires t.Class() >= 0x40
    ensures LeadOctet(t, low) == first <==>
            first >= 0x40 && ClassTag(first, t.Number()) == t && first % 32 == low
  {
  }

  lemma UniversalTagsAreInverse(t: Tag, first: u8)
    requires t.Class() == 0
    ensures t.Number() < 31 && LeadOctet(t, t.Number()) < 0x40
    ensures UniversalTag(first) == Some(t) <==> LeadOctet(t, t.Number()) == first
  {
  }

  lemma UniversalTagsAreUniversal(first: u8)
    ensures UniversalTag(first).Some? ==> UniversalTag(first).value.Class() == 0 && first < 0x40 && first != 0x1F
  {
  }

  /** A tag is read exactly where its octets are: the coding is prefix-free and canonical. */
  lemma TagIsReadExactly(s: bytes, t: Tag, n: nat)
    ensures ReadTag(s) == Ok((t, n)) <==> TagOctets(t) <= s && n == |TagOctets(t)|
  {
    hide UniversalTag, ClassTag, ReadParts, Base128, LeadOctet, Tag.Number, Tag.Class;
    if TagOctets(t) <= s {
      TagIsRead(s, t);
    }
    if ReadTag(s) == Ok((t, n)) {
      ReadTagIsPrefix(s);
    }
  }

  lemma TagIsRead(s: bytes, t: Tag)
    requires TagOctets(t) <= s
    ensures ReadTag(s) == Ok((t, |TagOctets(t)|))
  {
    hide UniversalTag, ClassTag, ReadParts, Base128, LeadOctet, Tag.Number;
    assert s[0] == TagOctets(t)[0];
    if t.Class() == 0 {
      UniversalTagsAreInverse(t, s[0]);
      UniversalTagsAreUniversal(s[0]);
    } else if t.Number() < 31 {
      LeadOctetIsUnique(t, t.Number(), s[0]);
    } else {
      LeadOctetIsUnique(t, 31, s[0]);
      var rest := s[|TagOctets(t)|..];
      assert s[1..] == Base128(t.Number()) + rest;
      ReadsNumber(t.Number(), rest);
    }
  }

  /** The first octets of a number, of which more follow. */
  lemma {:induction false} BeginningOfContinued(v: nat, k: nat) returns (w: nat)
    requires 0 < k <= |Continued(v)|
    ensures 0 < w <= v && Continued(v)[..k] == Continued(w)
    decreases v
  {
    if k == |Continued(v)| {
      w := v;
    } else {
      w := BeginningOfContinued(v / 128, k);
    }
  }

  /** Fewer octets than a tag has are too few. */
  lemma TagIsIncomplete(t: Tag, k: nat)
    requires k < |TagOctets(t)|
    ensures ReadTag(TagOctets(t)[..k]) == Err(Incomplete)
  {
    hide UniversalTag, ClassTag, ReadParts, Continued, LeadOctet, Tag.Number;
    var s := TagOctets(t)[..k];
    if k > 0 {
      UniversalTagsHaveOneOctet(t);
      LeadOctetIsUnique(t, 31, s[0]);
      var high := t.Number() / 128;
      assert s[1..] == Continued(high)[..k - 1];
      if k > 1 {
        var w := BeginningOfContinued(high, k - 1);
        ReadsContinued(w, []);
        assert Continued(w) + [] == s[1..];
      }
      NothingLeft(k - 1);
    }
  }

  lemma NothingLeft(i: nat)
    ensures i < 5 ==> forall v: nat :: v < 0x200_0000 ==> ReadParts([], i, v) == Err(Incomplete)
  {
  }

  lemma UniversalTagsHaveOneOctet(t: Tag)
    ensures t.Class() == 0 ==> t.Number() < 31
    ensures t.Class() == 0 || t.Class() >= 0x40
  {
  }

  /** Octets that are no tag, and why: none, a universal type that is not known, the high-tag-number
      form of one, and a number that is too small, too large or not minimal. */
  lemma WhyNoTag(s: bytes)
    ensures s == [] ==> ReadTag(s) == Err(Incomplete)
    ensures s != [] && s[0] == 0x1F ==> ReadTag(s) == Err(TagNumberInvalid)
    ensures s != [] && s[0] < 0x40 && s[0] != 0x1F ==>
              ReadTag(s) == Err(TagUnknown(s[0])) || exists t: Tag :: t.Class() == 0 && TagOctets(t) == [s[0]]
    ensures s != [] && s[0] >= 0x40 && ReadTag(s).Err? ==>
              s[0] % 32 == 31 && ReadTag(s).error in {Incomplete, TagNumberInvalid}
    ensures |s| > 1 && s[0] >= 0x40 && s[0] % 32 == 31 && (s[1] < 31 || s[1] == 0x80) ==>
              ReadTag(s) == Err(TagNumberInvalid)
  {
    hide UniversalTag, ClassTag, ReadParts, Base128, Tag.Number;
    if s != [] && s[0] < 0x40 && s[0] != 0x1F && UniversalTag(s[0]).Some? {
      var t := UniversalTag(s[0]).value;
      UniversalTagsAreUniversal(s[0]);
      UniversalTagsAreInverse(t, s[0]);
      assert TagOctets(t) == [s[0]];
    }
    if s != [] && s[0] >= 0x40 {
      PartErrors(s[1..], 0, 0);
      FirstPart(s[1..]);
    }
  }

  lemma {:induction false} PartErrors(s: bytes, i: nat, v: nat)
    requires i <= 5 && v < 0x200_0000
    ensures ReadParts(s, i, v).Err? ==> ReadParts(s, i, v).error in {Incomplete, TagNumberInvalid}
    decreases 5 - i
  {
    if i < 5 && s != [] && 128 * v + s[0] % 128 < 0x200_0000 {
      PartErrors(s[1..], i + 1, 128 * v + s[0] % 128);
    }
  }

  lemma FirstPart(s: bytes)
    ensures s != [] && (s[0] < 31 || s[0] == 0x80) ==> ReadParts(s, 0, 0) == Err(TagNumberInvalid)
  {
  }

  lemma ReadTagIsPrefix(s: bytes)
    requires ReadTag(s).Ok?
    ensures var (t, n) := ReadTag(s).value; TagOctets(t) <= s && n == |TagOctets(t)|
  {
    hide UniversalTag, ClassTag, ReadParts, Base128, LeadOctet, Tag.Number;
    var (t, n) := ReadTag(s).value;
    if s[0] >= 0x40 {
      var number := ReadNumber(s[0], s[1..]).value.0;
      ClassTagFields(s[0], number);
      if s[0] % 32 == 31 {
        ReadIsMinimal(s[1..], 0, 0);
        assert Continued(0) == [];
        LeadOctetIsUnique(t, 31, s[0]);
        assert s == [s[0]] + s[1..];
        assert s[..n] == [s[0]] + s[1..][..n - 1];
      } else {
        LeadOctetIsUnique(t, s[0] % 32, s[0]);
      }
    } else {
      UniversalTagsAreUniversal(s[0]);
      UniversalTagsAreInverse(t, s[0]);
    }
  }

  lemma ClassTagFields(first: u8, number: u32)
    requires first >= 0x40
    ensures var t := ClassTag(first, number); t.Class() >= 0x40 && t.Number() == number
  {
  }
}
