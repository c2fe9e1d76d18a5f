/** Headers in DER (der/src/header.rs): the tag and the length of a value. */
module DerHeader {
  import opened Bits
  import opened DerTag
  import opened DerLength
  import opened Wrappers

  datatype Header = Header(tag: Tag, length: u32, constructed: bool)

  /** `Header::new`. */
  function NewHeader(tag: Tag, length: u32): Header {
    Header(tag, length, tag.IsConstructed())
  }

  function HeaderOctets(tag: Tag, length: u32): bytes {
    TagOctets(tag) + LengthOctets(length)
  }

  /** `encoded_len`: this sum never overflows. */
  function HeaderLen(tag: Tag, length: u32): u32 {
    TagLenIsExact(tag);
    TagLen(tag) + LengthLen(length)
  }

  predicate ConstructedBit(first: u8) {
    first / 32 % 2 == 1
  }

  /** The header at the start of `s`, and the number of octets it takes. */
  function ReadHeader(s: bytes): (r: Result<(Header, nat), ErrorKind>)
    ensures r.Ok? ==> 0 < r.value.1 <= |s|
  {
    match ReadTag(s)
    case Err(error) => Err(error)
    case Ok((tag, n)) =>
      match ReadLength(s[n..])
      case Err(error) => Err(if error == Overlength then Length(tag) else error)
      case Ok((length, k)) => Ok((Header(tag, length, ConstructedBit(s[0])), n + k))
  }

  lemma HeaderLenIsExact(tag: Tag, length: u32)
    ensures HeaderLen(tag, length) == |HeaderOctets(tag, length)| <= 11
  {
    hide TagLen, TagOctets, LengthOctets;
    TagLenIsExact(tag);
    LengthLenIsExact(length);
  }

  /** The constructed bit that was read is that of the tag. */
  lemma ConstructedBitOfTag(s: bytes)
    requires ReadTag(s).Ok?
    ensures ConstructedBit(s[0]) == ReadTag(s).value.0.IsConstructed()
  {
    hide ReadNumber;
  }

  lemma PrefixOfConcat(a: bytes, b: bytes, s: bytes)
    ensures a + b <= s <==> a <= s && b <= s[|a|..]
  {
    if a + b <= s {
      assert s[..|a|] == (a + b)[..|a|] == a;
      assert s[|a|..][..|b|] == (a + b)[|a|..] == b;
    }
    if a <= s && b <= s[|a|..] {
      assert s == a + s[|a|..];
    }
  }

  /** A header is read exactly where its octets are: the coding is prefix-free and canonical. */
  lemma HeaderIsReadExactly(s: bytes, h: Header, n: nat)
    ensures ReadHeader(s) == Ok((h, n)) <==>
            HeaderOctets(h.tag, h.length) <= s && n == |HeaderOctets(h.tag, h.length)| && h == NewHeader(h.tag, h.length)
  {
    hide ReadTag, ReadLength, TagOctets, LengthOctets, ConstructedBit, Tag.IsConstructed;
    var k := |TagOctets(h.tag)|;
    PrefixOfConcat(TagOctets(h.tag), LengthOctets(h.length), s);
    TagIsReadExactly(s, h.tag, k);
    if k <= |s| {
      LengthIsReadExactly(s[k..], h.length, |LengthOctets(h.length)|);
    }
    if ReadTag(s).Ok? {
      var (tag, m) := ReadTag(s).value;
      ConstructedBitOfTag(s);
      TagIsReadExactly(s, tag, m);
      if ReadLength(s[m..]).Ok? {
        var (length, j) := ReadLength(s[m..]).value;
        LengthIsReadExactly(s[m..], length, j);
      }
    }
  }

  /** An overlong length names the tag; other errors are those of the tag or the length. */
  lemma WhyNoHeader(s: bytes)
    ensures ReadTag(s).Err? ==> ReadHeader(s) == Err(ReadTag(s).error)
    ensures ReadTag(s).Ok? ==>
              var length := ReadLength(s[ReadTag(s).value.1..]);
              length.Err? ==>
                ReadHeader(s) ==
                Err(if length.error.Overlength? then Length(ReadTag(s).value.0) else length.error)
  {
    hide ReadTag, ReadLength;
  }

  /** Fewer octets than a header has are too few. */
  lemma HeaderIsIncomplete(tag: Tag, length: u32, k: nat)
    requires k < |HeaderOctets(tag, length)|
    ensures ReadHeader(HeaderOctets(tag, length)[..k]) == Err(Incomplete)
  {
    hide ReadTag, ReadLength, TagOctets, LengthOctets, ConstructedBit;
    var s, n := HeaderOctets(tag, length)[..k], |TagOctets(tag)|;
    if k < n {
      TagIsIncomplete(tag, k);
      assert s == TagOctets(tag)[..k];
    } else {
      TagIsReadExactly(s, tag, n);
      LengthIsIncomplete(length, k - n);
      assert s[..n] == TagOctets(tag) && s[n..] == LengthOctets(length)[..k - n];
    }
  }

  /** No header is the beginning of another. */
  lemma HeadersArePrefixFree(s: bytes, g: Header, h: Header)
    requires g == NewHeader(g.tag, g.length) && h == NewHeader(h.tag, h.length)
    requires HeaderOctets(g.tag, g.length) <= s && HeaderOctets(h.tag, h.length) <= s
    ensures g == h
  {
    hide HeaderOctets, ReadHeader;
    HeaderIsReadExactly(s, g, |HeaderOctets(g.tag, g.length)|);
    HeaderIsReadExactly(s, h, |HeaderOctets(h.tag, h.length)|);
  }
}
