/** Iterating over, checking and extending object identifiers (const-oid/src/arcs.rs,
    const-oid/src/lib.rs). */
module OidCodec {
  import opened Bits
  import opened Decimals
  import opened ObjectIdentifiers
  import opened OidEncoder
  import opened OidText
  import opened Wrappers

  /** An identifier that one of the constructors can return. */
  ghost predicate WellFormed(oid: ObjectIdentifier) {
    oid.Valid() && ArcsOf(oid.AsBytes()).Ok? && oid == FromOctets(oid.AsBytes())
  }

  ghost function ArcsIn(oid: ObjectIdentifier): seq<u32>
    requires WellFormed(oid)
  {
    ArcsOf(oid.AsBytes()).value
  }

  /** Iterator over the arcs. */
  class Arcs {
    const ber: bytes
    var cursor: Option<nat>

    ghost predicate Valid()
      reads this
    {
      cursor.Some? ==> cursor.value <= |ber| && (cursor.value <= 1 ==> ber != [] && RootArcs(ber[0]).Ok?)
    }

    /** The arcs that have not been returned. */
    ghost function Rest(): Result<seq<u32>, OidError>
      reads this
      requires Valid()
    {
      match cursor
      case None => ArcsOf(ber)
      case Some(offset) =>
        var body := ReadBody(ber[if offset == 0 then 1 else offset..]);
        if offset > 0 || body.Err? then body else Ok([RootArcs(ber[0]).value.1] + body.value)
    }

    ghost function Left(): nat
      reads this
      requires Valid()
    {
      match cursor
      case None => |ber| + 2
      case Some(offset) => |ber| + 1 - offset
    }

    constructor (ber: bytes)
      ensures Valid() && this.ber == ber && cursor == None
    {
      this.ber, cursor := ber, None;
    }

    /** The next arc: an arc is returned even when a later one is malformed. */
    method TryNext() returns (r: Result<Option<u32>, OidError>)
      requires Valid()
      modifies this
      ensures Valid()
      ensures match old(Rest())
              case Ok(xs) =>
                if xs == [] then r == Ok(None) && Rest() == Ok([])
                else r == Ok(Some(xs[0])) && Rest() == Ok(xs[1..])
              case Err(error) =>
                r == Err(error) || (r.Ok? && r.value.Some? && Rest() == Err(error))
      ensures r.Ok? && r.value.Some? ==> Left() < old(Left())
    {
      hide ReadBody;
      match cursor {
        case None =>
          if ber == [] {
            return Err(Empty);
          }
          var root := RootArcs(ber[0]);
          if root.Err? {
            return Err(root.error);
          }
          cursor := Some(0);
          FirstTwo(root.value.0, root.value.1, ReadBody(ber[1..]));
          r := Ok(Some(root.value.0));
        case Some(offset) =>
          if offset == 0 {
            var root := RootArcs(ber[0]);
            cursor := Some(1);
            FirstTwo(root.value.0, root.value.1, ReadBody(ber[1..]));
            r := Ok(Some(root.value.1));
          } else {
            r := NextInBody(offset);
          }
      }
    }

    /** An arc after the second, with overflow checks on its value. */
    method NextInBody(offset: nat) returns (r: Result<Option<u32>, OidError>)
      requires Valid() && cursor == Some(offset) && offset > 0
      modifies this
      ensures Valid() && cursor.Some? && cursor.value > 0
      ensures match old(Rest())
              case Ok(xs) =>
                if xs == [] then r == Ok(None) && Rest() == Ok([])
                else r == Ok(Some(xs[0])) && Rest() == Ok(xs[1..])
              case Err(error) =>
                r == Err(error) || (r.Ok? && r.value.Some? && Rest() == Err(error))
      ensures r.Ok? && r.value.Some? ==> cursor.value > offset
    {
      hide ReadBody, ReadArc, And;
      ghost var s := ber[offset..];
      var result: nat := 0;
      var arcBytes := 0;
      if s == [] {
        NothingToRead();
      } else {
        ReadBodyStep(s);
      }
      while true
        invariant result <= MAX_ARC && offset + arcBytes <= |ber| && cursor == Some(offset)
        invariant s != [] ==> ReadArc(s, 0) == ObjectIdentifiers.Plus(ReadArc(ber[offset + arcBytes..], result), arcBytes)
        invariant s == [] ==> arcBytes == 0
        decreases |ber| - offset - arcBytes
      {
        var len := offset + arcBytes;
        if len == |ber| {
          if arcBytes == 0 {
            return Ok(None);
          }
          ArcStep(ber[len..], result);
          return Err(OidError.Base128);
        }
        ArcStep(ber[len..], result);
        LowBits(ber[len]);
        arcBytes := arcBytes + 1;
        // checked_mul, checked_add
        if result * 0x80 + And(ber[len], 0x7F) > MAX_ARC {
          return Err(ArcTooBig);
        }
        result := result * 0x80 + And(ber[len], 0x7F);
        assert ber[len..][1..] == ber[offset + arcBytes..];
        ghost var more := ReadArc(ber[offset + arcBytes..], result);
        assert ber[len] >= 128 ==>
            ObjectIdentifiers.Plus(ObjectIdentifiers.Plus(more, 1), arcBytes - 1) == ObjectIdentifiers.Plus(more, arcBytes);
        if And(ber[len], 0x80) == 0 {
          cursor := Some(offset + arcBytes);
          assert s[arcBytes..] == ber[offset + arcBytes..];
          return Ok(Some(result));
        }
      }
    }
  }

  lemma FirstTwo(first: u32, second: u32, body: Result<seq<u32>, OidError>)
    ensures body.Ok? ==> ([first, second] + body.value)[1..] == [second] + body.value
    ensures body.Ok? ==> ([second] + body.value)[1..] == body.value
  {
  }

  lemma ArcStep(s: bytes, v: u32)
    ensures ReadArc(s, v) ==
            if s == [] then Err(OidError.Base128)
            else if v * 128 + s[0] % 128 > MAX_ARC then Err(ArcTooBig)
            else if s[0] < 128 then Ok((v * 128 + s[0] % 128, 1))
            else ObjectIdentifiers.Plus(ReadArc(s[1..], v * 128 + s[0] % 128), 1)
  {
  }

  lemma LowBits(c: u8)
    ensures And(c, 0x7F) == c % 128
    ensures And(c, 0x80) == 0 <==> c < 128
  {
    hide And;
    assert Pow2(7) == 0x80 && Pow2(1) == 2;
    AndLowMask(c, 7);
    AndShifted(c, 1, 7);
    AndLowMask(c / 0x80, 1);
  }

  // ----- checking octets -----

  /** `from_bytes` accepts the octets whose arcs can all be read; iterating over the accepted
      ones never fails. */
  method FromBytes(ber: bytes) returns (r: Result<ObjectIdentifier, OidError>)
    ensures match ArcsOf(ber)
            case Err(error) => r == Err(error)
            case Ok(xs) =>
              if |ber| > 39 then r == Err(Length) else r == Ok(FromOctets(ber)) && WellFormed(r.value)
  {
    hide ArcsOf, ReadBody;
    var arcs := new Arcs(ber);
    var next: Option<u32> := Some(0);
    while next.Some?
      invariant arcs.Valid() && arcs.ber == ber
      invariant ArcsOf(ber).Err? ==> next.Some? && arcs.Rest() == ArcsOf(ber)
      invariant ArcsOf(ber).Ok? ==> arcs.Rest().Ok?
      decreases next.Some?, arcs.Left()
    {
      var step := arcs.TryNext();
      if step.Err? {
        return Err(step.error);
      }
      next := step.value;
    }
    if |ber| > MAX_SIZE {
      return Err(Length);
    }
    r := Ok(FromOctets(ber));
  }

  /** `len`: the number of arcs. */
  method CountArcs(ber: bytes) returns (n: nat)
    requires ArcsOf(ber).Ok?
    ensures n == |ArcsOf(ber).value|
  {
    hide ArcsOf, ReadBody;
    var arcs := new Arcs(ber);
    n := 0;
    var next := arcs.TryNext();
    while next.value.Some?
      invariant arcs.Valid() && arcs.ber == ber && next.Ok? && arcs.Rest().Ok?
      invariant n + |arcs.Rest().value| + (if next.value.Some? then 1 else 0) == |ArcsOf(ber).value|
      invariant next.value.None? ==> arcs.Rest().value == []
      decreases next.value.Some?, arcs.Left()
    {
      n := n + 1;
      next := arcs.TryNext();
    }
  }

  // ----- parent and child -----

  /** `push_arc`. */
  function PushArc(oid: ObjectIdentifier, arc: u32): Result<ObjectIdentifier, OidError>
    requires oid.Valid()
  {
    match Arc(Extend(oid), arc)
    case Err(error) => Err(error)
    case Ok(e) => Finish(e)
  }

  /** The identifier of all arcs but the last; there is none with a single arc. */
  ghost function ParentOf(oid: ObjectIdentifier): Option<ObjectIdentifier>
    requires WellFormed(oid)
  {
    var xs := ArcsIn(oid);
    match Built(xs[..|xs| - 1])
    case Ok(parent) => Some(parent)
    case Err(_) => None
  }

  /** Every identifier of more than two arcs has a parent, and it has all arcs but the last, in
      minimal octets. */
  lemma ParentHasOtherArcs(oid: ObjectIdentifier)
    requires WellFormed(oid)
    ensures ParentOf(oid) == None <==> |ArcsIn(oid)| == 2
    ensures ParentOf(oid).Some? ==>
              var parent := ParentOf(oid).value;
              WellFormed(parent) && ArcsIn(parent) == ArcsIn(oid)[..|ArcsIn(oid)| - 1] &&
              Minimal(parent.AsBytes()[1..])
  {
    hide ArcsOf, Minimal, Octets, Built;
    var xs := ArcsIn(oid);
    OctetsOfArcs(oid.AsBytes());
    var ys, last := xs[..|xs| - 1], xs[|xs| - 1..];
    assert xs == ys + last;
    BuiltFromArcs(ys);
    if |xs| > 2 {
      LongerOctets(ys, last);
      BuiltIsMinimal(ys);
    }
  }

  /** `parent`: the arcs are encoded again. */
  method Parent(oid: ObjectIdentifier) returns (r: Option<ObjectIdentifier>)
    requires WellFormed(oid)
    ensures r == ParentOf(oid)
    ensures r == None <==> |ArcsIn(oid)| == 2
    ensures r.Some? ==>
              WellFormed(r.value) && ArcsIn(r.value) == ArcsIn(oid)[..|ArcsIn(oid)| - 1] &&
              Minimal(r.value.AsBytes()[1..])
  {
    hide ArcsOf, ReadBody, Arc, Minimal;
    ParentHasOtherArcs(oid);
    ghost var xs := ArcsIn(oid);
    OctetsOfArcs(oid.AsBytes());
    var len := CountArcs(oid.AsBytes());
    var numArcs := len - 1;
    var arcs := new Arcs(oid.AsBytes());
    var e := OidEncoder.New();
    assert xs[0..] == xs;
    for i := 0 to numArcs
      invariant arcs.Valid() && arcs.ber == oid.AsBytes() && arcs.Rest() == Ok(xs[i..])
      invariant e.Valid() && Feed(OidEncoder.New(), xs[..numArcs]) == Feed(e, xs[..numArcs][i..])
    {
      var next := arcs.TryNext();
      FeedStep(e, xs[..numArcs][i..]);
      assert xs[..numArcs][i..][0] == xs[i] && xs[..numArcs][i..][1..] == xs[..numArcs][i + 1..];
      var step := Arc(e, next.value.value);
      if step.Err? {
        return None;
      }
      e := step.value;
    }
    FeedStep(e, []);
    assert xs[..numArcs][numArcs..] == [];
    r := match Finish(e) case Ok(parent) => Some(parent) case Err(_) => None;
  }

  /** A child has one more arc. */
  lemma PushedArcs(oid: ObjectIdentifier, arc: u32)
    requires WellFormed(oid)
    ensures var octets := oid.AsBytes() + Base128Numbers.Base128(arc);
            PushArc(oid, arc) == (if |octets| <= MAX_SIZE then Ok(FromOctets(octets)) else Err(Length)) &&
            (|octets| <= MAX_SIZE ==> WellFormed(FromOctets(octets)) && ArcsIn(FromOctets(octets)) == ArcsIn(oid) + [arc])
  {
    hide ReadBody, Base128Numbers.Base128;
    var ber, added := oid.AsBytes(), Base128Numbers.Base128(arc);
    var octets := ber + added;
    assert octets[1..] == ber[1..] + added;
    BodyContinues(ber[1..], added);
    OneArc(arc);
    if |octets| <= MAX_SIZE {
      assert oid.buffer[|octets|..] == Fill(0, MAX_SIZE - |octets|);
      assert oid.buffer[..oid.length] + added + oid.buffer[|octets|..] == FromOctets(octets).buffer;
      assert ArcsIn(oid)[2..] + [arc] == (ArcsIn(oid) + [arc])[2..];
    }
  }

  lemma OneArc(arc: u32)
    ensures ReadBody(Base128Numbers.Base128(arc)) == Ok([arc])
  {
    hide ReadBody;
    assert [arc][1..] == [] && BodyOctets([]) == [];
    assert BodyOctets([arc]) == Base128Numbers.Base128(arc) + BodyOctets([]);
    assert BodyOctets([arc]) + [] == Base128Numbers.Base128(arc);
    BodyIsRead([arc], []);
    NothingToRead();
    assert [arc] + [] == [arc];
  }

  /** What is read from complete octets is read from them when more octets follow. */
  lemma {:induction false} ArcContinues(s: bytes, rest: bytes, v: u32)
    requires ReadArc(s, v).Ok?
    ensures ReadArc(s + rest, v) == ReadArc(s, v)
    decreases |s|
  {
    assert (s + rest)[1..] == s[1..] + rest;
    if s[0] >= 128 {
      ArcContinues(s[1..], rest, v * 128 + s[0] % 128);
    }
  }

  lemma {:induction false} BodyContinues(s: bytes, rest: bytes)
    requires ReadBody(s).Ok?
    ensures ReadBody(s + rest) ==
            if ReadBody(rest).Err? then Err(ReadBody(rest).error) else Ok(ReadBody(s).value + ReadBody(rest).value)
    decreases |s|
  {
    hide ReadBody, ReadArc;
    if s == [] {
      NothingToRead();
      assert s + rest == rest;
      assert ReadBody(rest).Ok? ==> [] + ReadBody(rest).value == ReadBody(rest).value;
    } else {
      ReadBodyStep(s);
      ReadBodyStep(s + rest);
      ArcContinues(s, rest, 0);
      var (arc, k) := ReadArc(s, 0).value;
      assert (s + rest)[k..] == s[k..] + rest;
      BodyContinues(s[k..], rest);
      if ReadBody(rest).Ok? {
        var arcs := ReadBody(s[k..]).value;
        assert [arc] + (arcs + ReadBody(rest).value) == [arc] + arcs + ReadBody(rest).value;
      }
    }
  }

  /** `parent` undoes `push_arc` up to the octets of the arcs: it gives back the identifier
      itself if and only if none of its arcs starts with an octet that adds nothing. */
  lemma ParentOfPushed(oid: ObjectIdentifier, arc: u32)
    requires WellFormed(oid) && PushArc(oid, arc).Ok?
    ensures var child := PushArc(oid, arc).value;
            WellFormed(child) && Encodable(ArcsIn(oid)) &&
            ParentOf(child) == Some(FromOctets(Octets(ArcsIn(oid)))) &&
            (ParentOf(child) == Some(oid) <==> Minimal(oid.AsBytes()[1..]))
  {
    hide PushArc, ArcsOf, Minimal, Octets;
    var xs := ArcsIn(oid);
    PushedArcs(oid, arc);
    OctetsOfArcs(oid.AsBytes());
    assert (xs + [arc])[..|xs|] == xs;
    BuiltFromArcs(xs);
  }

  /** Identifiers built from arcs are well formed and minimal. */
  lemma BuiltIsMinimal(xs: seq<u32>)
    requires Built(xs).Ok?
    ensures WellFormed(Built(xs).value) && ArcsIn(Built(xs).value) == xs && Minimal(Built(xs).value.AsBytes()[1..])
  {
    hide ArcsOf, Minimal, Octets, Built;
    BuiltFromArcs(xs);
    ArcsOfOctets(xs);
    OctetsOfArcs(Octets(xs));
  }

  /** Octets that `from_bytes` accepts although no encoder writes them: an arc with a leading
      0x80.  The identifier is not the parent of its children. */
  lemma PaddedArcIsAccepted()
    ensures ArcsOf([0x2A, 0x80, 0x01]) == Ok([1, 2, 1])
    ensures var oid := FromOctets([0x2A, 0x80, 0x01]);
            WellFormed(oid) && PushArc(oid, 1).Ok? && WellFormed(PushArc(oid, 1).value) &&
            ParentOf(PushArc(oid, 1).value) != Some(oid)
  {
    hide ReadBody, PushArc, ParentOf, Minimal, ArcsOf;
    var oid := FromOctets([0x2A, 0x80, 0x01]);
    PaddedArcIsRead();
    OneOctet();
    PushedArcs(oid, 1);
    PaddingIsNotMinimal();
    assert oid.AsBytes()[1..] == [0x80, 0x01];
    ParentOfPushed(oid, 1);
  }

  lemma PaddedArcIsRead()
    ensures ArcsOf([0x2A, 0x80, 0x01]) == Ok([1, 2, 1])
  {
    hide ReadBody, ReadArc;
    var s := [0x2A, 0x80, 0x01];
    assert s[1..] == [0x80, 0x01] && s[1..][1..] == [0x01];
    ReadsOctet(s[1..], 0);
    ReadsLast([0x01], 0);
    ReadBodyStep(s[1..]);
    assert s[1..][2..] == [];
    NothingToRead();
    assert [1] + [] == [1] && [1, 2] + [1] == [1, 2, 1];
  }

  lemma OneOctet()
    ensures |Base128Numbers.Base128(1)| == 1
  {
  }

  lemma PaddingIsNotMinimal()
    ensures !Minimal([0x80, 0x01])
  {
    assert StartsArc([0x80, 0x01], 0);
  }

  // ----- prefixes -----

  method StartsWith(oid: ObjectIdentifier, other: ObjectIdentifier) returns (r: bool)
    requires oid.Valid() && other.Valid()
    ensures r <==> other.AsBytes() <= oid.AsBytes()
  {
    var len := |other.AsBytes()|;
    if |oid.AsBytes()| < len {
      return false;
    }
    var i := 0;
    while i < len
      invariant i <= len && other.AsBytes()[..i] == oid.AsBytes()[..i]
    {
      if oid.AsBytes()[i] != other.AsBytes()[i] {
        return false;
      }
      i := i + 1;
    }
    r := true;
  }

  /** The octets of one identifier start with those of another exactly when its arcs start with
      the arcs of the other, each with the same padding; between minimal identifiers there is none. */
  lemma PrefixOfArcs(oid: ObjectIdentifier, other: ObjectIdentifier)
    requires WellFormed(oid) && WellFormed(other)
    ensures ReadBody(oid.AsBytes()[1..]).Ok? && ReadBody(other.AsBytes()[1..]).Ok?
    ensures other.AsBytes() <= oid.AsBytes() <==>
            ArcsIn(other) <= ArcsIn(oid) && Paddings(other.AsBytes()[1..]) <= Paddings(oid.AsBytes()[1..])
    ensures Minimal(oid.AsBytes()[1..]) && Minimal(other.AsBytes()[1..]) ==>
              (other.AsBytes() <= oid.AsBytes() <==> ArcsIn(other) <= ArcsIn(oid))
  {
    hide ReadBody, Minimal, Octets, Paddings, PaddedOctets;
    var s, t := oid.AsBytes(), other.AsBytes();
    var xs, ys := ReadBody(s[1..]).value, ReadBody(t[1..]).value;
    BodyIsPadded(s[1..]);
    BodyIsPadded(t[1..]);
    assert ArcsIn(oid)[2..] == xs && ArcsIn(other)[2..] == ys;
    assert s == [s[0]] + s[1..] && t == [t[0]] + t[1..];
    if t <= s {
      var rest := s[|t|..];
      assert s[1..] == t[1..] + rest;
      BodyContinues(t[1..], rest);
      PaddingsContinue(t[1..], rest);
      assert ArcsIn(oid) == ArcsIn(other) + ReadBody(rest).value;
    }
    if ArcsIn(other) <= ArcsIn(oid) {
      SamePrefix(ArcsIn(other), ArcsIn(oid));
      if Paddings(t[1..]) <= Paddings(s[1..]) {
        PaddedPrefix(ys, Paddings(t[1..]), xs, Paddings(s[1..]));
      }
      if Minimal(s[1..]) && Minimal(t[1..]) {
        OctetsOfArcs(s);
        OctetsOfArcs(t);
        var more := ArcsIn(oid)[|ArcsIn(other)|..];
        assert ArcsIn(oid) == ArcsIn(other) + more;
        OctetsConcat(ArcsIn(other), more);
      }
    }
  }

  lemma SamePrefix(xs: seq<u32>, ys: seq<u32>)
    requires ValidRoot(xs) && ValidRoot(ys) && xs <= ys
    ensures xs[2..] <= ys[2..] && xs[0] == ys[0] && xs[1] == ys[1]
  {
  }

  /** Paddings of octets with more octets behind them. */
  lemma {:induction false} PaddingsContinue(s: bytes, rest: bytes)
    requires ReadBody(s).Ok? && ReadBody(rest).Ok? && ReadBody(s + rest).Ok?
    ensures Paddings(s + rest) == Paddings(s) + Paddings(rest)
    decreases |s|
  {
    hide ReadBody, ReadArc;
    if s == [] {
      assert s + rest == rest;
    } else {
      ReadBodyStep(s);
      ReadBodyStep(s + rest);
      ArcContinues(s, rest, 0);
      var k := ReadArc(s, 0).value.1;
      assert (s + rest)[k..] == s[k..] + rest;
      PaddingsContinue(s[k..], rest);
      ReadArcIsMinimal(s, 0);
      PaddingContinues(s, rest, k);
    }
  }

  lemma {:induction false} PaddingContinues(s: bytes, rest: bytes, k: nat)
    requires 0 < k <= |s| && s[k - 1] < 128
    ensures Padding(s + rest) == Padding(s)
  {
    assert (s + rest)[1..] == s[1..] + rest;
    if s[0] == 0x80 {
      PaddingContinues(s[1..], rest, k - 1);
    }
  }

  lemma OctetsConcat(xs: seq<u32>, ys: seq<u32>)
    requires ValidRoot(xs)
    ensures ValidRoot(xs + ys) && Octets(xs) <= Octets(xs + ys)
  {
    assert (xs + ys)[2..] == xs[2..] + ys;
    BodyAppend(xs[2..], ys);
  }

  // ----- printing -----

  /** The text form: every arc, with a dot after all but the last. */
  method Display(oid: ObjectIdentifier) returns (s: bytes)
    requires WellFormed(oid)
    ensures s == Text(ArcsIn(oid))
  {
    hide ArcsOf, ReadBody, Digits, Text;
    ghost var xs := ArcsIn(oid);
    var len := CountArcs(oid.AsBytes());
    var arcs := new Arcs(oid.AsBytes());
    s := [];
    assert xs[0..] == xs && [] + Text(xs) == Text(xs);
    for i := 0 to len
      invariant arcs.Valid() && arcs.ber == oid.AsBytes() && arcs.Rest() == Ok(xs[i..])
      invariant s + Text(xs[i..]) == Text(xs)
    {
      TextStep(xs, i);
      ghost var before := s;
      var next := arcs.TryNext();
      s := s + Digits(next.value.value);
      ghost var dot := if i + 1 < len then [DOT] else [];
      if i + 1 < len {
        s := s + [DOT];
      }
      assert s == before + Digits(xs[i]) + dot;
      Regrouped(before, Digits(xs[i]), dot, Text(xs[i + 1..]));
    }
    assert xs[len..] == [];
    TextOfNone();
  }

  lemma Regrouped(a: bytes, b: bytes, c: bytes, d: bytes)
    ensures a + b + c + d == a + (b + c + d)
  {
  }

  lemma TextOfNone()
    ensures Text([]) == []
  {
  }

  lemma TextStep(xs: seq<u32>, i: nat)
    requires i < |xs|
    ensures Text(xs[i..]) == Digits(xs[i]) + (if i + 1 < |xs| then [DOT] else []) + Text(xs[i + 1..])
  {
    hide Digits;
    assert xs[i..][1..] == xs[i + 1..];
  }

  /** Every well-formed identifier parses back from its text, as the identifier with minimal octets. */
  lemma DisplayedIsParsed(oid: ObjectIdentifier)
    requires WellFormed(oid)
    ensures Encodable(ArcsIn(oid)) && Parse(Text(ArcsIn(oid))) == Ok(FromOctets(Octets(ArcsIn(oid))))
    ensures Parse(Text(ArcsIn(oid))) == Ok(oid) <==> Minimal(oid.AsBytes()[1..])
  {
    hide ArcsOf, Minimal, Octets, Parse, Built;
    OctetsOfArcs(oid.AsBytes());
    ParsedTextIsBuilt(ArcsIn(oid));
    BuiltFromArcs(ArcsIn(oid));
  }
}
