/** Building object identifiers from arcs and from text (const-oid/src/encoder.rs,
    const-oid/src/parser.rs). */
module OidEncoder {
  import opened Bits
  import opened Base128Numbers
  import opened ObjectIdentifiers
  import opened Wrappers

  datatype State = Initial | FirstArc(arc: u32) | Body

  /** The encoder is passed on by value. */
  datatype Encoder = Encoder(state: State, buffer: bytes, cursor: nat) {
    predicate Valid() {
      cursor <= |buffer| == MAX_SIZE && (state.FirstArc? ==> state.arc <= ARC_MAX_FIRST)
    }
  }

  /** The identifier with the given octets; the rest of the buffer is zero. */
  function FromOctets(ber: bytes): (oid: ObjectIdentifier)
    requires |ber| <= MAX_SIZE
    ensures oid.Valid() && oid.AsBytes() == ber
  {
    ObjectIdentifier(|ber|, ber + Fill(0, MAX_SIZE - |ber|))
  }

  function New(): (e: Encoder)
    ensures e.Valid()
  {
    Encoder(Initial, Fill(0, MAX_SIZE), 0)
  }

  /** An encoder that continues after `oid`. */
  function Extend(oid: ObjectIdentifier): (e: Encoder)
    requires oid.Valid()
    ensures e.Valid()
  {
    Encoder(Body, oid.buffer, oid.length)
  }

  /** The octets of an arc put at the cursor. */
  function Append(e: Encoder, arc: u32): (r: Result<Encoder, OidError>)
    requires e.Valid()
    ensures r.Ok? ==> r.value.Valid()
  {
    var octets := Base128Numbers.Base128(arc);
    var end := e.cursor + |octets|;
    if end > MAX_SIZE then Err(Length)
    else Ok(Encoder(e.state, e.buffer[..e.cursor] + octets + e.buffer[end..], end))
  }

  /** `base128_len`. */
  function Base128Len(arc: u32): nat {
    if arc <= 0x7F then 1
    else if arc <= 0x3FFF then 2
    else if arc <= 0x1F_FFFF then 3
    else if arc <= 0x0FFF_FFFF then 4
    else 5
  }

  lemma Base128LenIsExact(arc: u32)
    ensures Base128Len(arc) == |Base128Numbers.Base128(arc)|
  {
    hide Continued, Base128Numbers.Base128;
    OctetRanges(arc);
    OctetCount(arc);
    assert arc > 0 ==> |Continued(arc)| >= 1 by {
      ShiftsLeft(arc, 0);
      assert Shift7(arc, 0) == arc;
    }
  }

  /** `base128_byte`: the octet at `pos` of `total`. */
  method Base128Byte(arc: u32, pos: nat, total: nat) returns (byte: u8)
    requires pos < total == |Base128Numbers.Base128(arc)|
    ensures byte == Base128Numbers.Base128(arc)[pos]
  {
    hide And, Or, Base128Numbers.Base128;
    var mask := if pos + 1 == total then 0 else 0x80;
    var shift := (total - pos - 1) * 7;
    OctetBits(arc, pos);
    byte := Or(And(arc / Pow2(shift), 0x7F), mask);
  }

  lemma OctetBits(arc: u32, pos: nat)
    requires pos < |Base128Numbers.Base128(arc)|
    ensures var s := Base128Numbers.Base128(arc);
            s[pos] == Or(And(arc / Pow2((|s| - pos - 1) * 7), 0x7F), if pos + 1 == |s| then 0 else 0x80)
  {
    hide And, Or;
    var s := Base128Numbers.Base128(arc);
    var shift := |s| - pos - 1;
    Shift7IsShift(arc, shift);
    assert Pow2(7) == 128;
    var low := Shift7(arc, shift) % 128;
    AndLowMask(Shift7(arc, shift), 7);
    OctetAt(arc / 128, pos);
    if shift == 0 {
      assert Shift7(arc, 0) == arc;
      OrZero(low);
    } else {
      ShiftOutside(arc, shift - 1);
      OrSymmetric(low, 0x80);
      OrIntoZeros(1, low, 7);
    }
  }

  lemma OrZero(x: nat)
    ensures Or(x, 0) == x
  {
  }

  /** The octets of `v`, by shifting. */
  lemma {:induction false} OctetAt(v: nat, pos: nat)
    ensures pos < |Continued(v)| ==> Continued(v)[pos] == 128 + Shift7(v, |Continued(v)| - pos - 1) % 128
    decreases v
  {
    if v > 0 {
      OctetAt(v / 128, pos);
      if pos < |Continued(v)| - 1 {
        ShiftOutside(v, |Continued(v)| - pos - 2);
      } else {
        assert Shift7(v, 0) == v;
      }
    }
  }

  /** `encode_base128`: one octet after the other. */
  method EncodeBase128(e: Encoder, arc: u32) returns (r: Result<Encoder, OidError>)
    requires e.Valid()
    ensures r == Append(e, arc)
  {
    hide Base128Numbers.Base128;
    Base128LenIsExact(arc);
    ghost var octets := Base128Numbers.Base128(arc);
    var nbytes := Base128Len(arc);
    if e.cursor + nbytes > MAX_SIZE {
      return Err(Length);
    }
    var buffer, cursor := e.buffer, e.cursor;
    for i := 0 to nbytes
      invariant cursor == e.cursor + i && |buffer| == MAX_SIZE
      invariant buffer == e.buffer[..e.cursor] + octets[..i] + e.buffer[e.cursor + i..]
    {
      var byte := Base128Byte(arc, i, nbytes);
      buffer := buffer[cursor := byte];
      cursor := cursor + 1;
    }
    assert octets[..nbytes] == octets;
    r := Ok(Encoder(e.state, buffer, cursor));
  }

  /** `arc`: the state machine. */
  function Arc(e: Encoder, arc: u32): (r: Result<Encoder, OidError>)
    requires e.Valid()
    ensures r.Ok? ==> r.value.Valid()
  {
    match e.state
    case Initial => if arc > ARC_MAX_FIRST then Err(ArcInvalid(arc)) else Ok(e.(state := FirstArc(arc)))
    case FirstArc(first) =>
      if arc > ARC_MAX_SECOND then Err(ArcInvalid(arc))
      else Ok(Encoder(Body, e.buffer[0 := 40 * (first as int) + arc], 1))
    case Body => Append(e, arc)
  }

  function Finish(e: Encoder): (r: Result<ObjectIdentifier, OidError>)
    requires e.Valid()
    ensures r.Ok? ==> r.value.Valid()
  {
    if e.cursor == 0 then Err(Empty) else Ok(ObjectIdentifier(e.cursor, e.buffer))
  }

  // ----- from arcs -----

  /** The encoder after some arcs. */
  function Feed(e: Encoder, xs: seq<u32>): (r: Result<Encoder, OidError>)
    requires e.Valid()
    ensures r.Ok? ==> r.value.Valid()
    decreases |xs|
  {
    if xs == [] then Ok(e)
    else
      match Arc(e, xs[0])
      case Err(error) => Err(error)
      case Ok(next) => Feed(next, xs[1..])
  }

  function Built(xs: seq<u32>): (r: Result<ObjectIdentifier, OidError>)
    ensures r.Ok? ==> r.value.Valid()
  {
    match Feed(New(), xs)
    case Err(error) => Err(error)
    case Ok(e) => Finish(e)
  }

  method FromArcs(xs: seq<u32>) returns (r: Result<ObjectIdentifier, OidError>)
    ensures r == Built(xs)
  {
    var e := New();
    for i := 0 to |xs|
      invariant e.Valid() && Feed(New(), xs) == Feed(e, xs[i..])
    {
      assert xs[i..][1..] == xs[i + 1..];
      var next := Arc(e, xs[i]);
      if next.Err? {
        return Err(next.error);
      }
      e := next.value;
    }
    r := Finish(e);
  }

  /** The arcs that can be encoded. */
  predicate Encodable(xs: seq<u32>) {
    ValidRoot(xs) && |Octets(xs)| <= MAX_SIZE
  }

  /** The encoder that holds the octets of `xs`. */
  function Holding(xs: seq<u32>): (e: Encoder)
    requires Encodable(xs)
    ensures e.Valid()
  {
    Encoder(Body, FromOctets(Octets(xs)).buffer, |Octets(xs)|)
  }

  lemma {:induction false} FeedBody(xs: seq<u32>, ys: seq<u32>)
    requires Encodable(xs)
    ensures ValidRoot(xs + ys)
    ensures Feed(Holding(xs), ys) == if Encodable(xs + ys) then Ok(Holding(xs + ys)) else Err(Length)
    decreases |ys|
  {
    hide Octets;
    if ys == [] {
      assert xs + ys == xs;
    } else {
      OctetsAppend(xs, ys[0]);
      assert xs + [ys[0]] + ys[1..] == xs + ys;
      LongerOctets(xs + [ys[0]], ys[1..]);
      AppendToHolding(xs, ys[0]);
      if Encodable(xs + [ys[0]]) {
        FeedBody(xs + [ys[0]], ys[1..]);
      }
    }
  }

  lemma AppendToHolding(xs: seq<u32>, arc: u32)
    requires Encodable(xs)
    ensures ValidRoot(xs + [arc])
    ensures Append(Holding(xs), arc) == if Encodable(xs + [arc]) then Ok(Holding(xs + [arc])) else Err(Length)
  {
    hide Octets, Base128Numbers.Base128;
    OctetsAppend(xs, arc);
    var e := Holding(xs);
    if Encodable(xs + [arc]) {
      var octets := Base128Numbers.Base128(arc);
      var end := e.cursor + |octets|;
      assert e.buffer[..e.cursor] == Octets(xs);
      assert e.buffer[end..] == Fill(0, MAX_SIZE - end);
      assert e.buffer[..e.cursor] + octets + e.buffer[end..] == Octets(xs + [arc]) + Fill(0, MAX_SIZE - end);
    }
  }

  lemma {:induction false} LongerOctets(xs: seq<u32>, ys: seq<u32>)
    requires ValidRoot(xs)
    ensures ValidRoot(xs + ys) && |Octets(xs)| <= |Octets(xs + ys)|
  {
    assert (xs + ys)[2..] == xs[2..] + ys;
    BodyAppend(xs[2..], ys);
  }

  /** Which arcs make an identifier, and which one. */
  lemma BuiltFromArcs(xs: seq<u32>)
    ensures Built(xs).Ok? <==> Encodable(xs)
    ensures Built(xs).Ok? <==> ValidRoot(xs) && |Octets(xs)| <= 39
    ensures Encodable(xs) ==> Built(xs) == Ok(FromOctets(Octets(xs)))
    ensures |xs| < 2 && (xs == [] || xs[0] <= ARC_MAX_FIRST) ==> Built(xs) == Err(Empty)
    ensures ValidRoot(xs) && !Encodable(xs) ==> Built(xs) == Err(Length)
    ensures xs != [] && xs[0] > ARC_MAX_FIRST ==> Built(xs) == Err(ArcInvalid(xs[0]))
    ensures |xs| >= 2 && xs[0] <= ARC_MAX_FIRST && xs[1] > ARC_MAX_SECOND ==> Built(xs) == Err(ArcInvalid(xs[1]))
  {
    hide Octets, Append, Feed;
    FeedStep(New(), xs);
    if xs != [] && xs[0] <= ARC_MAX_FIRST {
      var first := New().(state := FirstArc(xs[0]));
      FeedStep(first, xs[1..]);
      assert |xs| == 1 ==> xs[1..] == [];
      assert |xs| > 1 ==> xs[1..] != [] && xs[1..][0] == xs[1];
      if ValidRoot(xs) {
        RootIsHeld(xs[0], xs[1]);
        FeedBody([xs[0], xs[1]], xs[2..]);
        assert [xs[0], xs[1]] + xs[2..] == xs && xs[1..][1..] == xs[2..];
      }
    }
  }

  lemma FeedStep(e: Encoder, xs: seq<u32>)
    requires e.Valid()
    ensures Feed(e, xs) ==
            if xs == [] then Ok(e)
            else if Arc(e, xs[0]).Err? then Err(Arc(e, xs[0]).error)
            else Feed(Arc(e, xs[0]).value, xs[1..])
  {
  }

  /** The encoder after the first two arcs. */
  lemma RootIsHeld(first: u32, second: u32)
    requires first <= ARC_MAX_FIRST && second <= ARC_MAX_SECOND
    ensures Encodable([first, second])
    ensures Encoder(Body, Fill(0, MAX_SIZE)[0 := 40 * (first as int) + second], 1) == Holding([first, second])
  {
    assert [first, second][2..] == [] && BodyOctets([]) == [];
    assert Octets([first, second]) == [40 * (first as int) + second];
  }
}
