/** Object identifiers: encoder, arc iterator and text parser (const-oid/src/encoder.rs,
    const-oid/src/arcs.rs, const-oid/src/parser.rs, const-oid/src/lib.rs). */
module ObjectIdentifiers {
  import opened Bits
  import opened Base128Numbers
  import opened Wrappers

  /** Maximum size of the octets of an identifier. */
  const MAX_SIZE: nat := 39
  const MAX_ARC: nat := 0xFFFF_FFFF
  const ARC_MAX_FIRST: nat := 2
  const ARC_MAX_SECOND: nat := 39
  const DOT: u8 := 46

  datatype OidError =
    | ArcInvalid(arc: u32)
    | ArcTooBig
    | Base128
    | DigitExpected(actual: u8)
    | Empty
    | Length
    | RepeatedDot
    | TrailingDot

  /** A buffer of fixed size and the length of its used part; equality compares the whole buffer. */
  datatype ObjectIdentifier = ObjectIdentifier(length: nat, buffer: bytes) {
    predicate Valid() {
      length <= |buffer| == MAX_SIZE
    }

    function AsBytes(): bytes
      requires Valid()
    {
      buffer[..length]
    }
  }

  // ----- octets of arcs -----

  /** Arcs after the second, each in base 128. */
  function BodyOctets(xs: seq<u32>): bytes {
    if xs == [] then [] else Base128Numbers.Base128(xs[0]) + BodyOctets(xs[1..])
  }

  predicate ValidRoot(xs: seq<u32>) {
    |xs| >= 2 && xs[0] <= ARC_MAX_FIRST && xs[1] <= ARC_MAX_SECOND
  }

  /** The octets of an identifier: the first two arcs share one. */
  function Octets(xs: seq<u32>): (s: bytes)
    requires ValidRoot(xs)
    ensures s != []
  {
    [40 * (xs[0] as int) + xs[1]] + BodyOctets(xs[2..])
  }

  lemma {:induction false} BodyAppend(xs: seq<u32>, ys: seq<u32>)
    ensures BodyOctets(xs + ys) == BodyOctets(xs) + BodyOctets(ys)
  {
    if xs == [] {
      assert xs + ys == ys;
    } else {
      assert (xs + ys)[1..] == xs[1..] + ys;
      BodyAppend(xs[1..], ys);
    }
  }

  lemma OctetsAppend(xs: seq<u32>, arc: u32)
    requires ValidRoot(xs)
    ensures ValidRoot(xs + [arc]) && Octets(xs + [arc]) == Octets(xs) + Base128Numbers.Base128(arc)
  {
    assert (xs + [arc])[2..] == xs[2..] + [arc];
    BodyAppend(xs[2..], [arc]);
    assert [arc][1..] == [] && BodyOctets([arc]) == Base128Numbers.Base128(arc) + BodyOctets([]);
  }

  /** The octets of an identifier, arc by arc: 40 times the first arc plus the second, then every
      other arc in base 128. */
  lemma OctetsByArc(xs: seq<u32>)
    requires ValidRoot(xs)
    ensures xs[0] <= 2 && xs[1] <= 39
    ensures |xs| == 2 ==> Octets(xs) == [40 * (xs[0] as int) + xs[1]]
    ensures |xs| > 2 ==>
              var arc := xs[|xs| - 1];
              ValidRoot(xs[..|xs| - 1]) && Octets(xs) == Octets(xs[..|xs| - 1]) + Base128Numbers.Base128(arc)
  {
    hide Base128Numbers.Base128;
    if |xs| > 2 {
      OctetsAppend(xs[..|xs| - 1], xs[|xs| - 1]);
      assert xs == xs[..|xs| - 1] + [xs[|xs| - 1]];
    }
  }

  // ----- reading arcs -----

  /** The rest of an arc of which the octets read so far have value `v`; also the number of octets read. */
  function ReadArc(s: bytes, v: u32): (r: Result<(u32, nat), OidError>)
    ensures r.Ok? ==> 0 < r.value.1 <= |s|
  {
    if s == [] then Err(Base128)
    else
      var n := v * 128 + s[0] % 128;
      if n > MAX_ARC then Err(ArcTooBig)
      else if s[0] < 128 then Ok((n, 1))
      else
        match ReadArc(s[1..], n)
        case Err(error) => Err(error)
        case Ok((arc, k)) => Ok((arc, k + 1))
  }

  function ReadBody(s: bytes): Result<seq<u32>, OidError> {
    if s == [] then Ok([])
    else
      match ReadArc(s, 0)
      case Err(error) => Err(error)
      case Ok((arc, k)) =>
        match ReadBody(s[k..])
        case Err(error) => Err(error)
        case Ok(arcs) => Ok([arc] + arcs)
  }

  /** The first two arcs. */
  function RootArcs(octet: u8): (r: Result<(u32, u32), OidError>)
    ensures r.Ok? <==> octet < 120
    ensures r.Ok? ==>
              r.value.0 <= ARC_MAX_FIRST && r.value.1 <= ARC_MAX_SECOND &&
              octet == 40 * (r.value.0 as int) + r.value.1
  {
    var first, second := octet / 40, octet % 40;
    if first > ARC_MAX_FIRST then Err(ArcInvalid(first)) else Ok((first, second))
  }

  /** All arcs of an identifier. */
  function ArcsOf(ber: bytes): Result<seq<u32>, OidError> {
    if ber == [] then Err(Empty)
    else
      match RootArcs(ber[0])
      case Err(error) => Err(error)
      case Ok((first, second)) =>
        match ReadBody(ber[1..])
        case Err(error) => Err(error)
        case Ok(arcs) => Ok([first, second] + arcs)
  }

  /** The result with `k` more octets read. */
  function Plus(r: Result<(u32, nat), OidError>, k: nat): Result<(u32, nat), OidError> {
    match r
    case Err(error) => Err(error)
    case Ok((arc, n)) => Ok((arc, n + k))
  }

  lemma ReadsOctet(s: bytes, v: u32)
    requires s != [] && s[0] >= 128 && v * 128 + s[0] % 128 <= MAX_ARC
    ensures ReadArc(s, v) == Plus(ReadArc(s[1..], v * 128 + s[0] % 128), 1)
  {
  }

  lemma ReadsLast(s: bytes, v: u32)
    requires s != [] && s[0] < 128 && v * 128 + s[0] <= MAX_ARC
    ensures ReadArc(s, v) == Ok((v * 128 + s[0], 1))
  {
  }

  lemma {:induction false} ReadsContinued(v: u32, rest: bytes)
    ensures ReadArc(Continued(v) + rest, 0) == Plus(ReadArc(rest, v), |Continued(v)|)
    decreases v
  {
    hide ReadArc;
    if v == 0 {
      assert Continued(v) == [] && Continued(v) + rest == rest;
    } else {
      var high, low := v / 128, [128 + v % 128];
      assert Continued(v) + rest == Continued(high) + (low + rest);
      assert (low + rest)[1..] == rest;
      RemainderUnique(low[0], 128, 1, v % 128);
      ReadsOctet(low + rest, high);
      ReadsContinued(high, low + rest);
    }
  }

  /** An arc is read back from its octets. */
  lemma ArcIsRead(arc: u32, rest: bytes)
    ensures ReadArc(Base128Numbers.Base128(arc) + rest, 0) == Ok((arc, |Base128Numbers.Base128(arc)|))
  {
    hide ReadArc;
    var high, low := arc / 128, [arc % 128];
    assert Base128Numbers.Base128(arc) + rest == Continued(high) + (low + rest);
    ReadsContinued(high, low + rest);
    ReadsLast(low + rest, high);
  }

  lemma ReadBodyStep(s: bytes)
    requires s != []
    ensures ReadBody(s) ==
            if ReadArc(s, 0).Err? then Err(ReadArc(s, 0).error)
            else if ReadBody(s[ReadArc(s, 0).value.1..]).Err? then Err(ReadBody(s[ReadArc(s, 0).value.1..]).error)
            else Ok([ReadArc(s, 0).value.0] + ReadBody(s[ReadArc(s, 0).value.1..]).value)
  {
  }

  /** Reading continues after the octets of some arcs. */
  lemma {:induction false} BodyIsRead(xs: seq<u32>, rest: bytes)
    ensures ReadBody(BodyOctets(xs) + rest) ==
            if ReadBody(rest).Err? then Err(ReadBody(rest).error) else Ok(xs + ReadBody(rest).value)
    decreases |xs|
  {
    hide ReadBody, ReadArc, Base128Numbers.Base128;
    if xs == [] {
      assert BodyOctets(xs) + rest == rest;
      assert ReadBody(rest).Ok? ==> xs + ReadBody(rest).value == ReadBody(rest).value;
    } else {
      var first, others := Base128Numbers.Base128(xs[0]), BodyOctets(xs[1..]) + rest;
      var s := BodyOctets(xs) + rest;
      assert s == first + others;
      ArcIsRead(xs[0], others);
      ReadBodyStep(s);
      assert s[|first|..] == others;
      BodyIsRead(xs[1..], rest);
      if ReadBody(rest).Ok? {
        assert [xs[0]] + (xs[1..] + ReadBody(rest).value) == xs + ReadBody(rest).value;
      }
    }
  }

  /** The arcs of an identifier are those it was built from. */
  lemma ArcsOfOctets(xs: seq<u32>)
    requires ValidRoot(xs)
    ensures ArcsOf(Octets(xs)) == Ok(xs)
  {
    hide ReadBody, BodyOctets;
    var ber := Octets(xs);
    assert ber[1..] == BodyOctets(xs[2..]) == BodyOctets(xs[2..]) + [];
    BodyIsRead(xs[2..], []);
    assert ReadBody([]) == Ok([]) by {
      NothingToRead();
    }
    assert xs[2..] + [] == xs[2..];
    RemainderUnique(ber[0], 40, xs[0], xs[1]);
    assert [xs[0], xs[1]] + xs[2..] == xs;
  }

  lemma NothingToRead()
    ensures ReadBody([]) == Ok([])
  {
  }

  // ----- padded octets -----

  /** Number of octets at the start of an arc that add nothing to it. */
  function Padding(s: bytes): (n: nat)
    ensures n <= |s|
  {
    if s != [] && s[0] == 0x80 then 1 + Padding(s[1..]) else 0
  }

  /** The padding of every arc. */
  function Paddings(s: bytes): seq<nat>
    requires ReadBody(s).Ok?
  {
    if s == [] then [] else [Padding(s)] + Paddings(s[ReadArc(s, 0).value.1..])
  }

  /** The octets of arcs, each with some padding. */
  function PaddedOctets(xs: seq<u32>, paddings: seq<nat>): bytes
    requires |xs| == |paddings|
    decreases |xs|
  {
    if xs == [] then [] else Fill(0x80, paddings[0]) + Base128Numbers.Base128(xs[0]) + PaddedOctets(xs[1..], paddings[1..])
  }

  /** The octets read are the padding and the octets of the arc. */
  lemma {:induction false} ReadArcIsPadded(s: bytes)
    requires ReadArc(s, 0).Ok?
    ensures var (arc, k) := ReadArc(s, 0).value;
            s[..k] == Fill(0x80, Padding(s)) + Base128Numbers.Base128(arc)
    decreases |s|
  {
    hide Continued, Base128Numbers.Base128, ReadArc, Padding, Fill;
    var (arc, k) := ReadArc(s, 0).value;
    ReadArcIsMinimal(s, 0);
    NothingContinued();
    PaddingStep(s);
    if s[0] == 0x80 {
      ReadArcIsPadded(s[1..]);
      assert k >= 1 && s == [s[0]] + s[1..];
      assert s[..k] == [s[0]] + s[1..][..k - 1];
      assert [0x80] + (Fill(0x80, Padding(s[1..])) + Base128Numbers.Base128(arc)) ==
             [0x80] + Fill(0x80, Padding(s[1..])) + Base128Numbers.Base128(arc);
    } else {
      assert [] + s[..k] == s[..k];
    }
  }

  lemma PaddingStep(s: bytes)
    requires ReadArc(s, 0).Ok?
    ensures if s[0] == 0x80 then
              ReadArc(s[1..], 0).Ok? && ReadArc(s, 0) == Plus(ReadArc(s[1..], 0), 1) &&
              Fill(0x80, Padding(s)) == [0x80] + Fill(0x80, Padding(s[1..]))
            else Fill(0x80, Padding(s)) == []
  {
  }

  /** The arcs and their paddings determine the octets. */
  lemma {:induction false} BodyIsPadded(s: bytes)
    requires ReadBody(s).Ok?
    ensures |Paddings(s)| == |ReadBody(s).value|
    ensures s == PaddedOctets(ReadBody(s).value, Paddings(s))
    decreases |s|
  {
    hide ReadArc, Padding, Base128Numbers.Base128;
    if s != [] {
      var (arc, k) := ReadArc(s, 0).value;
      var arcs, paddings := ReadBody(s[k..]).value, Paddings(s[k..]);
      ReadArcIsPadded(s);
      BodyIsPadded(s[k..]);
      assert ([arc] + arcs)[1..] == arcs && ([Padding(s)] + paddings)[1..] == paddings;
      assert s == s[..k] + s[k..];
    }
  }

  lemma {:induction false} PaddedPrefix(xs: seq<u32>, ps: seq<nat>, ys: seq<u32>, qs: seq<nat>)
    requires |xs| == |ps| && |ys| == |qs| && xs <= ys && ps <= qs
    ensures PaddedOctets(xs, ps) <= PaddedOctets(ys, qs)
    decreases |xs|
  {
    hide Base128Numbers.Base128;
    if xs != [] {
      PaddedPrefix(xs[1..], ps[1..], ys[1..], qs[1..]);
    }
  }

  // ----- minimal octets -----

  /** No arc starts with an octet that adds nothing. */
  predicate Minimal(s: bytes) {
    forall i :: 0 <= i < |s| && StartsArc(s, i) ==> s[i] != 0x80
  }

  predicate StartsArc(s: bytes, i: nat)
    requires i < |s|
  {
    i == 0 || s[i - 1] < 128
  }

  /** The octets read complete those of `v` to the octets of the arc, unless the arc starts
      with an octet that adds nothing. */
  lemma {:induction false} ReadArcIsMinimal(s: bytes, v: u32)
    requires ReadArc(s, v).Ok?
    ensures var (arc, k) := ReadArc(s, v).value;
            s[k - 1] < 128 && (forall i :: 0 <= i < k - 1 ==> s[i] >= 128) &&
            (v > 0 || s[0] != 0x80 ==> Continued(v) + s[..k] == Base128Numbers.Base128(arc)) &&
            (v == 0 && s[0] == 0x80 ==> |Base128Numbers.Base128(arc)| < k)
    decreases |s|
  {
    hide Continued, Base128Numbers.Base128;
    var n := v * 128 + s[0] % 128;
    if s[0] < 128 {
      Base128Step(v, s[0]);
      assert s[..1] == [s[0]];
    } else {
      ReadArcIsMinimal(s[1..], n);
      var (arc, k) := ReadArc(s[1..], n).value;
      assert s[..k + 1] == [s[0]] + s[1..][..k];
      if v > 0 || s[0] != 0x80 {
        ContinuedStep(v, s[0] % 128);
        assert [128 + s[0] % 128] == [s[0]];
        assert Continued(v) + s[..k + 1] == Continued(n) + s[1..][..k];
      } else {
        NothingContinued();
        assert s[1] != 0x80 ==> Base128Numbers.Base128(arc) == s[1..][..k];
      }
    }
  }

  lemma NothingContinued()
    ensures Continued(0) == []
  {
  }

  lemma MinimalParts(s: bytes, k: nat)
    requires 0 < k <= |s| && s[k - 1] < 128 && forall i :: 0 <= i < k - 1 ==> s[i] >= 128
    ensures Minimal(s) <==> s[0] != 0x80 && Minimal(s[k..])
  {
    forall i | 0 <= i < |s| - k
      ensures StartsArc(s, i + k) == StartsArc(s[k..], i) && s[k..][i] == s[i + k]
    {
    }
    assert StartsArc(s, 0);
    if s[0] != 0x80 && Minimal(s[k..]) {
      forall i | 0 <= i < |s| && StartsArc(s, i)
        ensures s[i] != 0x80
      {
        if i >= k {
          assert StartsArc(s[k..], i - k);
        }
      }
    }
    if Minimal(s) {
      forall i | 0 <= i < |s[k..]| && StartsArc(s[k..], i)
        ensures s[k..][i] != 0x80
      {
        assert StartsArc(s, i + k);
      }
    }
  }

  /** Octets that are well formed are those of their arcs exactly when they are minimal; the
      octets of the arcs are never longer. */
  lemma {:induction false} BodyIsMinimal(s: bytes)
    requires ReadBody(s).Ok?
    ensures BodyOctets(ReadBody(s).value) == s <==> Minimal(s)
    ensures |BodyOctets(ReadBody(s).value)| <= |s|
    decreases |s|
  {
    hide ReadArc, Minimal, Base128Numbers.Base128;
    if s == [] {
      assert Minimal(s) by {
        NoOctetsMinimal();
      }
    } else {
      var (arc, k) := ReadArc(s, 0).value;
      var arcs := ReadBody(s[k..]).value;
      ReadArcIsMinimal(s, 0);
      NothingContinued();
      MinimalParts(s, k);
      BodyIsMinimal(s[k..]);
      var first := Base128Numbers.Base128(arc);
      assert ([arc] + arcs)[1..] == arcs;
      assert [] + s[..k] == s[..k];
      assert BodyOctets([arc] + arcs) == first + BodyOctets(arcs);
      assert s == s[..k] + s[k..];
      if s[0] != 0x80 {
        assert (first + BodyOctets(arcs))[k..] == BodyOctets(arcs);
      }
    }
  }

  lemma NoOctetsMinimal()
    ensures Minimal([])
  {
  }

  /** Octets that are no identifier, and why: none, a first octet above 119, an arc that is cut off,
      and an arc of more than 32 bits. */
  lemma WhyNoArcs(first: u8, xs: seq<u32>, number: nat, rest: bytes)
    requires number > 0
    ensures ArcsOf([]) == Err(Empty)
    ensures first >= 120 ==> ArcsOf([first] + rest) == Err(ArcInvalid(first / 40))
    ensures first < 120 && number <= MAX_ARC ==>
              ArcsOf([first] + (BodyOctets(xs) + Continued(number))) == Err(OidError.Base128)
    ensures first < 120 && number > MAX_ARC ==>
              ArcsOf([first] + (BodyOctets(xs) + (Base128Numbers.Base128(number) + rest))) == Err(ArcTooBig)
  {
    hide ReadBody, Continued, Base128Numbers.Base128, BodyOctets;
    if first < 120 {
      var tail := if number <= MAX_ARC then Continued(number) else Base128Numbers.Base128(number) + rest;
      assert ([first] + (BodyOctets(xs) + tail))[1..] == BodyOctets(xs) + tail;
      BodyIsRead(xs, tail);
      if number <= MAX_ARC {
        ArcIsCutOff(number);
      } else {
        ArcIsTooBig(number, rest);
      }
      FirstArcDecides(tail);
    }
  }

  lemma FirstArcDecides(s: bytes)
    ensures s != [] && ReadArc(s, 0).Err? ==> ReadBody(s) == Err(ReadArc(s, 0).error)
  {
  }

  lemma ArcIsCutOff(number: u32)
    requires number > 0
    ensures Continued(number) != [] && ReadArc(Continued(number), 0) == Err(OidError.Base128)
  {
    hide ReadArc;
    ReadsContinued(number, []);
    assert Continued(number) + [] == Continued(number);
    NothingLeft(number);
  }

  lemma NothingLeft(v: u32)
    ensures ReadArc([], v) == Err(OidError.Base128)
  {
  }

  lemma ArcIsTooBig(number: nat, rest: bytes)
    requires number > MAX_ARC
    ensures Base128Numbers.Base128(number) + rest != []
    ensures ReadArc(Base128Numbers.Base128(number) + rest, 0) == Err(ArcTooBig)
  {
    hide ReadArc;
    var high, low := number / 128, [number % 128];
    assert Base128Numbers.Base128(number) + rest == Continued(high) + (low + rest);
    if high <= MAX_ARC {
      ReadsContinued(high, low + rest);
      LastIsTooBig(low + rest, high);
    } else {
      ContinuedIsTooBig(high, low + rest);
    }
  }

  lemma LastIsTooBig(s: bytes, v: u32)
    ensures s != [] && v * 128 + s[0] % 128 > MAX_ARC ==> ReadArc(s, v) == Err(ArcTooBig)
  {
  }

  lemma {:induction false} ContinuedIsTooBig(v: nat, rest: bytes)
    requires v > MAX_ARC
    ensures ReadArc(Continued(v) + rest, 0) == Err(ArcTooBig)
    decreases v
  {
    hide ReadArc;
    var high, low := v / 128, [128 + v % 128];
    assert Continued(v) + rest == Continued(high) + (low + rest);
    if high <= MAX_ARC {
      ReadsContinued(high, low + rest);
      RemainderUnique(low[0], 128, 1, v % 128);
      LastIsTooBig(low + rest, high);
    } else {
      ContinuedIsTooBig(high, low + rest);
    }
  }

  /** Well-formed octets are those of their arcs exactly when no arc starts with 0x80. */
  lemma OctetsOfArcs(ber: bytes)
    requires ArcsOf(ber).Ok?
    ensures ValidRoot(ArcsOf(ber).value)
    ensures Octets(ArcsOf(ber).value) == ber <==> Minimal(ber[1..])
    ensures |Octets(ArcsOf(ber).value)| <= |ber|
  {
    hide ReadBody, BodyOctets, Minimal;
    var xs := ArcsOf(ber).value;
    assert xs[2..] == ReadBody(ber[1..]).value;
    BodyIsMinimal(ber[1..]);
    assert ber == [ber[0]] + ber[1..];
    assert Octets(xs)[1..] == BodyOctets(xs[2..]);
  }
}
