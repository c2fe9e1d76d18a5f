/** Base64 alphabets (base64ct/src/alphabet.rs and base64ct/src/alphabet/).

    The branch-free loops of the source are methods using its shifts and masks.
    They are proved equal to table lookups, and the rest of the project works
    with the lookups.
  */
module Alphabets {
  import opened Bits

  const PAD: u8 := 61
  const CHAR_CR: u8 := 13
  const CHAR_LF: u8 := 10
  const UPPER_A: u8 := 65

  datatype DecodeStep =
    | Range(start: u8, end: u8, offset: int)
    | Eq(value: u8, offset: int)
  {
    predicate Matches(c: u8) {
      match this
      case Range(start, end, _) => start <= c <= end
      case Eq(value, _) => c == value
    }

    /** What a matching step decodes `c` to; the accumulator starts at -1. */
    function Decodes(c: u8): int {
      match this
      case Range(_, _, offset) => c + offset - 1
      case Eq(_, offset) => offset - 1
    }
  }

  datatype EncodeStep =
    | Apply(threshold: u8, offset: int)
    | Diff(threshold: u8, offset: int)
  {
    /** The comparison that the step's mask stands for. */
    function Adds(src: int, diff: int): int {
      match this
      case Apply(threshold, offset) => if threshold < diff then offset else 0
      case Diff(threshold, offset) => if threshold < src then offset else 0
    }
  }

  /** Bit order of the 3-byte groups: the sha-crypt alphabet overrides the default one. */
  datatype BitOrder = BigEndian | LittleEndian

  datatype Tables = Tables(base: u8, decoder: seq<DecodeStep>, encoder: seq<EncodeStep>, order: BitOrder)

  // ----- 6-bit decoding -----

  /** No byte is matched by two steps. */
  ghost predicate Disjoint(steps: seq<DecodeStep>) {
    forall i, j, c: u8 :: 0 <= i < j < |steps| ==> !(steps[i].Matches(c) && steps[j].Matches(c))
  }

  /** Table lookup: the value of the first matching step, or -1. */
  function Lookup(steps: seq<DecodeStep>, c: u8): int {
    if steps == [] then -1
    else if steps[0].Matches(c) then steps[0].Decodes(c)
    else Lookup(steps[1..], c)
  }

  lemma {:induction false} LookupFindsMatch(steps: seq<DecodeStep>, c: u8, i: nat)
    requires i <= |steps|
    requires forall j :: 0 <= j < i ==> !steps[j].Matches(c)
    ensures i < |steps| && steps[i].Matches(c) ==> Lookup(steps, c) == steps[i].Decodes(c)
    ensures i == |steps| ==> Lookup(steps, c) == -1
  {
    if i > 0 {
      LookupFindsMatch(steps[1..], c, i - 1);
    }
  }

  /** Branch-free comparison of a byte with the exclusive range `(start, end)`. */
  function Between(start: int, end: int, src: int): int {
    And(start - src, src - end) / 256
  }

  lemma BetweenIsMask(lo: u8, hi: u8, c: u8)
    ensures Between(lo - 1, hi + 1, c) == if lo <= c <= hi then -1 else 0
  {
    assert Pow2(8) == 256;
    AndRange(lo - 1 - c, c - (hi + 1), 8);
  }

  /** The branch-free decoder returns the matching step's value or -1, for every
      byte and every list of pairwise disjoint steps. */
  method Decode6Bits(steps: seq<DecodeStep>, src: u8) returns (ret: int)
    requires Disjoint(steps)
    ensures ret == Lookup(steps, src)
    ensures forall i :: 0 <= i < |steps| && steps[i].Matches(src) ==> ret == steps[i].Decodes(src)
    ensures (forall i :: 0 <= i < |steps| ==> !steps[i].Matches(src)) ==> ret == -1
  {
    ret := -1;
    ghost var hit := |steps|;
    for i := 0 to |steps|
      invariant 0 <= hit < i || hit == |steps|
      invariant if hit == |steps| then ret == -1 else steps[hit].Matches(src) && ret == steps[hit].Decodes(src)
      invariant forall j :: 0 <= j < i && j != hit ==> !steps[j].Matches(src)
    {
      match steps[i] {
        case Range(start, end, offset) =>
          BetweenIsMask(start, end, src);
          ret := ret + And(Between(start - 1, end + 1, src), src + offset);
        case Eq(value, offset) =>
          BetweenIsMask(value, value, src);
          ret := ret + And(Between(value - 1, value + 1, src), offset);
      }
      if steps[i].Matches(src) {
        hit := i;
      }
    }
    LookupFindsMatch(steps, src, hit);
  }

  // ----- 6-bit encoding -----

  /** The encoder's passes with every mask replaced by the comparison it stands for. */
  function Passes(steps: seq<EncodeStep>, src: int, diff: int): int {
    if steps == [] then diff else Passes(steps[1..], src, diff + steps[0].Adds(src, diff))
  }

  /** The accumulator is a byte before and after every pass. */
  predicate StaysByte(steps: seq<EncodeStep>, src: int, diff: int) {
    0 <= diff < 256 && (steps == [] || StaysByte(steps[1..], src, diff + steps[0].Adds(src, diff)))
  }

  lemma {:induction false} PassesStayByte(steps: seq<EncodeStep>, src: int, diff: int)
    requires StaysByte(steps, src, diff)
    ensures 0 <= Passes(steps, src, diff) < 256
  {
    if steps != [] {
      PassesStayByte(steps[1..], src, diff + steps[0].Adds(src, diff));
    }
  }

  /** The branch-free encoder runs exactly the comparisons of `Passes`. */
  method Encode6Bits(steps: seq<EncodeStep>, base: u8, src: int) returns (c: u8)
    requires 0 <= src < 64
    requires StaysByte(steps, src, src + base)
    ensures c == Passes(steps, src, src + base)
  {
    var diff := src + base;
    for i := 0 to |steps|
      invariant StaysByte(steps[i..], src, diff)
      invariant Passes(steps[i..], src, diff) == Passes(steps, src, src + base)
    {
      match steps[i] {
        case Apply(threshold, offset) => diff := diff + And((threshold - diff) / 256, offset);
        case Diff(threshold, offset) => diff := diff + And((threshold - src) / 256, offset);
      }
      assert steps[i..][1..] == steps[i + 1..];
    }
    c := diff % 256;
  }

  // ----- alphabets -----

  function Encodes(a: Tables, v: int): int {
    Passes(a.encoder, v, v + a.base)
  }

  ghost predicate ValidSextet(a: Tables, v: int) {
    StaysByte(a.encoder, v, v + a.base) &&
    0 <= Encodes(a, v) < 128 &&
    Lookup(a.decoder, Encodes(a, v)) == v
  }

  ghost predicate ValidChar(a: Tables, c: u8) {
    var v := Lookup(a.decoder, c);
    -1 <= v < 64 && (v >= 0 ==> Encodes(a, v) == c)
  }

  /** The two tables are mutually inverse, the padding and newline characters are
      foreign, and the filler character of the decoder is not. */
  ghost predicate Valid(a: Tables) {
    Disjoint(a.decoder) &&
    (forall v :: 0 <= v < 64 ==> ValidSextet(a, v)) &&
    (forall c: u8 :: ValidChar(a, c)) &&
    Lookup(a.decoder, PAD) == Lookup(a.decoder, CHAR_CR) == Lookup(a.decoder, CHAR_LF) == -1 &&
    Lookup(a.decoder, UPPER_A) >= 0
  }

  const STANDARD: Tables := Tables(
    65,
    [Range(65, 90, -64), Range(97, 122, -70), Range(48, 57, 5), Eq(43, 63), Eq(47, 64)],
    [Diff(25, 6), Diff(51, -75), Diff(61, -(43 - 0x1c)), Diff(62, 47 - 43 - 1)],
    BigEndian)

  const URL_SAFE: Tables := Tables(
    65,
    [Range(65, 90, -64), Range(97, 122, -70), Range(48, 57, 5), Eq(45, 63), Eq(95, 64)],
    [Diff(25, 6), Diff(51, -75), Diff(61, -(45 - 0x20)), Diff(62, 95 - 45 - 1)],
    BigEndian)

  const PBKDF2: Tables := Tables(
    65,
    [Range(65, 90, -64), Range(97, 122, -70), Range(48, 57, 5), Eq(46, 63), Eq(47, 64)],
    [Diff(25, 6), Diff(51, -75), Diff(61, -(46 - 0x22)), Diff(62, 47 - 46 - 1)],
    BigEndian)

  const BCRYPT: Tables := Tables(
    46,
    [Range(46, 47, -45), Range(65, 90, -62), Range(97, 122, -68), Range(48, 57, 7)],
    [Apply(47, 17), Apply(90, 6), Apply(122, -75)],
    BigEndian)

  const CRYPT: Tables := Tables(
    46,
    [Range(46, 57, -45), Range(65, 90, -52), Range(97, 122, -58)],
    [Apply(57, 7), Apply(90, 6)],
    BigEndian)

  const SHA_CRYPT: Tables := CRYPT.(order := LittleEndian)

  lemma LookupCons(step: DecodeStep, rest: seq<DecodeStep>, c: u8)
    ensures Lookup([step] + rest, c) == if step.Matches(c) then step.Decodes(c) else Lookup(rest, c)
  {
    assert ([step] + rest)[1..] == rest;
  }

  lemma PassesCons(step: EncodeStep, rest: seq<EncodeStep>, src: int, diff: int)
    ensures Passes([step] + rest, src, diff) == Passes(rest, src, diff + step.Adds(src, diff))
    ensures StaysByte([step] + rest, src, diff) <==>
              0 <= diff < 256 && StaysByte(rest, src, diff + step.Adds(src, diff))
  {
    assert ([step] + rest)[1..] == rest;
  }

  lemma LookupOfThree(s0: DecodeStep, s1: DecodeStep, s2: DecodeStep, rest: seq<DecodeStep>, c: u8)
    ensures Lookup([s0, s1, s2] + rest, c) ==
            if s0.Matches(c) then s0.Decodes(c)
            else if s1.Matches(c) then s1.Decodes(c)
            else if s2.Matches(c) then s2.Decodes(c)
            else Lookup(rest, c)
  {
    assert [s0, s1, s2] + rest == [s0] + ([s1] + ([s2] + rest));
    LookupCons(s0, [s1] + ([s2] + rest), c);
    LookupCons(s1, [s2] + rest, c);
    LookupCons(s2, rest, c);
  }

  lemma PassesOfTwo(s0: EncodeStep, s1: EncodeStep, rest: seq<EncodeStep>, src: int, d0: int)
    ensures var d1 := d0 + s0.Adds(src, d0);
            var d2 := d1 + s1.Adds(src, d1);
            Passes([s0, s1] + rest, src, d0) == Passes(rest, src, d2) &&
            (StaysByte([s0, s1] + rest, src, d0) <==> 0 <= d0 < 256 && 0 <= d1 < 256 && StaysByte(rest, src, d2))
  {
    assert [s0, s1] + rest == [s0] + ([s1] + rest);
    PassesCons(s0, [s1] + rest, src, d0);
    PassesCons(s1, rest, src, d0 + s0.Adds(src, d0));
  }

  /** Validity follows from what the two tables compute. */
  lemma InverseTablesAreValid(a: Tables)
    requires Disjoint(a.decoder)
    requires forall v :: 0 <= v < 64 ==> ValidSextet(a, v)
    requires forall c: u8 :: ValidChar(a, c)
    requires Lookup(a.decoder, PAD) == Lookup(a.decoder, CHAR_CR) == Lookup(a.decoder, CHAR_LF) == -1
    requires Lookup(a.decoder, UPPER_A) >= 0
    ensures Valid(a)
  {
  }

  /** The shipped tables are valid: each pair of tables is mutually inverse. */
  lemma ShippedAlphabetsAreValid()
    ensures Valid(STANDARD) && Valid(URL_SAFE) && Valid(PBKDF2)
    ensures Valid(BCRYPT) && Valid(CRYPT) && Valid(SHA_CRYPT)
  {
    ComparingAlphabetIsValid(43, 47);
    ComparingAlphabetIsValid(45, 95);
    ComparingAlphabetIsValid(46, 47);
    BcryptIsValid();
    CryptIsValid(BigEndian);
    CryptIsValid(LittleEndian);
  }

  /** Characters in the order of their values: three ranges of characters, and what follows. */
  ghost predicate InOrder(a: Tables, first: char, n: nat, second: char, m: nat, third: char, k: nat, from: nat) {
    (forall v :: from <= v < from + n ==> Encodes(a, v) == first as int + (v - from)) &&
    (forall v :: from + n <= v < from + n + m ==> Encodes(a, v) == second as int + (v - from - n)) &&
    (forall v :: from + n + m <= v < from + n + m + k ==> Encodes(a, v) == third as int + (v - from - n - m))
  }

  /** The characters of the six alphabets are the documented ones, in that order: letters, digits
      and two others in RFC 4648, section 4 and 5, and in the PBKDF2 alphabet; `.` and `/` first
      in the other three. */
  lemma DocumentedCharacters()
    ensures InOrder(STANDARD, 'A', 26, 'a', 26, '0', 10, 0)
    ensures Encodes(STANDARD, 62) == '+' as int && Encodes(STANDARD, 63) == '/' as int
    ensures InOrder(URL_SAFE, 'A', 26, 'a', 26, '0', 10, 0)
    ensures Encodes(URL_SAFE, 62) == '-' as int && Encodes(URL_SAFE, 63) == '_' as int
    ensures InOrder(PBKDF2, 'A', 26, 'a', 26, '0', 10, 0)
    ensures Encodes(PBKDF2, 62) == '.' as int && Encodes(PBKDF2, 63) == '/' as int
    ensures Encodes(BCRYPT, 0) == '.' as int && Encodes(BCRYPT, 1) == '/' as int
    ensures InOrder(BCRYPT, 'A', 26, 'a', 26, '0', 10, 2)
    ensures Encodes(CRYPT, 0) == '.' as int && Encodes(CRYPT, 1) == '/' as int
    ensures InOrder(CRYPT, '0', 10, 'A', 26, 'a', 26, 2)
    ensures SHA_CRYPT == CRYPT.(order := LittleEndian)
    ensures {STANDARD.order, URL_SAFE.order, PBKDF2.order, BCRYPT.order, CRYPT.order} == {BigEndian}
  {
    hide Passes, Lookup, StaysByte;
    ComparingAlphabetIsValid(43, 47);
    ComparingAlphabetIsValid(45, 95);
    ComparingAlphabetIsValid(46, 47);
    BcryptIsValid();
    CryptIsValid(BigEndian);
  }

  /** Letters, digits and two single characters. */
  lemma ComparingAlphabetIsValid(c62: u8, c63: u8)
    requires (c62, c63) == (43, 47) || (c62, c63) == (45, 95) || (c62, c63) == (46, 47)
    ensures var a := Tables(
                65,
                [Range(65, 90, -64), Range(97, 122, -70), Range(48, 57, 5), Eq(c62, 63), Eq(c63, 64)],
                [Diff(25, 6), Diff(51, -75), Diff(61, c62 - 58), Diff(62, c63 - c62 - 1)],
                BigEndian);
            Valid(a) &&
            forall v :: 0 <= v < 64 ==>
              Encodes(a, v) == if v < 26 then v + 65 else if v < 52 then v + 71 else if v < 62 then v - 4
                               else if v == 62 then c62 else c63
  {
    var d0, d1, d2, d3, d4 := Range(65, 90, -64), Range(97, 122, -70), Range(48, 57, 5), Eq(c62, 63), Eq(c63, 64);
    var e0, e1, e2, e3 := Diff(25, 6), Diff(51, -75), Diff(61, c62 - 58), Diff(62, c63 - c62 - 1);
    var a := Tables(65, [d0, d1, d2, d3, d4], [e0, e1, e2, e3], BigEndian);
    forall c: u8
      ensures Lookup(a.decoder, c) ==
              if 65 <= c <= 90 then c - 65 else if 97 <= c <= 122 then c - 71 else if 48 <= c <= 57 then c + 4
              else if c == c62 then 62 else if c == c63 then 63 else -1
    {
      assert a.decoder == [d0, d1, d2] + ([d3] + ([d4] + []));
      LookupOfThree(d0, d1, d2, [d3] + ([d4] + []), c);
      LookupCons(d3, [d4] + [], c);
      LookupCons(d4, [], c);
    }
    forall v | 0 <= v < 64
      ensures StaysByte(a.encoder, v, v + 65)
      ensures Encodes(a, v) ==
              if v < 26 then v + 65 else if v < 52 then v + 71 else if v < 62 then v - 4
              else if v == 62 then c62 else c63
    {
      assert a.encoder == [e0, e1] + ([e2, e3] + []);
      PassesOfTwo(e0, e1, [e2, e3] + [], v, v + 65);
      var diff := v + 65 + e0.Adds(v, v + 65);
      PassesOfTwo(e2, e3, [], v, diff + e1.Adds(v, diff));
    }
    forall v | 0 <= v < 64
      ensures ValidSextet(a, v)
    {
      var c: u8 := Encodes(a, v);
      assert Lookup(a.decoder, c) == v;
    }
    InverseTablesAreValid(a);
  }

  lemma BcryptIsValid()
    ensures Valid(BCRYPT)
    ensures forall v :: 0 <= v < 64 ==>
              Encodes(BCRYPT, v) == if v < 2 then v + 46 else if v < 28 then v + 63 else if v < 54 then v + 69 else v - 6
  {
    var a := BCRYPT;
    var d, e := a.decoder, a.encoder;
    forall c: u8
      ensures Lookup(d, c) ==
              if 46 <= c <= 47 then c - 46 else if 65 <= c <= 90 then c - 63 else if 97 <= c <= 122 then c - 69
              else if 48 <= c <= 57 then c + 6 else -1
    {
      assert d == [d[0], d[1], d[2]] + ([d[3]] + []);
      LookupOfThree(d[0], d[1], d[2], [d[3]] + [], c);
      LookupCons(d[3], [], c);
    }
    forall v | 0 <= v < 64
      ensures StaysByte(e, v, v + 46)
      ensures Encodes(a, v) ==
              if v < 2 then v + 46 else if v < 28 then v + 63 else if v < 54 then v + 69 else v - 6
    {
      assert e == [e[0], e[1]] + ([e[2]] + []);
      PassesOfTwo(e[0], e[1], [e[2]] + [], v, v + 46);
      var diff := v + 46 + e[0].Adds(v, v + 46);
      PassesCons(e[2], [], v, diff + e[1].Adds(v, diff));
    }
    forall v | 0 <= v < 64
      ensures ValidSextet(a, v)
    {
      var c: u8 := Encodes(a, v);
      assert Lookup(a.decoder, c) == v;
    }
    InverseTablesAreValid(a);
  }

  lemma CryptIsValid(order: BitOrder)
    ensures Valid(CRYPT.(order := order))
    ensures forall v :: 0 <= v < 64 ==>
              Encodes(CRYPT.(order := order), v) == if v < 12 then v + 46 else if v < 38 then v + 53 else v + 59
  {
    var a := CRYPT.(order := order);
    var d, e := a.decoder, a.encoder;
    forall c: u8
      ensures Lookup(d, c) ==
              if 46 <= c <= 57 then c - 46 else if 65 <= c <= 90 then c - 53 else if 97 <= c <= 122 then c - 59
              else -1
    {
      assert d == [d[0], d[1], d[2]] + [];
      LookupOfThree(d[0], d[1], d[2], [], c);
    }
    forall v | 0 <= v < 64
      ensures StaysByte(e, v, v + 46)
      ensures Encodes(a, v) == if v < 12 then v + 46 else if v < 38 then v + 53 else v + 59
    {
      assert e == [e[0], e[1]] + [];
      PassesOfTwo(e[0], e[1], [], v, v + 46);
    }
    forall v | 0 <= v < 64
      ensures ValidSextet(a, v)
    {
      var c: u8 := Encodes(a, v);
      assert Lookup(a.decoder, c) == v;
    }
    InverseTablesAreValid(a);
  }

  type Alphabet = a: Tables | Valid(a) witness (ShippedAlphabetsAreValid(); STANDARD)

  /** The standard alphabet of RFC 4648, section 4. */
  function Standard(): (a: Alphabet)
    ensures a == STANDARD
  {
    ShippedAlphabetsAreValid();
    STANDARD
  }

  // ----- groups of three bytes -----

  predicate IsChar(a: Alphabet, c: u8) {
    Lookup(a.decoder, c) >= 0
  }

  predicate AllChars(a: Alphabet, s: bytes) {
    forall i :: 0 <= i < |s| ==> IsChar(a, s[i])
  }

  type sextet = x: int | 0 <= x < 64

  function ToChar(a: Alphabet, v: sextet): (c: u8)
    ensures Lookup(a.decoder, c) == v && c < 128
  {
    assert ValidSextet(a, v);
    Encodes(a, v)
  }

  function FromChar(a: Alphabet, c: u8): (v: sextet)
    requires IsChar(a, c)
    ensures ToChar(a, v) == c
  {
    assert ValidChar(a, c);
    Lookup(a.decoder, c)
  }

  /** The four 6-bit groups of three bytes. */
  function Sextets(order: BitOrder, b0: u8, b1: u8, b2: u8): (q: seq<sextet>)
    ensures |q| == 4
  {
    match order
    case BigEndian => [b0 / 4, b0 % 4 * 16 + b1 / 16, b1 % 16 * 4 + b2 / 64, b2 % 64]
    case LittleEndian => [b0 % 64, b1 % 16 * 4 + b0 / 64, b2 % 4 * 16 + b1 / 16, b2 / 4]
  }

  /** The three bytes of four 6-bit groups. */
  function Octets(order: BitOrder, x0: sextet, x1: sextet, x2: sextet, x3: sextet): (d: bytes)
    ensures |d| == 3
  {
    match order
    case BigEndian => [x0 * 4 + x1 / 16, x1 % 16 * 16 + x2 / 4, x2 % 4 * 64 + x3]
    case LittleEndian => [x0 + x1 % 4 * 64, x1 / 4 + x2 % 16 * 16, x2 / 16 + x3 * 4]
  }

  function EncodeGroup(a: Alphabet, d: bytes): (s: bytes)
    requires |d| == 3
    ensures |s| == 4 && AllChars(a, s) && forall i :: 0 <= i < 4 ==> s[i] < 128
  {
    var q := Sextets(a.order, d[0], d[1], d[2]);
    [ToChar(a, q[0]), ToChar(a, q[1]), ToChar(a, q[2]), ToChar(a, q[3])]
  }

  function DecodeGroup(a: Alphabet, s: bytes): (d: bytes)
    requires |s| == 4 && AllChars(a, s)
    ensures |d| == 3
  {
    Octets(a.order, FromChar(a, s[0]), FromChar(a, s[1]), FromChar(a, s[2]), FromChar(a, s[3]))
  }

  lemma OctetsOfSextets(order: BitOrder, b0: u8, b1: u8, b2: u8)
    ensures var q := Sextets(order, b0, b1, b2);
            Octets(order, q[0], q[1], q[2], q[3]) == [b0, b1, b2]
  {
    hide Sextets, Octets;
    match order
    case BigEndian => BigEndianOctets(b0, b1, b2);
    case LittleEndian => LittleEndianOctets(b0, b1, b2);
  }

  lemma BigEndianOctets(b0: u8, b1: u8, b2: u8)
    ensures var q := Sextets(BigEndian, b0, b1, b2);
            Octets(BigEndian, q[0], q[1], q[2], q[3]) == [b0, b1, b2]
  {
    var q := Sextets(BigEndian, b0, b1, b2);
    Regroup(q[1], b0 % 4, b1 / 16, 16);
    Regroup(q[2], b1 % 16, b2 / 64, 4);
    Rejoin(b0, 4);
    Rejoin(b1, 16);
    Rejoin(b2, 64);
  }

  lemma LittleEndianOctets(b0: u8, b1: u8, b2: u8)
    ensures var q := Sextets(LittleEndian, b0, b1, b2);
            Octets(LittleEndian, q[0], q[1], q[2], q[3]) == [b0, b1, b2]
  {
    var q := Sextets(LittleEndian, b0, b1, b2);
    Regroup(q[1], b1 % 16, b0 / 64, 4);
    Regroup(q[2], b2 % 4, b1 / 16, 16);
    Rejoin(b0, 64);
    Rejoin(b1, 16);
    Rejoin(b2, 4);
  }

  lemma SextetsOfOctets(order: BitOrder, x0: sextet, x1: sextet, x2: sextet, x3: sextet)
    ensures var d := Octets(order, x0, x1, x2, x3);
            Sextets(order, d[0], d[1], d[2]) == [x0, x1, x2, x3]
  {
    hide Sextets, Octets;
    match order
    case BigEndian => BigEndianSextets(x0, x1, x2, x3);
    case LittleEndian => LittleEndianSextets(x0, x1, x2, x3);
  }

  lemma BigEndianSextets(x0: sextet, x1: sextet, x2: sextet, x3: sextet)
    ensures var d := Octets(BigEndian, x0, x1, x2, x3);
            Sextets(BigEndian, d[0], d[1], d[2]) == [x0, x1, x2, x3]
  {
    var d := Octets(BigEndian, x0, x1, x2, x3);
    Regroup(d[0], x0, x1 / 16, 4);
    Regroup(d[1], x1 % 16, x2 / 4, 16);
    Regroup(d[2], x2 % 4, x3, 64);
    Rejoin(x1, 16);
    Rejoin(x2, 4);
  }

  lemma LittleEndianSextets(x0: sextet, x1: sextet, x2: sextet, x3: sextet)
    ensures var d := Octets(LittleEndian, x0, x1, x2, x3);
            Sextets(LittleEndian, d[0], d[1], d[2]) == [x0, x1, x2, x3]
  {
    var d := Octets(LittleEndian, x0, x1, x2, x3);
    Regroup(d[0], x1 % 4, x0, 64);
    Regroup(d[1], x2 % 16, x1 / 4, 16);
    Regroup(d[2], x3, x2 / 16, 4);
    Rejoin(x1, 4);
    Rejoin(x2, 16);
  }

  lemma Regroup(d: int, high: int, low: int, k: int)
    requires k == 4 || k == 16 || k == 64
    requires 0 <= low < k && d == high * k + low
    ensures d / k == high && d % k == low
  {
    Glue(high, low, k);
  }

  lemma Rejoin(x: int, k: int)
    requires k == 4 || k == 16 || k == 64
    ensures x / k * k + x % k == x
  {
  }

  lemma GroupRoundTrip(a: Alphabet, d: bytes)
    requires |d| == 3
    ensures DecodeGroup(a, EncodeGroup(a, d)) == d
  {
    hide Sextets, Octets, ToChar;
    OctetsOfSextets(a.order, d[0], d[1], d[2]);
    assert d == [d[0], d[1], d[2]];
  }

  lemma GroupIsCanonical(a: Alphabet, s: bytes)
    requires |s| == 4 && AllChars(a, s)
    ensures EncodeGroup(a, DecodeGroup(a, s)) == s
  {
    hide Sextets, Octets;
    SextetsOfOctets(a.order, FromChar(a, s[0]), FromChar(a, s[1]), FromChar(a, s[2]), FromChar(a, s[3]));
  }

  /** The shifts and masks of `encode_3bytes`. */
  method Encode3Bytes(a: Alphabet, src: bytes, dst: array<u8>, at: nat)
    requires |src| == 3 && at + 4 <= dst.Length
    modifies dst
    ensures dst[..at] == old(dst[..at]) && dst[at + 4..] == old(dst[at + 4..])
    ensures dst[at..at + 4] == EncodeGroup(a, src)
  {
    hide And, Or;
    var b0: int, b1: int, b2: int := src[0], src[1], src[2];
    ShiftedSextets(b0, b1, b2);
    var x0: int, x1: int, x2: int, x3: int;
    match a.order {
      case BigEndian =>
        x0, x1, x2, x3 :=
          b0 / 4, And(Or(b0 * 16, b1 / 16), 63), And(Or(b1 * 4, b2 / 64), 63), And(b2, 63);
      case LittleEndian =>
        x0, x1, x2, x3 :=
          And(b0, 63), And(Or(b1 * 4, b0 / 64), 63), And(Or(b2 * 16, b1 / 16), 63), b2 / 4;
    }
    assert [x0, x1, x2, x3] == Sextets(a.order, b0, b1, b2);
    dst[at] := EncodeChar(a, x0);
    dst[at + 1] := EncodeChar(a, x1);
    dst[at + 2] := EncodeChar(a, x2);
    dst[at + 3] := EncodeChar(a, x3);
  }

  method EncodeChar(a: Alphabet, v: sextet) returns (c: u8)
    ensures c == ToChar(a, v)
  {
    assert ValidSextet(a, v);
    c := Encode6Bits(a.encoder, a.base, v);
  }

  /** `((high << k) | low) & 63` for `low` below `2^k`, where `k` is 2 or 4. */
  lemma ShiftOrMask(high: int, low: int, p: int)
    requires p == 4 || p == 16
    requires 0 <= low < p
    ensures And(Or(high * p, low), 63) == high % (64 / p) * p + low
  {
    var k := if p == 4 then 2 else 4;
    assert Pow2(2) == 4 && Pow2(4) == 4 * Pow2(2) && Pow2(6) == 4 * Pow2(4);
    OrIntoZeros(high, low, k);
    AndLowMask(high * p + low, 6);
    var m := 64 / p;
    RemainderUnique(high * p + low, 64, high / m, high % m * p + low);
  }

  lemma ShiftedSextets(b0: int, b1: int, b2: int)
    requires 0 <= b0 < 256 && 0 <= b1 < 256 && 0 <= b2 < 256
    ensures And(Or(b0 * 16, b1 / 16), 63) == b0 % 4 * 16 + b1 / 16
    ensures And(Or(b1 * 4, b2 / 64), 63) == b1 % 16 * 4 + b2 / 64
    ensures And(Or(b1 * 4, b0 / 64), 63) == b1 % 16 * 4 + b0 / 64
    ensures And(Or(b2 * 16, b1 / 16), 63) == b2 % 4 * 16 + b1 / 16
    ensures And(b0, 63) == b0 % 64 && And(b2, 63) == b2 % 64
  {
    hide And, Or, Pow2;
    ShiftOrMask(b0, b1 / 16, 16);
    ShiftOrMask(b1, b2 / 64, 4);
    ShiftOrMask(b1, b0 / 64, 4);
    ShiftOrMask(b2, b1 / 16, 16);
    LowSix(b0);
    LowSix(b2);
  }

  lemma LowSix(x: int)
    ensures And(x, 63) == x % 64
  {
    hide And;
    assert Pow2(2) == 4 && Pow2(4) == 4 * Pow2(2) && Pow2(6) == 4 * Pow2(4);
    AndLowMask(x, 6);
  }

  /** The shifts and masks of `decode_3bytes`: the returned error bit is clear exactly
      for the blocks without a foreign character. */
  method Decode3Bytes(a: Alphabet, src: bytes, dst: array<u8>, at: nat) returns (err: int)
    requires |src| == 4 && at + 3 <= dst.Length
    modifies dst
    ensures dst[..at] == old(dst[..at]) && dst[at + 3..] == old(dst[at + 3..])
    ensures err == if AllChars(a, src) then 0 else 1
    ensures AllChars(a, src) ==> dst[at..at + 3] == DecodeGroup(a, src)
  {
    hide And, Or;
    var c0 := DecodeChar(a, src[0]);
    var c1 := DecodeChar(a, src[1]);
    var c2 := DecodeChar(a, src[2]);
    var c3 := DecodeChar(a, src[3]);
    err := And(Or(Or(Or(c0, c1), c2), c3) / 256, 1);
    SignOfOr(c0, c1, c2, c3);
    ghost var valid := c0 >= 0 && c1 >= 0 && c2 >= 0 && c3 >= 0;
    if valid {
      ShiftedOctets(c0, c1, c2, c3);
      ReversedShiftedOctets(c0, c1, c2, c3);
    }
    match a.order {
      case BigEndian =>
        dst[at] := Or(c0 * 4, c1 / 16) % 256;
        dst[at + 1] := Or(c1 * 16, c2 / 4) % 256;
        dst[at + 2] := Or(c2 * 64, c3) % 256;
      case LittleEndian =>
        dst[at] := Or(c0, And(c1, 3) * 64) % 256;
        dst[at + 1] := Or(c1 / 4, And(c2, 15) * 16) % 256;
        dst[at + 2] := Or(c2 / 16, c3 * 4) % 256;
    }
    assert valid ==> dst[at..at + 3] == Octets(a.order, c0, c1, c2, c3);
  }

  method DecodeChar(a: Alphabet, c: u8) returns (v: int)
    ensures v == (if IsChar(a, c) then FromChar(a, c) else -1)
  {
    assert ValidChar(a, c);
    v := Decode6Bits(a.decoder, c);
  }

  lemma SignOfOr(c0: int, c1: int, c2: int, c3: int)
    requires -1 <= c0 < 64 && -1 <= c1 < 64 && -1 <= c2 < 64 && -1 <= c3 < 64
    ensures And(Or(Or(Or(c0, c1), c2), c3) / 256, 1) ==
            if c0 >= 0 && c1 >= 0 && c2 >= 0 && c3 >= 0 then 0 else 1
  {
    assert Pow2(6) == 4 * Pow2(4) && Pow2(4) == 16;
    OrRange(c0, c1, 6);
    OrRange(Or(c0, c1), c2, 6);
    OrRange(Or(Or(c0, c1), c2), c3, 6);
  }

  /** `(high << k) | low` for `low` below `2^k`, where `k` is 2, 4 or 6. */
  lemma ShiftOr(high: int, low: int, p: int)
    requires p == 4 || p == 16 || p == 64
    requires 0 <= low < p
    ensures Or(high * p, low) == Or(low, high * p) == high * p + low
  {
    assert Pow2(2) == 4 && Pow2(4) == 4 * Pow2(2) && Pow2(6) == 4 * Pow2(4);
    OrIntoZeros(high, low, if p == 4 then 2 else if p == 16 then 4 else 6);
    OrSymmetric(high * p, low);
  }

  lemma ShiftedOctets(c0: int, c1: int, c2: int, c3: int)
    requires 0 <= c0 < 64 && 0 <= c1 < 64 && 0 <= c2 < 64 && 0 <= c3 < 64
    ensures Or(c0 * 4, c1 / 16) % 256 == c0 * 4 + c1 / 16
    ensures Or(c1 * 16, c2 / 4) % 256 == c1 % 16 * 16 + c2 / 4
    ensures Or(c2 * 64, c3) % 256 == c2 % 4 * 64 + c3
  {
    hide And, Or;
    ShiftOr(c0, c1 / 16, 4);
    ShiftOr(c1, c2 / 4, 16);
    ShiftOr(c2, c3, 64);
    CastToByte(c1, c2 / 4, 16);
    CastToByte(c2, c3, 4);
  }

  lemma ReversedShiftedOctets(c0: int, c1: int, c2: int, c3: int)
    requires 0 <= c0 < 64 && 0 <= c1 < 64 && 0 <= c2 < 64 && 0 <= c3 < 64
    ensures Or(c0, And(c1, 3) * 64) % 256 == c0 + c1 % 4 * 64
    ensures Or(c1 / 4, And(c2, 15) * 16) % 256 == c1 / 4 + c2 % 16 * 16
    ensures Or(c2 / 16, c3 * 4) % 256 == c2 / 16 + c3 * 4
  {
    hide And, Or;
    LowMasks(c1, c2);
    ShiftOr(c1 % 4, c0, 64);
    ShiftOr(c2 % 16, c1 / 4, 16);
    ShiftOr(c3, c2 / 16, 4);
  }

  lemma LowMasks(c1: int, c2: int)
    ensures And(c1, 3) == c1 % 4 && And(c2, 15) == c2 % 16
  {
    assert Pow2(2) == 4 && Pow2(4) == 4 * Pow2(2);
    AndLowMask(c1, 2);
    AndLowMask(c2, 4);
  }

  /** `as u8` drops the bits of `high` above the byte. */
  lemma CastToByte(high: int, low: int, m: int)
    requires m == 4 || m == 16
    requires 0 <= low < 256 / m
    ensures m == 4 ==> (high * 64 + low) % 256 == high % 4 * 64 + low
    ensures m == 16 ==> (high * 16 + low) % 256 == high % 16 * 16 + low
  {
    if m == 4 {
      RemainderUnique(high * 64 + low, 256, high / 4, high % 4 * 64 + low);
    } else {
      RemainderUnique(high * 16 + low, 256, high / 16, high % 16 * 16 + low);
    }
  }
}
