/**
  EPS quality of service (section 9.9.4.3 of 3GPP TS 24.301): from bit rates in
  kbps to coded octets and back.
*/
module EpsQos {
  import opened Common
  import opened Tlv

  const MIN_LENGTH := 2
  const BIT_RATE_MAX := 262144

  datatype Rates = Rates(maxUl: Byte, maxDl: Byte, guarUl: Byte, guarDl: Byte)

  datatype Qos = Qos(ratesPresent: bool, extPresent: bool, qci: Byte, rates: Rates, ext: Rates)

  // ---- Coding one rate ----

  /** The basic octet for a rate; a value over 255 loses its upper bits. */
  function BasicCode(r: nat): Byte {
    if r == 0 then 0xFF
    else if r <= 63 then r
    else if r <= 568 then (r - 64) / 8 + 64
    else if r < 576 then 0
    else if r <= 8640 then ((r - 128) / 64 + 128) % U8
    else 0xFE
  }

  /** The extended octet, used from 8641 on. */
  function ExtCode(r: nat): Byte {
    if r <= 8640 then 0
    else if r <= 16000 then (r - 8600) / 100
    else if r <= 128000 then (r - 16000) / 1000 + 74
    else if r <= 256000 then (r - 128000) / 2000 + 186
    else 0
  }

  function BasicValue(b: Byte): int {
    if b == 0 then BIT_RATE_MAX
    else if b < 0x40 then b
    else if b < 0x80 then 64 + (b as int - 0x40) * 8
    else if b < 0xFF then 576 + (b as int - 0x80) * 64
    else 0
  }

  function ExtValue(b: Byte): int {
    if 0 < b < 0x4B then 8600 + (b as int) * 100
    else if 0x4A < b < 0xBB then 16384 + (b as int - 0x4A) * 1024
    else if 0xBA < b < 0xFB then 131072 + (b as int - 0xBA) * 2048
    else -1
  }

  /** The basic octets stand for the rates from 1 on in steps of 1, 8 and 64; 255 for 0, and 0 for the maximum. */
  lemma BasicSteps(b: Byte)
    requires 1 <= b < 254
    ensures BasicValue(1) == 1 && BasicValue(255) == 0 && BasicValue(0) == BIT_RATE_MAX
    ensures BasicValue(b + 1) == BasicValue(b) + if b < 64 then 1 else if b < 128 then 8 else 64
  {
  }

  /** The extended ones stand for those from 8700 on in steps of 100, 1024 and 2048, with one jump; others for none. */
  lemma ExtSteps(b: Byte)
    requires 1 <= b < 250
    ensures ExtValue(1) == 8700 && ExtValue(0) == -1 && forall c: Byte | c > 250 :: ExtValue(c) == -1
    ensures ExtValue(b + 1) == if b == 74 then 17408
                               else ExtValue(b) + if b < 74 then 100 else if b < 186 then 1024 else 2048
  {
  }

  /** The basic octet reads back as the rate, rounded down by less than 8, exactly on these rates. */
  lemma BasicReadBackIff(r: nat)
    ensures BasicValue(BasicCode(r)) <= r < BasicValue(BasicCode(r)) + 8 <==> r <= 568 || 8641 <= r < 8648
  {
    if 576 <= r <= 8640 {
      var k := (r - 128) / 64;
      assert 64 * k <= r - 128 < 64 * k + 64;
    }
  }

  /** From 576 up to 8255 it reads back too high, by 385 to 448. */
  lemma BasicReadsTooHigh(r: nat)
    requires 576 <= r < 8256
    ensures r + 384 < BasicValue(BasicCode(r)) <= r + 448
  {
    var k := (r - 128) / 64;
    assert 64 * k <= r - 128 < 64 * k + 64;
    assert BasicCode(r) == k + 128;
  }

  /** The extended octet reads back a multiple of 100, then of 1024 and of 2048, with these bounds on the rate. */
  lemma ExtReadBack(r: nat)
    requires 8700 <= r <= 256000
    ensures var v := ExtValue(ExtCode(r));
            && (r <= 16000 ==> v == r - r % 100)
            && (16000 < r < 17000 ==> v == 16000)
            && (17000 <= r <= 128000 ==> 1000 * v <= 1024 * r < 1000 * v + 1024 * 1000)
            && (128000 < r ==> 1000 * v <= 1024 * r < 1000 * v + 1024 * 2000)
  {
  }

  /** Below 8700 and above 256000 there is no extended rate to read back. */
  lemma NoExtRate(r: nat)
    ensures ExtValue(ExtCode(r)) == -1 <==> r < 8700 || r > 256000
  {
  }

  lemma ExtMonotone(r: nat, s: nat)
    requires 8700 <= r <= s <= 256000
    ensures ExtValue(ExtCode(r)) <= ExtValue(ExtCode(s))
  {
    ExtReadBack(r);
    ExtReadBack(s);
  }

  /** What a receiver reads from the basic octet, over the whole range of rates. */
  predicate BasicReads(r: nat, b: int) {
    if r <= 63 then b == r
    else if r <= 568 then b <= r < b + 8
    else if r < 576 then b == BIT_RATE_MAX
    else if r < 8256 then r + 384 < b <= r + 448
    else if r < 8320 then b == 0
    else if r < 8384 then b == BIT_RATE_MAX
    else if r <= 8640 then 64 * b <= r - 8320 < 64 * b + 64
    else b == 8640
  }

  /** And what from the extended one. */
  predicate ExtReads(r: nat, x: int) {
    if r < 8700 then x == -1
    else if r <= 16000 then x == r - r % 100
    else if r < 17000 then x == 16000
    else if r <= 128000 then 1000 * x <= 1024 * r < 1000 * x + 1024 * 1000
    else if r <= 256000 then 1000 * x <= 1024 * r < 1000 * x + 1024 * 2000
    else x == -1
  }

  /** The two octets stand for the rate. */
  predicate ReadsBack(r: nat, basic: Byte, ext: Byte) {
    BasicReads(r, BasicValue(basic)) && ExtReads(r, ExtValue(ext))
  }

  lemma BasicCodeReads(r: nat)
    ensures BasicReads(r, BasicValue(BasicCode(r)))
  {
    if r <= 568 {
      BasicReadBackIff(r);
    } else if 576 <= r < 8256 {
      BasicReadsTooHigh(r);
    } else if 8256 <= r <= 8640 {
      WrappedCode(r);
    }
  }

  /** The codes that lose their upper bits start again from 255. */
  lemma WrappedCode(r: nat)
    requires 8256 <= r <= 8640
    ensures 64 * BasicCode(r) <= r - 8320 + (if r < 8320 then 64 * U8 else 0) < 64 * BasicCode(r) + 64
  {
    var k := (r - 128) / 64;
    assert 64 * k <= r - 128 < 64 * k + 64;
    assert BasicCode(r) == if k + 128 < U8 then k + 128 else k + 128 - U8;
  }

  lemma ExtCodeReads(r: nat)
    ensures ExtReads(r, ExtValue(ExtCode(r)))
  {
    NoExtRate(r);
    if 8700 <= r <= 256000 {
      ExtReadBack(r);
    }
  }

  lemma CodesReadBack(r: nat)
    ensures ReadsBack(r, BasicCode(r), ExtCode(r))
  {
    BasicCodeReads(r);
    ExtCodeReads(r);
  }

  // ---- The mapper ----

  const NO_RATES := Rates(0, 0, 0, 0)

  function Mapped(qci: Byte, mbrDl: nat, mbrUl: nat, gbrDl: nat, gbrUl: nat, isDefault: bool): Qos {
    if isDefault then Qos(false, false, qci, NO_RATES, NO_RATES)
    else
      Qos(true, mbrDl > 8640 || mbrUl > 8640 || gbrDl > 8640 || gbrUl > 8640, qci,
          Rates(BasicCode(mbrUl), BasicCode(mbrDl), BasicCode(gbrUl), BasicCode(gbrDl)),
          Rates(ExtCode(mbrUl), ExtCode(mbrDl), ExtCode(gbrUl), ExtCode(gbrDl)))
  }

  /** The mapper, filling the cleared structure rate by rate. */
  method MapQos(qci: Byte, mbrDl: nat, mbrUl: nat, gbrDl: nat, gbrUl: nat, isDefault: bool) returns (q: Qos)
    ensures q == Mapped(qci, mbrDl, mbrUl, gbrDl, gbrUl, isDefault)
  {
    q := Qos(false, false, qci, NO_RATES, NO_RATES);
    if !isDefault {
      q := q.(ratesPresent := true);
      var basic, ext := MapRate(mbrUl);
      q := q.(rates := q.rates.(maxUl := basic), ext := q.ext.(maxUl := ext));
      q := q.(extPresent := q.extPresent || mbrUl > 8640);
      basic, ext := MapRate(mbrDl);
      q := q.(rates := q.rates.(maxDl := basic), ext := q.ext.(maxDl := ext));
      q := q.(extPresent := q.extPresent || mbrDl > 8640);
      basic, ext := MapRate(gbrUl);
      q := q.(rates := q.rates.(guarUl := basic), ext := q.ext.(guarUl := ext));
      q := q.(extPresent := q.extPresent || gbrUl > 8640);
      basic, ext := MapRate(gbrDl);
      q := q.(rates := q.rates.(guarDl := basic), ext := q.ext.(guarDl := ext));
      q := q.(extPresent := q.extPresent || gbrDl > 8640);
    }
  }

  /** Maximum and guaranteed rate, up and down. */
  datatype Kind = MaxUl | MaxDl | GuarUl | GuarDl

  /** The kbps a bearer is to have. */
  datatype Bearer = Bearer(mbrDl: nat, mbrUl: nat, gbrDl: nat, gbrUl: nat)

  function Kbps(bearer: Bearer, kind: Kind): nat {
    match kind
    case MaxUl => bearer.mbrUl
    case MaxDl => bearer.mbrDl
    case GuarUl => bearer.gbrUl
    case GuarDl => bearer.gbrDl
  }

  function OctetOf(rates: Rates, kind: Kind): Byte {
    match kind
    case MaxUl => rates.maxUl
    case MaxDl => rates.maxDl
    case GuarUl => rates.guarUl
    case GuarDl => rates.guarDl
  }

  function MappedOf(qci: Byte, bearer: Bearer, isDefault: bool): Qos {
    Mapped(qci, bearer.mbrDl, bearer.mbrUl, bearer.gbrDl, bearer.gbrUl, isDefault)
  }

  /** Some rate is too great for a basic octet. */
  ghost predicate AnyExtended(bearer: Bearer) {
    exists kind :: Kbps(bearer, kind) > 8640
  }

  lemma ExtendedIff(bearer: Bearer)
    ensures AnyExtended(bearer) <==>
            bearer.mbrDl > 8640 || bearer.mbrUl > 8640 || bearer.gbrDl > 8640 || bearer.gbrUl > 8640
  {
    assert Kbps(bearer, MaxUl) == bearer.mbrUl && Kbps(bearer, MaxDl) == bearer.mbrDl;
    assert Kbps(bearer, GuarUl) == bearer.gbrUl && Kbps(bearer, GuarDl) == bearer.gbrDl;
  }

  /** A default bearer has no rates; any other basic ones, and extended ones exactly if some rate needs them. */
  lemma MappedFlags(qci: Byte, bearer: Bearer, isDefault: bool)
    ensures var q := MappedOf(qci, bearer, isDefault);
            && q.qci == qci && (q.ratesPresent <==> !isDefault)
            && (q.extPresent <==> !isDefault && AnyExtended(bearer))
  {
    ExtendedIff(bearer);
  }

  /** Each octet stands for the rate of its direction and kind. */
  lemma MappedReadsBack(qci: Byte, bearer: Bearer, kind: Kind)
    ensures var q := MappedOf(qci, bearer, false);
            ReadsBack(Kbps(bearer, kind), OctetOf(q.rates, kind), OctetOf(q.ext, kind))
  {
    CodesReadBack(Kbps(bearer, kind));
  }

  /** Where none is extended, the extended octets would all be zero. */
  lemma NoExtOctet(qci: Byte, bearer: Bearer, kind: Kind)
    requires !AnyExtended(bearer)
    ensures OctetOf(MappedOf(qci, bearer, false).ext, kind) == 0
  {
    assert Kbps(bearer, kind) <= 8640;
  }

  /** One block of the mapper; octets it does not assign stay zero. */
  method MapRate(r: nat) returns (basic: Byte, ext: Byte)
    ensures basic == BasicCode(r) && ext == ExtCode(r)
  {
    basic, ext := 0, 0;
    if r == 0 {
      basic := 0xFF;
    } else if r <= 63 {
      basic := r;
    } else if 63 < r <= 568 {
      basic := (r - 64) / 8 + 64;
    } else if 576 <= r <= 8640 {
      basic := ((r - 128) / 64 + 128) % U8;
    } else if r > 8640 {
      basic := 0xFE;
      if 8600 <= r <= 16000 {
        ext := (r - 8600) / 100;
      } else if 16000 < r <= 128000 {
        ext := (r - 16000) / 1000 + 74;
      } else if 128000 < r <= 256000 {
        ext := (r - 128000) / 2000 + 186;
      }
    }
  }

  // ---- The codec ----

  function RateOctets(r: Rates): (o: seq<Byte>)
    ensures |o| == 4
  {
    [r.maxUl, r.maxDl, r.guarUl, r.guarDl]
  }

  function Body(q: Qos): (o: seq<Byte>)
    ensures |o| <= 9
  {
    [q.qci] + (if q.ratesPresent then RateOctets(q.rates) else []) + (if q.extPresent then RateOctets(q.ext) else [])
  }

  /** The element; an identifier of 0 means that none is written. */
  function Element(q: Qos, iei: Byte): seq<Byte> {
    (if iei > 0 then [iei] else []) + [|Body(q)|] + Body(q)
  }

  method EncodeElement(q: Qos, iei: Byte, buffer: array<Byte>) returns (r: Result<nat>)
    modifies buffer
    ensures r == if buffer.Length < MIN_LENGTH then Err(BufferTooShort)
                 else if buffer.Length < |Element(q, iei)| then Err(WritePastEnd)
                 else Ok(|Element(q, iei)|)
    ensures r.Ok? ==> buffer[..r.value] == Element(q, iei) && buffer[r.value..] == old(buffer[r.value..])
  {
    if buffer.Length < MIN_LENGTH {
      return Err(BufferTooShort);
    }
    var octets := if iei > 0 then [iei] else [];
    var lengthAt := |octets|;
    octets := octets + [0, q.qci];
    if q.ratesPresent {
      octets := octets + RateOctets(q.rates);
    }
    if q.extPresent {
      octets := octets + RateOctets(q.ext);
    }
    octets := octets[lengthAt := |octets| - 1 - lengthAt];
    assert octets == Element(q, iei);
    var ok := CopyInto(octets, buffer, 0);
    return if ok then Ok(|octets|) else Err(WritePastEnd);
  }

  function ReadRates(octets: seq<Byte>): Rates
    requires |octets| >= 4
  {
    Rates(octets[0], octets[1], octets[2], octets[3])
  }

  /**
    The decoder, filling in a given structure: what is absent keeps its value.
    `length` is the element's, and `input` starts with the class identifier.
  */
  function DecodeBody(into: Qos, length: nat, hasIei: bool, input: seq<Byte>): Result<Parsed<Qos>> {
    var extra := if hasIei then 1 else 0;
    var hasRates, hasExt := length > 2 + extra, length > 6 + extra;
    var n := 1 + (if hasRates then 4 else 0) + (if hasExt then 4 else 0);
    if |input| < n then Err(ReadPastEnd)
    else
      var rates := if hasRates then ReadRates(input[1..]) else into.rates;
      var ext := if hasExt then ReadRates(input[5..]) else into.ext;
      Ok(Parsed(Qos(hasRates, hasExt, input[0], rates, ext), n))
  }

  function Decode(into: Qos, iei: Byte, buffer: seq<Byte>): Result<Parsed<Qos>> {
    var header := if iei > 0 then 2 else 1;
    if buffer == [] then Err(ReadPastEnd)
    else if iei > 0 && buffer[0] != iei then Err(UnexpectedIei)
    else if |buffer| < header then Err(ReadPastEnd)
    else if |buffer| - header < buffer[header - 1] then Err(BufferTooShort)
    else
      match DecodeBody(into, buffer[header - 1], iei > 0, buffer[header..])
      case Ok(parsed) => Ok(Parsed(parsed.item, header + parsed.consumed))
      case Err(error) => Err(error)
  }

  /** The same presence flags, class identifier and present rates. */
  predicate Same(q: Qos, p: Qos) {
    && q.ratesPresent == p.ratesPresent && q.extPresent == p.extPresent && q.qci == p.qci
    && (p.ratesPresent ==> q.rates == p.rates)
    && (p.extPresent ==> q.ext == p.ext)
  }

  lemma BodyDecodes(into: Qos, q: Qos, hasIei: bool, tail: seq<Byte>)
    requires q.extPresent ==> q.ratesPresent
    ensures DecodeBody(into, |Body(q)|, hasIei, Body(q) + tail) ==
            Ok(Parsed(q.(rates := if q.ratesPresent then q.rates else into.rates,
                         ext := if q.extPresent then q.ext else into.ext),
                      |Body(q)|))
  {
    var input := Body(q) + tail;
    if q.ratesPresent {
      assert input[1..][0] == q.rates.maxUl && input[1..][1] == q.rates.maxDl;
      assert input[1..][2] == q.rates.guarUl && input[1..][3] == q.rates.guarDl;
    }
    if q.extPresent {
      assert input[5..][0] == q.ext.maxUl && input[5..][1] == q.ext.maxDl;
      assert input[5..][2] == q.ext.guarUl && input[5..][3] == q.ext.guarDl;
    }
  }

  /** Extended rates without basic ones are read as basic ones. */
  lemma ExtAloneMisread(into: Qos, q: Qos, hasIei: bool, tail: seq<Byte>)
    requires q.extPresent && !q.ratesPresent
    ensures var r := DecodeBody(into, |Body(q)|, hasIei, Body(q) + tail);
            r.Ok? && r.value.item.ratesPresent && !r.value.item.extPresent && r.value.item.rates == q.ext
  {
    var input := Body(q) + tail;
    assert input[1..][0] == q.ext.maxUl && input[1..][1] == q.ext.maxDl;
    assert input[1..][2] == q.ext.guarUl && input[1..][3] == q.ext.guarDl;
  }

  lemma ElementParts(q: Qos, iei: Byte, tail: seq<Byte>)
    ensures var buffer := Element(q, iei) + tail;
            var header := if iei > 0 then 2 else 1;
            && |buffer| == header + |Body(q)| + |tail|
            && (iei > 0 ==> buffer[0] == iei)
            && buffer[header - 1] == |Body(q)|
            && buffer[header..] == Body(q) + tail
  {
  }

  /**
    With or without an identifier, whatever follows the element and whatever
    was in the structure before: decoding gives back flags and present fields
    exactly if there are no extended rates without basic ones.
  */
  lemma RoundTripIff(into: Qos, q: Qos, iei: Byte, tail: seq<Byte>)
    ensures var r := Decode(into, iei, Element(q, iei) + tail);
            (r.Ok? && r.value.consumed == |Element(q, iei)| && Same(r.value.item, q)) <==>
            (q.extPresent ==> q.ratesPresent)
  {
    ElementParts(q, iei, tail);
    if q.extPresent && !q.ratesPresent {
      ExtAloneMisread(into, q, iei > 0, tail);
    } else {
      BodyDecodes(into, q, iei > 0, tail);
    }
  }

  /** What the mapper builds is always decoded again. */
  lemma MappedRoundTrip(qci: Byte, mbrDl: nat, mbrUl: nat, gbrDl: nat, gbrUl: nat, isDefault: bool,
                        iei: Byte, into: Qos, tail: seq<Byte>)
    ensures var q := Mapped(qci, mbrDl, mbrUl, gbrDl, gbrUl, isDefault);
            var r := Decode(into, iei, Element(q, iei) + tail);
            && (q.extPresent ==> q.ratesPresent)
            && r.Ok? && r.value.consumed == |Element(q, iei)| && Same(r.value.item, q)
  {
    RoundTripIff(into, Mapped(qci, mbrDl, mbrUl, gbrDl, gbrUl, isDefault), iei, tail);
  }

  // ---- On the wire ----

  /** The place of a rate among the four. */
  function Place(kind: Kind): nat {
    match kind
    case MaxUl => 0
    case MaxDl => 1
    case GuarUl => 2
    case GuarDl => 3
  }

  function HeaderLength(iei: Byte): nat {
    if iei > 0 then 2 else 1
  }

  /**
    The element: identifier if any, the length of what follows, the class
    identifier, then the maximum rates up and down and the guaranteed ones up
    and down if there are rates, and four extended ones behind all that.
  */
  lemma ElementOnTheWire(q: Qos, iei: Byte, kind: Kind)
    ensures var o, h := Element(q, iei), HeaderLength(iei);
            var n := if q.ratesPresent then 4 else 0;
            && |o| == h + 1 + n + (if q.extPresent then 4 else 0)
            && (iei > 0 ==> o[0] == iei) && o[h-1] == |o| - h && o[h] == q.qci
            && (q.ratesPresent ==> o[h + 1 + Place(kind)] == OctetOf(q.rates, kind))
            && (q.extPresent ==> o[h + 1 + n + Place(kind)] == OctetOf(q.ext, kind))
  {
  }

  /** The octets of a mapped bearer's element stand for its rates. */
  lemma MappedOnTheWire(qci: Byte, bearer: Bearer, iei: Byte, kind: Kind)
    ensures var o, h := Element(MappedOf(qci, bearer, false), iei), HeaderLength(iei);
            && |o| == (if AnyExtended(bearer) then h + 9 else h + 5) && o[h] == qci
            && ReadsBack(Kbps(bearer, kind), o[h + 1 + Place(kind)],
                         if AnyExtended(bearer) then o[h + 5 + Place(kind)] else 0)
  {
    var q := MappedOf(qci, bearer, false);
    MappedFlags(qci, bearer, false);
    MappedReadsBack(qci, bearer, kind);
    ElementOnTheWire(q, iei, kind);
    if !AnyExtended(bearer) {
      NoExtOctet(qci, bearer, kind);
    }
  }

  /** And so do the octets the decoder finds in it. */
  lemma DecodedReadsBack(qci: Byte, bearer: Bearer, iei: Byte, into: Qos, tail: seq<Byte>, kind: Kind)
    ensures var r := Decode(into, iei, Element(MappedOf(qci, bearer, false), iei) + tail);
            && r.Ok? && r.value.item.qci == qci && r.value.item.ratesPresent
            && (r.value.item.extPresent <==> AnyExtended(bearer))
            && ReadsBack(Kbps(bearer, kind), OctetOf(r.value.item.rates, kind),
                         if r.value.item.extPresent then OctetOf(r.value.item.ext, kind) else 0)
  {
    MappedRoundTrip(qci, bearer.mbrDl, bearer.mbrUl, bearer.gbrDl, bearer.gbrUl, false, iei, into, tail);
    MappedFlags(qci, bearer, false);
    MappedReadsBack(qci, bearer, kind);
    if !AnyExtended(bearer) {
      NoExtOctet(qci, bearer, kind);
    }
  }

  /** How many octets the decoder reads behind the length, which it takes to count the identifier too. */
  function ReadBehindLength(length: nat, iei: Byte): nat {
    var l := if iei > 0 then length - 1 else length;
    if l > 6 then 9 else if l > 2 then 5 else 1
  }

  /** When the decoder refuses an element, or reads on past the buffer. */
  lemma DecodeFails(into: Qos, iei: Byte, buffer: seq<Byte>)
    ensures var r, h := Decode(into, iei, buffer), HeaderLength(iei);
            && (r == Err(UnexpectedIei) <==> buffer != [] && iei > 0 && buffer[0] != iei)
            && (r == Err(BufferTooShort) <==>
                  |buffer| >= h && (iei > 0 ==> buffer[0] == iei) && h + buffer[h-1] > |buffer|)
            && (r.Ok? <==> |buffer| >= h && (iei > 0 ==> buffer[0] == iei) && h + buffer[h-1] <= |buffer|
                           && h + ReadBehindLength(buffer[h-1], iei) <= |buffer|)
            && (r.Err? ==> r.error in {UnexpectedIei, BufferTooShort, ReadPastEnd})
  {
  }

  /** And what it makes of one it accepts: rates that are not there keep the value they had. */
  lemma DecodeIs(into: Qos, iei: Byte, buffer: seq<Byte>, kind: Kind)
    requires Decode(into, iei, buffer).Ok?
    ensures var r, h := Decode(into, iei, buffer).value, HeaderLength(iei);
            && h <= |buffer|
            && var n := ReadBehindLength(buffer[h-1], iei);
            && r.consumed == h + n <= |buffer| && r.item.qci == buffer[h]
            && (r.item.ratesPresent <==> n >= 5) && (r.item.extPresent <==> n == 9)
            && OctetOf(r.item.rates, kind) ==
               (if n >= 5 then buffer[h + 1 + Place(kind)] else OctetOf(into.rates, kind))
            && OctetOf(r.item.ext, kind) == (if n == 9 then buffer[h + 5 + Place(kind)] else OctetOf(into.ext, kind))
  {
    DecodeFails(into, iei, buffer);
  }
}
