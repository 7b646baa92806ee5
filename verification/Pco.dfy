/**
  The protocol configuration options information element (section 10.5.6.3 of
  3GPP TS 24.008): a configuration protocol and a list of containers.
*/
module Pco {
  import opened Common
  import opened Tlv

  const PCO_IEI: Byte := 0x27
  const MIN_LENGTH := 3
  const MAX_CONTAINERS := 8

  type Id = n: int | 0 <= n < 0x1_0000
  type Protocol = n: int | 0 <= n < 8

  datatype Container = Container(id: Id, length: Byte, contents: seq<Byte>)
  datatype Options = Options(protocol: Protocol, containers: seq<Container>)

  predicate WellFormed(c: Container) {
    c.length == |c.contents|
  }

  predicate AllWellFormed(cs: seq<Container>) {
    forall c | c in cs :: WellFormed(c)
  }

  function Header(c: Container): (r: seq<Byte>)
    ensures |r| == 3
  {
    [c.id / U8, c.id % U8, c.length]
  }

  function ContainerOctets(c: Container): seq<Byte> {
    Header(c) + c.contents
  }

  function ListOctets(cs: seq<Container>): seq<Byte> {
    if cs == [] then [] else ContainerOctets(cs[0]) + ListOctets(cs[1..])
  }

  /** The encoder puts the configuration protocol into the lowest three bits. */
  function FirstOctet(protocol: Protocol): Byte {
    0x80 + protocol
  }

  function OptionOctets(options: Options): seq<Byte> {
    [FirstOctet(options.protocol)] + ListOctets(options.containers)
  }

  // ---- Encoding ----

  /** How encoding a list into `room` octets ends: only the contents are checked against it. */
  function Fit(cs: seq<Container>, room: nat): Option<Error> {
    if cs == [] then None
    else if room < 3 then Some(WritePastEnd)
    else if room < 3 + |cs[0].contents| then Some(BufferTooShort)
    else Fit(cs[1..], room - 3 - |cs[0].contents|)
  }

  lemma {:induction false} FitIff(cs: seq<Container>, room: nat)
    ensures Fit(cs, room) == None <==> |ListOctets(cs)| <= room
    ensures Fit(cs, room) in {None, Some(WritePastEnd), Some(BufferTooShort)}
  {
    if cs == [] || room < 3 + |cs[0].contents| {
    } else {
      FitIff(cs[1..], room - 3 - |cs[0].contents|);
    }
  }

  /** One container; `at` is where it goes. */
  method EncodeContainer(c: Container, buffer: array<Byte>, at: nat) returns (r: Result<nat>)
    requires at <= buffer.Length
    modifies buffer
    ensures buffer[..at] == old(buffer[..at])
    ensures r == if buffer.Length - at < 3 then Err(WritePastEnd)
                 else if buffer.Length - at < 3 + |c.contents| then Err(BufferTooShort)
                 else Ok(at + |ContainerOctets(c)|)
    ensures r.Ok? ==> buffer[..r.value] == old(buffer[..at]) + ContainerOctets(c)
    ensures r.Ok? ==> buffer[r.value..] == old(buffer[r.value..])
  {
    if buffer.Length - at < 3 {
      return Err(WritePastEnd);
    }
    var ok := CopyInto(Header(c), buffer, at);
    assert buffer[..at] == buffer[..at+3][..at];
    ok := CopyInto(c.contents, buffer, at + 3);
    if !ok {
      return Err(BufferTooShort);
    }
    assert buffer[..at] == buffer[..at+3+|c.contents|][..at];
    return Ok(at + 3 + |c.contents|);
  }

  lemma {:induction false} ListOctetsSnoc(cs: seq<Container>, n: nat)
    requires n < |cs|
    ensures ListOctets(cs[..n+1]) == ListOctets(cs[..n]) + ContainerOctets(cs[n])
  {
    if n == 0 {
      assert cs[..1][1..] == [] && cs[..1][0] == cs[0];
    } else {
      ListOctetsSnoc(cs[1..], n - 1);
      assert cs[1..][..n] == cs[..n+1][1..] && cs[1..][..n-1] == cs[..n][1..];
    }
  }

  /** The encoder's loop, from position `at` on. */
  method EncodeList(cs: seq<Container>, buffer: array<Byte>, at: nat) returns (r: Result<nat>)
    requires at <= buffer.Length
    modifies buffer
    ensures buffer[..at] == old(buffer[..at])
    ensures r == match Fit(cs, buffer.Length - at) case None => Ok(at + |ListOctets(cs)|) case Some(e) => Err(e)
    ensures r.Ok? ==> r.value <= buffer.Length
    ensures r.Ok? ==> buffer[..r.value] == old(buffer[..at]) + ListOctets(cs)
    ensures r.Ok? ==> buffer[r.value..] == old(buffer[r.value..])
  {
    var encoded := at;
    for n := 0 to |cs|
      invariant at <= encoded == at + |ListOctets(cs[..n])| <= buffer.Length
      invariant Fit(cs[n..], buffer.Length - encoded) == Fit(cs, buffer.Length - at)
      invariant buffer[..encoded] == old(buffer[..at]) + ListOctets(cs[..n])
      invariant buffer[encoded..] == old(buffer[encoded..])
    {
      assert cs[n..][1..] == cs[n+1..];
      ListOctetsSnoc(cs, n);
      assert buffer[..at] == buffer[..encoded][..at];
      ghost var rest := buffer[encoded..];
      var next := EncodeContainer(cs[n], buffer, encoded);
      assert buffer[..at] == buffer[..encoded][..at];
      if next.Err? {
        return next;
      }
      Reassociate(old(buffer[..at]), ListOctets(cs[..n]), ContainerOctets(cs[n]));
      assert buffer[next.value..] == rest[next.value - encoded..];
      encoded := next.value;
    }
    assert cs[..|cs|] == cs;
    assert buffer[..at] == buffer[..encoded][..at];
    return Ok(encoded);
  }

  method EncodeOptions(options: Options, buffer: array<Byte>, at: nat) returns (r: Result<nat>)
    requires at <= buffer.Length
    modifies buffer
    ensures buffer[..at] == old(buffer[..at])
    ensures r == if at == buffer.Length then Err(WritePastEnd)
                 else match Fit(options.containers, buffer.Length - at - 1)
                   case None => Ok(at + |OptionOctets(options)|)
                   case Some(e) => Err(e)
    ensures r.Ok? <==> at + |OptionOctets(options)| <= buffer.Length
    ensures r.Ok? ==> buffer[..r.value] == old(buffer[..at]) + OptionOctets(options)
    ensures r.Ok? ==> buffer[r.value..] == old(buffer[r.value..])
  {
    if at == buffer.Length {
      return Err(WritePastEnd);
    }
    buffer[at] := FirstOctet(options.protocol);
    assert buffer[..at+1] == old(buffer[..at]) + [FirstOctet(options.protocol)];
    r := EncodeList(options.containers, buffer, at + 1);
    assert buffer[..at] == buffer[..at+1][..at];
    FitIff(options.containers, buffer.Length - at - 1);
    Reassociate(old(buffer[..at]), [FirstOctet(options.protocol)], ListOctets(options.containers));
  }

  /** The whole element; its length octet keeps the count modulo 256. */
  function Element(present: bool, options: Options): seq<Byte> {
    (if present then [PCO_IEI] else []) + [|OptionOctets(options)| % U8] + OptionOctets(options)
  }

  const TLV_BUFFER_TOO_SHORT := -12

  function HeaderLength(present: bool): nat {
    if present then 2 else 1
  }

  /**
    What the encoder returns. If contents do not fit behind a header that does,
    the source adds the error code to the header's length.
  */
  function EncodeResult(options: Options, present: bool, length: nat): Result<int> {
    var header := HeaderLength(present);
    if length < header + 1 then Err(BufferTooShort)
    else
      match Fit(options.containers, length - header - 1)
      case None => Ok(|Element(present, options)|)
      case Some(BufferTooShort) => Ok(header + TLV_BUFFER_TOO_SHORT)
      case Some(error) => Err(error)
  }

  /** The returned value is a count, and then the right one, exactly if the element fits. */
  lemma EncodeResultIff(options: Options, present: bool, length: nat)
    ensures var r := EncodeResult(options, present, length);
            && ((r.Ok? && r.value >= 0) <==> |Element(present, options)| <= length)
            && (r.Ok? && r.value >= 0 ==> r.value == |Element(present, options)|)
  {
    if length >= HeaderLength(present) + 1 {
      FitIff(options.containers, length - HeaderLength(present) - 1);
    }
  }

  method EncodeElement(options: Options, present: bool, buffer: array<Byte>) returns (r: Result<int>)
    modifies buffer
    ensures r == EncodeResult(options, present, buffer.Length)
    ensures |Element(present, options)| <= buffer.Length ==>
              var n := |Element(present, options)|;
              buffer[..n] == Element(present, options) && buffer[n..] == old(buffer[n..])
  {
    EncodeResultIff(options, present, buffer.Length);
    if buffer.Length > HeaderLength(present) {
      FitIff(options.containers, buffer.Length - HeaderLength(present) - 1);
    }
    var encoded := 0;
    if present {
      if buffer.Length < MIN_LENGTH {
        return Err(BufferTooShort);
      }
      buffer[0] := PCO_IEI;
      encoded := 1;
    } else if buffer.Length < MIN_LENGTH - 1 {
      return Err(BufferTooShort);
    }
    var lengthAt := encoded;
    encoded := encoded + 1;
    ghost var header := buffer[..encoded];
    var added := EncodeOptions(options, buffer, encoded);
    if added.Ok? {
      assert buffer[..added.value][encoded..] == OptionOctets(options);
      assert buffer[..added.value][..encoded] == header;
    }
    if added.Err? && added.error.WritePastEnd? {
      return Err(WritePastEnd);
    }
    var n := if added.Ok? then added.value else encoded + TLV_BUFFER_TOO_SHORT;
    ghost var before: seq<Byte> := buffer[..];
    buffer[lengthAt] := (n - 1 - lengthAt) % U8;
    if added.Ok? {
      assert buffer[..] == before[lengthAt := (n - 1 - lengthAt) % U8];
      LengthSet(before, if present then [PCO_IEI] else [], OptionOctets(options), n, buffer[lengthAt]);
      assert buffer[..n] == buffer[..][..n] && buffer[n..] == buffer[..][n..];
    }
    return Ok(n);
  }

  // ---- Decoding ----

  /** Puts what is already decoded in front. */
  function Behind(list: seq<Container>, n: nat, r: Result<Parsed<seq<Container>>>): Result<Parsed<seq<Container>>> {
    match r
    case Ok(parsed) => Ok(Parsed(list + parsed.item, n + parsed.consumed))
    case Err(error) => Err(error)
  }

  lemma BehindTwice(xs: seq<Container>, m: nat, ys: seq<Container>, n: nat, r: Result<Parsed<seq<Container>>>)
    ensures Behind(xs, m, Behind(ys, n, r)) == Behind(xs + ys, m + n, r)
  {
    if r.Ok? {
      assert xs + (ys + r.value.item) == (xs + ys) + r.value.item;
    }
  }

  lemma BehindNothing(r: Result<Parsed<seq<Container>>>)
    ensures Behind([], 0, r) == r
  {
    if r.Ok? {
      assert [] + r.value.item == r.value.item;
    }
  }

  /** The decoder's loop with `free` places left in the list. Fewer than three octets end it. */
  function DecodeList(input: seq<Byte>, free: nat): Result<Parsed<seq<Container>>> {
    if |input| < 3 then Ok(Parsed([], 0))
    else if free == 0 then Err(WritePastEnd)
    else
      var n: int := input[2];
      if |input| < 3 + n then Err(BufferTooShort)
      else Behind([Container(input[0] * U8 + input[1], n, input[3..3+n])], 3 + n, DecodeList(input[3+n..], free - 1))
  }

  function DecodeOptions(input: seq<Byte>): Result<Parsed<Options>> {
    if input == [] then Err(ReadPastEnd)
    else if input[0] / 0x80 != 1 then Err(ValueDoesntMatch)
    else if input[0] / 8 % 0x10 != 0 then Err(ValueDoesntMatch)
    else
      match DecodeList(input[1..], MAX_CONTAINERS)
      case Ok(parsed) => Ok(Parsed(Options(input[0] / 2 % 8, parsed.item), 1 + parsed.consumed))
      case Err(error) => Err(error)
  }

  /** The element's length is checked against the buffer, and not used after that. */
  function Decode(present: bool, buffer: seq<Byte>): Result<Parsed<Options>> {
    var header := if present then 2 else 1;
    if |buffer| < header + 1 then Err(BufferTooShort)
    else if present && buffer[0] != PCO_IEI then Err(UnexpectedIei)
    else if |buffer| - header < buffer[header - 1] then Err(BufferTooShort)
    else
      match DecodeOptions(buffer[header..])
      case Ok(parsed) => Ok(Parsed(parsed.item, header + parsed.consumed))
      case Err(error) => Err(error)
  }

  lemma {:induction false} ContainerRead(buffer: seq<Byte>, at: nat, free: nat, c: Container)
    requires at + 3 <= |buffer| && 0 < free
    requires c.id == buffer[at] * U8 + buffer[at+1] && c.length == buffer[at+2]
    requires at + 3 + c.length <= |buffer| && c.contents == buffer[at+3..at+3+c.length]
    ensures DecodeList(buffer[at..], free) == Behind([c], 3 + c.length, DecodeList(buffer[at+3+c.length..], free - 1))
  {
    var n: int := c.length;
    assert buffer[at..][3..3+n] == buffer[at+3..at+3+n];
    assert buffer[at..][3+n..] == buffer[at+3+n..];
  }

  /** One round of the decoder's loop. */
  method ReadContainer(buffer: seq<Byte>, at: nat, ghost free: nat) returns (r: Result<Container>, next: nat)
    requires at + 3 <= |buffer| && 0 < free
    ensures r.Err? ==> DecodeList(buffer[at..], free) == Err(r.error)
    ensures r.Ok? ==> at < next <= |buffer|
    ensures r.Ok? ==> DecodeList(buffer[at..], free) ==
                      Behind([r.value], next - at, DecodeList(buffer[next..], free - 1))
  {
    var id, n: int := buffer[at] * U8 + buffer[at+1], buffer[at+2];
    next := at + 3;
    if |buffer| - next < n {
      return Err(BufferTooShort), next;
    }
    var contents := [];
    if 0 < n {
      contents := buffer[next..next+n];
    }
    next := next + n;
    r := Ok(Container(id, n, contents));
    ContainerRead(buffer, at, free, r.value);
  }

  /** The decoder's loop, from position `at` on. */
  method DecodeContainers(buffer: seq<Byte>, at: nat) returns (r: Result<Parsed<seq<Container>>>)
    requires at <= |buffer|
    ensures r == DecodeList(buffer[at..], MAX_CONTAINERS)
  {
    r := DecodeUpTo(buffer, at, MAX_CONTAINERS);
  }

  method DecodeUpTo(buffer: seq<Byte>, at: nat, places: nat) returns (r: Result<Parsed<seq<Container>>>)
    requires at <= |buffer|
    ensures r == DecodeList(buffer[at..], places)
  {
    var decoded, list := at, [];
    ghost var expected := DecodeList(buffer[at..], places);
    BehindNothing(expected);
    while 3 <= |buffer| - decoded
      invariant at <= decoded <= |buffer| && |list| <= places
      invariant Behind(list, decoded - at, DecodeList(buffer[decoded..], places - |list|)) == expected
      decreases |buffer| - decoded
    {
      if |list| == places {
        return Err(WritePastEnd);
      }
      var c, next := ReadContainer(buffer, decoded, places - |list|);
      if c.Err? {
        return Err(c.error);
      }
      ghost var more := DecodeList(buffer[next..], places - |list| - 1);
      BehindTwice(list, decoded - at, [c.value], next - decoded, more);
      decoded, list := next, list + [c.value];
    }
    assert list + [] == list;
    return Ok(Parsed(list, decoded - at));
  }

  method DecodeElement(present: bool, buffer: seq<Byte>) returns (r: Result<Parsed<Options>>)
    ensures r == Decode(present, buffer)
  {
    var decoded := 0;
    if present {
      if |buffer| < MIN_LENGTH {
        return Err(BufferTooShort);
      }
      if buffer[0] != PCO_IEI {
        return Err(UnexpectedIei);
      }
      decoded := 1;
    } else if |buffer| < MIN_LENGTH - 1 {
      return Err(BufferTooShort);
    }
    var ielen := buffer[decoded];
    decoded := decoded + 1;
    if |buffer| - decoded < ielen {
      return Err(BufferTooShort);
    }
    var first := buffer[decoded];
    if first / 0x80 != 1 {
      return Err(ValueDoesntMatch);
    }
    if first / 8 % 0x10 != 0 {
      return Err(ValueDoesntMatch);
    }
    var list := DecodeContainers(buffer, decoded + 1);
    assert buffer[decoded..][1..] == buffer[decoded+1..];
    match list
    case Ok(parsed) => r := Ok(Parsed(Options(first / 2 % 8, parsed.item), decoded + 1 + parsed.consumed));
    case Err(error) => r := Err(error);
  }

  // ---- Round trip ----

  lemma {:induction false} ContainerDecodes(c: Container, more: seq<Byte>, free: nat)
    requires WellFormed(c) && 0 < free
    ensures DecodeList(ContainerOctets(c) + more, free) ==
            Behind([c], |ContainerOctets(c)|, DecodeList(more, free - 1))
  {
    var input := ContainerOctets(c) + more;
    var n := |c.contents|;
    assert input[0] == c.id / U8 && input[1] == c.id % U8 && input[2] == n;
    assert input[3..3+n] == c.contents && input[3+n..] == more;
  }

  lemma {:induction false} ListSplit(cs: seq<Container>, more: seq<Byte>)
    requires cs != []
    ensures ListOctets(cs) + more == ContainerOctets(cs[0]) + (ListOctets(cs[1..]) + more)
    ensures |ListOctets(cs)| == |ContainerOctets(cs[0])| + |ListOctets(cs[1..])|
  {
  }

  lemma {:induction false} OneMoreDecodes(
      cs: seq<Container>, input: seq<Byte>, n: nat, octets: seq<Byte>, more: seq<Byte>, free: nat,
      r: Result<Parsed<seq<Container>>>)
    requires cs != [] && WellFormed(cs[0]) && 0 < free
    requires DecodeList(octets + more, free - 1) == Behind(cs[1..], |octets|, r)
    requires input == ContainerOctets(cs[0]) + (octets + more) && n == |ContainerOctets(cs[0])| + |octets|
    ensures DecodeList(input, free) == Behind(cs, n, r)
  {
    ContainerDecodes(cs[0], octets + more, free);
    BehindTwice([cs[0]], |ContainerOctets(cs[0])|, cs[1..], |octets|, r);
    HeadAndTail(cs);
  }

  lemma HeadAndTail(cs: seq<Container>)
    requires cs != []
    ensures [cs[0]] + cs[1..] == cs
    ensures AllWellFormed(cs) ==> WellFormed(cs[0]) && AllWellFormed(cs[1..])
  {
  }

  /**
    An encoded list decodes to itself followed by whatever the octets behind it
    decode to: the decoder does not stop where the element says it ends.
  */
  lemma {:induction false} ListDecodes(cs: seq<Container>, input: seq<Byte>, n: nat, more: seq<Byte>, free: nat,
                                       r: Result<Parsed<seq<Container>>>)
    requires AllWellFormed(cs)
    requires |cs| <= free
    requires DecodeList(more, free - |cs|) == r
    requires input == ListOctets(cs) + more && n == |ListOctets(cs)|
    ensures DecodeList(input, free) == Behind(cs, n, r)
    decreases |cs|
  {
    if cs == [] {
      assert input == more;
      BehindNothing(r);
    } else {
      HeadAndTail(cs);
      var octets := ListOctets(cs[1..]);
      ListDecodes(cs[1..], octets + more, |octets|, more, free - 1, r);
      ListSplit(cs, more);
      OneMoreDecodes(cs, input, n, octets, more, free, r);
    }
  }

  /** The bits of the first octet: both checks pass, and the protocol loses its lowest bit. */
  lemma {:induction false} FirstOctetDecodes(protocol: Protocol)
    ensures var b := FirstOctet(protocol);
            b / 0x80 == 1 && b / 8 % 0x10 == 0 && b / 2 % 8 == protocol / 2
  {
  }

  predicate Encodable(options: Options) {
    |options.containers| <= MAX_CONTAINERS && AllWellFormed(options.containers)
  }

  lemma {:induction false} OptionsDecode(options: Options, input: seq<Byte>, more: seq<Byte>,
                                         r: Result<Parsed<seq<Container>>>)
    requires Encodable(options) && input == OptionOctets(options) + more
    requires DecodeList(more, MAX_CONTAINERS - |options.containers|) == r
    ensures DecodeOptions(input) ==
            match Behind(options.containers, |OptionOctets(options)| - 1, r)
            case Ok(parsed) => Ok(Parsed(Options(options.protocol / 2, parsed.item), 1 + parsed.consumed))
            case Err(error) => Err(error)
  {
    FirstOctetDecodes(options.protocol);
    var octets := ListOctets(options.containers);
    assert input[1..] == octets + more;
    ListDecodes(options.containers, input[1..], |octets|, more, MAX_CONTAINERS, r);
  }

  lemma {:induction false} ElementParts(present: bool, options: Options, tail: seq<Byte>)
    ensures var buffer := Element(present, options) + tail;
            var header := if present then 2 else 1;
            && |buffer| >= header + 1
            && (present ==> buffer[0] == PCO_IEI)
            && buffer[header - 1] <= |buffer| - header
            && buffer[header..] == OptionOctets(options) + tail
  {
  }

  /** What the octets behind an element decode to ends up in its list. */
  lemma {:induction false} ElementDecodes(present: bool, options: Options, more: seq<Byte>, cs: seq<Container>, n: nat)
    requires Encodable(options)
    requires DecodeList(more, MAX_CONTAINERS - |options.containers|) == Ok(Parsed(cs, n))
    ensures Decode(present, Element(present, options) + more) ==
            Ok(Parsed(Options(options.protocol / 2, options.containers + cs), |Element(present, options)| + n))
  {
    ElementParts(present, options, more);
    OptionsDecode(options, OptionOctets(options) + more, more, Ok(Parsed(cs, n)));
  }

  /**
    Decoding encoded options, with at most two stray octets behind them, gives
    the same containers in order and takes exactly the element's octets; the
    protocol comes back halved.
  */
  lemma {:induction false} ContainersRoundTrip(present: bool, options: Options, tail: seq<Byte>)
    requires Encodable(options) && |tail| < 3
    ensures Decode(present, Element(present, options) + tail) ==
            Ok(Parsed(Options(options.protocol / 2, options.containers), |Element(present, options)|))
  {
    ElementDecodes(present, options, tail, [], 0);
    assert options.containers + [] == options.containers;
  }

  /** Three octets or more are never left alone: they are consumed or make the decoder fail. */
  lemma {:induction false} TailIsRead(input: seq<Byte>, free: nat)
    requires |input| >= 3
    ensures DecodeList(input, free).Ok? ==> DecodeList(input, free).value.consumed >= 3
  {
    if free > 0 && |input| >= 3 + input[2] as int {
      var n: int := input[2];
      assert DecodeList(input, free) ==
             Behind([Container(input[0] * U8 + input[1], n, input[3..3+n])], 3 + n, DecodeList(input[3+n..], free - 1));
    }
  }

  /** A failure behind the element is the element's. */
  lemma {:induction false} ElementFails(present: bool, options: Options, more: seq<Byte>, error: Error)
    requires Encodable(options)
    requires DecodeList(more, MAX_CONTAINERS - |options.containers|) == Err(error)
    ensures Decode(present, Element(present, options) + more) == Err(error)
  {
    ElementParts(present, options, more);
    OptionsDecode(options, OptionOctets(options) + more, more, Err(error));
  }

  /**
    For every buffer an element may stand at the front of: the options come
    back, with exactly the element's octets taken, if and only if their
    configuration protocol is 0 and at most two octets follow.
  */
  lemma {:induction false} RoundTripIff(present: bool, options: Options, tail: seq<Byte>)
    requires Encodable(options)
    ensures (options.protocol == 0 && |tail| < 3) <==>
            Decode(present, Element(present, options) + tail) == Ok(Parsed(options, |Element(present, options)|))
  {
    if |tail| < 3 {
      ContainersRoundTrip(present, options, tail);
    } else {
      TailIsRead(tail, MAX_CONTAINERS - |options.containers|);
      match DecodeList(tail, MAX_CONTAINERS - |options.containers|)
      case Ok(parsed) => ElementDecodes(present, options, tail, parsed.item, parsed.consumed);
      case Err(error) => ElementFails(present, options, tail, error);
    }
  }

  /** The bare form, without identifier and length octet: the same, by the same condition. */
  lemma {:induction false} BareRoundTripIff(options: Options, tail: seq<Byte>)
    requires Encodable(options)
    ensures (options.protocol == 0 && |tail| < 3) <==>
            DecodeOptions(OptionOctets(options) + tail) == Ok(Parsed(options, |OptionOctets(options)|))
  {
    var free := MAX_CONTAINERS - |options.containers|;
    if |tail| >= 3 {
      TailIsRead(tail, free);
    }
    OptionsDecode(options, OptionOctets(options) + tail, tail, DecodeList(tail, free));
    assert options.containers + [] == options.containers;
  }

  /**
    Whatever follows the element is decoded with it: its containers are added,
    and its failure is the element's.
  */
  lemma {:induction false} TrailingOctetsAreRead(present: bool, options: Options, tail: seq<Byte>)
    requires Encodable(options)
    ensures Decode(present, Element(present, options) + tail) ==
            match DecodeList(tail, MAX_CONTAINERS - |options.containers|)
            case Ok(parsed) =>
              Ok(Parsed(Options(options.protocol / 2, options.containers + parsed.item),
                        |Element(present, options)| + parsed.consumed))
            case Err(error) => Err(error)
  {
    match DecodeList(tail, MAX_CONTAINERS - |options.containers|)
    case Ok(parsed) => ElementDecodes(present, options, tail, parsed.item, parsed.consumed);
    case Err(error) => ElementFails(present, options, tail, error);
  }

  // ---- On the wire ----

  /** Where container `k` begins. */
  function Offset(cs: seq<Container>, k: nat): nat
    requires k <= |cs|
  {
    if k == 0 then 0 else Offset(cs, k - 1) + 3 + |cs[k-1].contents|
  }

  lemma {:induction false} OffsetTail(cs: seq<Container>, k: nat)
    requires 0 < k <= |cs|
    ensures Offset(cs, k) == 3 + |cs[0].contents| + Offset(cs[1..], k - 1)
  {
    if k == 1 {
    } else {
      OffsetTail(cs, k - 1);
    }
  }

  /** A container from `at` on: its id in two octets, the greater one first, its length, its contents. */
  predicate IsAt(o: seq<Byte>, at: nat, c: Container) {
    var n := |c.contents|;
    && at + 3 + n <= |o|
    && o[at] * U8 + o[at+1] == c.id && o[at+2] == c.length && o[at+3..at+3+n] == c.contents
  }

  /** Every container, where it should be. */
  lemma {:induction false} ContainerOnTheWire(cs: seq<Container>, k: nat)
    requires k < |cs|
    ensures IsAt(ListOctets(cs), Offset(cs, k), cs[k])
  {
    if k == 0 {
      AtFront(cs[0], ListOctets(cs[1..]));
    } else {
      ContainerOnTheWire(cs[1..], k - 1);
      OffsetTail(cs, k);
      AtBehind(ContainerOctets(cs[0]), ListOctets(cs[1..]), Offset(cs[1..], k - 1), cs[k]);
    }
  }

  lemma AtFront(c: Container, rest: seq<Byte>)
    ensures IsAt(ContainerOctets(c) + rest, 0, c)
  {
    assert (ContainerOctets(c) + rest)[3..3+|c.contents|] == c.contents;
  }

  lemma AtBehind(front: seq<Byte>, rest: seq<Byte>, at: nat, c: Container)
    requires IsAt(rest, at, c)
    ensures IsAt(front + rest, |front| + at, c)
  {
    var o, to, n := front + rest, |front| + at, |c.contents|;
    assert o[to+3..to+3+n] == rest[at+3..at+3+n];
  }

  /** The element: identifier if any, length, the first octet with its top bit set, and the containers. */
  lemma ElementOnTheWire(present: bool, options: Options)
    ensures var o, h := Element(present, options), HeaderLength(present);
            && |o| == h + 1 + |ListOctets(options.containers)|
            && (present ==> o[0] == 0x27)
            && o[h-1] == (|o| - h) % 256 && o[h] == 128 + options.protocol && o[h+1..] == ListOctets(options.containers)
  {
  }

  // ---- What the decoder accepts ----

  /**
    Whatever the decoder accepts is the encoding of what it returns, with fewer
    than three octets left over.
  */
  lemma {:induction false} DecodedIsEncoded(input: seq<Byte>, free: nat)
    requires DecodeList(input, free).Ok?
    ensures var p := DecodeList(input, free).value;
            && AllWellFormed(p.item) && |p.item| <= free
            && p.consumed <= |input| < p.consumed + 3 && input[..p.consumed] == ListOctets(p.item)
    decreases |input|
  {
    if |input| < 3 {
    } else {
      var n: int := input[2];
      DecodedIsEncoded(input[3+n..], free - 1);
      var c := Container(input[0] * U8 + input[1], n, input[3..3+n]);
      var rest := DecodeList(input[3+n..], free - 1).value;
      FrontEncoded(c, rest.item, input, rest.consumed);
    }
  }

  lemma FrontEncoded(c: Container, cs: seq<Container>, input: seq<Byte>, m: nat)
    requires |input| >= 3 && c.id == input[0] * U8 + input[1] && c.length == input[2]
    requires 3 + c.length + m <= |input| && c.contents == input[3..3+c.length]
    requires AllWellFormed(cs) && input[3+c.length..][..m] == ListOctets(cs)
    ensures AllWellFormed([c] + cs) && input[..3+c.length+m] == ListOctets([c] + cs)
  {
    var n: int := c.length;
    assert ([c] + cs)[1..] == cs;
    assert Header(c) == input[..3];
    assert input[..3+n+m] == input[..3] + input[3..3+n] + input[3+n..][..m];
  }

  /** At most `free` containers and fewer than three octets more. */
  ghost predicate HoldsList(input: seq<Byte>, free: nat) {
    exists cs, tail :: AllWellFormed(cs) && |cs| <= free && |tail| < 3 && input == ListOctets(cs) + tail
  }

  /** More containers than there are places, or at least the header of one. */
  ghost predicate HoldsTooMany(input: seq<Byte>, free: nat) {
    exists cs, tail :: AllWellFormed(cs) && |cs| == free && |tail| >= 3 && input == ListOctets(cs) + tail
  }

  /** So it accepts a list exactly if it is one that has places. */
  lemma {:induction false} ListDecodesIff(input: seq<Byte>, free: nat)
    ensures DecodeList(input, free).Ok? <==> HoldsList(input, free)
  {
    if DecodeList(input, free).Ok? {
      DecodedIsEncoded(input, free);
      var p := DecodeList(input, free).value;
      assert input == ListOctets(p.item) + input[p.consumed..];
    } else if HoldsList(input, free) {
      var cs, tail :| AllWellFormed(cs) && |cs| <= free && |tail| < 3 && input == ListOctets(cs) + tail;
      ListDecodes(cs, input, |ListOctets(cs)|, tail, free, DecodeList(tail, free - |cs|));
    }
  }

  lemma {:induction false} TooManyAre(input: seq<Byte>, free: nat) returns (cs: seq<Container>, tail: seq<Byte>)
    requires DecodeList(input, free) == Err(WritePastEnd)
    ensures AllWellFormed(cs) && |cs| == free && |tail| >= 3 && input == ListOctets(cs) + tail
    decreases |input|
  {
    if free == 0 {
      cs, tail := [], input;
      assert input == ListOctets([]) + input;
    } else {
      var n: int := input[2];
      var c := Container(input[0] * U8 + input[1], n, input[3..3+n]);
      var rest;
      rest, tail := TooManyAre(input[3+n..], free - 1);
      cs := [c] + rest;
      assert input[3+n..][..|ListOctets(rest)|] == ListOctets(rest);
      FrontEncoded(c, rest, input, |ListOctets(rest)|);
      assert input == input[..3+n+|ListOctets(rest)|] + tail;
    }
  }

  /** And fails, on one with too many, by writing past its places, and on any other because its contents end early. */
  lemma {:induction false} ListFailsIff(input: seq<Byte>, free: nat)
    ensures DecodeList(input, free) == Err(WritePastEnd) <==> HoldsTooMany(input, free)
    ensures DecodeList(input, free) == Err(BufferTooShort) <==> !HoldsList(input, free) && !HoldsTooMany(input, free)
  {
    ListDecodesIff(input, free);
    ListErrors(input, free);
    if DecodeList(input, free) == Err(WritePastEnd) {
      var cs, tail := TooManyAre(input, free);
    } else if HoldsTooMany(input, free) {
      var cs, tail :| AllWellFormed(cs) && |cs| == free && |tail| >= 3 && input == ListOctets(cs) + tail;
      ListDecodes(cs, input, |ListOctets(cs)|, tail, free, DecodeList(tail, 0));
    }
  }

  lemma {:induction false} ListErrors(input: seq<Byte>, free: nat)
    ensures DecodeList(input, free).Err? ==> DecodeList(input, free).error in {WritePastEnd, BufferTooShort}
    decreases |input|
  {
    if |input| < 3 || free == 0 || |input| < 3 + input[2] as int {
    } else {
      ListErrors(input[3 + input[2] as int..], free - 1);
    }
  }

  /** The header of an element the decoder goes on with. */
  predicate HeaderRight(present: bool, buffer: seq<Byte>) {
    var h := HeaderLength(present);
    |buffer| > h && (present ==> buffer[0] == 0x27) && buffer[h-1] <= |buffer| - h
  }

  /**
    What the decoder accepts: a right header, a first octet with its top bit
    set and a protocol, and a list of at most eight containers, up to two
    octets at the end of the buffer not counted.
  */
  lemma DecodesIff(present: bool, buffer: seq<Byte>)
    ensures Decode(present, buffer).Ok? <==>
            var h := HeaderLength(present);
            HeaderRight(present, buffer) && 128 <= buffer[h] < 136 && HoldsList(buffer[h+1..], 8)
  {
    var h := HeaderLength(present);
    if HeaderRight(present, buffer) {
      assert buffer[h..][1..] == buffer[h+1..];
      ListDecodesIff(buffer[h+1..], MAX_CONTAINERS);
    }
  }

  /** And why it refuses the rest. */
  lemma DecodeFails(present: bool, buffer: seq<Byte>)
    ensures var r, h := Decode(present, buffer), HeaderLength(present);
            && (r == Err(UnexpectedIei) <==> |buffer| > h && present && buffer[0] != 0x27)
            && (r == Err(ValueDoesntMatch) <==> HeaderRight(present, buffer) && !(128 <= buffer[h] < 136))
            && (r == Err(WritePastEnd) <==>
                  HeaderRight(present, buffer) && 128 <= buffer[h] < 136 && HoldsTooMany(buffer[h+1..], 8))
            && (r.Err? ==> r.error in {UnexpectedIei, ValueDoesntMatch, WritePastEnd, BufferTooShort})
  {
    var h := HeaderLength(present);
    if HeaderRight(present, buffer) {
      assert buffer[h..][1..] == buffer[h+1..];
      ListFailsIff(buffer[h+1..], MAX_CONTAINERS);
      ListErrors(buffer[h+1..], MAX_CONTAINERS);
    }
  }

  // ---- Where the encoder fails ----

  /** The buffer ends within the header of container `k`. */
  predicate HeaderCut(cs: seq<Container>, room: nat, k: nat) {
    k < |cs| && Offset(cs, k) <= room < Offset(cs, k) + 3
  }

  /** It ends within the contents of container `k`. */
  predicate ContentsCut(cs: seq<Container>, room: nat, k: nat) {
    k < |cs| && Offset(cs, k) + 3 <= room < Offset(cs, k + 1)
  }

  lemma {:induction false} CutAt(cs: seq<Container>, room: nat) returns (k: nat)
    requires Fit(cs, room).Some?
    ensures if Fit(cs, room).value == WritePastEnd then HeaderCut(cs, room, k) else ContentsCut(cs, room, k)
    decreases |cs|
  {
    if room < 3 + |cs[0].contents| {
      k := 0;
      assert Offset(cs, 1) == 3 + |cs[0].contents|;
    } else {
      k := CutAt(cs[1..], room - 3 - |cs[0].contents|);
      OffsetTail(cs, k + 1);
      OffsetTail(cs, k + 2);
      k := k + 1;
    }
  }

  lemma {:induction false} CutFails(cs: seq<Container>, room: nat, k: nat)
    requires HeaderCut(cs, room, k) || ContentsCut(cs, room, k)
    ensures Fit(cs, room) == Some(if HeaderCut(cs, room, k) then WritePastEnd else BufferTooShort)
    decreases |cs|
  {
    if k == 0 {
      assert Offset(cs, 1) == 3 + |cs[0].contents|;
    } else {
      OffsetTail(cs, k);
      OffsetTail(cs, k + 1);
      CutFails(cs[1..], room - 3 - |cs[0].contents|, k - 1);
    }
  }

  /** The encoder writes on where a header is cut, and reports where contents are. */
  lemma FitFailsIff(cs: seq<Container>, room: nat)
    ensures Fit(cs, room) == Some(WritePastEnd) <==> exists k: nat :: HeaderCut(cs, room, k)
    ensures Fit(cs, room) == Some(BufferTooShort) <==> exists k: nat :: ContentsCut(cs, room, k)
  {
    FitIff(cs, room);
    if Fit(cs, room).Some? {
      var k := CutAt(cs, room);
    }
    forall k: nat | HeaderCut(cs, room, k) || ContentsCut(cs, room, k)
      ensures Fit(cs, room) == Some(if HeaderCut(cs, room, k) then WritePastEnd else BufferTooShort)
    {
      CutFails(cs, room, k);
    }
  }
}
