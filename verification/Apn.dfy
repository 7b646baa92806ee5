/**
  The access point name information element: the name's dot-separated labels,
  each with a length octet in front (section 10.5.6.1 of 3GPP TS 24.008,
  section 9.1 of 3GPP TS 23.003).
*/
module Apn {
  import opened Common
  import opened Tlv

  const DOT: Byte := 0x2E
  const APN_IEI: Byte := 0x28
  const MIN_LENGTH := 3
  const MAX_LENGTH := 102

  type Name = seq<Byte>

  /** The encoder stops at the first NUL octet. */
  function UpToNul(name: Name): Name {
    if name == [] || name[0] == 0 then [] else [name[0]] + UpToNul(name[1..])
  }

  /** The length of the first label. */
  function FirstDot(name: Name): (d: nat)
    ensures d <= |name|
    ensures DOT !in name[..d]
    ensures d < |name| ==> name[d] == DOT
  {
    if name == [] || name[0] == DOT then 0
    else
      assert forall k | 0 < k <= 1 + FirstDot(name[1..]) :: name[..k] == [name[0]] + name[1..][..k-1];
      1 + FirstDot(name[1..])
  }

  function Split(name: Name): (labels: seq<Name>)
    ensures labels != []
    decreases |name|
  {
    var d := FirstDot(name);
    [name[..d]] + if d < |name| then Split(name[d+1..]) else []
  }

  ghost predicate Short(labels: seq<Name>) {
    forall l | l in labels :: |l| < U8
  }

  /** A label behind its length. */
  function Prefixed(chars: Name): seq<Byte>
    requires |chars| < U8
  {
    [|chars|] + chars
  }

  function Flatten(labels: seq<Name>): seq<Byte>
    requires Short(labels)
  {
    if labels == [] then [] else Prefixed(labels[0]) + Flatten(labels[1..])
  }

  /** The labels, each behind a dot. */
  function Dotted(labels: seq<Name>): Name {
    if labels == [] then [] else [DOT] + labels[0] + Dotted(labels[1..])
  }

  lemma {:induction false} SplitShort(name: Name)
    requires |name| < U8
    ensures Short(Split(name))
    ensures |Flatten(Split(name))| == |name| + 1
    decreases |name|
  {
    var d := FirstDot(name);
    if d < |name| {
      var after := name[d+1..];
      SplitShort(after);
      assert Split(name) == [name[..d]] + Split(after);
      assert Split(name)[1..] == Split(after);
    } else {
      assert Split(name) == [name[..d]];
    }
  }

  lemma AroundDot(name: Name, d: nat)
    requires d < |name| && name[d] == DOT
    ensures [DOT] + name[..d] + ([DOT] + name[d+1..]) == [DOT] + name
  {
  }

  /** Splitting loses nothing: with the dots put back the labels are the name. */
  lemma {:induction false} DottedSplit(name: Name)
    ensures Dotted(Split(name)) == [DOT] + name
    decreases |name|
  {
    var d := FirstDot(name);
    if d < |name| {
      var after := name[d+1..];
      DottedSplit(after);
      assert Split(name)[1..] == Split(after);
      AroundDot(name, d);
    } else {
      assert Split(name)[1..] == [];
    }
  }

  lemma {:induction false} JoinedSplit(name: Name)
    ensures Split(name)[0] + Dotted(Split(name)[1..]) == name
  {
    DottedSplit(name);
    var labels := Split(name);
    assert Dotted(labels)[1..] == labels[0] + Dotted(labels[1..]);
    assert ([DOT] + name)[1..] == name;
  }

  /** The label encoding of a name. */
  function Labels(name: Name): (r: seq<Byte>)
    requires |name| < U8
    ensures |r| == |name| + 1
  {
    SplitShort(name);
    Flatten(Split(name))
  }

  lemma {:induction false} FirstDotAt(name: Name, d: nat)
    requires d <= |name| && DOT !in name[..d] && (d < |name| ==> name[d] == DOT)
    ensures FirstDot(name) == d
  {
    if d == 0 {
    } else {
      assert name[0] in name[..d];
      assert name[1..][..d-1] == name[1..d];
      assert forall k | 0 <= k < d - 1 :: name[1..d][k] == name[..d][k+1];
      FirstDotAt(name[1..], d - 1);
    }
  }

  lemma {:induction false} UpToNulIs(name: Name)
    ensures var z := |UpToNul(name)|;
            && z <= |name| && UpToNul(name) == name[..z]
            && (forall k | 0 <= k < z :: name[k] != 0)
            && (z < |name| ==> name[z] == 0)
  {
    if name == [] || name[0] == 0 {
    } else {
      UpToNulIs(name[1..]);
    }
  }

  lemma {:induction false} LabelDone(s: Name, from: nat, to: nat)
    requires from <= to < |s| < U8 && DOT !in s[from..to] && s[to] == DOT
    ensures Labels(s[from..]) == [to - from] + s[from..to] + Labels(s[to+1..])
  {
    assert s[from..][..to-from] == s[from..to];
    FirstDotAt(s[from..], to - from);
    assert s[from..][to-from+1..] == s[to+1..];
    FirstLabelOf(s[from..], to - from);
  }

  lemma {:induction false} FirstLabelOf(t: Name, d: nat)
    requires |t| < U8 && d < |t| && FirstDot(t) == d
    ensures Labels(t) == [d] + t[..d] + Labels(t[d+1..])
  {
    var rest := Split(t[d+1..]);
    SplitShort(t);
    SplitShort(t[d+1..]);
    assert Split(t) == [t[..d]] + rest;
    FlattenCons(t[..d], rest, Split(t));
  }

  lemma {:induction false} FlattenCons(head: Name, rest: seq<Name>, all: seq<Name>)
    requires all == [head] + rest && Short(all) && Short(rest) && |head| < U8
    ensures Flatten(all) == Prefixed(head) + Flatten(rest)
  {
    assert all[1..] == rest;
  }

  lemma {:induction false} LastLabel(s: Name, from: nat)
    requires from <= |s| < U8 && DOT !in s[from..]
    ensures Labels(s[from..]) == [|s| - from] + s[from..]
  {
    assert s[from..][..|s|-from] == s[from..];
    FirstDotAt(s[from..], |s| - from);
    assert Split(s[from..]) == [s[from..]];
  }

  /** A label of `n` octets begins at `from`. */
  ghost predicate IsLabel(name: Name, from: nat, n: nat) {
    && from + n <= |name| && DOT !in name[from..from+n]
    && (from + n < |name| ==> name[from+n] == DOT)
  }

  /** Octet `o` stands for position `i`: the length of the label behind a dot, or the character itself. */
  ghost predicate LaidOut(name: Name, i: nat, o: Byte)
    requires i < |name|
  {
    if name[i] == DOT then IsLabel(name, i + 1, o) else o == name[i]
  }

  /**
    The encoding position by position: in front, and in the place of every dot,
    stands the length of the label that follows; everything else is as in the
    name.
  */
  lemma {:induction false} LabelsLayout(name: Name, i: nat)
    requires |name| < U8 && i < |name|
    ensures IsLabel(name, 0, Labels(name)[0])
    ensures LaidOut(name, i, Labels(name)[i+1])
    decreases |name|
  {
    var d := FirstDot(name);
    if d == |name| {
      LastLabel(name, 0);
      assert name[0..] == name && name[0..d] == name;
    } else {
      FirstLabelOf(name, d);
      assert name[0..d] == name[..d];
      if i < d {
        assert name[i] in name[..d];
      } else {
        var rest := name[d+1..];
        assert Labels(name)[i+1] == Labels(rest)[i-d];
        if rest == [] {
          LastLabel(name, d + 1);
        } else {
          LabelsLayout(rest, if i == d then 0 else i - d - 1);
          LaidOutBehindDot(name, d, i, Labels(rest)[i-d]);
        }
      }
    }
  }

  lemma LaidOutBehindDot(name: Name, d: nat, i: nat, o: Byte)
    requires d <= i < |name| && name[d] == DOT
    requires if i == d then IsLabel(name[d+1..], 0, o) else LaidOut(name[d+1..], i - d - 1, o)
    ensures LaidOut(name, i, o)
  {
    assert i > d ==> name[d+1..][i-d-1] == name[i];
    if name[i] == DOT {
      LabelShifted(name, d + 1, i - d, o);
    }
  }

  lemma LabelShifted(name: Name, from: nat, at: nat, n: nat)
    requires from <= |name| && IsLabel(name[from..], at, n)
    ensures IsLabel(name, from + at, n)
  {
    assert name[from..][at..at+n] == name[from+at..from+at+n];
  }

  /**
    The encoder between two characters of `s`: of the octets in `goal`, those
    before position `from` are written and `tail` is to come; the open label's
    characters are copied behind the place where its length will go.
  */
  ghost predicate Underway(encoded: seq<Byte>, s: Name, goal: seq<Byte>, tail: seq<Byte>, from: nat, index: nat) {
    && from <= index <= |s| < MAX_LENGTH == |encoded|
    && goal == encoded[..from] + tail
    && encoded[from+1..index+1] == s[from..index]
    && DOT !in s[from..index]
  }

  lemma DotStep(encoded: seq<Byte>, s: Name, goal: seq<Byte>, tail: seq<Byte>, from: nat, index: nat)
    requires from <= index < |s| < U8
    requires Underway(encoded, s, goal, [index - from] + s[from..index] + tail, from, index)
    ensures Underway(encoded[from := index - from], s, goal, tail, index + 1, index + 1)
  {
    var next := encoded[from := index - from];
    assert next[..index+1] == encoded[..from] + [index - from] + encoded[from+1..index+1];
  }

  lemma CharStep(encoded: seq<Byte>, s: Name, goal: seq<Byte>, tail: seq<Byte>, from: nat, index: nat)
    requires Underway(encoded, s, goal, tail, from, index) && index < |s| && s[index] != DOT
    ensures Underway(encoded[index + 1 := s[index]], s, goal, tail, from, index + 1)
  {
    var next := encoded[index + 1 := s[index]];
    assert next[..from] == encoded[..from];
    assert next[from+1..index+2] == encoded[from+1..index+1] + [s[index]];
    assert s[from..index+1] == s[from..index] + [s[index]];
  }

  lemma LastStep(encoded: seq<Byte>, s: Name, goal: seq<Byte>, from: nat)
    requires from <= |s| < U8
    requires Underway(encoded, s, goal, [|s| - from] + s[from..], from, |s|)
    ensures encoded[from := |s| - from][..|s|+1] == goal
  {
    assert encoded[from := |s| - from][..|s|+1] == encoded[..from] + [|s| - from] + encoded[from+1..|s|+1];
  }

  ghost predicate Writing(encoded: seq<Byte>, s: Name, from: nat, index: nat) {
    from <= |s| < U8 && Underway(encoded, s, Labels(s), Labels(s[from..]), from, index)
  }

  lemma WritingStep(encoded: seq<Byte>, s: Name, from: nat, index: nat)
    requires Writing(encoded, s, from, index) && index < |s|
    ensures s[index] == DOT ==> Writing(encoded[from := index - from], s, index + 1, index + 1)
    ensures s[index] != DOT ==> Writing(encoded[index + 1 := s[index]], s, from, index + 1)
  {
    if s[index] == DOT {
      LabelDone(s, from, index);
      DotStep(encoded, s, Labels(s), Labels(s[index+1..]), from, index);
    } else {
      CharStep(encoded, s, Labels(s), Labels(s[from..]), from, index);
    }
  }

  lemma WritingDone(encoded: seq<Byte>, s: Name, from: nat)
    requires Writing(encoded, s, from, |s|)
    ensures encoded[from := |s| - from][..|s|+1] == Labels(s)
  {
    assert s[from..|s|] == s[from..];
    LastLabel(s, from);
    LastStep(encoded, s, Labels(s), from);
  }

  /** One round of the encoder's loop: a dot closes the label, any other character is copied. */
  method EncodeChar(encoded: array<Byte>, lengthIndex: nat, index: nat, c: Byte) returns (from: nat)
    requires lengthIndex <= index < encoded.Length - 1 && index - lengthIndex < U8
    modifies encoded
    ensures from == if c == DOT then index + 1 else lengthIndex
    ensures c == DOT ==> encoded[..] == old(encoded[..])[lengthIndex := index - lengthIndex]
    ensures c != DOT ==> encoded[..] == old(encoded[..])[index + 1 := c]
  {
    if c == DOT {
      encoded[lengthIndex] := index - lengthIndex;
      from := index + 1;
    } else {
      encoded[index + 1] := c;
      from := lengthIndex;
    }
  }

  lemma WritingStarts(encoded: seq<Byte>, s: Name)
    requires |encoded| == MAX_LENGTH && |s| < MAX_LENGTH
    ensures Writing(encoded, s, 0, 0)
  {
    assert s[0..] == s;
  }

  /** The loop over the name. From character 102 on the source is past the end of its array. */
  method EncodeChars(name: Name, encoded: array<Byte>) returns (fits: bool, lengthIndex: nat, index: nat)
    requires encoded.Length == MAX_LENGTH
    modifies encoded
    ensures fits <==> |UpToNul(name)| < MAX_LENGTH
    ensures fits ==> index == |UpToNul(name)| && Writing(encoded[..], UpToNul(name), lengthIndex, index)
  {
    UpToNulIs(name);
    ghost var s := UpToNul(name);
    lengthIndex, index := 0, 0;
    if |s| < MAX_LENGTH {
      WritingStarts(encoded[..], s);
    }
    while index < |name| && name[index] != 0
      invariant lengthIndex <= index <= |s| && index < MAX_LENGTH
      invariant |s| < MAX_LENGTH ==> Writing(encoded[..], s, lengthIndex, index)
    {
      if index + 1 == MAX_LENGTH {
        return false, lengthIndex, index;
      }
      if |s| < MAX_LENGTH {
        WritingStep(encoded[..], s, lengthIndex, index);
      }
      lengthIndex := EncodeChar(encoded, lengthIndex, index, name[index]);
      index := index + 1;
    }
    fits := true;
  }

  method CloseLastLabel(encoded: array<Byte>, ghost s: Name, lengthIndex: nat, index: nat) returns (labels: seq<Byte>)
    requires index == |s| && Writing(encoded[..], s, lengthIndex, index)
    modifies encoded
    ensures labels == Labels(s)
  {
    WritingDone(encoded[..], s, lengthIndex);
    ghost var before: seq<Byte> := encoded[..];
    encoded[lengthIndex] := index - lengthIndex;
    assert encoded[..] == before[lengthIndex := index - lengthIndex];
    assert encoded[..index+1] == encoded[..][..index+1];
    return encoded[..index+1];
  }

  /** The label encoding, built up in the source's fixed array. */
  method EncodeLabels(name: Name) returns (r: Result<seq<Byte>>)
    ensures r == if |UpToNul(name)| < MAX_LENGTH then Ok(Labels(UpToNul(name))) else Err(WritePastEnd)
  {
    var encoded := new Byte[MAX_LENGTH](_ => 0);
    var fits, lengthIndex, index := EncodeChars(name, encoded);
    if !fits {
      return Err(WritePastEnd);
    }
    var labels := CloseLastLabel(encoded, UpToNul(name), lengthIndex, index);
    return Ok(labels);
  }

  /** The whole element, with or without its identifier. */
  function Element(present: bool, name: Name): seq<Byte>
    requires |name| < U8 - 1
  {
    (if present then [APN_IEI] else []) + [|name| + 1] + Labels(name)
  }

  /** What the encoder returns for a name up to its first NUL. */
  function EncodeResult(present: bool, name: Name, length: nat): Result<nat> {
    if length < (if present then MAX_LENGTH else MIN_LENGTH - 1) then Err(BufferTooShort)
    else if |name| >= MAX_LENGTH then Err(WritePastEnd)
    else if length < |Element(present, name)| then Err(BufferTooShort)
    else Ok(|Element(present, name)|)
  }

  method EncodeElement(name: Name, present: bool, buffer: array<Byte>) returns (r: Result<nat>)
    modifies buffer
    ensures r == EncodeResult(present, UpToNul(name), buffer.Length)
    ensures r.Ok? ==> buffer[..r.value] == Element(present, UpToNul(name))
    ensures r.Ok? ==> buffer[r.value..] == old(buffer[r.value..])
    ensures r.Err? && buffer.Length > 0 ==> buffer[1..] == old(buffer[1..])
  {
    var encoded := 0;
    if present {
      if buffer.Length < MAX_LENGTH {
        return Err(BufferTooShort);
      }
      buffer[0] := APN_IEI;
      encoded := 1;
    } else if buffer.Length < MIN_LENGTH - 1 {
      return Err(BufferTooShort);
    }
    var lengthAt := encoded;
    encoded := encoded + 1;
    var labels := EncodeLabels(name);
    if labels.Err? {
      return Err(labels.error);
    }
    var apn := labels.value;
    ghost var header := buffer[..encoded];
    var ok := CopyInto(apn, buffer, encoded);
    if !ok {
      return Err(BufferTooShort);
    }
    assert buffer[..encoded + |apn|][..encoded] == header && buffer[..encoded + |apn|][encoded..] == apn;
    encoded := encoded + |apn|;
    ghost var before: seq<Byte> := buffer[..];
    buffer[lengthAt] := encoded - 1 - lengthAt;
    assert buffer[..] == before[lengthAt := encoded - 1 - lengthAt];
    LengthSet(before, if present then [APN_IEI] else [], apn, encoded, encoded - 1 - lengthAt);
    assert buffer[..encoded] == buffer[..][..encoded] && buffer[encoded..] == buffer[..][encoded..];
    return Ok(encoded);
  }

  // ---- Decoding ----

  /** Puts what is already decoded in front. */
  function After(name: Name, taken: nat, r: Result<Parsed<Name>>): Result<Parsed<Name>> {
    match r
    case Ok(parsed) => Ok(Parsed(name + parsed.item, taken + parsed.consumed))
    case Err(error) => Err(error)
  }

  /** The decoder's loop: `left` octets of the input belong to the element. */
  function MoreLabels(input: seq<Byte>, left: nat): Result<Parsed<Name>>
    decreases left
  {
    if left == 0 then Ok(Parsed([], 0))
    else if input == [] then Err(ReadPastEnd)
    else
      var n: int := input[0];
      if left - 1 < n then Err(AssertionFailed)
      else if |input| < 1 + n then Err(ReadPastEnd)
      else After([DOT] + input[1..1+n], 1 + n, MoreLabels(input[1+n..], left - 1 - n))
  }

  /** An element of at most one octet carries no name. The first label's length is not checked against the element's. */
  function Decode(present: bool, buffer: seq<Byte>): Result<Parsed<Option<Name>>> {
    var header := if present then 2 else 1;
    if |buffer| < header + 1 then Err(BufferTooShort)
    else if present && buffer[0] != APN_IEI then Err(UnexpectedIei)
    else
      var left := buffer[header - 1];
      if |buffer| - header < left then Err(BufferTooShort)
      else if left <= 1 then Ok(Parsed(None, header))
      else Named(FirstLabel(buffer[header..], header, left))
  }

  function FirstLabel(input: seq<Byte>, taken: nat, left: Byte): Result<Parsed<Name>>
    requires input != []
  {
    var n: int := input[0];
    if |input| < 1 + n then Err(ReadPastEnd)
    else After(input[1..1+n], taken + 1 + n, MoreLabels(input[1+n..], Less(left, 1 + n)))
  }

  /** Subtraction on a uint8_t. */
  function Less(a: Byte, b: nat): Byte
    requires b <= U8
  {
    if b <= a then a - b else a + U8 - b
  }

  function Named(r: Result<Parsed<Name>>): Result<Parsed<Option<Name>>> {
    match r
    case Ok(parsed) => Ok(Parsed(Some(parsed.item), parsed.consumed))
    case Err(error) => Err(error)
  }

  method DecodeElement(present: bool, buffer: seq<Byte>) returns (r: Result<Parsed<Option<Name>>>)
    ensures r == Decode(present, buffer)
  {
    var decoded := 0;
    if present {
      if |buffer| < MIN_LENGTH {
        return Err(BufferTooShort);
      }
      if buffer[0] != APN_IEI {
        return Err(UnexpectedIei);
      }
      decoded := 1;
    } else if |buffer| < MIN_LENGTH - 1 {
      return Err(BufferTooShort);
    }
    var ielen := buffer[decoded];
    decoded := decoded + 1;
    if |buffer| - decoded < ielen {
      return Err(BufferTooShort);
    }
    if ielen <= 1 {
      return Ok(Parsed(None, decoded));
    }
    r := DecodeLabels(buffer, decoded, ielen);
  }

  method DecodeLabels(buffer: seq<Byte>, header: nat, length: Byte) returns (r: Result<Parsed<Option<Name>>>)
    requires header < |buffer|
    ensures r == Named(FirstLabel(buffer[header..], header, length))
  {
    var n: int := buffer[header];
    var decoded := header + 1;
    if |buffer| < decoded + n {
      return Err(ReadPastEnd);
    }
    var name := buffer[decoded..decoded+n];
    assert name == buffer[header..][1..1+n];
    decoded := decoded + n;
    assert buffer[decoded..] == buffer[header..][1+n..];
    r := DecodeMoreLabels(buffer, decoded, Less(length, 1 + n), name);
  }

  /** The decoder's loop, with the first label read. */
  method DecodeMoreLabels(buffer: seq<Byte>, at: nat, left: Byte, first: Name)
    returns (r: Result<Parsed<Option<Name>>>)
    requires at <= |buffer|
    ensures r == Named(After(first, at, MoreLabels(buffer[at..], left)))
  {
    var decoded, ielen: int, name := at, left, first;
    ghost var expected := After(name, decoded, MoreLabels(buffer[decoded..], ielen));
    while 1 <= ielen
      invariant 0 <= ielen && 0 <= decoded <= |buffer|
      invariant After(name, decoded, MoreLabels(buffer[decoded..], ielen)) == expected
      decreases ielen
    {
      if decoded == |buffer| {
        return Err(ReadPastEnd);
      }
      var next, rest, longer := DecodeLabel(buffer, decoded, ielen, name);
      if next.Err? {
        return Err(next.error);
      }
      decoded, ielen, name := next.value, rest, longer;
    }
    assert name + [] == name;
    return Ok(Parsed(Some(name), decoded));
  }

  /** One round of the decoder's loop. */
  method DecodeLabel(buffer: seq<Byte>, at: nat, ielen: nat, name: Name)
    returns (next: Result<nat>, left: nat, longer: Name)
    requires at < |buffer| && 1 <= ielen
    ensures next.Err? ==> MoreLabels(buffer[at..], ielen) == Err(next.error)
    ensures next.Ok? ==> at < next.value <= |buffer| && left < ielen
    ensures next.Ok? ==> After(name, at, MoreLabels(buffer[at..], ielen)) ==
                         After(longer, next.value, MoreLabels(buffer[next.value..], left))
  {
    longer := name + [DOT];
    var n: int := buffer[at];
    left := ielen - 1;
    if n > 0 {
      if left < n {
        return Err(AssertionFailed), left, longer;
      }
      if |buffer| < at + 1 + n {
        return Err(ReadPastEnd), left, longer;
      }
      longer := longer + buffer[at+1..at+1+n];
      left := left - n;
    }
    next := Ok(at + 1 + n);
    assert buffer[at..][1..1+n] == buffer[at+1..at+1+n];
    assert buffer[at..][1+n..] == buffer[at+1+n..];
    assert longer == name + ([DOT] + buffer[at+1..at+1+n]);
    AfterTwice(name, at, [DOT] + buffer[at+1..at+1+n], 1 + n, MoreLabels(buffer[at+1+n..], left));
  }

  lemma AfterTwice(name: Name, taken: nat, more: Name, n: nat, r: Result<Parsed<Name>>)
    ensures After(name, taken, After(more, n, r)) == After(name + more, taken + n, r)
  {
    if r.Ok? {
      assert name + (more + r.value.item) == (name + more) + r.value.item;
    }
  }

  // ---- Round trip ----

  lemma {:induction false} MoreLabelsStep(head: Name, more: seq<Byte>, left: nat)
    requires |head| < U8
    ensures MoreLabels(Prefixed(head) + more, 1 + |head| + left) ==
            After([DOT] + head, 1 + |head|, MoreLabels(more, left))
  {
    var input := Prefixed(head) + more;
    assert input[1..1+|head|] == head && input[1+|head|..] == more;
  }

  lemma {:induction false} FlattenSplit(labels: seq<Name>, tail: seq<Byte>)
    requires labels != [] && Short(labels)
    ensures Flatten(labels) + tail == Prefixed(labels[0]) + (Flatten(labels[1..]) + tail)
    ensures |Flatten(labels)| == 1 + |labels[0]| + |Flatten(labels[1..])|
  {
    Reassociate(Prefixed(labels[0]), Flatten(labels[1..]), tail);
  }

  /** Decoding flattened labels gives each of them behind a dot. */
  lemma {:induction false} MoreLabelsDecodes(labels: seq<Name>, input: seq<Byte>, n: nat, tail: seq<Byte>)
    requires Short(labels) && input == Flatten(labels) + tail && n == |Flatten(labels)|
    ensures MoreLabels(input, n) == Ok(Parsed(Dotted(labels), n))
    decreases |labels|
  {
    if labels == [] {
    } else {
      var octets := Flatten(labels[1..]);
      MoreLabelsDecodes(labels[1..], octets + tail, |octets|, tail);
      FlattenSplit(labels, tail);
      OneMoreDecodes(labels, input, n, octets + tail, |octets|);
    }
  }

  lemma {:induction false} OneMoreDecodes(labels: seq<Name>, input: seq<Byte>, n: nat, more: seq<Byte>, left: nat)
    requires labels != [] && |labels[0]| < U8
    requires input == Prefixed(labels[0]) + more && n == 1 + |labels[0]| + left
    requires MoreLabels(more, left) == Ok(Parsed(Dotted(labels[1..]), left))
    ensures MoreLabels(input, n) == Ok(Parsed(Dotted(labels), n))
  {
    MoreLabelsStep(labels[0], more, left);
  }

  lemma {:induction false} FirstLabelStep(head: Name, input: seq<Byte>, n: nat, more: seq<Byte>, taken: nat,
                                          left: nat, item: Name)
    requires |head| < U8 && input == Prefixed(head) + more && n == 1 + |head| + left < U8
    requires MoreLabels(more, left) == Ok(Parsed(item, left))
    ensures FirstLabel(input, taken, n) == Ok(Parsed(head + item, taken + n))
  {
    assert input[1..1+|head|] == head && input[1+|head|..] == more;
  }

  lemma {:induction false} FirstLabelDecodes(labels: seq<Name>, input: seq<Byte>, n: nat, tail: seq<Byte>, taken: nat)
    requires labels != [] && Short(labels)
    requires input == Flatten(labels) + tail && 0 < n == |Flatten(labels)| < U8
    ensures FirstLabel(input, taken, n) == Ok(Parsed(labels[0] + Dotted(labels[1..]), taken + n))
  {
    var rest := labels[1..];
    var octets := Flatten(rest);
    MoreLabelsDecodes(rest, octets + tail, |octets|, tail);
    FlattenSplit(labels, tail);
    FirstLabelStep(labels[0], input, n, octets + tail, taken, |octets|, Dotted(rest));
  }

  lemma {:induction false} NameDecodes(name: Name, tail: seq<Byte>, taken: nat)
    requires |name| < U8 - 1
    ensures FirstLabel(Labels(name) + tail, taken, |name| + 1) == Ok(Parsed(name, taken + |name| + 1))
  {
    var labels := Split(name);
    SplitShort(name);
    JoinedSplit(name);
    FirstLabelDecodes(labels, Labels(name) + tail, |name| + 1, tail, taken);
  }

  /**
    Decoding an encoded name gives it back and takes exactly the octets of the
    element, whatever follows it; only an empty name is lost, with its octet.
  */
  lemma {:induction false} RoundTrip(present: bool, name: Name, tail: seq<Byte>)
    requires |name| < MAX_LENGTH
    ensures Decode(present, Element(present, name) + tail) ==
            if name == [] then Ok(Parsed(None, |Element(present, name)| - 1))
            else Ok(Parsed(Some(name), |Element(present, name)|))
  {
    var buffer := Element(present, name) + tail;
    var header := if present then 2 else 1;
    assert buffer[header..] == Labels(name) + tail;
    NameDecodes(name, tail, header);
  }

  /** For a name as the encoder is handed it: it comes back exactly if it is non-empty and NUL-free. */
  lemma {:induction false} RoundTripIff(present: bool, name: Name, tail: seq<Byte>)
    requires |UpToNul(name)| < MAX_LENGTH
    ensures Decode(present, Element(present, UpToNul(name)) + tail) ==
              Ok(Parsed(Some(name), |Element(present, UpToNul(name))|)) <==>
            name != [] && 0 !in name
  {
    RoundTrip(present, UpToNul(name), tail);
    UpToNulIs(name);
    assert UpToNul(name) == name <==> 0 !in name;
  }

  /** The element: identifier if any, the length of the labels, and the labels. */
  lemma ElementOnTheWire(present: bool, name: Name)
    requires |name| < U8 - 1
    ensures var o := Element(present, name);
            var h := if present then 2 else 1;
            |o| == h + |name| + 1 && (present ==> o[0] == 0x28) && o[h-1] == |name| + 1 && o[h..] == Labels(name)
  {
  }

  // ---- What the decoder accepts ----

  /**
    The input starts with these labels, and they make up the element's `left`
    octets. A first label that is longer than the element makes the uint8_t of
    what is left wrap, and 256 octets more are read.
  */
  ghost predicate StartsWith(input: seq<Byte>, left: nat, labels: seq<Name>) {
    && labels != [] && Short(labels) && Flatten(labels) <= input
    && |Flatten(labels)| == if |labels[0]| < left then left else left + U8
  }

  ghost predicate HoldsName(input: seq<Byte>, left: nat) {
    exists labels :: StartsWith(input, left, labels)
  }

  lemma {:induction false} MoreLabelsAre(input: seq<Byte>, left: nat) returns (labels: seq<Name>)
    requires MoreLabels(input, left).Ok?
    ensures Short(labels) && |Flatten(labels)| == left && Flatten(labels) <= input
    decreases left
  {
    if left == 0 {
      labels := [];
    } else {
      var n: int := input[0];
      var more := MoreLabelsAre(input[1+n..], left - 1 - n);
      labels := [input[1..1+n]] + more;
      FlattenCons(input[1..1+n], more, labels);
      assert input == Prefixed(input[1..1+n]) + input[1+n..];
    }
  }

  /** A name is decoded from what starts with labels making up the element, and is these labels with dots between. */
  lemma {:induction false} LabelsAreRead(input: seq<Byte>, taken: nat, left: Byte, labels: seq<Name>)
    requires StartsWith(input, left, labels)
    ensures FirstLabel(input, taken, left) ==
            Ok(Parsed(labels[0] + Dotted(labels[1..]), taken + |Flatten(labels)|))
  {
    var tail := input[|Flatten(labels)|..];
    assert input == Flatten(labels) + tail;
    FlattenSplit(labels, tail);
    AllLabelsRead(labels[0], labels[1..], Flatten(labels[1..]), input, tail, taken, left);
  }

  lemma {:induction false} AllLabelsRead(head: Name, rest: seq<Name>, octets: seq<Byte>, input: seq<Byte>,
                                         tail: seq<Byte>, taken: nat, left: Byte)
    requires |head| < U8 && Short(rest) && octets == Flatten(rest) && input == Prefixed(head) + (octets + tail)
    requires |octets| == Less(left, 1 + |head|)
    ensures FirstLabel(input, taken, left) == Ok(Parsed(head + Dotted(rest), taken + 1 + |head| + |octets|))
  {
    MoreLabelsDecodes(rest, octets + tail, |octets|, tail);
    FrontLabelRead(head, input, octets + tail, taken, left, |octets|, Dotted(rest));
  }

  lemma {:induction false} FrontLabelRead(head: Name, input: seq<Byte>, more: seq<Byte>, taken: nat, left: Byte,
                                          n: nat, item: Name)
    requires |head| < U8 && input == Prefixed(head) + more
    requires n == Less(left, 1 + |head|) && MoreLabels(more, n) == Ok(Parsed(item, n))
    ensures FirstLabel(input, taken, left) == Ok(Parsed(head + item, taken + 1 + |head| + n))
  {
    assert input[1..1+|head|] == head && input[1+|head|..] == more;
  }

  lemma {:induction false} LabelInFront(head: Name, rest: seq<Byte>, left: Byte, more: seq<Name>)
    requires |head| < U8 && Short(more) && Flatten(more) <= rest && |Flatten(more)| == Less(left, 1 + |head|)
    ensures StartsWith(Prefixed(head) + rest, left, [head] + more)
  {
    FlattenCons(head, more, [head] + more);
  }

  lemma {:induction false} ReadNameHolds(input: seq<Byte>, taken: nat, left: Byte)
    requires input != [] && FirstLabel(input, taken, left).Ok?
    ensures HoldsName(input, left)
  {
    var n: int := input[0];
    var head, rest := input[1..1+n], input[1+n..];
    var more := MoreLabelsAre(rest, Less(left, 1 + n));
    LabelInFront(head, rest, left, more);
    PutBack(input, n);
  }

  lemma PutBack(input: seq<Byte>, n: Byte)
    requires |input| >= 1 + n && input[0] == n
    ensures Prefixed(input[1..1+n]) + input[1+n..] == input
  {
  }

  /** And from nothing else. */
  lemma {:induction false} NameReadIff(input: seq<Byte>, taken: nat, left: Byte)
    requires input != []
    ensures FirstLabel(input, taken, left).Ok? <==> HoldsName(input, left)
  {
    if FirstLabel(input, taken, left).Ok? {
      ReadNameHolds(input, taken, left);
    } else if HoldsName(input, left) {
      var labels :| StartsWith(input, left, labels);
      LabelsAreRead(input, taken, left, labels);
    }
  }

  /** When an element is decoded to a name: its header is right, and labels make up what it says is its length. */
  lemma {:induction false} DecodesIff(present: bool, buffer: seq<Byte>)
    ensures (Decode(present, buffer).Ok? && Decode(present, buffer).value.item.Some?) <==>
            var h := if present then 2 else 1;
            && |buffer| > h && (present ==> buffer[0] == 0x28) && 2 <= buffer[h-1] <= |buffer| - h
            && HoldsName(buffer[h..], buffer[h-1])
  {
    var h := if present then 2 else 1;
    if |buffer| > h {
      NameReadIff(buffer[h..], h, buffer[h-1]);
    }
  }

  /** Why it refuses the rest before it comes to a label, and when there is no name. */
  lemma DecodeFails(present: bool, buffer: seq<Byte>)
    ensures var r := Decode(present, buffer);
            var h := if present then 2 else 1;
            && (r == Err(UnexpectedIei) <==> |buffer| > h && present && buffer[0] != 0x28)
            && (r == Err(BufferTooShort) <==>
                  |buffer| <= h || ((present ==> buffer[0] == 0x28) && buffer[h-1] > |buffer| - h))
            && (r == Ok(Parsed(None, h)) <==>
                  |buffer| > h && (present ==> buffer[0] == 0x28) && buffer[h-1] <= 1 && buffer[h-1] <= |buffer| - h)
  {
    var h := if present then 2 else 1;
    if |buffer| > h {
      FirstLabelErrors(buffer[h..], h, buffer[h-1]);
    }
  }

  lemma {:induction false} MoreLabelsErrors(input: seq<Byte>, left: nat)
    ensures MoreLabels(input, left).Err? ==> MoreLabels(input, left).error in {AssertionFailed, ReadPastEnd}
    decreases left
  {
    if left == 0 || input == [] || left - 1 < input[0] || |input| < 1 + input[0] as int {
    } else {
      MoreLabelsErrors(input[1 + input[0] as int..], left - 1 - input[0]);
    }
  }

  lemma FirstLabelErrors(input: seq<Byte>, taken: nat, left: Byte)
    requires input != []
    ensures FirstLabel(input, taken, left).Err? ==>
              FirstLabel(input, taken, left).error in {AssertionFailed, ReadPastEnd}
  {
    var n: int := input[0];
    if |input| >= 1 + n {
      MoreLabelsErrors(input[1+n..], Less(left, 1 + n));
    }
  }

  /** Behind these labels comes one that is longer than what is left of the element. */
  ghost predicate TooLongBehind(input: seq<Byte>, left: nat, labels: seq<Name>) {
    && Short(labels)
    && var n := |Flatten(labels)|;
    && n < left && n < |input| && Flatten(labels) <= input && n + 1 + input[n] as int > left
  }

  lemma {:induction false} TooLongIs(input: seq<Byte>, left: nat) returns (labels: seq<Name>)
    requires MoreLabels(input, left) == Err(AssertionFailed)
    ensures TooLongBehind(input, left, labels)
    decreases left
  {
    var n: int := input[0];
    if left - 1 < n {
      labels := [];
    } else {
      var more := TooLongIs(input[1+n..], left - 1 - n);
      labels := [input[1..1+n]] + more;
      FlattenCons(input[1..1+n], more, labels);
      PutBack(input, n);
    }
  }

  lemma {:induction false} MoreLabelsBehind(labels: seq<Name>, input: seq<Byte>, n: nat, more: seq<Byte>, left: nat,
                                            error: Error)
    requires Short(labels) && input == Flatten(labels) + more && n == |Flatten(labels)| + left
    requires MoreLabels(more, left) == Err(error)
    ensures MoreLabels(input, n) == Err(error)
    decreases |labels|
  {
    if labels == [] {
      assert input == more;
    } else {
      var octets := Flatten(labels[1..]);
      FlattenSplit(labels, more);
      MoreLabelsBehind(labels[1..], octets + more, |octets| + left, more, left, error);
      OneMoreFails(labels[0], input, n, octets + more, |octets| + left, error);
    }
  }

  lemma {:induction false} OneMoreFails(head: Name, input: seq<Byte>, n: nat, more: seq<Byte>, left: nat, error: Error)
    requires |head| < U8 && input == Prefixed(head) + more && n == 1 + |head| + left
    requires MoreLabels(more, left) == Err(error)
    ensures MoreLabels(input, n) == Err(error)
  {
    MoreLabelsStep(head, more, left);
  }

  /** The decoder's assertion fails exactly at such a label; any other failure reads past the buffer. */
  lemma {:induction false} AssertionFailsIff(input: seq<Byte>, left: nat)
    ensures MoreLabels(input, left) == Err(AssertionFailed) <==> exists labels :: TooLongBehind(input, left, labels)
  {
    if MoreLabels(input, left) == Err(AssertionFailed) {
      var labels := TooLongIs(input, left);
    } else if exists labels :: TooLongBehind(input, left, labels) {
      var labels :| TooLongBehind(input, left, labels);
      TooLongFails(input, left, labels);
    }
  }

  lemma {:induction false} TooLongFails(input: seq<Byte>, left: nat, labels: seq<Name>)
    requires TooLongBehind(input, left, labels)
    ensures MoreLabels(input, left) == Err(AssertionFailed)
  {
    var octets := Flatten(labels);
    var more := input[|octets|..];
    assert input == octets + more;
    AtOnceTooLong(more, left - |octets|);
    MoreLabelsBehind(labels, input, left, more, left - |octets|, AssertionFailed);
  }

  lemma AtOnceTooLong(input: seq<Byte>, left: nat)
    requires input != [] && 0 < left < 1 + input[0] as int
    ensures MoreLabels(input, left) == Err(AssertionFailed)
  {
  }

  /** The encoder's outcome: with an identifier it asks for 102 octets beforehand, however short the name. */
  lemma EncodeResultIs(present: bool, name: Name, length: nat)
    ensures var r := EncodeResult(present, name, length);
            var h := if present then 2 else 1;
            && (r.Ok? <==> |name| <= 101 && h + 1 + |name| <= length && (present ==> length >= 102))
            && (r.Ok? ==> r.value == h + 1 + |name|)
            && (r == Err(WritePastEnd) <==> |name| >= 102 && length >= (if present then 102 else 2))
            && (r.Err? ==> r.error in {BufferTooShort, WritePastEnd})
  {
  }
}
