/** Octet buffers and the outcomes of the information element codecs. */
module Tlv {

  type Byte = b: int | 0 <= b < 0x100

  datatype Error =
    | BufferTooShort
    | UnexpectedIei
    | ValueDoesntMatch
    | AssertionFailed // the source aborts
    | ReadPastEnd     // the source reads outside the given buffer
    | WritePastEnd    // the source writes outside its buffer or array

  datatype Result<+T> = Ok(value: T) | Err(error: Error)

  /** A decoded value and the number of octets it took. */
  datatype Parsed<+T> = Parsed(item: T, consumed: nat)

  lemma Reassociate(a: seq<Byte>, b: seq<Byte>, c: seq<Byte>)
    ensures (a + b) + c == a + (b + c)
  {
  }

  /** Filling in the length octet, between what is before it and the options. */
  lemma LengthSet(buffer: seq<Byte>, iei: seq<Byte>, octets: seq<Byte>, n: nat, length: Byte)
    requires n == |iei| + 1 + |octets| <= |buffer|
    requires buffer[..|iei|] == iei && buffer[|iei| + 1..n] == octets
    ensures buffer[|iei| := length][..n] == iei + [length] + octets
    ensures buffer[|iei| := length][n..] == buffer[n..]
  {
  }

  /** Copies octets into a buffer, if they fit; both `encode_bstring` and `memcpy` of the source. */
  method CopyInto(bytes: seq<Byte>, buffer: array<Byte>, at: nat) returns (ok: bool)
    requires at <= buffer.Length
    modifies buffer
    ensures ok <==> at + |bytes| <= buffer.Length
    ensures ok ==> buffer[..at + |bytes|] == old(buffer[..at]) + bytes
    ensures ok ==> buffer[at + |bytes|..] == old(buffer[at + |bytes|..])
    ensures !ok ==> buffer[..] == old(buffer[..])
  {
    if buffer.Length - at < |bytes| {
      return false;
    }
    for i := 0 to |bytes|
      invariant buffer[..at] == old(buffer[..at])
      invariant buffer[at..at + i] == bytes[..i]
      invariant buffer[at + |bytes|..] == old(buffer[at + |bytes|..])
    {
      buffer[at + i] := bytes[i];
    }
    assert buffer[..at + |bytes|] == buffer[..at] + buffer[at..at + |bytes|];
    return true;
  }
}
