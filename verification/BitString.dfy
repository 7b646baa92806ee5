/** ASN.1 bit strings as unsigned integers. */
module BitString {
  import opened Arithmetic
  import opened Common
  import opened Tlv

  function Pow2(n: nat): (r: nat)
    ensures r > 0
  {
    if n == 0 then 1 else 2 * Pow2(n - 1)
  }

  /** The big-endian value of octets. */
  function Value(octets: seq<Byte>): nat {
    if octets == [] then 0 else Value(octets[..|octets|-1]) * U8 + octets[|octets|-1]
  }

  /** The number in a bit string whose last `unused` bits do not count. */
  function Number(octets: seq<Byte>, unused: nat): nat {
    ShiftRight(Value(octets), unused)
  }

  // ---- Bit operations ----

  function Or(a: nat, b: nat): nat {
    if a == 0 then b
    else if b == 0 then a
    else 2 * Or(a / 2, b / 2) + if a % 2 == 1 || b % 2 == 1 then 1 else 0
  }

  function ShiftLeft(a: nat, n: nat): nat {
    a * Pow2(n)
  }

  function ShiftRight(a: nat, n: nat): nat {
    DivMonotone(0, a, Pow2(n));
    a / Pow2(n)
  }

  /** Where no two bits meet, or is addition. */
  lemma {:induction false} OrAdds(a: nat, b: nat, k: nat)
    requires b < Pow2(k)
    ensures Or(a * Pow2(k), b) == a * Pow2(k) + b
  {
    if k == 0 {
    } else if a * Pow2(k) != 0 && b != 0 {
      var half := a * Pow2(k - 1);
      assert a * Pow2(k) == 2 * half;
      OrAdds(a, b / 2, k - 1);
    }
  }

  lemma {:induction false} Pow2Adds(a: nat, b: nat)
    ensures Pow2(a + b) == Pow2(a) * Pow2(b)
  {
    if a == 0 {
    } else {
      Pow2Adds(a - 1, b);
      assert a - 1 + b == a + b - 1;
      Doubled(Pow2(a - 1), Pow2(b));
    }
  }

  lemma Doubled(x: nat, y: nat)
    ensures 2 * (x * y) == (2 * x) * y
  {
  }

  lemma Pow2Eight()
    ensures Pow2(8) == U8
  {
    assert Pow2(4) == 16;
  }

  /** Adding one octet below an accumulated value that is shifted `shift + 8` places up. */
  lemma OneMoreOctet(v: nat, b: Byte, shift: nat)
    ensures Or(v * Pow2(shift + 8), ShiftLeft(b, shift)) == (v * U8 + b) * Pow2(shift)
  {
    Pow2Adds(shift, 8);
    Pow2Eight();
    OctetBelow(b, Pow2(shift));
    OrAdds(v, b * Pow2(shift), shift + 8);
    Distributes(v, b, Pow2(shift));
  }

  lemma OctetBelow(b: Byte, p: nat)
    requires p > 0
    ensures 0 <= b * p < p * U8
  {
  }

  lemma Distributes(v: nat, b: Byte, p: nat)
    ensures v * (p * U8) + b * p == (v * U8 + b) * p
  {
  }

  /** The last octet, from which the unused bits are shifted out. */
  lemma LastOctet(v: nat, b: Byte, unused: nat)
    requires unused < 8
    ensures Or(v * Pow2(8 - unused), ShiftRight(b, unused)) == (v * U8 + b) / Pow2(unused)
  {
    Pow2Adds(8 - unused, unused);
    Pow2Eight();
    var hi, lo := Pow2(8 - unused), Pow2(unused);
    assert v * U8 == (v * hi) * lo;
    DivShift(v * hi, b, lo);
    QuotientBelow(b, lo, hi);
    OrAdds(v, b / lo, 8 - unused);
  }

  /** A bit string's number has as many bits as count, so each conversion's result type holds it. */
  lemma {:induction false} NumberFits(octets: seq<Byte>, unused: nat)
    requires unused < 8 && octets != []
    ensures Number(octets, unused) < Pow2(8 * |octets| - unused)
  {
    ValueFits(octets);
    Pow2Adds(8 * |octets| - unused, unused);
    QuotientBelow(Value(octets), Pow2(unused), Pow2(8 * |octets| - unused));
  }

  lemma {:induction false} ValueFits(octets: seq<Byte>)
    ensures Value(octets) < Pow2(8 * |octets|)
  {
    if octets == [] {
    } else {
      var n := |octets| - 1;
      ValueFits(octets[..n]);
      Pow2Adds(8 * n, 8);
      Pow2Eight();
    }
  }

  // ---- The conversions ----

  /** The 8-bit form takes a single octet. */
  method ToUint8(octets: seq<Byte>, unused: nat) returns (result: nat)
    requires |octets| == 1 && unused < 8
    ensures result == Number(octets, unused)
  {
    result := ShiftRight(octets[0], unused);
    assert octets[..0] == [] && Value(octets) == octets[0];
  }

  /** The 16-bit form: the case for two octets falls through to the one for one. */
  method ToUint16(octets: seq<Byte>, unused: nat) returns (result: nat)
    requires 0 < |octets| <= 2 && unused < 8
    ensures result == Number(octets, unused)
  {
    result := 0;
    var index := 0;
    assert octets[..0] == [];
    if |octets| == 2 {
      result := Or(result, ShiftLeft(octets[0], 8 - unused));
      index := 1;
      assert octets[..1][..0] == [] && Value(octets[..1]) == octets[0];
    }
    LastOctet(Value(octets[..index]), octets[index], unused);
    result := Or(result, ShiftRight(octets[index], unused));
    assert octets[..|octets|-1] == octets[..index];
  }

  /** The value bits of the promoted operand: an `int` in the source, unlimited for mathematical integers. */
  datatype Width = Unlimited | ValueBits(n: nat)

  const INT := ValueBits(31)

  /** A left shift of a signed operand is defined if the result fits and the distance is less than the width. */
  predicate ShiftDefined(b: Byte, shift: nat, width: Width) {
    width.ValueBits? ==> shift <= width.n && ShiftLeft(b, shift) < Pow2(width.n)
  }

  /** All left shifts of the loop are defined: it comes down to the first octet. */
  predicate Convertible(octets: seq<Byte>, unused: nat, width: Width)
    requires 0 < |octets| && unused < 8
  {
    |octets| == 1 || ShiftDefined(octets[0], (|octets| - 1) * 8 - unused, width)
  }

  lemma {:induction false} Pow2Monotone(a: nat, b: nat)
    requires a <= b
    ensures Pow2(a) <= Pow2(b)
  {
    if a == b {
    } else {
      Pow2Monotone(a, b - 1);
    }
  }

  lemma LaterShiftDefined(first: Byte, from: nat, b: Byte, shift: nat, width: Width)
    requires ShiftDefined(first, from, width) && shift + 8 <= from
    ensures ShiftDefined(b, shift, width)
  {
    if width.ValueBits? {
      Pow2Adds(shift, 8);
      Pow2Eight();
      OctetBelow(b, Pow2(shift));
      Pow2Monotone(shift + 8, width.n);
    }
  }

  /**
    The loop shared by the 32- and 64-bit forms, for any number of octets;
    none if one of its shifts is undefined.
  */
  method ToUint(octets: seq<Byte>, unused: nat, width: Width) returns (r: Option<nat>)
    requires 0 < |octets| && unused < 8
    ensures r == if Convertible(octets, unused, width) then Some(Number(octets, unused)) else None
  {
    var result: nat := 0;
    var shift := (|octets| - 1) * 8 - unused;
    ghost var from := shift;
    assert octets[..0] == [];
    var index := 0;
    while index < |octets| - 1
      invariant 0 <= index <= |octets| - 1
      invariant shift == (|octets| - 1 - index) * 8 - unused
      invariant result == Value(octets[..index]) * Pow2(shift + 8)
      invariant index > 0 ==> shift + 8 <= from && ShiftDefined(octets[0], from, width)
    {
      if index > 0 {
        LaterShiftDefined(octets[0], from, octets[index], shift, width);
      }
      if !ShiftDefined(octets[index], shift, width) {
        return None;
      }
      ValueSnoc(octets, index, shift);
      result := Or(result, ShiftLeft(octets[index], shift));
      shift := shift - 8;
      index := index + 1;
    }
    LastOctet(Value(octets[..index]), octets[index], unused);
    result := Or(result, ShiftRight(octets[index], unused));
    assert octets[..|octets|-1] == octets[..index];
    return Some(result);
  }

  lemma ValueSnoc(octets: seq<Byte>, index: nat, shift: nat)
    requires index < |octets|
    ensures Or(Value(octets[..index]) * Pow2(shift + 8), ShiftLeft(octets[index], shift)) ==
            Value(octets[..index+1]) * Pow2(shift)
  {
    OneMoreOctet(Value(octets[..index]), octets[index], shift);
    assert octets[..index+1][..index] == octets[..index];
  }

  /** With an `int`, up to three octets are always converted, and more than five never. */
  lemma IntConverts(octets: seq<Byte>, unused: nat)
    requires 0 < |octets| && unused < 8
    ensures |octets| <= 3 ==> Convertible(octets, unused, INT)
    ensures Convertible(octets, unused, INT) ==> |octets| <= 5
  {
    if 1 < |octets| <= 3 {
      var shift := (|octets| - 1) * 8 - unused;
      Pow2Adds(shift, 8);
      Pow2Eight();
      OctetBelow(octets[0], Pow2(shift));
      Pow2Monotone(shift + 8, 31);
    }
  }

  /** The first octet is the most significant one. */
  lemma {:induction false} FirstOctetGreatest(b: Byte, rest: seq<Byte>)
    ensures Value([b] + rest) == b * Pow2(8 * |rest|) + Value(rest)
    decreases |rest|
  {
    if rest == [] {
      assert ([b] + rest)[..0] == [];
    } else {
      var init, last := rest[..|rest|-1], rest[|rest|-1];
      FirstOctetGreatest(b, init);
      assert ([b] + rest)[..|rest|] == [b] + init;
      Pow2Adds(8 * |init|, 8);
      Pow2Eight();
      assert (b * Pow2(8 * |init|)) * U8 == b * (Pow2(8 * |init|) * U8);
    }
  }
}
