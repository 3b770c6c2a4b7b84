/**
  The 32-bit IPv4 address value of section 3.1 of RFC 791, built from four
  octets with the first octet as the most significant byte, and the exceptions
  that counting an address can raise.
*/
module Addresses {
  import opened Wrappers

  /** Integer.MIN_VALUE and Integer.MAX_VALUE. */
  const IntMin: int := -0x8000_0000
  const IntMax: int := 0x7FFF_FFFF

  /** One past the largest address value, 2^32. */
  const AddressSpace: int := 0x1_0000_0000

  /** The exceptions that IPv4Counter.add can raise. */
  datatype Error =
    | MissingComponent(index: nat)     // ArrayIndexOutOfBoundsException on octets[index]
    | NumberFormat(component: string)  // NumberFormatException from Integer.parseInt
    | NegativeBitIndex(bitIndex: int)   // IndexOutOfBoundsException from BitSet.set

  /** Four components of a dotted-decimal address, first (most significant) first. */
  datatype Octets = Octets(first: int, second: int, third: int, fourth: int)
  {
    predicate InRange() {
      0 <= first <= 255 && 0 <= second <= 255 && 0 <= third <= 255 && 0 <= fourth <= 255
    }
  }

  /** The address value of four octets. */
  function Value(o: Octets): (v: int)
    ensures o.InRange() ==> 0 <= v < AddressSpace
  {
    o.first * 16777216 + o.second * 65536 + o.third * 256 + o.fourth
  }

  /** The octets of an address value: the inverse of `Value` on [0, 2^32). */
  function OctetsOf(v: int): Octets
  {
    Octets(v / 16777216, v / 65536 % 256, v / 256 % 256, v % 256)
  }

  // ---------------------------------------------------------------------------
  // The address value
  // ---------------------------------------------------------------------------

  /** Every address value in [0, 2^32) is the value of exactly its own octets. */
  lemma OctetsOfValue(v: int)
    requires 0 <= v < AddressSpace
    ensures OctetsOf(v).InRange() && Value(OctetsOf(v)) == v
  {
    assert v == v / 256 * 256 + v % 256;
    assert v / 256 == v / 65536 * 256 + v / 256 % 256;
    assert v / 65536 == v / 16777216 * 256 + v / 65536 % 256;
  }

  /** Four octets in range are recovered from their value. */
  lemma ValueOfOctets(o: Octets)
    requires o.InRange()
    ensures OctetsOf(Value(o)) == o
  {
    var v := Value(o);
    var low := o.second * 65536 + o.third * 256 + o.fourth;
    assert v == o.first * 16777216 + low && 0 <= low < 16777216;
    assert v / 16777216 == o.first;
    assert v / 65536 == o.first * 256 + o.second;
    assert v / 256 == o.first * 65536 + o.second * 256 + o.third;
  }

  /** Distinct octets in range have distinct values. */
  lemma ValueInjective(o: Octets, p: Octets)
    requires o.InRange() && p.InRange()
    ensures Value(o) == Value(p) <==> o == p
  {
    if Value(o) == Value(p) {
      ValueOfOctets(o);
      ValueOfOctets(p);
    }
  }

  /** The first octet outweighs the other three together. */
  lemma FirstOctetMostSignificant(o: Octets, p: Octets)
    requires o.InRange() && p.InRange()
    requires o.first < p.first
    ensures Value(o) < Value(p)
  {
  }
}
