/**
  The class IPv4Counter: two presence masks that `Add` updates in place,
  `Count` reads and `Clear` empties, and the reading of an address text.
*/
module Counter {
  import opened Wrappers
  import opened Addresses
  import opened Parsing
  import opened Presence

  class IPv4Counter {
    /** The marked bits of the mask for address values up to and including Integer.MAX_VALUE. */
    var lowerPresenceSet: set<int>
    /** The marked bits of the mask for the other address values. */
    var higherPresenceSet: set<int>

    /** Every marked bit is an index a BitSet accepts: a non-negative int. */
    ghost predicate Valid()
      reads this
    {
      && (forall b :: b in lowerPresenceSet ==> 0 <= b <= IntMax)
      && (forall b :: b in higherPresenceSet ==> 0 <= b <= IntMax)
    }

    /** Both masks as a value. */
    function State(): Masks
      reads this
    {
      Masks(lowerPresenceSet, higherPresenceSet)
    }

    /** A new counter has no bit marked. */
    constructor ()
      ensures Valid() && State() == Empty && Count() == 0
    {
      lowerPresenceSet := {};
      higherPresenceSet := {};
    }

    /**
      getIPAddressAsLong: split on dots, then for each of the first four
      components parse it and add it in with weight 256^(3 - index).
    */
    static method GetIPAddressAsLong(address: string) returns (r: Result<int, Error>)
      ensures r == AddressOf(address)
    {
      var octets := Split(address);
      var ipAddressAsLong := 0;
      var octetIndex := 0;
      while octetIndex < 4
        invariant 0 <= octetIndex <= 4
        invariant ReadComponents(octets, octetIndex).Ok?
        invariant ipAddressAsLong == Weighted(ReadComponents(octets, octetIndex).value)
      {
        ghost var read := ReadComponents(octets, octetIndex).value;
        if octetIndex >= |octets| {
          ReadComponentsFailureSticks(octets, octetIndex + 1, 4);
          return Err(MissingComponent(octetIndex));
        }
        var intOctet := ParseInt(octets[octetIndex]);
        if intOctet.None? {
          ReadComponentsFailureSticks(octets, octetIndex + 1, 4);
          return Err(NumberFormat(octets[octetIndex]));
        }
        ipAddressAsLong := ipAddressAsLong + intOctet.value * Pow256(3 - octetIndex);
        assert (read + [intOctet.value])[..octetIndex] == read;
        octetIndex := octetIndex + 1;
      }
      WeightedFour(ReadComponents(octets, 4).value);
      r := Ok(ipAddressAsLong);
    }

    /**
      add: read the address, then mark its bit in one of the two masks. A
      failure (an exception in the source) leaves both masks as they were.
    */
    method Add(address: string) returns (failure: Option<Error>)
      requires Valid()
      modifies this
      ensures Valid()
      ensures failure.None? <==> AddText(old(State()), address).Ok?
      ensures failure.None? ==> State() == AddText(old(State()), address).value
      ensures failure.Some? ==> AddText(old(State()), address) == Err(failure.value)
      ensures failure.Some? ==> State() == old(State())
      ensures old(Count()) <= Count() <= old(Count()) + 1
    {
      var ipAsLong := GetIPAddressAsLong(address);
      if ipAsLong.Err? {
        return Some(ipAsLong.error);
      }
      AddTextOfValue(State(), address, ipAsLong.value);
      failure := SetPresenceBit(ipAsLong.value);
      if failure.None? {
        AddTextSize(old(State()), address);
      }
    }

    /**
      The second half of add: mark the bit of an address value, with the
      comparison on Integer.MAX_VALUE corrected from `<` to `<=`.
    */
    method SetPresenceBit(ipAsLong: int) returns (failure: Option<Error>)
      requires Valid()
      modifies this
      ensures Valid()
      ensures failure.None? <==> IntendedSlot(ipAsLong).Ok?
      ensures failure.None? ==> State() == Mark(old(State()), IntendedSlot(ipAsLong).value)
      ensures failure.Some? ==> IntendedSlot(ipAsLong) == Err(failure.value) && State() == old(State())
    {
      if ipAsLong <= IntMax {
        var presenceBitIndex := ToInt32(ipAsLong);
        if presenceBitIndex < 0 {
          return Some(NegativeBitIndex(presenceBitIndex));
        }
        lowerPresenceSet := lowerPresenceSet + {presenceBitIndex};
      } else {
        var presenceBitIndex := ToInt32(ipAsLong - IntMax);
        var bit := if presenceBitIndex == 0 then presenceBitIndex else ToInt32(presenceBitIndex - 1);
        if bit < 0 {
          return Some(NegativeBitIndex(bit));
        }
        higherPresenceSet := higherPresenceSet + {bit};
      }
      failure := None;
    }

    /** count: the number of marked bits in both masks together. */
    function Count(): (n: nat)
      reads this
      ensures n == |Occupancy(State())|
    {
      SizeIsOccupancy(State());
      |lowerPresenceSet| + |higherPresenceSet|
    }

    /** clear: unmark every bit of both masks. */
    method Clear()
      modifies this
      ensures Valid() && State() == Empty && Count() == 0
    {
      lowerPresenceSet := {};
      higherPresenceSet := {};
    }
  }
}
