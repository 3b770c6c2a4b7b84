/**
  The presence masks of IPv4Counter. The class keeps two java.util.BitSet
  masks whose bit indices are Java ints, so the 2^32 address values are spread
  over the two: `add` marks one bit of one mask per address value, `count`
  adds up the numbers of marked bits and `clear` unmarks everything.

  Each mask is modelled as the set of its marked bit indices; a `Slot` names
  one bit of one mask.

  The comparison `IPAsLong < Integer.MAX_VALUE` that chooses the mask sends
  127.255.255.255 and 128.0.0.0 to the same bit. `SlotOf` keeps it as written
  and the lemmas about it show the collision; `IntendedSlot` reads `<=`, and
  `add` in this model (`TextSlot`, `AddText`, the class) uses that one.
*/
module Presence {
  import opened Wrappers
  import opened Addresses
  import opened Parsing
  import DottedText

  /** 2^31, the first address value that does not fit in a Java int. */
  const Two31: int := 0x8000_0000

  /** Java's narrowing conversion (int) of a long: the low 32 bits, read as two's complement. */
  function ToInt32(x: int): (r: int)
    ensures IntMin <= r <= IntMax
    ensures IntMin <= x <= IntMax ==> r == x
  {
    (x + Two31) % AddressSpace - Two31
  }

  /** The narrowing keeps the value modulo 2^32. */
  lemma ToInt32Congruent(x: int)
    ensures (x - ToInt32(x)) % AddressSpace == 0
  {
  }

  /** One bit of the lower or of the higher presence mask. */
  datatype Slot = Lower(bit: int) | Higher(bit: int)

  // ---------------------------------------------------------------------------
  // Where add puts an address value
  // ---------------------------------------------------------------------------

  /**
    The bit IPv4Counter.add marks for the value `v` read from its argument,
    with its comparison and int arithmetic exactly as written; BitSet.set
    throws on a negative index.
  */
  function SlotOf(v: int): (r: Result<Slot, Error>)
    ensures r.Ok? ==> 0 <= r.value.bit <= IntMax
  {
    if v < IntMax then
      var index := ToInt32(v);
      if index < 0 then Err(NegativeBitIndex(index)) else Ok(Lower(index))
    else
      var index := ToInt32(v - IntMax);
      var bit := if index == 0 then index else ToInt32(index - 1);
      if bit < 0 then Err(NegativeBitIndex(bit)) else Ok(Higher(bit))
  }

  /** Where add as written puts each address value of [0, 2^32), with the int wrap-around worked out. */
  function AddressSlot(v: int): (r: Slot)
    ensures 0 <= v < AddressSpace ==> 0 <= r.bit <= IntMax
    ensures r.Lower? <==> v < IntMax
  {
    if v < IntMax then Lower(v) else if v == IntMax then Higher(0) else Higher(v - Two31)
  }

  /**
    On the whole address space add as written never throws and marks `AddressSlot(v)`:
    values below Integer.MAX_VALUE go to their own bit of the lower mask, values
    from 2^31 on go to bit v - 2^31 of the higher mask (255.255.255.255 through
    two wrap-arounds), and Integer.MAX_VALUE itself goes to bit 0 of the higher mask.
  */
  lemma SlotOfAddress(v: int)
    requires 0 <= v < AddressSpace
    ensures SlotOf(v) == Ok(AddressSlot(v))
    ensures 0 <= AddressSlot(v).bit <= IntMax
  {
    if v == AddressSpace - 1 {
      assert ToInt32(v - IntMax) == IntMin;
      assert ToInt32(IntMin - 1) == IntMax;
    }
  }

  /**
    Two address values share a bit exactly when they are equal or are the pair
    127.255.255.255 (Integer.MAX_VALUE) and 128.0.0.0 (2^31).
  */
  lemma SlotOfShared(u: int, v: int)
    requires 0 <= u < AddressSpace && 0 <= v < AddressSpace
    ensures SlotOf(u) == SlotOf(v) <==> u == v || {u, v} == {IntMax, Two31}
  {
    SlotOfAddress(u);
    SlotOfAddress(v);
    if {u, v} == {IntMax, Two31} {
      assert u == IntMax || u == Two31;
      assert v == IntMax || v == Two31;
    }
  }

  /**
    127.255.255.255 and 128.0.0.0 (see DottedText.LastIntAddress and
    DottedText.FirstLongAddress) are marked
    in the same bit, bit 0 of the higher mask.
  */
  lemma BoundaryCollision()
    ensures SlotOf(IntMax) == SlotOf(Two31) == Ok(Higher(0))
  {
    SlotOfAddress(IntMax);
    SlotOfAddress(Two31);
  }

  /**
    The slot computation as evidently intended: the same arithmetic with
    `IPAsLong <= Integer.MAX_VALUE` in place of `<`. The counter uses this one.
  */
  function IntendedSlot(v: int): (r: Result<Slot, Error>)
    ensures r.Ok? ==> 0 <= r.value.bit <= IntMax
  {
    if v <= IntMax then
      var index := ToInt32(v);
      if index < 0 then Err(NegativeBitIndex(index)) else Ok(Lower(index))
    else
      var index := ToInt32(v - IntMax);
      var bit := if index == 0 then index else ToInt32(index - 1);
      if bit < 0 then Err(NegativeBitIndex(bit)) else Ok(Higher(bit))
  }

  /** Where the intended comparison puts each address value of [0, 2^32). */
  function IntendedAddressSlot(v: int): (r: Slot)
    ensures 0 <= v < AddressSpace ==> 0 <= r.bit <= IntMax
    ensures r.Lower? <==> v < Two31
  {
    if v < Two31 then Lower(v) else Higher(v - Two31)
  }

  /**
    With `<=`, add never throws on the address space: values below 2^31 go to
    their own bit of the lower mask, the others to bit v - 2^31 of the higher
    mask (255.255.255.255 through two wrap-arounds).
  */
  lemma IntendedSlotOfAddress(v: int)
    requires 0 <= v < AddressSpace
    ensures IntendedSlot(v) == Ok(IntendedAddressSlot(v))
    ensures 0 <= IntendedAddressSlot(v).bit <= IntMax
  {
    if v == AddressSpace - 1 {
      assert ToInt32(v - IntMax) == IntMin;
      assert ToInt32(IntMin - 1) == IntMax;
    }
  }

  /** With `<=`, distinct address values always get distinct bits. */
  lemma IntendedSlotInjective(u: int, v: int)
    requires 0 <= u < AddressSpace && 0 <= v < AddressSpace
    ensures IntendedSlot(u) == IntendedSlot(v) <==> u == v
  {
    IntendedSlotOfAddress(u);
    IntendedSlotOfAddress(v);
  }

  /**
    A signed first component can make the value negative. Under either
    comparison a value in [-2^31, 0) is a negative int and BitSet.set throws,
    while a value in [-2^32, -2^31) wraps through the `(int)` cast to the
    non-negative bit v + 2^32 of the lower mask: the bit of another address.
  */
  lemma NegativeValueSlot(v: int)
    requires -AddressSpace <= v < 0
    ensures v >= IntMin ==> SlotOf(v) == IntendedSlot(v) == Err(NegativeBitIndex(v))
    ensures v < IntMin ==> SlotOf(v) == IntendedSlot(v) == Ok(Lower(v + AddressSpace))
  {
    if v < IntMin {
      assert ToInt32(v) == v + AddressSpace;
    } else {
      assert ToInt32(v) == v;
    }
  }

  /** Further below, the cast can give a negative int again: -257.0.0.0 throws. */
  lemma FarNegativeValueThrows()
    ensures SlotOf(Value(Octets(-257, 0, 0, 0))) == IntendedSlot(Value(Octets(-257, 0, 0, 0)))
      == Err(NegativeBitIndex(-16777216))
  {
    assert ToInt32(Value(Octets(-257, 0, 0, 0))) == -16777216;
  }

  /** -129.0.0.0 is marked in the bit of 127.0.0.0. */
  lemma NegativeValueWraps()
    ensures SlotOf(Value(Octets(-129, 0, 0, 0))) == SlotOf(Value(Octets(127, 0, 0, 0)))
    ensures IntendedSlot(Value(Octets(-129, 0, 0, 0))) == IntendedSlot(Value(Octets(127, 0, 0, 0)))
  {
    NegativeValueSlot(Value(Octets(-129, 0, 0, 0)));
    SlotOfAddress(Value(Octets(127, 0, 0, 0)));
    IntendedSlotOfAddress(Value(Octets(127, 0, 0, 0)));
  }

  // ---------------------------------------------------------------------------
  // Cardinality of images
  // ---------------------------------------------------------------------------

  function Image<A, B>(s: set<A>, f: A -> B): set<B>
  {
    set x | x in s :: f(x)
  }

  /** A map that is one-to-one on `s` has as many values on `s` as `s` has elements. */
  lemma {:induction false} InjectiveImage<A, B>(s: set<A>, f: A -> B)
    requires forall x, y :: x in s && y in s && f(x) == f(y) ==> x == y
    ensures |Image(s, f)| == |s|
    decreases |s|
  {
    if s != {} {
      var x :| x in s;
      var rest := s - {x};
      InjectiveImage(rest, f);
      assert Image(s, f) == Image(rest, f) + {f(x)};
      assert f(x) !in Image(rest, f);
    }
  }

  // ---------------------------------------------------------------------------
  // The masks
  // ---------------------------------------------------------------------------

  /** The marked bit indices of lowerPresenceSet and of higherPresenceSet. */
  datatype Masks = Masks(lower: set<int>, higher: set<int>)

  /** Both masks as a new IPv4Counter has them, and as clear leaves them. */
  const Empty: Masks := Masks({}, {})

  /** count(): the cardinalities of the two masks added up. */
  function Size(m: Masks): (n: nat)
    ensures n == 0 <==> m == Empty
  {
    |m.lower| + |m.higher|
  }

  /** The slots that are marked. */
  function Occupancy(m: Masks): set<Slot>
  {
    Image(m.lower, b => Lower(b)) + Image(m.higher, b => Higher(b))
  }

  /** count() is the number of marked slots. */
  lemma SizeIsOccupancy(m: Masks)
    ensures Size(m) == |Occupancy(m)|
  {
    InjectiveImage(m.lower, b => Lower(b));
    InjectiveImage(m.higher, b => Higher(b));
    assert Image(m.lower, b => Lower(b)) !! Image(m.higher, b => Higher(b));
  }

  /** The marked slots determine both masks. */
  lemma OccupancyDetermines(m: Masks, n: Masks)
    requires Occupancy(m) == Occupancy(n)
    ensures m == n
  {
    forall b | b in m.lower ensures b in n.lower {
      assert Lower(b) in Occupancy(m);
    }
    forall b | b in n.lower ensures b in m.lower {
      assert Lower(b) in Occupancy(n);
    }
    forall b | b in m.higher ensures b in n.higher {
      assert Higher(b) in Occupancy(m);
    }
    forall b | b in n.higher ensures b in m.higher {
      assert Higher(b) in Occupancy(n);
    }
  }

  /** BitSet.set: mark one bit of one mask; the other mask is left alone. */
  function Mark(m: Masks, s: Slot): (r: Masks)
    ensures s.Lower? ==> r.higher == m.higher && s.bit in r.lower && m.lower <= r.lower
    ensures s.Higher? ==> r.lower == m.lower && s.bit in r.higher && m.higher <= r.higher
  {
    match s
    case Lower(b) => m.(lower := m.lower + {b})
    case Higher(b) => m.(higher := m.higher + {b})
  }

  lemma ImageAdd<A, B>(s: set<A>, x: A, f: A -> B)
    ensures Image(s + {x}, f) == Image(s, f) + {f(x)}
  {
  }

  /** Marking a slot adds it, and nothing else, to the marked slots. */
  lemma MarkOccupancy(m: Masks, s: Slot)
    ensures Occupancy(Mark(m, s)) == Occupancy(m) + {s}
  {
    match s
    case Lower(b) => ImageAdd(m.lower, b, b => Lower(b));
    case Higher(b) => ImageAdd(m.higher, b, b => Higher(b));
  }

  /** Marking adds one to count() exactly when the slot was not yet marked. */
  lemma MarkSize(m: Masks, s: Slot)
    ensures Size(Mark(m, s)) == if s in Occupancy(m) then Size(m) else Size(m) + 1
  {
    SizeIsOccupancy(m);
    SizeIsOccupancy(Mark(m, s));
    MarkOccupancy(m, s);
    if s in Occupancy(m) {
      assert Occupancy(m) + {s} == Occupancy(m);
    } else {
      assert |Occupancy(m) + {s}| == |Occupancy(m)| + 1;
    }
  }

  // ---------------------------------------------------------------------------
  // add, and a run of adds
  // ---------------------------------------------------------------------------

  /** The slot add(text) marks, or the exception it raises. */
  function TextSlot(text: string): (r: Result<Slot, Error>)
    ensures AddressOf(text).Err? ==> r == Err(AddressOf(text).error)
    ensures r.Ok? ==> 0 <= r.value.bit <= IntMax
  {
    match AddressOf(text)
    case Err(e) => Err(e)
    case Ok(v) => IntendedSlot(v)
  }

  /** The masks after add(text), or the exception it raises (the masks are then unchanged). */
  function AddText(m: Masks, text: string): (r: Result<Masks, Error>)
    ensures r.Ok? <==> TextSlot(text).Ok?
    ensures r.Ok? ==> Occupancy(r.value) == Occupancy(m) + {TextSlot(text).value}
  {
    match TextSlot(text)
    case Err(e) => Err(e)
    case Ok(s) => MarkOccupancy(m, s); Ok(Mark(m, s))
  }

  /** A step of the proof of add: AddText after the text has been read as `v`. */
  lemma AddTextOfValue(m: Masks, text: string, v: int)
    requires AddressOf(text) == Ok(v)
    ensures AddText(m, text) == match IntendedSlot(v)
      case Err(e) => Err(e)
      case Ok(s) => Ok(Mark(m, s))
  {
  }

  /**
    add of a text that reads as an address value marks the bit of that value:
    bit v of the lower mask below 2^31, bit v - 2^31 of the higher one above.
  */
  lemma AddTextOfAddress(m: Masks, text: string)
    requires AddressOf(text).Ok? && 0 <= AddressOf(text).value < AddressSpace
    ensures AddText(m, text) == Ok(Mark(m, IntendedAddressSlot(AddressOf(text).value)))
  {
    IntendedSlotOfAddress(AddressOf(text).value);
  }

  /** Adding the same text a second time changes nothing. */
  lemma AddTextIdempotent(m: Masks, text: string)
    requires AddText(m, text).Ok?
    ensures AddText(AddText(m, text).value, text) == AddText(m, text)
  {
    var s := TextSlot(text).value;
    var m' := Mark(m, s);
    MarkOccupancy(m, s);
    MarkOccupancy(m', s);
    OccupancyDetermines(Mark(m', s), m');
  }

  /** add never lowers count() and raises it by at most one. */
  lemma AddTextSize(m: Masks, text: string)
    requires AddText(m, text).Ok?
    ensures Size(m) <= Size(AddText(m, text).value) <= Size(m) + 1
  {
    MarkSize(m, TextSlot(text).value);
  }

  /**
    A run of adds, given what each add computes: the slot it marks or the
    exception it raises. The first exception ends the run, as it ends the loop
    over the input lines.
  */
  function MarkRun(m: Masks, outcomes: seq<Result<Slot, Error>>): (r: Result<Masks, Error>)
    ensures r.Err? ==> Err(r.error) in outcomes
    decreases |outcomes|
  {
    if outcomes == [] then Ok(m)
    else
      match outcomes[0]
      case Err(e) => Err(e)
      case Ok(s) => MarkRun(Mark(m, s), outcomes[1..])
  }

  /** What add computes for each text. */
  function Outcomes(texts: seq<string>): (r: seq<Result<Slot, Error>>)
    ensures |r| == |texts|
  {
    seq(|texts|, i requires 0 <= i < |texts| => TextSlot(texts[i]))
  }

  /** add applied to each text in turn. */
  function AddAll(m: Masks, texts: seq<string>): (r: Result<Masks, Error>)
    ensures r.Err? ==> exists i :: 0 <= i < |texts| && TextSlot(texts[i]) == Err(r.error)
  {
    MarkRun(m, Outcomes(texts))
  }

  /** A run fails exactly when one of its adds throws, and then with the first exception. */
  lemma {:induction false} MarkRunFails(m: Masks, outcomes: seq<Result<Slot, Error>>)
    ensures MarkRun(m, outcomes).Err? <==> exists i :: 0 <= i < |outcomes| && outcomes[i].Err?
    ensures MarkRun(m, outcomes).Err? ==>
      exists i :: (0 <= i < |outcomes| && outcomes[i] == Err(MarkRun(m, outcomes).error)
        && forall j :: 0 <= j < i ==> outcomes[j].Ok?)
    decreases |outcomes|
  {
    if outcomes != [] && outcomes[0].Ok? {
      var rest := outcomes[1..];
      MarkRunFails(Mark(m, outcomes[0].value), rest);
      if exists i :: 0 <= i < |outcomes| && outcomes[i].Err? {
        var i :| 0 <= i < |outcomes| && outcomes[i].Err?;
        assert rest[i - 1] == outcomes[i];
        var k :| 0 <= k < |rest| && rest[k] == Err(MarkRun(m, outcomes).error)
          && forall j :: 0 <= j < k ==> rest[j].Ok?;
        assert outcomes[k + 1] == rest[k];
        forall j | 0 <= j < k + 1 ensures outcomes[j].Ok? {
          if j > 0 {
            assert outcomes[j] == rest[j - 1];
          }
        }
      }
    } else if outcomes != [] {
      assert outcomes[0] == Err(MarkRun(m, outcomes).error);
    }
  }

  /** The slots a run of adds marks. */
  function Marked(outcomes: seq<Result<Slot, Error>>): set<Slot>
  {
    set r | r in outcomes && r.Ok? :: r.value
  }

  /** A run that succeeds marks exactly the slots of its adds, whatever their order. */
  lemma {:induction false} MarkRunOccupancy(m: Masks, outcomes: seq<Result<Slot, Error>>)
    requires MarkRun(m, outcomes).Ok?
    ensures Occupancy(MarkRun(m, outcomes).value) == Occupancy(m) + Marked(outcomes)
    decreases |outcomes|
  {
    if outcomes != [] {
      var s := outcomes[0].value;
      MarkRunOccupancy(Mark(m, s), outcomes[1..]);
      MarkOccupancy(m, s);
      assert outcomes == [outcomes[0]] + outcomes[1..];
      assert Marked(outcomes) == {s} + Marked(outcomes[1..]);
    }
  }

  /** A run extended by one more add. */
  lemma {:induction false} MarkRunExtend(m: Masks, outcomes: seq<Result<Slot, Error>>, last: Result<Slot, Error>)
    requires MarkRun(m, outcomes).Ok?
    ensures MarkRun(m, outcomes + [last]) ==
      match last
      case Err(e) => Err(e)
      case Ok(s) => Ok(Mark(MarkRun(m, outcomes).value, s))
    decreases |outcomes|
  {
    if outcomes != [] {
      assert (outcomes + [last])[1..] == outcomes[1..] + [last];
      MarkRunExtend(Mark(m, outcomes[0].value), outcomes[1..], last);
    } else {
      assert outcomes + [last] == [last];
    }
  }

  /** A run of adds over texts, extended by one more text. */
  lemma AddAllExtend(m: Masks, texts: seq<string>, text: string)
    requires AddAll(m, texts).Ok?
    ensures AddAll(m, texts + [text]) == AddText(AddAll(m, texts).value, text)
  {
    assert Outcomes(texts + [text]) == Outcomes(texts) + [TextSlot(text)];
    MarkRunExtend(m, Outcomes(texts), TextSlot(text));
  }

  /** A run that succeeds depends only on which adds occur: not on their order or repetition. */
  lemma MarkRunOrderIndependent(m: Masks, outcomes: seq<Result<Slot, Error>>, others: seq<Result<Slot, Error>>)
    requires forall r :: r in outcomes <==> r in others
    requires MarkRun(m, outcomes).Ok?
    ensures MarkRun(m, others) == MarkRun(m, outcomes)
  {
    MarkRunFails(m, outcomes);
    MarkRunFails(m, others);
    forall i | 0 <= i < |others| ensures others[i].Ok? {
      assert others[i] in outcomes;
    }
    MarkRunOccupancy(m, outcomes);
    MarkRunOccupancy(m, others);
    assert Marked(outcomes) == Marked(others);
    OccupancyDetermines(MarkRun(m, outcomes).value, MarkRun(m, others).value);
  }

  /**
    The masks after a successful run of adds depend only on which texts occur:
    neither their order nor their repetition matters.
  */
  lemma AddAllOrderIndependent(m: Masks, texts: seq<string>, others: seq<string>)
    requires forall t :: t in texts <==> t in others
    requires AddAll(m, texts).Ok?
    ensures AddAll(m, others) == AddAll(m, texts)
  {
    var a, b := Outcomes(texts), Outcomes(others);
    forall r | r in a ensures r in b {
      var i :| 0 <= i < |a| && a[i] == r;
      assert texts[i] in others;
      var j :| 0 <= j < |others| && others[j] == texts[i];
      assert b[j] == r;
    }
    forall r | r in b ensures r in a {
      var j :| 0 <= j < |b| && b[j] == r;
      assert others[j] in texts;
      var i :| 0 <= i < |texts| && texts[i] == others[j];
      assert a[i] == r;
    }
    MarkRunOrderIndependent(m, a, b);
  }

  // ---------------------------------------------------------------------------
  // count() after a run of adds of valid addresses
  // ---------------------------------------------------------------------------

  /** Every text reads as a value of the address space. */
  predicate AllAddresses(texts: seq<string>)
  {
    forall t :: t in texts ==> AddressOf(t).Ok? && 0 <= AddressOf(t).value < AddressSpace
  }

  /** The distinct values the texts read as. */
  function ValuesOf(texts: seq<string>): set<int>
  {
    set t | t in texts && AddressOf(t).Ok? :: AddressOf(t).value
  }

  /** 1 when both 127.255.255.255 and 128.0.0.0 occur among the values, else 0. */
  function Collisions(values: set<int>): nat
  {
    if IntMax in values && Two31 in values then 1 else 0
  }

  /**
    As written, the slots of a set of address values number one fewer than the
    values when both of the colliding pair occur.
  */
  lemma AddressSlotsCount(values: set<int>)
    requires forall v :: v in values ==> 0 <= v < AddressSpace
    ensures |Image(values, AddressSlot)| == |values| - Collisions(values)
  {
    var rest := values - {IntMax};
    forall u, v | u in rest && v in rest && AddressSlot(u) == AddressSlot(v)
      ensures u == v
    {
      SlotOfShared(u, v);
      SlotOfAddress(u);
      SlotOfAddress(v);
    }
    InjectiveImage(rest, AddressSlot);
    if IntMax in values {
      assert values == rest + {IntMax};
      assert |values| == |rest| + 1;
      ImageAdd(rest, IntMax, AddressSlot);
      if Two31 in values {
        assert Two31 in rest && AddressSlot(Two31) == Higher(0);
        assert Higher(0) in Image(rest, AddressSlot);
        assert Image(values, AddressSlot) == Image(rest, AddressSlot);
        assert |Image(values, AddressSlot)| == |values| - 1;
      } else {
        forall v | v in rest ensures AddressSlot(v) != Higher(0) {
          SlotOfShared(v, IntMax);
          SlotOfAddress(v);
          SlotOfAddress(IntMax);
        }
        assert Higher(0) !in Image(rest, AddressSlot);
        assert |Image(values, AddressSlot)| == |values|;
      }
    } else {
      assert rest == values;
    }
  }

  /** The slot add as written marks for a text, or the exception it raises. */
  function WrittenTextSlot(text: string): (r: Result<Slot, Error>)
    ensures AddressOf(text).Err? ==> r == Err(AddressOf(text).error)
    ensures r.Ok? ==> 0 <= r.value.bit <= IntMax
  {
    match AddressOf(text)
    case Err(e) => Err(e)
    case Ok(v) => SlotOf(v)
  }

  /** What add as written computes for each text. */
  function WrittenOutcomes(texts: seq<string>): (r: seq<Result<Slot, Error>>)
    ensures |r| == |texts|
  {
    seq(|texts|, i requires 0 <= i < |texts| => WrittenTextSlot(texts[i]))
  }

  /** add as written applied to each text in turn. */
  function WrittenAddAll(m: Masks, texts: seq<string>): (r: Result<Masks, Error>)
    ensures r.Err? ==> exists i :: 0 <= i < |texts| && WrittenTextSlot(texts[i]) == Err(r.error)
  {
    MarkRun(m, WrittenOutcomes(texts))
  }

  /**
    The text -129.0.0.0 is read (the sign is accepted) and add marks the bit of
    127.0.0.0 for it, both as written and with `<=`.
  */
  lemma NegativeTextWraps()
    ensures WrittenTextSlot("-129.0.0.0") == WrittenTextSlot("127.0.0.0") == Ok(Lower(Value(Octets(127, 0, 0, 0))))
    ensures TextSlot("-129.0.0.0") == TextSlot("127.0.0.0")
  {
    DottedText.NegativeFirstComponent();
    DottedText.LoopbackNetworkAddress();
    NegativeValueWraps();
    SlotOfAddress(Value(Octets(127, 0, 0, 0)));
  }

  /** For texts that all read as address values, add as written marks the slot of each value. */
  lemma WrittenOutcomesOfAddresses(texts: seq<string>)
    requires AllAddresses(texts)
    ensures forall i :: 0 <= i < |texts| ==>
      WrittenOutcomes(texts)[i] == Ok(AddressSlot(AddressOf(texts[i]).value))
  {
    forall i | 0 <= i < |texts|
      ensures WrittenOutcomes(texts)[i] == Ok(AddressSlot(AddressOf(texts[i]).value))
    {
      assert texts[i] in texts;
      SlotOfAddress(AddressOf(texts[i]).value);
    }
  }

  /** For texts that all read as address values, add as written marks the slots of their values. */
  lemma WrittenMarkedAddresses(texts: seq<string>)
    requires AllAddresses(texts)
    ensures forall i :: 0 <= i < |texts| ==> WrittenOutcomes(texts)[i].Ok?
    ensures Marked(WrittenOutcomes(texts)) == Image(ValuesOf(texts), AddressSlot)
  {
    var outcomes := WrittenOutcomes(texts);
    WrittenOutcomesOfAddresses(texts);
    var values := ValuesOf(texts);
    forall s | s in Marked(outcomes) ensures s in Image(values, AddressSlot) {
      var i :| 0 <= i < |outcomes| && outcomes[i].Ok? && outcomes[i].value == s;
      assert texts[i] in texts;
      assert AddressOf(texts[i]).value in values;
    }
    forall s | s in Image(values, AddressSlot) ensures s in Marked(outcomes) {
      var v :| v in values && s == AddressSlot(v);
      var t :| t in texts && AddressOf(t).Ok? && v == AddressOf(t).value;
      var i :| 0 <= i < |texts| && texts[i] == t;
      assert outcomes[i] in outcomes;
    }
  }

  /**
    As written, adding valid addresses to empty masks never throws, and count()
    is then the number of distinct address values, less one when both
    127.255.255.255 and 128.0.0.0 occur.
  */
  lemma WrittenCountAfterAdds(texts: seq<string>)
    requires AllAddresses(texts)
    ensures WrittenAddAll(Empty, texts).Ok?
    ensures Size(WrittenAddAll(Empty, texts).value) == |ValuesOf(texts)| - Collisions(ValuesOf(texts))
  {
    var outcomes := WrittenOutcomes(texts);
    WrittenMarkedAddresses(texts);
    MarkRunFails(Empty, outcomes);
    MarkRunOccupancy(Empty, outcomes);
    assert Occupancy(Empty) == {};
    SizeIsOccupancy(MarkRun(Empty, outcomes).value);
    AddressSlotsCount(ValuesOf(texts));
  }

  /** For texts that all read as address values, add marks the slot of each value. */
  lemma OutcomesOfAddresses(texts: seq<string>)
    requires AllAddresses(texts)
    ensures forall i :: 0 <= i < |texts| ==>
      Outcomes(texts)[i] == Ok(IntendedAddressSlot(AddressOf(texts[i]).value))
  {
    forall i | 0 <= i < |texts|
      ensures Outcomes(texts)[i] == Ok(IntendedAddressSlot(AddressOf(texts[i]).value))
    {
      assert texts[i] in texts;
      IntendedSlotOfAddress(AddressOf(texts[i]).value);
    }
  }

  /** For texts that all read as address values, the slots add marks are those of their values. */
  lemma MarkedAddresses(texts: seq<string>)
    requires AllAddresses(texts)
    ensures forall i :: 0 <= i < |texts| ==> Outcomes(texts)[i].Ok?
    ensures Marked(Outcomes(texts)) == Image(ValuesOf(texts), IntendedAddressSlot)
  {
    var outcomes := Outcomes(texts);
    OutcomesOfAddresses(texts);
    var values := ValuesOf(texts);
    forall s | s in Marked(outcomes) ensures s in Image(values, IntendedAddressSlot) {
      var i :| 0 <= i < |outcomes| && outcomes[i].Ok? && outcomes[i].value == s;
      assert texts[i] in texts;
      assert AddressOf(texts[i]).value in values;
    }
    forall s | s in Image(values, IntendedAddressSlot) ensures s in Marked(outcomes) {
      var v :| v in values && s == IntendedAddressSlot(v);
      var t :| t in texts && AddressOf(t).Ok? && v == AddressOf(t).value;
      var i :| 0 <= i < |texts| && texts[i] == t;
      assert outcomes[i] in outcomes;
    }
  }

  /**
    After a run of adds of valid addresses from the empty masks, no add throws
    and count() is the number of distinct address values.
  */
  lemma CountAfterAdds(texts: seq<string>)
    requires AllAddresses(texts)
    ensures AddAll(Empty, texts).Ok?
    ensures Size(AddAll(Empty, texts).value) == |ValuesOf(texts)|
  {
    var outcomes := Outcomes(texts);
    MarkedAddresses(texts);
    MarkRunFails(Empty, outcomes);
    MarkRunOccupancy(Empty, outcomes);
    assert Occupancy(Empty) == {};
    SizeIsOccupancy(MarkRun(Empty, outcomes).value);
    IntendedSlotsCount(ValuesOf(texts));
  }

  /** With the intended comparison, the slots of distinct address values are all distinct. */
  lemma IntendedSlotsCount(values: set<int>)
    requires forall v :: v in values ==> 0 <= v < AddressSpace
    ensures |Image(values, IntendedAddressSlot)| == |values|
  {
    forall u, v | u in values && v in values && IntendedAddressSlot(u) == IntendedAddressSlot(v)
      ensures u == v
    {
      IntendedSlotInjective(u, v);
      IntendedSlotOfAddress(u);
      IntendedSlotOfAddress(v);
    }
    InjectiveImage(values, IntendedAddressSlot);
  }
}
