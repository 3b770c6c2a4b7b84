/**
  The two scenarios of IPv4CounterTest, stated for the model of the class:
  the count after a run of adds, compared with the number of distinct texts added.
*/
module CounterTests {
  import opened Wrappers
  import opened Addresses
  import opened Parsing
  import opened DottedText
  import opened Presence
  import opened Counter

  lemma PrefixExtend<T>(s: seq<T>, i: nat)
    requires i < |s|
    ensures s[..i + 1] == s[..i] + [s[i]]
  {
  }

  /** One more valid address extends a successful run by one successful add. */
  lemma AddNextAddress(texts: seq<string>, i: nat, m: Masks)
    requires i < |texts| && AddAll(Empty, texts[..i]) == Ok(m)
    requires AddressOf(texts[i]).Ok? && 0 <= AddressOf(texts[i]).value < AddressSpace
    ensures AddText(m, texts[i]).Ok?
    ensures AddAll(Empty, texts[..i + 1]) == AddText(m, texts[i])
  {
    SlotOfAddress(AddressOf(texts[i]).value);
    AddAllExtend(Empty, texts[..i], texts[i]);
    PrefixExtend(texts, i);
  }

  /**
    The loop both tests run: a new counter, every text added in turn, then
    count(). For valid addresses the count is the number of distinct values.
  */
  method CountAll(ips: seq<string>) returns (n: nat)
    requires AllAddresses(ips)
    ensures n == |ValuesOf(ips)|
  {
    var counter := new IPv4Counter();
    for i := 0 to |ips|
      invariant counter.Valid()
      invariant AddAll(Empty, ips[..i]) == Ok(counter.State())
    {
      assert ips[i] in ips;
      AddNextAddress(ips, i, counter.State());
      var failure := counter.Add(ips[i]);
    }
    assert ips[..|ips|] == ips;
    n := counter.Count();
    SizeIsOccupancy(counter.State());
    CountAfterAdds(ips);
  }

  // ---------------------------------------------------------------------------
  // shouldCountDistinctIPs: texts written from four numbers in [0, 255]
  // ---------------------------------------------------------------------------

  /** The distinct elements of a list, as a HashSet built from it holds them. */
  function Elements<T>(s: seq<T>): set<T>
  {
    set x | x in s
  }

  predicate AllInRange(octets: seq<Octets>)
  {
    forall i :: 0 <= i < |octets| ==> octets[i].InRange()
  }

  /** The list generateRandomIPs builds, given the numbers its generator draws. */
  function DottedTexts(octets: seq<Octets>): (ips: seq<string>)
    requires AllInRange(octets)
    ensures |ips| == |octets|
  {
    seq(|octets|, i requires 0 <= i < |octets| => Dotted(octets[i]))
  }

  function OkValue(o: Octets): Result<int, Error>
  {
    Ok(Value(o))
  }

  /** Each generated text reads as the value of the numbers it was written from. */
  lemma DottedTextAt(octets: seq<Octets>, i: int)
    requires AllInRange(octets) && 0 <= i < |octets|
    ensures AddressOf(DottedTexts(octets)[i]) == OkValue(octets[i])
  {
    AddressOfText(DottedTexts(octets)[i], octets[i]);
  }

  /** The generated texts read as the values of the drawn octets, and only as those. */
  lemma DottedTextsRead(octets: seq<Octets>)
    requires AllInRange(octets)
    ensures AllAddresses(DottedTexts(octets))
    ensures ValuesOf(DottedTexts(octets)) == Image(Elements(octets), Value)
    ensures Image(Elements(DottedTexts(octets)), AddressOf) == Image(Elements(octets), OkValue)
  {
    var ips := DottedTexts(octets);
    forall t | t in ips
      ensures exists i :: 0 <= i < |octets| && t == ips[i] && AddressOf(t) == OkValue(octets[i])
    {
      var i :| 0 <= i < |ips| && t == ips[i];
      DottedTextAt(octets, i);
    }
    forall o | o in octets
      ensures exists i :: 0 <= i < |octets| && o == octets[i] && AddressOf(ips[i]) == OkValue(o)
    {
      var i :| 0 <= i < |octets| && o == octets[i];
      DottedTextAt(octets, i);
    }
    forall t | t in ips
      ensures AddressOf(t).Ok? && 0 <= AddressOf(t).value < AddressSpace
    {
      var i :| 0 <= i < |octets| && t == ips[i] && AddressOf(t) == OkValue(octets[i]);
    }
    forall v | v in ValuesOf(ips) ensures v in Image(Elements(octets), Value) {
      var t :| t in ips && AddressOf(t).Ok? && v == AddressOf(t).value;
      var i :| 0 <= i < |octets| && t == ips[i] && AddressOf(t) == OkValue(octets[i]);
      assert octets[i] in Elements(octets);
    }
    forall v | v in Image(Elements(octets), Value) ensures v in ValuesOf(ips) {
      var o :| o in octets && v == Value(o);
      var i :| 0 <= i < |octets| && o == octets[i] && AddressOf(ips[i]) == OkValue(o);
      assert ips[i] in ips;
    }
    forall r | r in Image(Elements(ips), AddressOf) ensures r in Image(Elements(octets), OkValue) {
      var t :| t in ips && r == AddressOf(t);
      var i :| 0 <= i < |octets| && t == ips[i] && AddressOf(t) == OkValue(octets[i]);
      assert octets[i] in Elements(octets);
    }
    forall r | r in Image(Elements(octets), OkValue) ensures r in Image(Elements(ips), AddressOf) {
      var o :| o in octets && r == OkValue(o);
      var i :| 0 <= i < |octets| && o == octets[i] && AddressOf(ips[i]) == OkValue(o);
      assert ips[i] in Elements(ips);
    }
  }

  /** Distinct draws have distinct values. */
  lemma DrawValuesCount(octets: seq<Octets>)
    requires AllInRange(octets)
    ensures |Image(Elements(octets), Value)| == |Elements(octets)|
    ensures |Image(Elements(octets), OkValue)| == |Elements(octets)|
  {
    forall o, p | o in Elements(octets) && p in Elements(octets) && Value(o) == Value(p)
      ensures o == p
    {
      var i :| 0 <= i < |octets| && o == octets[i];
      var j :| 0 <= j < |octets| && p == octets[j];
      ValueInjective(o, p);
    }
    InjectiveImage(Elements(octets), Value);
    InjectiveImage(Elements(octets), OkValue);
  }

  /** Distinct generated texts read differently. */
  lemma DottedTextsReadApart(octets: seq<Octets>)
    requires AllInRange(octets)
    ensures |Image(Elements(DottedTexts(octets)), AddressOf)| == |Elements(DottedTexts(octets))|
  {
    var ips := DottedTexts(octets);
    forall t, u | t in Elements(ips) && u in Elements(ips) && AddressOf(t) == AddressOf(u)
      ensures t == u
    {
      var i :| 0 <= i < |ips| && t == ips[i];
      var j :| 0 <= j < |ips| && u == ips[j];
      DottedTextAt(octets, i);
      DottedTextAt(octets, j);
      ValueInjective(octets[i], octets[j]);
    }
    InjectiveImage(Elements(ips), AddressOf);
  }

  /**
    The generated texts number as many distinct texts, and read as as many
    distinct values, as there are distinct draws.
  */
  lemma DottedTextsCount(octets: seq<Octets>)
    requires AllInRange(octets)
    ensures |Elements(DottedTexts(octets))| == |Elements(octets)|
    ensures |ValuesOf(DottedTexts(octets))| == |Elements(octets)|
  {
    DottedTextsRead(octets);
    DrawValuesCount(octets);
    DottedTextsReadApart(octets);
  }

  /** 1 exactly when both 127.255.255.255 and 128.0.0.0 were drawn. */
  function DrawnCollisions(octets: seq<Octets>): nat
  {
    if Octets(127, 255, 255, 255) in octets && Octets(128, 0, 0, 0) in octets then 1 else 0
  }

  lemma DottedTextsCollisions(octets: seq<Octets>)
    requires AllInRange(octets)
    ensures Collisions(ValuesOf(DottedTexts(octets))) == DrawnCollisions(octets)
  {
    DottedTextsRead(octets);
    var values := Image(Elements(octets), Value);
    var last, first := Octets(127, 255, 255, 255), Octets(128, 0, 0, 0);
    assert Value(last) == IntMax && Value(first) == Two31;
    if IntMax in values {
      var o :| o in octets && Value(o) == IntMax;
      var i :| 0 <= i < |octets| && o == octets[i];
      ValueInjective(o, last);
    }
    if Two31 in values {
      var o :| o in octets && Value(o) == Two31;
      var i :| 0 <= i < |octets| && o == octets[i];
      ValueInjective(o, first);
    }
    if last in octets {
      assert last in Elements(octets);
    }
    if first in octets {
      assert first in Elements(octets);
    }
  }

  lemma {:induction false} SubsetSize<T>(a: set<T>, b: set<T>)
    requires a <= b
    ensures |a| <= |b|
  {
    assert b == a + (b - a);
  }

  /** Two distinct draws are among the draws when the colliding pair is. */
  lemma DrawnCollisionsBound(octets: seq<Octets>)
    ensures DrawnCollisions(octets) <= |Elements(octets)| - DrawnCollisions(octets)
  {
    if DrawnCollisions(octets) == 1 {
      var pair := {Octets(127, 255, 255, 255), Octets(128, 0, 0, 0)};
      assert pair <= Elements(octets);
      assert |pair| == 2;
      SubsetSize(pair, Elements(octets));
    }
  }

  /**
    shouldCountDistinctIPs with the generator's draws as input: count()
    equals the size of the HashSet of the texts, which is the number of
    distinct draws.
  */
  method CountDistinctIPs(octets: seq<Octets>) returns (count: nat, distinct: nat)
    requires AllInRange(octets)
    ensures distinct == |Elements(DottedTexts(octets))| == |Elements(octets)|
    ensures count == distinct
  {
    var ips := DottedTexts(octets);
    DottedTextsRead(octets);
    DottedTextsCount(octets);
    count := CountAll(ips);
    distinct := |Elements(ips)|;
  }

  /**
    As written, adding the generated texts to a new counter never throws, and
    count() is the size of the HashSet of the texts less one when both
    127.255.255.255 and 128.0.0.0 were drawn: the test's assertion holds
    exactly when that pair was not drawn.
  */
  lemma WrittenDistinctIPs(octets: seq<Octets>)
    requires AllInRange(octets)
    ensures WrittenAddAll(Empty, DottedTexts(octets)).Ok?
    ensures Size(WrittenAddAll(Empty, DottedTexts(octets)).value)
      == |Elements(DottedTexts(octets))| - DrawnCollisions(octets)
    ensures Size(WrittenAddAll(Empty, DottedTexts(octets)).value) == |Elements(DottedTexts(octets))|
      <==> DrawnCollisions(octets) == 0
  {
    DottedTextsRead(octets);
    DottedTextsCount(octets);
    DottedTextsCollisions(octets);
    DrawnCollisionsBound(octets);
    WrittenCountAfterAdds(DottedTexts(octets));
  }

  // ---------------------------------------------------------------------------
  // shouldCountDistinctCornerCaseIPs
  // ---------------------------------------------------------------------------

  /** The numbers of the five corner-case texts. */
  const CornerCases: seq<Octets> := [
    Octets(255, 255, 255, 255), Octets(255, 255, 255, 254), Octets(255, 0, 0, 0),
    Octets(0, 0, 0, 0), Octets(1, 1, 1, 1)]

  lemma SmallDecimals()
    ensures Decimal(0) == "0" && Decimal(1) == "1"
    ensures Decimal(254) == "254" && Decimal(255) == "255"
  {
    assert Decimal(25) == "25";
  }

  /** The corner-case texts are the dotted-decimal texts of those numbers. */
  lemma CornerCaseTexts()
    ensures AllInRange(CornerCases)
    ensures DottedTexts(CornerCases) ==
      ["255.255.255.255", "255.255.255.254", "255.0.0.0", "0.0.0.0", "1.1.1.1"]
  {
    SmallDecimals();
    var ips := DottedTexts(CornerCases);
    assert ips[0] == "255" + "." + "255" + "." + "255" + "." + "255" == "255.255.255.255";
    assert ips[1] == "255" + "." + "255" + "." + "255" + "." + "254" == "255.255.255.254";
    assert ips[2] == "255" + "." + "0" + "." + "0" + "." + "0" == "255.0.0.0";
    assert ips[3] == "0" + "." + "0" + "." + "0" + "." + "0" == "0.0.0.0";
    assert ips[4] == "1" + "." + "1" + "." + "1" + "." + "1" == "1.1.1.1";
    assert ips == [ips[0], ips[1], ips[2], ips[3], ips[4]];
  }

  /** Adding the five corner-case texts to a new counter counts five addresses, as many as distinct texts. */
  method CountCornerCaseIPs() returns (count: nat, distinct: nat)
    ensures count == 5 && distinct == 5
  {
    CornerCaseTexts();
    count, distinct := CountDistinctIPs(CornerCases);
    assert Elements(CornerCases) == {
      Octets(255, 255, 255, 255), Octets(255, 255, 255, 254), Octets(255, 0, 0, 0),
      Octets(0, 0, 0, 0), Octets(1, 1, 1, 1)};
  }

  /** The corner cases do not hold the colliding pair. */
  lemma CornerCasesNoCollision()
    ensures AllInRange(CornerCases)
    ensures DrawnCollisions(CornerCases) == 0
  {
    var cases := CornerCases;
    assert AllInRange(cases);
    assert Octets(127, 255, 255, 255) !in cases;
  }

  /** The five corner cases are distinct. */
  lemma CornerCasesFive()
    ensures |Elements(CornerCases)| == 5
  {
    assert Elements(CornerCases) == {
      Octets(255, 255, 255, 255), Octets(255, 255, 255, 254), Octets(255, 0, 0, 0),
      Octets(0, 0, 0, 0), Octets(1, 1, 1, 1)};
  }

  /** The five corner-case texts are distinct. */
  lemma CornerCasesDistinct()
    ensures |Elements(DottedTexts(CornerCases))| == 5
  {
    CornerCasesNoCollision();
    CornerCasesFive();
    DottedTextsCount(CornerCases);
  }

  /**
    The code as written also passes the corner-case test: 255.255.255.255 goes
    through both int wrap-arounds to its own bit, and the five texts count five.
  */
  lemma WrittenCornerCaseIPs()
    ensures WrittenAddAll(Empty, DottedTexts(CornerCases)).Ok?
    ensures Size(WrittenAddAll(Empty, DottedTexts(CornerCases)).value) == 5
  {
    CornerCasesNoCollision();
    CornerCasesDistinct();
    WrittenDistinctIPs(CornerCases);
  }

  /** The two addresses whose bits the comparison as written confuses. */
  const CollidingPair: seq<Octets> := [Octets(127, 255, 255, 255), Octets(128, 0, 0, 0)]

  /** With the corrected comparison, adding 127.255.255.255 and 128.0.0.0 counts two addresses. */
  method CountCollidingIPs() returns (count: nat, distinct: nat)
    ensures count == 2 && distinct == 2
  {
    count, distinct := CountDistinctIPs(CollidingPair);
    assert Elements(CollidingPair) == {Octets(127, 255, 255, 255), Octets(128, 0, 0, 0)};
  }

  /** As written, adding the same two distinct texts to a new counter gives count() == 1. */
  lemma WrittenCollidingIPs()
    ensures |Elements(DottedTexts(CollidingPair))| == 2
    ensures WrittenAddAll(Empty, DottedTexts(CollidingPair)).Ok?
    ensures Size(WrittenAddAll(Empty, DottedTexts(CollidingPair)).value) == 1
  {
    var pair := CollidingPair;
    assert AllInRange(pair);
    assert DrawnCollisions(pair) == 1;
    assert Elements(pair) == {Octets(127, 255, 255, 255), Octets(128, 0, 0, 0)};
    WrittenDistinctIPs(pair);
    DottedTextsCount(pair);
  }
}
