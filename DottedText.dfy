/**
  Dotted-decimal text as Java writes it (Integer.toString of each component,
  joined with dots), and what getIPAddressAsLong reads back from it.
*/
module DottedText {
  import opened Wrappers
  import opened Addresses
  import opened Parsing

  // ---------------------------------------------------------------------------
  // Dotted-decimal text of four components
  // ---------------------------------------------------------------------------

  function DigitChar(d: int): char
    requires 0 <= d < 10
  {
    ('0' as int + d) as char
  }

  /** Integer.toString(n) for n >= 0. */
  function Decimal(n: nat): (s: string)
    ensures |s| > 0 && AllDigits(s)
  {
    if n < 10 then [DigitChar(n)] else Decimal(n / 10) + [DigitChar(n % 10)]
  }

  /** The text a + "." + b + "." + c + "." + d of four non-negative components. */
  function Dotted(o: Octets): (s: string)
    requires o.first >= 0 && o.second >= 0 && o.third >= 0 && o.fourth >= 0
    ensures |s| >= 7
  {
    Decimal(o.first) + "." + Decimal(o.second) + "." + Decimal(o.third) + "." + Decimal(o.fourth)
  }

  lemma {:induction false} DecimalDigitsValue(n: nat)
    ensures DigitsValue(Decimal(n)) == n
  {
    if n >= 10 {
      DecimalDigitsValue(n / 10);
      var s := Decimal(n);
      assert s[..|s| - 1] == Decimal(n / 10);
    }
  }

  /** Integer.parseInt reads back what Integer.toString writes. */
  lemma ParseDecimal(n: nat)
    requires n <= IntMax
    ensures ParseInt(Decimal(n)) == Some(n)
  {
    DecimalDigitsValue(n);
    var s := Decimal(n);
    assert IsDigit(s[0]);
  }

  lemma {:induction false} PiecesOfComponent(a: string, rest: string)
    requires '.' !in a
    ensures Pieces(a + rest)[0] == a + Pieces(rest)[0]
    ensures Pieces(a + rest)[1..] == Pieces(rest)[1..]
  {
    if a != [] {
      assert (a + rest)[1..] == a[1..] + rest;
      PiecesOfComponent(a[1..], rest);
    } else {
      assert a + rest == rest;
    }
  }

  /** Splitting `a + "." + rest` on dots gives `a` and then the pieces of `rest`. */
  lemma PiecesOfDotted(a: string, rest: string)
    requires '.' !in a
    ensures Pieces(a + "." + rest) == [a] + Pieces(rest)
  {
    PiecesOfComponent(a, "." + rest);
    assert a + "." + rest == a + ("." + rest);
    assert ("." + rest)[1..] == rest;
    assert Pieces("." + rest) == [[]] + Pieces(rest);
    assert a + [] == a;
  }

  lemma NoDotInDecimal(n: nat)
    ensures '.' !in Decimal(n)
  {
    var s := Decimal(n);
    forall i | 0 <= i < |s|
      ensures s[i] != '.'
    {
      assert IsDigit(s[i]);
    }
  }

  /** The pieces of `d + tail` start with `d` alone when `tail` is empty or starts with a dot. */
  lemma PiecesOfLastComponent(d: string, tail: string)
    requires '.' !in d
    requires tail == [] || tail[0] == '.'
    ensures Pieces(d + tail)[0] == d
  {
    if tail == [] {
      PiecesOfComponent(d, []);
      assert Pieces([]) == [[]];
      assert d + tail == d + [];
    } else {
      PiecesOfDotted(d, tail[1..]);
      assert d + tail == d + "." + tail[1..];
    }
  }

  /** Splitting the text of four components, followed by nothing or by a dot, yields them first. */
  lemma SplitDotted(a: string, b: string, c: string, d: string, tail: string)
    requires '.' !in a && '.' !in b && '.' !in c && '.' !in d && d != []
    requires tail == [] || tail[0] == '.'
    ensures |Split(a + "." + b + "." + c + "." + d + tail)| >= 4
    ensures Split(a + "." + b + "." + c + "." + d + tail)[..4] == [a, b, c, d]
  {
    var text := a + "." + b + "." + c + "." + d + tail;
    assert text == a + "." + (b + "." + (c + "." + (d + tail)));
    PiecesOfDotted(a, b + "." + (c + "." + (d + tail)));
    PiecesOfDotted(b, c + "." + (d + tail));
    PiecesOfDotted(c, d + tail);
    PiecesOfLastComponent(d, tail);
    var ps := Pieces(text);
    assert ps[..4] == [a, b, c, d];
    assert text[|a|] == '.';
    assert ps[3] != [];
  }

  /**
    The text of four components in [0, Integer.MAX_VALUE], optionally followed
    by a dot and anything at all, reads as their weighted sum: only the first
    four components are read.
  */
  lemma AddressOfDotted(o: Octets, tail: string)
    requires 0 <= o.first <= IntMax && 0 <= o.second <= IntMax
    requires 0 <= o.third <= IntMax && 0 <= o.fourth <= IntMax
    requires tail == [] || tail[0] == '.'
    ensures AddressOf(Dotted(o) + tail) == Ok(Value(o))
  {
    var a, b, c, d := Decimal(o.first), Decimal(o.second), Decimal(o.third), Decimal(o.fourth);
    NoDotInDecimal(o.first); NoDotInDecimal(o.second);
    NoDotInDecimal(o.third); NoDotInDecimal(o.fourth);
    var text := Dotted(o) + tail;
    assert text == a + "." + b + "." + c + "." + d + tail;
    SplitDotted(a, b, c, d, tail);
    var parts := Split(text);
    assert parts[0] == a && parts[1] == b && parts[2] == c && parts[3] == d by {
      assert parts[..4] == [a, b, c, d];
    }
    ParseDecimal(o.first); ParseDecimal(o.second); ParseDecimal(o.third); ParseDecimal(o.fourth);
    AddressOfComponents(text, o.first, o.second, o.third, o.fourth);
  }

  /** The number a sign character and a count of units denote. */
  function Signed(sign: char, n: nat): int
  {
    if sign == '-' then -(n as int) else n
  }

  /** parseInt accepts a leading sign: a minus negates the digits after it, a plus keeps them. */
  lemma ParseSignedDecimal(sign: char, n: nat)
    requires sign == '-' || sign == '+'
    requires n <= IntMax
    ensures ParseInt([sign] + Decimal(n)) == Some(Signed(sign, n))
  {
    var s := [sign] + Decimal(n);
    assert s[0] == sign;
    assert s[1..] == Decimal(n);
    DecimalDigitsValue(n);
  }

  /** A signed decimal text holds no dot. */
  lemma NoDotInSignedDecimal(sign: char, n: nat)
    requires sign == '-' || sign == '+'
    ensures '.' !in [sign] + Decimal(n)
  {
    NoDotInDecimal(n);
    var s := [sign] + Decimal(n);
    forall i | 0 <= i < |s|
      ensures s[i] != '.'
    {
      if i > 0 {
        assert s[i] == Decimal(n)[i - 1];
      }
    }
  }

  /** A sign in front of the dotted text signs its first component. */
  lemma SignedDottedText(sign: char, o: Octets)
    requires o.first >= 0 && o.second >= 0 && o.third >= 0 && o.fourth >= 0
    ensures [sign] + Dotted(o)
      == ([sign] + Decimal(o.first)) + "." + Decimal(o.second) + "." + Decimal(o.third) + "." + Decimal(o.fourth) + []
  {
  }

  /**
    A sign before the first component is accepted and read into the value: the
    components are not checked to be octets, so a signed text reads as the
    weighted sum with that component negated or kept.
  */
  lemma AddressOfSignedDotted(sign: char, o: Octets)
    requires sign == '-' || sign == '+'
    requires 0 <= o.first <= IntMax && 0 <= o.second <= IntMax
    requires 0 <= o.third <= IntMax && 0 <= o.fourth <= IntMax
    ensures AddressOf([sign] + Dotted(o)) == Ok(Value(o.(first := Signed(sign, o.first))))
  {
    var a, b, c, d := [sign] + Decimal(o.first), Decimal(o.second), Decimal(o.third), Decimal(o.fourth);
    NoDotInSignedDecimal(sign, o.first);
    NoDotInDecimal(o.second); NoDotInDecimal(o.third); NoDotInDecimal(o.fourth);
    var text := [sign] + Dotted(o);
    SignedDottedText(sign, o);
    SplitDotted(a, b, c, d, []);
    var parts := Split(text);
    assert parts[0] == a && parts[1] == b && parts[2] == c && parts[3] == d by {
      assert parts[..4] == [a, b, c, d];
    }
    ParseSignedDecimal(sign, o.first);
    ParseDecimal(o.second); ParseDecimal(o.third); ParseDecimal(o.fourth);
    AddressOfComponents(text, Signed(sign, o.first), o.second, o.third, o.fourth);
  }

  /** A text that is a sign followed by the dotted form of four components reads as their signed sum. */
  lemma AddressOfSignedText(sign: char, text: string, o: Octets)
    requires sign == '-' || sign == '+'
    requires 0 <= o.first <= IntMax && 0 <= o.second <= IntMax
    requires 0 <= o.third <= IntMax && 0 <= o.fourth <= IntMax
    requires text == [sign] + Dotted(o)
    ensures AddressOf(text) == Ok(Value(o.(first := Signed(sign, o.first))))
  {
    AddressOfSignedDotted(sign, o);
  }

  /** -129.0.0.0 is read, as the value of the components -129, 0, 0, 0. */
  lemma NegativeFirstComponent()
    ensures AddressOf("-129.0.0.0") == Ok(Value(Octets(-129, 0, 0, 0)))
  {
    AddressOfSignedText('-', "-129.0.0.0", Octets(129, 0, 0, 0));
  }

  /** 127.0.0.0, the address -129.0.0.0 is 2^32 below. */
  lemma LoopbackNetworkAddress()
    ensures AddressOf("127.0.0.0") == Ok(Value(Octets(127, 0, 0, 0)))
  {
    AddressOfText("127.0.0.0", Octets(127, 0, 0, 0));
  }

  /** +7.0.0.1 is read as 7.0.0.1. */
  lemma PlusFirstComponent()
    ensures AddressOf("+7.0.0.1") == Ok(Value(Octets(7, 0, 0, 1)))
  {
    AddressOfSignedText('+', "+7.0.0.1", Octets(7, 0, 0, 1));
  }

  /** A text that is the dotted-decimal form of four components reads as their weighted sum. */
  lemma AddressOfText(text: string, o: Octets)
    requires 0 <= o.first <= IntMax && 0 <= o.second <= IntMax
    requires 0 <= o.third <= IntMax && 0 <= o.fourth <= IntMax
    requires text == Dotted(o)
    ensures AddressOf(text) == Ok(Value(o))
  {
    AddressOfDotted(o, "");
    assert Dotted(o) + "" == Dotted(o);
  }

  /** The worked example in the documentation of getIPAddressAsLong. */
  lemma WorkedExample()
    ensures AddressOf("232.100.201.90") == Ok(3898919258)
  {
    AddressOfText("232.100.201.90", Octets(232, 100, 201, 90));
  }

  /** The lowest address. */
  lemma LowestAddress()
    ensures AddressOf("0.0.0.0") == Ok(0)
  {
    AddressOfText("0.0.0.0", Octets(0, 0, 0, 0));
  }

  /** The highest address, 2^32 - 1. */
  lemma HighestAddress()
    ensures AddressOf("255.255.255.255") == Ok(4294967295)
  {
    AddressOfText("255.255.255.255", Octets(255, 255, 255, 255));
  }

  /** The last address that fits in a Java int: 127.255.255.255 is Integer.MAX_VALUE. */
  lemma LastIntAddress()
    ensures AddressOf("127.255.255.255") == Ok(IntMax)
  {
    AddressOfText("127.255.255.255", Octets(127, 255, 255, 255));
  }

  /** The first address that does not fit in a Java int: 128.0.0.0 is 2^31. */
  lemma FirstLongAddress()
    ensures AddressOf("128.0.0.0") == Ok(IntMax + 1)
  {
    AddressOfText("128.0.0.0", Octets(128, 0, 0, 0));
  }

  /**
    No range check: a component above 255 carries into the next one, so
    0.0.0.256 reads as the value of 0.0.1.0.
  */
  lemma UncheckedComponent()
    ensures AddressOf("0.0.0.256") == Ok(Value(Octets(0, 0, 1, 0)))
  {
    AddressOfText("0.0.0.256", Octets(0, 0, 0, 256));
  }

  /** Extra components after the fourth are not read. */
  lemma ExtraComponentsIgnored(o: Octets, rest: string)
    requires o.InRange()
    ensures AddressOf(Dotted(o) + "." + rest) == AddressOf(Dotted(o))
  {
    AddressOfDotted(o, "." + rest);
    assert Dotted(o) + "." + rest == Dotted(o) + ("." + rest);
    AddressOfDotted(o, "");
    assert Dotted(o) + "" == Dotted(o);
  }

  /** Distinct octets in range have distinct dotted-decimal texts, and distinct texts distinct values. */
  lemma DottedInjective(o: Octets, p: Octets)
    requires o.InRange() && p.InRange()
    ensures Dotted(o) == Dotted(p) <==> o == p
    ensures AddressOf(Dotted(o)) == AddressOf(Dotted(p)) <==> o == p
  {
    AddressOfText(Dotted(o), o);
    AddressOfText(Dotted(p), p);
    ValueInjective(o, p);
  }
}
