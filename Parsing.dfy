/**
  IPv4Counter.getIPAddressAsLong: it splits its argument with String.split("\\."),
  parses each of the first four components with Integer.parseInt and adds up
  component * 256^(3 - index). It performs no range check on the components,
  and every failure is a Java exception; here the exceptions are `Error` values.
*/
module Parsing {
  import opened Wrappers
  import opened Addresses

  // ---------------------------------------------------------------------------
  // String.split("\\.")
  // ---------------------------------------------------------------------------

  /** The text between consecutive dots, empty pieces included. */
  function Pieces(s: string): (r: seq<string>)
    ensures |r| >= 1
    ensures forall k :: 0 <= k < |r| ==> '.' !in r[k]
  {
    if s == [] then [[]]
    else
      var rest := Pieces(s[1..]);
      if s[0] == '.' then [[]] + rest else [[s[0]] + rest[0]] + rest[1..]
  }

  /** Java's split with limit 0 removes the trailing empty strings. */
  function DropTrailingEmpty(ps: seq<string>): (r: seq<string>)
    ensures |r| <= |ps| && r == ps[..|r|]
    ensures forall k :: |r| <= k < |ps| ==> ps[k] == []
    ensures |r| > 0 ==> r[|r| - 1] != []
  {
    if |ps| > 0 && ps[|ps| - 1] == [] then DropTrailingEmpty(ps[..|ps| - 1]) else ps
  }

  /** String.split("\\."): a string without a dot splits into itself. */
  function Split(s: string): (r: seq<string>)
    ensures '.' !in s ==> r == [s]
    ensures forall k :: 0 <= k < |r| ==> '.' !in r[k]
  {
    if '.' !in s then [s] else DropTrailingEmpty(Pieces(s))
  }

  // ---------------------------------------------------------------------------
  // Integer.parseInt
  // ---------------------------------------------------------------------------

  predicate IsDigit(c: char) { '0' as int <= c as int <= '9' as int }

  predicate AllDigits(s: string) { forall i :: 0 <= i < |s| ==> IsDigit(s[i]) }

  /** The number written by a string of decimal digits, most significant first. */
  function DigitsValue(s: string): nat
    requires AllDigits(s)
  {
    if s == [] then 0
    else
      assert IsDigit(s[|s| - 1]);
      10 * DigitsValue(s[..|s| - 1]) + (s[|s| - 1] as int - '0' as int)
  }

  /** Integer.parseInt(s): an optional sign, then at least one digit, within the int range. */
  function ParseInt(s: string): (r: Option<int>)
    ensures r.Some? ==> IntMin <= r.value <= IntMax
    ensures r.Some? ==> |s| > 0 && AllDigits(if s[0] == '-' || s[0] == '+' then s[1..] else s)
  {
    if |s| == 0 then None
    else
      var digits := if s[0] == '-' || s[0] == '+' then s[1..] else s;
      if |digits| == 0 || !AllDigits(digits) then None
      else
        var n: int := if s[0] == '-' then 0 - DigitsValue(digits) else DigitsValue(digits);
        if IntMin <= n <= IntMax then Some(n) else None
  }

  // ---------------------------------------------------------------------------
  // getIPAddressAsLong
  // ---------------------------------------------------------------------------

  /**
    The first `n` components parsed, in order; the first failure in index order
    otherwise (a missing component, or one that does not parse).
  */
  function ReadComponents(parts: seq<string>, n: nat): (r: Result<seq<int>, Error>)
    ensures r.Ok? <==> n <= |parts| && forall k :: 0 <= k < n ==> ParseInt(parts[k]).Some?
    ensures r.Ok? ==> |r.value| == n && forall k :: 0 <= k < n ==> ParseInt(parts[k]) == Some(r.value[k])
    ensures r.Err? ==> r.error.MissingComponent? || r.error.NumberFormat?
  {
    if n == 0 then Ok([])
    else
      match ReadComponents(parts, n - 1)
      case Err(e) => Err(e)
      case Ok(os) =>
        if n - 1 >= |parts| then Err(MissingComponent(n - 1))
        else
          match ParseInt(parts[n - 1])
          case None => Err(NumberFormat(parts[n - 1]))
          case Some(x) => Ok(os + [x])
  }

  /** 256^k, the weight Math.pow(256, k) gives a component. */
  function Pow256(k: nat): (p: nat)
    ensures p >= 1
    ensures k > 0 ==> p % 256 == 0
  {
    if k == 0 then 1 else 256 * Pow256(k - 1)
  }

  /** The running sum after the components `os` (at most four) have been added in. */
  function Weighted(os: seq<int>): (r: int)
    requires |os| <= 4
    ensures (forall k :: 0 <= k < |os| ==> os[k] >= 0) ==> r >= 0
  {
    if os == [] then 0 else Weighted(os[..|os| - 1]) + os[|os| - 1] * Pow256(4 - |os|)
  }

  /** The value getIPAddressAsLong returns for `text`, or the exception it raises. */
  function AddressOf(text: string): (r: Result<int, Error>)
    ensures r.Ok? <==> |Split(text)| >= 4 && forall k :: 0 <= k < 4 ==> ParseInt(Split(text)[k]).Some?
    ensures r.Err? ==> r.error.MissingComponent? || r.error.NumberFormat?
  {
    match ReadComponents(Split(text), 4)
    case Err(e) => Err(e)
    case Ok(os) => Ok(Value(Octets(os[0], os[1], os[2], os[3])))
  }

  lemma {:induction false} ReadComponentsFailureSticks(parts: seq<string>, n: nat, m: nat)
    requires n <= m
    requires ReadComponents(parts, n).Err?
    ensures ReadComponents(parts, m) == ReadComponents(parts, n)
    decreases m
  {
    if m > n {
      ReadComponentsFailureSticks(parts, n, m - 1);
    }
  }

  /** One more component that parses extends what has been read. */
  lemma ReadOneMore(parts: seq<string>, n: nat, os: seq<int>, x: int)
    requires n < |parts|
    requires ReadComponents(parts, n) == Ok(os)
    requires ParseInt(parts[n]) == Some(x)
    ensures ReadComponents(parts, n + 1) == Ok(os + [x])
  {
  }

  /** Four components that parse are read as they parse. */
  lemma ReadFour(parts: seq<string>, a: int, b: int, c: int, d: int)
    requires |parts| >= 4
    requires ParseInt(parts[0]) == Some(a) && ParseInt(parts[1]) == Some(b)
    requires ParseInt(parts[2]) == Some(c) && ParseInt(parts[3]) == Some(d)
    ensures ReadComponents(parts, 4) == Ok([a, b, c, d])
  {
    assert ReadComponents(parts, 0) == Ok([]);
    ReadOneMore(parts, 0, [], a);
    assert [] + [a] == [a];
    ReadOneMore(parts, 1, [a], b);
    assert [a] + [b] == [a, b];
    ReadOneMore(parts, 2, [a, b], c);
    assert [a, b] + [c] == [a, b, c];
    ReadOneMore(parts, 3, [a, b, c], d);
    assert [a, b, c] + [d] == [a, b, c, d];
  }

  /** A text whose first four components parse reads as their weighted sum. */
  lemma AddressOfComponents(text: string, a: int, b: int, c: int, d: int)
    requires |Split(text)| >= 4
    requires ParseInt(Split(text)[0]) == Some(a) && ParseInt(Split(text)[1]) == Some(b)
    requires ParseInt(Split(text)[2]) == Some(c) && ParseInt(Split(text)[3]) == Some(d)
    ensures AddressOf(text) == Ok(Value(Octets(a, b, c, d)))
  {
    ReadFour(Split(text), a, b, c, d);
  }

  /** Summing the four weighted components gives the address value. */
  lemma WeightedFour(os: seq<int>)
    requires |os| == 4
    ensures Weighted(os) == Value(Octets(os[0], os[1], os[2], os[3]))
  {
    assert Pow256(3) == 16777216 && Pow256(2) == 65536 && Pow256(1) == 256 && Pow256(0) == 1;
    assert Weighted(os[..1]) == os[0] * 16777216 by {
      assert os[..1][..0] == [];
    }
    assert Weighted(os[..2]) == os[0] * 16777216 + os[1] * 65536 by {
      assert os[..2][..1] == os[..1];
    }
    assert Weighted(os[..3]) == os[0] * 16777216 + os[1] * 65536 + os[2] * 256 by {
      assert os[..3][..2] == os[..2];
    }
    assert os[..4] == os;
  }
}
