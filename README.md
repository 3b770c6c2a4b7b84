# IPv4Counter in Dafny

A model of `IPv4Counter`, a counter of distinct IPv4 addresses kept as presence
bits. The class holds two bit sets, `lowerPresenceSet` and `higherPresenceSet`.
`add` reads a dotted-decimal text as the 32-bit address value of section 3.1 of
RFC 791 and marks one bit for it. `count` adds up the marked bits of both sets,
and `clear` unmarks them all.

Files:

- `Wrappers.dfy`: `Option` and `Result`.
- `Addresses.dfy`: the address value of four octets, its inverse, and the three
  exceptions `add` can raise (a missing component, a number-format failure, a
  negative bit index).
- `Parsing.dfy`: `String.split("\\.")`, `Integer.parseInt` and the reading that
  `getIPAddressAsLong` performs, as pure functions with error results.
- `DottedText.dfy`: the text `a + "." + b + "." + c + "." + d` built from four
  numbers, and what `getIPAddressAsLong` reads back from it.
- `Presence.dfy`: Java's `(int)` narrowing, the bit that `add` marks for each
  value as the code is written and as it was evidently intended, the two bit
  sets as a value (`Masks`), and runs of adds.
- `Counter.dfy`: the class `IPv4Counter`. Its two fields are sets of bit
  indices. `Add`, `SetPresenceBit` and `Clear` update them in place, and `Count`
  reads them. `GetIPAddressAsLong` is the source's loop, proved equal to the pure
  reading.
- `CounterTests.dfy`: the two scenarios of `IPv4CounterTest`, and the colliding
  pair of addresses, stated for the class.

Where the code departs from the documented behaviour of the class (count the
distinct addresses of a file, one address per line), the model follows the code:

- The code checks neither the number of components nor the octet range. Extra
  components are ignored, a component above 255 carries into the next one, and
  a sign before a component, as in `-129` or `+7`, is accepted
  (`DottedText.AddressOfSignedDotted`). A value in [-2^31, 0) then fails in
  `BitSet.set`; a value in [-2^32, -2^31) wraps through the `(int)` cast to a
  non-negative bit, so the text -129.0.0.0 marks the bit of 127.0.0.0
  (`Presence.NegativeValueSlot`, `Presence.NegativeTextWraps`). Values further
  below may wrap to a negative int again and throw: -257.0.0.0 does
  (`Presence.FarNegativeValueThrows`).
- The caller's `try` encloses the whole input loop. The first exception
  therefore ends the run instead of skipping one line (`Presence.MarkRun`).
- As written, the count is exact except for one pair of addresses (see
  Findings). The class in this model uses the corrected comparison, under which
  the count is exact. The comparison as written is kept in `Presence.SlotOf`,
  and the lemmas about it exhibit the collision.

## Model

| member | source | states |
|---|---|---|
| Addresses.Value | src/main/java/org/azaitsev/IPv4Counter.java:86-100 | the weighted sum of four octets in [0, 255] lies in [0, 2^32) |
| Addresses.OctetsOfValue | src/main/java/org/azaitsev/IPv4Counter.java:86-105 | every value in [0, 2^32) is the value of octets in range, so every 32-bit address has a dotted form |
| Addresses.ValueOfOctets | src/main/java/org/azaitsev/IPv4Counter.java:86-105 | octets in range are recovered from their value |
| Addresses.ValueInjective | src/main/java/org/azaitsev/IPv4Counter.java:86-105 | two octet quadruples in range have the same value if and only if they are equal: the value is a unique representation |
| Addresses.FirstOctetMostSignificant | src/main/java/org/azaitsev/IPv4Counter.java:89 | a smaller first octet gives a smaller value, whatever the other three |
| Parsing.Pieces | src/main/java/org/azaitsev/IPv4Counter.java:109 | splitting on dots yields at least one piece |
| Parsing.Split | src/main/java/org/azaitsev/IPv4Counter.java:109 | a text with no dot is its own single piece, and no piece holds a dot; `DottedText.SplitDotted` states what a dotted text splits into |
| Parsing.DropTrailingEmpty | src/main/java/org/azaitsev/IPv4Counter.java:109 | the result is a prefix, only empty pieces are dropped, and the last piece kept is non-empty |
| Parsing.ParseInt | src/main/java/org/azaitsev/IPv4Counter.java:112 | a parsed value lies in the int range and comes from an optional sign followed by decimal digits only |
| Parsing.ReadComponents | src/main/java/org/azaitsev/IPv4Counter.java:111-113 | reading the first n components succeeds exactly when there are n components and each parses, and the values are the parsed components in order |
| Parsing.ReadComponentsFailureSticks | src/main/java/org/azaitsev/IPv4Counter.java:111-113 | once a component is missing or fails to parse, reading further components reports that same first failure |
| Parsing.ReadFour | src/main/java/org/azaitsev/IPv4Counter.java:111-113 | four components that parse are read as those four values |
| Parsing.AddressOfComponents | src/main/java/org/azaitsev/IPv4Counter.java:107-118 | a text whose first four pieces parse reads as the weighted sum of those four numbers |
| Parsing.AddressOf | src/main/java/org/azaitsev/IPv4Counter.java:107-118 | the text reads as a number exactly when it has at least four pieces and the first four parse as ints; otherwise the error is a missing component or a number format error; `Parsing.AddressOfComponents` and `DottedText.AddressOfText` give the value |
| Parsing.WeightedFour | src/main/java/org/azaitsev/IPv4Counter.java:114 | the running sum with weights 256^(3 - index) after four components is the address value of the four |
| Parsing.Pow256 | src/main/java/org/azaitsev/IPv4Counter.java:114 | `Math.pow(256, k)` is at least 1 and, for k > 0, a multiple of 256; `Parsing.WeightedFour` uses it as the weight of each component |
| Parsing.Weighted | src/main/java/org/azaitsev/IPv4Counter.java:111-115 | the running sum over non-negative components is non-negative; `Parsing.WeightedFour` gives its value after four components |
| DottedText.Decimal | src/test/java/org/azaitsev/IPv4CounterTest.java:56 | the decimal text of a number is a non-empty string of digits |
| DottedText.Dotted | src/test/java/org/azaitsev/IPv4CounterTest.java:56 | definition: the four decimal texts joined by dots, at least seven characters; `CounterTests.DottedTextAt` and `DottedText.DottedInjective` state what it reads as and that it identifies the four numbers |
| DottedText.DecimalDigitsValue | src/test/java/org/azaitsev/IPv4CounterTest.java:56 | the digits of the decimal text of n denote n |
| DottedText.ParseDecimal | src/main/java/org/azaitsev/IPv4Counter.java:112 | parseInt reads back the decimal text of every number up to Integer.MAX_VALUE |
| DottedText.ParseSignedDecimal | src/main/java/org/azaitsev/IPv4Counter.java:112 | parseInt accepts a leading sign: `-` followed by digits reads as the negated number, `+` followed by digits as the number |
| DottedText.PiecesOfComponent | src/main/java/org/azaitsev/IPv4Counter.java:109 | a dot-free prefix joins the first piece and leaves the other pieces unchanged |
| DottedText.PiecesOfDotted | src/main/java/org/azaitsev/IPv4Counter.java:109 | splitting `a.rest` gives `a` followed by the pieces of `rest` |
| DottedText.NoDotInDecimal | src/test/java/org/azaitsev/IPv4CounterTest.java:56 | a decimal text holds no dot |
| DottedText.PiecesOfLastComponent | src/main/java/org/azaitsev/IPv4Counter.java:109 | a dot-free piece followed by nothing or by a dot is the first piece on its own |
| DottedText.SplitDotted | src/main/java/org/azaitsev/IPv4Counter.java:109 | splitting four dot-free non-empty parts joined by dots, followed by nothing or a dot, yields those four first |
| DottedText.AddressOfDotted | src/main/java/org/azaitsev/IPv4Counter.java:107-118 | the dotted text of four numbers in [0, Integer.MAX_VALUE], followed by nothing or by a dot and anything, reads as their address value |
| DottedText.AddressOfText | src/main/java/org/azaitsev/IPv4Counter.java:107-118 | a text that is the dotted form of four numbers in [0, Integer.MAX_VALUE] reads as their address value |
| DottedText.AddressOfSignedDotted | src/main/java/org/azaitsev/IPv4Counter.java:107-118 | a sign before the dotted text of four numbers in [0, Integer.MAX_VALUE] is accepted, and the text reads as their weighted sum with the first one negated or kept |
| DottedText.AddressOfSignedText | src/main/java/org/azaitsev/IPv4Counter.java:107-118 | a text that is a sign followed by such a dotted text reads as that signed weighted sum |
| DottedText.WorkedExample | src/main/java/org/azaitsev/IPv4Counter.java:91-102 | 232.100.201.90 reads as 3898919258 |
| DottedText.LowestAddress | src/main/java/org/azaitsev/IPv4Counter.java:107-118 | 0.0.0.0 reads as 0 |
| DottedText.HighestAddress | src/main/java/org/azaitsev/IPv4Counter.java:107-118 | 255.255.255.255 reads as 2^32 - 1 |
| DottedText.LastIntAddress | src/main/java/org/azaitsev/IPv4Counter.java:107-118 | 127.255.255.255 reads as Integer.MAX_VALUE |
| DottedText.FirstLongAddress | src/main/java/org/azaitsev/IPv4Counter.java:107-118 | 128.0.0.0 reads as 2^31 |
| DottedText.UncheckedComponent | src/main/java/org/azaitsev/IPv4Counter.java:111-115 | no octet range check: 0.0.0.256 reads as the value of 0.0.1.0 |
| DottedText.NegativeFirstComponent | src/main/java/org/azaitsev/IPv4Counter.java:107-118 | the text -129.0.0.0 is read, as the value of the components -129, 0, 0, 0 |
| DottedText.LoopbackNetworkAddress | src/main/java/org/azaitsev/IPv4Counter.java:107-118 | 127.0.0.0 reads as the value of 127, 0, 0, 0 |
| DottedText.PlusFirstComponent | src/main/java/org/azaitsev/IPv4Counter.java:107-118 | the text +7.0.0.1 is read, as the value of 7.0.0.1 |
| DottedText.ExtraComponentsIgnored | src/main/java/org/azaitsev/IPv4Counter.java:111 | components after the fourth do not change what a dotted address reads as |
| DottedText.DottedInjective | src/main/java/org/azaitsev/IPv4Counter.java:107-118 | for octets in range, the dotted texts are equal if and only if the octets are, and so are the values read from them |
| Presence.ToInt32 | src/main/java/org/azaitsev/IPv4Counter.java:54-57 | the `(int)` cast yields a value in the int range and leaves int values unchanged |
| Presence.ToInt32Congruent | src/main/java/org/azaitsev/IPv4Counter.java:54-57 | the `(int)` cast keeps the value modulo 2^32 |
| Presence.SlotOf | src/main/java/org/azaitsev/IPv4Counter.java:53-63 | the bit add marks, as written, is always a valid BitSet index in [0, Integer.MAX_VALUE] |
| Presence.AddressSlot | src/main/java/org/azaitsev/IPv4Counter.java:53-63 | on [0, 2^32) the slot is a valid BitSet index, and it is in the lower set exactly when the value is below Integer.MAX_VALUE; `Presence.SlotOfAddress` ties it to `SlotOf` |
| Presence.SlotOfAddress | src/main/java/org/azaitsev/IPv4Counter.java:53-63 | for every value in [0, 2^32): below Integer.MAX_VALUE bit v of the lower set, Integer.MAX_VALUE bit 0 of the higher set, above it bit v - 2^31 of the higher set (255.255.255.255 included, through the wrap-around) |
| Presence.SlotOfShared | src/main/java/org/azaitsev/IPv4Counter.java:53-63 | two address values get the same bit if and only if they are equal or are 127.255.255.255 and 128.0.0.0 |
| Presence.BoundaryCollision | src/main/java/org/azaitsev/IPv4Counter.java:53-63 | 127.255.255.255 and 128.0.0.0 both mark bit 0 of the higher set |
| Presence.IntendedSlot | src/main/java/org/azaitsev/IPv4Counter.java:53-63 | with `<=` in the test, the marked bit is still a valid BitSet index |
| Presence.IntendedAddressSlot | src/main/java/org/azaitsev/IPv4Counter.java:53-63 | on [0, 2^32) the slot is a valid BitSet index, and it is in the lower set exactly when the value is below 2^31; `Presence.IntendedSlotOfAddress` ties it to `IntendedSlot` |
| Presence.IntendedSlotOfAddress | src/main/java/org/azaitsev/IPv4Counter.java:53-63 | with `<=`, add never fails on [0, 2^32): values below 2^31 mark bit v of the lower set and the others bit v - 2^31 of the higher set, 255.255.255.255 included |
| Presence.IntendedSlotInjective | src/main/java/org/azaitsev/IPv4Counter.java:53-63 | with `<=`, two address values mark the same bit if and only if they are equal |
| Presence.NegativeValueSlot | src/main/java/org/azaitsev/IPv4Counter.java:53-55 | under either comparison a value in [-2^31, 0) raises the BitSet exception with that index, and a value in [-2^32, -2^31) marks bit v + 2^32 of the lower set |
| Presence.NegativeValueWraps | src/main/java/org/azaitsev/IPv4Counter.java:53-55 | the value of the components -129, 0, 0, 0 gets the same slot as the value of 127.0.0.0, as written and with `<=` |
| Presence.FarNegativeValueThrows | src/main/java/org/azaitsev/IPv4Counter.java:53-55 | below -2^32 the cast can give a negative int again: the value of -257, 0, 0, 0 raises the BitSet exception with index -16777216, as written and with `<=` |
| Presence.Size | src/main/java/org/azaitsev/IPv4Counter.java:74-76 | the count is 0 exactly when both sets are empty; `Presence.SizeIsOccupancy` relates it to the marked bits |
| Presence.SizeIsOccupancy | src/main/java/org/azaitsev/IPv4Counter.java:74-76 | the sum of the two cardinalities is the number of marked bits of both sets together |
| Presence.OccupancyDetermines | src/main/java/org/azaitsev/IPv4Counter.java:10-11 | the marked bits of both sets together determine both sets |
| Presence.Mark | src/main/java/org/azaitsev/IPv4Counter.java:53-63 | setting a bit of one set marks that bit, keeps the bits already marked and leaves the other set unchanged; `Presence.MarkOccupancy` states that nothing else changes |
| Presence.MarkOccupancy | src/main/java/org/azaitsev/IPv4Counter.java:55-63 | setting a bit adds exactly that bit and nothing else |
| Presence.MarkSize | src/main/java/org/azaitsev/IPv4Counter.java:55-76 | setting a bit raises the count by one exactly when the bit was not yet set, and leaves it unchanged otherwise |
| Presence.TextSlot | src/main/java/org/azaitsev/IPv4Counter.java:35-65 | a text that does not read raises the reading's exception, and a marked bit is always a valid BitSet index |
| Presence.AddText | src/main/java/org/azaitsev/IPv4Counter.java:35-65 | add succeeds exactly when the text's slot is computed, and then adds exactly that slot to the marked bits |
| Presence.AddTextOfAddress | src/main/java/org/azaitsev/IPv4Counter.java:35-65 | add of a text that reads as an address value v marks the slot of v under the corrected comparison, in closed form |
| Presence.AddTextIdempotent | src/main/java/org/azaitsev/IPv4Counter.java:35-65 | adding the same text a second time leaves the state as after one add |
| Presence.AddTextSize | src/main/java/org/azaitsev/IPv4Counter.java:35-76 | an add never lowers the count and raises it by at most one |
| Presence.Outcomes | src/main/java/org/azaitsev/App.java:33-35 | definition: one outcome of add per input line, in order; `Presence.OutcomesOfAddresses` states what they are for valid addresses |
| Presence.MarkRun | src/main/java/org/azaitsev/App.java:30-38 | a failed run fails with the exception of one of its adds; `Presence.MarkRunFails` says which |
| Presence.AddAll | src/main/java/org/azaitsev/App.java:30-38 | a failed run of texts fails with the exception add raises on one of the texts |
| Presence.MarkRunFails | src/main/java/org/azaitsev/App.java:30-38 | a run of adds fails exactly when one of its adds throws, and then with the exception of the first add that throws, since the first exception leaves the loop |
| Presence.MarkRunOccupancy | src/main/java/org/azaitsev/IPv4Counter.java:35-65 | a successful run marks exactly the bits of its adds, in addition to those already marked |
| Presence.MarkRunExtend | src/main/java/org/azaitsev/App.java:33-35 | extending a successful run by one more add gives that add applied to the run's result |
| Presence.AddAllExtend | src/main/java/org/azaitsev/App.java:33-35 | adding one more text after a successful run of texts is the add applied to the run's result |
| Presence.MarkRunOrderIndependent | src/main/java/org/azaitsev/IPv4Counter.java:35-65 | a successful run's result depends only on which adds occur, not on their order or repetition |
| Presence.AddAllOrderIndependent | src/main/java/org/azaitsev/IPv4Counter.java:35-65 | two lists holding the same texts in any order and multiplicity leave the same state |
| Presence.AddressSlotsCount | src/main/java/org/azaitsev/IPv4Counter.java:53-76 | as written, the bits of a set of address values number as many as the values, less one when both 127.255.255.255 and 128.0.0.0 occur |
| Presence.WrittenTextSlot | src/main/java/org/azaitsev/IPv4Counter.java:35-65 | as written, a text that does not read raises the reading's exception, and a marked bit is a valid BitSet index |
| Presence.WrittenOutcomes | src/main/java/org/azaitsev/App.java:33-35 | definition: one outcome of add as written per input line, in order; `Presence.WrittenOutcomesOfAddresses` states what they are for valid addresses |
| Presence.WrittenAddAll | src/main/java/org/azaitsev/App.java:30-38 | as written, a failed run of texts fails with the exception add raises on one of the texts |
| Presence.NegativeTextWraps | src/main/java/org/azaitsev/IPv4Counter.java:35-65 | add of the text -129.0.0.0 succeeds and marks the lower bit of 127.0.0.0, the slot add gives the text 127.0.0.0, as written and with `<=` |
| Presence.WrittenOutcomesOfAddresses | src/main/java/org/azaitsev/IPv4Counter.java:35-65 | as written, for texts that all read as address values, each add marks the slot `AddressSlot` gives its value |
| Presence.WrittenMarkedAddresses | src/main/java/org/azaitsev/IPv4Counter.java:35-65 | as written, for such texts no add throws and the marked bits are exactly the slots of their distinct values |
| Presence.WrittenCountAfterAdds | src/main/java/org/azaitsev/IPv4Counter.java:53-76 | as written, after adding valid addresses to empty sets no add fails and count() is the number of distinct values, less one when both 127.255.255.255 and 128.0.0.0 occur |
| Presence.OutcomesOfAddresses | src/main/java/org/azaitsev/IPv4Counter.java:35-65 | for texts that all read as address values, each add marks the bit of its value |
| Presence.MarkedAddresses | src/main/java/org/azaitsev/IPv4Counter.java:35-65 | for such texts, the marked bits are exactly the bits of their distinct values |
| Presence.CountAfterAdds | src/main/java/org/azaitsev/IPv4Counter.java:53-76 | after adding valid addresses to empty sets, no add fails and the count is the number of distinct values |
| Presence.IntendedSlotsCount | src/main/java/org/azaitsev/IPv4Counter.java:53-76 | with `<=`, the bits of a set of address values number exactly as many as the values |
| Counter.IPv4Counter.constructor | src/main/java/org/azaitsev/IPv4Counter.java:17-20 | a new counter has both sets empty and counts 0 |
| Counter.IPv4Counter.GetIPAddressAsLong | src/main/java/org/azaitsev/IPv4Counter.java:107-118 | the loop returns what the pure reading gives: the weighted sum of the first four components, or the first missing or unparsable component |
| Counter.IPv4Counter.Add | src/main/java/org/azaitsev/IPv4Counter.java:35-65 | add succeeds exactly when the text reads and its bit is a valid index; it then marks that one bit and nothing else, otherwise it raises that exception and leaves both sets unchanged; the count never falls and rises by at most one |
| Counter.IPv4Counter.SetPresenceBit | src/main/java/org/azaitsev/IPv4Counter.java:53-64 | the branch on Integer.MAX_VALUE, with `<=`, marks the bit the corrected mapping gives, or fails on a negative index with both sets unchanged |
| Counter.IPv4Counter.Count | src/main/java/org/azaitsev/IPv4Counter.java:74-76 | the count is the number of marked bits of both sets together |
| Counter.IPv4Counter.Clear | src/main/java/org/azaitsev/IPv4Counter.java:81-84 | after clear both sets are empty and the count is 0 |
| CounterTests.AddNextAddress | src/test/java/org/azaitsev/IPv4CounterTest.java:22-24 | one more valid address extends a successful run by one successful add |
| CounterTests.CountAll | src/test/java/org/azaitsev/IPv4CounterTest.java:18-27 | adding valid addresses one by one to a new counter leaves count() equal to the number of distinct values |
| CounterTests.DottedTexts | src/test/java/org/azaitsev/IPv4CounterTest.java:50-60 | the generated list has one text per draw |
| CounterTests.Elements | src/test/java/org/azaitsev/IPv4CounterTest.java:27 | definition: `new HashSet<>(ips)`, the set of the list's elements; `CounterTests.DottedTextsCount` gives its size for the generated texts |
| CounterTests.DottedTextAt | src/test/java/org/azaitsev/IPv4CounterTest.java:56 | each generated text reads as the value of the four numbers it was written from |
| CounterTests.DottedTextsRead | src/test/java/org/azaitsev/IPv4CounterTest.java:50-60 | the generated texts all read as addresses, their values are those of the draws, and the texts read as exactly the draws' values |
| CounterTests.DrawValuesCount | src/test/java/org/azaitsev/IPv4CounterTest.java:50-60 | distinct draws in range have distinct address values |
| CounterTests.DottedTextsReadApart | src/test/java/org/azaitsev/IPv4CounterTest.java:50-60 | distinct generated texts read as distinct values |
| CounterTests.DottedTextsCount | src/test/java/org/azaitsev/IPv4CounterTest.java:27 | the generated texts have as many distinct texts, and as many distinct values, as there are distinct draws |
| CounterTests.DottedTextsCollisions | src/test/java/org/azaitsev/IPv4CounterTest.java:27 | the generated values hold the colliding pair exactly when both 127.255.255.255 and 128.0.0.0 were drawn |
| CounterTests.CountDistinctIPs | src/test/java/org/azaitsev/IPv4CounterTest.java:15-28 | count() equals the size of the HashSet of the generated texts, which is the number of distinct draws |
| CounterTests.WrittenDistinctIPs | src/test/java/org/azaitsev/IPv4CounterTest.java:15-28 | as written, no add fails, and count() is the size of the HashSet of the texts less one when both 127.255.255.255 and 128.0.0.0 were drawn; it equals that size if and only if they were not both drawn |
| CounterTests.CornerCaseTexts | src/test/java/org/azaitsev/IPv4CounterTest.java:34-39 | the five corner-case texts are the dotted forms of their octets |
| CounterTests.CountCornerCaseIPs | src/test/java/org/azaitsev/IPv4CounterTest.java:30-48 | adding the five corner-case texts to a new counter gives count() == 5, the number of distinct texts |
| CounterTests.CornerCasesNoCollision | src/test/java/org/azaitsev/IPv4CounterTest.java:34-39 | the corner cases are octets in range and do not hold both 127.255.255.255 and 128.0.0.0 |
| CounterTests.CornerCasesFive | src/test/java/org/azaitsev/IPv4CounterTest.java:34-39 | the five corner cases are distinct |
| CounterTests.CornerCasesDistinct | src/test/java/org/azaitsev/IPv4CounterTest.java:47 | the HashSet of the five corner-case texts has five elements |
| CounterTests.WrittenCornerCaseIPs | src/test/java/org/azaitsev/IPv4CounterTest.java:30-48 | the code as written passes the corner-case test: no add fails, 255.255.255.255 included, and count() == 5 |
| CounterTests.CountCollidingIPs | src/main/java/org/azaitsev/IPv4Counter.java:53-63 | with the corrected comparison, adding 127.255.255.255 and 128.0.0.0 to a new counter gives count() == 2, the number of distinct texts |
| CounterTests.WrittenCollidingIPs | src/main/java/org/azaitsev/IPv4Counter.java:53-63 | as written, adding the two distinct texts 127.255.255.255 and 128.0.0.0 to a new counter succeeds and gives count() == 1 |

## Left out

- Counter.IPv4Counter.SetPresenceBit: uses `<=` where line 53 has `<`, so the class counts exactly; the comparison as written is `Presence.SlotOf` (see Findings).
- App.main: reading the input file, timing and console output are I/O. Only the way its loop ends at the first exception is kept, as `Presence.MarkRun`.
- BitSet internals (word arrays, the size hint `Integer.MAX_VALUE` given to the constructor) are not modelled; each bit set is the set of its marked indices.
- Counter.IPv4Counter.GetIPAddressAsLong: `Math.pow` and the `long += double` step compute in doubles; the model uses exact integers. The two agree while the running sum stays below 2^53 in magnitude, which holds whenever the first component is below 2^28 in magnitude (the other three are ints), in particular whenever every component is in [0, 255].
- Parsing.ParseInt: only ASCII digits are accepted; Java's parseInt also accepts other Unicode decimal digits.
- Parsing.Split: only splitting on a single literal dot is modelled, not general regular expressions.
- Counter.IPv4Counter.Count: the `int` sum of the two cardinalities can overflow past 2^31 - 1 once more than that many bits are marked; the model returns the exact sum.
- Random address generation in the test: the drawn numbers are the input of `CounterTests.CountDistinctIPs`.
- Concurrency is not modelled; the class is used by one thread.

## Findings

| source | as written | input that shows it | evidently intended | confidence | as-written member | corrected member |
|---|---|---|---|---|---|---|
| src/main/java/org/azaitsev/IPv4Counter.java:53 | `IPAsLong < Integer.MAX_VALUE` sends 2^31 - 1 to the higher set, where it marks bit 0, the bit of 2^31 | adding 127.255.255.255 and 128.0.0.0 to a new counter gives count() == 1 | `IPAsLong <= Integer.MAX_VALUE` (values below 2^31 in the lower set, value v in bit v - 2^31 of the higher set), so that distinct addresses mark distinct bits | not executed | Presence.SlotOf, Presence.BoundaryCollision, Presence.SlotOfShared, Presence.AddressSlotsCount, Presence.WrittenCountAfterAdds, CounterTests.WrittenCollidingIPs | Presence.IntendedSlot, Presence.IntendedSlotInjective, Presence.IntendedSlotsCount, Counter.IPv4Counter.SetPresenceBit |
