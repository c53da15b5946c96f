# Primitive-typed trading structures, modelled in Dafny

This project models the three hot-path structures of the `javaprimitivetypes`
playground:

- **Fixed-point decimals.** `FixedPointPrice` (scale 5, factor 100000) and
  `FixedPointQuantity` (scale 3, factor 1000) are immutable values that wrap
  one scaled `long`. They parse from text, print back to text and do exact
  integer arithmetic. Both classes run the same algorithm. The module
  `FixedPoint` holds it once, with the scale as a parameter.
  `FixedPointPrice` and `FixedPointQuantity` fix the scale, add what only one
  of the two classes has, and prove the properties at their own scale.
- **The price-ordered order book** (`OrderBook`). Each side is a pair of
  parallel `long[]` arrays plus a count. Bids are kept highest price first
  and asks lowest price first. A new level is placed by binary search and the
  tail is shifted with `System.arraycopy`. A full side doubles its arrays.
  `clear` only resets the counts. The Dafny class keeps the four arrays and
  two counts as fields. `Valid()` states the sortedness and capacity
  invariant. Each method's contract ties the active levels after the call to
  those before it, using the sequence functions of `PriceLevels`.
- **The bounded object pool** (`OrderPool` and its nested `Order` record).
  The pool holds a fixed array of pre-built mutable records and a cursor
  `nextAvailable`. `acquire` tries the cursor first, then takes the
  lowest-index free record. `release` checks ownership by reference and then
  zeroes the record. Records are Dafny objects, so ownership is reference
  equality, just as in the Java code. The `inUse` flags are summarised by
  the functions `Flags`, `CountInUse`, `FirstFree` and `Chosen`.

Java `long` is the subset type `Int64.Long`. The source checks no overflow
anywhere, so the wrap-around of `+`, `-` and `*` is modelled explicitly with
`Int64.Wrap` (two's complement, modulo 2^64). This covers fixed-point
arithmetic, parsing, the spread and the volume sums. The contracts of
addition, subtraction and multiplication by a count say what the result is
when the exact result fits in a `long`, and what it is congruent to
otherwise. The contract of `multiply(other)` describes the result as the
truncating quotient of the wrapped product, whether or not the product fits. Java's truncating `/` and `%` are
`Int64.TruncDiv` / `Int64.TruncRem`. Dafny's own `/` and `%` are Euclidean.

The text conversions are explicit functions in `JavaText`:

- `Long.parseLong` is `ParseLong`: an optional sign, at least one ASCII
  digit, and a range check.
- The `%d` and `%0Nd` conversions of `String.format` are `FormatLong` and
  `ZeroPad`.
- `String.split("\\.")` is `SplitOnDot`. It reproduces the "no match gives
  the input itself" rule and drops trailing empty pieces.
- The pad-with-`%-Ns`-then-replace-spaces step is `Fit`.

Java exceptions are `Outcomes.Result` failures.

The arithmetic, comparison and equality operations of `FixedPointQuantity`
(src/main/java/com/playground/javaprimitivetypes/FixedPointQuantity.java:54-76,
102-107) are the same members of `FixedPoint` as for prices.
FixedPointQuantity.java:10-11 and 27-44 likewise match the price lines cited
below.

A new bid goes before the existing levels of equal price, because the
binary search moves right only while `bidPrices[mid] > price`. Asks behave
the same way with `<`. `PriceLevels.BidSlot` / `AskSlot` and the scenario
`OrderBookScenarios.DuplicatePrice` state this.

## Model

| member | source | states |
|---|---|---|
| `Int64.TruncDivRem` | src/main/java/com/playground/javaprimitivetypes/FixedPointPrice.java:139-143 | Java's truncating quotient and remainder recombine to the dividend; the remainder is below the divisor in magnitude and has the dividend's sign |
| `Int64.WrapAdd` | src/main/java/com/playground/javaprimitivetypes/OrderBook.java:113-119 | wrapping after every `long` addition stores the same value as one wrap of the exact sum |
| `JavaText.ParseLong` | src/main/java/com/playground/javaprimitivetypes/FixedPointPrice.java:39-39 | `Long.parseLong` succeeds exactly when the text after one optional sign is a non-empty run of digits whose value fits the sign's range (up to 2^63 after `-`, 2^63-1 otherwise); the result's magnitude is that value and it is negative only after `-` |
| `JavaText.FormatLong` | src/main/java/com/playground/javaprimitivetypes/FixedPointPrice.java:142-142 | `%d` prints a leading `-` exactly for negative values, followed by digits that read back as the magnitude, with no leading zero, and 0 prints as exactly `"0"`; the text is non-empty and has no dot |
| `JavaText.ParseFormatLong` | src/main/java/com/playground/javaprimitivetypes/FixedPointPrice.java:39-39 | `Long.parseLong` reads back every `long` that `%d` prints |
| `JavaText.SplitOnDot` | src/main/java/com/playground/javaprimitivetypes/FixedPointPrice.java:38-38 | `split("\\.")` returns the input itself when it has no dot, and no piece contains a dot |
| `JavaText.SplitTwo` | src/main/java/com/playground/javaprimitivetypes/FixedPointPrice.java:38-38 | `whole.fraction` with a non-empty fraction splits into exactly the two tokens |
| `JavaText.Fit` | src/main/java/com/playground/javaprimitivetypes/FixedPointPrice.java:44-50 | the fraction token is brought to exactly `scale` characters |
| `JavaText.FitDigits` | src/main/java/com/playground/javaprimitivetypes/FixedPointPrice.java:44-50 | padding a digit fraction appends zeros (value times 10^k); truncation keeps the first `scale` digits, with no rounding |
| `JavaText.ZeroPad` | src/main/java/com/playground/javaprimitivetypes/FixedPointPrice.java:142-142 | `%0Nd` of a value below 10^N is exactly N digits that read back as the value |
| `FixedPoint.FromString` | src/main/java/com/playground/javaprimitivetypes/FixedPointPrice.java:37-55 | fails with the index error exactly when the split leaves no parts (`"."`); otherwise fails with a number-format error when the whole token does not parse, or when there is a fraction token and its padded-or-truncated form does not parse (`"1.ab"`); success needs a parsable whole token; a dot-free input is its whole number times the factor |
| `FixedPoint.FromStringDecimal` | src/main/java/com/playground/javaprimitivetypes/FixedPointPrice.java:53-53 | `whole.digits` gives `whole*factor` plus the padded-or-truncated fraction, which is subtracted exactly when the parsed whole part is negative |
| `FixedPoint.ToString` | src/main/java/com/playground/javaprimitivetypes/FixedPointPrice.java:139-143 | the text is `%d` of the truncated quotient, a dot, then exactly `scale` digits reading back as the absolute truncated remainder |
| `FixedPoint.RoundTrip` | src/main/java/com/playground/javaprimitivetypes/FixedPointPrice.java:37-55 | `fromString(toString(x)) == x` for every value `>= 0` or `<= -factor`, at any scale from 1 to 18 |
| `FixedPoint.PrintAfterParse` | src/main/java/com/playground/javaprimitivetypes/FixedPointPrice.java:37-55 | `toString(fromString(t))` is `t` with its fraction zero-padded to `scale` digits, for every `t` made of a whole part written as `%d` writes it, a dot and 1 to `scale` fraction digits whose combined value fits in a `long` |
| `FixedPoint.NegativeFractionLosesSign` | src/main/java/com/playground/javaprimitivetypes/FixedPointPrice.java:139-143 | a value strictly between -1 and 0 prints without its sign and reads back as its absolute value |
| `FixedPoint.Add` | src/main/java/com/playground/javaprimitivetypes/FixedPointPrice.java:74-76 | the exact sum of the scaled values when it fits in a `long`; always congruent to it modulo 2^64 |
| `FixedPoint.Subtract` | src/main/java/com/playground/javaprimitivetypes/FixedPointPrice.java:81-83 | the exact difference when it fits; always congruent modulo 2^64 |
| `FixedPoint.AddSubtractInverse` | src/main/java/com/playground/javaprimitivetypes/FixedPointPrice.java:74-83 | `(a + b) - b == a` for all values, overflow included |
| `FixedPoint.MultiplyLong` | src/main/java/com/playground/javaprimitivetypes/FixedPointPrice.java:88-90 | the exact product with an unscaled count when it fits; always congruent modulo 2^64 |
| `FixedPoint.Multiply` | src/main/java/com/playground/javaprimitivetypes/FixedPointPrice.java:95-98 | the result's magnitude is the floor of the wrapped product's magnitude divided by the factor, and its sign is the wrapped product's (truncation toward zero); when the product fits, the same holds of the exact product |
| `FixedPoint.MultiplyByOne` | src/main/java/com/playground/javaprimitivetypes/FixedPointPrice.java:95-98 | multiplying by the value 1 (scaled: the factor) returns the value unchanged whenever the product of the scaled values fits in a `long`; beyond that Java wraps the product |
| `FixedPoint.Divide` | src/main/java/com/playground/javaprimitivetypes/FixedPointPrice.java:103-105 | fails (`ArithmeticException`) exactly when the divisor is 0; otherwise the truncated quotient (quotient times divisor plus the truncated remainder is the dividend); `MIN / -1` wraps to `MIN` |
| `FixedPoint.DivideUndoesMultiply` | src/main/java/com/playground/javaprimitivetypes/FixedPointPrice.java:88-105 | `divide(k)` after `multiply(k)` returns the original value when the product fits |
| `FixedPoint.CompareTo` | src/main/java/com/playground/javaprimitivetypes/FixedPointPrice.java:110-112 | -1, 0 or 1, negative exactly when `a < b` and positive exactly when `a > b` on the scaled values |
| `FixedPoint.IsGreaterThan` | src/main/java/com/playground/javaprimitivetypes/FixedPointPrice.java:117-119 | holds exactly when `compareTo` is positive |
| `FixedPoint.IsLessThan` | src/main/java/com/playground/javaprimitivetypes/FixedPointPrice.java:124-126 | holds exactly when `compareTo` is negative |
| `FixedPoint.Equals` | src/main/java/com/playground/javaprimitivetypes/FixedPointPrice.java:145-151 | holds exactly when `compareTo` is 0, i.e. when the scaled values are equal |
| `FixedPoint.CompareConsistent` | src/main/java/com/playground/javaprimitivetypes/FixedPointPrice.java:110-126 | `compareTo` is antisymmetric; `a > b` iff `b < a`; equal iff neither greater nor less |
| `FixedPointPrice.ScaleConstants` | src/main/java/com/playground/javaprimitivetypes/FixedPointPrice.java:15-16 | the price scale is 5 and its factor 100000 |
| `FixedPointPrice.RoundTrip` | src/main/java/com/playground/javaprimitivetypes/FixedPointPrice.java:139-143 | at scale 5, `fromString(toString(p)) == p` for `p >= 0` or `p <= -100000` |
| `FixedPointPrice.PrintAfterParse` | src/main/java/com/playground/javaprimitivetypes/FixedPointPrice.java:139-143 | at scale 5, a `%d` whole part, a dot and 1 to 5 fraction digits print back as the same text with the fraction padded to five digits |
| `FixedPointPrice.MinusZeroNotKept` | src/main/java/com/playground/javaprimitivetypes/FixedPointPrice.java:53-53 | `"-0.5"` reads as +50000 because the parsed whole part `-0` is not negative, and +50000 prints as `"0.50000"`, so parsing then printing does not give this text back |
| `FixedPointPrice.NegativeFractionLosesSign` | src/main/java/com/playground/javaprimitivetypes/FixedPointPrice.java:139-143 | at scale 5, a price in (-1, 0) reads back negated after printing |
| `FixedPointPrice.FromStringPadded` | src/main/java/com/playground/javaprimitivetypes/FixedPointPrice.java:46-47 | `"99.95"` parses to 9995000 |
| `FixedPointPrice.FromStringTruncated` | src/main/java/com/playground/javaprimitivetypes/FixedPointPrice.java:48-49 | `"1.234567"` parses to 123456: the sixth digit is dropped, not rounded |
| `FixedPointPrice.FromStringNegative` | src/main/java/com/playground/javaprimitivetypes/FixedPointPrice.java:53-53 | `"-10.50"` parses to -1050000 |
| `FixedPointPrice.FromStringNegativeZero` | src/main/java/com/playground/javaprimitivetypes/FixedPointPrice.java:53-53 | `"-0.5"` parses to +50000, because the whole part `-0` is not negative |
| `FixedPointPrice.FromStringErrors` | src/main/java/com/playground/javaprimitivetypes/FixedPointPrice.java:38-40 | `".5"`, `""` and `"1.ab"` fail with a number-format error; `"."` fails because the split yields no parts |
| `FixedPointPrice.ToStringNegative` | src/main/java/com/playground/javaprimitivetypes/FixedPointPrice.java:139-143 | -1050000 prints as `"-10.50000"` |
| `FixedPointPrice.ToStringPositive` | src/main/java/com/playground/javaprimitivetypes/FixedPointPrice.java:139-143 | 12345600 prints as `"123.45600"` |
| `FixedPointPrice.ToStringNegativeFraction` | src/main/java/com/playground/javaprimitivetypes/FixedPointPrice.java:139-143 | -50000 prints as `"0.50000"`, without a sign |
| `FixedPointPrice.AddExample` | src/test/java/com/playground/javaprimitivetypes/FixedPointPriceTest.java:116-127 | 0.1 + 0.2 is exactly 30000, which is what `"0.3"` parses to and prints as `"0.30000"` |
| `FixedPointPrice.MultiplyDivideExamples` | src/test/java/com/playground/javaprimitivetypes/FixedPointPriceTest.java:71-90 | 10.50 × 2.00 = 21.00000; 100 / 4 = 25; dividing by 0 fails |
| `FixedPointQuantity.ScaleConstants` | src/main/java/com/playground/javaprimitivetypes/FixedPointQuantity.java:10-11 | the quantity scale is 3 and its factor 1000 |
| `FixedPointQuantity.FromLong` | src/main/java/com/playground/javaprimitivetypes/FixedPointQuantity.java:19-21 | the whole count times 1000 when it fits; always congruent modulo 2^64 |
| `FixedPointQuantity.ToLong` | src/main/java/com/playground/javaprimitivetypes/FixedPointQuantity.java:90-92 | the whole count truncated toward zero: `1000*|r| <= |x| < 1000*(|r|+1)`, with the value's sign |
| `FixedPointQuantity.ToLongFromLong` | src/main/java/com/playground/javaprimitivetypes/FixedPointQuantity.java:19-21 | `toLong(fromLong(q)) == q` when `q*1000` fits |
| `FixedPointQuantity.FromStringWhole` | src/main/java/com/playground/javaprimitivetypes/FixedPointQuantity.java:27-44 | parsing a printed whole number gives the same value as `fromLong`, overflow included |
| `FixedPointQuantity.IsPositive` | src/main/java/com/playground/javaprimitivetypes/FixedPointQuantity.java:78-80 | holds exactly when the value compares above zero |
| `FixedPointQuantity.IsZero` | src/main/java/com/playground/javaprimitivetypes/FixedPointQuantity.java:82-84 | holds exactly when the value equals zero |
| `FixedPointQuantity.SignTrichotomy` | src/main/java/com/playground/javaprimitivetypes/FixedPointQuantity.java:78-84 | a quantity is zero, positive or below zero, never both zero and positive; positive iff greater than zero |
| `FixedPointQuantity.RoundTrip` | src/main/java/com/playground/javaprimitivetypes/FixedPointQuantity.java:95-99 | at scale 3, `fromString(toString(q)) == q` for `q >= 0` or `q <= -1000` |
| `FixedPointQuantity.PrintAfterParse` | src/main/java/com/playground/javaprimitivetypes/FixedPointQuantity.java:95-99 | at scale 3, a `%d` whole part, a dot and 1 to 3 fraction digits print back as the same text with the fraction padded to three digits |
| `FixedPointQuantity.NegativeFractionLosesSign` | src/main/java/com/playground/javaprimitivetypes/FixedPointQuantity.java:95-99 | at scale 3, a quantity in (-1, 0) reads back negated after printing |
| `FixedPointQuantity.FromStringExample` | src/main/java/com/playground/javaprimitivetypes/FixedPointQuantity.java:27-44 | `"500.250"` parses to 500250 |
| `FixedPointQuantity.ToStringExample` | src/main/java/com/playground/javaprimitivetypes/FixedPointQuantity.java:95-99 | 500250 prints as `"500.250"` |
| `FixedPointQuantity.NegativeExample` | src/main/java/com/playground/javaprimitivetypes/FixedPointQuantity.java:42-42 | `"-10.5"` parses to -10500, which is neither positive nor zero |
| `FixedPointQuantity.ConversionExamples` | src/test/java/com/playground/javaprimitivetypes/FixedPointQuantityTest.java:10-17 | `fromLong(1000)` is 1000000 and `toLong` gives 1000 back; `toLong` truncates 1.5 to 1 and -1.5 to -1 |
| `PriceLevels.Insert` | src/main/java/com/playground/javaprimitivetypes/OrderBook.java:49-56 | the new element is at the slot, the elements before it are kept, and the ones after it move up by one |
| `PriceLevels.BidSlot` | src/main/java/com/playground/javaprimitivetypes/OrderBook.java:195-209 | every level before the slot is priced above the new bid, and the level at the slot is not |
| `PriceLevels.AskSlot` | src/main/java/com/playground/javaprimitivetypes/OrderBook.java:211-225 | every level before the slot is priced below the new ask, and the level at the slot is not |
| `PriceLevels.BidSlotSplits` | src/main/java/com/playground/javaprimitivetypes/OrderBook.java:195-209 | on a sorted bid side, every level from the slot on is priced at or below the new bid, so the bid goes before equal prices |
| `PriceLevels.AskSlotSplits` | src/main/java/com/playground/javaprimitivetypes/OrderBook.java:211-225 | on a sorted ask side, every level from the slot on is priced at or above the new ask |
| `PriceLevels.BidSlotUnique` | src/main/java/com/playground/javaprimitivetypes/OrderBook.java:200-208 | the index the binary search's loop invariant pins down is the bid slot |
| `PriceLevels.AskSlotUnique` | src/main/java/com/playground/javaprimitivetypes/OrderBook.java:216-224 | the index the binary search's loop invariant pins down is the ask slot |
| `PriceLevels.InsertBidSorted` | src/main/java/com/playground/javaprimitivetypes/OrderBook.java:42-57 | inserting a bid at its slot keeps the bid side non-increasing |
| `PriceLevels.InsertAskSorted` | src/main/java/com/playground/javaprimitivetypes/OrderBook.java:63-78 | inserting an ask at its slot keeps the ask side non-decreasing |
| `PriceLevels.InsertMultiset` | src/main/java/com/playground/javaprimitivetypes/OrderBook.java:49-56 | insertion adds exactly the new element to the multiset of levels |
| `PriceLevels.RemoveFirstMultiset` | src/main/java/com/playground/javaprimitivetypes/OrderBook.java:149-155 | removing the top loses exactly the top element |
| `PriceLevels.RemoveFirstSorted` | src/main/java/com/playground/javaprimitivetypes/OrderBook.java:149-166 | removing the top keeps either order |
| `PriceLevels.BestIsExtreme` | src/main/java/com/playground/javaprimitivetypes/OrderBook.java:83-98 | level 0 of a sorted bid side is its highest price, and of an ask side its lowest |
| `PriceLevels.SumConcat` | src/main/java/com/playground/javaprimitivetypes/OrderBook.java:113-119 | the volume of two runs of levels is the sum of their volumes |
| `PriceLevels.SumInsert` | src/main/java/com/playground/javaprimitivetypes/OrderBook.java:42-57 | adding a level raises the side's exact volume by its quantity |
| `PriceLevels.SumRemoveFirst` | src/main/java/com/playground/javaprimitivetypes/OrderBook.java:149-155 | removing the top lowers the side's exact volume by the top quantity |
| `OrderBooks.ArrayCopy` | src/main/java/com/playground/javaprimitivetypes/OrderBook.java:50-51 | `System.arraycopy`: each target slot in range receives the source slot's value from before the copy (overlap-safe); no other slot changes |
| `OrderBooks.CopyOf` | src/main/java/com/playground/javaprimitivetypes/OrderBook.java:182-183 | `Arrays.copyOf` to a larger length: a fresh array holding the old elements, then zeros |
| `OrderBooks.InsertAt` | src/main/java/com/playground/javaprimitivetypes/OrderBook.java:49-55 | after the shift and the store, the active prefix is the old prefix with the element inserted |
| `OrderBooks.ShiftDown` | src/main/java/com/playground/javaprimitivetypes/OrderBook.java:151-152 | after the shift, the shorter active prefix is the old prefix without its first element |
| `OrderBooks.OrderBook.constructor` | src/main/java/com/playground/javaprimitivetypes/OrderBook.java:28-36 | four fresh arrays of capacity 100, both sides empty |
| `OrderBooks.OrderBook.EnsureBidCapacity` | src/main/java/com/playground/javaprimitivetypes/OrderBook.java:179-185 | a full bid side gets fresh arrays of twice the length, every slot keeping its index; otherwise nothing changes; afterwards there is room for one more level |
| `OrderBooks.OrderBook.EnsureAskCapacity` | src/main/java/com/playground/javaprimitivetypes/OrderBook.java:187-193 | the same for the ask side |
| `OrderBooks.OrderBook.FindBidInsertPosition` | src/main/java/com/playground/javaprimitivetypes/OrderBook.java:195-209 | the binary search returns the bid slot: the first level priced at or below the new bid |
| `OrderBooks.OrderBook.FindAskInsertPosition` | src/main/java/com/playground/javaprimitivetypes/OrderBook.java:211-225 | the binary search returns the ask slot: the first level priced at or above the new ask |
| `OrderBooks.OrderBook.AddBid` | src/main/java/com/playground/javaprimitivetypes/OrderBook.java:42-57 | the count rises by one; prices and quantities are the old ones with the pair inserted at the bid slot, pairing kept; the multiset gains the price; sortedness and `count <= capacity` are kept; capacity doubles exactly when the side was full; the ask side is untouched |
| `OrderBooks.OrderBook.AddAsk` | src/main/java/com/playground/javaprimitivetypes/OrderBook.java:63-78 | the same for the ask side, at the ask slot; the bid side is untouched |
| `OrderBooks.OrderBook.RemoveTopBid` | src/main/java/com/playground/javaprimitivetypes/OrderBook.java:149-155 | no effect on an empty side; otherwise the count drops by one and new level `i` is old level `i+1` (price and quantity); the same arrays are kept; asks are untouched |
| `OrderBooks.OrderBook.RemoveTopAsk` | src/main/java/com/playground/javaprimitivetypes/OrderBook.java:160-166 | the same for the ask side |
| `OrderBooks.OrderBook.Clear` | src/main/java/com/playground/javaprimitivetypes/OrderBook.java:171-175 | both counts become 0; the same arrays with the same contents are kept |
| `OrderBooks.OrderBook.BestBidPrice` | src/main/java/com/playground/javaprimitivetypes/OrderBook.java:83-88 | 0 for an empty side; otherwise an active price no lower than any other active bid |
| `OrderBooks.OrderBook.BestAskPrice` | src/main/java/com/playground/javaprimitivetypes/OrderBook.java:93-98 | 0 for an empty side; otherwise an active price no higher than any other active ask |
| `OrderBooks.OrderBook.Spread` | src/main/java/com/playground/javaprimitivetypes/OrderBook.java:103-108 | 0 if either side is empty; otherwise best ask minus best bid (exact when it fits, congruent modulo 2^64 always) |
| `OrderBooks.OrderBook.BidCount` | src/main/java/com/playground/javaprimitivetypes/OrderBook.java:135-137 | the number of active bid levels, at most the capacity |
| `OrderBooks.OrderBook.AskCount` | src/main/java/com/playground/javaprimitivetypes/OrderBook.java:142-144 | the number of active ask levels, at most the capacity |
| `OrderBooks.OrderBook.TotalBidVolume` | src/main/java/com/playground/javaprimitivetypes/OrderBook.java:113-119 | the `long` sum of the active bid quantities only (exact when it fits) |
| `OrderBooks.OrderBook.TotalAskVolume` | src/main/java/com/playground/javaprimitivetypes/OrderBook.java:124-130 | the `long` sum of the active ask quantities only (exact when it fits) |
| `OrderBooks.OrderBook.BidPriceAtLevel` | src/main/java/com/playground/javaprimitivetypes/OrderBook.java:230-235 | fails exactly when `level < 0` or `level >= bidCount`; otherwise the active price at that level |
| `OrderBooks.OrderBook.AskPriceAtLevel` | src/main/java/com/playground/javaprimitivetypes/OrderBook.java:240-245 | fails exactly when `level < 0` or `level >= askCount`; otherwise the active price at that level |
| `OrderBooks.OrderBook.BidQuantityAtLevel` | src/main/java/com/playground/javaprimitivetypes/OrderBook.java:250-255 | fails exactly outside the active bid levels; otherwise the quantity paired with that level |
| `OrderBooks.OrderBook.AskQuantityAtLevel` | src/main/java/com/playground/javaprimitivetypes/OrderBook.java:260-265 | fails exactly outside the active ask levels; otherwise the quantity paired with that level |
| `OrderBookScenarios.BidOrdering` | src/test/java/com/playground/javaprimitivetypes/OrderBookTest.java:28-39 | bids 100, 105, 95 give count 3, best 105 and levels 105, 100, 95 |
| `OrderBookScenarios.AskOrdering` | src/test/java/com/playground/javaprimitivetypes/OrderBookTest.java:43-54 | asks 110, 105, 115 give count 3, best 105 and levels 105, 110, 115 |
| `OrderBookScenarios.SpreadExample` | src/test/java/com/playground/javaprimitivetypes/OrderBookTest.java:58-71 | an empty book has spread 0; bid 100 and ask 105 give spread 500000 |
| `OrderBookScenarios.VolumeExample` | src/test/java/com/playground/javaprimitivetypes/OrderBookTest.java:75-84 | quantities 1000, 500 and 750 total 2250; the empty ask side totals 0 |
| `OrderBookScenarios.SumOfThree` | src/main/java/com/playground/javaprimitivetypes/OrderBook.java:113-119 | the volume of three levels is the sum of their three quantities |
| `OrderBookScenarios.RemoveTopExample` | src/test/java/com/playground/javaprimitivetypes/OrderBookTest.java:99-108 | removing the best of bids 105 and 100 leaves one level, best 100; removing from the empty ask side leaves it empty |
| `OrderBookScenarios.DuplicatePrice` | src/main/java/com/playground/javaprimitivetypes/OrderBook.java:195-209 | a second bid at an existing price is a separate level, placed before the first |
| `OrderBookScenarios.ClearAndReuse` | src/test/java/com/playground/javaprimitivetypes/OrderBookTest.java:123-133 | after `clear` both counts are 0 and level 0 fails; a new bid then is the only level |
| `OrderPools.Order.constructor` | src/main/java/com/playground/javaprimitivetypes/OrderPool.java:33-35 | a new record is zeroed and free |
| `OrderPools.Order.Set` | src/main/java/com/playground/javaprimitivetypes/OrderPool.java:41-50 | writes exactly the five given fields, status 0 and `inUse = true` |
| `OrderPools.Order.Reset` | src/main/java/com/playground/javaprimitivetypes/OrderPool.java:55-63 | every field zeroed and the record free |
| `OrderPools.Order.SetStatus` | src/main/java/com/playground/javaprimitivetypes/OrderPool.java:75-75 | changes the status and nothing else |
| `OrderPools.Order.SetQuantity` | src/main/java/com/playground/javaprimitivetypes/OrderPool.java:76-76 | changes the quantity and nothing else |
| `OrderPools.CountInUse` | src/main/java/com/playground/javaprimitivetypes/OrderPool.java:160-168 | the in-use count never exceeds the number of records |
| `OrderPools.FirstFree` | src/main/java/com/playground/javaprimitivetypes/OrderPool.java:113-119 | none exactly when every record is in use; otherwise a free index with every lower index in use |
| `OrderPools.Chosen` | src/main/java/com/playground/javaprimitivetypes/OrderPool.java:102-119 | the cursor's index when it is in range and free, otherwise the lowest free index; none exactly when all are in use |
| `OrderPools.FirstFreeUnique` | src/main/java/com/playground/javaprimitivetypes/OrderPool.java:114-119 | the scan's first free index is the lowest free index |
| `OrderPools.CountAllInUse` | src/main/java/com/playground/javaprimitivetypes/OrderPool.java:187-189 | the in-use count equals the capacity exactly when every record is in use |
| `OrderPools.CountNoneInUse` | src/main/java/com/playground/javaprimitivetypes/OrderPool.java:195-200 | no record in use means an in-use count of 0 |
| `OrderPools.CountUpdate` | src/main/java/com/playground/javaprimitivetypes/OrderPool.java:107-116 | changing one flag moves the in-use count by exactly one when the flag changes, and not otherwise |
| `OrderPools.OrderPool.constructor` | src/main/java/com/playground/javaprimitivetypes/OrderPool.java:87-97 | `capacity` distinct fresh records, all zeroed and free; cursor 0; in-use count 0 |
| `OrderPools.OrderPool.Acquire` | src/main/java/com/playground/javaprimitivetypes/OrderPool.java:102-124 | hands out the record `Chosen` picks and marks it in use, advancing the cursor only on the fast path; fails reporting the capacity with nothing changed when all are in use; the in-use count rises by exactly one on success; no other flag or field changes |
| `OrderPools.OrderPool.AcquireLowestFree` | src/main/java/com/playground/javaprimitivetypes/OrderPool.java:113-123 | the scan takes the lowest free record or fails with the capacity, leaving the cursor alone |
| `OrderPools.OrderPool.Release` | src/main/java/com/playground/javaprimitivetypes/OrderPool.java:130-155 | null is a no-op; a foreign record fails and changes nothing; a pool record (free or not) is zeroed and freed, the cursor becomes 0, no other record changes, and the in-use count drops by one exactly when the record was in use |
| `OrderPools.OrderPool.Owns` | src/main/java/com/playground/javaprimitivetypes/OrderPool.java:136-142 | the scan finds the record exactly when it is one of the pool's records (by reference), and reports its index |
| `OrderPools.OrderPool.Free` | src/main/java/com/playground/javaprimitivetypes/OrderPool.java:149-154 | the found record is zeroed and freed, every other record keeps its state, the cursor becomes 0, and the in-use count drops by one exactly when the record was in use |
| `OrderPools.OrderPool.InUseCount` | src/main/java/com/playground/javaprimitivetypes/OrderPool.java:160-168 | the number of records whose `inUse` flag is set |
| `OrderPools.OrderPool.AvailableCount` | src/main/java/com/playground/javaprimitivetypes/OrderPool.java:173-175 | in use plus available is the capacity |
| `OrderPools.OrderPool.Capacity` | src/main/java/com/playground/javaprimitivetypes/OrderPool.java:180-182 | the number of records in the pool array |
| `OrderPools.OrderPool.IsExhausted` | src/main/java/com/playground/javaprimitivetypes/OrderPool.java:187-189 | holds exactly when every record is in use |
| `OrderPools.OrderPool.ResetAll` | src/main/java/com/playground/javaprimitivetypes/OrderPool.java:195-200 | every record zeroed and free, cursor 0, in-use count 0 |
| `OrderPools.ReuseAfterRelease` | src/test/java/com/playground/javaprimitivetypes/OrderPoolTest.java:68-80 | acquire A, acquire B, release A: the next acquire returns A itself, A and B are distinct, and two records are in use |
| `OrderPools.ExhaustionScenario` | src/test/java/com/playground/javaprimitivetypes/OrderPoolTest.java:83-97 | with both records of a two-record pool in use, `acquire` fails reporting capacity 2 |

## Left out

- `fromDouble` / `toDouble` of both fixed-point classes: these are floating-point conversions and Dafny has no `double`.
- `hashCode` of both fixed-point classes: it only delegates to `Long.hashCode`; `equals` over the scaled value is modelled.
- `getScaledValue` and `fromScaledLong`: these are the field `value` and the constructor `Fixed` of `FixedPoint.Fixed`, which need no separate member.
- The `Order` getters (`getOrderId` … `isInUse`): they return the fields, and the model reads the fields of `OrderPools.Order` directly.
- `Long.parseLong` accepts every Unicode decimal digit; `JavaText.ParseLong` accepts ASCII `0`-`9` only.
- `String.format` writes digits with the default locale's zero digit; `JavaText.FormatLong` and `JavaText.ZeroPad` write ASCII digits only.
- Exception messages beyond their kind: the level getters' failure records the level and the pool's exhaustion failure records the capacity; other text is not modelled.
- Java `int` overflow of the book counts, of `bidPrices.length * GROWTH_FACTOR` and of `(left + right) / 2`: these need more than 2^30 levels, so counts are unbounded `nat`s. The pool's capacity is likewise a `nat` (a negative capacity would make the Java constructor throw).
- OrderPool.java's `status` is an `int` that the code never checks against 0, 1 or 2, and the model does not check it either.
- `PrimitiveVsWrapperComparison.java`, `Main.java` and the Cucumber step classes: these are demonstration, reporting and test glue, with clock reads and printing.
- Allocation and garbage-collection behaviour: the model states what is observable. `clear`, `removeTop*` and `release` keep the same arrays and records, and the pool never creates records after construction.
- `FixedPoint.Equals`: prices and quantities share the one type `FixedPoint.Fixed`, so `Equals` of a price and a quantity with the same scaled value holds, while Java's `equals(Object)` is false for an object of the other class and for `null`; likewise nothing stops a value from being printed or parsed at the other class's scale.
- `FixedPoint.PrintAfterParse`: covers only text whose whole part is written as `%d` writes it and whose fraction has at most `scale` digits, with a combined value that fits in a `long`. Other text does not come back: `"-0.5"` prints as `"0.50000"` (`FixedPointPrice.MinusZeroNotKept`), `"+1.5"` and `"01.5"` print as `"1.50000"`, a longer fraction loses its extra digits, and an overflowing value wraps.
- `FixedPoint.RoundTrip`: holds only for values `>= 0` or `<= -factor`. The source prints values strictly between -1 and 0 without their sign, and `FixedPoint.NegativeFractionLosesSign` states what happens to them instead.
