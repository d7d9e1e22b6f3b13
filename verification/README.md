# Ledger verification

A Dafny model of the parts of the ledger whose correctness rests on arithmetic, on data
structures or on whole runs, with proofs. `dafny verify dfyconfig.toml` checks everything.

* **Fee pricing.** The 64.64 fixed-point numbers (`FixedPoint`), their powers (`Power`), the
  101-point price adjustment curve (`PriceAdjustment`, `PriceCurve`), the block-by-block update of
  the prices (`FeePrices`, `PricingRuns`, `PriceMovement`), the normalisation, durations and sums
  of costs (`Costs`), the overall cost of a transaction (`OverallCost`) and its fee (`Fees`).
* **Storage.** The Merkle Patricia trie behind the ledger's maps: its operations (`Trie`), the map
  it stands for (`TrieMap`), its canonical form (`TrieCanon`), which operations keep that form
  (`TrieKeeps`), the invariants the code states and the canonical form of any trie
  (`TrieChecked`, `TrieExamples`), which keys leave no trace of their history (`TrieHistories`),
  when an empty map is the empty node (`TrieLively`, `TrieAligned`, `TrieEmptiness`), recorded
  sizes and iteration (`TrieSizes`), pruning (`TriePrune`, `TrieOrder`), predecessor search
  (`TriePredecessor`) and panics (`TriePanics`). On top of it the time-filtered map (`TimeKeys`,
  `TimeFilter`, `TimeRuns`), and its two uses over whole runs of the ledger: replay protection
  (`Replay`) and the history of Merkle roots (`PastRoots`).
* **Codecs.** Byte strings as field elements (`Bytes`, `FieldBytes`), the derived field codec
  (`Values`, `Codec`), the derived binary representation (`BinaryRepr`) and the preimages of
  hashes (`Preimages`).
* **Smaller pieces.** The longest-path search of the log script (`LongestPath`), the sorting of
  unshielded offers (`UnshieldedOffer`) and the counting multiset (`MultiSet`).

Machine integers are mathematical ones with every cast, clamp and wrap-around written out.
Loops and in-place updates are methods, each proved equal to a function or proved to have the
property outright; the laws are lemmas about those functions.

Where the code does not do what its documentation or tests promise, the model follows the code,
and a lemma says exactly when the promise holds:

* `Mul` is documented to saturate; below the minimum it wraps, and that is the saturated value
  only for a product a multiple of 2^128 below it (`MulIsExact`, `MulWrapsBelow`). Division wraps
  for quotients of a magnitude in [2^127, 2^128), except for the minimum itself, and below that it
  gives minus the maximum (`DivIsExact`, `DivFlipsSign`), so the negative power of a number whose positive power is two units is the
  minimum (`NegativePower`, `NegativePowerWraps`).
* Division is documented to round up; it rounds away from zero, so a negative quotient is rounded
  down unless it is exact (`DivRoundsUp`, `DivRoundsDown`).
* A duration times a number is the exact product rounded up, unless the product is above 2^63,
  the duration is 2^63 or more, or a negative product wraps around (`DurationScaling`): a duration
  of 2^63 times one is nothing (`ScalingLong`, `LongDurationVanishes`). A duration as a fraction of
  a limit, times the limit, fails likewise (`DurationRoundTrip`).
* Normalisation accepts a cost above its limit only for a limit of 1 and a raw cost of at least
  2^63 (`NormalizeIsExact`).
* The prices stay balanced for every minimum ratio of at least 2^-63 and for no smaller one
  (`RatioThreshold`).
* The trie is meant to be the same for the same map whatever its history. Over a given set of
  keys that holds if and only if any two of them are friendly (`TracelessExactly`). Cut every key
  into stretches of 255 nibbles: one key may be a proper prefix of another only if it ends with a
  full stretch or is empty, and two may part only at the last nibble of a full stretch, or in the
  last stretch of each. For keys of at most 255 nibbles this says that none but the empty one is a
  proper prefix of another (`ShortExactly`). The map itself is right after every history
  (`HistoryIsMap`, `HistorySize`, `HistoryIterates`).
* The invariants stated for nodes are meant to leave one trie for each map. They let through
  extensions with an empty path and extensions that lead nowhere (`HollowPasses`,
  `PathlessPasses`), and nothing else that is not canonical (`CheckedExactly`, `CheckedUnique`).
  They are documented to be checked when a node is loaded, but loading checks the sums of the
  annotations only, which let more through (`LonelyLoads`).
* The emptiness test asks for the empty node. It is right as long as no insertion ends inside an
  extension (`EmptyTestRight`). Over a given set of keys it is right after every history if and
  only if every key that another one continues, but the empty one, ends with a full stretch, and
  every key that parts from it or ends on the way to it does so at the end of one
  (`EmptyExactly`, `EmptyMapNotEmptyNode`, `DetourNotEmptyNode`). For keys of at most 255 nibbles
  this again says that none but the empty one is a proper prefix of another (`ShortEmptyExactly`).
* Removing a path panics if it ends at a branch (`RemoveTakes`): on a canonical trie, if and only
  if it is no key and two keys part right after it (`RemovalExactly`, `RemovalPanics`).
  Predecessor search panics if its target ends inside an extension (`PredecessorFinds`,
  `SearchPanics`): on a canonical trie, if and only if the target is no key, some key continues it,
  no two keys part right after it, and its distance from the last point above it where a key ends,
  a fork was just passed or the root lies is no multiple of 255 (`SearchExactly`).
* `upsert` of an item into a container that has it counts the item twice, so `contains` still
  finds it after its entry was filtered out (`RunContains`, `DoubledLingers`). Replay
  protection never does that (`RunTracks`).
* Replay protection keeps a hash until a block ends after its time to live, and accepts it again
  exactly from then on (`RunAccepts`, `AgainAfterExpiry`). An intent's hash covers its time to
  live, so it is expired by then and never accepted twice (`NeverTwice`). The hash of a payout or a
  claim of rewards covers amount, address and nonce only, so it is accepted again (`PayoutAgain`).
* The documentation of the map's `prune` says it removes the target too; the node's
  documentation and the code keep it (`PruneCuts`).
* The longest-path search returns a walk to a state farthest from the genesis states. That is a
  longest path if and only if the reachable states can be numbered up to its length so that
  every edge rises (`LongestExactly`), as they can if all walks to a state are equally long
  (`LayeredExactly`, `FarthestIsLongest`), but not with a shortcut (`ShortcutHidesLongest`).
* A timestamp plus a duration of 2^64 seconds or more is cut to its low 64 bits (`PlusIsExact`).

## Model

| member | source | states |
|---|---|---|
| `FixedPoint.MulIsExact` | base-crypto/src/cost_model.rs:793-803 | the product is the floored exact one, saturated at both ends, if and only if that is not below the minimum or a multiple of 2^128 below it |
| `FixedPoint.MulWrapsBelow` | base-crypto/src/cost_model.rs:793-803 | the greatest number times minus two comes out as two units |
| `FixedPoint.MulNonNegative` | base-crypto/src/cost_model.rs:793-803 | products of non-negative numbers floor and saturate, and stay non-negative |
| `FixedPoint.AddNearest` | base-crypto/src/cost_model.rs:766-784 | a sum or difference is the number nearest to the exact one |
| `FixedPoint.AtomicUnitsExactly` | base-crypto/src/cost_model.rs:688-705 | for every amount and base unit: the result is the least number of units worth the amount, zero for negatives, or as many as 128 bits hold |
| `FixedPoint.UnsignedQuotient` | base-crypto/src/cost_model.rs:744-764 | a quotient of unsigned numbers is the exact one rounded up below 2^127, saturates from 2^128 on, and is negative in between |
| `FixedPoint.DivIsExact` | base-crypto/src/cost_model.rs:744-821 | for every divisor but zero, division rounds the exact quotient away from zero and saturates at both ends, if and only if the rounded magnitude is below 2^127, or at least 2^128 and the quotient positive, or 2^127 and the quotient negative |
| `FixedPoint.RoundedUpIsLeast` | base-crypto/src/cost_model.rs:804-821 | the documented result is the least integer not below the exact quotient |
| `FixedPoint.DivRoundsUp` | base-crypto/src/cost_model.rs:744-821 | division gives it, saturated, if and only if the dividend is zero, or the quotient is positive and outside [2^127, 2^128), or negative, exact and not below the minimum |
| `FixedPoint.DivRoundsDown` | base-crypto/src/cost_model.rs:744-821 | minus one unit divided by two is minus one unit, where rounding up gives zero |
| `FixedPoint.DivFlipsSign` | base-crypto/src/cost_model.rs:744-821 | a quotient of positive numbers in that window comes out negative |
| `FixedPoint.DivThenMul` | base-crypto/src/cost_model.rs:744-821 | dividing by b and multiplying back exceeds the start by at most floor((b-1)/2^64), and is exact for b up to one |
| `PriceAdjustment.InterpolateRounds` | base-crypto/src/cost_model.rs:825-945 | between any rising points the result is the exact height of the polyline, floored, or one unit less |
| `PriceAdjustment.InterpolateMono` | base-crypto/src/cost_model.rs:825-945 | interpolation through any rising points is monotone up to one unit |
| `PriceAdjustment.InterpolateBounds` | base-crypto/src/cost_model.rs:825-945 | it stays between the end points up to one unit, for negative and overfull usage too |
| `PriceAdjustment.InterpolateAtPoint` | base-crypto/src/cost_model.rs:825-945 | at a multiple of the segment length it is exactly the point |
| `PriceAdjustment.PointsFormCurve` | base-crypto/src/cost_model.rs:825-931 | the 101 points of the table rise, and the last segment is flat |
| `PriceCurve.PointsAreLogOdds` | base-crypto/src/cost_model.rs:825-957 | the table is that of the logarithm of the odds of the usage, clamped to [0.01, 0.99]: zero in the middle, level at both ends, opposite at opposite usages up to 114688 units, steeper towards a full block, and each step between two rational bounds of the logarithm of the ratio of the odds |
| `PriceCurve.HalfFullKeeps` | base-crypto/src/cost_model.rs:825-945 | at the point of 50 percent, which lies at most 16 units below it, the adjustment is zero and the overall price stays, for every parameter but zero |
| `PriceCurve.HalfNearlyKeeps` | base-crypto/src/cost_model.rs:825-945 | at exactly one half the adjustment is at most 32 units, for every parameter of at least one |
| `PriceCurve.AdjustmentSymmetric` | base-crypto/src/cost_model.rs:825-957 | at k and at 100 - k percent the adjustments are opposite up to 114688 units, for every parameter of at least one |
| `PriceAdjustment.AdjustmentMonotone` | base-crypto/src/cost_model.rs:825-945 | the adjustment is monotone in the usage up to one unit, for every a of at least one |
| `PriceAdjustment.AdjustmentBounds` | base-crypto/src/cost_model.rs:825-945 | it stays between the quotients of the table's ends |
| `FeePrices.MostExpensive` | base-crypto/src/cost_model.rs:380-383 | the loop finds the dearest factor |
| `FeePrices.LiftTo` | base-crypto/src/cost_model.rs:384-386 | every factor below the floor is raised to it in place, the others are kept |
| `FeePrices.Sum` | base-crypto/src/cost_model.rs:393-396 | the loop adds up the factors |
| `FeePrices.DivideBy` | base-crypto/src/cost_model.rs:398-400 | every factor is divided by the mean in place |
| `FeePrices.UpdateFromFullness` | base-crypto/src/cost_model.rs:354-402 | the whole imperative update computes the function the run theorems are about |
| `FeePrices.AcceptedExactly` | ledger/src/semantics.rs:1663-1718 | a block is accepted if and only if each of its six fullness values lies between zero and one; its prices are then the updated ones with the overall price at least the minimum block price, and the old ones otherwise |
| `PricingRuns.MultiplierBounds` | base-crypto/src/cost_model.rs:354-378 | for a of at least ten, no multiplier saturates and all are between 0.54 and 1.46 |
| `PricingRuns.RaisedFactor` | base-crypto/src/cost_model.rs:362-373 | raising a factor does not wrap, and loses less than 46 percent and a unit |
| `PricingRuns.LiftedBounds` | base-crypto/src/cost_model.rs:380-386 | after lifting all factors are positive and none is below the ratio of the dearest by more than a unit |
| `PricingRuns.MeanIsExact` | base-crypto/src/cost_model.rs:393-397 | the mean is a quarter of the exact sum, rounded up |
| `PricingRuns.NormalisedBounds` | base-crypto/src/cost_model.rs:392-400 | dividing by the mean brings the sum back to four within [-6, 3] units and keeps the spread |
| `PricingRuns.FactorsStep` | base-crypto/src/cost_model.rs:354-402 | from stable prices no intermediate of an update wraps or saturates: it equals the same computation over unbounded integers |
| `PricingRuns.UpdateIsExact` | base-crypto/src/cost_model.rs:354-402 | from stable prices the whole update, multipliers included, is the same computation over unbounded integers; only the overall price may saturate |
| `PricingRuns.UpdateKeepsStable` | base-crypto/src/cost_model.rs:354-402 | one update keeps all factors positive and at most four, their sum in [4S-6, 4S+3], and the overall price at least 100 units |
| `PricingRuns.StepKeepsStable` | ledger/src/semantics.rs:1663-1745 | so does a block of any fullness, accepted or refused |
| `PricingRuns.RunKeepsStable` | ledger/src/semantics.rs:1663-1745 | every state of every run from stable prices is stable |
| `PricingRuns.RunKeepsSpread` | base-crypto/src/cost_model.rs:380-400 | after every accepted block of every run, each factor exceeds the minimum ratio times any other, minus three units |
| `PricingRuns.RunIsExact` | ledger/src/semantics.rs:1663-1745 | in every run no intermediate of an accepted block wraps: the next prices are those of the integer computation, raised to the minimum block price |
| `PricingRuns.EvenStaysEven` | base-crypto/src/cost_model.rs:354-402 | equal factors raised equally come back as exactly one |
| `PricingRuns.FullerNotCheaper` | base-crypto/src/cost_model.rs:361-401 | from even prices a dimension that is adjusted no more than another never ends up dearer, for each pair of dimensions |
| `PricingRuns.FactorVanishes` | base-crypto/src/cost_model.rs:380-400 | for a minimum ratio of at most 2^-64 some stable prices lose a factor in one block |
| `PricingRuns.RatioThreshold` | base-crypto/src/cost_model.rs:380-400 | a ratio below one keeps all prices stable if and only if it is at least 2^-63 |
| `PriceMovement.RisesExactly` | base-crypto/src/cost_model.rs:361-391 | the overall price rises if and only if the adjustment is worth a unit of it |
| `PriceMovement.RisingStep` | base-crypto/src/cost_model.rs:361-391 | a block with an adjustment of a percent raises the price by a percent or to the maximum |
| `PriceMovement.FullBlocksRise` | base-crypto/src/cost_model.rs:825-945 | with a = 100 every block at least 74 percent full is such a block |
| `PriceMovement.RunClimbs` | base-crypto/src/cost_model.rs:361-391 | n such blocks raise the price by n hundredths of it, and by n units, or reach the maximum |
| `PriceMovement.RunDoubles` | base-crypto/src/cost_model.rs:361-391 | 200 k such blocks multiply the price by 2^k or reach the maximum |
| `PriceMovement.FullRunDoubles` | base-crypto/src/cost_model.rs:361-391 | so do 200 k blocks with a = 100, an overall fullness from 74 percent to one and any other fullness from zero to one |
| `OverallCost.CostRises` | base-crypto/src/cost_model.rs:408-417 | the overall cost is monotone in every dimension, saturated or not |
| `OverallCost.CostNearExact` | base-crypto/src/cost_model.rs:408-417 | where nothing saturates, the cost is the exact price times the dearest of reading, computing and block usage plus writing and churning, less at most a unit and three units at the overall price |
| `OverallCost.NearlySubadditive` | base-crypto/src/cost_model.rs:408-417 | a cost that is in no dimension more than two others together is never dearer than those two by more than floor(3P/S) + 2 units |
| `Fees.FeeIsLeast` | ledger/src/structure.rs:1949-1960 | there is a fee exactly for costs within the block limits, and it is the least number of specks, 10^15 to the DUST, worth the overall cost, or as many as fit |
| `Fees.FeeRises` | ledger/src/structure.rs:1949-1960 | at prices that are not negative, a cost that is no more in any dimension than one with a fee that does not wrap has a fee too, and no greater one |
| `Fees.NoMargin` | ledger/src/structure.rs:1931-1943 | the fee with no margin is the fee |
| `Fees.MarginOfOne` | ledger/src/structure.rs:1931-1943 | a margin of one block multiplies the cost by what a full block does to the overall price |
| `Fees.MarginNeverLess` | ledger/src/structure.rs:1931-1943 | at prices that are not negative, for every parameter of at least one, a margin never makes the fee less |
| `Power.Powi` | base-crypto/src/cost_model.rs:707-725 | the square-and-multiply loop computes the function the bounds are about |
| `Power.PowerSmall` | base-crypto/src/cost_model.rs:707-725 | a power of zero is one, and a power of one the number itself |
| `Power.PowerNeverAbove` | base-crypto/src/cost_model.rs:707-725 | the result never exceeds the exact power, for every non-negative base |
| `Power.PowerAboveOne` | base-crypto/src/cost_model.rs:707-725 | for a base of at least one it is the maximum or loses at most a factor 1 - 2^-64 per multiplication |
| `Power.PowerBelowOne` | base-crypto/src/cost_model.rs:707-725 | for a base up to one it loses at most n - 1 units |
| `Power.NegativePower` | base-crypto/src/cost_model.rs:707-725 | the power to -n is the maximum or not below the exact one, except exactly if the positive power is two units; then it is the minimum |
| `Power.NegativePowerWraps` | base-crypto/src/cost_model.rs:707-725 | two units to the power -1 come out as the minimum |
| `Power.NegativePowerAboveOne` | base-crypto/src/cost_model.rs:707-725 | for a base of at least one it never wraps and is close to exact from both sides |
| `Costs.QuotientIsExact` | base-crypto/src/cost_model.rs:731-741 | the quotient of a cost by its limit is at most one if and only if the cost is within it or the cast wraps |
| `Costs.NormalizeIsExact` | base-crypto/src/cost_model.rs:277-297 | normalisation succeeds if and only if every dimension is within its limit, but for the one wrapping case, and then gives the least share not below each exact one; all limits, zero included |
| `Costs.NormalizedAccepted` | base-crypto/src/cost_model.rs:277-296 | a block whose fullness is a normalised cost is accepted if and only if its overall fullness is between zero and one and no amount wraps |
| `Costs.DurationScaling` | base-crypto/src/cost_model.rs:135-149 | for every duration and number, in either order of the operands: the result is the exact product rounded up, zero if negative and clamped to 64 bits, if and only if the number is zero, or the duration is below 2^63 and the product at most 2^63 and, if negative, wrapped to no positive one |
| `Costs.ScalingLong` | base-crypto/src/cost_model.rs:135-149 | a duration of 2^63 or more times a positive number always comes out too small, and as nothing as long as its distance from 2^64 times the number is at most 2^63 |
| `Costs.LongDurationVanishes` | base-crypto/src/cost_model.rs:135-149 | a duration of 2^63 times one is zero |
| `Costs.DurationRoundTrip` | base-crypto/src/cost_model.rs:135-156 | for every duration and limit but zero: dividing by the limit and multiplying back gives the duration, or one more if the quotient was rounded, if and only if the duration is zero, or that result is at most 2^63, the limit is below 2^63 and the quotient does not wrap |
| `Costs.Sum` | base-crypto/src/cost_model.rs:523-531 | the loop computes the saturating total |
| `Costs.TotalIsExact` | base-crypto/src/cost_model.rs:523-574 | in every dimension the total is the exact sum clamped to 64 bits |
| `Costs.TotalOfPart` | base-crypto/src/cost_model.rs:478-531 | totals do not depend on the order, and bounds on a total hold for every part of it |
| `Costs.TotalWithin` | base-crypto/src/cost_model.rs:478-531 | a total is within bounds if and only if every clamped sum is |
| `Costs.NetExactly` | base-crypto/src/cost_model.rs:497-511 | the times are kept, block usage is zero, the lesser of written and deleted bytes is churn, and net and churn together are the written bytes |
| `Costs.NetOfTotal` | base-crypto/src/cost_model.rs:497-531 | a netted total has the clamped sums of the times, the excess of the clamped sum written over that deleted, and the lesser of the two as churn |
| `Costs.NetOfParts` | base-crypto/src/cost_model.rs:497-531 | netting a total never charges more than netting its parts |
| `LongestPath.Parents` | scripts/state-divergence-identifier.py:33-36 | a state gets no parent entry exactly if no state leads to it |
| `LongestPath.GenesisPoints` | scripts/state-divergence-identifier.py:33-37 | the genesis points are exactly the keys without predecessors |
| `LongestPath.RelaxFrom` | scripts/state-divergence-identifier.py:42-49 | a turn of the outer loop keeps the search invariant and makes progress |
| `LongestPath.Search` | scripts/state-divergence-identifier.py:38-49 | the search ends, on cyclic graphs too, with all labels sound and relaxed |
| `LongestPath.LabelsAreDistances` | scripts/state-divergence-identifier.py:38-49 | then exactly the reachable states are labelled, each with its least number of steps from a genesis state |
| `LongestPath.ParentIsCloser` | scripts/state-divergence-identifier.py:46-49 | every parent link is an edge from a state one step closer |
| `LongestPath.Farthest` | scripts/state-divergence-identifier.py:50 | the end is the first of the states with the greatest label |
| `LongestPath.TraceBack` | scripts/state-divergence-identifier.py:52-61 | following parents ends, and gives a walk from a genesis state as long as the label |
| `LongestPath.LongestPath` | scripts/state-divergence-identifier.py:32-61 | there is a result unless there is no genesis state, and it is a shortest walk to a farthest state |
| `LongestPath.LongestExactly` | scripts/state-divergence-identifier.py:32-61 | a walk is a longest one if and only if the reachable states can be numbered up to its length so that every edge rises |
| `LongestPath.LayeredExactly` | scripts/state-divergence-identifier.py:32-61 | every edge between reachable states leads one step farther away if and only if all walks to a state are equally long |
| `LongestPath.FarthestIsLongest` | scripts/state-divergence-identifier.py:32-61 | then no walk is longer than the result, which ends at a leaf |
| `LongestPath.UniqueParentsLayered` | scripts/state-divergence-identifier.py:32-61 | that is so if every state has at most one predecessor |
| `LongestPath.ShortcutHidesLongest` | scripts/state-divergence-identifier.py:32-61 | with three states and a shortcut every farthest walk, and so every possible result, has two states, though one walk has three |
| `Bytes.HighBytesZero` | transient-crypto/src/repr.rs:142-150 | the high bytes of a number are zero exactly if it fits the low ones |
| `FieldBytes.Write` | transient-crypto/src/repr.rs:165-187 | the loop appends the chunks of 31 bytes from the end |
| `FieldBytes.EncodeSize` | transient-crypto/src/repr.rs:165-187 | it writes as many elements as the size function says |
| `FieldBytes.EncodeInjective` | transient-crypto/src/repr.rs:165-187 | byte strings of one length are told apart by their elements |
| `FieldBytes.ReadElement` | transient-crypto/src/repr.rs:142-150 | an element is copied in place if and only if it fits, and no other chunk changes |
| `FieldBytes.Read` | transient-crypto/src/repr.rs:131-163 | n bytes are read if and only if the input starts with the encoding of some n bytes, and those are returned; a failure leaves the input, without its first element exactly if that was a stray one that fit |
| `Codec.FieldRepr` | base-crypto-derive/src/lib.rs:134-148 | the generated encoder appends the fields in order |
| `Codec.FromFieldRepr` | base-crypto-derive/src/lib.rs:287-352 | the generated decoder, which shrinks its slice field by field, is the decoding function |
| `Codec.LengthsAgree` | base-crypto-derive/src/lib.rs:134-148 | the written length is the size of the value and that of the type, for every nested struct |
| `Codec.WrongLengthRejected` | base-crypto-derive/src/lib.rs:268-355 | slices of any other length are rejected |
| `Codec.Bytes32RoundTrip` | transient-crypto/src/repr.rs:110-129 | 32 bytes are decoded from their encoding |
| `Codec.Bytes32Canonical` | transient-crypto/src/repr.rs:110-129 | whatever decodes to 32 bytes is their encoding |
| `Codec.IntRoundTrip` | transient-crypto/src/curve.rs:594-655 | integers of every width and sign and booleans are decoded from their element |
| `Codec.IntCanonical` | transient-crypto/src/curve.rs:594-655 | whatever decodes to one is its element |
| `Codec.RangeIsPower` | transient-crypto/src/curve.rs:594-655 | the integer ranges are 256 to the number of bytes |
| `Codec.IntElement` | transient-crypto/src/curve.rs:594-655 | an integer, negative or not, is encoded as the one element congruent to it modulo the order of the field |
| `Codec.Bytes32Elements` | transient-crypto/src/repr.rs:110-129 | 32 bytes are the last byte and the little-endian number of the other 31 |
| `Codec.FieldAt` | base-crypto-derive/src/lib.rs:134-148 | the elements of a field of a struct lie behind those of the earlier fields, as many as its type takes |
| `Codec.RoundTrip` | base-crypto-derive/src/lib.rs:134-352 | decoding the encoding returns the value, for every nested struct |
| `Codec.Canonical` | base-crypto-derive/src/lib.rs:268-355 | whatever decodes is the encoding of a value of the type |
| `BinaryRepr.Write` | base-crypto-derive/src/lib.rs:218-266 | the generated code appends the bytes of the fields in order |
| `BinaryRepr.LengthsAgree` | base-crypto-derive/src/lib.rs:252-266 | the written length is the one computed, and depends on the type only |
| `BinaryRepr.Injective` | base-crypto/src/repr.rs:66-137 | values of one type are told apart by their bytes whatever follows, for every nested struct of integers, booleans and arrays |
| `BinaryRepr.IntegerReads` | base-crypto/src/repr.rs:66-137 | the bytes of an integer, read little-endian, are the integer, or 256^width more if it is negative |
| `BinaryRepr.FieldAt` | base-crypto-derive/src/lib.rs:218-266 | the bytes of a field of a struct lie behind those of the earlier fields |
| `Preimages.CoinRepr` | coin-structure/src/coin.rs:625-635 | the layout of a coin is the derived representation of its fields |
| `Preimages.PublicKeyData` | coin-structure/src/coin.rs:160-165 | the buffer of a public key |
| `Preimages.CommitmentData` | coin-structure/src/coin.rs:625-634 | the buffer of a commitment |
| `Preimages.NullifierData` | coin-structure/src/coin.rs:636-647 | the buffer of a nullifier |
| `Preimages.EcdsaAddressData` | coin-structure/src/coin.rs:897-903 | the buffer of an ECDSA address |
| `Preimages.CommitData` | base-crypto/src/hash.rs:98-103 | a commitment hashes its opening, then the value |
| `Preimages.TokenTypeData` | coin-structure/src/contract.rs:59-62 | the buffer of a custom token type |
| `Preimages.CoinInjective` | coin-structure/src/coin.rs:625-647 | the bytes of a coin determine it whatever follows |
| `Preimages.ParseLayout` | coin-structure/src/coin.rs:160-903 | each of the six kinds of object is read back from its preimage by tag and fixed offsets: a commitment has the nonce at 21, the token type at 53, the little-endian value at 85, 1 for a user or 0 for a contract at 101, and the key or address behind |
| `Preimages.LayoutParse` | coin-structure/src/coin.rs:160-903 | nothing else can be so read |
| `Preimages.OneLetterApart` | coin-structure/src/coin.rs:625-647 | the commitment and the nullifier of one coin and party differ in byte 16 only |
| `Preimages.LayoutInjective` | coin-structure/src/coin.rs:160-903 | equal preimages come from the same object of the same kind, across all six kinds |
| `UnshieldedOffer.SortSorts` | ledger-wasm/src/unshielded.rs:97-105 | sorting gives a sorted permutation |
| `UnshieldedOffer.OneWayToSort` | ledger-wasm/src/unshielded.rs:97-105 | which is the only one, so any sort will do |
| `UnshieldedOffer.Lockstep` | ledger-wasm/src/unshielded.rs:97-104 | sorting pairs sorts their first parts as sorting those alone does, duplicates included |
| `UnshieldedOffer.New` | ledger-wasm/src/unshielded.rs:75-111 | inputs and outputs come out sorted and complete; with as many signatures as inputs the pairs do too, duplicates included, and otherwise the signatures are kept as given |
| `UnshieldedOffer.EqualInputs` | ledger-wasm/src/unshielded.rs:97-104 | of equal inputs the one with the smaller signature comes first |
| `UnshieldedOffer.OrderForgotten` | ledger-wasm/src/unshielded.rs:75-111 | there is one way to store an offer so, and the order in which pairs and outputs were supplied does not show |
| `MultiSet.MultiSet.Insert` | ledger/src/primitive.rs:29-31 | one more of the element, and every stored count stays positive |
| `MultiSet.MultiSet.Count` | ledger/src/primitive.rs:33-35 | the multiplicity, zero for absent elements |
| `MultiSet.MultiSet.HasSubset` | ledger/src/primitive.rs:37-46 | true if and only if the other multiset is included with multiplicity |
| `MultiSet.FromIter` | ledger/src/primitive.rs:57-65 | the multiset of the items |
| `MultiSet.MapEquality` | ledger/src/primitive.rs:17-27 | the stored maps are equal if and only if the multisets are |
| `Trie.MakeExtension` | storage/src/merkle_patricia_trie.rs:464-487 | the two loops build the chunked extension, absorbing those below |
| `Trie.MakeChunks` | storage/src/merkle_patricia_trie.rs:479-485 | the second loop builds the chunks from the last to the first |
| `TrieMap.ExtendLookup` | storage/src/merkle_patricia_trie.rs:464-487 | an extension answers for the paths below its own, however it is chunked |
| `TrieMap.InsertPuts` | storage/src/merkle_patricia_trie.rs:963-1145 | insertion changes what the path finds and nothing else, and returns what it found before, for every trie and path |
| `TrieMap.SplitUnder` | storage/src/merkle_patricia_trie.rs:1083-1125 | splitting an extension changes no lookup |
| `TrieMap.RemoveTakes` | storage/src/merkle_patricia_trie.rs:1189-1319 | removal takes the path away and nothing else and returns its value, or panics, exactly if the path ends at a branch |
| `TrieCanon.Kinds` | storage/src/merkle_patricia_trie.rs:1370-1445 | lookups tell the kinds of canonical nodes apart |
| `TrieCanon.Unique` | storage/src/merkle_patricia_trie.rs:1370-1445 | canonical nodes, whose extensions besides the stated invariants have a path and lead somewhere, are equal if they stand for the same map |
| `TrieChecked.CheckedExactly` | storage/src/merkle_patricia_trie.rs:1370-1445 | a node is canonical if and only if all nodes pass the stated check, the sums are right, and no extension has an empty path or an empty child |
| `TrieChecked.CheckedUnique` | storage/src/merkle_patricia_trie.rs:1370-1445 | if two tries pass all checks, stand for the same map and one has no such extension, they are equal if and only if the other has none either |
| `TrieChecked.NormalForm` | storage/src/merkle_patricia_trie.rs:963-1319 | every trie, canonical or not, has exactly one canonical trie with the same lookups |
| `TrieExamples.HollowPasses` | storage/src/merkle_patricia_trie.rs:1370-1445 | an extension above nothing passes all checks and stands for the same map as the empty node |
| `TrieExamples.PathlessPasses` | storage/src/merkle_patricia_trie.rs:1370-1445 | an extension with an empty path above any checked node but an extension passes all checks |
| `TrieExamples.LonelyLoads` | storage/src/merkle_patricia_trie.rs:72-126 | a branch with a single leaf passes the sums, though the canonical trie for its map is an extension |
| `TrieKeeps.InsertProper` | storage/src/merkle_patricia_trie.rs:963-1145 | insertion keeps the canonical form if and only if the path neither ends inside an extension nor splits one that continues in another |
| `TrieKeeps.RemoveCanonical` | storage/src/merkle_patricia_trie.rs:1189-1319 | removal always keeps the canonical form |
| `TrieKeeps.HistoryCanonical` | storage/src/merkle_patricia_trie.rs:1708-1733 | every history whose insertions do so keeps the canonical form, panicking removals included |
| `TrieKeeps.HistoryIsMap` | storage/src/merkle_patricia_trie.rs:963-1319 | after every history at all, lookups are those of the map |
| `TrieKeeps.HistoryForgotten` | storage/src/merkle_patricia_trie.rs:1708-1733 | a history that ends in the same map as a canonical one ends in the same trie if and only if it ends canonical too |
| `TrieHistories.FriendlyIsClean` | storage/src/merkle_patricia_trie.rs:963-1145 | inserting a path that is friendly with all keys keeps the canonical form |
| `TrieHistories.EndedOrder` | storage/src/merkle_patricia_trie.rs:963-1145 | a key and a proper prefix of it whose length is no multiple of 255 give different tries in different orders |
| `TrieHistories.PartedOrder` | storage/src/merkle_patricia_trie.rs:963-1145 | so do two keys that part inside an extension that one of them continues |
| `TrieHistories.TracelessExactly` | storage/src/merkle_patricia_trie.rs:1708-1733 | for every set of keys: all histories over it that end in the same map build the same trie if and only if any two keys are friendly |
| `TrieHistories.ShortExactly` | storage/src/merkle_patricia_trie.rs:1708-1733 | for keys of at most 255 nibbles: if and only if none but the empty one is a proper prefix of another |
| `TrieExamples.RemovalPanics` | storage/src/merkle_patricia_trie.rs:1189-1319 | removing the common prefix of two keys panics |
| `TrieExamples.SearchPanics` | storage/src/merkle_patricia_trie.rs:776-904 | searching before a proper prefix of the only key panics |
| `TriePanics.RemovalExactly` | storage/src/merkle_patricia_trie.rs:1189-1319 | on a canonical trie removal panics if and only if the path is no key and two keys part right after it |
| `TriePanics.SearchExactly` | storage/src/merkle_patricia_trie.rs:776-904 | on a canonical trie the search panics if and only if the target is no key, some key continues it, no keys part right after it, and its distance from the last point above it where a key ends, a fork was just passed or the root lies is no multiple of 255 |
| `TrieLively.InsertLively` | storage/src/merkle_patricia_trie.rs:963-1145 | if every node leads to a value, insertion keeps that if and only if the path does not end inside an extension |
| `TrieLively.RemoveLively` | storage/src/merkle_patricia_trie.rs:1189-1319 | removal always keeps it |
| `TrieLively.EmptyTestRight` | storage/src/merkle_patricia_trie.rs:189-192 | after every history in which no insertion ends inside an extension, the root is empty if and only if the map is |
| `TrieAligned.InsertChained` | storage/src/merkle_patricia_trie.rs:963-1145 | along a path with which all keys are aligned, insertion keeps every extension that continues in another one full, canonical elsewhere or not |
| `TrieAligned.RemoveChained` | storage/src/merkle_patricia_trie.rs:1189-1319 | along any path, removal keeps that |
| `TrieAligned.AlignedLively` | storage/src/merkle_patricia_trie.rs:963-1319 | after every history over aligned keys every node leads to a value |
| `TrieEmptiness.EmptyMapNotEmptyNode` | storage/src/merkle_patricia_trie.rs:189-192 | inserting any key, then any proper prefix whose length is no multiple of 255, and removing both leaves a root that is not empty, though its size is zero |
| `TrieEmptiness.DetourNotEmptyNode` | storage/src/merkle_patricia_trie.rs:189-192 | so does a prefix whose length is one, if a third key that parts from it before the last nibble of a full stretch goes in first and out before them |
| `TrieEmptiness.EmptyExactly` | storage/src/merkle_patricia_trie.rs:189-192 | for every set of keys: every history over it that ends in the empty map ends in the empty node if and only if the keys are aligned |
| `TrieEmptiness.ShortEmptyExactly` | storage/src/merkle_patricia_trie.rs:189-192 | for keys of at most 255 nibbles: if and only if none but the empty one is a proper prefix of another |
| `TrieSizes.InsertWeight` | storage/src/merkle_patricia_trie.rs:963-1145 | for every weight of values, insertion exchanges the new weight for the returned one |
| `TrieSizes.RemoveWeight` | storage/src/merkle_patricia_trie.rs:1189-1319 | removal takes away the weight of the returned value only |
| `TrieSizes.Heavy` | storage/src/merkle_patricia_trie.rs:544-583 | a trie of positive weight holds a value of positive weight |
| `TrieSizes.InsertSized` | storage/src/merkle_patricia_trie.rs:72-126 | insertion keeps every recorded size the number of values below |
| `TrieSizes.RemoveSized` | storage/src/merkle_patricia_trie.rs:72-126 | so does removal |
| `TrieSizes.HistorySize` | storage/src/merkle_patricia_trie.rs:185-187 | after every history the size is the number of keys |
| `TrieSizes.LeavesExact` | storage/src/merkle_patricia_trie.rs:1157-1185 | iteration yields the pairs that lookup finds and no others |
| `TrieSizes.LeavesOrdered` | storage/src/merkle_patricia_trie.rs:1157-1185 | it yields paths in the order of the first nibble in which they differ, and a path after those that continue it |
| `TrieSizes.HistoryIterates` | storage/src/merkle_patricia_trie.rs:1157-1185 | after every history it yields every key of the map once, with its value, in order |
| `TriePrune.ClearBefore` | storage/src/merkle_patricia_trie.rs:645-654 | the loop empties the children before the target's |
| `TriePrune.PruneCuts` | storage/src/merkle_patricia_trie.rs:619-756 | pruning takes away exactly the paths lexicographically below the target, for every trie and target |
| `TriePrune.PruneInOrder` | storage/src/merkle_patricia_trie.rs:619-770 | the returned values followed by those left are the values of the trie in order |
| `TrieOrder.PruneTakesInOrder` | storage/src/merkle_patricia_trie.rs:619-770 | the values of a trie are those of all its keys in increasing order, and pruning takes out exactly as many of the first ones as keys lie below the target |
| `TriePrune.PruneWeight` | storage/src/merkle_patricia_trie.rs:619-756 | for every weight, the returned values and those left weigh what the trie did |
| `TriePrune.PruneSized` | storage/src/merkle_patricia_trie.rs:661-667 | pruning keeps recorded sizes right, also where it reuses the old one |
| `TriePrune.PruneCanonical` | storage/src/merkle_patricia_trie.rs:619-756 | pruning keeps the checked invariants |
| `TriePredecessor.EarlierSibling` | storage/src/merkle_patricia_trie.rs:828-836 | the loop over the earlier siblings finds the last path among them |
| `TriePredecessor.LargestGreatest` | storage/src/merkle_patricia_trie.rs:919-948 | the greatest path below a node is found, and none exactly if there is none |
| `TriePredecessor.PredecessorFinds` | storage/src/merkle_patricia_trie.rs:776-904 | the search finds the greatest path before the target, or panics, exactly if the target ends inside an extension |
| `TimeKeys.PlusIsExact` | base-crypto/src/time.rs:96-130 | sums and differences are the nearest timestamps unless the duration is cut to 64 bits |
| `TimeKeys.ToNibbles` | storage/src/storage.rs:1430-1440 | the loop appends the high and the low half of every byte |
| `TimeKeys.KeyOrder` | storage/src/storage.rs:1058-1065 | timestamps are ordered and told apart as their big-endian paths are |
| `TimeKeys.KeyReads` | storage/src/storage.rs:1058-1065 | the path of a timestamp is its sixteen hexadecimal digits, the highest first |
| `TimeFilter.InsertItems` | storage/src/storage.rs:1196-1198 | adding the items of a container comes to the same in any order |
| `TimeFilter.RemoveItems` | storage/src/storage.rs:1163-1165 | so does taking them away |
| `TimeFilter.FilterLoop` | storage/src/storage.rs:1218-1234 | the nested loops over the pruned containers compute the filtered map |
| `TimeFilter.InsertKeeps` | storage/src/storage.rs:1160-1173 | replacing a container changes its time only and keeps the trie canonical |
| `TimeFilter.UpsertKeeps` | storage/src/storage.rs:1186-1204 | adding to a container changes its time only and keeps the trie canonical |
| `TimeFilter.FilterKeeps` | storage/src/storage.rs:1218-1234 | filtering takes away exactly the times before the cutoff and keeps the trie canonical |
| `TimeFilter.InsertCounts` | storage/src/storage.rs:1160-1173 | replacing a container keeps the counts as exact as they were |
| `TimeFilter.UpsertCounts` | storage/src/storage.rs:1186-1204 | adding an item where it already is counts it once too often, and nothing else does |
| `TimeFilter.FilterCounts` | storage/src/storage.rs:1218-1234 | filtering keeps the counts as exact as they were |
| `TimeFilter.ContainedIsHeld` | storage/src/storage.rs:1206-1209 | an item is found if and only if some container holds it or it was counted too often |
| `TimeFilter.GetNearest` | storage/src/storage.rs:1146-1154 | a query never panics and gives the container at the nearest time not after the given one |
| `TimeRuns.RunAgrees` | storage/src/storage.rs:1135-1235 | after any run the trie holds the plain map from times to items |
| `TimeRuns.RunForgotten` | storage/src/storage.rs:1135-1235 | runs that leave the same map leave the same trie |
| `TimeRuns.RunGets` | storage/src/storage.rs:1146-1154 | after any run a query gives the container at the latest time not after the given one |
| `TimeRuns.RunExcess` | storage/src/storage.rs:1160-1235 | after any run an item is overcounted by exactly the number of times it was added where it was |
| `TimeRuns.RunContains` | storage/src/storage.rs:1206-1209 | after any run an item is found if and only if the map holds it or it was ever added where it was |
| `TimeRuns.DoubledLingers` | storage/src/storage.rs:1186-1234 | an item added twice at one time is found after that time was filtered out |
| `Replay.MemberStep` | ledger/src/semantics.rs:1953-1978 | a member goes through if and only if it is in its window and its hash is not live, and otherwise the first failing test names the error |
| `Replay.TxStep` | ledger/src/semantics.rs:2000-2019 | a transaction goes through if and only if its members are in their windows, of different hashes, and none of those is live |
| `Replay.BlockStep` | ledger/src/semantics.rs:2021-2025 | the end of a block forgets exactly the members that have expired |
| `Replay.RunTracks` | ledger/src/semantics.rs:1952-2026 | in every run at all the state holds exactly the live members, each counted once |
| `Replay.RecordedIsLive` | ledger/src/semantics.rs:1952-2026 | a hash is live if and only if some event recorded it and no block has ended since after the time to live it recorded |
| `Replay.RunAccepts` | ledger/src/semantics.rs:1952-2026 | in every run at all a transaction goes through if and only if its members are in their windows and of different hashes, and every earlier record of such a hash was followed by the end of a block after its time to live |
| `Replay.AgainAfterExpiry` | ledger/src/semantics.rs:1952-2026 | if a hash goes through twice, a block ended in between, after the first time to live |
| `Replay.NeverTwice` | ledger/src/semantics.rs:1980-1998 | if time does not run backwards, an intent, whose hash fixes its time to live, never goes through twice |
| `Replay.PayoutExactly` | ledger/src/semantics.rs:1824-1837 | a single payout or claim of rewards goes through if and only if no earlier record of its hash is live |
| `Replay.PayoutWaits` | ledger/src/semantics.rs:616-633 | in every run, a hash paid out at t with global time to live g is not accepted again before a block ends after t + g |
| `Replay.PayoutAgain` | ledger/src/semantics.rs:616-633 | so it is made again once a block has ended after the global time to live |
| `PastRoots.HistoryHolds` | zswap/src/ledger.rs:241-254 | after any chain of blocks at all, with any times and retention periods, a root is held at a time exactly by the last block of that time, if neither it nor a later block cut that time off |
| `PastRoots.RootsKnown` | zswap/src/ledger.rs:68-79 | a spend may refer to a root if and only if a block left it that was the last of its time, and no block since cut that time off |
| `PastRoots.LastDecides` | zswap/src/ledger.rs:241-254 | with one retention period and times that do not run backwards, the last block's cutoff decides |
| `PastRoots.CutoffExactly` | zswap/src/ledger.rs:241-254 | a block cuts off exactly the times more than its retention period before it, for every period below 2^64 |
| `PastRoots.RecentRootsKnown` | zswap/src/ledger.rs:68-79 | so a spend may then refer to a root if and only if a block left it that was the last of its time and is at most the retention period older than the last block |

## Left out

- Power.Powi: the exponent `i32::MIN`, whose negation overflows, is excluded.
- PricingRuns.RunKeepsStable: stated for a >= 10 and a minimum ratio in [2^-63, 1); fullness is what the ledger accepts.
- PriceAdjustment.AdjustmentMonotone: stated for usage up to 2^118 raw units, above which products with the table may saturate or wrap, and a >= 1.
- LongestPath.LongestPath: state names are not empty, since the empty name ends the walk back early.
- MultiSet.MultiSet.Insert: counts are unbounded; overflow of a machine word is not modelled.
- TimeFilter.UpsertKeeps: counts are unbounded; overflow of 32 bits is not modelled.
- UnshieldedOffer.New: sorting is by insertion; `OneWayToSort` covers every other way to sort.
- Hashes of intents, payouts and claims, and Merkle roots, are opaque values; that the hash of an intent covers its time to live enters `Replay.NeverTwice` as the same member occurring twice.
- The pools and balances that payouts and claims move are not modelled, only their replay protection.
- A container of the time map is the set of its items; the hash set's own trie and the hashing of its elements are not modelled.
- Annotations other than the size, and overflow of a 64-bit size.
- Paths of the trie are nibbles by type; the panic on larger values is not modelled.
- Arena storage, node hashes, serialisation and garbage collection of the trie: values stand for references.
- Overflow panics of debug builds: wrapping is modelled as in release builds.
- Floating-point conversions, serde and debug output of the cost model.
- SHA-256, signatures and elliptic curves: preimages are compared, not hashes.
- Field-aligned binary values, the JavaScript marshalling of the wasm crate and the error paths of its conversions.
- Log parsing and the comparison of logs in the script.
- Syntax trees of the derive macros: the generated encoders and decoders are modelled.
- Contracts, proofs, Dust, the rest of the ledger's state and transaction validation.
