# Advent of Code solutions: a verified model of the core

This project models, in Dafny, the core of a C++ collection of Advent of Code
solutions, and proves properties of the model.

The main part is the keypad-indirection optimiser of 2024/21 (module `Keypads`):
- the shortest routes between two keys that avoid the blank corner;
- the expansion of a code into key sequences and the filter that keeps the shortest;
- the best sequence built from a table of routes;
- the depth-cost recursion with its cache;
- the race that compares two candidate routes.

Beside it sit the shared helpers:
- `Grid`: positions, directions, turns, signum and map bounds from `aoc.h`;
- `Primes`: the sieve, factorisation and LCM from `aoc.h`;
- `Digits`: the decimal-length functions of `aoc.cpp`;
- `Common`: the fixed-width wrap-around, C++ remainder and arithmetic facts the other modules share.

One module models each puzzle kernel:
- `Lenses` (2023/15), `Springs` (2023/12), `Stones` (2024/11), `Computer` (2024/17);
- `Almanac` (2023/05), `Workflows` (2023/19), `CamelCards` (2023/07);
- `Equations` (2024/07, both the forward and the backward search), `Reports` (2024/02);
- `Gates` (2024/24), `Secrets` (2024/22), `Towels` (2024/19);
- `Repeats` (2025/02), `Batteries` (2025/03);
- `Warehouse` with `WarehouseMap`, `NarrowMoves`, `WideMoves` and `WidePush` (2024/15);
- `Pulses` (2023/20), `Mirage` (2023/09), `Robots` (2024/14).

Code that computes values is modelled as functions and lemmas. Code that works step by step is modelled as methods with loops and invariants, each proved against a specification function:
- the instruction loop of the 3-register machine;
- the box pushes of the warehouse;
- the pulse queue;
- the difference tables;
- the scans over reports, banks, secrets and ranges.

The machine and the pulse network are classes whose fields the methods update. Maps and caches that the C++ passes by reference are passed in and returned.

Fixed-width arithmetic is written out where it matters:
- u32 and u64 wrap-around;
- the C++ remainder of a negative dividend;
- the narrowing of a u64 to i64.

Four places where the code departs from what it evidently means are recorded under "## Findings". Each is modelled both as written and corrected.

The erase-based loop of source/2024/02 is modelled as well (`Reports.IsSafeWhole`, `Reports.DampenedByErase`). The skip-index check of aoc_lib/2024/02 is proved to agree with it.

## Model

| member | source | states |
|---|---|---|
| Common.Wrap32 | aoc_lib/aoc.h:48 | u32 arithmetic: the result is below 2^32, congruent to the exact value modulo 2^32, and the exact value when that already fits |
| Common.Wrap64 | aoc_lib/aoc.h:49 | u64 arithmetic: the result is below 2^64, congruent to the exact value modulo 2^64, and the exact value when that already fits |
| Grid.PlusLaws | aoc_lib/aoc.h:105 | operator+ is commutative and associative, with the origin as its neutral element |
| Grid.Pos.Minus | aoc_lib/aoc.h:106 | subtraction is undone by addition |
| Grid.TimesLaws | aoc_lib/aoc.h:105-107 | operator* distributes over operator+ of positions and over the sum of two factors, scaling by a then b is scaling by a · b, scaling by 0 gives the origin and by 1 the position itself |
| Grid.PosLessIsStrictTotalOrder | aoc_lib/aoc.h:108 | operator< is irreflexive, asymmetric, transitive and total on distinct positions |
| Grid.ParseDir | aoc_lib/aoc.h:115-130 | defined exactly on the four characters ^ > v <, and there the inverse of the character the direction is written as; any other character is the CHECK failure (None) |
| Grid.ParseDirChar | aoc_lib/aoc.h:115-130 | parsing the character of a direction gives the direction back |
| Grid.MoveDir | aoc_lib/aoc.h:132-141 | every direction steps to one of the four neighbours (Manhattan length 1) |
| Grid.MoveDirInjective | aoc_lib/aoc.h:132-141 | distinct directions step to distinct neighbours |
| Grid.OppositeDir | aoc_lib/aoc.h:142-150 | the opposite direction steps by the negated offset and is never the direction itself |
| Grid.OppositeIsInvolution | aoc_lib/aoc.h:142-150 | the opposite of the opposite is the direction itself |
| Grid.TurnLeft | aoc_lib/aoc.h:151-159 | the step of the new direction is the old step rotated a quarter turn counter-clockwise |
| Grid.TurnRight | aoc_lib/aoc.h:160-168 | the step of the new direction is the old step rotated a quarter turn clockwise |
| Grid.TurnsCancel | aoc_lib/aoc.h:142-168 | a left and a right turn cancel in either order, two right turns are the opposite direction, four are the identity |
| Grid.Signum | aoc_lib/aoc.h:207 | the result is -1, 0 or 1, positive exactly for positive and negative exactly for negative arguments, and its product with the argument is the absolute value |
| Grid.InMapIffNotOut | aoc_lib/aoc.h:233-238 | IsInMap and IsOutOfMap are exact complements |
| Digits.TenPowersTable | aoc_lib/aoc.h:209-229 | kTenPowers has 20 entries and entry k is 10^k |
| Digits.DecimalLengthBounds | source/aoc.cpp:5-13 | the reference digit count d of x satisfies x < 10^d, and 10^(d-1) <= x when x >= 1 |
| Digits.DecimalLengthUnique | source/aoc.cpp:5-13 | any d >= 1 with 10^(d-1) <= x < 10^d is the reference digit count |
| Digits.NumDigitsGeneric | source/aoc.cpp:5-13 | the generic NumDigits' loop gives 0 for 0 and otherwise the number of decimal digits, bracketed by two powers of ten |
| Digits.NumDigits64Correct | source/aoc.cpp:15-69 | on every u64 the decision tree returns a count between 1 and 20 equal to the reference digit count: 1 for 0, otherwise the d with 10^(d-1) <= x < 10^d |
| Digits.NumDigits32Correct | source/aoc.cpp:71-98 | on every u32 the decision tree returns a count between 1 and 10 equal to the reference digit count: 1 for 0, otherwise the d with 10^(d-1) <= x < 10^d |
| Digits.DecimalString | source/aoc.cpp:5-13 | the decimal representation has as many characters as the number has digits, all of them '0' to '9' |
| Primes.LeastDivisorIsPrime | aoc_lib/aoc.h:286-313 | the least divisor of k >= 2 is a prime divisor, and for composite k it is below k with its square at most k (why the sieve can start striking at loop * loop) |
| Primes.StruckIsComposite | aoc_lib/aoc.h:305-309 | a number struck by some smaller step is not prime |
| Primes.CompositeIsStruck | aoc_lib/aoc.h:305-309 | every composite number below the bound is struck by the time its least prime divisor has been visited |
| Primes.StrikeMultiples | aoc_lib/aoc.h:307-309 | the inner loop marks exactly the multiples of the step from step² on and leaves every other entry as it was |
| Primes.PrimeSieve | aoc_lib/aoc.h:286-313 | the result holds exactly the primes below the limit, strictly ascending, and is empty when the limit is below 2 |
| Primes.MapProductPick | aoc_lib/aoc.h:315-330 | the product of a prime-power map can be taken with any one entry first |
| Primes.MapProductBump | aoc_lib/aoc.h:322-323 | raising one exponent by one (++result[prime], inserting 0 first when absent) multiplies the product by that prime |
| Primes.MapProductDivides | aoc_lib/aoc.h:338-343 | a map of exponents bounded entry by entry by another gives a divisor of the other's product |
| Primes.DivideOut | aoc_lib/aoc.h:322-325 | the inner loop leaves a remainder not divisible by the prime, keeps remainder × product fixed, and adds the prime to the map exactly when it divided at least once |
| Primes.DivideOutZeroNeverEnds | aoc_lib/aoc.h:322-325 | on a remainder of 0 the inner loop as written has not stopped after any number of iterations |
| Primes.DivideOutEnds | aoc_lib/aoc.h:322-325 | on a positive remainder the inner loop as written stops within rem iterations, at a positive remainder the prime does not divide |
| Primes.Factorize | aoc_lib/aoc.h:315-330 | when it succeeds every key of the map is one of the given primes with a positive exponent and the product of the map is x; it always succeeds when every prime up to x is in the list |
| Primes.MissingPrime | aoc_lib/aoc.h:328 | a remainder above 1 after trial division proves that a prime up to x is missing from the list, so the CHECK can only fail then |
| Primes.MergeMax | aoc_lib/aoc.h:340-342 | the merged map has the union of the keys, each with the larger of its two exponents |
| Primes.MultiplyPower | aoc_lib/aoc.h:345-347 | the innermost loop multiplies the result by prime^power |
| Primes.PowerProduct | aoc_lib/aoc.h:344-348 | the last loop computes the product of prime^power over the whole map |
| Primes.CommonFactors | aoc_lib/aoc.h:336-343 | every value's factorisation has product equal to the value and is bounded by the merged map, whose keys are all primes |
| Primes.FactorsDivide | aoc_lib/aoc.h:344-349 | a value whose factorisation is bounded by the merged map divides the map's product |
| Primes.MaxElement | aoc_lib/aoc.h:335 | the element found belongs to the set and no element exceeds it |
| Primes.LCM | aoc_lib/aoc.h:332-350 | the result is positive and a multiple of every value in the set |
| Keypads.PressConcat | source/2024/21/solver-2024-21.cpp:14-21 | pressing a + b on a pad is pressing a and then b from where a left the arm |
| Keypads.PressRun | source/2024/21/solver-2024-21.cpp:33-40 | a straight run of n presses of one direction that avoids the gap moves the arm n cells on |
| Keypads.NoShorterPresses | source/2024/21/solver-2024-21.cpp:22-59 | any presses that end with the arm at e need at least the Manhattan distance in moves plus one press per activation, so the routes offered are shortest |
| Keypads.IsSafeFromBlank | source/2024/21/solver-2024-21.cpp:14-21 | the result is true exactly when no position reached after a step of the route is the blank |
| Keypads.SafeIffPressable | source/2024/21/solver-2024-21.cpp:14-21 | a route is safe exactly when pressing its keys never moves the arm onto the gap |
| Keypads.ShortestRoutes | source/2024/21/solver-2024-21.cpp:22-59 | equal keys give exactly ["A"]; otherwise (keys and blank on the pad, the source's `at`) one or two routes, each ending in 'A' with length abs(Δi) + abs(Δj) + 1; two only when neither bend is the blank; keys in one row or column give exactly the single straight route; with the blank at (start.i, end.j) only the vertical-first route, at (end.i, start.j) only the horizontal-first one; with both bends clear exactly [vertical-first, horizontal-first]; a missing key is None |
| Keypads.PressTwoLegs | source/2024/21/solver-2024-21.cpp:43-55 | a two-leg route that never lands on the gap types the key where the legs end |
| Keypads.VertFirstAvoidsGap | source/2024/21/solver-2024-21.cpp:42-46 | the vertical-first route never lands on a gap that is clear of the rectangle unless the gap is its bend |
| Keypads.HorizFirstAvoidsGap | source/2024/21/solver-2024-21.cpp:47-51 | the horizontal-first route never lands on a gap that is clear of the rectangle unless the gap is its bend |
| Keypads.PressVertFirst | source/2024/21/solver-2024-21.cpp:42-46 | the vertical-first route types exactly the destination |
| Keypads.PressHorizFirst | source/2024/21/solver-2024-21.cpp:47-51 | the horizontal-first route types exactly the destination |
| Keypads.ShortestRoutesPress | source/2024/21/solver-2024-21.cpp:22-59 | every route offered types exactly the destination key, when the gap is clear of the rectangle between the keys (or on a bend) |
| Keypads.CornerGapIsClear | source/2024/21/solver-2024-21.cpp:200-221 | a gap in a corner of the pad is clear of the rectangle between any two keys |
| Keypads.NumPadGapInCorner | source/2024/21/solver-2024-21.cpp:200-213 | the numeric pad's blank is in a corner |
| Keypads.DirPadGapInCorner | source/2024/21/solver-2024-21.cpp:214-221 | the directional pad's blank is in a corner |
| Keypads.PadRoutesPress | source/2024/21/solver-2024-21.cpp:22-59 | on either pad of the puzzle every offered route between two keys types exactly the destination key |
| Keypads.MinLength | source/2024/21/solver-2024-21.cpp:88-93 | the running minimum starts at u64's maximum, is no longer than any route and is the length of one of them unless the list is empty |
| Keypads.MinLengthSnoc | source/2024/21/solver-2024-21.cpp:89-93 | one more step of the running minimum takes the new route's length when it is smaller |
| Keypads.NoLongerThanMembers | source/2024/21/solver-2024-21.cpp:94 | the filter keeps a route exactly when it is in the list and no longer than the bound |
| Keypads.DeleteLongSequences | source/2024/21/solver-2024-21.cpp:87-95 | the routes kept are those of minimum length, in order: each has the minimum length and none of that length is dropped |
| Keypads.EraseLonger | source/2024/21/solver-2024-21.cpp:94 | erase_if with "longer than n" keeps, in order, exactly the routes of length at most n |
| Keypads.CrossContains | source/2024/21/solver-2024-21.cpp:102-106 | every partial sequence followed by every route is in the cross product |
| Keypads.CrossMember | source/2024/21/solver-2024-21.cpp:102-106 | every element of the cross product is a partial sequence followed by a route |
| Keypads.CrossProduct | source/2024/21/solver-2024-21.cpp:101-106 | the two inner loops build exactly the cross product, routes outer and partial sequences inner |
| Keypads.GetKeySequences | source/2024/21/solver-2024-21.cpp:96-111 | the result is every way of typing the code from 'A' by one route per consecutive pair; a pair missing from the map (the source's `at`) is None |
| Keypads.CrossTypes | source/2024/21/solver-2024-21.cpp:99-109 | one round extends what every partial sequence types by the next key |
| Keypads.KeySeqsType | source/2024/21/solver-2024-21.cpp:96-111 | when the map's routes type their keys, every sequence produced types the whole code from the arm on 'A' |
| Keypads.GetBestKeySequence | source/2024/21/solver-2024-21.cpp:113-124 | the result is the concatenation of the table's routes over consecutive pairs of the code, starting from 'A'; a missing pair is None |
| Keypads.BestFromIsAKeySeq | source/2024/21/solver-2024-21.cpp:96-124 | choosing one listed route per pair picks one of the sequences the cross product builds |
| Keypads.BestIsAKeySeq | source/2024/21/solver-2024-21.cpp:96-124 | the best key sequence is one of the sequences GetKeySequences returns |
| Keypads.BestSequenceTypes | source/2024/21/solver-2024-21.cpp:113-124 | the best key sequence types exactly the keys of the code from the arm on 'A' |
| Keypads.DFSForPair | source/2024/21/solver-2024-21.cpp:129-137 | with a cache whose entries are exact costs the result is the cache-independent cost of the pair (1 at depth 0), and the cache stays exact |
| Keypads.DFSForCode | source/2024/21/solver-2024-21.cpp:138-146 | the result is the sum of the pair costs along the code from 'A', whatever the (exact) cache held, and the cache stays exact |
| Keypads.DepthZeroCost | source/2024/21/solver-2024-21.cpp:130-146 | at depth 0 every key costs one press, so a code costs its length |
| Keypads.BestFromSplit | source/2024/21/solver-2024-21.cpp:113-124 | the best sequence of x + y is that of x followed by that of y from x's last key |
| Keypads.BestFromEndsInA | source/2024/21/solver-2024-21.cpp:113-124 | when every table route ends in 'A' so does the best sequence of a non-empty code |
| Keypads.ExpandSplit | source/2024/21/solver-2024-21.cpp:138-146 | a code ending in 'A' and then more is expanded as its two parts, since the arm is back on 'A' in between at every layer |
| Keypads.CostIsExpandedLength | source/2024/21/solver-2024-21.cpp:129-146 | the cost the recursion computes is the length of the presses fully expanded through depth layers |
| Keypads.NoLongerThanTwice | source/2024/21/solver-2024-21.cpp:160-164 | filtering by a bound and then a smaller one is filtering by the smaller one |
| Keypads.KeepStep | source/2024/21/solver-2024-21.cpp:159-161 | one step of the running minimum: the kept routes agree with all seen routes on those no longer than the shortest |
| Keypads.KeepShortest | source/2024/21/solver-2024-21.cpp:157-164 | the inner loop skips routes longer than the shortest so far; what survives the final filter is the same as from all routes |
| Keypads.ShortestRound | source/2024/21/solver-2024-21.cpp:155-166 | one round of Compare: all key sequences of the routes, keeping exactly the shortest |
| Keypads.RaceRound | source/2024/21/solver-2024-21.cpp:154-179 | one body of Compare's loop: one round on both sides, the race unchanged by it |
| Keypads.RaceLoop | source/2024/21/solver-2024-21.cpp:152-180 | the loop computes the race: rounds on both sides until the first routes differ in length, then whether a's is shorter |
| Keypads.Compare | source/2024/21/solver-2024-21.cpp:149-184 | a cached pair returns the cached verdict unchanged; otherwise the race's verdict, recorded for (a, b) and its negation for (b, a), and the cache stays sound |
| Keypads.RaceAntisymmetric | source/2024/21/solver-2024-21.cpp:180-182 | swapping the two sides flips the verdict, so the complementary entry is right |
| Keypads.RaceWithItself | source/2024/21/solver-2024-21.cpp:154 | a route never races to a verdict against itself: the loop does not end |
| Keypads.RaceFuelMonotone | source/2024/21/solver-2024-21.cpp:154-179 | more rounds never change a verdict already reached |
| Keypads.CompareStaysSound | source/2024/21/solver-2024-21.cpp:181-182 | recording a verdict and its complement keeps every cached entry the outcome of its race |
| Lenses.CalculateHash | aoc_lib/2023/15/solver-2023-15.cpp:15-23 | the accumulator loop computes the HASH of the string (add the character code, times 17, modulo 256, from the left), and the result lies in [0, 256) |
| Lenses.HashStepFitsU32 | aoc_lib/2023/15/solver-2023-15.cpp:16-20 | the u32 accumulator cannot wrap before the reduction modulo 256 |
| Lenses.HashAppend | aoc_lib/2023/15/solver-2023-15.cpp:17-21 | the hash of a + b continues from the hash of a over the characters of b |
| Lenses.FindLabel | aoc_lib/2023/15/solver-2023-15.cpp:27-37 | find_if by label: the index found holds the label and no earlier lens does; not found means no lens holds it |
| Lenses.AddExisting | aoc_lib/2023/15/solver-2023-15.cpp:27-31 | adding a lens whose label is present keeps the box size and replaces only that lens's focal length |
| Lenses.AddNew | aoc_lib/2023/15/solver-2023-15.cpp:32 | adding a lens with a new label appends it at the end of its box |
| Lenses.RemoveAbsent | aoc_lib/2023/15/solver-2023-15.cpp:37-40 | removing an absent label changes nothing |
| Lenses.RemovePresent | aoc_lib/2023/15/solver-2023-15.cpp:37-41 | removing a present label takes out exactly that lens, keeps the others in order, and leaves the label absent |
| Lenses.OperationsKeepUnique | aoc_lib/2023/15/solver-2023-15.cpp:25-42 | both operations keep labels unique within a box |
| Lenses.FocalOfKeys | aoc_lib/2023/15/solver-2023-15.cpp:27-37 | the label-to-focal-length map of a box has exactly the box's labels as keys |
| Lenses.AddIsMapUpdate | aoc_lib/2023/15/solver-2023-15.cpp:25-33 | AddLens is a map update of the label's focal length |
| Lenses.RemoveIsMapRemoval | aoc_lib/2023/15/solver-2023-15.cpp:35-42 | with unique labels, RemoveLens removes the label from the map |
| Lenses.AddLens | aoc_lib/2023/15/solver-2023-15.cpp:25-33 | only the box the label hashes to changes, to the box with the lens updated or appended; valid boxes (every lens in the box of its hash, unique labels) stay valid |
| Lenses.RemoveLens | aoc_lib/2023/15/solver-2023-15.cpp:35-42 | only the box the label hashes to changes, to the box with that lens taken out; valid boxes stay valid |
| Lenses.BoxesStayValid | aoc_lib/2023/15/solver-2023-15.cpp:26-36 | replacing one box by a valid box for its index keeps all boxes valid |
| Lenses.KeepsHashes | aoc_lib/2023/15/solver-2023-15.cpp:26-36 | after either operation every lens of a box still hashes to that box |
| Springs.MatchGroupAtStart | aoc_lib/2023/12/solver-2023-12.cpp:20-30 | the result is 0, group or group + 1, and 0 exactly when the group cannot start the pattern: pattern shorter than the group, a '.' among its first group cells, or a '#' right after them; otherwise group + 1 when more pattern follows, else group |
| Springs.FirstHash | aoc_lib/2023/12/solver-2023-12.cpp:63 | find('#') gives the index of the first '#', or none when there is no '#' |
| Springs.Latest | aoc_lib/2023/12/solver-2023-12.cpp:61-66 | the last start tried leaves room for the group and has no '#' before it |
| Springs.SumFromStep | aoc_lib/2023/12/solver-2023-12.cpp:68-73 | one iteration: index i adds the count for the rest when the group matches there, then the later indices follow |
| Springs.SumMatches | aoc_lib/2023/12/solver-2023-12.cpp:68-73 | the loop adds, over the start indices 0..latest where the first group matches, the count for the rest of the pattern and the remaining groups, and keeps the cache exact |
| Springs.CountMatches | aoc_lib/2023/12/solver-2023-12.cpp:33-77 | the result is the uncached count whatever the (exact) cache held: 1 or 0 with no groups as the pattern has no '#' or has one, 0 for an empty pattern with groups left; every stored value equals the uncached count for its key |
| Springs.ArrangementsNoGroups | aoc_lib/2023/12/solver-2023-12.cpp:41-48 | with no groups there is exactly one arrangement when no spring is damaged, none otherwise |
| Springs.ArrangementsShort | aoc_lib/2023/12/solver-2023-12.cpp:57 | a pattern shorter than the first group has no arrangement |
| Springs.ArrangementsUnroll | aoc_lib/2023/12/solver-2023-12.cpp:59-73 | the cell-by-cell count is the sum over the start indices the loop tries: no start after the first '#' or past the fit is lost |
| Springs.TermIsPlace | aoc_lib/2023/12/solver-2023-12.cpp:69-72 | the loop's term at index i is the number of arrangements whose first group starts at i |
| Springs.SumFromIsSumPlace | aoc_lib/2023/12/solver-2023-12.cpp:68-73 | the loop's sum is the sum over start positions of the arrangements starting there |
| Springs.CountSpecIsArrangements | aoc_lib/2023/12/solver-2023-12.cpp:33-77 | for groups of at least one spring, CountMatches counts exactly the arrangements of damaged and operational springs that agree with the pattern and the groups |
| Stones.SplitStoneParts | source/2024/11/solver-2024-11.cpp:13-17 | the two halves put back together are the stone, left × 10^(digits/2) + right, with the right half below 10^(digits/2) |
| Stones.SplitHalves | source/2024/11/solver-2024-11.cpp:13-17 | for a u64 stone with an even digit count the left half has exactly half the digits |
| Stones.Rule | source/2024/11/solver-2024-11.cpp:24-36 | one blink turns a stone into one or two stones, all of them still u64 values |
| Stones.SplitBelow | source/2024/11/solver-2024-11.cpp:35 | the cut index is inside kTenPowers and both halves are u64 values |
| Stones.StoneDigits | source/2024/11/solver-2024-11.cpp:29 | NumDigits on the stone returns its decimal digit count, between 1 and 20 |
| Stones.Blink | source/2024/11/solver-2024-11.cpp:19-39 | with a cache whose entries are exact, the result is the uncached, unbounded stone count after times blinks (1 for no blinks), at least 1, and the cache stays exact; the u64 wrap of the sum is not modelled |
| Stones.CacheInsert | source/2024/11/solver-2024-11.cpp:26-37 | storing a true count keeps the cache exact |
| Stones.BlinkCountZero | source/2024/11/solver-2024-11.cpp:24-28 | a 0 stone counts as a 1 stone one blink later |
| Stones.BlinkCountOdd | source/2024/11/solver-2024-11.cpp:30-34 | with an odd digit count the count is that of stone × 2024 (wrapping as u64) one blink later |
| Stones.BlinkCountEven | source/2024/11/solver-2024-11.cpp:35-38 | with an even digit count both halves are u64 and the count is the sum of the halves' counts one blink later |
| Stones.BlinkCountSum | source/2024/11/solver-2024-11.cpp:36 | the sum the even case returns is the stone's count |
| Stones.BlinkCountPositive | source/2024/11/solver-2024-11.cpp:19-39 | every stone stays at least one stone |
| Stones.BlinkOnceConcat | source/2024/11/solver-2024-11.cpp:19-39 | one blink of a row is the blinks of its parts, side by side |
| Stones.BlinkNConcat | source/2024/11/solver-2024-11.cpp:19-39 | the stones of a row blink independently: the row's length after any number of blinks is the sum of its parts' |
| Stones.BlinkCountIsRowLength | source/2024/11/solver-2024-11.cpp:19-39 | the count Blink computes is the length of the row a full simulation produces from the one stone |
| Stones.BlinkOnce | source/2024/11/solver-2024-11.cpp:24-36 | one blink over a row of stones, each replaced by its rule's stones, leaves every stone a u64 value |
| Stones.BlinkN | source/2024/11/solver-2024-11.cpp:19-39 | any number of blinks over a row leaves every stone a u64 value |
| Computer.OpOf | source/2024/17/solver-2024-17.cpp:9-18 | a program byte names an opcode exactly when it is below 8, and that opcode's number is the byte |
| Computer.ComboValue | source/2024/17/solver-2024-17.cpp:22-25 | operands 0 to 3 stand for themselves, 4 to 6 for registers A, B and C, and 7 is rejected (the CHECK failure, None); the value is a u64 |
| Computer.XorInvolution | source/2024/17/solver-2024-17.cpp:30-40 | exclusive or with the same value twice gives the value back |
| Computer.Xor64 | source/2024/17/solver-2024-17.cpp:30-40 | the exclusive or of two u64 values is a u64 value |
| Computer.ShiftedOne | source/2024/17/solver-2024-17.cpp:28 | `1 << k` on a 32-bit int, widened to u64, for the defined counts up to 31: a positive u64 whose low 32 bits are 2^k, below 2^32 exactly when k < 31 (INT_MIN at 31) |
| Computer.Divide | source/2024/17/solver-2024-17.cpp:28-46 | A / (1 << combo) is defined exactly when the combo operand is valid and the shift count is at most 31, and is then the floor quotient by the widened shift |
| Computer.Step | source/2024/17/solver-2024-17.cpp:26-50 | a taken JNZ (A > 0) sets the instruction to the operand without adding 2, every other case advances it by exactly 2; only OUT changes the output, by appending one value; ADV writes only A, BXL, BST, BXC and BDV only B, CDV only C; it fails only on combo operand 7 or a shift count above 31 |
| Computer.ShiftByThirtyOne | source/2024/17/solver-2024-17.cpp:28 | ADV with combo operand 4 on A = 31 sets A to 31 / (2^64 - 2^31) = 0 and advances by 2 |
| Computer.OutAppendsCombo | source/2024/17/solver-2024-17.cpp:42 | OUT appends the combo operand modulo 8, a value in [0, 8), and changes no register |
| Computer.Steps | source/2024/17/solver-2024-17.cpp:72-76 | the instruction loop keeps the state valid, reports that it left the loop exactly when the instruction is past the program, and does nothing with no fuel |
| Computer.StepsExtendOutput | source/2024/17/solver-2024-17.cpp:72-76 | a run only extends the output it started with |
| Computer.StepsSplit | source/2024/17/solver-2024-17.cpp:74-76 | running f + g steps is running f steps and then g more |
| Computer.StepsFail | source/2024/17/solver-2024-17.cpp:74-76 | a failing step (or a missing operand byte, the source's `at` throwing) fails the whole run |
| Computer.Machine.constructor | source/2024/17/solver-2024-17.cpp:62-73 | a machine starts with the given registers, no output and instruction 0 |
| Computer.Machine.Execute | source/2024/17/solver-2024-17.cpp:26-50 | one instruction updates registers, output and instruction exactly as Step says, and changes nothing where Step fails |
| Computer.Machine.Run | source/2024/17/solver-2024-17.cpp:72-76 | the loop leaves the machine in the state Steps computes, with the same halting verdict |
| Almanac.MapValue | source/2023/05/solver-2023-05.cpp:78-81 | values outside the from range are returned unchanged; values inside are shifted by to.start - from.start and land in the to range |
| Almanac.MapValueIsBijection | source/2023/05/solver-2023-05.cpp:78-81 | every value of the to range is the image of exactly the value of the from range it is offset from |
| Almanac.MapRange | source/2023/05/solver-2023-05.cpp:85-113 | the range is cut into one to three valid pieces; a range disjoint from the from range comes back unchanged and flagged false |
| Almanac.UnmappedTile | source/2023/05/solver-2023-05.cpp:85-113 | the pieces flagged false cover exactly the values of the range outside the from range |
| Almanac.MappedIsImage | source/2023/05/solver-2023-05.cpp:92-106 | the pieces flagged true cover exactly the shifted image of the range's overlap with the from range |
| Almanac.OneMappedPiece | source/2023/05/solver-2023-05.cpp:85-113 | one piece is flagged true exactly when the range overlaps the from range, none otherwise |
| Almanac.SizeIsKept | source/2023/05/solver-2023-05.cpp:85-113 | no value is lost or gained: the pieces together hold as many values as the range |
| Almanac.BuildMap | source/2023/05/solver-2023-05.cpp:63-99 | building the btree_map from an initialiser list keys each piece by its start, keeps the first of two pieces with the same start, and has no more entries than pieces |
| Almanac.MapRangeAsWritten | source/2023/05/solver-2023-05.cpp:85-113 | the map the source returns holds one to three entries |
| Almanac.MapRangeAsWrittenLosesPiece | source/2023/05/solver-2023-05.cpp:89-93 | range [0, 5] through [3, 10] -> [0, 7] cuts into kept [0, 2] and mapped [0, 2]; the map keyed by start keeps only the kept one |
| Almanac.PointRangeOnePiece | source/2023/05/solver-2023-05.cpp:139-140 | for the single values the solver maps there is exactly one piece, MapValue of the value, flagged as it lies in the from range, so the CHECK on the size holds and the map as written loses nothing |
| Workflows.EvalClause | source/2023/19/solver-2023-19.cpp:30-32 | the verdict is rating < val for a less-than clause and rating > val otherwise; a part without the attribute (part.at throwing) is None |
| Workflows.RunWorkflow | source/2023/19/solver-2023-19.cpp:34-40 | the target returned is that of the first clause that is unconditional or holds, every clause before it passing the part on; None only when every clause passes (the CHECK failure) or a missing attribute is reached first |
| Workflows.SplitRangedPart | source/2023/19/solver-2023-19.cpp:42-67 | an unconditional clause gives all success and no failure; otherwise the attributes other than the clause's are unchanged on both sides, a rating of the clause's attribute goes to success exactly when it satisfies the clause and to failure exactly when it does not, and the two sizes add up to the input's |
| CamelCards.CardValue | aoc_lib/2023/07/solver-2023-07.cpp:11-47 | a card has a value exactly when it is one of the thirteen card characters; the value lies in 1..14, the joker of part 2 is worth 1 and every other card at least 2, and the card is recovered from its value (CardOf) |
| CamelCards.CardValueInjective | aoc_lib/2023/07/solver-2023-07.cpp:11-22 | in either ordering two cards with the same value are the same card |
| CamelCards.HandLess | aoc_lib/2023/07/solver-2023-07.cpp:30-38 | the loop over the five positions agrees with the lexicographic comparison by card value; a short hand or an unknown card (a throwing at()) is None |
| CamelCards.HandLessDefined | aoc_lib/2023/07/solver-2023-07.cpp:30-38 | on two valid hands the comparison never fails |
| CamelCards.HandLessAsymmetric | aoc_lib/2023/07/solver-2023-07.cpp:30-38 | a hand is not less than itself, and a hand less than another is not greater than it |
| CamelCards.HandLessTransitive | aoc_lib/2023/07/solver-2023-07.cpp:30-38 | the comparison is transitive |
| CamelCards.HandLessTotal | aoc_lib/2023/07/solver-2023-07.cpp:30-38 | two different valid hands are ordered one way or the other, so the comparison is a strict total order |
| CamelCards.RankInjective | aoc_lib/2023/07/solver-2023-07.cpp:57-82 | typeOrdering gives the seven types seven different ranks, so Type::operator< is a strict total order |
| CamelCards.Sort | aoc_lib/2023/07/solver-2023-07.cpp:109-110 | the sorted copy is a permutation of the hand and is sorted |
| CamelCards.Insert | aoc_lib/2023/07/solver-2023-07.cpp:109-110 | inserting a card into a sorted string gives a sorted string holding one more copy of that card |
| CamelCards.SameCards | aoc_lib/2023/07/solver-2023-07.cpp:103-110 | the hand and its sorted copy hold the same set of distinct cards |
| CamelCards.FourRun | aoc_lib/2023/07/solver-2023-07.cpp:112 | in a sorted hand a card appears at least four times exactly when it fills the first four or the last four places |
| CamelCards.ThreeRun | aoc_lib/2023/07/solver-2023-07.cpp:117 | in a sorted hand a card appears at least three times exactly when it fills three neighbouring places |
| CamelCards.GetType1ByCounts | aoc_lib/2023/07/solver-2023-07.cpp:102-121 | five of a kind for one distinct card, one pair for four and high card for five; with two distinct cards four of a kind exactly when some card appears four times and a full house otherwise; with three, three of a kind exactly when some card appears three times and two pair otherwise |
| CamelCards.GetType2 | aoc_lib/2023/07/solver-2023-07.cpp:123-147 | with no joker the type is GetType1's; jokers never lower the type's rank; four or five jokers make five of a kind |
| CamelCards.HandTypeLessAsymmetric | aoc_lib/2023/07/solver-2023-07.cpp:88-91 | comparing type first and then hand is irreflexive and asymmetric |
| CamelCards.HandTypeLessTransitive | aoc_lib/2023/07/solver-2023-07.cpp:88-91 | comparing type first and then hand is transitive |
| CamelCards.HandTypeLessTotal | aoc_lib/2023/07/solver-2023-07.cpp:88-91 | any two different (type, hand) pairs are ordered one way or the other |
| Equations.Allowed | source/2024/07/solver-2024-07.cpp:33-47 | addition and multiplication are always tried, concatenation exactly when use_concat holds |
| Equations.ConcatIsDigitConcat | source/2024/07/solver-2024-07.cpp:19-22 | left * 10^NumDigits(right) + right is written as left's digits followed by right's |
| Digits.ConcatDigits | source/2024/07/solver-2024-07.cpp:19-22 | the decimal string of a * 10^(digits of b) + b is the decimal string of a followed by that of b |
| Equations.ApplyOp | source/2024/07/solver-2024-07.cpp:15-24 | the result is a 64-bit value, and it is the exact sum, product or concatenation whenever that fits in 64 bits |
| Equations.EvalExtend | source/2024/07/solver-2024-07.cpp:39-52 | evaluating one more operand left to right applies its operator to the value so far |
| Equations.ReachFromSolvable | source/2024/07/solver-2024-07.cpp:26-54 | the goal is reachable from the running value at operand i exactly when some allowed operator choice extending the choices made so far evaluates to the goal |
| Equations.Forward | source/2024/07/solver-2024-07.cpp:26-54 | IsValid returns (true, goal) or (false, 0) |
| Equations.ReachBounded | source/2024/07/solver-2024-07.cpp:27 | with positive operands the running value never decreases, so a value above the goal reaches nothing |
| Equations.ForwardPruned | source/2024/07/solver-2024-07.cpp:27 | a running value above the goal is rejected at once, and no completion could have reached the goal |
| Equations.ForwardIsReach | source/2024/07/solver-2024-07.cpp:26-54 | without overflow the search accepts exactly when the goal is reachable from the running value |
| Equations.NoWrap | source/2024/07/solver-2024-07.cpp:15-24 | no operator applied to a value up to the goal overflows when the goal times the operand and the goal shifted by the operand's digits fit in 64 bits |
| Equations.SolveEquation | source/2024/07/solver-2024-07.cpp:81-89 | the call from the first operand fails (at() throws) exactly when there are no operands or a single one not above the goal; otherwise it gives (true, goal) or (false, 0) |
| Equations.SolveEquationCorrect | source/2024/07/solver-2024-07.cpp:26-54 | with positive operands and no overflow, the equation is accepted exactly when some allowed operator choice evaluates to the goal |
| Equations.ForwardWrapAccepts | source/2024/07/solver-2024-07.cpp:18-32 | with overflow the search accepts an impossible equation: goal 2^32 with operands [2^32, 2^32 + 1] |
| Equations.ForwardZeroRejects | source/2024/07/solver-2024-07.cpp:26-36 | with a zero operand the `cur > goal` pruning rejects a solvable equation: goal 0 with operands [5, 0], although 5 * 0 = 0 |
| Equations.NotSolvableTwo | source/2024/07/solver-2024-07.cpp:28-37 | a two-operand equation is solvable exactly when one allowed operator gives the goal |
| Equations.ToI64 | aoc_lib/2024/07/solver-2024-07.cpp:14 | static_cast to i64 gives a value in the signed range congruent to its argument modulo 2^64 |
| Equations.BackwardAsWritten | aoc_lib/2024/07/solver-2024-07.cpp:10-22 | at index 0 the equation holds exactly when the goal equals the first operand; above it, the quotient and remainder of the signed std::div, the power of ten from kTenPowers, and the u64 subtraction are tried in the source's order |
| Equations.BackwardAsWrittenDefined | aoc_lib/2024/07/solver-2024-07.cpp:10-22 | with operands after the first in 1 .. 2^63 - 1 and fewer than 20 digits, the search as written never divides by zero, never overflows the signed quotient and never indexes past kTenPowers, whatever the goal |
| Equations.SignedDivision | aoc_lib/2024/07/solver-2024-07.cpp:14 | below 2^63 the casts to i64 keep goal and operand, the std::div quotient is the floor quotient and its remainder is the floor remainder |
| Equations.AsWrittenStep | aoc_lib/2024/07/solver-2024-07.cpp:14-20 | below 2^63 one level of the search as written is the first of the product, concatenation and sum tries that does not answer false |
| Equations.BackwardStep | aoc_lib/2024/07/solver-2024-07.cpp:14-20 | one level of the corrected search reads the power of ten from the table and accepts through a product, a concatenation or a sum |
| Equations.BackwardAsWrittenAgrees | aoc_lib/2024/07/solver-2024-07.cpp:10-22 | where no subtraction along the search wraps, the search as written gives an answer and it is the corrected search's answer |
| Equations.BackwardAsWrittenAcceptsImpossible | aoc_lib/2024/07/solver-2024-07.cpp:18 | goal 1 with operands [0, 7] and concatenation is accepted as written, although it is not solvable and the corrected search rejects it |
| Equations.BackwardIsSolvable | aoc_lib/2024/07/solver-2024-07.cpp:10-22 | with positive operands the corrected backward search accepts exactly the solvable equations |
| Equations.BackwardSound | aoc_lib/2024/07/solver-2024-07.cpp:10-22 | every equation the corrected backward search accepts has an allowed operator choice giving the goal |
| Equations.BackwardComplete | aoc_lib/2024/07/solver-2024-07.cpp:10-22 | every solvable equation is accepted by the corrected backward search |
| Equations.BackwardUndo | aoc_lib/2024/07/solver-2024-07.cpp:14-20 | a goal made by a product is divisible by the operand with the earlier value as quotient; one made by concatenation ends in the operand's digits with the earlier value in front; one made by a sum is at least the operand and leaves the earlier value after subtraction |
| Equations.BackwardRedo | aoc_lib/2024/07/solver-2024-07.cpp:14-20 | an accepted step names an allowed operator and an earlier value that the operator turns into the goal, and the earlier value is accepted in turn |
| Equations.RedoProduct | aoc_lib/2024/07/solver-2024-07.cpp:14-15 | a quotient without remainder, multiplied back, gives the goal |
| Equations.RedoConcat | aoc_lib/2024/07/solver-2024-07.cpp:16-18 | a goal ending in the operand's digits is its prefix concatenated with the operand |
| Equations.BackwardAgreesWithForward | aoc_lib/2024/07/solver-2024-07.cpp:48-53 | within range the forward and the corrected backward searches agree on every equation |
| Reports.Remove | aoc_lib/2024/02/solver-2024-02.cpp:8 | taking out an index inside the report leaves one level fewer; the default skip, past the end, leaves the report as it is |
| Reports.RemoveAt | aoc_lib/2024/02/solver-2024-02.cpp:9-18 | the j-th kept level is the report's level at Idx(skip, j), which lies inside the report |
| Reports.IdxBound | aoc_lib/2024/02/solver-2024-02.cpp:13 | the walking index runs past the end of the report exactly when every kept level has been visited |
| Reports.IdxNext | aoc_lib/2024/02/solver-2024-02.cpp:17-18 | the step i += (skip == i + 1 ? 2 : 1) moves from one kept level to the next |
| Reports.SkipNotRead | aoc_lib/2024/02/solver-2024-02.cpp:9-18 | two reports that differ only at index skip are the same report once skip is taken out, so the level at skip never enters a delta |
| Reports.BreakAt | aoc_lib/2024/02/solver-2024-02.cpp:10-15 | a first step of zero or of more than three, or any later step not of the first step's sign and size one to three, makes the report unsafe |
| Reports.IsSafe | aoc_lib/2024/02/solver-2024-02.cpp:8-21 | the walk over the report with index skip jumped over answers exactly whether the report with that level taken out is safe |
| Reports.IsSafeWhole | source/2024/02/solver-2024-02.cpp:10-18 | a report of fewer than two levels fails at(); any other is judged safe exactly when it is safe |
| Reports.Dampened | aoc_lib/2024/02/solver-2024-02.cpp:39-57 | a report counts in part 2 exactly when it is safe or safe with some one level taken out |
| Reports.DampenedByErase | source/2024/02/solver-2024-02.cpp:47-59 | the report counts as safe exactly when it is safe or some copy with one level erased is safe; the at() failure (fewer than two levels, or an unsafe pair whose copies keep one level) is reported as None |
| Reports.SafeErased | source/2024/02/solver-2024-02.cpp:52-54 | the copy with level f erased is judged exactly by Safe of the report without that level; at() fails on reports of fewer than three levels |
| Reports.FixableBelowExists | source/2024/02/solver-2024-02.cpp:51-58 | the loop's state after f copies (none safe so far) is the same as no index below f whose erasure makes the report safe |
| Reports.SafeWithoutFirst | aoc_lib/2024/02/solver-2024-02.cpp:46-57 | a safe report stays safe with its first level taken out, so adding the part-1 count to the dampened count counts each report once |
| Reports.SafeIsSignTest | aoc_lib/2024/02/solver-2024-02.cpp:9-16 | a report is safe exactly when every step is nonzero, at most three in size and of the first step's sign (init_delta * delta > 0) |
| Reports.ProductSign | aoc_lib/2024/02/solver-2024-02.cpp:15 | the product of two nonzero deltas is positive exactly when they have the same sign and negative exactly when their signs differ |
| Gates.ApplyOp | source/2024/24/solver-2024-24.cpp:26-32 | AND is the product of the two bits, OR their sum less their product, XOR their sum modulo 2 |
| Gates.HalfAdder | source/2024/24/solver-2024-24.cpp:26-32 | an XOR and an AND gate on the same inputs give the sum bit and the carry bit: together they count the inputs that are on |
| Gates.Weigh | source/2024/24/solver-2024-24.cpp:34-42 | the number carried by n wires is below 2^n |
| Gates.SetToNum | source/2024/24/solver-2024-24.cpp:34-42 | the result is the number whose bit k is wire k, for the first 64 wires; a wire without a value counts as off and the wires past the 64th shift out of the index |
| Gates.OrStep | source/2024/24/solver-2024-24.cpp:38-39 | or-ing the index of an on wire into the result adds that wire's weight |
| Gates.IndexStep | source/2024/24/solver-2024-24.cpp:39 | the u64 index doubles at each wire and is zero after the 64th |
| Gates.WeighBit | source/2024/24/solver-2024-24.cpp:34-42 | bit k of the number read off the wires is the value of wire k |
| Gates.SetToNumBit | source/2024/24/solver-2024-24.cpp:34-42 | bit k of SetToNum's result is set exactly when wire ids[k] has a value and it is on |
| Gates.NumToSet | source/2024/24/solver-2024-24.cpp:43-48 | the new wires are the old ones with bit k of the value written onto ids[k], in order |
| Gates.AssignOther | source/2024/24/solver-2024-24.cpp:43-48 | a wire outside ids is neither added nor changed |
| Gates.AssignAt | source/2024/24/solver-2024-24.cpp:43-48 | with distinct wires, wire ids[k] holds bit k of the value |
| Gates.RoundTrip | source/2024/24/solver-2024-24.cpp:34-48 | with distinct wires, writing a value and reading back the first n wires gives the value modulo 2^n |
| Gates.Erase | source/2024/24/solver-2024-24.cpp:67 | the wires left to do are those of todo not done, still without repeats |
| Gates.Pass | source/2024/24/solver-2024-24.cpp:58-66 | one pass over todo fails only on a wire without a gate; otherwise it keeps every value there was, marks done exactly the wires of todo that got a value, and every computed wire is its gate applied to its inputs |
| Gates.CalcValues | source/2024/24/solver-2024-24.cpp:50-69 | once settled, no wire that had a value changes, only wires of ids without a value are computed, each computed wire equals its gate's operation on its inputs' values, and every wire of ids has a value; a wire of ids without a value and without a gate is the failing gates.at |
| Gates.ConsistentWrite | source/2024/24/solver-2024-24.cpp:62-63 | setting a wire from its gate keeps every computed wire equal to its gate on its inputs |
| Gates.KeepsWrite | source/2024/24/solver-2024-24.cpp:54-62 | writing a wire that has no value never overwrites an existing one |
| Secrets.NextSecret | source/2024/22/solver-2024-22.cpp:10-14 | the next secret is always a 24-bit value, and a zero secret stays zero |
| Secrets.NextSecretLowBits | source/2024/22/solver-2024-22.cpp:10-14 | only the low 24 bits of a secret decide the next one |
| Secrets.PriceOf | source/2024/22/solver-2024-22.cpp:38-41 | a price is the secret's last decimal digit |
| Secrets.Prices | source/2024/22/solver-2024-22.cpp:38-41 | the buyer's first n + 1 prices are n + 1 digits |
| Secrets.PricesAt | source/2024/22/solver-2024-22.cpp:40-41 | price j is the last digit of the secret after j steps |
| Secrets.Diff | source/2024/22/solver-2024-22.cpp:42 | the price change plus 9 in u32 arithmetic is a u32 value |
| Secrets.DiffRange | source/2024/22/solver-2024-22.cpp:42 | the shifted change lies in 0..18 and equals the true change plus 9: the wrap of the unsigned subtraction cancels |
| Secrets.WindowBounds | source/2024/22/solver-2024-22.cpp:34-46 | a window of four changes is a valid index into the 0xFFFFF-entry tables, and each change can be read back from its five bits |
| Secrets.AccNext | source/2024/22/solver-2024-22.cpp:42-46 | one step of diff_seq shifts it left by five bits in a u32, ors in the change, and from the fourth step on masks it to 20 bits |
| Secrets.ShiftIn | source/2024/22/solver-2024-22.cpp:44-45 | or-ing a change below 32 into a value shifted left by five bits adds it, and the low bits of the result are the old low bits moved up with the change below them |
| Secrets.AccLow | source/2024/22/solver-2024-22.cpp:44-46 | the low five, ten and fifteen bits of diff_seq hold the last one, two and three changes, and from the fourth step on diff_seq is the window of the last four changes |
| Secrets.AccIsWindow | source/2024/22/solver-2024-22.cpp:44-46 | from the fourth step on diff_seq is the window of the last four changes, whatever it held from the previous buyer, and lies inside the tables |
| Secrets.UnseenGainsNothing | source/2024/22/solver-2024-22.cpp:48-50 | a window the buyer has not produced adds nothing to its total |
| Secrets.SeenIsOccurrence | source/2024/22/solver-2024-22.cpp:48-49 | a window produced at some step is marked seen from then on |
| Secrets.GainIsFirst | source/2024/22/solver-2024-22.cpp:48-50 | a window's total grows by the price at the first step that produces it, and by nothing at later steps |
| Secrets.TablesStart | source/2024/22/solver-2024-22.cpp:34-37 | tables that do not mark the buyer yet are the tables after no step |
| Secrets.TablesEarly | source/2024/22/solver-2024-22.cpp:46 | the first three steps change no table |
| Secrets.TablesSeen | source/2024/22/solver-2024-22.cpp:48 | a window the buyer has already marked changes no table |
| Secrets.TablesMark | source/2024/22/solver-2024-22.cpp:49-50 | a window the buyer has not marked yet is marked, and its u32 total gains the price |
| Secrets.Record | source/2024/22/solver-2024-22.cpp:48-50 | the table update at one step moves the seen and bought tables from their state after n steps to their state after n + 1 |
| Secrets.Track | source/2024/22/solver-2024-22.cpp:40-50 | one step after the new secret updates diff_seq to its value at the next step and the tables to their state after it |
| Secrets.Buyer | source/2024/22/solver-2024-22.cpp:37-51 | after 2000 steps the secret is the 2000th, diff_seq is its value after them, exactly the windows the buyer produced are marked with the buyer (the others unchanged), and each window's u32 total has grown by the price at its first occurrence |
| Repeats.MakeWhole | aoc_lib/2025/02/solver-2025-02.cpp:12-17 | the u64 result is the block written splits times over whenever that value fits in 64 bits |
| Repeats.Multiplier | aoc_lib/2025/02/solver-2025-02.cpp:14 | the multiplier looked up in kTenPowers is ten to the block's number of digits |
| Repeats.RepeatDigits | aoc_lib/2025/02/solver-2025-02.cpp:12-17 | the decimal string of the repeated value is the block's decimal string written times times over |
| Repeats.RepeatLength | aoc_lib/2025/02/solver-2025-02.cpp:12-17 | a block of L digits repeated times times has times * L digits |
| Repeats.RepeatLeading | aoc_lib/2025/02/solver-2025-02.cpp:15 | one more block puts the block in front of the repeated value, shifted over its digits |
| Repeats.RepeatBounds | aoc_lib/2025/02/solver-2025-02.cpp:12-17 | the repeated value lies between the block and the next block shifted over the other blocks' digits |
| Repeats.AllNines | aoc_lib/2025/02/solver-2025-02.cpp:12-17 | a block of k nines repeated is all nines |
| Repeats.PatternBounds | aoc_lib/2025/02/solver-2025-02.cpp:18-20 | the pattern is the id divided by ten to the digits outside the first block, so its shift brackets the id |
| Repeats.PatternIsLeadingDigits | aoc_lib/2025/02/solver-2025-02.cpp:18-20 | the pattern of an id with num_digits digits is the string of its leading num_digits / splits digits |
| Repeats.DropDigits | aoc_lib/2025/02/solver-2025-02.cpp:19 | dropping e digits of a number leaves its first digits, their count reduced by e |
| Repeats.NotRepeat | aoc_lib/2025/02/solver-2025-02.cpp:23 | an id whose digit count splits does not divide is no block repeated splits times |
| Repeats.LeadingBlock | aoc_lib/2025/02/solver-2025-02.cpp:24-27 | the leading block of an id has num_digits / splits digits and, shifted, brackets the id |
| Repeats.Between | aoc_lib/2025/02/solver-2025-02.cpp:24-32 | between the adjusted bounds lie exactly the blocks whose repeated value is in [start, end] |
| Repeats.FirstBlock | aoc_lib/2025/02/solver-2025-02.cpp:24-25 | the first bound moves up past the leading block of start exactly when that block's repeated value is below start, and by one at most |
| Repeats.LastBlock | aoc_lib/2025/02/solver-2025-02.cpp:27-28 | the last bound moves down past the leading block of end exactly when that block's repeated value is above end, and by one at most |
| Repeats.Collect | aoc_lib/2025/02/solver-2025-02.cpp:30-32 | the set gains the repeated value of every block between the bounds and nothing else |
| Repeats.ScanRangeWithSplits | aoc_lib/2025/02/solver-2025-02.cpp:22-33 | the set gains exactly the ids in [start, end] that are a block repeated splits times and keeps what it held; nothing is added when splits does not divide num_digits |
| Repeats.NoneInRange | aoc_lib/2025/02/solver-2025-02.cpp:23 | when splits does not divide num_digits no id of the range is a repeat, so returning early loses nothing |
| Repeats.ScanRange | aoc_lib/2025/02/solver-2025-02.cpp:35-39 | the set gains exactly the ids in [start, end] that are some block repeated s times for an s from 2 to max_splits |
| Batteries.FirstMax | aoc_lib/2025/03/solver-2025-03.cpp:15 | std::max_element over a non-empty window is the first index holding its largest battery |
| Batteries.FirstMaxUnique | aoc_lib/2025/03/solver-2025-03.cpp:15 | a window has exactly one first largest battery |
| Batteries.ChoiceShape | aoc_lib/2025/03/solver-2025-03.cpp:13-17 | the picks rise strictly, each lies in its window, and each leaves enough batteries after it before the last window's end to finish the selection |
| Batteries.ChoiceTail | aoc_lib/2025/03/solver-2025-03.cpp:16-17 | after the first pick the rest of the choice is the greedy choice on the window that starts just after it and ends one place later |
| Batteries.ChoiceUnique | aoc_lib/2025/03/solver-2025-03.cpp:14-17 | the greedy choice of a given length is unique |
| Batteries.ScanBank | aoc_lib/2025/03/solver-2025-03.cpp:10-21 | the picks are `needed` increasing indices, each the first maximum of its window; the u64 joltage is the picked digits read as a number, modulo 2^64; for at most 19 batteries it is exact, below 10^needed and the largest joltage of any way to switch on that many batteries among the first bak_size |
| Batteries.Window | aoc_lib/2025/03/solver-2025-03.cpp:13-17 | each search window is non-empty |
| Batteries.Advance | aoc_lib/2025/03/solver-2025-03.cpp:15-18 | taking the first maximum of the next window extends the greedy choice, and joltage * 10 + digit is the extended selection's number in u64 arithmetic |
| Batteries.ChoiceIsBest | aoc_lib/2025/03/solver-2025-03.cpp:10-21 | the greedy choice reads as the largest joltage of any selection of that many batteries in the bank's order |
| Batteries.GreedyIsBest | aoc_lib/2025/03/solver-2025-03.cpp:14-18 | no increasing selection of as many batteries inside the greedy windows reads larger than the greedy one |
| Batteries.LeadingDigit | aoc_lib/2025/03/solver-2025-03.cpp:18 | the first picked digit is worth ten to the number of digits after it |
| Batteries.NumberBound | aoc_lib/2025/03/solver-2025-03.cpp:18-20 | a number of n digits is below 10^n |
| Batteries.WrapStep | aoc_lib/2025/03/solver-2025-03.cpp:18 | the u64 accumulation wraps the same whether it wraps at each step or only at the end |
| Towels.Formable | source/2024/19/solver-2024-19.cpp:11-24 | the count returned is the number of ways Ways of the design, a cache that holds only true positive counts stays so, the design is cached exactly when its count is positive, and the cache only grows, by designs no longer than this one |
| Towels.SomeContribution | source/2024/19/solver-2024-19.cpp:14-21 | a positive total over the towels has some towel that contributes to it |
| Towels.ContributionCounted | source/2024/19/solver-2024-19.cpp:14-21 | each towel's contribution is part of the total |
| Towels.JoinCons | source/2024/19/solver-2024-19.cpp:15-20 | a towel laid before an arrangement is that towel followed by the arrangement's row |
| Towels.ArrangementOf | source/2024/19/solver-2024-19.cpp:11-24 | a positive count has a row of towels behind it that forms the design |
| Towels.ArrangementCounted | source/2024/19/solver-2024-19.cpp:11-24 | every row of towels that forms the design makes the count positive |
| Towels.PossibleIffArranged | source/2024/19/solver-2024-19.cpp:44-45 | a design counts as possible (solutions > 0) exactly when some row of towels forms it |
| Towels.OnlyWholeTowels | source/2024/19/solver-2024-19.cpp:15-19 | when no towel is a proper start of the design, the count is the number of towels equal to it, so zero when no towel starts it |
| Towels.WholeTowelsCounted | source/2024/19/solver-2024-19.cpp:16-19 | each towel equal to the whole design adds at least one way |
| Towels.CountUpTo | source/2024/19/solver-2024-19.cpp:14-21 | the listed arrangements starting with one of the first i towels are as many as their count |
| Towels.CountWith | source/2024/19/solver-2024-19.cpp:15-20 | the listed arrangements starting with towel k are as many as that towel's contribution |
| Towels.SoundUpTo | source/2024/19/solver-2024-19.cpp:14-21 | every arrangement listed for the first i towels forms the design and starts with a towel below i |
| Towels.SoundWith | source/2024/19/solver-2024-19.cpp:15-20 | every arrangement listed for towel k forms the design and starts with k |
| Towels.CompleteUpTo | source/2024/19/solver-2024-19.cpp:14-21 | every row of towels that forms the design and starts below i is listed |
| Towels.CompleteWith | source/2024/19/solver-2024-19.cpp:15-20 | every row of towels that forms the design is listed under its first towel |
| Towels.NonEmptyJoin | source/2024/19/solver-2024-19.cpp:15 | a row of at least one non-empty towel is non-empty |
| Towels.DistinctUpTo | source/2024/19/solver-2024-19.cpp:14-21 | no arrangement is listed twice among the first i towels |
| Towels.DistinctWith | source/2024/19/solver-2024-19.cpp:20 | no arrangement is listed twice under one towel |
| Towels.WaysCountsArrangements | source/2024/19/solver-2024-19.cpp:11-24 | the count is the number of distinct rows of towels that form the design: the list of them holds no repeats, holds exactly the rows that form the design, and is as long as the count |
| WarehouseMap.Put | source/2024/15/solver-2024-15.cpp:36-39 | writing map[i][j] keeps the shape of the map and changes that one cell only |
| WarehouseMap.BoardsEqual | source/2024/15/solver-2024-15.cpp:16 | two maps of one shape that agree on every cell are equal |
| WarehouseMap.StepFrom | source/2024/15/solver-2024-15.cpp:22-23 | a cell inside a walled map that is no wall has its neighbour on the map, one step nearer the edge ahead |
| WarehouseMap.PutTiles | source/2024/15/solver-2024-15.cpp:36-39 | overwriting a cell trades its old tile for the new one in the multiset of tiles |
| WarehouseMap.TwoCells | source/2024/15/solver-2024-15.cpp:38-39 | two different cells with the same tile count twice among the tiles |
| WarehouseMap.PutEnclosed | source/2024/15/solver-2024-15.cpp:36-39 | writing any tile off the edge keeps the map walled in |
| WarehouseMap.PutNarrow | source/2024/15/solver-2024-15.cpp:36-39 | writing a tile that is no wide-box half keeps the map free of halves |
| WarehouseMap.CalcBoxGPS | source/2024/15/solver-2024-15.cpp:55-63 | the two loops return the sum of 100 i + j over every BOX and WBOX_LEFT cell |
| WarehouseMap.RowGPSPut | source/2024/15/solver-2024-15.cpp:59 | overwriting one cell of a row changes the row's sum by the coordinate gained minus the one lost |
| WarehouseMap.RowsGPSPut | source/2024/15/solver-2024-15.cpp:57-61 | the same for the sum over the first n rows |
| WarehouseMap.GPSPut | source/2024/15/solver-2024-15.cpp:55-63 | writing a tile changes the GPS sum by the coordinate the cell gains minus the one it loses |
| WarehouseMap.WidePair | source/2024/15/solver-2024-15.cpp:70-86 | empty and wall become two copies of themselves, a box becomes a left and a right half, the robot becomes the robot and an empty cell |
| WarehouseMap.NarrowRowOf | source/2024/15/solver-2024-15.cpp:67 | each row of a map without halves has no halves |
| WarehouseMap.WidenRow | source/2024/15/solver-2024-15.cpp:68-89 | one row of the wide map is twice as long as the narrow row |
| WarehouseMap.WidenMap | source/2024/15/solver-2024-15.cpp:65-91 | the wide map is produced exactly when the map has no wide-box half (any other tile is the CHECK failure), and it is the row-by-row widening |
| WarehouseMap.WidenRowAt | source/2024/15/solver-2024-15.cpp:69-89 | column j of a widened row is half j mod 2 of the pair for column j / 2 |
| WarehouseMap.WidenAt | source/2024/15/solver-2024-15.cpp:65-91 | the wide map doubles every row, and each of its cells is a half of the pair for the narrow cell below it, so a box reads as [] and the robot as @. |
| NarrowMoves.RunEnd | source/2024/15/solver-2024-15.cpp:29-34 | the do-while loop stops at the first cell past the run of boxes, which is on the map, is no box and is nearer the edge |
| NarrowMoves.AheadTile | source/2024/15/solver-2024-15.cpp:23-27 | on a valid map the tile ahead of the robot is empty, a wall or a box, so neither CHECK can fire |
| NarrowMoves.RunEndTile | source/2024/15/solver-2024-15.cpp:33-35 | a box run in front of the robot ends at an empty cell or a wall |
| NarrowMoves.StepSound | source/2024/15/solver-2024-15.cpp:20-42 | a move keeps the map valid and the same tiles, so the same number of boxes; the robot moves one cell or stays, staying exactly when a wall is ahead or a box run ends at a wall, and then the map is unchanged |
| NarrowMoves.PushStep | source/2024/15/solver-2024-15.cpp:36-40 | a push puts a box at the run's end, empties the robot's cell and moves the robot onto the first box: the map stays valid with the same tiles |
| NarrowMoves.WalkStep | source/2024/15/solver-2024-15.cpp:38-40 | a step onto an empty cell swaps the two tiles and keeps the map valid |
| Warehouse.MoveRobot | source/2024/15/solver-2024-15.cpp:20-42 | the in-place move results in the map and robot of Step, which keeps the map valid and its tiles |
| WideMoves.Shifted | source/2024/15/solver-2024-15.cpp:169-174 | the map after the pushed cells moved one step keeps its shape and has, at each cell, the shifted tile |
| WideMoves.WideAhead | source/2024/15/solver-2024-15.cpp:147-153 | on a valid wide map the robot is off the edge and the tile ahead of it is empty, a wall or a box half, so neither CHECK fires |
| WideMoves.ReachBack | source/2024/15/solver-2024-15.cpp:170-171 | the cell behind a cell is one step farther from the edge ahead |
| WideMoves.NotBehind | source/2024/15/solver-2024-15.cpp:176 | a set of cells ahead of the robot does not hold the cell behind the robot |
| WideMoves.ClosedInterior | source/2024/15/solver-2024-15.cpp:171-173 | the cells of a closed push set, and the cells they move into, are off the edge |
| WideMoves.MovedAt | source/2024/15/solver-2024-15.cpp:169-178 | a cell of the map after the move: the robot one step ahead, its old cell empty, every other cell shifted |
| WideMoves.LeftShifted | source/2024/15/solver-2024-15.cpp:107-109 | a left half that moved has its right half moved beside it |
| WideMoves.LeftStayed | source/2024/15/solver-2024-15.cpp:107-109 | a left half that stayed has its right half still beside it |
| WideMoves.RightShifted | source/2024/15/solver-2024-15.cpp:112-114 | a right half that moved has its left half moved beside it |
| WideMoves.RightStayed | source/2024/15/solver-2024-15.cpp:112-114 | a right half that stayed has its left half still beside it |
| WideMoves.MovedEdge | source/2024/15/solver-2024-15.cpp:169-178 | the edge of the moved map is still all wall |
| WideMoves.MovedPaired | source/2024/15/solver-2024-15.cpp:169-178 | every box half of the moved map has its other half beside it |
| WideMoves.MovedRobot | source/2024/15/solver-2024-15.cpp:176-178 | the moved map has no narrow box and its only robot one step ahead |
| WideMoves.MovedValid | source/2024/15/solver-2024-15.cpp:169-178 | pushing a closed set ahead of the robot keeps the wide map valid, with the robot one step ahead |
| WideMoves.PushedFrame | source/2024/15/solver-2024-15.cpp:168-178 | what a push returns meets the frame under which the move keeps the map valid |
| WideMoves.ForcedNext | source/2024/15/solver-2024-15.cpp:102-116 | a half that must move pushes the tile in front of it unless that is empty |
| WideMoves.ForcedPartner | source/2024/15/solver-2024-15.cpp:107-116 | a half that must move takes the other half of its box along |
| WideMoves.ForcedBlocked | source/2024/15/solver-2024-15.cpp:105 | a half that must move with a wall in front of it means no push can go |
| WideMoves.ForcedLeast | source/2024/15/solver-2024-15.cpp:93-124 | a closed set all of whose cells must move is the least closed set |
| WideMoves.SetOfSuffix | source/2024/15/solver-2024-15.cpp:169 | the set of a suffix is the set of the shorter suffix plus its first cell |
| WideMoves.MoveCell | source/2024/15/solver-2024-15.cpp:170-173 | moving one cell keeps the map's shape |
| WideMoves.ShiftFrom | source/2024/15/solver-2024-15.cpp:169-174 | moving the listed cells one by one keeps the map's shape |
| WideMoves.NotLater | source/2024/15/solver-2024-15.cpp:169-174 | a listed cell is not among the cells listed after it, nor is the cell behind it |
| WideMoves.ShiftStep | source/2024/15/solver-2024-15.cpp:170-173 | moving one more cell, ahead of what has already moved, adds it to the shifted set |
| WideMoves.ShiftFromAt | source/2024/15/solver-2024-15.cpp:169-174 | moving the cells from the last one down is moving all of them at once |
| WideMoves.ShiftFromShifted | source/2024/15/solver-2024-15.cpp:169-174 | the shifting loop's result is the map with the listed cells shifted |
| WideMoves.WidenCell | source/2024/15/solver-2024-15.cpp:65-91 | the widened valid map has wall all along its edge, no narrow box, and its robot on the left cell of the robot's pair |
| WideMoves.WidenPaired | source/2024/15/solver-2024-15.cpp:77-80 | each box becomes a left half with its right half east of it |
| WideMoves.WidenValid | source/2024/15/solver-2024-15.cpp:65-91 | widening a valid narrow map gives a valid wide one, with the robot at twice its column |
| WidePush.RunStart | source/2024/15/solver-2024-15.cpp:129-132 | the half in front of a robot moving east or west starts a run whose box reaches away from the robot |
| WidePush.RunGrow | source/2024/15/solver-2024-15.cpp:131-135 | the run grows by the half in front of its last cell |
| WidePush.RunStop | source/2024/15/solver-2024-15.cpp:135-136 | past the run lies an empty cell or a wall, on the map, nearer the edge than the robot by the run's length plus one |
| WidePush.RunClosed | source/2024/15/solver-2024-15.cpp:138-141 | a run ending at an empty cell is listed in push order and is the least closed set of its first cell |
| WidePush.RunCell | source/2024/15/solver-2024-15.cpp:131-138 | each cell of such a run has its partner and its successor in the run, or its successor is the empty cell |
| WidePush.RunBlocked | source/2024/15/solver-2024-15.cpp:137 | a run ending at a wall is in no closed set, so nothing can be pushed |
| WidePush.CanPushEW | source/2024/15/solver-2024-15.cpp:126-142 | the push succeeds exactly when some closed set holds the half in front; then it lists the run from that half, each cell one step past the last, in push order, and is the push the move needs; a refusal lists nothing |
| WidePush.NSStart | source/2024/15/solver-2024-15.cpp:156-163 | the box in front of the robot is the first row of the search |
| WidePush.NSVisit | source/2024/15/solver-2024-15.cpp:100-103 | listing the next cell of the current row keeps the push order, and the cell in front of it is one row on and is a wall, empty or a half |
| WidePush.NSAdd | source/2024/15/solver-2024-15.cpp:107-116 | adding the box whose half stands in front of a listed cell keeps the next row whole |
| WidePush.LevelLow | source/2024/15/solver-2024-15.cpp:98 | a non-empty row lies on the grid |
| WidePush.SuccAppend | source/2024/15/solver-2024-15.cpp:101-116 | a listed cell whose successors are accounted for joins the accounted cells |
| WidePush.NSRow | source/2024/15/solver-2024-15.cpp:120-121 | a finished row together with the next row accounts for every successor |
| WidePush.NSCell | source/2024/15/solver-2024-15.cpp:98-123 | each cell listed by a finished search is a half that must move, nearer the edge than the robot, and the listed set is closed at it |
| WidePush.NSClosed | source/2024/15/solver-2024-15.cpp:123 | a finished search lists, in push order, the push the move needs, and a closed set holds the cell in front |
| WidePush.ListOf | source/2024/15/solver-2024-15.cpp:121 | the contents of the hash set are listed once each, in some order |
| WidePush.ScanRow | source/2024/15/solver-2024-15.cpp:100-121 | one pass of the outer loop lists each cell of the row and collects the next row; a wall in front of a cell means no closed set exists |
| WidePush.CanPushNS | source/2024/15/solver-2024-15.cpp:93-124 | the push succeeds exactly when some closed set holds the cell in front of the robot; then it lists that push in push order; a refusal lists nothing |
| Warehouse.PushedInside | source/2024/15/solver-2024-15.cpp:169-173 | the cells a push lists, and the cells they move to, are on the map |
| Warehouse.ShiftedNothing | source/2024/15/solver-2024-15.cpp:169 | shifting no cells leaves the map as it is |
| Warehouse.ShiftPushed | source/2024/15/solver-2024-15.cpp:169-174 | the reverse-order loop results in the map with the listed cells shifted one step |
| Warehouse.StepAfterPush | source/2024/15/solver-2024-15.cpp:176-178 | the robot's step onto the cleared cell completes the move and keeps the map valid |
| Warehouse.WMoveRobot | source/2024/15/solver-2024-15.cpp:144-180 | the move keeps the wide map valid; the robot moves one cell or stays; it stays exactly when the move is blocked, and then the map is unchanged; otherwise the map is the move of some push the move needs |
| Pulses.AcceptFrame | source/2023/20/solver-2023-20.cpp:84-104 | a delivered pulse changes only its target module, and only its memory or inputs; what it sends comes from the target, one pulse per target in order, all with one value |
| Pulses.FlipFlopRule | source/2023/20/solver-2023-20.cpp:88-93 | a flip-flop ignores a high pulse; on a low pulse it toggles its memory and sends the new memory to each target in order |
| Pulses.ConjunctionRule | source/2023/20/solver-2023-20.cpp:94-99 | a conjunction goes on exactly when it knows the sender; it records the pulse, keeps the other inputs, and sends to each target low exactly when every remembered input is high |
| Pulses.UntypedRule | source/2023/20/solver-2023-20.cpp:100-101 | an untyped module stores the pulse and sends nothing |
| Pulses.NoTargetRule | source/2023/20/solver-2023-20.cpp:85-102 | a pulse to the broadcaster, or to a name that is not in the map, is the CHECK failure |
| Pulses.TraceExtend | source/2023/20/solver-2023-20.cpp:113-121 | delivering the front of the queue extends the run by that pulse, with what it sends at the back |
| Pulses.CountBoth | source/2023/20/solver-2023-20.cpp:116 | every delivered pulse is counted as low or high |
| Pulses.LowFromSnoc | source/2023/20/solver-2023-20.cpp:117-119 | one more pulse adds a low pulse from k exactly when it is one |
| Pulses.CountSnoc | source/2023/20/solver-2023-20.cpp:116 | one more pulse adds one to the count of its value |
| Pulses.MonitorSnoc | source/2023/20/solver-2023-20.cpp:117-119 | setting the flag of a monitored sender of a low pulse keeps the monitor's keys and sets a flag exactly when it was set or some pulse so far was low from that module |
| Pulses.InitialPulses | source/2023/20/solver-2023-20.cpp:110-112 | the press starts with a low pulse from the broadcaster to each of its targets, in order |
| Pulses.TransmitPulses | source/2023/20/solver-2023-20.cpp:77-82 | the queue gains one pulse per target at its back, from the module, with the given value, in target order, and its front is unchanged |
| Pulses.Network.AcceptPulse | source/2023/20/solver-2023-20.cpp:84-104 | the modules change as Accept says and what the target sends joins the back of the queue; on a CHECK failure nothing changes; the monitor is untouched |
| Pulses.Network.Drain | source/2023/20/solver-2023-20.cpp:113-121 | draining the queue from the front delivers a run of pulses that follows the queue discipline; it ends drained exactly when the queue is empty, out of steps only after fuel pulses, or failed at a pulse Accept refuses; every delivered pulse is counted by value and the monitor records the low pulses from monitored modules |
| Pulses.Network.PressButton | source/2023/20/solver-2023-20.cpp:106-123 | a missing broadcaster fails with nothing changed; otherwise the run starts from the broadcaster's low pulses and follows the queue discipline; lows start at one for the button, so lows + highs is one more than the pulses delivered; the monitor records the low pulses from monitored modules |
| Mirage.Undiff | source/2023/09/solver-2023-09.cpp:12-18 | the running sums from x start at x and are one longer than the steps |
| Mirage.UndiffDiff | source/2023/09/solver-2023-09.cpp:12-18 | a history is recovered from its first value and its differences |
| Mirage.DiffUndiff | source/2023/09/solver-2023-09.cpp:12-18 | the differences of running sums are the steps themselves |
| Mirage.DiffSnoc | source/2023/09/solver-2023-09.cpp:44 | appending x to a history appends x minus its last value to the differences |
| Mirage.DiffCons | source/2023/09/solver-2023-09.cpp:45 | prepending x to a history prepends its first value minus x to the differences |
| Mirage.NextExtends | source/2023/09/solver-2023-09.cpp:44 | the forward value continues the table: appending it to a row appends the next row's forward value to the differences |
| Mirage.PrevExtends | source/2023/09/solver-2023-09.cpp:45 | the backward value continues the table: prepending it to a row prepends the next row's backward value to the differences |
| Mirage.ConstantExtrapolates | source/2023/09/solver-2023-09.cpp:37-46 | a constant history extrapolates to the same constant forward and backward |
| Mirage.NextNegate | source/2023/09/solver-2023-09.cpp:44 | negating a history negates its forward value |
| Mirage.PrevIsNextReversed | source/2023/09/solver-2023-09.cpp:44-45 | extrapolating backward is extrapolating the reversed history forward |
| Mirage.GetNextSequence | source/2023/09/solver-2023-09.cpp:12-18 | one value fewer, value i the step from s[i] to s[i + 1], and the history is its first value plus the running sums of the result |
| Mirage.ChainSnoc | source/2023/09/solver-2023-09.cpp:37-39 | a row of differences of the last row, which has a nonzero value, extends the table |
| Mirage.BuildTable | source/2023/09/solver-2023-09.cpp:35-39 | the loop builds the difference table: the history first, each row the differences of the one above, which has a nonzero value, and the last row all zeros |
| Mirage.RowBelow | source/2023/09/solver-2023-09.cpp:43-46 | once the row below is extended it ends in its forward value and starts with its backward value, and the row's own forward and backward values follow from them |
| Mirage.ExtrapolateHistory | source/2023/09/solver-2023-09.cpp:34-48 | the value appended to the history is its forward value Next and the one prepended is its backward value Prev |
| Robots.ModShift | aoc_lib/2024/14/solver-2024-14.cpp:15-17 | the remainder does not see multiples of the modulus |
| Robots.ModOfMod | aoc_lib/2024/14/solver-2024-14.cpp:15-17 | the remainder differs from its dividend by a multiple of the modulus |
| Robots.ModAddMod | aoc_lib/2024/14/solver-2024-14.cpp:15-17 | reducing a summand first does not change the remainder |
| Robots.FixSign | aoc_lib/2024/14/solver-2024-14.cpp:15-18 | the C++ remainder, moved up by the modulus when negative, is the Euclidean remainder |
| Robots.Position | aoc_lib/2024/14/solver-2024-14.cpp:12-18 | where a robot stands after t seconds lies on the map |
| Robots.MoveRobot | aoc_lib/2024/14/solver-2024-14.cpp:12-19 | the new position lies in [0, height) x [0, width), is congruent to the old position plus seconds times the velocity in each coordinate, and is Position; the velocity is kept |
| Robots.ComposeAxis | aoc_lib/2024/14/solver-2024-14.cpp:15-17 | one coordinate of PositionCompose |
| Robots.PeriodAxis | aoc_lib/2024/14/solver-2024-14.cpp:15-17 | one coordinate of PositionPeriod |
| Robots.PositionCompose | aoc_lib/2024/14/solver-2024-14.cpp:12-18 | moving a seconds and then b seconds is moving a + b seconds |
| Robots.PositionPeriod | aoc_lib/2024/14/solver-2024-14.cpp:12-18 | after height x width seconds every robot is back where it started |
| Robots.QuadrantSides | aoc_lib/2024/14/solver-2024-14.cpp:26-30 | a robot is in no quadrant exactly when it is on the middle row or the middle column; quadrants 0 and 1 are the upper half and 0 and 2 the left half |
| Robots.CountsPartition | aoc_lib/2024/14/solver-2024-14.cpp:25-30 | the four quadrant counts and the robots on the middle lines add up to all the robots |
| Robots.CountQuadrants | aoc_lib/2024/14/solver-2024-14.cpp:22-30 | counts q is the number of robots in quadrant q |
| Robots.WrapMul | aoc_lib/2024/14/solver-2024-14.cpp:31 | wrapping one factor first does not change a product taken modulo 2^32 |
| Robots.SafetyAsWritten | aoc_lib/2024/14/solver-2024-14.cpp:31 | the 32-bit product is the true product wrapped at 2^32 |
| Robots.SafetyWraps | aoc_lib/2024/14/solver-2024-14.cpp:31 | with 257 robots in each quadrant the true product is 4362470401 but the 32-bit one is 67503105 |
| Robots.SafetyAgrees | aoc_lib/2024/14/solver-2024-14.cpp:31 | the 32-bit product is right whenever the true product is below 2^32 |
| Robots.CalcQuadrants | aoc_lib/2024/14/solver-2024-14.cpp:21-32 | the product of the four quadrant counts, taken at full width |
| Robots.CalcQuadrantsAsWritten | aoc_lib/2024/14/solver-2024-14.cpp:21-32 | the product of the four quadrant counts as the source computes it, each multiplication wrapped at 2^32 |

## Left out

- Input reading, parsing (RE2 patterns, scan lists, tokenising) and printing in every kernel: these are I/O and foreign calls. Each model takes the parsed values as parameters.
- The solver glue of each `solve`: the loops over input lines, the answer sums and the code_value parse of 2024/21. These only add up the results of the modelled operations.
- Keypads: both GetAllValidRoutes overloads (source/2024/21/solver-2024-21.cpp:61-86) are left out. They only combine ShortestRoutes over every key pair into a table, and the model takes the table as a parameter.
- Keypads: the best-route loops of solve (source/2024/21/solver-2024-21.cpp:231-271) are left out. They are part of the solver glue.
- Keypads.Compare: the loop of the source has no termination guarantee, so the model bounds it by a fuel parameter. Running out of fuel is reported as no answer.
- Keypads: the costs and counts are unbounded; the u64 wrap-around of the DFS sums is not modelled. The LenCache and CompareCache, passed by reference in the source, are passed in and returned.
- Primes.LCM: the contract states that the result is a common multiple of the inputs, not that it is the least one. The u64 wrap-around of `lcm *= …` is not modelled. Every value must be at least 1, because a 0 makes Factorize loop forever (see Findings).
- Primes.Factorize: requires x >= 1, because on 0 the inner loop of the source never ends (see Findings). DivideOutRuns models that loop on any remainder.
- Primes.PrimeSieve: the loop counters are unbounded naturals. For a 32-bit UType the source's `loop * loop` wraps once loop reaches 65536: with a limit above 131073 the prime 65537 strikes from 131073 on, a number it does not divide. The model strikes from loop² as intended.
- Grid: the coordinates are unbounded integers; the i64 overflow of `operator+`, `operator-` and `operator*` (aoc_lib/aoc.h:105-107) is not modelled.
- Lenses: a character of code 128 or above, which is negative as a signed char, is not modelled. Characters are taken as their code points.
- Stones: the cache is passed in and returned rather than by reference. The u64 multiplication by 2024 wraps as in the source (Wrap64), but the counts are unbounded, so the u64 wrap-around of the even-case sum of the two halves' counts (solver-2024-11.cpp:36) is not modelled.
- Stones.Blink: states the exact, unbounded stone count; the source's u64 result equals it only while the count stays below 2^64, and the wrap of the sum beyond that is not modelled, so that the count stays tied to the simulated row length (BlinkCountIsRowLength).
- Springs: the counts are unbounded, so the u64 wrap-around of the sums is not modelled.
- Computer: the instruction counter is an unbounded natural, not the source's u16. The run is bounded by a fuel parameter, because a program can loop. The part-2 search for the register value (source/2024/17/solver-2024-17.cpp:80-101) is left out, since it relies on the shape of one puzzle input.
- Almanac: the solver's loops over seeds and maps, and SplitRangeSet, are left out; they are solver glue.
- Workflows: the solver's walks through the workflows, part by part and over ranged parts, are left out. They are solver glue built on RunWorkflow and SplitRangedPart.
- CamelCards: the sort of the hands and the winnings sum are left out.
- Equations.SolveEquationCorrect: the forward search is proved exact only under InRange: every operand after the first is at least 1 (Positive) and no intermediate value exceeds u64 (Fits). ForwardWrapAccepts shows what the wrap does otherwise. With a zero operand the source's `if (cur > goal) return false` (solver-2024-07.cpp:27) abandons a running value that a later multiplication by 0 would bring to the goal, so it rejects solvable equations; ForwardZeroRejects shows goal 0 with operands [5, 0] rejected. The puzzle's operands are positive, so this is recorded as an input assumption, not a defect. The second pass over invalid_equations is solver glue and is left out.
- Reports.Dampened: requires at least three levels, because the skip-index check reads past the end of a two-level report whose first pair is unsafe. NO_SKIP is the largest u32.
- Reports: the levels are unbounded integers; the i32 overflow of the differences `report[i] - report[prev]` and of init_delta (aoc_lib/2024/02/solver-2024-02.cpp:9,14) is not modelled. The product `init_delta * delta` (line 15) cannot overflow, since both factors are already known to lie in -3 .. 3 when it is taken.
- Gates.CalcValues: requires that the gates are keyed by their output, which is how the parser builds them. A fuel parameter bounds the passes, because the source loops forever when no gate can fire. The ids are a btree_set in the source and a sequence without repeats here. CalcGates and the part-2 search are left out.
- Secrets: the loop over buyers, the part-1 sum and the part-2 maximum of the bought table (source/2024/22/solver-2024-22.cpp:52-54) are left out; they are solver glue. Buyer takes the buyer's price list as a ghost parameter, proved to be the list of prices of its secrets.
- Repeats: CountInvalid (aoc_lib/2025/02/solver-2025-02.cpp:41-56) is left out. It splits a range at the powers of ten and sums the set. Ranges are taken below 10^19, so the u64 arithmetic never wraps.
- Batteries: the sums of the joltages in solve are left out.
- Towels: an empty towel is excluded, because the source would recurse forever on it. The cache is passed in and returned. The u64 counts are unbounded.
- Warehouse: the map and the robot, passed by reference in the source, are passed in and returned as values. FindRobot (source/2024/15/solver-2024-15.cpp:44-53) and the loops over the moves in solve are left out; the model takes the robot's position as a parameter and proves that each move keeps it the one robot on the map.
- Warehouse.MoveRobot and Warehouse.WMoveRobot require a valid map: walled in, the one robot where the position says, and for the wide map every box half beside its partner. The source's CHECKs fail only on maps outside that set, and every move keeps it.
- Pulses: PressButton is bounded by a fuel parameter, because a network with a feedback loop may not drain. The u64 counters are unbounded. The default insertion of `mods[target]` for an unknown name, which makes a module of unset type, is modelled as a failure. The part drivers of solve are left out.
- Mirage: the values are unbounded integers; i64 overflow and the u64 sums are not modelled.
- Robots: i64 overflow of the product seconds times velocity is not modelled, and the height and width must be positive. DetectRobotConcentration and the part-2 search are left out; they are heuristics on a picture.

## Findings

| source | as written | input that shows it | evidently intended | confidence | as-written member | corrected member |
|---|---|---|---|---|---|---|
| source/2023/05/solver-2023-05.cpp:90-93 | MapRange returns a map keyed by the start of each piece, so two pieces with the same start collide and one is dropped | range [0, 5], mapFrom [3, 10], mapTo [0, 7]: the kept piece [0, 2] and the mapped piece [0, 2] share the start 0, and only the kept one survives | every piece of the split range is returned, so the total size is kept | not executed; the solver maps single values only, where this cannot happen | Almanac.MapRangeAsWrittenLosesPiece | Almanac.SizeIsKept |
| aoc_lib/aoc.h:320-325 | the inner loop of Factorize divides rem by prime while prime divides it; on x = 0 the remainder stays 0, which every prime divides, so the loop never ends. LCM hands every value of its set to Factorize, so a set holding 0 hangs too | x = 0 with primes [2], as LCM({0, 3}) does | Factorize is given positive values only and ends with their factorisation | not executed | Primes.DivideOutZeroNeverEnds | Primes.Factorize |
| aoc_lib/2024/07/solver-2024-07.cpp:18 | the concatenation test `(goal - operand) % tens == 0` is made in u64; when goal < operand the subtraction wraps | goal 1, operands [0, 7], concatenation allowed: accepted, though no operator choice gives 1 | the concatenation branch is taken only when goal >= operand and goal ends in the operand's digits | not executed | Equations.BackwardAsWrittenAcceptsImpossible | Equations.BackwardIsSolvable |
| aoc_lib/2024/14/solver-2024-14.cpp:31 | the four quadrant counts are u32, so their product wraps at 2^32 before it is widened to the u64 result | 257 robots in each quadrant: the product is 4362470401, computed as 67503105 | the product taken in 64 bits | not executed; puzzle inputs with 500 robots stay below the wrap | Robots.SafetyWraps | Robots.CalcQuadrants |
