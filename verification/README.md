# Four puzzle solvers, modelled in Dafny

This project models the pure logic of four puzzle programs and proves what
they compute. File reading and command-line handling are left out, so every
input is handed over already parsed.

- **Factory indicator lights** (`2025/day10/factory.py`). A machine has a row
  of lights, all off at the start, and a list of buttons. Each button lists
  the light indices it toggles. The answer is the least number of presses
  that lights exactly the target pattern. There are two solvers:
  - `solve_gf2_system` tries all `2^n` press patterns;
  - `solve_gf2_gaussian` does Gauss–Jordan elimination over GF(2), checks
    consistency, then enumerates the free variables.

  `part1` adds up the answers of all machines.
  - `gf2.dfy`: bit vectors, dot products and row equations.
  - `lights.dfy`: buttons, the exhaustive search and the answer type.
  - `elimination.dfy`: the elimination steps.
  - `gaussian.dfy`: the Gaussian solver.
  - `brute_force.dfy`: the brute-force solver.
  - `factory.dfy`: the per-machine loop of `part1`.
  - `factory_examples.dfy`: the example machines.
- **Gift shop IDs** (`day02/gift_shop.py`). An ID is invalid when its decimal
  digits are a pattern written out exactly twice (first rule) or at least
  twice (second rule). The answer is the sum of the invalid IDs over
  inclusive ranges. See `gift_shop.dfy` and `gift_shop_examples.dfy`.
- **Safe dial** (`day01/password.py`). A dial with positions 0–99 starts at
  50 and turns one click at a time. The password counts the times the dial
  shows 0: at the end of a rotation only, or after every click. See
  `password.dfy`.
- **Theater tiles** (`2025/day09/theater.py`). Covers:
  - the largest rectangle with two red tiles as opposite corners;
  - the polygon boundary through the red tiles;
  - the rectangle validity check;
  - the pruned search for the largest valid rectangle.

  See `theater.dfy` and `theater_examples.dfy`. The search is stated once
  for any validity test on a pair of tiles. That one statement covers the
  eager search, which uses `is_rectangle_valid`, and the lazy search, which
  uses a test built on `point_in_polygon`.

How the model represents the source:

- **Answers.** A solver's answer is `Presses(k)`, `Impossible` (the source's
  `-1`) or `Infinity` (the source's `float('inf')`).
  - `Infinity` is returned only when a machine has no buttons and some target
    light is on.
  - `part1` checks only for `-1`, so an infinite answer makes the total
    infinite. `Factory.Total` has a separate `InfiniteSum` case for this.
- **Reading a button list.** The two solvers read a button list differently.
  - The brute force flips a light once for each time it is listed (`Toggle`).
  - The matrix builder sets a cell to 1 when the light is listed at all
    (`Membership`).
  - The two readings agree when no button lists a light twice. When one does,
    they disagree. `Lights.RepeatedIndexDivergence` gives a machine where the
    two solvers return different answers.
- **Docstring versus code.** The Gaussian solver's docstring
  (`2025/day10/factory.py:45-48`) says it may not find the minimum. The code
  does enumerate every assignment of the free variables and keep the least
  weight. The model follows the code, and `Gaussian.SolveGaussian` is proved
  minimal.
- **A test comment.** The comment in the `565656` test
  (`2025/day02/test_gift_shop.py:175`) says the ID is also "565 repeated 2
  times". That would be `565565`. The asserted results are right, and
  `GiftShopExamples.ThreeTimesFiftySix` proves them.
- **Modulo.** Python's `%` with a positive modulus never returns a negative
  value. Dafny's `%` behaves the same way, so `(position + step) % 100` is
  written as is.

## Model

| member | source | states |
|---|---|---|
| GF2.XorCancels | 2025/day10/factory.py:93 | XORing the same row in twice gives back the original row, so each elimination step can be undone |
| GF2.XorRowHolds | 2025/day10/factory.py:89-93 | at any x, the equation of the XOR of two rows holds exactly when the two rows' equations agree (both hold or both fail) |
| GF2.BitsRoundTrip | 2025/day10/factory.py:140-145 | every bit vector of length n is the bit pattern `(c >> i) & 1` of at least one counter `c < 2^n`, so the counters cover every assignment |
| GF2.FromBitsOfBits | 2025/day10/factory.py:140-145 | reading back the bit pattern of a counter `c < 2^n` gives c, so distinct counters give distinct patterns; with `GF2.BitsRoundTrip`, each vector belongs to exactly one counter |
| Lights.PressButton | 2025/day10/factory.py:203-207 | pressing a button flips light i exactly when i is listed an odd number of times; indices past the last light change nothing |
| Lights.PressAll | 2025/day10/factory.py:201-207 | after pressing pattern x, light i shows the GF(2) dot product of its per-button parity row with x |
| Lights.Search | 2025/day10/factory.py:196-212 | the search over counters below c finds nothing exactly when no counter's pattern is accepted; otherwise it returns the weight of an accepted pattern, and no accepted pattern weighs less |
| Lights.ExhaustiveIsLeast | 2025/day10/factory.py:182-214 | infinity exactly when there are no buttons and some target light is on; -1 exactly when there are buttons and no pattern reaches the target; otherwise the least weight of a pattern that reaches it |
| Lights.ExhaustiveFromLeast | 2025/day10/factory.py:182-214 | whenever w is the least weight of a reaching pattern, the exhaustive solver returns w, including a machine without buttons and an all-off target, where w is 0 |
| Lights.ExhaustiveFromUnsolvable | 2025/day10/factory.py:210-214 | when there is at least one button and no pattern reaches the target, the exhaustive solver returns -1 (without buttons it returns infinity instead) |
| Lights.CountNoRepeats | 2025/day10/factory.py:205-207 | on a button without repeated indices, each light is toggled once if listed and otherwise not at all |
| Lights.ReadingsAgree | 2025/day10/factory.py:60-63 | when no button repeats an index, setting cells to 1 is the same as toggling (lines 203-207): a pattern reaches the target by toggling exactly when it solves the membership matrix |
| Lights.ExhaustiveReadingsAgree | 2025/day10/factory.py:203-207 | when no button repeats an index, the exhaustive answers under both readings are equal |
| Lights.RepeatedIndexDivergence | 2025/day10/factory.py:60-63 | for target `[1]` and the button `[0, 0]`, toggling gives -1 but the membership matrix gives 1 press |
| Lights.DoubleListingNeverLights | 2025/day10/factory.py:205-207 | for the machine with target `[1]` and the single button `[0, 0]`, no press pattern lights light 0 by toggling |
| Lights.DoubleListingMembership | 2025/day10/factory.py:60-63 | under the membership reading, one press of that button is the least solution |
| Elimination.SwapRows | 2025/day10/factory.py:80-82 | rows a and b are exchanged; every other row is unchanged |
| Elimination.SwapPreservesSolutions | 2025/day10/factory.py:80-82 | swapping two rows keeps the set of solutions |
| Elimination.FindPivotRow | 2025/day10/factory.py:76-84 | finds the first row at or after the pivot row with a 1 in the column, or reports that there is none |
| Elimination.EliminateColumn | 2025/day10/factory.py:89-93 | every other row with a 1 in the column gets the pivot row XORed into it; the column is then 0 outside the pivot row, and the solutions are unchanged |
| Elimination.EliminationPreservesSolutions | 2025/day10/factory.py:89-93 | XORing the pivot row into other rows keeps the set of solutions |
| Elimination.Eliminate | 2025/day10/factory.py:73-95 | the result has the same solutions as the input and is reduced: the pivot columns strictly increase down the rows, each pivot column is 1 only in its own pivot row, each pivot row is 0 left of its pivot, the rows below the pivots have no 1 in any coefficient column, and the returned pivot row is the number of pivots |
| Elimination.SwapKeepsReduced | 2025/day10/factory.py:78-84 | moving the found row up to the pivot position keeps the earlier pivots reduced and puts a 1 in the pivot cell |
| Elimination.PivotStep | 2025/day10/factory.py:89-95 | clearing the column around a new pivot extends the reduced form by that pivot |
| Elimination.CheckConsistent | 2025/day10/factory.py:101-104 | succeeds exactly when no row at or below the pivot row has a 1 in the target column |
| Elimination.InconsistentHasNoSolution | 2025/day10/factory.py:101-104 | if some row below the pivots has a 1 in the target column, the system has no solution, so returning -1 is right |
| Elimination.IncreasingBelow | 2025/day10/factory.py:108 | there are never more pivots than buttons, so `min(pivot_row, num_buttons)` is the number of pivots |
| Elimination.LeadingColumn | 2025/day10/factory.py:109-112 | returns the first column holding a 1 in the row, or reports that the row has none |
| Elimination.PivotColumns | 2025/day10/factory.py:106-112 | the leading 1 of each pivot row is exactly that row's pivot column |
| Elimination.FreeColumns | 2025/day10/factory.py:114-115 | the free columns are exactly the columns below n that are not pivots, in increasing order |
| Elimination.PivotValue | 2025/day10/factory.py:126-128 | the value back-substitution gives a pivot variable is the row's target bit XOR the row's dot product over the later columns |
| Elimination.BackSubstitute | 2025/day10/factory.py:147-153 | keeps every non-pivot entry of the starting vector and makes every pivot row's equation hold |
| Elimination.PivotEquationsSolve | 2025/day10/factory.py:121-133 | in a reduced, consistent system, a vector meeting every pivot row's equation solves the whole system |
| Elimination.SolutionsMeetPivotEquations | 2025/day10/factory.py:121-133 | every solution of the reduced system meets the pivot rows' equations |
| Elimination.PivotRowValue | 2025/day10/factory.py:126-129 | a pivot row's dot product is its pivot variable XOR the dot product over the columns after the pivot |
| Elimination.PivotEquationsDetermine | 2025/day10/factory.py:121-133 | two vectors that meet the pivot equations and agree on the free columns are equal, so without free variables the solution is unique |
| Gaussian.BuildAugmented | 2025/day10/factory.py:56-67 | cell (i, j) is 1 exactly when button j lists light i, with light indices at or past the number of lights ignored; the last column is the target |
| Gaussian.FreeAssignment | 2025/day10/factory.py:141-145 | the starting vector is all zeros except that free variable `free[i]` holds bit i |
| Gaussian.CounterCovers | 2025/day10/factory.py:139-153 | every solution is the back-substitution of the counter made from its own free bits |
| Gaussian.LeastFreeAssignment | 2025/day10/factory.py:135-164 | the enumeration returns the weight of some solution, and no solution weighs less |
| Gaussian.SolveGaussian | 2025/day10/factory.py:42-164 | the Gaussian solver returns the exhaustive answer for the membership matrix (sound and minimal, -1 exactly when unsolvable, infinity when there are no buttons); when no button repeats an index it equals the brute-force answer |
| BruteForce.Press | 2025/day10/factory.py:203-207 | pressing a button in place flips exactly the lights listed an odd number of times |
| BruteForce.PressPattern | 2025/day10/factory.py:199-207 | the light state after a press pattern is the one `Lights.PressAll` describes |
| BruteForce.SolveBruteForce | 2025/day10/factory.py:167-214 | the brute-force solver returns the least number of presses whose toggled state equals the target, -1 when there is none, and infinity when there are no buttons and some light is on |
| Factory.TallyMeaning | 2025/day10/factory.py:237-263 | the running total is -1 exactly when some machine gives -1; it is infinite exactly when none gives -1 and some gives infinity; otherwise it is the sum of the press counts |
| Factory.FailedStays | 2025/day10/factory.py:247-250 | once a machine gives -1, no later machine changes the -1 |
| Factory.ImpossibleFails | 2025/day10/factory.py:247-250 | one machine without a solution makes the whole total -1 |
| Factory.PartOne | 2025/day10/factory.py:226-263 | `part1` solves the machines in order and returns the running total of their answers, stopping with -1 at the first unsolvable machine |
| Factory.SolversAgree | 2025/day10/factory.py:242-245 | when no button repeats an index, both solvers give the same total |
| FactoryExamples.FirstMachineTwo | 2025/day10/test_factory.py:19-25 | the first example machine needs 2 presses |
| FactoryExamples.SecondMachineThree | 2025/day10/test_factory.py:28-34 | the second example machine needs 3 presses |
| FactoryExamples.ThirdMachineTwo | 2025/day10/test_factory.py:37-43 | the third example machine needs 2 presses |
| FactoryExamples.ExampleAnswers | 2025/day10/test_factory.py:19-43 | the brute-force answers to the three examples are 2, 3 and 2 |
| FactoryExamples.ExampleTotal | 2025/day10/test_factory.py:46-50 | the three examples total 7 |
| FactoryExamples.ExampleTotalGaussian | 2025/day10/test_factory.py:46-50 | the Gaussian solver also totals 7 on the examples |
| FactoryExamples.UnreachableLight | 2025/day10/test_factory.py:53-59 | target `[1, 0]` with the only button `[1]` gives -1 |
| FactoryExamples.AlreadyOff | 2025/day10/test_factory.py:62-68 | an all-off target needs 0 presses |
| GiftShop.Decimal | day02/gift_shop.py:13 | `str(n)` is a non-empty string of decimal digits without a leading zero |
| GiftShop.DecimalRoundTrip | day02/gift_shop.py:13 | reading the digits of `str(n)` back gives n |
| GiftShop.DecimalLength | day02/gift_shop.py:14 | a number with k digits has a string of length k |
| GiftShop.Repeat | day02/gift_shop.py:23 | `pattern * k` has length k times the pattern's length |
| GiftShop.RepetitionFits | day02/gift_shop.py:19-23 | a string that is some pattern repeated at least twice is found by the loop at that pattern's length, which is at most half the string |
| GiftShop.RepetitionByLength | day02/gift_shop.py:16-25 | a string is a pattern repeated at least twice exactly when some pattern length from 1 to half the length divides it and its prefix repeated fills it |
| GiftShop.DoubledByHalves | day02/gift_shop.py:26-31 | a string is some string written twice exactly when its length is even and its two halves are equal |
| GiftShop.IsInvalidId | day02/gift_shop.py:1-31 | under the first rule the ID is invalid exactly when its digits are a string written twice; under the second, exactly when they are a non-empty pattern written at least twice |
| GiftShop.DoubledIsRepetition | day02/gift_shop.py:19-31 | every ID invalid under the first rule is invalid under the second |
| GiftShop.OddLengthIsValid | day02/gift_shop.py:28-29 | an ID with an odd number of digits is valid under the first rule |
| GiftShop.SingleDigitIsValid | day02/gift_shop.py:19 | single-digit IDs are valid under both rules |
| GiftShop.SolveGiftShop | day02/gift_shop.py:54-60 | the result is the sum, over every range, of the IDs from start to end inclusive that are invalid under the chosen rule |
| GiftShop.InvalidSumGrows | day02/gift_shop.py:54-60 | over any run of IDs, the second rule's sum is at least the first rule's |
| GiftShop.TotalGrows | day02/gift_shop.py:54-60 | over any list of ranges, the second rule's total is at least the first rule's |
| GiftShopExamples.TwoDigits | 2025/day02/test_gift_shop.py:17-22 | a two-digit ID is invalid under either rule exactly when its two digits are equal |
| GiftShopExamples.ThreeDigits | 2025/day02/test_gift_shop.py:10-15 | a three-digit ID is valid under the first rule, and invalid under the second exactly when all three digits are equal |
| GiftShopExamples.ElevenToTwentyTwo | 2025/day02/test_gift_shop.py:139-143 | the range 11-22 sums to 11 + 22 under the first rule |
| GiftShopExamples.NinetyFiveFirstRule | 2025/day02/test_gift_shop.py:157-161 | the range 95-115 sums to 99 under the first rule |
| GiftShopExamples.NinetyFiveSecondRule | 2025/day02/test_gift_shop.py:145-149 | the range 95-115 sums to 99 + 111 under the second rule |
| GiftShopExamples.TwoRangesFirstRule | 2025/day02/test_gift_shop.py:157-161 | the ranges 11-22 and 95-115 total 11 + 22 + 99 under the first rule |
| GiftShopExamples.SingleIdRange | 2025/day02/test_gift_shop.py:163-167 | the range 11-11 includes both ends and totals 11 |
| GiftShopExamples.ThreeTimesFiftySix | 2025/day02/test_gift_shop.py:173-178 | 565656 is invalid under the second rule only |
| GiftShopExamples.FiveTimes57 | 2025/day02/test_gift_shop.py:180-185 | 5757575757 is invalid under the second rule only |
| GiftShopExamples.ThreeTimes714 | 2025/day02/test_gift_shop.py:187-193 | 714714714 is invalid under the second rule only |
| GiftShopExamples.NoPatternIn123456 | 2025/day02/test_gift_shop.py:88-93 | 123456 is valid under the second rule |
| Safe.Click | day01/password.py:28 | after every click the position is in 0-99 |
| Safe.SolveSafe | day01/password.py:13-35 | the loop's count is the password the rotations define: starting at 50, each click moves by -1 for `L` and +1 otherwise, modulo 100, and a 0 is counted after every click in the click mode or only at a rotation's last click in the normal mode |
| Safe.SpinPosition | day01/password.py:27-28 | the remaining clicks of a rotation leave the dial at its position moved by their total signed turn, modulo 100, in either mode |
| Safe.RotatePosition | day01/password.py:27-28 | a rotation of distance d > 0 from position p ends at `(p + step * d) mod 100` |
| Safe.NoTurnNoChange | day01/password.py:27 | a rotation of distance 0 or less changes neither position nor count |
| Safe.RunInRange | day01/password.py:13-28 | from the start, the position stays in 0-99 |
| Safe.RotateNormal | day01/password.py:31-33 | in the normal mode a rotation adds 1 exactly when it turns the dial and ends at 0, and otherwise adds nothing |
| Safe.RotateClicks | day01/password.py:31-33 | in the click mode a rotation adds the number of its clicks that leave the dial at 0 |
| Safe.RunModes | day01/password.py:27-33 | the mode never changes the position, and the click mode's count is never below the normal mode's |
| Safe.ClickModeCountsMore | day01/password.py:31-33 | for the same rotations, the click-mode password is at least the normal-mode password |
| Safe.RunPosition | day01/password.py:13-28 | the dial shows 50 moved by the total signed number of clicks, modulo 100 |
| Safe.NormalModeCountsLandings | day01/password.py:31-33 | the normal-mode password is the number of rotations that turn the dial and end at 0, so it is at most the number of rotations |
| Theater.Area | 2025/day09/theater.py:34-36 | a rectangle includes both corner tiles, so its area is at least 1 |
| Theater.AreaSymmetric | 2025/day09/theater.py:34-36 | the area does not depend on which corner comes first |
| Theater.FindLargestRectangle | 2025/day09/theater.py:20-49 | the result is the area of the tiles at some two different positions in the list (equal tiles included), and no such pair has a larger area; it is 0 exactly when there are fewer than two tiles |
| Theater.LargestPositive | 2025/day09/theater.py:22 | the largest area is 0 exactly when there are fewer than two tiles |
| Theater.LargestValid | 2025/day09/theater.py:302-348 | for any validity test, the pruned search returns the largest area among the pairs that pass, or 0 when none passes, even though it skips pairs whose area cannot beat the best so far |
| Theater.NoneValidIffZero | 2025/day09/theater.py:213-243 | the largest valid area is 0 exactly when no pair passes the validity test |
| Theater.LargestUnderUnique | 2025/day09/theater.py:211-254 | the largest valid area is uniquely determined |
| Theater.ValidAtMostLargest | 2025/day09/test_theater.py:285-290 | the largest valid area never exceeds the largest area without the validity test |
| Theater.AllValidIsLargest | 2025/day09/theater.py:233-243 | when every pair passes, the pruned search computes the same as `find_largest_rectangle` |
| Theater.LargestUnique | 2025/day09/theater.py:20-49 | the largest area is uniquely determined |
| Theater.LargestOrderFree | 2025/day09/test_theater.py:96-102 | reordering the tiles does not change the largest area |
| Theater.Corners | 2025/day09/theater.py:176-177 | the rectangle spanned by two corners has its low bounds at most its high bounds |
| Theater.SampleRate | 2025/day09/theater.py:202 | the sample step is at least 1 |
| Theater.CellsInIsValid | 2025/day09/theater.py:183-208 | a rectangle whose every cell is a valid tile passes the check, on both branches, and has valid edges |
| Theater.CheckAllCells | 2025/day09/theater.py:183-188 | passes exactly when every cell of the rectangle is a valid tile |
| Theater.CheckEdges | 2025/day09/theater.py:190-199 | passes exactly when every cell on the top and bottom rows and on the left and right columns is a valid tile |
| Theater.CheckSamples | 2025/day09/theater.py:201-206 | passes exactly when every sampled interior point is a valid tile |
| Theater.IsRectangleValid | 2025/day09/theater.py:174-208 | passes whenever every cell is valid; at most 10000 cells, passes exactly when every cell is valid; above that, passes exactly when the edges and the sampled interior points are valid |
| Theater.IsPairValid | 2025/day09/theater.py:238 | the validity test for a pair of tiles is the rectangle check on them as opposite corners |
| Theater.FindLargestValidRectangle | 2025/day09/theater.py:211-254 | returns the largest area among the pairs whose rectangle passes `is_rectangle_valid`, or 0 when none passes |
| Theater.OnSegmentBeforeStep | 2025/day09/theater.py:62-72 | each loop step adds exactly the cells of the segment from tile i to the next tile, wrapping from the last tile to the first |
| Theater.AddSegment | 2025/day09/theater.py:66-72 | the cells added are exactly those on a vertical or horizontal segment between the two tiles; a diagonal pair adds nothing |
| Theater.BuildPolygonBoundary | 2025/day09/theater.py:57-74 | a cell is on the boundary exactly when it is a tile or lies on an axis-aligned segment between two cyclically consecutive tiles; every tile is on it |
| TheaterExamples.TwoTilesLargest | 2025/day09/theater.py:33-38 | with two tiles, the result is their rectangle's area |
| TheaterExamples.DiagonalPair | 2025/day09/test_theater.py:68-73 | (0,0) and (3,4) give 20 |
| TheaterExamples.SwappedPair | 2025/day09/test_theater.py:96-102 | (5,5) and (0,0) give 36, the same as the other order |
| TheaterExamples.ThreeOnDiagonal | 2025/day09/test_theater.py:82-87 | (0,0), (1,1) and (10,10) give 121 |
| TheaterExamples.NegativeCorners | 2025/day09/test_theater.py:89-94 | (-5,-5) and (5,5) give 121 |
| TheaterExamples.ThreeInARow | 2025/day09/test_theater.py:154-159 | three tiles in a row, (0,0), (5,0) and (10,0), give 11 |
| TheaterExamples.RowConnection | 2025/day09/test_theater.py:185-191 | the boundary of (0,0) and (5,0) holds every cell from (0,0) to (5,0) |
| TheaterExamples.ColumnConnection | 2025/day09/test_theater.py:193-199 | the boundary of (0,0) and (0,5) holds every cell from (0,0) to (0,5) |
| TheaterExamples.SquareBoundary | 2025/day09/test_theater.py:201-211 | the boundary of the square (0,0), (3,0), (3,3), (0,3) is exactly its ring of 12 cells |

## Left out

- Parsing and I/O are not modelled, because they are outside the pure logic:
  - `parse_machine`, `parse_input` and `parse_tiles`;
  - the file reads in `solve_gift_shop` and `solve_safe`;
  - every `main` or argparse block;
  - all debug and verbose printing, including the split of invalid IDs into
    half-and-half and other patterns in `day02/gift_shop.py:66-85`.

  Every solver takes its input already parsed:
  - a target as `seq<bool>` and buttons as index lists;
  - rotations as (direction, distance) pairs;
  - ranges as (start, end) pairs;
  - tiles as integer pairs.
- numpy is not modelled. Matrices are sequences of boolean rows.
- Unused work is not modelled: the coefficient matrix that `solve_gf2_system`
  builds and never reads (`2025/day10/factory.py:186-192`).
- The `best_pair` and `best_solution` bookkeeping is not modelled, because
  these values are never returned.
- `Factory.PartOne`: does not model the generic `except Exception` of
  `part1`. Only parsing can raise there, and parsing is left out.
- The `part2` placeholder of `2025/day10/factory.py:266-278` is not
  modelled, because it always returns 0.
- `point_in_polygon` is not modelled, because it uses floating-point
  division. Neither is anything built on it:
  - `find_interior_point`, `flood_fill_interior` and `build_valid_tiles`;
  - `is_rectangle_valid_lazy`.

  The lazy search `find_largest_valid_rectangle_lazy` is modelled by
  `Theater.LargestValid` with its validity test as a parameter. So the
  search loop is covered, but the validity test it uses is not.
- `part2` of `2025/day09/theater.py` is not modelled as one member. It is
  `Theater.BuildPolygonBoundary` followed by the lazy search, whose validity
  test depends on `point_in_polygon`.
- Theater.IsRectangleValid: for rectangles above 10000 cells the check
  samples the interior. The contract states exactly what the sampling
  accepts. It promises only one direction of "every cell is valid": every
  cell valid implies the check passes, not the converse, because the source
  does not promise the converse either.
- Negative light indices are not modelled. Buttons are lists of `nat`,
  because `parse_machine` (`2025/day10/factory.py:32-36`) only ever produces
  digit strings. The solvers' guard `light_idx < num_lights` would let a
  negative index through, and numpy would then wrap it around to light
  `num_lights + idx`.
- Negative IDs are not modelled, because `str(num)` would include a `-`.
  IDs are `nat`.
- Safe.RotateClicks: requires the dial's position to be in 0-99. The dial
  starts at 50 and every click keeps it in range (`Safe.RunInRange`), so this
  holds along every run `solve_safe` performs.
- The source's unbounded Python integers are modelled as Dafny's unbounded
  `int` and `nat`. No width or overflow is involved.
