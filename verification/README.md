# Advent of Code 2020, days 1 to 11, in Dafny

A model of the puzzle solutions in Juzley/adventofcode2020, written in Rust.
The centre of the model is day 11's seating automaton:
- the waiting area is parsed from lines of `L`, `#` and `.`;
- each sweep is double-buffered;
- there are two neighbour rules: the eight adjacent cells (vacate at 4), and the first seat seen in each of the eight directions (vacate at 5), found through a memoising cache;
- the driver sweeps until a sweep changes nothing, then counts the occupied seats.

Around it are the other days' cores:
- day 8: the handheld console's interpreter and its loop repair;
- day 10: the joltage adapter counts;
- day 9: the XMAS cipher checks;
- day 5: binary boarding passes and the free-seat scan;
- day 7: the bag graph, searched backwards from "shiny gold" and summed forwards;
- day 3: the toboggan slopes;
- day 2: the two password policies;
- day 6: the customs answer counts;
- day 4: passport grouping and validation;
- day 1: the 2020 expense searches.

Layout, one module per source file, and four for day 11:

| file | module | models |
|---|---|---|
| common.dfy | `Common` | shared `Option`, counting, sums, min/max, functional insertion sort |
| seating_grid.dfy | `SeatingGrid` | day 11 cells, directions, parsing, occupied count |
| seating_adjacency.dfy | `SeatingAdjacency` | day 11 `get_adjacent_coords`, `count_adjacent` |
| seating_visibility.dfy | `SeatingVisibility` | day 11 `get_status_extended` and its cache, `count_adjacent_extended` |
| seating_sweep.dfy | `SeatingSweep` | day 11 `iterate`, `iterate_extended`, `pt1`, `pt2` |
| console.dfy | `Console` | day 8 |
| adapters.dfy | `Adapters` | day 10 |
| xmas.dfy | `Xmas` | day 9 |
| boarding.dfy | `Boarding` | day 5 |
| bags.dfy | `Bags` | day 7 |
| toboggan.dfy | `Toboggan` | day 3 |
| passwords.dfy | `Passwords` | day 2 |
| customs.dfy | `Customs` | day 6 |
| passports.dfy | `Passports` | day 4 |
| expenses.dfy | `Expenses` | day 1 |

## Modelling choices

Integers are unbounded. The one wrap-around that changes behaviour is modelled: day 8 casts a negative jump target to `usize`, which `Console.AsUsize` does modulo 2^64.

The source's panics are modelled in two ways.
- As preconditions:
  - day 9 `find_invalid` needs an invalid number;
  - day 2 part 2 needs both positions inside the password;
  - day 5 needs a pass over `F`/`B`/`L`/`R`;
  - day 7 looks up "shiny gold" unconditionally;
  - day 3 takes row 0 of the map for the width, which must be non-zero once a slope takes a step, and reads the square each step lands on; `Toboggan.Walkable` asks for exactly these per slope, so rows of other lengths are allowed;
  - day 11 takes row 0 of the map.
- As error values:
  - day 8's unknown mnemonic is `None` from `Console.FromStrings`;
  - day 8's `fix_loop` running out of candidates is `None`;
  - day 8's `fix_loop` also gives `None` when its first run leaves the end of the program, where the source's `step` panics on `self.prg[self.pc]` (`day8/src/main.rs:59`); `Console.RecordStates` reports this as a run that did not loop;
  - day 9's out-of-range slice is `Xmas.Panicked`.

Loops that the source does not bound take a `fuel` parameter:
- the day 11 drivers;
- the day 9 range search.

Two methods return one value more than the source, so that their contracts can name it: `Xmas.FindInvalid` also returns the position of the invalid number, and `Console.FixLoop` the number of states saved.

Hash maps and hash sets become Dafny `map` and `set`. Where iteration order matters, the lists are `seq`s in insertion order: the day 7 adjacency lists and the day 8 recorded states.

Day 11 differs from the usual description of this automaton in two ways; the model follows the code (`day11/src/main.rs:49-74`).
- Construction does not reject rows of differing lengths. `SeatingGrid.FromLines` accepts them, and the sweeps require `SeatingGrid.Valid`, which asks for equal rows.
- An empty list of rows is not an error value. It panics on `seats[0]`, so `FromLines` requires a row.

## Model

| member | source | states |
|---|---|---|
| Common.Sort | day5/src/main.rs:48 | the sorted ids are ordered and are a permutation of the input |
| Common.SortedPermutationUnique | day10/src/main.rs:5 | two sorted permutations of one multiset are equal, so sorting is determined by its input's contents |
| Common.Occurrences | day2/src/main.rs:22 | the count of a letter in a password is its multiplicity in the password |
| SeatingGrid.ToVec | day11/src/main.rs:25-36 | every direction is a unit step in x and y other than (0, 0) |
| SeatingGrid.DirectionsAreTheNeighbourhood | day11/src/main.rs:218-227 | the eight listed directions are pairwise distinct and reach every one of the eight neighbour offsets |
| SeatingGrid.ParseCell | day11/src/main.rs:55-59 | `L` is exactly the empty seat, `#` exactly the occupied seat, anything else is floor |
| SeatingGrid.FromLines | day11/src/main.rs:49-74 | the area keeps every line's length, and its height is the line count and its width the first line's length; each cell is empty or occupied exactly when its character says so |
| SeatingGrid.FromLinesValid | day11/src/main.rs:66-67 | lines of equal length give a well-formed area |
| SeatingGrid.ParseRenderRoundTrip | day11/src/main.rs:49-74 | parsing then printing gives back lines over `L`, `#` and `.`, and printing a well-formed area then parsing it gives back that area |
| SeatingGrid.OccupiedSeats | day11/src/main.rs:83-93 | the count is the number of coordinates holding an occupied seat, at most width times height |
| SeatingAdjacency.AdjacentCoords | day11/src/main.rs:169-180 | a neighbour coordinate exists exactly when one step in the direction stays inside the area, and it is that step |
| SeatingAdjacency.CountAdjacent | day11/src/main.rs:95-139 | the adjacent count is the number of the eight directions whose neighbour holds the status, at most 8 |
| SeatingAdjacency.CountAdjacentByDirection | day11/src/main.rs:95-139 | the source's edge-clipped sum over the rows above, beside and below equals the count over the eight directions |
| SeatingAdjacency.CountAdjacentIgnoresCentre | day11/src/main.rs:95-139 | the count does not depend on the cell itself |
| SeatingVisibility.RayIsFirstSeat | day11/src/main.rs:182-209 | a ray resolves to the first seat on it, with only floor before it; a ray that resolves to floor meets no seat before it leaves the area |
| SeatingVisibility.StatusExtended | day11/src/main.rs:182-209 | the memoised lookup returns the ray's first seat whatever the cache held, keeps the cache consistent with the area, only adds entries, and records the queried key |
| SeatingVisibility.CountAdjacentExtended | day11/src/main.rs:211-239 | the count is the number of directions whose first visible seat, starting one step away, holds the status, at most 8, and the cache stays consistent |
| SeatingVisibility.LookDirection | day11/src/main.rs:229-236 | one direction counts exactly when a neighbour exists that way and the first seat seen from it holds the status |
| SeatingVisibility.AdjacentCountAtMostVisible | day11/src/main.rs:211-239 | an occupied neighbour is also the first seat seen that way, so the visible count is at least the adjacent count |
| SeatingSweep.SweepsToUnique | day11/src/main.rs:141-167 | the cell-by-cell rule (floor stays, empty with no occupied neighbour fills, occupied at the threshold empties, reading only the old area) determines exactly one next area |
| SeatingSweep.ChangesZeroIffSame | day11/src/main.rs:141-167 | the number of changed cells is zero exactly when the areas are equal |
| SeatingSweep.SweepRow | day11/src/main.rs:146-162 | each cell of the row gets its next state from reads of the unchanged original, and the row's update count is the number of cells that differ from the original row |
| SeatingSweep.SweepCell | day11/src/main.rs:147-161 | the cell at the column takes its next state, the cells after it stay as in the original row, and the update count covers the cells swept so far |
| SeatingSweep.SweepOnce | day11/src/main.rs:141-167 | one sweep under either rule produces the unique next area, reports the number of changed cells, and reports zero exactly when nothing changed |
| SeatingSweep.Iterate | day11/src/main.rs:141-167 | `iterate` is one sweep under the adjacent rule with threshold 4 |
| SeatingSweep.IterateExtended | day11/src/main.rs:241-270 | `iterate_extended` is one sweep under the visibility rule with threshold 5 |
| SeatingSweep.Settle | day11/src/main.rs:273-289 | when it answers, the last sweep changed nothing, the area reached is a fixed point, no earlier sweep was idle, and the answer is its occupied count; when it runs out of fuel, every sweep within the fuel changed something |
| SeatingSweep.SettledStaysSettled | day11/src/main.rs:274-277 | a sweep that changes nothing leaves a fixed point, so stopping there loses nothing |
| SeatingSweep.Part1 | day11/src/main.rs:273-280 | the answer is the occupied count of an adjacent-rule fixed point reached from the input |
| SeatingSweep.Part2 | day11/src/main.rs:282-289 | the answer is the occupied count of a visibility-rule fixed point reached from the input |
| SeatingSweep.NoOccupiedFillsEverySeat | day11/src/main.rs:147-153 | from an area with no occupied seat, one sweep under either rule fills every empty seat and leaves the floor |
| SeatingSweep.FloorGridIsSettled | day11/src/main.rs:141-167 | an area of floor only is a fixed point with no occupied seat |
| Console.AsUsize | day8/src/main.rs:67-68 | the cast keeps an in-range target and sends a small negative one above half the `usize` range |
| Console.ParseOp | day8/src/main.rs:27-32 | `acc`, `jmp` and `nop` give that operation with the argument; any other mnemonic is an error |
| Console.FromStrings | day8/src/main.rs:21-42 | the program parses exactly when every mnemonic is known; it starts at pc 0 with accumulator 0 and nothing visited, and holds each line's mnemonic and argument |
| Console.FromStringsRoundTrip | day8/src/main.rs:21-42 | printing a program and parsing it back gives the program in its initial state |
| Console.Reset | day8/src/main.rs:52-56 | a reset program is the program in its initial state |
| Console.Exec | day8/src/main.rs:58-74 | `acc` adds to the accumulator and moves on; `nop` moves on; `jmp` moves by its argument and wraps a negative target |
| Console.Step | day8/src/main.rs:58-74 | a step executes the instruction at pc and changes nothing else |
| Console.Execute | day8/src/main.rs:76-89 | execution stops past the end with `Ok` or at a revisited instruction with `Err`, carrying the accumulator, after at most as many steps as there are unvisited instructions |
| Console.ExecuteFollowsTrace | day8/src/main.rs:76-89 | the final state is the plain run of that many steps; the steps visit fresh instructions and the next one does not |
| Console.NegativeJumpTerminates | day8/src/main.rs:67-68 | a jump before instruction 0 leaves the program, which then ends with `Ok` |
| Console.ResetAfterExecute | day8/src/main.rs:52-56 | resetting after an execution restores the parsed program |
| Console.Flip | day8/src/main.rs:110-116 | a `jmp` becomes a `nop` and back with the same argument, nothing else changes, and an `acc` is not a candidate |
| Console.RecordStates | day8/src/main.rs:95-103 | the recorded states are the run's states up to the first revisit or exit, and it reports which of the two stopped it |
| Console.TryRepairs | day8/src/main.rs:107-123 | the answer comes from the latest recorded state whose flip terminates; no answer means no flip terminates |
| Console.FixLoop | day8/src/main.rs:91-124 | the answer is the `Ok` value of the flip at the latest state before the loop that terminates, and no later state's flip terminates; no answer means the program left its end, where the source panics, or no flip helps |
| Console.ExampleLoops | day8/src/main.rs:142-158 | the example program revisits an instruction with accumulator 5 |
| Console.ExampleRepair | day8/src/main.rs:160-176 | repairing the example gives 8 |
| Console.ExampleOnlyFix | day8/src/main.rs:160-176 | flipping the `jmp -4` at instruction 7 is the repair that is found |
| Adapters.GapsTelescope | day10/src/main.rs:4-22 | the differences from the outlet add up to the largest adapter |
| Adapters.Part1 | day10/src/main.rs:4-22 | the answer is the number of 1-differences times one more than the number of 3-differences in the sorted adapters |
| Adapters.CountGaps | day10/src/main.rs:9-19 | the loop counts exactly the differences of 1 and of 3 along the chain, each measured from the previous adapter or the outlet |
| Adapters.Part1IgnoresOrder | day10/src/main.rs:5 | the answer depends only on the adapters as a multiset |
| Adapters.FindCombinations | day10/src/main.rs:24-42 | `find_combinations`; it has no contract of its own, and `Adapters.CombinationsArePaths` states what it computes |
| Adapters.CombinationsFrom | day10/src/main.rs:29-39 | the `while` loop of `find_combinations`; it has no contract of its own, and `Adapters.CombinationsArePaths` states what it computes |
| Adapters.CombinationsArePaths | day10/src/main.rs:24-42 | on sorted input, `find_combinations` with its early stop is the number of ways through the sequence in steps of at most 3 |
| Adapters.FindRun | day10/src/main.rs:44-55 | the run ends at the first difference above 2 after the start, or at the end |
| Adapters.RunSplits | day10/src/main.rs:57-71 | on a chain, the ways through a suffix are the ways through its first run times the ways through the rest |
| Adapters.SplitAtThree | day10/src/main.rs:57-71 | on a chain, a difference of 3 splits the ways into a product |
| Adapters.Part2 | day10/src/main.rs:57-71 | for adapters that with the outlet form a chain, the product over runs is the number of arrangements from the outlet to the last adapter |
| Adapters.ExamplePart1 | day10/src/main.rs:89-94 | on the test's list 16, 10, 15, 5, 1, 11, 7, 19, 6, 12, 4, `pt1` answers 35 |
| Xmas.PairExists | day9/src/main.rs:11-20 | the inner search finds a pair exactly when the number is a sum of two numbers of its window |
| Xmas.FindInvalid | day9/src/main.rs:6-28 | the result is the first number from the window size on that is not such a sum, returned with its position |
| Xmas.Advance | day9/src/main.rs:43-49 | a window below the target grows at the end, one above it shrinks at the front, and the window never inverts |
| Xmas.SearchFrom | day9/src/main.rs:30-51 | a weakness is the smallest plus the largest number of a non-empty contiguous range summing to the target |
| Xmas.FindEncryptionWeakness | day9/src/main.rs:30-51 | the same, searching from the first number |
| Xmas.SearchFuelMonotone | day9/src/main.rs:30-51 | more fuel never changes a result already reached |
| Xmas.ExamplePart1 | day9/src/main.rs:69-77 | the example's first invalid number with window 5 is 127 |
| Xmas.ExampleWeakness | day9/src/main.rs:79-88 | the example's weakness for 127 is 62 |
| Boarding.Walk | day5/src/main.rs:5-31 | the loop of `proc_bsp`; it has no contract of its own, and `Boarding.WalkDecodes` states what it computes |
| Boarding.ProcBsp | day5/src/main.rs:5-31 | `proc_bsp`; it has no contract of its own, and `Boarding.RowDecodes` and `Boarding.ColumnDecodes` state what it computes |
| Boarding.Halve | day5/src/main.rs:8 | halving truncates toward zero, as Rust's integer division |
| Boarding.WalkDecodes | day5/src/main.rs:5-31 | halving a range of 2^n over n letters lands on its lower end plus the letters read as binary |
| Boarding.RowDecodes | day5/src/main.rs:42 | a row is its seven letters in binary, between 0 and 127 |
| Boarding.ColumnDecodes | day5/src/main.rs:43 | a column is its three letters in binary, between 0 and 7 |
| Boarding.SeatId | day5/src/main.rs:44 | for a column below 8, row and column are recovered from the seat id as its quotient and remainder by 8 |
| Boarding.PassIsBinary | day5/src/main.rs:42-44 | a seat id is the ten letters read as one binary number below 1024 |
| Boarding.ScanFrom | day5/src/main.rs:49-57 | the scan answers one past the previous id or one past an id it reaches, and one past an id it reaches when it starts without a previous id |
| Boarding.FindSeat | day5/src/main.rs:48-57 | with no ids the answer is 1; otherwise it is one past an id on the list |
| Boarding.FindSeatIsRunEnd | day5/src/main.rs:48-57 | over the sorted ids, the scan answers one past the id before the first position where an id other than 0 is not followed by its successor, or one past the last id; an id 0 never stops it, so this is a run of consecutive ids only when there is no id 0 |
| Boarding.ZeroIdSkipsGap | day5/src/main.rs:49-55 | with ids 0, 2 and 3 the scan answers 4 though 1 is free |
| Boarding.FixOnlyMattersAtZero | day5/src/main.rs:49-55 | without an id 0 the scan and the corrected scan agree |
| Boarding.FindSeatFixedIsFirstFree | day5/src/main.rs:48-57 | for distinct ids, the corrected scan answers a free id with every id from the smallest up to it taken |
| Bags.ContainersOfMembers | day7/src/main.rs:10-22 | a bag is listed as a container of `b` exactly when some rule says it contains `b` |
| Bags.BuildReverse | day7/src/main.rs:10-22 | the reverse map has an entry exactly for the bags some rule contains, listing their containers in rule order |
| Bags.ClosedHoldsReachable | day7/src/main.rs:28-42 | a set closed under containers and holding the start's containers holds every bag that can contain the start |
| Bags.VisitContainers | day7/src/main.rs:35-41 | the inner loop adds the unvisited containers to the queue and the visited set, counts each once, and leaves the bag's containers visited |
| Bags.VisitOne | day7/src/main.rs:36-40 | an unvisited container is appended to the queue, marked visited and counted; a visited one changes nothing |
| Bags.Explore | day7/src/main.rs:24-44 | the search visits exactly the bags that can eventually contain the start; its count is their number plus the repeats in the start's container list |
| Bags.Part1 | day7/src/main.rs:6-45 | the same for the map built from the rules |
| Bags.Part1Distinct | day7/src/main.rs:6-45 | counting from the visited set instead gives exactly the number of bags that can contain "shiny gold" |
| Bags.RepeatedClauseCountsTwice | day7/src/main.rs:25-27 | a rule naming "shiny gold" twice leaves a repeat in its container list |
| Bags.BuildForward | day7/src/main.rs:51-65 | the forward map has an entry exactly for the bags with contents, listing colour and count in rule order |
| Bags.InsideListIsPending | day7/src/main.rs:67-87 | the bags inside a list of contents are the pending total of that list as a queue |
| Bags.QueueStep | day7/src/main.rs:74-85 | taking the front (bag, k) adds k to the count and queues its contents multiplied by k, leaving the pending total unchanged and shrinking the work by one |
| Bags.CountInside | day7/src/main.rs:67-87 | when the colours reachable from the start can be ranked so that every bag holds only lower-ranked bags, i.e. no cycle is reachable, the queue walk counts the bags inside the start, each content counted once and once more for what it holds |
| Bags.Part2 | day7/src/main.rs:47-88 | the same for the map built from the rules |
| Bags.UnreachableCycle | day7/src/main.rs:67-87 | a cycle the start cannot reach leaves the requirement satisfiable: for shiny gold holding 1 a beside x and y holding each other, the walk counts 1 |
| Bags.InsideTwo | day7/src/main.rs:67-87 | a bag holding k of c and l of d holds k(1 + inside c) + l(1 + inside d) bags |
| Bags.ExamplePart1 | day7/src/main.rs:106-122 | in the first example four colours can hold "shiny gold" |
| Bags.ExamplePart2 | day7/src/main.rs:124-140 | in the first example "shiny gold" holds 32 bags |
| Bags.ExampleChain | day7/src/main.rs:142-156 | in the second example "shiny gold" holds 126 bags |
| Toboggan.ParseSquare | day3/src/main.rs:19-22 | `#` is exactly the tree |
| Toboggan.FromStrings | day3/src/main.rs:15-29 | the map keeps each line's length, and a square is a tree exactly when its character is `#` |
| Toboggan.PathStep | day3/src/main.rs:55-58 | the square at each step is reached from the previous column by adding the right step modulo the width |
| Toboggan.TreeStep | day3/src/main.rs:55-61 | adding the right step modulo the width to the previous column lands on the next square of the slope, and the tree count grows by one exactly when it is a tree |
| Toboggan.CountTrees | day3/src/main.rs:53-62 | the per-slope count is the number of trees on the squares at rows down, 2 down, ... and columns wrapped around the width, at most the number of steps |
| Toboggan.TreeProduct | day3/src/main.rs:46-66 | the result is the product of the tree counts over the five slopes |
| Toboggan.ProductZero | day3/src/main.rs:65 | the product is zero exactly when some slope meets no tree |
| Passwords.CountValid | day2/src/main.rs:11-36 | part 1 counts the entries whose letter count lies in the range; part 2 counts those with the letter at exactly one of the two positions |
| Passwords.CheckEntry | day2/src/main.rs:21-35 | the part 1 counter goes up exactly when the letter count lies in the range, the part 2 counter exactly when one of the two positions holds the letter |
| Passwords.PositionPolicyNeedsLetter | day2/src/main.rs:28-35 | a password valid under part 2 contains the letter |
| Passwords.ExampleFirstOnly | day2/src/main.rs:22-35 | `2-9 c: ccccccccc` is valid under part 1 and not part 2 |
| Customs.ExtendLastLine | day6/src/main.rs:29-32 | one more answer letter adds it to the group's answers and raises its tally by one |
| Customs.CountLine | day6/src/main.rs:26-33 | after a line, the map holds, for each letter the group answered, how often it appears |
| Customs.CountChar | day6/src/main.rs:29-32 | reading the next letter of a line keeps the map equal to the tallies of the group with that letter added |
| Customs.TallyAbsent | day6/src/main.rs:29-32 | a letter nobody answered has tally zero |
| Customs.CloseGroup | day6/src/main.rs:17-22 | closing a group adds its number of distinct letters to part 1, and to part 2 the letters whose tally equals the group size |
| Customs.TakeLine | day6/src/main.rs:13-33 | a blank line adds the open group's distinct letters and unanimous letters to the counters and restarts the group at size 0; any other line joins the open group, raises its size by one and leaves the counters alone |
| Customs.CountAnswers | day6/src/main.rs:9-41 | part 1 is the sum over groups of the letters anyone answered; part 2 the sum of the letters whose tally equals the group size |
| Customs.UnanimousAtMostAnswered | day6/src/main.rs:9-41 | part 2 never exceeds part 1 |
| Customs.UnanimousMeansEveryone | day6/src/main.rs:19 | when no line repeats a letter, a tally equal to the group size means every member answered it |
| Passports.InsertAll | day4/src/main.rs:21-23 | inserting a line's fields adds exactly their keys |
| Passports.LastFieldWins | day4/src/main.rs:21-23 | a key's value is the last one given for it |
| Passports.UnnamedKeyKept | day4/src/main.rs:21-23 | a key no field names keeps its value |
| Passports.ReadPassports | day4/src/main.rs:6-32 | every blank line closes a record, and a non-empty trailing record is kept; the passports number the blank lines, or one more |
| Passports.BlanksCloseRecords | day4/src/main.rs:17-20 | there is one record more than there are blank lines |
| Passports.EndingInBlank | day4/src/main.rs:27-29 | input ending in a blank line gives one passport per blank line |
| Passports.TwoBlanks | day4/src/main.rs:17-20 | two blank lines give two empty passports |
| Passports.IsValidPassport | day4/src/main.rs:34-42 | a passport is valid exactly when it has every required key |
| Passports.CountValidPassports | day4/src/main.rs:44-57 | the count is the number of passports with all seven keys other than `cid`, at most the passport count |
| Passports.ExtraFieldsIrrelevant | day4/src/main.rs:45-48 | more keys never invalidate a passport, and `cid` is never needed |
| Expenses.FindPair | day1/src/main.rs:17-24 | the product of the first pair (an entry may pair with itself) summing to 2020, or nothing when no pair does |
| Expenses.FindTriple | day1/src/main.rs:27-36 | the product of the first pair whose complement to 2020 is an entry, times that complement, or nothing when there is none |
| Expenses.FirstPairOrdered | day1/src/main.rs:17-24 | the first pair found has its first index no later than its second |
| Expenses.TripleFactorsAreEntries | day1/src/main.rs:30-32 | the third factor is itself an entry |

## Left out

- Reading files and standard input, regex matching, integer parsing and printing. Each day's core takes already-split lines or tokens: `(mnemonic, argument)` pairs on day 8, `Entry` values on day 2, `Line` values on day 4, `Edge` values on day 7.
- The width of integers (`i32`, `i64`, `usize`, `u64`), apart from day 8's `usize` cast. Overflow of day 7's counts, day 3's product and day 10's product is not modelled.
- Day 11's `from_file`, and the day 11 test of 26 on the 10 by 10 example: each of its several sweeps updates 100 cells, and each update counts up to eight neighbours, which is beyond what the verifier evaluates in reasonable time.
- SeatingSweep.Settle: convergence is not proven, so the driver takes a fuel bound and may stop with `None`.
- SeatingSweep.Part1: states only the `Some` outcome, for the same reason.
- SeatingSweep.Part2: states only the `Some` outcome, for the same reason.
- Xmas.SearchFrom: the same as `Xmas.FindEncryptionWeakness` below, whose window search it is: fuel-bounded, and correct only when it answers.
- Xmas.FindEncryptionWeakness: takes a fuel bound and may report `Exhausted`, because the window search is not proven to end. It also does not state that a weakness is found whenever a range exists.
- Xmas.FindInvalid: requires an invalid number to exist, because the source panics otherwise.
- Adapters.Part2: only states its result for inputs forming a chain, strictly increasing with differences at most 3. On other inputs the product over runs is not the arrangement count: for adapters 1, 1, 4 the runs give 2 where there are 3 ways.
- The other day 10 examples (8, 220, 19208) are not proved.
- Bags.Part2: requires a ranking of the colours reachable from "shiny gold" under which every rule descends, i.e. no cycle reachable from it. When such a cycle exists the source's queue never empties, which is not modelled; cycles among other colours are allowed (`Bags.UnreachableCycle`).
- Bags.ExamplePart1: stated on the reverse map the example's rules build, not on the rule lines themselves.
- Bags.ExamplePart2: stated on the forward map the first example's rules build, not on the rule lines themselves.
- Bags.ExampleChain: stated on the forward map the second example's rules build, not on the rule lines themselves.
- Passwords.CountValid: requires both positions inside every password, because the source's slice panics otherwise. Passwords and letters are taken as ASCII, where byte and character positions coincide: the source slices bytes, so a multi-byte character at a position panics there, and a multi-byte letter never equals a one-byte slice, neither of which the model's character indexing reproduces.
- Passwords.CheckEntry: the same ASCII reading of the part 2 positions.
- Passwords: the examples are the puzzle's own; the source has no tests for day 2.
- Customs.CountAnswers: the source walks the counts map's values, which the model counts as the size of its key set and of the set of letters counted `size` times.
- Customs.UnanimousMeansEveryone: states part 2's meaning only for groups where no line repeats a letter, since a repeated letter inflates the tally.
- Boarding.RowDecodes: requires a well-formed pass, because the source panics on any other letter.

## Findings

| source | as written | input that shows it | evidently intended | confidence | as-written member | corrected member |
|---|---|---|---|---|---|---|
| day5/src/main.rs:49-55 | `prev_id == 0` doubles as "no previous id", so a real seat id 0 never starts the run | ids 0, 2, 3: the scan answers 4 while 1 is free | the first free id after the lowest run of consecutive ids | low, not executed | Boarding.ZeroIdSkipsGap | Boarding.FindSeatFixedIsFirstFree |
| day7/src/main.rs:25-27 | the count starts at the length of the container list of "shiny gold", which repeats a colour whose rule names "shiny gold" twice | rules "bright white" containing 1 "shiny gold" and 2 "shiny gold": the count is one above the number of containing colours | the number of colours that can contain "shiny gold" | low, not executed | Bags.RepeatedClauseCountsTwice | Bags.Part1Distinct |
