# Advent of Code 2022 solutions, modelled in Dafny

This project models the Rust solutions to the Advent of Code 2022 puzzles, one
Dafny module per day (`Day01` … `Day25`; days 3 and 17 and the `main` driver
are not part of this model). Shared arithmetic lives in `Common`: Rust's
truncating `/` and `%`, floor division, and decimal parsing.

Each day's puzzle logic is written in the form the Rust code takes:

- Loops that update local variables become methods with loop invariants.
- Objects updated in place become classes with `modifies` clauses:
  - the monkey-map walker of day 22 (`Day22.State`);
  - the grove of elves of day 23 (`Day23.Grove`);
  - the blizzard cache of day 24 (`Day24.BlizzardCache`);
  - the sand grid of day 14 (an `array2`).
- Recursive and expression code becomes functions.

Each method is proved against a specification function. The puzzle's own
rules are stated as independent definitions (walks, reachability, sortedness
and permutation, round trips), and lemmas connect the two.

Where the Rust code panics (`unwrap`, an out-of-range index, `panic!`,
`unreachable!`), the model returns `None` or a dedicated outcome. Where it
would loop forever, the model either proves termination or takes a `fuel`
bound and reports running out.

Reading the puzzle input (files, `include_bytes!`, regular expressions) is
not modelled. Each operation takes the already-split lines, bytes or records
that the Rust code builds before its core logic starts.

## Model

| member | source | states |
|---|---|---|
| Common.TruncDiv | src/day21.rs:64 | Rust's `/` on `i32`: the quotient rounds toward zero; it equals Euclidean division for a non-negative dividend and a positive divisor |
| Common.TruncRem | src/day24.rs:186 | Rust's `%`: the dividend is divisor times quotient plus remainder, and the remainder takes the dividend's sign and is smaller than the divisor in magnitude |
| Common.TruncRemNonNegative | src/day24.rs:186 | for a non-negative dividend and a positive divisor, Rust's `%` and `/` agree with Euclidean `%` and `/` |
| Common.FloorDiv | src/day24.rs:55 | `div_floor`: the quotient is the largest integer q with q·b ≤ a (for b > 0) |
| Common.ParseInt | src/day07.rs:37 | `parse()` succeeds exactly on a string of digits with an optional leading `+` or `-`, and gives the decimal value with that sign; the empty string and a lone sign do not parse |
| Day01.GroupSumAppend | src/day01.rs:11-15 | summing one elf's lines is additive over a split of the lines |
| Day01.GroupSumOfLine | src/day01.rs:11-15 | a group of one line sums to that line's integer value (a sign allowed, as `parse::<i32>` allows it), an empty line to 0, and an unparsable line fails; with the split lemma, each further line adds its value |
| Day01.InsertDescPermutation | src/day01.rs:17-26 | putting a sum into the ranking neither loses nor duplicates an element |
| Day01.InsertDescSorted | src/day01.rs:17-26 | putting a sum into a descending ranking keeps it descending |
| Day01.SortDescPermutation | src/day01.rs:10-27 | the reference ranking of all sums is a permutation of them |
| Day01.SortDescSorted | src/day01.rs:10-27 | the reference ranking is descending |
| Day01.InsertDescPrefix | src/day01.rs:17-26 | keeping only the first n places while inserting gives the same first n places as inserting into the whole ranking, which is why three variables suffice |
| Day01.TopThreeFacts | src/day01.rs:6-29 | the three kept values are descending and non-negative, whatever the sign of the sums, as the counters start at 0; the first is at least every group's sum; each is 0 or one of the sums |
| Day01.ThirdAtLeast | src/day01.rs:6-8 | a descending list holding a value three times has at least that value in third place, so the three zero starting values keep the top three non-negative |
| Day01.TopThreeStep | src/day01.rs:17-26 | after one more group, the top three is the old top three with the new sum inserted, cut to three |
| Day01.Sums | src/day01.rs:10-15 | one sum per group, in order, each the group's line total |
| Day01.Update | src/day01.rs:17-26 | the three-way `if` chain leaves (a, b, c) equal to the first three of the sum inserted into the descending (a, b, c) |
| Day01.RunningTopThree | src/day01.rs:10-27 | the loop over the groups stops exactly when some group does not parse, and otherwise leaves (a, b, c) equal to the top three of the reference ranking |
| Day01.LargestIsFirst | src/day01.rs:17-29 | no group's sum exceeds the first of the top three |
| Day01.Solve | src/day01.rs:4-30 | the result is absent exactly when some line does not parse; otherwise it is the largest group sum and the sum of the three largest, and the first value is at least every group's sum |
| Day02.ShapeFor | src/day02.rs:31-67 | the shape chosen for a wanted outcome really produces that outcome against the opponent's shape |
| Day02.ShapeForUnique | src/day02.rs:31-67 | the shape that produces an outcome is unique: choosing for the outcome my shape produced gives back my shape |
| Day02.RoundScoresFollowRules | src/day02.rs:31-68 | the nine-entry score table is exactly the rules of the game: a round scores iff both letters are known; part 1 scores my shape plus the outcome of playing it; part 2 scores the wanted outcome plus the shape that yields it |
| Day02.RoundScoresBounds | src/day02.rs:31-67 | every known round scores between 1 and 9 under both readings |
| Day02.TotalsBounds | src/day02.rs:23-70 | each total lies between 1 and 9 times the number of records |
| Day02.Solve | src/day02.rs:17-73 | the byte loop computes the totals of the records, stepping four bytes at a time; absent where a record is cut short or holds an unknown letter |
| Day04.ContainsEitherSymmetric | src/day04.rs:31-33 | the containment test gives the same answer with the two ranges swapped |
| Day04.ContainsEitherMeansSubset | src/day04.rs:31-33 | for non-empty ranges, the endpoint test holds iff every section of one range lies in the other |
| Day04.OverlapsSymmetric | src/day04.rs:35-37 | the overlap test gives the same answer with the two ranges swapped |
| Day04.OverlapsMeansCommonPoint | src/day04.rs:35-37 | for non-empty ranges, "the end of one lies inside the other" holds iff the larger start is at most the smaller end, iff the ranges share a section |
| Day04.ContainsEitherOverlaps | src/day04.rs:31-37 | a pair counted in part 1 is counted in part 2 |
| Day04.ContainingAtMostOverlapping | src/day04.rs:13-27 | with non-empty ranges, the part 1 count never exceeds the part 2 count |
| Day04.Solve | src/day04.rs:7-29 | the two counters equal the numbers of pairs passing each test |
| Day05.ParseCrateLine | src/day05.rs:53-62 | a line succeeds iff it reaches column 33; then each stack gets the letter at `4i + 1` pushed underneath (spaces leave it alone); a short line changes nothing |
| Day05.Drawing | src/day05.rs:16-24 | reading the drawing yields nine stacks, absent if a line is too short |
| Day05.CountUpdate | src/day05.rs:35-40 | replacing one stack changes the total crate count by the difference in that stack's height |
| Day05.MovesKeepCount | src/day05.rs:35-40 | both cranes keep the total number of crates and leave every stack other than the source and target alone |
| Day05.OneAtATime | src/day05.rs:35-37 | moving n crates with the first crane is moving one crate, then n − 1 more: reversing the drained block is moving crates one at a time |
| Day05.OneCrateAlike | src/day05.rs:35-40 | the two cranes agree on a move of a single crate |
| Day05.Run | src/day05.rs:26-41 | the command sequence keeps nine stacks; absent at the first command naming stack 0, a missing stack or more crates than the source holds |
| Day05.RunHeightsAgree | src/day05.rs:26-41 | both cranes fail on the same commands and leave stacks of equal heights |
| Day05.TopCrates | src/day05.rs:46-51 | the answer has one letter per stack, the top crate of each; absent iff some stack is empty |
| Day05.MoveCrates9000 | src/day05.rs:35-37 | the first crane drains n crates, reverses them and splices them onto the target, as the pure part 1 move |
| Day05.MoveCrates9001 | src/day05.rs:39-40 | the second crane drains n crates and splices them onto the target in order, as the pure part 2 move |
| Day05.Solve | src/day05.rs:5-44 | the answers are the top crates after reading the drawing and running every command with each crane; absent wherever the source panics |
| Day05.DrawingFailsLater | src/day05.rs:20-24 | once a drawing line is too short, reading more lines cannot succeed |
| Day05.RunFailsLater | src/day05.rs:26-41 | once a command fails, running more commands cannot succeed |
| Day06.FirstMarker | src/day06.rs:6-18 | the result is the first index in the range where k pairwise different bytes start: it is one, and none before it is; absent iff no index in the range is one |
| Day06.DistinctPrefix | src/day06.rs:21-157 | a window of fourteen different bytes starts with four different bytes |
| Day06.ScanFromFirstFour | src/day06.rs:21 | starting the fourteen-byte search at the first four-byte marker misses no fourteen-byte marker |
| Day06.LastWindowSkipped | src/day06.rs:21 | on a 15-byte stream whose only fourteen-byte marker is its last window, the loop bound as written answers 14 though the marker ends at byte 15 |
| Day06.Part2Corrected | src/day06.rs:21-161 | with the last window included, the part 2 answer is 14 past the first fourteen-byte marker of the whole stream |
| Day06.SearchEnd | src/day06.rs:21 | the fourteen-byte search ends at `len - 14` as written, one window short of the stream's end, and at `len - 13` when corrected |
| Day06.DistinctFour | src/day06.rs:12 | four bytes are pairwise different exactly when none of the six compared pairs is equal |
| Day06.FirstMarkerAt | src/day06.rs:6-18 | a marker with no marker before it in the range is the one the search finds |
| Day06.FirstFour | src/day06.rs:6-18 | the first loop yields the first four-byte marker of the stream, and nothing when there is none (where the source indexes past the end) |
| Day06.Solve | src/day06.rs:1-163 | absent iff the stream is shorter than 14 bytes (the `len - 14` underflow) or has no four-byte marker (the index past the end); otherwise 4 past the first four-byte marker, and the part 2 answer searched from there up to `SearchEnd`: with `fixed` false this is the source's `len - 14` bound and the answer is `Part2AsWritten`'s, with `fixed` true the last window is included |
| Day07.ParseLine | src/day07.rs:17-40 | a line is read as a file only when it has two words and the first parses, and as a `cd` only when it has three words beginning `$ cd`; lines of any other length panic |
| Day07.CdThenUp | src/day07.rs:22-27 | `cd x` followed by `cd ..` restores the state |
| Day07.FileAddsToCwdOnly | src/day07.rs:36-38 | a file line adds its size to the current directory's size and changes nothing else |
| Day07.StepKeepsWellFormed | src/day07.rs:31-35 | recording a `dir` line keeps every recorded subdirectory a child of the directory it is listed under |
| Day07.Interpret | src/day07.rs:16-41 | replaying a session that does not panic leaves a well-formed subdirectory record |
| Day07.InterpretFailsLater | src/day07.rs:16-41 | once a line panics, a longer session panics too |
| Day07.RankDrops | src/day07.rs:59-66 | the recursion of `compute_sizes` goes from a recorded directory to a strictly deeper child, so it terminates |
| Day07.ComputeSizes | src/day07.rs:59-66 | the recursive walk updates the size map exactly as the specification `Accumulate` says; absent where a child has no size after its walk (the `unwrap` at line 63) |
| Day07.UnderTrans | src/day07.rs:59-66 | lying below is transitive |
| Day07.SiblingsDisjoint | src/day07.rs:59-66 | two different children of a directory have no directory below both |
| Day07.VisitedIsUnder | src/day07.rs:59-66 | the walk from a directory only reaches directories below it |
| Day07.VisitedAllIsUnder | src/day07.rs:61-64 | walking a list of children only reaches directories below one of them |
| Day07.TotalLocal | src/day07.rs:59-66 | a directory's total depends only on the own sizes of directories below it |
| Day07.TotalOfLocal | src/day07.rs:61-64 | the same holds for the summed totals of a list of children |
| Day07.AccumulateTotals | src/day07.rs:59-66 | when no child is listed twice, the walk from a directory leaves every directory outside it unchanged and sets every directory it reaches to its total size (own files plus all subdirectories) |
| Day07.AccumulateChildrenTotals | src/day07.rs:61-64 | walking a directory's children adds their totals to its size, sets every reached directory to its total, and leaves the rest alone |
| Day07.FirstChildStep | src/day07.rs:62-63 | the walk under one child followed by adding its size to the directory: the directory grows by the child's total, every directory the child reaches gets its own total, and nothing else changes |
| Day07.LaterSiblingsUnaffected | src/day07.rs:61-64 | walking one child does not change the totals of its later siblings |
| Day07.TotalOfAgree | src/day07.rs:61-64 | children with equal totals under two size maps give equal summed totals |
| Day07.SmallSumPick | src/day07.rs:45 | the part 1 sum does not depend on the order in which the map's values are visited |
| Day07.SumOfSmall | src/day07.rs:45 | part 1 is the sum of the directory sizes of at most 100000 |
| Day07.SmallestFreeing | src/day07.rs:50-54 | part 2 is the smallest size whose deletion brings the used space to at most 40000000: it is one of the sizes, it frees enough, and no freeing size is smaller; absent iff none frees enough (the `unwrap` on `min`) |
| Day07.Solve | src/day07.rs:7-57 | absent iff a line panics, a child has no size after the walk, or the root has no size; otherwise part 1 and part 2 of the walked sizes as above |
| Day07.RootTotal | src/day07.rs:43-54 | when no child is listed twice, the root's final size is the total of the whole tree, and deleting the root always frees enough, so part 2 never panics once the root has a size |
| Day08.ReadGrid | src/day08.rs:8-10 | the tree at column x of row y is the byte at y·100 + x: rows of 99 trees each followed by a newline |
| Day08.OnGridIff | src/day08.rs:12-14 | k steps from a tree in a direction stay on the grid exactly when k is at most the number of trees between it and that edge |
| Day08.PosStep | src/day08.rs:40-51 | one more step adds the direction's delta to the position |
| Day08.Scan | src/day08.rs:65-85 | the walk stops at the first tree at least as tall (counting it) or at the edge; every tree passed before it is shorter |
| Day08.ClearIffSeesPastEdge | src/day08.rs:35-89 | a direction is clear (all trees to the edge shorter) iff its viewing distance reaches the edge and the last tree there is shorter, so visibility and viewing distance agree |
| Day08.IsTreeVisible | src/day08.rs:35-58 | the walk returns true iff some direction has every tree up to the edge shorter |
| Day08.BorderTrees | src/day08.rs:35-89 | every tree on the border is visible and has scenic score 0 |
| Day08.ProductFrom | src/day08.rs:60-89 | a viewing distance of 0 in any one direction makes the scenic score 0 |
| Day08.ScenicScore | src/day08.rs:60-89 | the walk computes the product of the four viewing distances |
| Day08.ColumnVisible | src/day08.rs:23-27 | at most n trees are counted visible among the first n of a column |
| Day08.GridVisible | src/day08.rs:22-27 | at most n·99 trees are counted visible among the first n columns |
| Day08.ColumnBest | src/day08.rs:23-29 | the running maximum of a column bounds every scenic score in it |
| Day08.ColumnBestStep | src/day08.rs:23-29 | one more row of a column makes its best score the larger of the previous best and that tree's score |
| Day08.GridBest | src/day08.rs:22-30 | the running maximum over columns bounds every column's maximum |
| Day08.GridBestIsMax | src/day08.rs:22-30 | part 2 is the largest scenic score: no tree scores higher, and some tree attains it unless it is 0 |
| Day08.ColumnBestAttained | src/day08.rs:23-29 | a non-zero column maximum is the score of a tree of that column |
| Day08.GridBestAttained | src/day08.rs:22-30 | a non-zero grid maximum is the maximum of some column |
| Day08.Solve | src/day08.rs:16-33 | part 1 is the count of visible trees (at most 99·99) and part 2 the largest scenic score |
| Day09.MoveFollow | src/day09.rs:54-70 | a touching tail stays put; otherwise it moves one step toward the head in each coordinate that differs, so the panic arm is never reached |
| Day09.FollowKeepsTouching | src/day09.rs:54-80 | a knot that touched its leader's old position, whose leader moved to a neighbouring cell, touches the leader after following and has itself moved to a neighbouring cell |
| Day09.MoveHead | src/day09.rs:44-52 | U, D, L and R move the head exactly one cell; any other letter is the panic (None) |
| Day09.Pull | src/day09.rs:32-35 | following from knot i on leaves the knots before i and the rope length unchanged |
| Day09.PullKeepsTouching | src/day09.rs:32-35 | after the knots from i on follow, every knot touches the one before it |
| Day09.Step | src/day09.rs:29-37 | one head move keeps the number of knots |
| Day09.StepKeepsTouching | src/day09.rs:29-37 | a rope whose adjacent knots touch still has them touching after a step |
| Day09.Repeat | src/day09.rs:29 | an instruction with count n contributes n steps (none for n ≤ 0) in its direction |
| Day09.Simulation | src/day09.rs:28-39 | the rope keeps its number of knots through every instruction |
| Day09.SimulationKeepsTouching | src/day09.rs:28-39 | the whole simulation keeps every pair of adjacent knots touching |
| Day09.StartTouching | src/day09.rs:24-26 | the initial rope of knots all at (0, 0) is touching throughout |
| Day09.VisitedBound | src/day09.rs:37-41 | the tail visits at most one new position per step |
| Day09.Simulate | src/day09.rs:20-42 | the loops compute the number of distinct tail positions of the simulation, or None where a direction letter panics |
| Day09.MoveSteps | src/day09.rs:29-38 | the n steps of one instruction extend the simulation by exactly those steps, or report the step that panics |
| Day09.MoveRope | src/day09.rs:30-36 | moving the head and letting each knot follow in turn updates the rope array to the simulated step, and fails exactly on a panicking direction |
| Day09.SimulationSnoc | src/day09.rs:29-37 | one more step succeeds exactly when the run so far and that step succeed, and adds the new tail position to the visited set |
| Day09.ExpandCut | src/day09.rs:28-29 | the first m+1 steps of instruction k follow all steps of the instructions before it |
| Day09.ExpandSnoc | src/day09.rs:28-29 | the steps of one more instruction are appended after the steps so far |
| Day09.RepeatPrefix | src/day09.rs:29 | the first m+1 steps of an instruction with count n > m are m steps and one more |
| Day09.SimulationFailsLater | src/day09.rs:28-39 | a panic inside one instruction makes the whole run panic |
| Day09.ExpandPrefix | src/day09.rs:28-29 | the steps of a prefix of the instructions are a prefix of all the steps |
| Day09.SimulationPrefix | src/day09.rs:28-39 | a panic on a prefix of the steps is a panic on all of them |
| Day09.Solve | src/day09.rs:4-18 | part 1 simulates 2 knots and part 2 10 knots over the same instructions |
| Day10.InterestingCycles | src/day10.rs:75-77 | among positive cycles, exactly 20, 60, 100, … are interesting (Rust's truncating remainder leaves no others) |
| Day10.SignalSumSnoc | src/day10.rs:26-37 | one more cycle adds cycle·x to the signal sum when that cycle is interesting, and nothing otherwise |
| Day10.NotTwoInARow | src/day10.rs:26-37 | two consecutive cycles are never both interesting, so an `addx` spans at most one of them |
| Day10.SolveP1 | src/day10.rs:12-48 | the instruction-level loop sums cycle·x over the interesting cycles of the cycle-by-cycle trace of x, and panics (None) exactly when the trace does |
| Day10.RunFailsLater | src/day10.rs:17-45 | a bad line in a prefix of the program makes the whole program panic |
| Day10.Draw | src/day10.rs:79-87 | writes the pixel for the sprite at x into one cell and changes no other cell |
| Day10.Screen | src/day10.rs:53-72 | the screen is always 240 characters |
| Day10.SolveP2 | src/day10.rs:50-73 | the drawn screen shows, at every cycle's position, the pixel for x during that cycle; None exactly when a line is bad or the program runs past 240 cycles |
| Day10.RunTooLong | src/day10.rs:55-70 | a prefix that already runs past 240 cycles makes the whole program fail too |
| Day11.Eval | src/day11.rs:8-15 | an undefined operation is the panic (None); squaring never gives a negative worry |
| Day11.ParsedItemsAppend | src/day11.rs:49-53 | the items read from two runs of words are those of the first run followed by those of the second |
| Day11.ParsedItemsAllNumbers | src/day11.rs:49-53 | when every word is a number the items are exactly those numbers, in order; other words are skipped |
| Day11.SetCurrent | src/day11.rs:47-71 | a line that updates the current monkey fails exactly when there is no monkey yet |
| Day11.ParseLineKeepsNumbered | src/day11.rs:34-75 | every line keeps each monkey's number equal to its index and the current index in range |
| Day11.ParsedNumbered | src/day11.rs:26-78 | after the whole input each monkey's number is its index |
| Day11.ParseAllFailsLater | src/day11.rs:30-76 | a line that panics in a prefix makes the whole parse panic |
| Day11.AppendItems | src/day11.rs:46-54 | the item loop appends, in order, exactly the words from the third on that read as numbers |
| Day11.Parse | src/day11.rs:26-78 | the line loop yields the monkeys of the line-by-line parse, and panics exactly when it does |
| Day11.Worry | src/day11.rs:102-105 | part 1 divides by 3; part 2 keeps the remainder modulo the common multiple, which lies in [0, lcd) for non-negative worry, and a zero modulus is the panic |
| Day11.Destination | src/day11.rs:106-110 | the target is on_true or on_false, and a zero divisor is the panic |
| Day11.Throw | src/day11.rs:100-111 | an item goes to on_true or on_false |
| Day11.ThrowAll | src/day11.rs:100-112 | one new worry per thrown item |
| Day11.Holdings | src/day11.rs:85-87 | the initial holdings are each monkey's starting items |
| Day11.Zeros | src/day11.rs:85-86 | every count starts at zero |
| Day11.TotalUpdate | src/day11.rs:111 | replacing one monkey's items changes the item total by the difference of the two lengths |
| Day11.ThrowAllFacts | src/day11.rs:100-112 | throwing adds every held item to the total and leaves the monkeys other than the two targets untouched |
| Day11.TurnFacts | src/day11.rs:94-113 | a turn empties the monkey's items, adds their number to its count and no other count, and never adds items: the total is kept unless the monkey throws to itself, where the final clear loses them |
| Day11.RoundOfFacts | src/day11.rs:94-114 | a round only grows counts, and keeps the item total when no monkey targets itself |
| Day11.RoundsFacts | src/day11.rs:93-115 | the same holds across any number of rounds |
| Day11.Part2KeepsDestination | src/day11.rs:83-110 | reducing modulo the product of all divisors sends every item where the unreduced worry would go |
| Day11.Part2Bounded | src/day11.rs:104 | part 2's worry stays in [0, product of divisors) |
| Day11.TopTwoFacts | src/day11.rs:117-128 | the two largest counts, in descending order, are at least every count and each is a count or 0 |
| Day11.TopTwoStep | src/day11.rs:120-128 | one more count updates the top two as an insertion into a descending list would |
| Day11.SimulationFacts | src/day11.rs:80-131 | the monkey business is the product of the largest count and one no larger, and is non-negative |
| Day11.ThrowAllFailsLater | src/day11.rs:100-112 | a panic while throwing a prefix of the items is a panic of the whole turn |
| Day11.ThrowItem | src/day11.rs:101-111 | the loop body succeeds exactly when the item's throw succeeds and its target is a monkey, and then appends the new worry to the target's list alone |
| Day11.TakeTurn | src/day11.rs:95-113 | the in-place turn computes the turn function |
| Day11.RoundOfFailsLater | src/day11.rs:94-114 | a panic in an earlier monkey's turn is a panic of the round |
| Day11.RoundsFailsLater | src/day11.rs:93-115 | a panic in an earlier round is a panic of the simulation |
| Day11.UpdateTopTwo | src/day11.rs:121-127 | the two-branch update keeps the two largest of the old pair and the new count |
| Day11.PlayRound | src/day11.rs:94-114 | the loop over monkeys computes one round |
| Day11.LargestTwo | src/day11.rs:117-128 | the loop leaves the two largest counts |
| Day11.Simulate | src/day11.rs:80-131 | the loops compute the simulation function |
| Day11.Solve | src/day11.rs:133-139 | part 1 is 20 rounds dividing by 3 and part 2 10000 rounds reducing by the divisors' product, on the parsed monkeys |
| Day12.ElevationAt | src/day12.rs:55-64 | defined exactly on the grid (off it is the failed assertion); S reads as `a`, E (unless it is also S) as `z`, any other square as its letter |
| Day12.DistFacts | src/day12.rs:93-95 | the Manhattan distance is symmetric, zero only between equal squares, and obeys the triangle inequality |
| Day12.NeighborsUpTo | src/day12.rs:102-107 | each of the first k directions adds at most one neighbour |
| Day12.NeighborsOf | src/day12.rs:97-109 | defined exactly on the grid, with at most four neighbours |
| Day12.NeighborsUpToFacts | src/day12.rs:102-107 | the neighbours from the first k directions are exactly those of them on the grid and at most one level higher |
| Day12.NeighborsAreSteps | src/day12.rs:97-109 | a square is a neighbour iff it is one legal move away |
| Day12.Neighbors | src/day12.rs:97-109 | the loop over the four directions yields the neighbour list |
| Day12.ReachMore | src/day12.rs:66-91 | a square reachable in n moves is reachable within any larger bound |
| Day12.ReachStep | src/day12.rs:81-87 | a legal move from a square reachable in n moves reaches its neighbour in n + 1 |
| Day12.ReachBound | src/day12.rs:72-95 | a square reachable in n moves lies within Manhattan distance n of some start, so the A* heuristic never overestimates |
| Day12.RowPotUpdate | src/day12.rs:86 | changing one g-score changes its row's sum of scores by the difference |
| Day12.PotUpdate | src/day12.rs:86 | changing one g-score changes the whole-map sum of scores by the difference |
| Day12.RowPotNonNegative | src/day12.rs:83 | a row's score sum is non-negative while all scores are |
| Day12.PotNonNegative | src/day12.rs:83 | the map's score sum is non-negative while all scores are |
| Day12.FirstExists | src/day12.rs:77 | a non-empty open set has an entry ordered first, as `pop_first` takes |
| Day12.FirstUnique | src/day12.rs:77 | that first entry is unique |
| Day12.Relax | src/day12.rs:81-88 | relaxing keeps every score the length of a walk from a start, never raises a score, changes only neighbours and to the current score plus 1, leaves every neighbour scored at most that, and strictly lowers the score sum unless nothing changed |
| Day12.RelaxOne | src/day12.rs:82-87 | one neighbour: a step that beats its score sets it to the current score plus 1 (still the length of a walk from a start) and puts it in the open set, otherwise nothing changes; the score sum drops when something changes |
| Day12.Find | src/day12.rs:67-91 | the A* answer is the length of a legal walk from a start to the end; None where the source panics on an empty open set |
| Day12.FindAllAs | src/day12.rs:112-123 | the list holds exactly the squares of elevation `a` (S included), in row-major order |
| Day12.StartIsLowest | src/day12.rs:113-120 | the start is among part 2's starting squares |
| Day12.Solve | src/day12.rs:125-133 | part 1 is the length of a legal climb from S to E; part 2 is the length of a legal climb to E from the set of all lowest squares (every `a`, S included), and so at least the distance to E from one of them |
| Day13.Flip | src/day13.rs:23-38 | reversing a comparison swaps Less and Greater and keeps Equal |
| Day13.CmpInt | src/day13.rs:26 | integers compare as their values |
| Day13.SizeSeq | src/day13.rs:8-11 | the size of a list of packets splits into its head's and its tail's, the measure that makes wrapping an integer terminate |
| Day13.SizeOfWrapped | src/day13.rs:28-35 | wrapping an integer as a one-element list grows it by exactly one |
| Day13.EqIsEquality | src/day13.rs:13-21 | the hand-written `eq` is structural equality |
| Day13.EqualButNotEq | src/day13.rs:13-38 | `2` and `[2]` compare Equal yet are not equal, so `<=` and `==` disagree on them |
| Day13.CmpFlip | src/day13.rs:23-38 | comparing the other way round gives the flipped result (antisymmetry) |
| Day13.CmpListsFlip | src/day13.rs:27 | the same for the lexicographic comparison of lists |
| Day13.CmpReflexive | src/day13.rs:23-38 | every packet compares Equal to itself |
| Day13.CmpListsReflexive | src/day13.rs:27 | every list compares Equal to itself |
| Day13.ProperPrefixIsLess | src/day13.rs:27 | a list is smaller than any proper extension of it |
| Day13.DigitRun | src/day13.rs:50 | the longest run of leading ASCII digits, which is what `\d+` matches on ASCII input |
| Day13.ParseSeq | src/day13.rs:63-89 | parsing never adds tokens |
| Day13.TokenQueue.constructor | src/day13.rs:92 | the queue holds the tokens given |
| Day13.TokenQueue.PopFront | src/day13.rs:66 | removes and returns the first token, or returns None on an empty queue |
| Day13.Parse | src/day13.rs:63-89 | parsing into a list appends the packets read up to the matching `]` and consumes exactly those tokens; parsing into an integer is the panic |
| Day13.TokenizeAndParse | src/day13.rs:91-96 | the method yields the packet of the line |
| Day13.ParseTokens | src/day13.rs:63-89 | the tokens of a packet parse back to that packet and leave the rest |
| Day13.ParseTokensSeq | src/day13.rs:63-89 | the tokens of a list's items followed by `]` parse back to those items |
| Day13.ParseTokensSeqCons | src/day13.rs:63-89 | for two or more items, the tokens of the first, a comma and the rest followed by `]` parse back to those items |
| Day13.DecimalString | src/day13.rs:58 | the decimal rendering of n is a non-empty run of digits whose value is n |
| Day13.TokenizeNumber | src/day13.rs:48-61 | a rendered number followed by a non-digit tokenizes as that one integer token |
| Day13.DigitRunOfDigits | src/day13.rs:50 | the digit run of digits followed by a non-digit is exactly those digits |
| Day13.TokenizeRender | src/day13.rs:48-61 | a rendered packet tokenizes to the packet's tokens |
| Day13.TokenizeRenderSeq | src/day13.rs:48-61 | rendered list items tokenize to their tokens |
| Day13.TokenizeRenderSeqCons | src/day13.rs:48-61 | for two or more items, the first item, a comma and the rest rendered tokenize to the first item's tokens, a comma token and the rest's tokens |
| Day13.RenderRoundTrip | src/day13.rs:91-96 | reading a rendered packet of non-negative integers gives back that packet, wrapped in the root list |
| Day13.DividersParsed | src/day13.rs:103-104 | the divider lines read as the packets [[2]] and [[6]] |
| Day13.RenderBracketed | src/day13.rs:103-104 | a divider renders as its own line |
| Day13.Pairs | src/day13.rs:108 | the lines are read three at a time, the first two as a pair of packets, and a trailing incomplete group is dropped |
| Day13.Classify | src/day13.rs:118-128 | a packet counts below the first divider, or else between the dividers, and never both |
| Day13.CountsStep | src/day13.rs:108-131 | one more pair adds its index when in the right order and its two packets' divider counts |
| Day13.CountPairs | src/day13.rs:108-131 | the loop sums the 1-based indices of pairs in the right order and counts the packets below the first divider and between the two |
| Day13.DecoderKey | src/day13.rs:133-135 | the decoder key is at least the square of the first divider's position |
| Day13.ParseDividers | src/day13.rs:103-104 | the two dividers are [[2]] and [[6]] |
| Day13.Solve | src/day13.rs:98-137 | part 1 is the index sum of ordered pairs, part 2 the product of the two dividers' positions in sorted order |
| Day14.Low | src/day14.rs:49-55 | the lower bound of `range` is one of its ends and at most every value in the range |
| Day14.High | src/day14.rs:49-55 | the upper bound is one of its ends and at least every value in the range |
| Day14.Snapshot | src/day14.rs:16-29 | the cave's contents as rows of 700 cells, 200 rows, cell for cell |
| Day14.MarkSegment | src/day14.rs:37-42 | drawing one segment fails (the index panic) iff a point of it lies outside the cave; otherwise exactly its points become wall, every other cell is kept, and the lowest row seen grows to the segment's lower end |
| Day14.PathUpToStep | src/day14.rs:33 | a point lies on the first i + 1 segments of a path exactly when it lies on the first i or on segment i |
| Day14.WallUpToStep | src/day14.rs:32 | the wall points of the first l + 1 lines are those of the first l plus the new line's path |
| Day14.PathBoundsStep | src/day14.rs:33-42 | once segment i is in the cave, every point of the first i + 1 segments is in the cave and not below the grown lowest row |
| Day14.MarkStep | src/day14.rs:33-42 | drawing segment i keeps what the drawn prefix promises (its cells walls, the rest untouched, the lowest row a drawn row) one segment further, or fails at a point outside the cave |
| Day14.MarkPath | src/day14.rs:33-43 | drawing a path succeeds iff every point of it is in the cave; then exactly its points become wall, and the lowest row grows to a point of the path that lies there |
| Day14.WallGrid | src/day14.rs:29-44 | the drawn cave is 200 rows of 700 cells |
| Day14.LowestRowUnique | src/day14.rs:30-40 | the lowest wall row is unique |
| Day14.ParseGrid | src/day14.rs:26-47 | fails exactly when a wall point falls outside the cave; otherwise a new 200×700 grid holds wall exactly at the wall points and max_y is the row of the lowest wall point (0 when there is none) |
| Day14.Below | src/day14.rs:71-82 | a move goes one row down into an empty cell of the cave |
| Day14.RowEmpties | src/day14.rs:61-97 | a row has at most as many empty cells as cells |
| Day14.RowEmptiesFill | src/day14.rs:67-89 | putting sand into an empty cell removes exactly one empty cell from its row |
| Day14.EmptiesFill | src/day14.rs:67-89 | and exactly one from the cave |
| Day14.StepDecreases | src/day14.rs:61-97 | each pass either settles a unit in an empty cell or moves the unit one row down, so the loop ends (or the source is blocked for ever) |
| Day14.Run | src/day14.rs:57-98 | the loop run to its end yields a count, a panic, or divergence, never a state in progress |
| Day14.RunBounds | src/day14.rs:57-98 | the count grows by at most one unit per empty cell, plus the final unit at the source in part 2, which always counts it |
| Day14.Part2AboveFloor | src/day14.rs:66-70 | in part 2 a unit never falls below the floor at max_y + 1 |
| Day14.FallFrom | src/day14.rs:71-82 | the three lookups compute where the unit falls |
| Day14.Settle | src/day14.rs:67-89 | exactly one cell becomes sand |
| Day14.RunContinues | src/day14.rs:61-97 | a pass that continues leads to the same end as the pass after it |
| Day14.RunStops | src/day14.rs:61-97 | a pass that stops is the end of the run |
| Day14.Advance | src/day14.rs:62-96 | one pass on the array performs the step function on its contents |
| Day14.Simulate | src/day14.rs:57-98 | the loop on a copy of the grid computes the run's outcome |
| Day14.Solve | src/day14.rs:100-107 | fails exactly when a wall point is outside the cave; otherwise both parts run from (500, 0) with max_y the lowest wall row |
| Day15.DistIsMetric | src/day15.rs:53-55 | the Manhattan distance is symmetric, non-negative and zero only between equal points |
| Day15.Dist | src/day15.rs:53-55 | `dist` is never negative and is zero exactly between equal points |
| Day15.EdgeLines | src/day15.rs:57-66 | four lines, each running between two points at the sensor's radius |
| Day15.PerimeterLines | src/day15.rs:68-77 | four lines, each running between two points one beyond the sensor's radius |
| Day15.LinesAtDistance | src/day15.rs:57-77 | both ends of every edge line lie at the sensor's radius and both ends of every perimeter line one further |
| Day15.IsValidX | src/day15.rs:79-89 | x lies between the line's two x coordinates, in either order |
| Day15.IsValidY | src/day15.rs:91-101 | y lies between the line's two y coordinates, in either order |
| Day15.CoefficientsDescribeLine | src/day15.rs:110-115 | a1·x + b1·y = c1 holds exactly for the points on the line through the two ends |
| Day15.ExactQuotient | src/day15.rs:124-126 | when the truncating remainder is zero, `div_floor` divides exactly |
| Day15.IntersectsSound | src/day15.rs:103-141 | parallel lines never intersect, and a reported intersection is an integer point on both lines within both bounding boxes |
| Day15.Intersects | src/day15.rs:103-141 | parallel lines (a zero determinant) give no intersection, and a reported point passes `is_valid_x` and `is_valid_y` for both lines |
| Day15.IntersectsComplete | src/day15.rs:103-141 | for non-parallel lines, every integer point on both lines within both boxes is reported |
| Day15.IsInRangeOfAnySensor | src/day15.rs:267-274 | true iff some sensor's radius reaches the position |
| Day15.CountRangeSplit | src/day15.rs:143-175 | counting covered integers over adjacent windows adds up |
| Day15.CountRangeFull | src/day15.rs:151-166 | a window entirely covered counts its length |
| Day15.CountRangeEmpty | src/day15.rs:165-167 | a window nothing covers counts 0 |
| Day15.MaxEnd | src/day15.rs:159-164 | the largest end of the intervals is the end of one of them |
| Day15.UnionSizeAnyWindow | src/day15.rs:143-175 | the size of the union does not depend on the window, once the window holds every interval |
| Day15.MaxEndSnoc | src/day15.rs:159-164 | the merged block's end after one more interval is the larger of the two ends |
| Day15.CloseBlock | src/day15.rs:151-166 | closing a covered block adds its length to the count |
| Day15.GapUncovered | src/day15.rs:165-167 | between a block's end and a later start of sorted intervals nothing is covered |
| Day15.BlockThenGap | src/day15.rs:165-167 | closing a block before a gap counts everything held up to the next start |
| Day15.ExtendCover | src/day15.rs:162-164 | an interval starting inside or right after a covered run extends the run to its end |
| Day15.SweepStart | src/day15.rs:144-148 | the sweep starts with the first interval as its block and nothing counted |
| Day15.SweepInside | src/day15.rs:159-161 | an interval inside the block leaves it unchanged |
| Day15.SweepExtend | src/day15.rs:162-164 | an interval overlapping the block extends it |
| Day15.SweepGap | src/day15.rs:165-167 | an interval after a gap counts the block and starts a new one |
| Day15.SweepEnd | src/day15.rs:149-152 | counting the last block gives the size of the union |
| Day15.CountIntervals | src/day15.rs:143-175 | on sorted intervals the in-place sweep returns the number of integers in their union, and the panic arm is unreachable |
| Day16.Weight | src/day16.rs:84-92 | every initial distance is at least 1 (1 along a tunnel, 10000 otherwise) |
| Day16.Len | src/day16.rs:94-103 | a walk of two or more valves has length at least 1 |
| Day16.LenSplit | src/day16.rs:94-103 | a walk's length splits at any valve into the lengths of its two halves |
| Day16.LenJoin | src/day16.rs:94-103 | two walks meeting at a valve join into a walk whose length is the sum |
| Day16.FirstVisit | src/day16.rs:94-103 | a walk through valve k with all other inner valves below k + 1 reaches k first through inner valves below k |
| Day16.LastVisit | src/day16.rs:94-103 | and leaves k for the last time through inner valves below k |
| Day16.DropLoop | src/day16.rs:94-103 | cutting out the loop between two visits never lengthens a walk |
| Day16.ThroughK | src/day16.rs:94-103 | a walk through k is at least as long as a walk to k plus a walk from k, both with inner valves below k |
| Day16.Snap | src/day16.rs:46 | the grid's first n rows and columns, entry by entry |
| Day16.Initial | src/day16.rs:84-92 | the initial grid holds the tunnel weight of every pair |
| Day16.Relaxed | src/day16.rs:97-100 | one relaxation changes only entry (i, j), to at most both its old value and the path through k |
| Day16.WitnessStep | src/day16.rs:97-100 | after a relaxation every entry is still the length of a walk |
| Day16.BoundedBelowStep | src/day16.rs:97-100 | a relaxation keeps every entry at most the length of each walk through valves below k |
| Day16.BoundedDoneStep | src/day16.rs:97-100 | after relaxing (i, j) in round k, that entry bounds the walks through valves below k + 1 |
| Day16.RelaxStep | src/day16.rs:96-101 | one step of the innermost loop keeps the loop invariant |
| Day16.NextRow | src/day16.rs:95-102 | a finished row keeps it for the next row |
| Day16.NextRound | src/day16.rs:94-103 | a finished round makes every entry bound the walks through valves below k + 1 |
| Day16.FirstRound | src/day16.rs:84-92 | the initial grid meets the invariant with no intermediate valves |
| Day16.LastRound | src/day16.rs:94-103 | after all rounds every entry is the length of the shortest walk |
| Day16.SetEntry | src/day16.rs:100 | writing one entry changes only that entry |
| Day16.RelaxRow | src/day16.rs:96-101 | relaxing row i through valve k entry by entry extends the shortest-walk invariant to the next row |
| Day16.RelaxRound | src/day16.rs:95-102 | relaxing every row through valve k makes k available as an intermediate valve for every entry |
| Day16.FloydWarshall | src/day16.rs:94-103 | the triple loop leaves in every entry the length of a shortest walk between the two valves |
| Day16.Triangle | src/day16.rs:94-103 | the final distances satisfy the triangle inequality |
| Day16.DistancesPositive | src/day16.rs:94-103 | every final distance is between 1 and the initial weight |
| Day16.NamesStep | src/day16.rs:55 | a new line maps its name to its own index |
| Day16.FlowsStep | src/day16.rs:62-65 | a new line with a positive rate enters the flows |
| Day16.IndexDefined | src/day16.rs:48-69 | the scan fails exactly when a flow rate is not a number |
| Day16.IndexFacts | src/day16.rs:48-69 | each name maps to the last line bearing it, the start is "AA"'s index (0 without one), and the flows are exactly the positive rates |
| Day16.Index | src/day16.rs:48-69 | the scanning loop computes that numbering |
| Day16.IndexOfFailsLater | src/day16.rs:48-69 | a bad rate in an earlier line fails the whole scan |
| Day16.Resolve | src/day16.rs:76-79 | a tunnel list resolves iff every name is known, to their indices in order |
| Day16.GraphOf | src/day16.rs:74-81 | the graph is built iff every tunnel list resolves, row by row |
| Day16.BuildGraph | src/day16.rs:74-81 | the loop builds that graph |
| Day16.GraphOfFailsLater | src/day16.rs:74-81 | an unknown name in an earlier line fails the whole build |
| Day16.InitialDistances | src/day16.rs:84-92 | a fresh 676×676 grid with the initial weights, None when there are more valves than it holds |
| Day16.ShortestUnique | src/day16.rs:94-103 | the shortest distances are unique |
| Day16.MergeFacts | src/day16.rs:136-143 | merging two answer maps keeps every key and the larger pressure of each |
| Day16.MergeEmpty | src/day16.rs:136-143 | the empty map is neutral for merging |
| Day16.MergeCommutes | src/day16.rs:136-143 | merging does not depend on order, so the hash map's iteration order does not matter |
| Day16.MergeAssociates | src/day16.rs:136-143 | merging is associative |
| Day16.ChildOpens | src/day16.rs:146-161 | a reachable unopened valve with time left recurses with the valve opened and its pressure released for the remaining minutes |
| Day16.ChildSkips | src/day16.rs:148-150 | a valve out of time or already open adds nothing |
| Day16.ChildrenPick | src/day16.rs:145-163 | the valves may be visited in any order |
| Day16.MergeGrows | src/day16.rs:136-143 | merging keeps the growth property |
| Day16.ExploreIncludesStart | src/day16.rs:136-143 | every visit stores its own mask |
| Day16.ExploreFacts | src/day16.rs:126-164 | the visit stores exactly `pressure` at its own mask and only larger masks of positive-flow valves with at least that pressure elsewhere |
| Day16.ChildrenFacts | src/day16.rs:145-163 | every key stored by the recursive calls adds valves to the mask |
| Day16.ChildFacts | src/day16.rs:148-161 | the same for one valve |
| Day16.MergeShort | src/day16.rs:136-143 | merging keeps the bound on opened valves |
| Day16.ExploreShort | src/day16.rs:126-164 | with distances at least 1, each opened valve costs at least two minutes, so fewer than minutes/2 valves are opened |
| Day16.ChildrenShort | src/day16.rs:145-163 | the same for the recursive calls |
| Day16.ChildShort | src/day16.rs:148-161 | the same for one valve |
| Day16.Visit | src/day16.rs:126-164 | the recursive procedure merges the visit's answers into the map |
| Day16.VisitNext | src/day16.rs:146-161 | one iteration of the loop merges one valve's answers |
| Day16.Store | src/day16.rs:136-143 | `entry().and_modify().or_insert()` is a merge with the single entry |
| Day16.BestValue | src/day16.rs:107 | the maximum of the stored pressures, None only for an empty map |
| Day16.BestWith | src/day16.rs:112-120 | after the inner loop the best is at least the old best and every sum of k1 with a disjoint set, and is either the old best or such a sum |
| Day16.BestPair | src/day16.rs:111-121 | part 2 is the best sum of two pressures for disjoint valve sets (0 if none is positive) |
| Day16.Distances | src/day16.rs:83-103 | the distance grid, closed under Floyd–Warshall, or None when there are too many valves |
| Day16.Answer | src/day16.rs:105-121 | part 1 is the best pressure in 30 minutes and part 2 the best disjoint pair in 26 |
| Day16.Solve | src/day16.rs:30-124 | fails exactly where the source panics (bad rate, unknown tunnel, too many valves); otherwise both answers are the best over the visit's answers on the shortest distances |
| Day18.Neighbours | src/day18.rs:40-45 | a cube has six face neighbours |
| Day18.AdjacentFacts | src/day18.rs:8-12 | adjacency is exactly being one of the six neighbours; it is symmetric and irreflexive |
| Day18.LessTrichotomy | src/day18.rs:72 | the tuple order is strict and total on distinct cubes |
| Day18.RowAdd | src/day18.rs:70-78 | counting pairs in a row splits over two disjoint relations |
| Day18.TableAdd | src/day18.rs:70-78 | counting pairs in a table splits over two disjoint relations |
| Day18.TableWider | src/day18.rs:70-78 | one more column adds that column's count |
| Day18.ColumnOfFlip | src/day18.rs:70-78 | a column of the flipped relation is a row of the original |
| Day18.TableSwap | src/day18.rs:70-78 | counting pairs does not depend on which index runs outer |
| Day18.ExposedFacesTable | src/day18.rs:68-78 | the exposed faces of the first k cubes are 6·k minus their touching pairs |
| Day18.SurfaceIsExposed | src/day18.rs:68-78 | 6·n minus twice the ordered adjacent pairs is the number of faces touching no other cube |
| Day18.SurfaceArea | src/day18.rs:68-78 | the double loop computes that number |
| Day18.InBoxIff | src/day18.rs:32 | the box of cells from −1 to 20 on each axis is exactly the cells passing the bounds test |
| Day18.EnqueueTestLetsThrough | src/day18.rs:16 | the enqueue test checks y < −1 twice and never z < −1, so (0, 0, −2) passes although it is outside the box |
| Day18.EnqueueTestHarmless | src/day18.rs:16-32 | every cell in the box passes it, and the dequeue test drops the others, so the answer is unaffected |
| Day18.MaybeEnqueue | src/day18.rs:14-22 | a cube is appended exactly when it passes the test |
| Day18.Passing | src/day18.rs:40-45 | the enqueued neighbours are neighbours, and include every neighbour in the box |
| Day18.EnqueueNeighbours | src/day18.rs:40-45 | the six calls append the passing neighbours in order |
| Day18.LavaHits | src/day18.rs:34-35 | at most one face per cube dequeued |
| Day18.LavaHitsAppend | src/day18.rs:30-35 | the lava hits of two queue segments add up |
| Day18.PassingHits | src/day18.rs:16-35 | the cubes the enqueue test drops would never have counted, so filtering changes no count |
| Day18.FrontierDequeue | src/day18.rs:32-37 | dropping a cube outside the box, lava or water keeps every unfilled neighbour of the water queued |
| Day18.FrontierFlood | src/day18.rs:38-45 | filling a cell and queueing its neighbours keeps that frontier |
| Day18.SpreadFlood | src/day18.rs:38-45 | each new water cell touches an earlier one, and each queued cube touches the water |
| Day18.SpreadDequeue | src/day18.rs:30 | dequeuing keeps that |
| Day18.WaterFlood | src/day18.rs:38-39 | a new water cell is in the box and not lava, and the unfilled box shrinks, so the flood ends |
| Day18.FacesFlood | src/day18.rs:35-45 | filling a cell adds the lava faces among its neighbours |
| Day18.HitsDequeue | src/day18.rs:34-35 | dequeuing a lava cube in the box counts one face |
| Day18.FillStep | src/day18.rs:29-45 | one turn of the flooding loop keeps the loop invariant and either floods a new cell or shortens the queue |
| Day18.FillDequeue | src/day18.rs:31-36 | dropping a cube outside the box, of lava or of water keeps the invariant, adding one to the area exactly for lava inside the box |
| Day18.FillFlood | src/day18.rs:37-45 | flooding a dry box cell keeps the invariant and leaves fewer dry cells in the box |
| Day18.SpreadFloodVisited | src/day18.rs:38 | the first water cell is the origin and each later one touches an earlier one |
| Day18.SpreadFloodQueue | src/day18.rs:39-44 | every queued cube is the origin or touches a water cell |
| Day18.LavaHitsOne | src/day18.rs:33-34 | a single cube counts one face exactly when it is lava inside the box |
| Day18.Fill | src/day18.rs:24-50 | the flood ends with the water a set of distinct box cells that are not lava, connected to the origin, with every unfilled neighbour handled, and the area the lava faces seen from the water (plus the origin if it is lava) |
| Day18.Solve | src/day18.rs:52-83 | part 1 is the exposed face count and part 2 the lava faces seen from the water that floods from the origin |
| Day19.FromCosts | src/day19.rs:70-90 | the blueprint keeps the seven costs read; the ore-robot cap is the largest ore cost of the other three robots, and the clay and obsidian caps are the costs that use them |
| Day19.DefaultInv | src/day19.rs:35-47 | the start: the given minutes, one ore robot, nothing else |
| Day19.Produce | src/day19.rs:114-121 | one minute passes, every robot adds to its stock, robot counts stay, and nothing goes negative |
| Day19.BuildGeode | src/day19.rs:124-134 | buying a geode robot adds one geode robot after the minute's production, keeping stocks non-negative |
| Day19.BuildObs | src/day19.rs:146-157 | buying an obsidian robot adds one and leaves geode production as it was |
| Day19.BuildClay | src/day19.rs:171-180 | buying a clay robot adds one and leaves geode production as it was |
| Day19.BuildOre | src/day19.rs:188-197 | buying an ore robot adds one and leaves geode production as it was |
| Day19.ShortcutValues | src/day19.rs:123-168 | with one minute left the answer is stock plus production; with two minutes, two minutes of production plus one if a geode robot is affordable |
| Day19.GeodesAtLeastIdle | src/day19.rs:204-209 | the search is never worse than buying nothing |
| Day19.GeodesAtMostBranches | src/day19.rs:145-212 | the search's value is at most any bound on the branches it tries |
| Day19.GeodeForced | src/day19.rs:123-135 | an affordable geode robot is always bought and no other branch is tried |
| Day19.GeodesLowerBound | src/day19.rs:102-213 | the result is at least the stock plus what the current geode robots produce in the remaining minutes |
| Day19.TriangleClosedForm | src/day19.rs:102-213 | the triangle bound is m(m−1)/2 |
| Day19.GeodesUpperBound | src/day19.rs:102-213 | the result is at most the stock plus current production plus m(m−1)/2, at most one new geode robot per minute |
| Day19.UpperBoundBranches | src/day19.rs:145-212 | the upper bound holds at a node that tries all branches |
| Day19.UpperBoundOfChildren | src/day19.rs:145-212 | each child search respects the parent's upper bound |
| Day19.UpperBoundOfChild | src/day19.rs:145-212 | a child one minute later with unchanged geode production respects it |
| Day19.Cache.constructor | src/day19.rs:216 | the cache starts empty |
| Day19.Search2 | src/day19.rs:102-213 | the memoised search returns the cache-free search value and keeps every cached entry equal to the value of its key, so the cache never changes an answer |
| Day19.Search | src/day19.rs:215-218 | one blueprint's result from the start inventory, between 0 and m(m−1)/2 |
| Day19.GeodeProductBounds | src/day19.rs:231-234 | the product of n results lies between 0 and the n-th power of the triangle bound |
| Day19.SumQualities | src/day19.rs:226-229 | the sum of each blueprint's 24-minute result times its number |
| Day19.MultiplyGeodes | src/day19.rs:231-234 | the product of the 32-minute results, starting from 1 |
| Day19.Solve | src/day19.rs:220-237 | the quality sum and the product over the first three blueprints; None with fewer than three blueprints, where slicing panics |
| Day20.IndexOfId | src/day20.rs:7 | the position of the first entry with the identifier, None exactly when there is none (the unwrap panics) |
| Day20.IndexOfZero | src/day20.rs:30 | the position of the first entry of value 0, None exactly when there is none |
| Day20.InsertAt | src/day20.rs:9-11 | the truncating remainder corrected for negatives is the Euclidean remainder of index + value by the shortened length |
| Day20.Remove | src/day20.rs:8 | removal shortens the ring by one |
| Day20.Insert | src/day20.rs:12 | insertion lengthens it by one and puts the entry at the position |
| Day20.MixOneSome | src/day20.rs:7-12 | one move succeeds iff the identifier is present and the ring has at least two entries (with one, the remainder by zero panics) |
| Day20.MovePermutes | src/day20.rs:8-12 | removing and reinserting an entry keeps the multiset of entries |
| Day20.MixOne | src/day20.rs:7-12 | one move of `mix` keeps the ring's length and its entries |
| Day20.InsertThenRemove | src/day20.rs:8-12 | removing what was just inserted gives back the ring |
| Day20.MixOneMoves | src/day20.rs:7-12 | a move places the entry at (index + value) mod (len − 1), keeps every entry, and leaves the other entries in their cyclic order |
| Day20.MixAllFailsLater | src/day20.rs:6-13 | a panic on an earlier number panics the whole round |
| Day20.Mix | src/day20.rs:5-14 | the in-place loop computes one round of moves |
| Day20.Ids | src/day20.rs:7 | the identifiers of the ring are exactly those of its entries |
| Day20.IdsPermuted | src/day20.rs:5-14 | rearranging the ring keeps its identifiers |
| Day20.MixAllPermutes | src/day20.rs:5-14 | a round over identifiers the ring holds, on a ring of at least two, succeeds and only rearranges the entries |
| Day20.Tagged | src/day20.rs:17-21 | each value is tagged with its original position and multiplied by the key |
| Day20.Grove | src/day20.rs:29-34 | None exactly when no entry is 0 |
| Day20.MixRoundsPermutes | src/day20.rs:25-27 | any number of rounds on at least two entries succeeds and only rearranges them |
| Day20.MixedGroveSome | src/day20.rs:16-35 | on at least two numbers the answer exists iff some scaled value is 0 |
| Day20.MixAllTooShort | src/day20.rs:9-10 | a round on a one-entry ring panics |
| Day20.MixedGroveShort | src/day20.rs:16-35 | an empty list, or one number mixed at least once, panics |
| Day20.MixRoundsOfNothing | src/day20.rs:25-27 | mixing nothing leaves nothing |
| Day20.MixRoundsTooShort | src/day20.rs:25-27 | mixing one number panics |
| Day20.MixRoundsFailsLater | src/day20.rs:25-27 | a panic in an earlier round panics the run |
| Day20.MixN | src/day20.rs:16-35 | the loops compute the tag-mix-read function |
| Day20.Solve | src/day20.rs:37-48 | one round with key 1 and ten rounds with the decryption key; with two or more numbers part 1 exists iff one of them is 0 |
| Day21.Yell | src/day21.rs:23-34 | a monkey yells only if it has a rule (otherwise `unwrap` panics), and an operation only once both operands have yelled |
| Day21.Apply | src/day21.rs:25-66 | the four operators with Rust's truncating division; a division by zero or another operator is the panic |
| Day21.EvalKeepsValue | src/day21.rs:52-71 | folding keeps the expression's value for every number the human may shout |
| Day21.Eval | src/day21.rs:52-71 | folding never enlarges the expression, and the human stays the human |
| Day21.EvalFolds | src/day21.rs:52-71 | after folding no operation has two numbers as operands |
| Day21.EvalOfFolded | src/day21.rs:52-71 | folding a folded expression changes nothing |
| Day21.EvalIdempotent | src/day21.rs:52-71 | folding twice is folding once |
| Day21.EvalHumnFree | src/day21.rs:52-71 | an expression without the human folds to the number it evaluates to, and fails exactly when that evaluation panics |
| Day21.Invert | src/day21.rs:79-93 | each step of the equation solver strictly shrinks the equation, so `reduce` ends |
| Day21.InvertSound | src/day21.rs:79-93 | an exact step is sound: a solution one level down solves `num == a op b` |
| Day21.ReduceSound | src/day21.rs:73-97 | when every step is exact, the number `reduce` yields makes both sides equal |
| Day21.ReduceAsWrittenWrongDivision | src/day21.rs:90 | as written, `2 == 8 / humn` is solved as humn = 16, but 8 / 16 = 0 |
| Day21.ReduceCorrectedDivision | src/day21.rs:90 | with the arm corrected to humn = 8 / 2, the answer 4 gives 8 / 4 = 2 |
| Day21.SolveForHumn | src/day21.rs:36-50 | below the root the tree has the human as its leaf exactly at `humn`, and every other monkey it reaches has a rule (otherwise `unwrap` panics) |
| Day21.SolveForHumnValue | src/day21.rs:36-50 | below the root the built tree evaluates, for every number the human shouts, to what `yell` gives with the human's rule replaced by that number |
| Day21.RootEquationSolved | src/day21.rs:36-119 | when the root's equation is solved exactly, the human shouting the answer makes the root's two operands yell the same number |
| Day21.Solve | src/day21.rs:99-125 | part 1 is the root's yell; part 2 exists exactly when solving for the human yields a number, and is that number: with `fixed` false by the source's `reduce` as written, with `fixed` true by the corrected one |
| Day21.SolveDivisionExample | src/day21.rs:90 | on `root: a + b`, `a: c / humn`, `c: 8`, `b: 2`, part 2 as written is 16 (and 8 / 16 = 0, not 2), while corrected it is 4 (8 / 4 = 2) |
| Day22.TurnsCancel | src/day22.rs:46-47 | a left turn undoes a right turn and vice versa, and two turns either way face backwards |
| Day22.AdvanceReverse | src/day22.rs:127-133 | k steps forward then k steps facing backwards return to the start |
| Day22.ForwardPos | src/day22.rs:126-144 | the next cell is returned exactly when it is inside the 200×150 grid and a tile, together with that tile |
| Day22.Scan | src/day22.rs:84-91 | the part 1 scan stays inside the grid |
| Day22.AdvanceShift | src/day22.rs:84-91 | one step then i steps is i + 1 steps |
| Day22.ScanFacts | src/day22.rs:84-91 | the scan backwards stops after some number of steps, with every cell passed a tile and the next cell off the map |
| Day22.CubeWarpHorizontal | src/day22.rs:100-117 | every left or right edge cell of the net warps into the net, and warping back from there facing the other way returns to it facing the other way |
| Day22.CubeWarpVertical | src/day22.rs:100-117 | the same for up and down edge cells |
| Day22.CubeWarpGlues | src/day22.rs:100-117 | the fourteen rules glue every open edge of the net consistently in both directions |
| Day22.StepOnce | src/day22.rs:53-76 | a step moves onto an open tile or is blocked |
| Day22.Walked | src/day22.rs:52-78 | a walk ends on a placed position |
| Day22.Executed | src/day22.rs:44-50 | an instruction ends on a placed position |
| Day22.Run | src/day22.rs:177-183 | the instructions end on a placed position |
| Day22.PasswordDecodes | src/day22.rs:185-187 | the password encodes row + 1, column + 1 and heading without loss |
| Day22.WalkComposes | src/day22.rs:53 | walking a + b steps is walking a then b |
| Day22.BlockedStays | src/day22.rs:60-73 | a wall ahead stops the walk where it stands |
| Day22.WalkStaysOpen | src/day22.rs:56-72 | a walk from an open tile ends on an open tile |
| Day22.ScanOnMap | src/day22.rs:84-91 | the part 1 scan from a tile ends on a tile |
| Day22.StepNeverPanics | src/day22.rs:61-115 | from an open tile a step never reaches an unreachable arm, in part 2 provided the map is the net the rules are written for |
| Day22.RunNeverPanics | src/day22.rs:177-183 | the whole run then never panics and ends on an open tile |
| Day22.WalkNeverPanics | src/day22.rs:52-78 | the same for one walk |
| Day22.State.constructor | src/day22.rs:38-43 | the walker starts at the start position facing right |
| Day22.State.WarpPos | src/day22.rs:80-121 | the warp computes the warp function of the current pose |
| Day22.State.Walk | src/day22.rs:52-78 | walking succeeds exactly when the walk function does, and leaves the walker at its result |
| Day22.State.Execute | src/day22.rs:44-50 | executing succeeds exactly when the instruction function does, and leaves the walker at its result |
| Day22.WalkAll | src/day22.rs:177-183 | the password of the pose the instructions lead to, or None where the source panics |
| Day22.RunFailsLater | src/day22.rs:179-181 | a panic on earlier instructions panics the run |
| Day23.Dir | src/day23.rs:59 | the direction tried n-th in a round is one of the four |
| Day23.Target | src/day23.rs:60-87 | the cell moved to is the middle one of the three cells checked |
| Day23.FreeMoves | src/day23.rs:58-89 | at most one move per direction tried |
| Day23.PossibleMoves | src/day23.rs:55-91 | the loop lists the targets of the free directions in the round's order |
| Day23.FreeMovesFrom | src/day23.rs:58-89 | every listed move is the target of a free direction |
| Day23.FreeMovesFirst | src/day23.rs:21 | the first listed move is the target of the first free direction in the round's order |
| Day23.FirstFreeWider | src/day23.rs:58-89 | trying more directions keeps the first free one |
| Day23.FirstFreeLast | src/day23.rs:58-89 | when only the last direction tried is free, it is the first free one |
| Day23.FreeMovesNone | src/day23.rs:18 | no move is listed iff no direction tried is free |
| Day23.FreeMovesAll | src/day23.rs:18 | all tried directions are listed iff all are free |
| Day23.FreeTargetEmpty | src/day23.rs:80-87 | a free direction's target is empty and not the elf's own cell |
| Day23.AllFreeIffAlone | src/day23.rs:18 | four moves are listed iff no elf is among the eight neighbours |
| Day23.DirReaches | src/day23.rs:59 | each direction is tried at some position in every round |
| Day23.FreeAllIffAlone | src/day23.rs:60-80 | the four directions are all free iff the eight neighbours are all empty |
| Day23.ProposalFacts | src/day23.rs:15-23 | an elf proposes iff some but not all directions are free; it proposes the first free direction's target, an empty cell |
| Day23.SubsetSize | src/day23.rs:44-52 | a subset is no larger |
| Day23.SurvivorsSound | src/day23.rs:33-42 | the uncontested moves start at elves, end on empty cells and never share a target |
| Day23.MovesKeepCount | src/day23.rs:47-50 | applying such moves keeps the number of elves |
| Day23.RemoveOne | src/day23.rs:47-50 | applying one move leaves a smaller sound set of moves |
| Day23.MoveOne | src/day23.rs:47-50 | one remove-and-insert moves exactly that elf |
| Day23.RoundKeepsCount | src/day23.rs:11-53 | a round keeps the number of elves |
| Day23.ProposalsStep | src/day23.rs:13-24 | one more elf adds its proposal, if any |
| Day23.ProposeAll | src/day23.rs:13-24 | the loop collects each elf's proposal |
| Day23.CountStep | src/day23.rs:28-30 | one more proposal counts one more for its target |
| Day23.CountTargets | src/day23.rs:27-30 | the counts are the number of elves proposing each target |
| Day23.KeepUncontested | src/day23.rs:33-42 | the filter keeps exactly the proposals no other elf shares |
| Day23.UncontestedStep | src/day23.rs:33-42 | one more proposal is kept iff fewer than two elves propose its target |
| Day23.ApplyStep | src/day23.rs:47-50 | applying one more move keeps the partial result |
| Day23.ApplyDone | src/day23.rs:47-50 | after all moves the elves are the unmoved ones plus the targets |
| Day23.SurvivingMoves | src/day23.rs:13-42 | the three loops yield the uncontested proposals |
| Day23.RoundOutcome | src/day23.rs:11-53 | the round moves every uncontested proposer to its target and keeps the number of elves |
| Day23.Grove.constructor | src/day23.rs:111-122 | the grove holds the elves given |
| Day23.Grove.DoOneRound | src/day23.rs:11-53 | the round reports a move iff some proposal is uncontested, and leaves the elves of the round function |
| Day23.Grove.ApplyMoves | src/day23.rs:47-50 | the in-place loop applies every move |
| Day23.FindP1 | src/day23.rs:93-107 | the empty ground of the smallest box around the elves; None without elves |
| Day23.Bounds | src/day23.rs:94-104 | the loop from the i32 extremes yields the smallest box holding every elf |
| Day23.WithinStep | src/day23.rs:100-103 | widening the box by one elf keeps every elf seen inside |
| Day23.ExtremesStep | src/day23.rs:98-104 | one more elf widens the box to hold it and keeps an elf seen on each side of the box |
| Day23.ExtremesTight | src/day23.rs:94-104 | once every elf is seen, a box holding them all with an elf on each side is the smallest one |
| Day23.ColumnSize | src/day23.rs:106 | a column of the box has maxY − minY + 1 cells |
| Day23.CellsSplit | src/day23.rs:106 | the box's cells are those of a narrower box plus its last column, disjointly |
| Day23.AreaSplit | src/day23.rs:106 | its area splits the same way |
| Day23.CellsSize | src/day23.rs:106 | the box has exactly its area in cells |
| Day23.EmptyGroundNonNegative | src/day23.rs:106 | the empty ground is never negative |
| Day24.DistFacts | src/day24.rs:143-145 | the Manhattan distance is symmetric, zero only between equal cells, and obeys the triangle inequality |
| Day24.Dist | src/day24.rs:143-145 | `dist` is zero exactly between equal cells |
| Day24.BlizzardPos | src/day24.rs:180-203 | a blizzard moving left or right keeps its row, one moving up or down keeps its column |
| Day24.BlizzardMoves | src/day24.rs:180-203 | a blizzard starting inside the valley stays inside, wrapping around: `>` is at (x − 1 + t) mod w + 1, `<` at (x − 1 − t) mod w + 1, and likewise `v` and `^` in y |
| Day24.BlizzardStart | src/day24.rs:180-203 | at minute 0 every blizzard is where it started |
| Day24.SameRemainder | src/day24.rs:181-199 | adding a multiple of the period leaves the truncating remainder of the minute unchanged |
| Day24.SamePhase | src/day24.rs:180-203 | two minutes with the same remainder put a blizzard in the same cell |
| Day24.BlizzardPeriodic | src/day24.rs:180-203 | a horizontal blizzard repeats every w minutes, a vertical one every h |
| Day24.BlizzardShift | src/day24.rs:180-203 | every blizzard repeats every w·h minutes |
| Day24.BlizzardsRepeat | src/day24.rs:115-120 | the whole blizzard pattern repeats every w·h minutes |
| Day24.MatchToCoord | src/day24.rs:52-57 | x is the offset's remainder by the line length w + 3 and y the number of whole lines before it, so y·(w + 3) + x gives the offset back |
| Day24.MatchToCoordRoundTrip | src/day24.rs:52-57 | the cell of a byte offset lies within a line of w + 3 bytes and gives back the offset |
| Day24.MatchToCoordOfCell | src/day24.rs:52-57 | the offset of a cell maps back to that cell |
| Day24.Candidates | src/day24.rs:150-156 | every node has five moves to try (four steps and waiting) |
| Day24.CandidatesSymmetric | src/day24.rs:150-156 | b is a candidate move from a iff a is one from b, and candidates are at most one cell away |
| Day24.Keep | src/day24.rs:157-177 | the filter keeps exactly the candidates inside the (w + 2)×(h + 2) rectangle that are free of blizzards and walls, stamped with the given minute |
| Day24.AllNeighbors | src/day24.rs:147-178 | the neighbours are exactly the eligible candidates one minute later |
| Day24.Lag | src/day24.rs:111-165 | the corrected rule looks one minute ahead, the as-written rule does not |
| Day24.ReachStep | src/day24.rs:122-138 | a legal move extends a chain of moves from the start |
| Day24.ReachableBound | src/day24.rs:122-138 | a chain ending at a cell is at least as long as the distance covered |
| Day24.BlizzardCache.constructor | src/day24.rs:64 | the cache starts empty |
| Day24.BlizzardCache.At | src/day24.rs:115-120 | the cache returns the blizzard cells at the minute, computing and storing them on a miss and changing nothing on a hit |
| Day24.FirstExists | src/day24.rs:109 | a non-empty open set has a node ordered first |
| Day24.FirstUnique | src/day24.rs:109 | that node is unique |
| Day24.FreshStep | src/day24.rs:123-138 | one more neighbour is newly scored iff it had no score and the score fits in i32 |
| Day24.NeighborsAreSteps | src/day24.rs:115-122 | the neighbours computed from the cached blizzards are exactly the legal moves |
| Day24.ReachAdded | src/day24.rs:123-138 | positions scored from a reachable node are reachable |
| Day24.KeepBooks | src/day24.rs:125-137 | one neighbour's update keeps the scored positions and the queued nodes in step |
| Day24.QueuedAdd | src/day24.rs:131-135 | a newly scored neighbour is queued with its score plus its distance to the end |
| Day24.Relax | src/day24.rs:123-138 | every new neighbour gets a score, and a node queued with its A* priority, exactly when it had none and the score fits in i32; every score is the minutes since the leg began |
| Day24.Expand | src/day24.rs:114-138 | expanding a node scores and queues its new legal moves and keeps every scored position reachable |
| Day24.Search | src/day24.rs:85-141 | a reported minute is the arrival minute of a chain of legal moves from the start to the end, less one as written, and is never below the distance from start to end (less one as written) |
| Day24.Solve | src/day24.rs:59-83 | the first answer is the reported minute of a legal crossing from start to end (less one as written) and no less than the distance; the second exists only with the first, is the reported minute of a legal crossing from start to end that sets off at the reported minute of a legal crossing back from end to start, which itself sets off at the first answer, and exceeds the first by at least two more crossings' worth of distance |
| Day24.TinyHasNoBlizzards | src/day24.rs:180-203 | the 1×1 valley without blizzards never has one |
| Day24.TinyStep | src/day24.rs:147-178 | in that valley stepping down the middle column is legal |
| Day24.TinyCrossing | src/day24.rs:85-141 | the end of that valley is reached at minute 2 |
| Day24.AsWrittenTooEarly | src/day24.rs:111-165 | as written (blizzards checked at the minute being left, end minute − 1 reported), the empty 1×1 valley is crossed at minute 2 and reported as 1, below the distance 2 |
| Day24.CorrectedOnTiny | src/day24.rs:111-165 | with blizzards checked at the minute being entered and the arrival minute reported, the same valley is crossed at minute 2 and no crossing reports less |
| Day25.DigitOf | src/day25.rs:11-18 | each SNAFU digit is worth between −2 and 2, and only `0` is worth nothing |
| Day25.SnafuChar | src/day25.rs:44-53 | `snafu_char` turns an index 0–4 into the digit worth index − 2 |
| Day25.ValueSnoc | src/day25.rs:9-22 | appending a digit multiplies the value by five and adds the digit |
| Day25.SnafuFoldValue | src/day25.rs:10-20 | the fold from the least significant end with weight w and running sum adds w times the positional value |
| Day25.Snafu | src/day25.rs:9-22 | `snafu` is the balanced base-five value of the string |
| Day25.SnafuIsValue | src/day25.rs:9-22 | `snafu` computes the balanced base-five value of the string |
| Day25.ValueBound | src/day25.rs:9-22 | a k-digit SNAFU string denotes a number of magnitude at most (5^k − 1)/2 |
| Day25.LeadingDigitDominates | src/day25.rs:24-42 | a string without a leading zero denotes more in magnitude than any shorter string can |
| Day25.SameLengthUnique | src/day25.rs:9-22 | two strings of the same length with the same value are equal |
| Day25.CanonicalUnique | src/day25.rs:24-42 | a number has at most one SNAFU form without a leading zero |
| Day25.Reverse | src/day25.rs:29 | reversing keeps the length and mirrors the positions |
| Day25.ValueOfReversedSnoc | src/day25.rs:40 | the digit pushed last becomes the most significant one |
| Day25.DivideStep | src/day25.rs:32-38 | the digit index and the floor-divided rest rebuild the number, the rest is smaller in magnitude, stays non-negative for a non-negative number, and reaches zero only after a non-zero digit |
| Day25.LeadingDigitsEqual | src/day25.rs:9-22 | with tails below half the leading weight, equal values force equal leading digits |
| Day25.PushDigit | src/day25.rs:32-40 | one loop step keeps the number equal to the written digits plus the weighted rest |
| Day25.RevSnafu | src/day25.rs:24-42 | `rev_snafu` writes every non-negative number as the SNAFU string without a leading zero that denotes it (0 as the empty string); some negative numbers give a negative index under the truncating `%`, where the code panics and the model returns nothing |
| Day25.Solve | src/day25.rs:1-7 | the answer is the SNAFU form, without a leading zero, of the sum of the values of all lines |

## Left out

- Days 3 and 17 and the `main` driver are not part of this model.
- Reading the input is not modelled: `include_bytes!`, splitting into lines and words, and the regular expressions of days 15, 16, 19, 21, 22 and 24 (day 13's tokenizer is modelled). Each operation takes the lines, numbers or records the Rust code builds before its core logic.
- Fixed-width integers are not modelled. The model computes on unbounded integers and leaves out overflow of `i32`, `i64` and `usize` (including the `as` casts) unless a member says otherwise. Two exceptions: the scores checked against `i32::MAX` in day 24, and the `i32` coordinates day 23 converts.
- The `rayon` parallel iterators of days 19 and 23 are modelled as sequential loops; both only map independent items and combine them with a sum, a product or a collection.
- The iteration order of `HashMap` and `HashSet` is not modelled. Where a result could depend on it, a lemma shows that it does not (`Day07.SmallSumPick`, `Day16.ChildrenPick`).
- Day06.Solve: takes `fixed` as a parameter; `Solve(buf, false)` is the source as written, which skips the stream's last window (see Findings).
- Day07: directory names in `cd` and `dir` lines are taken as single plain path components (`Path` is a sequence of names). Rust's `PathBuf` would let an absolute name (`cd /a`) replace the current path, ignore `.` and empty components when comparing paths, and split a name containing `/` into several components; none of these is modelled. The puzzle's directory names are plain words.
- Day07.Solve: the answers equal the totals of the whole tree only when no directory is listed twice (`Day07.RootTotal` assumes this). A repeated `ls` adds a child twice, as the source does.
- Day08.Solve: requires the grid to hold at least 99 × 99 bytes, the size the source indexes without checking.
- Day09.Simulate: requires at least one knot; the source calls it with 2 and 10.
- Day12.Find: states that a reported length is the length of a legal climb from the start, not that it is the shortest. The optimality of A* with the `BTreeSet` tie-breaking is not proved.
- Day12.Solve: takes the 64 × 40 map already read into rows; `new_from_bytes` is not modelled beyond that shape (`WellFormed`).
- Day13.DigitRun: recognises ASCII digits only. The regex's `\d` also matches other Unicode decimal digits, on which the source's `parse` would panic; the input is assumed to be ASCII.
- Day13.Pairs: a trailing group of fewer than three lines is dropped, as `tuples()` drops it in the source.
- Day14.Solve: where the source's loop would never return (in part 1, once the sand blocks the source and every later unit comes to rest on it), the model returns `Diverges`.
- Day15: `parse`, `part1`, `part2` and `all_perimeter_lines` (the hard-coded row, the frequency map of intersections and the final scan) are not modelled. The geometry they use is: distances, perimeter lines, `intersects`, `count_intervals` and `is_in_range_of_any_sensor`.
- Day16: the bit mask `1 << idx` is modelled as a set of valve indices; its overflow for index 63 and above is left out. Cells of the fixed-size distance grid outside the valves actually present are not modelled.
- Day18.Solve: with cubes repeated in the input the subtraction from the `usize` surface count could underflow; the model keeps the unbounded count.
- Day19.Solve: the search explores the same states as the source, with no pruning beyond the source's own caps on robots; the time horizons 24 and 32 are the source's.
- Day20.Solve: for a list of fewer than two numbers only the equality with the pure `MixedGrove` is stated; whether a zero is found is characterised from two numbers up.
- Day21.Solve: takes `fixed` as a parameter; `Solve(rules, rank, false)` is the source as written, whose division arm gives a wrong answer (see Findings). Requires the rules to form a tree ranked by depth (`Ranked`), which the puzzle input guarantees and the source relies on to terminate. `Day21.SolveForHumnValue` also assumes `root` is used by no rule (`RootIsTop`).
- Day22: the grid building and `start_pos` (the first `.` of the top row found with `str::find`) are not modelled; `WalkAll` takes the start pose.
- Day23.FindP1: requires every elf's coordinates to fit in `i32`, as the source stores them. An empty set of elves gives `None`, where the source's `min`/`max` would `unwrap` nothing. The unbounded round loop of part 2 in `solve` is not modelled; `DoOneRound` reports whether anyone moved.
- Day24.Search: takes a `fuel` bound on the number of nodes expanded and reports `OutOfFuel` when it is spent, since the source's search has no bound on the time axis. It states that a reported minute comes from a legal crossing, not that it is the earliest: optimality of A* with `BTreeSet` ties is not proved.
- Day24.Solve: takes the rule (as written or corrected) as a parameter. `match_to_pair` and the reading of the valley are not modelled.
- Day25.Solve: requires every line to be made of SNAFU digits. The source reaches `unreachable!` on any other character.

## Findings

| source | as written | input that shows it | evidently intended | confidence | as-written member | corrected member |
|---|---|---|---|---|---|---|
| src/day21.rs:90 | for `num == l / humn-side`, the arm solves `humn-side = num * l` | `2 == 8 / humn`: as written humn = 16, but 8 / 16 = 0 | `humn-side = l / num`, here 4 | not executed | Day21.ReduceAsWrittenWrongDivision | Day21.ReduceCorrectedDivision |
| src/day06.rs:21 | the fourteen-byte search runs over `p1..len - 14` and skips the last window | a 15-byte stream `0 0 1 2 … 13`, whose only fourteen-byte marker is its last window: the answer stays 14 instead of 15 | search up to `len - 13` so every window is tried | not executed | Day06.LastWindowSkipped | Day06.Part2Corrected |
| src/day24.rs:112-165 | neighbours are checked against the blizzards of the minute being left, and the end minute − 1 is reported | a 1 × 1 valley with no blizzards, start (1, 0), end (1, 2): the answer is 1, below the two steps the crossing needs | check the blizzards of the minute being entered and report the arrival minute, here 2 | not executed | Day24.AsWrittenTooEarly | Day24.CorrectedOnTiny |
