# Advent of Code 2024 solvers (days 1, 2, 4, 5, 6 and 7) in Dafny

This project models the puzzle kernels of a Rust Advent of Code 2024 crate and proves what each one computes:

- **Day 1.** Two columns of location ids. Part 1 sorts both columns and sums the distances between ids of equal rank. Part 2 computes a similarity score using a moving cursor over the sorted right column.
- **Day 2.** A report is safe when its levels strictly rise or strictly fall, by 1 to 3 each time. With the "problem dampener", a report is also accepted when removing one level makes it safe.
- **Day 4.** A 140×140 letter grid. Part 1 counts the occurrences of `XMAS` in the eight directions. Part 2 counts the `A` cells whose two diagonals read `MAS` or `SAM`.
- **Day 5.** Page-ordering rules `a|b` and update lists. The answer sums the middle pages of the updates that no rule contradicts.
- **Day 6.** A guard walks a 130×130 map, turning right in front of obstacles. The answer is the number of distinct cells visited before the guard leaves the map.
- **Day 7.** Calibration equations. The solver decides, working backwards from the last operand, whether `+` and `*` (and, in part 2, digit concatenation) evaluated left to right can reach the target.

Each solver reads its input as a `string` parameter; opening and reading the file is not modelled.

Rust's standard-library behaviour is written out once, in module `Text` (`text.dfy`):
- `str::split`, `str::lines`, `str::trim`, `str::find`;
- `parse::<usize>` / `parse::<i32>` / `parse::<isize>`, as `ParseInt(s, lo, hi)`, with an optional leading sign and the type's range checked;
- the round trip `ParseInt(Show(n)) == Some(n)` and `Split`/`Join`.

The result and error types are in `Wrappers` (`wrappers.dfy`).

The code's shapes are kept:
- The `Guard` of day 6 is a class whose `CheckAndMove` updates its fields in place.
- The grids of days 4 and 6 are `array2`s filled by `LoadMap`.
- The scanning loops are `while` loops with invariants. Each loop is proved against a specification function over the grid's contents (`Snapshot`), or, for the day 6 walk, over a map `W` that the array holds cell by cell (`Holds`).

## Model

| member | source | states |
|---|---|---|
| Day1.ParseColumns | src/day1.rs:13-26 | the two columns are exactly the left and right ids of the lines whose first two `"   "`-separated pieces both parse as `usize`, in line order; the columns have equal length |
| Day1.ColumnsSameLength | src/day1.rs:22-25 | a line contributes to both columns or to neither, so the columns always have the same length |
| Day1.PairOf | src/day1.rs:15-22 | a line yields a pair only when it contains the `"   "` gap, and both ids are within `usize`'s range |
| Day1.PairOfShown | src/day1.rs:15-22 | a line written as `<a>   <b>` reads back as the pair `(a, b)` for every pair of `usize` ids |
| Day1.FilterMapPermutation | src/day1.rs:13-26 | reordering the input lines only permutes each column's contents |
| Day1.SortSpec | src/day1.rs:28-29 | the sorted column is in non-decreasing order and is a permutation of the column |
| Day1.SortedUnique | src/day1.rs:28-29 | two sorted permutations of the same multiset are equal, so the sorted column does not depend on the sort algorithm |
| Day1.SortPermutation | src/day1.rs:28-29 | columns with the same contents sort to the same sequence |
| Day1.DistanceMetric | src/day1.rs:31-35 | the total distance is symmetric and is zero exactly when the sorted columns are equal |
| Day1.Part1 | src/day1.rs:7-38 | returns the sorted left and right columns of the text's lines and the sum of the absolute differences of equal-rank ids |
| Day1.Part1Columns | src/day1.rs:28-29 | the returned columns are sorted permutations of the parsed columns and have equal length |
| Day1.DistanceIgnoresLineOrder | src/day1.rs:7-38 | any permutation of the input lines gives the same total distance |
| Day1.AtMost | src/day1.rs:48 | the partition point: every element before it is at most `id`, and the element at it, if any, exceeds `id` |
| Day1.PartitionPointSorted | src/day1.rs:47-48 | on a sorted column every element from the partition point on exceeds `id` |
| Day1.AtMostSuffix | src/day1.rs:46-50 | searching from `last_idx` and adding the offset finds the same partition point as searching the whole column |
| Day1.AtMostMonotone | src/day1.rs:49-50 | the cursor never moves back when ids grow |
| Day1.TrailingRun | src/day1.rs:59 | the count is the length of the longest run of `id` ending the window: those elements equal `id`, and the one before them, if any, does not |
| Day1.TrailingRunCounts | src/day1.rs:55-59 | on a sorted window whose elements are at most `id`, the `last()` shortcut plus the reversed `take_while` count equals the number of occurrences of `id` |
| Day1.CountInWindow | src/day1.rs:46-52 | every occurrence of `id` in the right column lies in the window `c2[last_idx..last_idx + j]` |
| Day1.RoundRun | src/day1.rs:45-60 | for a new id, the window's trailing run is the id's number of occurrences in the right column; for a repeated id, the window is empty |
| Day1.Accumulate | src/day1.rs:45-61 | one closure call: the cursor moves to the id's partition point, and the score grows by `count * id`, except for an id equal to the previous one, which adds nothing |
| Day1.DistinctStep | src/day1.rs:45-61 | the as-written score of one more left id is the old score plus zero for a repeat, or plus `count * id` otherwise |
| Day1.Part2 | src/day1.rs:41-62 | on sorted columns, returns the similarity over the distinct runs of the left column, each id's occurrences in the right column times the id |
| Day1.DistinctAtMostSimilarity | src/day1.rs:41-62 | the as-written score never exceeds the puzzle's similarity and equals it when no two adjacent left ids are equal |
| Day1.RepeatedIdUndercounts | src/day1.rs:55-56 | left `3 3`, right `3`: the as-written score is 3 and the similarity is 6 |
| Day1.AccumulateCorrected | src/day1.rs:45-61 | corrected closure: a repeated id adds the score remembered from its first occurrence, and every id adds `count * id` |
| Day1.SimilarityStep | src/day1.rs:45-61 | the similarity of one more left id is the old one plus its occurrences in the right column times the id |
| Day1.Part2Corrected | src/day1.rs:41-62 | on sorted columns, returns the sum over every left id of its occurrences in the right column times the id |
| Day2.RemoveAtElements | src/day2.rs:43-50 | the copy without level `j` keeps the levels before `j` and shifts the ones after it down by one |
| Day2.FlagsStep | src/day2.rs:14-23 | each window updates the increasing, decreasing and within-bounds flags by the sign and size of one difference |
| Day2.FlagsDecideSafety | src/day2.rs:14-25 | after the last window, the flags say exactly whether the report is strictly monotone with steps of 1 to 3 |
| Day2.CheckSafety | src/day2.rs:6-26 | returns true exactly when the report is safe; reports with fewer than two levels are safe |
| Day2.RemovedCopy | src/day2.rs:44-50 | the array built for index `j` holds the report without level `j` |
| Day2.SafeWithout | src/day2.rs:43-53 | decides whether the report without level `j` is safe |
| Day2.RemoveFirst | src/day2.rs:39 | the early check of `data[1..]` is the check with the first level removed |
| Day2.CheckSafetyWithDampener | src/day2.rs:29-59 | returns true exactly when the report has at most one level or some single removed level leaves it safe |
| Day2.DampenedWitness | src/day2.rs:43-53 | any level whose removal makes the report safe makes it accepted with the dampener |
| Day2.NoDampenedWitness | src/day2.rs:43-58 | a report of two or more levels that no single removal makes safe is rejected with the dampener |
| Day2.SafeTail | src/day2.rs:6-26 | dropping the first level of a safe report leaves a safe report |
| Day2.SafeImpliesDampenedSafe | src/day2.rs:29-59 | every safe report is accepted with the dampener |
| Day2.PairDampenedSafe | src/day2.rs:29-59 | every two-level report is accepted with the dampener |
| Day2.DampenerNotHereditary | src/day2.rs:29-59 | `1 2` is accepted and `1 10 20` is rejected with the dampener |
| Day2.ParseAll | src/day2.rs:62-71 | succeeds exactly when every space-separated piece parses as `i32`, giving the parsed levels in order; otherwise fails with a parse error |
| Day2.ParseLine | src/day2.rs:62-71 | the loop returns the parse of every piece of `line.split(' ')`, stopping at the first piece that does not parse |
| Day2.ParseAllErrExtends | src/day2.rs:66-67 | once a piece fails to parse, the pieces after it do not change the result |
| Day2.SafeCount | src/day2.rs:73-101 | the number of counted reports never exceeds the number of lines |
| Day2.LineCounts | src/day2.rs:78-83 | a line counts exactly when it parses and its report is safe, or is safe with the dampener in part 2 |
| Day2.CountSafeReports | src/day2.rs:78-84 | the loop counts exactly the lines that parse and are safe |
| Day2.Solution | src/day2.rs:73-101 | part 1 and part 2 return the number of lines of the text that parse and are safe, or safe with the dampener |
| Day2.Part1AtMostPart2 | src/day2.rs:73-101 | the part-2 count is at least the part-1 count on every input |
| Day4.Step | src/day4.rs:18-79 | a step in a direction moves by that direction's row and column offsets and is refused exactly when it would leave the 140×140 grid |
| Day4.FromChar | src/day4.rs:93-103 | `X`, `M`, `A` and `S` map to their letters; every other character maps to a blank cell |
| Day4.Next | src/day4.rs:107-113 | only `X`, `M` and `A` have a successor, and `prev` of the successor is the letter itself |
| Day4.Prev | src/day4.rs:116-123 | only `M`, `A` and `S` have a predecessor |
| Day4.IsFinal | src/day4.rs:125-130 | a letter is final exactly when it is a letter without a successor |
| Day4.NextPrev | src/day4.rs:107-130 | `next` and `prev` are inverse along `X M A S`; only `X`, `M` and `A` have a successor; only `S` is final |
| Day4.NextSpellsWord | src/day4.rs:107-130 | following `next` from `X` spells `XMAS`, and three steps reach a final letter exactly when starting from `X` |
| Day4.MapOf | src/day4.rs:136-144 | the grid is 140×140, and each cell is the cell of the text's character at that row and column |
| Day4.LoadMap | src/day4.rs:136-144 | the grid holds, at each row and column, the cell of the text's character there, and blank past the end of a line or of the text |
| Day4.TargetsBeforeSpec | src/day4.rs:146-156 | the matches are exactly the cells holding the target, in row-major order |
| Day4.GetTargetCoords | src/day4.rs:146-156 | the scan returns every coordinate of the target letter, in row-major order |
| Day4.XmasStartsWithX | src/day4.rs:159-185 | an `XMAS` can only start on an `X` |
| Day4.WalkOn | src/day4.rs:166-182 | each step either leaves the grid or finds the wrong letter, ruling out an `XMAS`, or extends the match by one letter |
| Day4.BrokenWalk | src/day4.rs:166-182 | a step that leaves the grid or finds the wrong letter rules out an `XMAS` in that direction |
| Day4.WholeWalk | src/day4.rs:166-184 | after three matching steps, `XMAS` is found exactly when the letter reached is final |
| Day4.CheckXmasInDirection | src/day4.rs:159-185 | returns true exactly when `X M A S` is read from the start cell in the given direction within the grid |
| Day4.Hits | src/day4.rs:230-241 | a cell starts at most eight `XMAS`, and only an `X` starts any |
| Day4.HitSum | src/day4.rs:228-242 | the fold's total is at most eight per coordinate |
| Day4.CountXmas | src/day4.rs:228-242 | the fold adds, for each `X` coordinate, the number of directions reading `XMAS` from it |
| Day4.Part1 | src/day4.rs:221-246 | returns the number of (cell, direction) pairs reading `XMAS` in the text's grid |
| Day4.HitSumIsAllHits | src/day4.rs:221-246 | summing over the `X` coordinates counts the same as summing over every cell of the grid |
| Day4.XmasCountIsAllHits | src/day4.rs:221-246 | the part-1 answer counts every `XMAS` in the grid, wherever it starts |
| Day4.CheckMasInSquare | src/day4.rs:188-218 | returns true exactly when the cell is off the border and both diagonals through it pair an `M` with an `S`; the centre cell itself is not tested |
| Day4.MasSum | src/day4.rs:257-262 | the count is at most the number of `A` coordinates |
| Day4.CountMas | src/day4.rs:257-262 | the loop counts the `A` coordinates that centre an X-shaped `MAS` |
| Day4.Part2 | src/day4.rs:249-265 | returns the number of X-shaped `MAS` in the text's grid |
| Day4.SwapGrid | src/day4.rs:188-218 | the grid with `M` and `S` exchanged, cell by cell |
| Day4.SwapKeepsTargets | src/day4.rs:146-156 | exchanging `M` and `S` leaves the `A` coordinates unchanged |
| Day4.SwapKeepsMasSum | src/day4.rs:188-218 | exchanging `M` and `S` leaves each square's verdict unchanged |
| Day4.SwapKeepsMasCount | src/day4.rs:249-265 | the part-2 answer is symmetric in `M` and `S` |
| Day5.RuleOf | src/day5.rs:11-15 | a line yields a rule only when it contains `\|` |
| Day5.RuleEntries | src/day5.rs:9-15 | one parse outcome per line, in order |
| Day5.RuleMap | src/day5.rs:8-23 | the map sends `a` to a non-empty set holding `b` exactly when some line declares `a\|b` |
| Day5.DeclaresSnoc | src/day5.rs:16-19 | adding one line adds exactly its rule to the declared ones |
| Day5.ParseRules | src/day5.rs:6-24 | the loop builds the rule map of the lines of the rule section |
| Day5.RepeatedRuleNoEffect | src/day5.rs:16-19 | a rule declared twice gives the same map as once |
| Day5.TrimAll | src/day5.rs:30 | each piece is trimmed of surrounding whitespace |
| Day5.UpdateOf | src/day5.rs:29-32 | a line yields at most one page per comma-separated piece, each within `usize`'s range |
| Day5.UpdatesOfLength | src/day5.rs:26-35 | there are at most as many update lists as lines |
| Day5.UpdatesOfBlank | src/day5.rs:29 | blank lines yield no update list |
| Day5.UpdatesOfPrefix | src/day5.rs:28-32 | each non-blank line appends its list of parsed pages, and a blank line appends nothing |
| Day5.ParseUpdateLists | src/day5.rs:26-35 | the loop returns the page lists of the non-blank lines, in order |
| Day5.CheckUpdate | src/day5.rs:55-71 | the nested loops decide that no later page has a rule requiring it before an earlier one |
| Day5.ValidUpdateByDeclarations | src/day5.rs:55-71 | an update is valid exactly when no pair of its pages appears in reverse in a declared rule |
| Day5.ShortUpdateValid | src/day5.rs:55-71 | updates of at most one page are always valid |
| Day5.MiddleSumBound | src/day5.rs:72-77 | the answer never exceeds the answer with no rules, the sum of the middle pages of every update |
| Day5.SumValidMiddles | src/day5.rs:54-77 | the loop sums the middle page `s[\|s\|/2]` of every valid update |
| Day5.Sections | src/day5.rs:43-48 | the text splits at its first blank line: the rule section holds no `\n\n`, and the update section starts with it |
| Day5.Part1 | src/day5.rs:38-79 | fails exactly when the text has no `\n\n`; otherwise returns the sum of the middle pages of the valid updates |
| Day6.Turn | src/day6.rs:18-25 | the new direction's step vector is the old one rotated a quarter turn clockwise |
| Day6.TurnIsClockwise | src/day6.rs:18-25 | turning rotates the step vector a quarter turn clockwise, and four turns return to the start |
| Day6.TurnsVisitAll | src/day6.rs:18-25 | repeated turns from `Up` reach all four directions |
| Day6.Ahead | src/day6.rs:58-88 | the cell in front of the guard when it is on the map; otherwise a position off the map |
| Day6.Step | src/day6.rs:51-104 | a guard off the map stays put; the trail gains at most the new position; the guard only moves onto walkable cells of the map |
| Day6.StepOutside | src/day6.rs:51-104 | a guard that has left the map stays where it is |
| Day6.StepByOffsets | src/day6.rs:51-104 | a step leaves the map, walks onto a free cell and records it, or turns right at an obstacle |
| Day6.TrailGrows | src/day6.rs:51-104 | each step keeps the visited cells and adds at most one |
| Day6.StartInvariant | src/day6.rs:39-49 | the new guard is on the map, and its trail holds only its start |
| Day6.StepKeepsInvariant | src/day6.rs:51-104 | each step keeps the guard's position and trail on the map, with the start in the trail |
| Day6.IterateKeepsInvariant | src/day6.rs:139-146 | the invariant holds after any number of steps |
| Day6.IterateStaysOutside | src/day6.rs:139-146 | once out of bounds, further steps change nothing |
| Day6.Guard.constructor | src/day6.rs:39-49 | a new guard faces up at the start and has visited only its start |
| Day6.Guard.CheckAndMove | src/day6.rs:51-104 | the guard's new fields are one step of the walk on the map the array holds |
| Day6.MapOf | src/day6.rs:115-124 | a cell is walkable exactly when the text has no `#` there; cells past the text stay walkable |
| Day6.StartOf | src/day6.rs:118-123 | the start is `(0, 0)` or a cell of the text holding `^` |
| Day6.LastCaret | src/day6.rs:118-128 | the last `^` of a line, if any |
| Day6.StartIsLastCaret | src/day6.rs:118-128 | the start is the last `^` in row-major order, or `(0, 0)` when there is none |
| Day6.StartOnMap | src/day6.rs:109-133 | the start lies on the 130×130 map |
| Day6.LoadMap | src/day6.rs:109-133 | returns a fresh 130×130 map of the walkable cells, and the start, the last `^` read |
| Day6.Patrol | src/day6.rs:139-146 | on the map the array holds, reports the number of visited cells exactly when the walk leaves the map within the given number of steps |
| Day6.Part1 | src/day6.rs:135-149 | on the text's map, returns the number of distinct cells visited before the guard leaves it |
| Day6.Part1Bounds | src/day6.rs:135-149 | the visited cells are at least one and all lie on the map |
| Day7.Digits | src/day7.rs:45-50 | the number of decimal digits of `n`: `10^(d-1) <= n < 10^d` |
| Day7.Deconcat | src/day7.rs:45-56 | undoing concatenation yields a positive prefix whose digits followed by `a`'s are the target |
| Day7.SolveOneRow | src/day7.rs:6-25 | no operands: false; one operand: the target equals it; a last operand larger than the target: false |
| Day7.SolveOneRowWithConcat | src/day7.rs:28-61 | the same edge cases as without concatenation |
| Day7.SolveOneRowSound | src/day7.rs:6-25 | an accepted row has a `+`/`*` assignment evaluating left to right to the target |
| Day7.SolveOneRowWithConcatSound | src/day7.rs:28-61 | an accepted row has a `+`/`*`/`\|\|` assignment evaluating to the target |
| Day7.SolveOneRowComplete | src/day7.rs:6-25 | for positive operands, every `+`/`*` assignment's value is accepted |
| Day7.SolveOneRowWithConcatComplete | src/day7.rs:28-61 | for positive operands, every `+`/`*`/`\|\|` assignment's value is accepted |
| Day7.SolverDecidesReachable | src/day7.rs:6-61 | for positive operands, each solver accepts a target exactly when some operator assignment reaches it |
| Day7.SolveOneRowBranches | src/day7.rs:13-24 | an accepted row takes the subtraction branch or the exact-division branch |
| Day7.SolveOneRowImpliesWithConcat | src/day7.rs:6-61 | a row accepted without concatenation is accepted with it |
| Day7.ClassifyLine | src/day7.rs:72-87 | a line without `:` is skipped; a line kept as a row has a target and at least one `isize` operand |
| Day7.Classify | src/day7.rs:71-88 | one verdict per line, in order |
| Day7.Rows | src/day7.rs:71-91 | fails exactly when some line is malformed; otherwise every row comes from a well-formed line |
| Day7.ParseInputs | src/day7.rs:63-92 | the loop returns the rows of the text's lines, stopping at the first malformed one |
| Day7.RowsErrExtends | src/day7.rs:84-86 | lines after a malformed one do not change the result |
| Day7.TotalCalibration | src/day7.rs:97-103 | the loop sums the targets of the rows the solver accepts |
| Day7.Solution | src/day7.rs:94-119 | fails exactly when some line is malformed; otherwise returns the sum of the targets of the solvable rows |
| Day7.CalibrationIsReachableSum | src/day7.rs:94-119 | on positive operands, the answer is the sum of the targets some operator assignment reaches |
| Day7.Part2AtLeastPart1 | src/day7.rs:94-119 | with non-negative targets, the part-2 answer is at least the part-1 answer |
| Text.JoinSplit | src/day2.rs:64 | joining the pieces of `split` with the separator gives back the string |
| Text.SplitJoin | src/day5.rs:9 | splitting pieces joined with a separator they lack gives back the pieces |
| Text.SplitSeparates | src/day7.rs:72-73 | `split` yields a second piece exactly when the separator occurs |
| Text.FindSub | src/day5.rs:44-46 | `find` returns the first position where the pattern occurs, or nothing when it does not occur |
| Text.Trim | src/day5.rs:29 | the trimmed string is the window of the line between its leading and its trailing whitespace; it is empty exactly when the line is all whitespace, and otherwise neither starts nor ends with whitespace |
| Text.LeadingSpace | src/day5.rs:29 | the line starts with that many whitespace characters, and the next character, if any, is not whitespace |
| Text.TrailingSpace | src/day5.rs:29 | the line ends with that many whitespace characters, and the character before them, if any, is not whitespace |
| Text.Split | src/day2.rs:64 | `split` yields at least one piece, and no piece contains the separator |
| Text.Lines | src/day7.rs:71 | no line contains a line feed |
| Text.ParseInt | src/day2.rs:65 | a successful parse gives a value within the type's range |
| Text.ParsedTokens | src/day7.rs:77-79 | the tokens kept by `filter_map` are at most as many as the tokens, and each lies within the type's range |
| Text.ParsedTokensAll | src/day7.rs:77-79 | when every token parses, `filter_map` keeps them all, in order, each as its parsed value |
| Text.ParseShow | src/day2.rs:65 | parsing the decimal form of an in-range integer gives back that integer |

## Left out

- Day 3 and `src/main.rs` are not part of this model. Neither is opening or reading the input files: each solver takes the file's contents as a `string`, and the I/O errors (`Error::IOError`) are not modelled.
- Day 5 part 2 does not exist in `src/day5.rs`. Day 6 part 2 is `todo!()` (`src/day6.rs:151-153`), so neither is modelled.
- `src/error.rs` declares only `IOError` and `ParseIntError`, while days 5, 6 and 7 construct `Error::Other(message)`. The model's `Error` type has `ParseIntError` and `Other`.
- Day6.LoadMap: the `Error::Other` returned for a line that fails to read (`src/day6.rs:126`) cannot arise, because the model's lines come from a `string`. For the same reason, the lines that `filter_map(|line| line.ok())` drops in days 1 and 2 (`src/day1.rs:13`, `src/day2.rs:78`, `src/day2.rs:93`) do not exist in the model.
- Fixed-width arithmetic: `usize`/`isize` sums and products are unbounded integers here, so overflow panics in debug builds and wrap-around in release builds are not modelled. Parsing does check each type's range (`usize`, `i32`, `isize`).
- Day2.CheckSafety: the `i32` difference `sl[1] - sl[0]` and its `abs()` (`src/day2.rs:15-18`) are exact integers here. On the report `2147483647 -2147483648` the source's subtraction overflows: a debug build panics, and a release build wraps the difference to 1 and counts the report safe. The model calls that report unsafe.
- Day1.Part1: `sort_unstable` is specified by its result, the unique sorted permutation (`SortSpec`, `SortedUnique`), not by its algorithm.
- Day1.Part2: requires both columns to be sorted, which the source's caller provides and its comment assumes. The cursor's previous id is a ghost parameter of `Accumulate`, used only in the proof.
- Day2.CheckSafetyWithDampener: the in-place `Vec` copy of the source is modelled as a fresh array filled by a loop, then read as a sequence.
- Day4.LoadMap: the grid is fixed at 140×140 as in the source. As with the source's `take(140)`, characters outside the 140×140 corner are ignored, and missing ones read as blank cells.
- Day5.Part1: requires every update line to hold at least one page that parses. The source indexes `sequence[len / 2]`, which panics on an empty list.
- Day5.ParseRules: the `HashMap<usize, HashSet<usize>>` is a Dafny `map<nat, set<nat>>`; iteration order plays no part.
- Day6.Part1: requires the map's text to fit the 130×130 grid (`Fits`), since the source's `load_map` panics when indexing outside it. The walk is bounded by a step count (`fuel`): the source loops forever when the guard never leaves the map, and the model returns `None` when it has not left within the given steps.
- Day7.SolveOneRow: requires non-zero operands (`NonZero`), since the source's `num % a` panics on a zero last operand. This is a sufficient condition, stronger than the source needs: the source only panics on a zero operand that it reaches, and on the row `3: 0 5` the last operand 5 exceeds the target, so the source returns false at `src/day7.rs:14` without ever computing `% 0`. The completeness lemmas also require positive operands, because concatenation and division behave differently on negatives.
- Day7.Solution: requires the parsed rows to have non-zero operands, for the same reason.

## Findings

| source | as written | input that shows it | evidently intended | confidence | as-written member | corrected member |
|---|---|---|---|---|---|---|
| src/day1.rs:45-61 | a left id equal to the previous one adds nothing: the cursor has already passed its run in the right column | left column `3 3`, right column `3`: the score is 3 | every left id scores its number of occurrences in the right column times the id, giving 6 | not executed | Day1.RepeatedIdUndercounts | Day1.Part2Corrected |
