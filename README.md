# Advent of Code 2024, days 1 to 6, modelled in Dafny

This project models the puzzle solvers of the `aoc-2024-rs` crate (Rust) and proves what they compute. There is one module per day, plus two shared modules:

| file | module | source |
|---|---|---|
| `list_distance.dfy` | `ListDistance` | `src/day1.rs`: two location lists. Read both columns, sort them, then sum the pairwise distances and compute the similarity score. |
| `report_safety.dfy` | `ReportSafety` | `src/day2.rs`: a report is safe when its levels move in one direction by 1 to 3 at each step. Counts the safe reports. |
| `mul_scanner.dfy` | `MulScanner` | `src/day3.rs`: sum the products of the `mul(A,B)` instructions. Part 2 first deletes every `don't()`…`do()` span. |
| `word_search.dfy` | `WordSearch` | `src/day4.rs`: the `WordMatrix` word search in eight directions, with mirror suppression. |
| `page_ordering.dfy` | `PageOrdering` | `src/day5.rs`: precedence rules, page lists (levels), and the rule-based comparison. Sums the middle pages of in-order and of repaired levels. |
| `patrol.dfy` | `Patrol` | `src/day6.rs`: the guard's walk over a map of cells. It turns clockwise at obstacles and marks every cell it enters. |
| `text.dfy` | `Text` | The Rust string operations the parsers use: `trim`, `split`, `split_whitespace`, `parse::<i32>`. |
| `wrappers.dfy` | `Wrappers` | `Option`. |

## How the source's form is kept

- Code that loops or mutates is modelled as methods with loops and invariants:
  - `WordMatrix` (`grid` and `found` are grown in place) and day 6's `Map` (`walk_through_map` rewrites `locations`, `guard_location` and `guard_direction`) are classes whose methods modify their fields;
  - `check_for_word`'s running position, `level_is_safe`'s flags, the accumulators of days 1, 2 and 5, the parsers' push loops, `get_prod_sum`'s product list and `day3_part2`'s edit loop are method-local state in `while`/`for` loops.
- Each such method is proved equal to a specification function:
  - `Check`/`ScanCells` (day 4), `Run` (day 6), `RulesOf` (day 5), `ZipDistance`/`Similarity` (day 1), `Safe`/`CountSafe` (day 2), `Scan`/`Strip` (day 3).
  - The properties the source promises are proved as lemmas about those functions.
- Pure code (`Direction::iterator`, `values`, `reverse_vec`, `get_guard_direction`, `get_applicable_rules`, the `compare` closure) is modelled as functions with lemmas.

## Behaviour kept as written

- Day 4: `check_for_word` compares the last character of the word too, but a mismatch there is ignored: the recording test only asks whether the iterator is exhausted, and a trace that mismatches only at the last character has exhausted it. Such a trace is recorded (`StepsAllIff`; `LastCharIgnored` shows "XMAZ" recorded as "XMAS").
- Day 4: the running position `curr_row`/`curr_col` is not reset between directions. `Traced` carries it from one direction to the next.
- Day 4: in `read_direction` only the right-ward directions check the column, and they check it against the length of the current row, not the neighbour's row. Up and Down check no column bound, and the left-ward directions check only `col > 0`. On ragged grids this can read past a shorter row; the model's total `Read` gives `None` there.
- Day 2: `-1` doubles as "no previous level". A level equal to -1 makes the next step go unchecked (`SentinelSkipsStep`); without -1 the check is the stated rule (`SentinelFree`).
- Day 5: when both (x, y) and (y, x) are rules, both orders compare `Less` (`CompareSwap`), so the comparison is not a total order.

## Model

| member | source | states |
|---|---|---|
| WordSearch.Ordinal | src/day4.rs:25-38 | Each direction occurs in the iterator's list at its own position. |
| WordSearch.IteratorYieldsEachOnce | src/day4.rs:25-38 | The iterator yields eight directions, covering every direction, each at its own position (so exactly once). |
| WordSearch.AllDirectionsInOrder | src/day4.rs:25-38 | The iterator's list is in its own order, without repeats: Up, Down, Left, Right, LeftUp, LeftDown, RightUp, RightDown. |
| WordSearch.Values | src/day4.rs:40-51 | Both components of a step vector lie in -1..1, and the vector is never (0, 0). |
| WordSearch.ValuesInjective | src/day4.rs:40-51 | No two directions share a step vector. |
| WordSearch.Opposite | src/day4.rs:196-205 | The opposite direction's step vector is the negation of the original's. |
| WordSearch.OppositeInvolution | src/day4.rs:196-205 | Taking the opposite twice gives the direction back, and no direction is its own opposite. |
| WordSearch.ReverseVec | src/day4.rs:195-211 | The mirror triple reads in the opposite direction. Walking back L-1 steps from its anchor reaches the original anchor. |
| WordSearch.ReverseVecTwice | src/day4.rs:195-211 | Mirroring twice with the same length returns the original triple. |
| WordSearch.ReadDirection | src/day4.rs:66-111 | Defines `read_direction` with the source's own guards. A read finds a character only from a non-negative cell and only in a row that exists; `ReadDirectionSound` and `ReadDirectionRectangular` state which character it finds. |
| WordSearch.ReadDirectionSound | src/day4.rs:66-111 | Whatever `read_direction` returns is the character of the neighbouring cell in that direction. |
| WordSearch.ReadDirectionRectangular | src/day4.rs:66-111 | On a rectangular grid and an in-bounds cell, the read is `Some(grid[row+dr][col+dc])` exactly when that neighbour is in bounds, and `None` otherwise. |
| WordSearch.Steps | src/day4.rs:139-150 | The `while let` loop consumes at most all of the remaining characters, and at least one when any remain. |
| WordSearch.RayAt | src/day4.rs:139-142 | The k-th character compared in a trace is the one read k+1 steps along the direction. |
| WordSearch.StepsAllIff | src/day4.rs:139-151 | A trace empties the iterator exactly when every character but the last matches the cells along the ray. |
| WordSearch.Select | src/day4.rs:113-129 | Defines the filter of `char_is_present` over a list of candidate directions. It picks at most one direction per candidate; `SelectSpec` and `SelectInOrder` state which ones and in what order. |
| WordSearch.SelectSpec | src/day4.rs:113-129 | A direction is returned iff it is one of the candidates, its neighbour equals the target, and its length-4 mirror triple is not in `found`. |
| WordSearch.SelectInOrder | src/day4.rs:113-129 | Filtering keeps the iterator's order: the returned directions come in the order they were offered. |
| WordSearch.TracedAnchored | src/day4.rs:137-153 | Every entry pushed by the direction loop is anchored at (row, col) and uses one of the selected directions. |
| WordSearch.TracedAscending | src/day4.rs:137-153 | The pushed entries' directions keep the iterator's order, so each direction is pushed at most once. |
| WordSearch.Check | src/day4.rs:131-155 | Defines what `check_for_word` leaves in `found`. It adds at most eight entries, one per direction; `CheckAppends` states which. |
| WordSearch.CheckAppends | src/day4.rs:131-155 | `check_for_word` only appends. Each new entry is anchored at (row, col), its neighbour holds the second character, and its mirror was not already in `found`; no direction is added twice. |
| WordSearch.LastCharIgnored | src/day4.rs:139-153 | On the one-row grid "XMAZ", searching "XMAS" records (0, 0, Right): the final 'S' is compared with 'Z', and the mismatch is ignored. |
| WordSearch.Reverse | src/day4.rs:171 | `chars().rev()`: the result has the same length, with the characters in reverse order. |
| WordSearch.RowMajorSpec | src/day4.rs:159-160 | The nested row and column loops visit exactly the grid's cells, each once. |
| WordSearch.ScanCells | src/day4.rs:157-175 | Defines the scan over a list of cells. It adds at most eight entries per cell; `ScanAppends`, `ScanMirrorFree` and `ScanNoDuplicates` state which. |
| WordSearch.VisitAppends | src/day4.rs:161-173 | One cell of the scan only appends. New entries are anchored at that cell, start from its first-or-last-character branch with the matching neighbour, have no recorded mirror, and repeat no direction. |
| WordSearch.ScanAppends | src/day4.rs:157-175 | `find_word_instances` only appends. Every added triple is anchored at a scanned cell whose character is the word's first character, or else its last character. |
| WordSearch.VisitMirrorFree | src/day4.rs:118-122 | One cell of the scan keeps `found` free of an entry together with its length-4 mirror. |
| WordSearch.ScanMirrorFree | src/day4.rs:157-175 | The whole scan keeps `found` free of an entry together with its length-4 mirror. |
| WordSearch.ScanNoDuplicates | src/day4.rs:157-175 | Scanning distinct cells records no triple twice. |
| WordSearch.TraceDirection | src/day4.rs:139-150 | The loop's running position and its exhausted flag equal the `Steps` specification. |
| WordSearch.WordMatrix.constructor | src/day4.rs:55-60 | `new` makes an empty grid and an empty `found`. |
| WordSearch.WordMatrix.AddRow | src/day4.rs:62-64 | `add_row` appends the row to `grid` and leaves `found` alone. |
| WordSearch.WordMatrix.CharIsPresent | src/day4.rs:113-129 | The returned directions are exactly `Select` over the iterator's order, and nothing is modified. |
| WordSearch.WordMatrix.CheckForWord | src/day4.rs:131-155 | The new `found` is `Check` of the old state: the selected directions, each traced from the running position. `grid` is unchanged. |
| WordSearch.WordMatrix.FindWordInstances | src/day4.rs:157-180 | The new `found` is the old one scanned over every cell in row-major order; `grid` is unchanged. |
| Patrol.GuardDirection | src/day6.rs:27-35 | Defines `get_guard_direction` on the four arrows. The heading's own arrow is the character read; `GuardDirectionRoundTrip` gives the other direction of the correspondence. |
| Patrol.Arrow | src/day6.rs:27-35 | Every heading has an arrow character that `get_guard_direction` accepts. |
| Patrol.GuardDirectionRoundTrip | src/day6.rs:27-35 | The four arrows and the four headings correspond one to one. |
| Patrol.Delta | src/day6.rs:88-103 | Each heading moves exactly one cell, along one axis. |
| Patrol.Clockwise | src/day6.rs:79-86 | Defines `rotate_90_degrees`' table. The step vector turns a quarter turn clockwise; `ClockwiseQuarterTurn` adds that the heading always changes and four turns restore it. |
| Patrol.ClockwiseQuarterTurn | src/day6.rs:79-86 | `rotate_90_degrees` turns the step vector a quarter turn clockwise and never keeps the heading; four turns restore it. |
| Patrol.NextKey | src/day6.rs:88-103 | The next key is the guard position plus one step in the heading, or none when that would go below row or column 0. |
| Patrol.NextEntry | src/day6.rs:88-103 | `get_guard_next_location` gives the entry at the next key iff that key is in the map. |
| Patrol.TotalVisited | src/day6.rs:105-110 | The number of visited entries is at most the map size. |
| Patrol.Step | src/day6.rs:68-77 | Defines one pass of the `while let` in `walk_through_map`. A pass either keeps the heading or turns it clockwise; `StepSpec` and `StepKeeps` state what it does to the map. |
| Patrol.Run | src/day6.rs:68-77 | Defines the walk as repeated passes, up to a fuel bound. When it reports that the walk ended, no further pass is possible; `RunSpec` states what the walk keeps. |
| Patrol.StepSpec | src/day6.rs:69-76 | A pass happens iff the next entry exists. Facing an obstacle only rotates the heading. Otherwise the guard moves onto the next cell, marked visited, which is not an obstacle. A pass adds or removes no keys, changes no `is_obstacle`, and only sets `visited` flags. |
| Patrol.StepKeeps | src/day6.rs:74-75 | On a keyed map, a move leaves the guard on a visited, unblocked cell whose key is its own position. |
| Patrol.RunSpec | src/day6.rs:68-77 | Any number of passes keeps keys and obstacles, only sets `visited` flags, and keeps the map keyed. The visited count never drops. The walk stops only when the next cell is off the map. |
| Patrol.BuiltAll | src/day6.rs:49-63 | After all lines are read, the keys are exactly the cells. The guard is the last arrow found, or the default guard at (0, 0) facing Down if there is none. |
| Patrol.Map.constructor | src/day6.rs:37-66 | Each character at (r, c) becomes an entry keyed (r, c). It is an obstacle iff the character is '#', and visited iff it is an arrow. The last arrow sets the guard and its heading. |
| Patrol.Map.Rotate | src/day6.rs:79-86 | Only the heading changes, to the clockwise one. |
| Patrol.Map.NextLocation | src/day6.rs:88-103 | The entry one step ahead of the guard, when the map has that key. |
| Patrol.Map.Walk | src/day6.rs:68-77 | The new state is `Run` of the old one. Keys and obstacles are kept and `visited` only goes from false to true. When the walk stops, the next cell is off the map; the visited count never drops. |
| Patrol.Map.Visited | src/day6.rs:105-110 | `get_total_visited` on the map, at most its size. |
| PageOrdering.FirstBlank | src/day5.rs:7-11 | The index of the first whitespace-only line (or the line count): no earlier line is blank. |
| PageOrdering.RulesOf | src/day5.rs:12-20 | One rule per line, from that line's first two `|`-pieces. |
| PageOrdering.LevelOf | src/day5.rs:29-36 | A level line gives at least one page. |
| PageOrdering.ParsePieces | src/day5.rs:12-19 | Each piece is trimmed and parsed, in order. |
| PageOrdering.RuleRoundTrip | src/day5.rs:12-20 | Every rule of `i32` values written as "a\|b" parses back to itself. |
| PageOrdering.LevelRoundTrip | src/day5.rs:29-36 | Every nonempty list of `i32` values written with commas parses back to itself. |
| PageOrdering.ParseOrderingRules | src/day5.rs:5-23 | Yields one rule per line before the first blank line. It consumes the blank line too, if there is one. |
| PageOrdering.ParseLevels | src/day5.rs:25-40 | One level per remaining line. |
| PageOrdering.GetInput | src/day5.rs:42-48 | Rules come from the lines before the first blank line, levels from the lines after it. |
| PageOrdering.Applicable | src/day5.rs:50-56 | Defines `get_applicable_rules`. The result is never longer than the rules; `ApplicableIff` and `ApplicableAppend` state which rules it keeps and in what order. |
| PageOrdering.ApplicableIff | src/day5.rs:50-56 | A rule is applicable iff it is one of the rules and its first page is in the level. |
| PageOrdering.ApplicableAppend | src/day5.rs:50-56 | Filtering keeps the rules' order. |
| PageOrdering.Compare | src/day5.rs:65-74 | Defines the `compare` closure. A page never compares Greater with itself; `CompareCases`, `CompareSwap` and `CompareOnLevel` state the rest. |
| PageOrdering.CompareCases | src/day5.rs:65-74 | `Less` iff (x, y) applies; `Greater` iff (y, x) applies and (x, y) does not; `Equal` iff neither applies. |
| PageOrdering.CompareSwap | src/day5.rs:65-74 | Swapping the arguments reverses the outcome when exactly one rule applies, and keeps `Equal`. When both apply, both orders are `Less`. |
| PageOrdering.CompareOnLevel | src/day5.rs:64-74 | Between pages of the level, filtering the rules first changes no comparison. |
| PageOrdering.InOrder | src/day5.rs:76 | Defines the `is_sorted_by` test. A level with fewer than two pages is in order; `InOrderIff` states the test in terms of the rules. |
| PageOrdering.InOrderIff | src/day5.rs:76 | A level is in order iff no adjacent pair (x, y) has the rule (y, x) without the rule (x, y). |
| PageOrdering.ReordersKeepLength | src/day5.rs:79-80 | A reordering keeps each level's length, so the middle index stays valid. |
| PageOrdering.SumsPartition | src/day5.rs:76-81 | Every level adds its middle page to exactly one of the two sums. |
| PageOrdering.AllInOrderNothingBroken | src/day5.rs:76-81 | When every level is in order, `broken_sum` is 0 and `sum` is the sum of all middle pages. |
| PageOrdering.GetSums | src/day5.rs:58-84 | `sum` adds the middle pages of the in-order levels. `broken_sum` adds the middle pages of the other levels after reordering. |
| ListDistance.Column | src/day1.rs:14-21 | Column k holds, line by line, the k-th whitespace-separated number. |
| ListDistance.Insert | src/day1.rs:23-24 | Inserting into an ascending list gives an ascending list with one more occurrence of the value. |
| ListDistance.Sort | src/day1.rs:23-24 | The sort result is ascending and a permutation of its input. |
| ListDistance.AscendingUnique | src/day1.rs:23-24 | An ascending permutation is unique, so `Sort` agrees with `Vec::sort`. |
| ListDistance.CleanInput | src/day1.rs:7-27 | Both lists have one entry per line, each ascending and a permutation of its column. |
| Text.Abs | src/day1.rs:34 | `abs()`: the absolute value is x or -x (shared with the step check of src/day2.rs:33). |
| ListDistance.ZipDistance | src/day1.rs:29-37 | Defines the sum `get_distance` prints. Two equal lists are at distance 0; `ZipDistanceTruncate`, `ZipDistanceSymmetric` and `ZipDistanceZeroIff` state the rest. |
| ListDistance.ZipDistanceTruncate | src/day1.rs:32 | `zip` pairs only the first min(len) elements. |
| ListDistance.ZipDistanceSymmetric | src/day1.rs:32-35 | Swapping the lists leaves the distance unchanged. |
| ListDistance.ZipDistanceZeroIff | src/day1.rs:32-35 | The distance is 0 exactly when the paired prefixes are equal. |
| ListDistance.GetDistance | src/day1.rs:29-37 | The sum is the zipped distance. |
| ListDistance.CountMultiplicity | src/day1.rs:42 | The `filter(..).count()` of a value is its multiplicity in the list. |
| ListDistance.Similarity | src/day1.rs:39-46 | Defines the sum `get_similarity` prints. It is 0 against an empty right list; `SimilarityDisjoint` and `SimilarityReorderRight` state the rest. |
| ListDistance.SimilarityDisjoint | src/day1.rs:40-44 | When no left value occurs on the right, the similarity is 0. |
| ListDistance.SimilarityReorderRight | src/day1.rs:40-44 | The similarity depends only on the right list's contents, not its order. |
| ListDistance.GetSimilarity | src/day1.rs:39-46 | The sum of each left value times its count on the right. |
| ListDistance.GetAnswer | src/day1.rs:48-52 | The distance of the two sorted columns, and the similarity of the sorted left column against the right column. |
| ReportSafety.Safe | src/day2.rs:20-52 | Defines what `level_is_safe` decides. In a safe report every compared step changes by 1 to 3; `SentinelFree` relates it to the rule without the sentinel. |
| ReportSafety.LevelIsSafe | src/day2.rs:20-52 | Returns true iff every compared step rises by 1..3, or every compared step falls by 1..3. |
| ReportSafety.RiseWitness | src/day2.rs:36-42 | The `increased` flag is set iff some compared step rises. |
| ReportSafety.FallWitness | src/day2.rs:36-42 | The `decreased` flag is set iff some compared step falls. |
| ReportSafety.StopUnsafe | src/day2.rs:45-47 | The early `return false` is taken only on unsafe reports. |
| ReportSafety.SafeAtEnd | src/day2.rs:49-51 | Reaching the end without stopping means the report is safe. |
| ReportSafety.ShortReportSafe | src/day2.rs:20-52 | A report with fewer than two levels is safe. |
| ReportSafety.BadStepUnsafe | src/day2.rs:32-45 | A compared step that is flat or steeper than 3 makes the report unsafe. |
| ReportSafety.MixedUnsafe | src/day2.rs:37-45 | A compared rise together with a compared fall makes the report unsafe. |
| ReportSafety.SentinelFree | src/day2.rs:20-52 | Without a -1 level, safety is exactly the rule on every adjacent step. |
| ReportSafety.SentinelSkipsStep | src/day2.rs:21-29 | [1, -1, 5] is judged safe although -1 to 5 rises by 6. |
| ReportSafety.CountSafe | src/day2.rs:54-62 | The count is at most the number of reports. |
| ReportSafety.CountSafeAll | src/day2.rs:54-62 | Every report is counted iff every report is safe. |
| ReportSafety.NumOfSafeLevels | src/day2.rs:54-62 | The count is the number of safe reports. |
| MulScanner.DigitsBelow | src/day3.rs:8 | A run of n digits is worth less than 10^n, so `[0-9]{1,3}` is at most 999. |
| MulScanner.DigitRun | src/day3.rs:8 | The digit run at i is at most the budget, all digits, and stops before a digit only when the budget runs out. |
| MulScanner.Number | src/day3.rs:8 | One to three digits followed by the stop character: at most 999, and it ends 2 to 4 characters on. |
| MulScanner.MulAt | src/day3.rs:8 | A match at p starts at p, spans 8 to 12 characters, and both numbers are at most 999. |
| MulScanner.MulAtSound | src/day3.rs:8 | Every match is the text `mul(A,B)`, with A and B 1-3 digits, and the numbers are their values. |
| MulScanner.MulAtComplete | src/day3.rs:8 | Every occurrence of `mul(A,B)` with 1-3 digit operands is a match, with their values. |
| MulScanner.MulRoundTrip | src/day3.rs:8-22 | An instruction written from two numbers below 1000 is read back as those numbers. |
| MulScanner.Scan | src/day3.rs:21 | Defines the matches `captures_iter` yields from index p. Every match lies within the text from p on; `ScanLeftmost` and `LeftmostUnique` state that they are the leftmost non-overlapping ones. |
| MulScanner.ScanLeftmost | src/day3.rs:21 | `captures_iter` yields the leftmost match, then the leftmost after its end, and so on. Nothing is skipped. |
| MulScanner.LeftmostUnique | src/day3.rs:21 | The leftmost non-overlapping search has exactly one result, the one `Scan` gives. |
| MulScanner.ProductBound | src/day3.rs:22 | Each product lies in 0..998001. |
| MulScanner.ScanProductsBound | src/day3.rs:21-23 | Every pushed product lies in 0..998001. |
| MulScanner.Products | src/day3.rs:21-23 | One product per match, in order. |
| MulScanner.NoMulZero | src/day3.rs:18-26 | An input without `mul(` sums to 0. |
| MulScanner.InstructionSum | src/day3.rs:18-26 | A single instruction sums to its product. |
| MulScanner.GetProdSum | src/day3.rs:18-26 | The result is the sum of the products of the matches. |
| MulScanner.FindFrom | src/day3.rs:34-37 | The first occurrence at or after i, or none. |
| MulScanner.Find | src/day3.rs:34-37 | `find`: the first occurrence, and none exactly when the pattern never occurs. |
| MulScanner.NoDoInsideDont | src/day3.rs:35-37 | A `do()` cannot begin within the first 7 characters of a `don't()`. |
| MulScanner.CutEnd | src/day3.rs:36-37 | The deletion ends at the first `do()` after the first `don't()`, or at the end of the text; it is at least 7 characters long. |
| MulScanner.Cut | src/day3.rs:35-38 | One pass keeps the text before the first `don't()`, resumes at the deletion's end, and shortens the text by at least 7. |
| MulScanner.CutNoNewDont | src/day3.rs:35-38 | A pass creates no `don't()` before where the first one was. |
| MulScanner.Strip | src/day3.rs:34-39 | Defines what the `while` loop of `day3_part2` leaves. The text is unchanged, or at least 7 characters shorter; `StripKeepsPrefix`, `StripClean` and `StripShortens` state the rest. |
| MulScanner.StripKeepsPrefix | src/day3.rs:34-39 | Text free of `don't()` up to k comes through the loop unchanged up to k. |
| MulScanner.StripKeepsHead | src/day3.rs:34-39 | The text before the first `don't()` is unchanged. |
| MulScanner.StripClean | src/day3.rs:34 | No `don't()` survives the loop. |
| MulScanner.StripShortens | src/day3.rs:34-39 | The loop never lengthens the text, and leaves text without `don't()` as it is. |
| MulScanner.Day3Part2 | src/day3.rs:33-42 | The loop ends with the edited text equal to `Strip` of the input, with no `don't()` left. The sum is that of the edited text. |
| MulScanner.GetAnswers | src/day3.rs:44-48 | Part 1 sums the unmodified input; part 2 sums the input with the disabled spans deleted. |
| Text.TrimStartSpec | src/day5.rs:15 | `trim_start` keeps a suffix, drops only whitespace, and stops at the first non-whitespace. |
| Text.TrimEndSpec | src/day5.rs:15 | `trim_end` keeps a prefix, drops only whitespace, and stops at the last non-whitespace. |
| Text.TrimEmptyIff | src/day5.rs:9 | `trim().is_empty()` iff the line is all whitespace. |
| Text.TrimKeeps | src/day5.rs:15 | Text with no whitespace at either end trims to itself. |
| Text.IndexOf | src/day5.rs:13 | The first position of the separator. |
| Text.Split | src/day5.rs:13 | `split` always yields at least one piece. |
| Text.SplitPieces | src/day5.rs:13 | No piece contains the separator. |
| Text.JoinSplit | src/day5.rs:13 | Joining the pieces with the separator gives the text back. |
| Text.SplitJoin | src/day5.rs:13 | Splitting a join of separator-free pieces gives the pieces back. |
| Text.WordLength | src/day1.rs:16 | The first word's length: no whitespace inside it, whitespace (or the end) after it. |
| Text.Words | src/day1.rs:16 | `split_whitespace` yields nonempty words without whitespace. |
| Text.WordsSkipWhitespace | src/day1.rs:16 | Leading whitespace does not change the words. |
| Text.WordsUnwords | src/day1.rs:16 | Words joined by single spaces split back into themselves. |
| Text.ShowNat | src/day1.rs:17-18 | A natural number is written as digits, with no leading zero. |
| Text.ShowNatValue | src/day1.rs:17-18 | Reading back a written natural number gives that number. |
| Text.ShowIntRoundTrip | src/day1.rs:17-18 | Every integer written and parsed back gives itself. |
| Text.ShowNatSmall | src/day3.rs:8 | Numbers up to 999 need at most three digits. |

## Left out

- Files, `BufReader` and printing. `get_input` (days 3, 4), the file parts of `clean_input`, `get_map` and `get_input` (day 5), `part_one` and all `println!` output are left out. The models take the lines or the text as a parameter and return the values the source prints.
- `src/day2.rs` `clean_input` (lines 7-18) is not modelled; `NumOfSafeLevels` takes the parsed reports.
- The `regex` crate in general. Only the fixed pattern `mul\(([0-9]{1,3}),([0-9]{1,3})\)` is modelled, by a hand-written scanner. Characters stand for the bytes of an ASCII input, so byte offsets in `find` and `replace_range` are character indices.
- Panics become preconditions: `expect`/`unwrap` on unparsable numbers (`LineOk`, `RuleLine`, `LevelLine`), indexing a missing piece, the empty word on a grid with cells (`Scannable`), a non-arrow guard character (`GuardDirection`) and an empty level (`GetSums`).
- Machine integers. All arithmetic is unbounded: the `i32` sums, products and differences of days 1, 2, 3 and 5 do not wrap.
- Patrol.NextKey: the `usize` underflow at src/day6.rs:92,98 is modelled as "no next cell".
- WordSearch.ReadDirection: the negative `as usize` casts at src/day4.rs:142 are modelled as reads that find no character.
- WordSearch.ReverseVec: the `as usize` casts at src/day4.rs:210 are not modelled. A negative coordinate stays a negative integer, which can never equal a recorded anchor, just as the wrapped `usize` never does.
- ListDistance.Sort: `Vec::sort` internals are left out. `Sort` is an insertion sort, and `AscendingUnique` shows that any ascending permutation equals it.
- PageOrdering.GetSums: `sort_by(compare)` is not modelled. Its result is taken as a parameter that is only required to be a permutation of each level, because `compare` is not a total order. The panic that newer Rust versions may raise for such a comparator is left out.
- Patrol.Map.Walk: `walk_through_map` need not terminate (the guard can walk in a cycle), so it takes a fuel bound. It reports whether the walk stopped on its own within that many passes.
- Text.IsWhitespace: covers ASCII whitespace only, not the other Unicode whitespace `trim` and `split_whitespace` also accept.
- Part 1 of day 6 and day 4's `get_answers` are compositions of the modelled operations with file reading and printing.
