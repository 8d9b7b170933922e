# Advent of Code 2024, days 1 to 6, in Dafny

A model of six small puzzle solvers (`src/bin/01.rs` to `src/bin/06.rs`), each a text
parser and one sequential algorithm, with proofs of what they compute:

- **Location lists** (day 1, `location_lists.dfy`): parse two columns of integers,
  sort both and add up the distances of same-position entries; weigh each left value
  by its frequency in the right column.
- **Reports** (day 2, `reports.dfy`): a report is safe when its levels move strictly
  in one direction by steps of 1 to 3; part two also accepts a report that becomes
  safe after one level is removed.
- **Instruction scanner** (day 3, `mul_scanner.dfy`): find `mul(a,b)` instructions in
  corrupted text and add up their products; part two obeys `do()` and `don't()`.
- **Word search** (day 4, `word_search.dfy`): count the straight paths (axes and
  diagonals) that spell `XMAS` in a character grid.
- **Page ordering** (day 5, `page_ordering.dfy`): the parsers of rule lines `a|b` and
  update lines `a,b,c`; the solver parts are stubs that return `None`.
- **Guard walk** (day 6, `guard_walk.dfy`): a guard walks a grid, turning right at
  obstructions, until it leaves the grid or repeats a position and direction; the
  answer is the number of cells visited.

Shared modules: `Wrappers` (`Option`; `None` also stands for a panic), `Numbers`
(integer ranges, `abs`, `signum`, `max`) and `Text` (the Rust `str` operations the
parsers use: `lines`, `split`, `split_once`, `split_whitespace`, `trim`, integer
`parse`).

Where the code works in place (loops that push into vectors, accumulate sums, update a
hash map or a hash set, mark cells), the model is a `method` with a loop and its
invariants, proved equal to a specification function; the properties the code
promises are lemmas about those functions. Iterator chains and matches are functions.

Grids with lines of unequal length are accepted as the code accepts them: day 4 reads
whatever the lines hold, and day 6 pads short lines with unvisited cells and cuts long
ones.

## Model

| member | source | states |
|---|---|---|
| Text.LinesSpec | src/bin/01.rs:65 | no line of `str::lines` contains '\n', and only the empty text has no lines |
| Text.LinesJoin | src/bin/01.rs:65 | `lines` gives back lines joined by '\n' when none contains '\n' and the last is non-empty |
| Text.SplitOnceSpec | src/bin/01.rs:66 | `split_once` cuts at the first occurrence of the pattern and fails only when there is none |
| Text.SplitOnceAfter | src/bin/01.rs:66 | `a + pat + b` splits into `a` and `b` when `a` holds no start of the pattern |
| Text.TrimStartSpec | src/bin/01.rs:68 | the trimmed text is the input without exactly its leading whitespace run |
| Text.TrimEndSpec | src/bin/01.rs:68 | the trimmed text is the input without exactly its trailing whitespace run |
| Text.ParseSignedSpec | src/bin/01.rs:68 | an `i32` parse yields a value in range, rejects the empty text and a lone sign, and accepts only digits after an optional '+' or '-' |
| Text.ParseSignedDecimal | src/bin/01.rs:68 | parsing a written signed numeral gives back its value |
| Text.ParseUnsignedSpec | src/bin/05.rs:14 | a `usize` parse yields a value at most the maximum, rejects the empty text and a lone '+', and accepts only digits after an optional '+' |
| Text.ParseDecimal | src/bin/05.rs:14 | parsing a written numeral gives back its value |
| Text.SplitWhitespaceSpec | src/bin/02.rs:26 | every word of `split_whitespace` is non-empty and free of whitespace |
| Text.SplitWhitespaceJoin | src/bin/02.rs:26 | words joined by a whitespace character split back into exactly those words, in order |
| Text.SplitWhitespaceLeading | src/bin/02.rs:26 | whitespace in front of the text changes no word |
| Text.SplitWhitespaceTrailing | src/bin/02.rs:26 | whitespace after the text changes no word |
| Text.SplitSpec | src/bin/05.rs:33 | `split` gives at least one piece and no piece holds the separator |
| Text.SplitJoin | src/bin/05.rs:33 | splitting undoes joining when no piece holds the separator |
| Text.JoinSplit | src/bin/05.rs:33 | joining the pieces of a split gives back the text |
| Text.FindSpec | src/bin/05.rs:5 | the first occurrence of a pattern is found, and none is missed |
| Wrappers.AllSomeSpec | src/bin/05.rs:10-25 | collecting results that panic on failure keeps every value in order and fails exactly when one entry fails |
| Wrappers.SomesFrom | src/bin/01.rs:65-74 | every value kept by a loop that skips failed entries comes from some entry |
| LocationLists.ParseLine | src/bin/01.rs:66-69 | a line gives a pair only when it holds three spaces in a row, and both numbers are `i32` values |
| LocationLists.ParseInput | src/bin/01.rs:61-77 | the two lists have equal length and hold, in line order, the two numbers of every line that splits at three spaces with both trimmed sides parsing |
| LocationLists.PairsOfFormatted | src/bin/01.rs:61-77 | writing `i32` pairs as lines and parsing them gives back the pairs |
| LocationLists.ParseFormattedLine | src/bin/01.rs:66-71 | a line written as two numerals three spaces apart parses back to its pair |
| LocationLists.ParseExample | src/bin/01.rs:85-88 | the six example lines give the left column [3, 4, 2, 1, 3, 3] and the right column [4, 3, 5, 3, 9, 3] |
| LocationLists.Insert | src/bin/01.rs:7-8 | inserting into an ascending list keeps it ascending and adds exactly the one element |
| LocationLists.Sort | src/bin/01.rs:7-8 | the sorted list is ascending and a permutation of its input |
| LocationLists.AscendingUnique | src/bin/01.rs:7-8 | two ascending arrangements of the same multiset are equal, so the sort result is determined |
| LocationLists.SortDependsOnlyOnMultiset | src/bin/01.rs:7-8 | lists with the same elements sort to the same list |
| LocationLists.SumDistances | src/bin/01.rs:14-19 | the loop sums `abs(left[i] - right[i])` over all positions |
| LocationLists.PartOne | src/bin/01.rs:5-22 | the answer is `Some` (the length check never fails) of the distance sum of the sorted columns |
| LocationLists.TotalDistanceZero | src/bin/01.rs:14-19 | the distance sum is zero exactly when the lists agree position by position |
| LocationLists.DistanceZeroIffSameNumbers | src/bin/01.rs:5-22 | part one is zero exactly when both columns hold the same numbers |
| LocationLists.Frequencies | src/bin/01.rs:27-31 | the map holds exactly the right-column values, each with its number of occurrences |
| LocationLists.SimilarityScore | src/bin/01.rs:33-41 | the loop sums each left value times its right-column frequency, absent values adding nothing |
| LocationLists.PartTwo | src/bin/01.rs:24-42 | the answer is `Some` of the similarity of the parsed columns |
| LocationLists.SimilarityDisjoint | src/bin/01.rs:36-38 | left values that never occur on the right contribute nothing |
| LocationLists.SimilaritySymmetric | src/bin/01.rs:24-42 | the similarity is the same with the columns swapped |
| Reports.IsSafe | src/bin/02.rs:3-17 | fewer than two levels are safe, and every step of a safe report has size 1 to 3 |
| Reports.SafeIffMonotone | src/bin/02.rs:3-17 | a report is safe exactly when every step rises by 1 to 3 or every step falls by 1 to 3 |
| Reports.EqualNeighboursUnsafe | src/bin/02.rs:11-16 | two equal neighbouring levels make a report unsafe |
| Reports.SafePrefix | src/bin/02.rs:3-17 | a prefix of a safe report is safe |
| Reports.RemoveAt | src/bin/02.rs:47-48 | removing index `i` keeps the levels before it, shifts those after it, and drops exactly that one level |
| Reports.IsReportSafe | src/bin/02.rs:36-55 | the report is accepted exactly when it is safe or some single removal is safe; a level that is not an `i32` makes it fail |
| Reports.TolerableIffSomeRemovalSafe | src/bin/02.rs:42-54 | for a non-empty report, acceptance is equivalent to some single removal being safe |
| Reports.ShortTolerable | src/bin/02.rs:5-7 | reports of at most two levels are always accepted |
| Reports.ParseLevelsSpec | src/bin/02.rs:25-28 | every word is parsed as an `i32`, in order, and parsing fails exactly when some word fails |
| Reports.CountReportsSpec | src/bin/02.rs:19-33 | the count fails exactly when some non-empty line fails to parse, and never exceeds the number of lines |
| Reports.CountReportsMonotone | src/bin/02.rs:57-61 | a more lenient acceptance test counts at least as many reports and fails on the same inputs |
| Reports.PartOne | src/bin/02.rs:19-33 | the count of safe reports is at most the number of lines, and fails (the `expect` panic) exactly when a non-empty line does not parse |
| Reports.PartTwo | src/bin/02.rs:35-64 | the count of accepted reports is at most the number of lines, and fails exactly when a non-empty line does not parse |
| Reports.PartTwoAtLeastPartOne | src/bin/02.rs:19-64 | part two counts at least as many reports as part one, and both fail on the same inputs |
| MulScanner.DigitRunSpec | src/bin/03.rs:6 | the measured run is the maximal leading run of digits |
| MulScanner.MulPrefixSound | src/bin/03.rs:6 | a match at the start of the text is `mul(x,y)` with non-empty digit strings `x` and `y`, and its length is that text's |
| MulScanner.MulPrefixComplete | src/bin/03.rs:6 | every `mul(x,y)` with non-empty digit strings at the start of the text is matched with exactly `x` and `y` |
| MulScanner.NoMulPrefix | src/bin/03.rs:6 | text not starting with 'm' has no match at its start |
| MulScanner.CapturesAfterMul | src/bin/03.rs:9 | the matches of `mul(x,y)` followed by more text are `(x, y)` and then the matches of the rest |
| MulScanner.CapturesSkip | src/bin/03.rs:9 | leading characters other than 'm' change no match |
| MulScanner.CapturesAreNumerals | src/bin/03.rs:6-9 | every capture is a non-empty string of digits |
| MulScanner.GetMuls | src/bin/03.rs:5-16 | the loop parses both captures of every match as `i32`, in order, failing on the first that does not parse |
| MulScanner.ParsePairsSpec | src/bin/03.rs:9-13 | parsing the captures fails exactly when one does not hold two `i32` values, and otherwise gives one pair per capture |
| MulScanner.PartOne | src/bin/03.rs:5-27 | the sum is 0 when there is no `mul`, and part one fails (the `unwrap` panic) exactly when a captured number is not an `i32` |
| MulScanner.PartOneOfProgram | src/bin/03.rs:18-27 | a text of `mul`s of `i32` values yields exactly their pairs, and part one is the sum of their products |
| MulScanner.MulTokensAreCaptures | src/bin/03.rs:30-34 | the part-two expression finds the same `mul`s as the part-one expression |
| MulScanner.PartTwo | src/bin/03.rs:29-52 | the loop goes through the tokens in order with `enabled` starting true: `do()` enables, `don't()` disables, an enabled `mul` adds its `u64` product |
| MulScanner.RunSwitches | src/bin/03.rs:44-45 | `do()` turns counting on and `don't()` turns it off, whatever the flag was before |
| MulScanner.DisabledMulsSkipped | src/bin/03.rs:37-43 | while counting is off, `mul`s add nothing and are not parsed, so they cannot fail |
| MulScanner.DontSkipsMuls | src/bin/03.rs:37-45 | the `mul`s between a `don't()` and what follows them contribute nothing |
| MulScanner.TokensWithoutSwitches | src/bin/03.rs:30-34 | without `do()` and `don't()` every token is a `mul` |
| MulScanner.RunMuls | src/bin/03.rs:34-49 | running enabled `mul`s of `i32` numerals adds up their products |
| MulScanner.PartTwoWithoutSwitches | src/bin/03.rs:18-51 | without `do()` and `don't()` part two equals part one whenever part one succeeds |
| MulScanner.LoneMul | src/bin/03.rs:6-9 | a lone `mul(x,y)` is one capture and one token |
| MulScanner.WideNumberSplitsParts | src/bin/03.rs:10-39 | a number beyond `i32` but within `u64` makes part one fail while part two adds its product |
| WordSearch.GetCharAt | src/bin/04.rs:16-28 | a character is returned exactly for a point in the range on an existing row and column, and it is that cell's character |
| WordSearch.GetCharAtRectangular | src/bin/04.rs:16-28 | in a rectangular grid exactly the cells of the grid have a character |
| WordSearch.VerifyPathMatchesWord | src/bin/04.rs:30-43 | a path of a length other than the word's never matches |
| WordSearch.VerifyPathSpec | src/bin/04.rs:30-43 | a path matches exactly when it is as long as the word and every cell holds the letter at the same position |
| WordSearch.PointsBetweenSpec | src/bin/04.rs:45-62 | the points number `max(abs dx, abs dy) + 1`, start at `start` and step by the signs of the differences |
| WordSearch.GetPointsBetweenInclusive | src/bin/04.rs:45-62 | the loop produces exactly those points |
| WordSearch.BetweenAlong | src/bin/04.rs:93-100 | for a unit direction the points between the start and its end are the straight walk of the word's length |
| WordSearch.DirectionsSpec | src/bin/04.rs:81-90 | the directions are eight distinct unit steps covering every neighbour |
| WordSearch.GetPossibleWordCoordinates | src/bin/04.rs:64-118 | the loop returns the candidate paths, and the length-mismatch branch is never taken |
| WordSearch.CandidatePathsEmpty | src/bin/04.rs:93-114 | no path is collected exactly when no direction's far end is inside the range |
| WordSearch.CandidatesSpec | src/bin/04.rs:64-118 | Some exactly when the word is non-empty, the start is in range and some direction's far end is in range too; the paths are then one to eight, each of the word's length, starting at the start, inside the range and straight |
| WordSearch.GetCharPoints | src/bin/04.rs:120-140 | None exactly when no cell holds the character; otherwise those cells |
| WordSearch.CharPointsSpec | src/bin/04.rs:120-133 | the points are exactly the cells holding the character, each once, in reading order |
| WordSearch.PartOne | src/bin/04.rs:142-187 | None without lines or with an empty first line; otherwise the number of candidate paths from the cells holding 'X' that spell `XMAS` |
| WordSearch.CountMatchingPaths | src/bin/04.rs:178-182 | the inner loop counts exactly the candidate paths that spell the word |
| WordSearch.FoundFromDirections | src/bin/04.rs:174-183 | the paths counted from one start are exactly the directions that spell the word from it |
| WordSearch.TotalFoundIsSpellings | src/bin/04.rs:171-186 | the total is the number of (start, direction) pairs that spell the word |
| WordSearch.NothingSpelledOutside | src/bin/04.rs:77-79 | nothing is spelled from a start outside the range |
| WordSearch.MisspeltAt | src/bin/04.rs:40-42 | one wrong letter on a walk is enough for it not to match |
| WordSearch.OneRowGridFindsOne | src/bin/04.rs:142-187 | a 4 by 4 grid with `XMAS` written once on its top row counts exactly one occurrence |
| PageOrdering.SplitInput | src/bin/05.rs:3-7 | the two sections with the blank line between them make up the input |
| PageOrdering.SplitInputSpec | src/bin/05.rs:3-7 | splitting fails exactly when there is no blank line; otherwise it cuts at the first one |
| PageOrdering.SplitInputAt | src/bin/05.rs:3-7 | a rules section without a blank line is cut off exactly at the separator |
| PageOrdering.RuleWithoutBar | src/bin/05.rs:23 | a line without '\|' is not a rule |
| PageOrdering.RuleAtBar | src/bin/05.rs:12-21 | a line cut at its first '\|' is a rule exactly when both untrimmed sides parse as `usize` |
| PageOrdering.PaddedSideFails | src/bin/05.rs:14-21 | whitespace next to a number makes that side fail, as nothing is trimmed |
| PageOrdering.ParsePageOrdering | src/bin/05.rs:9-26 | a successful parse has one rule per line |
| PageOrdering.ParsePageOrderingSpec | src/bin/05.rs:9-26 | one rule per line in line order, and failure exactly when some line is not a rule |
| PageOrdering.ParseUpdateSpec | src/bin/05.rs:33-40 | one number per comma-separated field, trimmed, in order, and failure exactly when some field does not parse |
| PageOrdering.EmptyFieldFails | src/bin/05.rs:34-38 | an empty line and a line ending in ',' are not updates |
| PageOrdering.ParseUpdates | src/bin/05.rs:28-43 | a successful parse has one update per line |
| PageOrdering.ParseUpdatesSpec | src/bin/05.rs:28-43 | one update per line in line order, and failure exactly when some line is not an update |
| PageOrdering.ParseFormattedRules | src/bin/05.rs:9-26 | rules written as `a\|b` lines parse back to the same rules in the same order |
| PageOrdering.ParseFormattedUpdates | src/bin/05.rs:28-43 | non-empty updates written as comma-separated lines parse back to the same updates |
| PageOrdering.InputRoundTrip | src/bin/05.rs:3-43 | a written input splits into its two sections, and they parse back to the rules and updates |
| GuardWalk.Add | src/bin/06.rs:70-79 | the sum lies the one coordinate away from the other |
| GuardWalk.Delta | src/bin/06.rs:31-38 | every step moves exactly one cell along one axis |
| GuardWalk.TurnRight | src/bin/06.rs:40-47 | the new step is the old one rotated a quarter turn clockwise (rows growing downwards) |
| GuardWalk.FourTurns | src/bin/06.rs:40-47 | four right turns give back the direction, and one to three never do |
| GuardWalk.TurnAround | src/bin/06.rs:31-47 | two right turns negate the step, so stepping after them undoes a step |
| GuardWalk.TryFrom | src/bin/06.rs:53-61 | a direction is read exactly from '^', 'v', '<' and '>' |
| GuardWalk.TryFromSpec | src/bin/06.rs:53-61 | different guard characters give different directions |
| GuardWalk.FindStartingPosition | src/bin/06.rs:6-20 | a guard found has non-negative column and row |
| GuardWalk.FindStartingPositionSpec | src/bin/06.rs:6-20 | None exactly when no line holds a guard character; otherwise the first guard in reading order, with its direction |
| GuardWalk.CellOfSpec | src/bin/06.rs:125-135 | '#' is exactly the obstructed cell, a guard character is a guard with its direction, everything else is unvisited, and nothing is read as visited |
| GuardWalk.NonEmptyLines | src/bin/06.rs:104 | every kept line is non-empty |
| GuardWalk.NonEmptyLinesSpec | src/bin/06.rs:104-107 | no line is kept exactly when every line is empty |
| GuardWalk.RowCells | src/bin/06.rs:123-137 | a row has exactly `width` cells, the line's cells padded with unvisited ones |
| GuardWalk.FromInput | src/bin/06.rs:103-145 | the nested loops build the map the specification function describes |
| GuardWalk.GridCellsSpec | src/bin/06.rs:120-138 | the cells number `height * width` and are laid out row by row |
| GuardWalk.MapOfSpec | src/bin/06.rs:104-138 | a map has positive width and height, one row per non-empty line, and `height * width` cells in row-major order |
| GuardWalk.MapOfNone | src/bin/06.rs:104-107 | there is no map exactly when there are no non-empty lines |
| GuardWalk.CellIndexInGrid | src/bin/06.rs:155-172 | a coordinate on the grid has a cell index inside the cells |
| GuardWalk.NextSpec | src/bin/06.rs:162-184 | the step turns right in place before an obstruction and otherwise moves one cell ahead; it stops only when the step leaves the grid |
| GuardWalk.StatesSize | src/bin/06.rs:152-158 | a w by h box has exactly `4 * w * h` (coordinate, direction) states |
| GuardWalk.WalkMarks | src/bin/06.rs:154-185 | the walk keeps the number of cells, marks the first cell visited and unmarks nothing |
| GuardWalk.WalkFailsOnlyAtStart | src/bin/06.rs:154-185 | on a full grid the walk fails only when the first cell has no index |
| GuardWalk.PartOne | src/bin/06.rs:148-193 | the loop computes the walk's answer, and the rounds that record a new state number at most `4 * w * h` for the box holding the grid and the guard |
| GuardWalk.BoxOfGuardOnGrid | src/bin/06.rs:148-158 | for a guard on the grid that box is the grid, so the bound is `4 * width * height` rounds |
| GuardWalk.AnswerSpec | src/bin/06.rs:149-192 | None without a map or a guard, or when the guard's cell has no index; otherwise between 1 and `width * height` visited cells |
| GuardWalk.GuardOnGridAnswers | src/bin/06.rs:148-193 | a guard standing on the grid always gets an answer |

## Left out

- File reading, the `solution!` macro, the timing harness and the tests that compare
  against example files; those files are not part of this model. The example answers
  161 (day 3), 2 and 4 (day 2) therefore have no counterpart here.
- The stubs that return `None`: day 4 part two, day 5 parts one and two, day 6 part two.
- `eprintln!` warnings (04.rs:105-108, 06.rs:117): side effects only, modelled as
  doing nothing.
- Machine integers: arithmetic is unbounded. Overflow of `i32` subtraction and `abs`
  (01.rs:17, 02.rs:12-13), the `as u64` casts of negative values (01.rs:17, 37), `u64`
  sums and products (01.rs:18, 37; 03.rs:24-25, 41) and the `i32` and `isize`
  coordinate arithmetic of days 4 and 6 are not modelled. Parsing does check the
  range of its target type.
- LocationLists.PartTwo: the `as u64` of a negative left value wraps in the source;
  the model sums signed products instead.
- The regular expressions of day 3 are replaced by a hand-written scanner for the
  three fixed token shapes; `\d` is taken as the ASCII digits, so a non-ASCII digit,
  which would make the source's `parse().unwrap()` panic, simply stops a match here.
- `slice::sort` (01.rs:7-8) sorts in place; it is library code, modelled by the
  functional `Sort`, whose result is the unique ascending permutation.
- Byte versus character positions: 04.rs:156 takes the byte length of the first line
  and 06.rs:8 byte offsets; the model counts characters, which agrees for ASCII input.
  '\r' is an ordinary character (Rust's `lines` would strip it before '\n').
- GuardWalk.FindStartingPosition counts the empty lines that `from_input` drops, as
  the code does, so with blank lines before the guard the start row disagrees with the
  map; the model follows the code (a missing cell is a failure, an out-of-place start
  marks whatever cell its index names).
- Hash containers are `map` and `set` values; hashing and iteration order are not modelled.
