# Advent of Code 2024, days 1–4, in Dafny

This project models the puzzle solvers of the `aoc_24` Rust workspace, days 1 to 4 (`dayN/src/lib.rs`).
Each solver reads a text input, parses it and folds it into one number. Every day has two parts.

- **Day 1** reads lines of two whitespace-separated `i32` values, giving a left and a right column.
  - Part 1 sorts both columns and sums the distances between equal-rank entries.
  - Part 2 sums, for each left value `l`, `l` times the number of times `l` occurs in the right column. It finds that count with two `partition_point` searches, one on the sorted column and one on its reverse.
- **Day 2** reads reports, each a line of whitespace-separated `i32` levels.
  - Part 1 counts the *safe* reports: strictly increasing or strictly decreasing, and no two neighbours more than 3 apart.
  - Part 2 also counts the reports that become safe once one level is removed (the "dampener").
- **Day 3** scans corrupted memory with nom parsers.
  - Part 1 sums the products of the well-formed `mul(X,Y)` instructions. `X` and `Y` are `u32` digit runs.
  - Part 2 also obeys the `do()` and `don't()` switches.
- **Day 4** builds a character grid from the lines of the input.
  - Part 1 counts the `XMAS` words read in any of the eight directions.
  - Part 2 counts the cells that are the middle of two or more diagonal `MAS` words, that is, the centres of an X of two `MAS` words.

The modules mirror this layout:

- `Parsing` (`parsing.dfy`) holds the standard-library string behaviour the solvers rely on:
  - `char::is_whitespace`, `trim`, `split_once`, `split_whitespace`;
  - `i32::from_str` and decimal rendering.
- `Slices` (`slices.dfy`) holds `sort`, `reverse`, `partition_point` and `map`.
- `Day1` … `Day4` (`day1.dfy` … `day4.dfy`) hold the solvers.
  - The line and grid parsers (`Day1.ParseLine`, `Day2.ParseReport`, `Day4.Lines`) and the `mul(X,Y)` argument reader come with a rendering and a round trip. The day 3 instruction scanners have no inverse; they come with a reference that reads the instruction at every position of the text instead.
  - Each fold comes with an independent reference definition and a lemma equating the two. For day 2 the reference is the set of line positions whose report passes the test. For day 3 part 1 it is a scan that adds the product of every well-formed `mul(X,Y)` at every position of the text.
- Day 4 is modelled twice.
  - The solvers are first stated on a row-major grid, with `index` as evidently intended (`row * cols + col`).
  - The source's own `value_coord` reads at `row * rows + col`. `Reading(g)` lays the letters it reads out row by row. The source's `xmas` is then the row-major count on `Reading(g)`, and its `xmas_pt2` keys the middles by the written index.
  - On square or single-row text holding exactly its cells, `Reading(g)` is `g` and the two models agree. Elsewhere they may differ (see "## Findings"), though they can agree by chance.

A Rust `anyhow::Result` becomes `Result<T>`. A nom `IResult` becomes an `Option` of a `Parsed(rest, value)` pair. A panic (`unwrap` on a missing cell, a `usize` underflow, a division by zero) becomes a precondition. For the source's day 4 solvers that precondition is `ReadableAsWritten(g)`: the written index of every in-grid coordinate falls inside the data.

## Model

| member | source | states |
|---|---|---|
| Parsing.ParseI32 | day1/src/lib.rs:67-68 | `str::parse::<i32>` accepts only an optional `+` or `-` followed by one or more digits, with a value in the `i32` range; it fails on the empty string |
| Parsing.ParseSignedDigits | day1/src/lib.rs:67-68 | every optional sign followed by digits, leading zeros included, is accepted exactly when its signed value fits in an `i32`, and then gives that value |
| Parsing.ParseSignedExamples | day1/src/lib.rs:67-68 | `+5`, `007` and `-0` are accepted as 5, 7 and 0; `2147483648` is rejected |
| Parsing.ParseShow | day1/src/lib.rs:67-68 | parsing the decimal rendering of any `i32` gives the value back |
| Parsing.ParseRejectsNonDigit | day1/src/lib.rs:67-68 | a non-digit anywhere after the first character makes the parse fail |
| Parsing.Trim | day1/src/lib.rs:67-68 | `trim` yields a contiguous slice of the input with only whitespace removed on both sides, and nothing trimmable left |
| Parsing.TrimPadded | day1/src/lib.rs:67-68 | trimming whitespace padding around a trimmed, non-empty token gives the token back |
| Parsing.SplitOnceWhitespace | day1/src/lib.rs:63-65 | `split_once(char::is_whitespace)` is `None` exactly when there is no whitespace; otherwise it splits at the first whitespace character and drops it |
| Parsing.FirstWhitespace | day1/src/lib.rs:63-65 | the split position is the first whitespace character, and there is none exactly when the text has no whitespace |
| Parsing.SplitWhitespace | day2/src/lib.rs:64-65 | `split_whitespace` yields non-empty tokens without whitespace, and none exactly for blank input |
| Parsing.SplitUnwords | day2/src/lib.rs:64-65 | splitting space-joined tokens gives the tokens back |
| Parsing.SkipWhitespace | day2/src/lib.rs:64-65 | leading whitespace does not change the tokens |
| Parsing.NatDigitsValue | day3/src/lib.rs:49-51 | the decimal digits of `n` read back as `n` |
| Slices.Sort | day1/src/lib.rs:46-47 | `sort` returns a sorted permutation of its input |
| Slices.SortPermutation | day1/src/lib.rs:46-47 | sorting depends only on the multiset of the input |
| Slices.SortedUnique | day1/src/lib.rs:46-47 | two sorted sequences with the same elements are equal |
| Slices.Reverse | day1/src/lib.rs:84-85 | `reverse` puts element `i` at position `len - 1 - i` |
| Slices.PartitionPoint | day1/src/lib.rs:89-90 | on a partitioned slice, `partition_point` returns the index before which every element satisfies the predicate and from which none does |
| Slices.Map | day2/src/lib.rs:64-67 | `map(..).collect()` keeps the length and applies the function pointwise |
| Slices.MapPermutation | day1/src/lib.rs:40-44 | mapping permuted input gives a permuted output |
| Day1.ParseLine | day1/src/lib.rs:59-72 | `Line::from_str` fails with the "Bad line" error exactly when the line has no whitespace; otherwise it succeeds iff both trimmed halves parse as `i32`, holds their values, and fails with the left half's error first |
| Day1.BadHalfFailsLine | day1/src/lib.rs:63-68 | a half that is not an `i32` after trimming fails the line, and a bad left half gives its own error |
| Day1.ParseLineRoundTrip | day1/src/lib.rs:59-72 | a line written as `a`, whitespace, `b` parses to `(a, b)` |
| Day1.LeadingWhitespaceFails | day1/src/lib.rs:63-67 | a line that starts with whitespace splits off an empty first field, and parsing that field fails |
| Day1.ParseColumns | day1/src/lib.rs:40-44 | reading the lines succeeds iff every line parses; on success entry `i` of each column comes from line `i` |
| Day1.ParseColumnsFirstFailure | day1/src/lib.rs:40-44 | when reading fails, the error is that of the first line that does not parse |
| Day1.Part1 | day1/src/lib.rs:36-55 | part 1 succeeds iff every line parses, and then the total distance is not negative |
| Day1.Part1IsRankDistance | day1/src/lib.rs:46-52 | part 1 is the sum of the distances between the `k`-th smallest left value and the `k`-th smallest right value |
| Day1.Part1LineOrder | day1/src/lib.rs:36-55 | reordering the input lines changes neither success nor the result |
| Day1.TotalDistanceSymmetric | day1/src/lib.rs:49-52 | swapping the two columns does not change the total distance |
| Day1.TotalDistancePermutation | day1/src/lib.rs:46-52 | the total distance depends only on the multisets of the two columns |
| Day1.TotalDistanceZero | day1/src/lib.rs:46-52 | for columns of equal length, the total distance is 0 iff the columns hold the same multiset |
| Day1.OccurrencesBetween | day1/src/lib.rs:89-94 | on a sorted column, the run between the two partition points is exactly the occurrences of `l`, and there are none when the points cross |
| Day1.Contribution | day1/src/lib.rs:88-98 | one step of the part 2 fold adds `l` times the number of occurrences of `l` in the right column |
| Day1.Part2 | day1/src/lib.rs:74-102 | part 2 succeeds iff every line parses |
| Day1.SimilarityScoreCounts | day1/src/lib.rs:83-99 | the `partition_point` computation equals the sum over left values of the value times its count in the right column |
| Day1.Part2IsWeightedOccurrences | day1/src/lib.rs:74-102 | part 2 is that weighted-occurrence sum over the parsed columns |
| Day1.AbsentValueAddsNothing | day1/src/lib.rs:93-97 | a left value missing from the right column contributes nothing |
| Day2.ParseTokens | day2/src/lib.rs:64-67 | collecting the token parses succeeds iff every token is an `i32`, keeping order and count; a failure is the error of the first token that is not an `i32` |
| Day2.ParseReport | day2/src/lib.rs:63-70 | a parsed report has one level per token, and a blank line is the empty report |
| Day2.ParseReportRoundTrip | day2/src/lib.rs:63-70 | a report written as space-separated decimals parses back to itself |
| Day2.BadTokenFailsReport | day2/src/lib.rs:64-67 | one bad token makes the whole line fail |
| Day2.AscendingIff | day2/src/lib.rs:74-76 | `is_sorted_by(b > a)` holds iff every level is below the next one |
| Day2.DescendingIff | day2/src/lib.rs:78-80 | `is_sorted_by(b < a)` holds iff every level is above the next one |
| Day2.MaxStepFoldBounds | day2/src/lib.rs:82-86 | the `windows(2)` fold never goes below its start value and bounds every neighbour distance; it is either the start value or one of those distances |
| Day2.MaxStepIsMaximum | day2/src/lib.rs:82-86 | `max_step` is 0 for fewer than two levels, otherwise the largest distance between neighbours |
| Day2.SafeIff | day2/src/lib.rs:50 | a report is safe iff every step rises by 1 to 3, or every step falls by 1 to 3 |
| Day2.Remove | day2/src/lib.rs:108-109 | `Vec::remove(n)` keeps the levels before `n` and shifts the ones after it down by one |
| Day2.DampenedFrom | day2/src/lib.rs:107-122 | the dampening loop from `n` on finds a safe one-level removal iff one exists at some index at or after `n` |
| Day2.TolerableIff | day2/src/lib.rs:103-122 | part 2 accepts a report iff it is safe, or safe after removing one of its levels |
| Day2.CollectReports | day2/src/lib.rs:39-41 | the loop's `?` succeeds iff every line parsed, keeping every report in order |
| Day2.CountAccepted | day2/src/lib.rs:50-52 | no more reports are counted than there are |
| Day2.CountAcceptedIsPositions | day2/src/lib.rs:50-52 | `filter(..).count()` is the number of positions whose report passes the test |
| Day2.TallyCountsLines | day2/src/lib.rs:36-56 | when every line parses, the count is the number of lines whose report passes the test |
| Day2.TallyParsed | day2/src/lib.rs:36-56 | the count succeeds iff every line parsed, and is at most the number of lines |
| Day2.Part1 | day2/src/lib.rs:36-56 | part 1 succeeds iff every line parses as a report, and then is the number of lines whose report is safe |
| Day2.Part2 | day2/src/lib.rs:89-127 | part 2 succeeds iff every line parses as a report, and then is the number of lines whose report is tolerable |
| Day2.PartsFailTogether | day2/src/lib.rs:89-93 | both parts fail on the same inputs: exactly those with a line that does not parse |
| Day2.Part1AtMostPart2 | day2/src/lib.rs:89-127 | the dampener only adds reports: part 1 ≤ part 2 ≤ number of lines |
| Day2.CountAcceptedMonotone | day2/src/lib.rs:103-104 | a weaker acceptance test counts at least as many reports |
| Day2.TallyConcat | day2/src/lib.rs:36-56 | the count over two chunks of lines is the sum of the counts over each |
| Day2.SingleLine | day2/src/lib.rs:89-127 | a single line counts 1 in part 1 iff it is safe, and 1 in part 2 iff it is safe after at most one removal |
| Day2.ExampleDampened | day2/src/lib.rs:103-122 | `1 3 2 4 5` is not safe, but it becomes safe once `3` is removed |
| Day3.Tag | day3/src/lib.rs:46 | `tag` succeeds iff the input starts with the tag, and then returns the rest |
| Day3.TakeU32 | day3/src/lib.rs:49 | nom's `u32` consumes a non-empty maximal run of digits whose value is below 2^32, and fails exactly when no digit comes first or the run is worth 2^32 or more |
| Day3.TakeU32Digits | day3/src/lib.rs:49 | any digit run worth less than 2^32, leading zeros included, is read with its value up to the next non-digit |
| Day3.TakeU32Show | day3/src/lib.rs:49 | any `u32` written in decimal is read back, up to the next non-digit |
| Day3.TakeU32Overflow | day3/src/lib.rs:49 | a digit run worth 2^32 or more is rejected |
| Day3.MulArgs | day3/src/lib.rs:48-53 | the argument tuple consumes at least `0,0)`, leaves a suffix, and holds two `u32` values |
| Day3.MulArgsShow | day3/src/lib.rs:48-54 | `X,Y)` followed by anything parses to `Mul(X, Y)` and leaves the rest |
| Day3.MulArgsDigits | day3/src/lib.rs:48-54 | any two digit runs below 2^32, leading zeros included, written `X,Y)` parse to their values and leave the rest |
| Day3.MulArgsLeadingZero | day3/src/lib.rs:48-54 | `07,3)` is read as `Mul(7, 3)` |
| Day3.MulArgsNeedDigit | day3/src/lib.rs:48-53 | without a leading digit the tuple fails |
| Day3.MulTail | day3/src/lib.rs:48-54 | `opt` yields `None` and leaves the input untouched exactly when the tuple fails |
| Day3.FindMul | day3/src/lib.rs:43 | `take_until("mul(")` stops at the first occurrence of `mul(` and fails iff there is none |
| Day3.ParseMul | day3/src/lib.rs:42-55 | `parse_mul` fails iff the input holds no `mul(`; otherwise it always consumes at least `mul(` |
| Day3.ParseMulWellFormed | day3/src/lib.rs:42-55 | noise, then `mul(X,Y)`, parses to `Mul(X, Y)` and leaves what follows |
| Day3.ParseMulMalformed | day3/src/lib.rs:45-54 | a malformed argument list yields `None` and resumes right after `mul(` |
| Day3.ParseMulSkip | day3/src/lib.rs:43 | a leading character that does not start `mul(` does not change the result |
| Day3.ParseInst | day3/src/lib.rs:93-117 | `parse_inst` fails only on empty input and always makes progress; it yields `Do` iff the input starts with `do()` and `Dont` iff it starts with `don't()`, consuming the tag; after `mul(` it yields the `Mul` of well-formed arguments and consumes them, or yields nothing and leaves the text right after `mul(`; when no tag matches it skips exactly one character and yields nothing |
| Day3.ParseInstAgreesOnMul | day3/src/lib.rs:102-113 | on input starting with `mul(`, `parse_inst` and `parse_mul` agree on the rest and on the instruction |
| Day3.Somes | day3/src/lib.rs:62 | `filter_map` keeps exactly the present values, and no more of them than there are entries |
| Day3.SomesCount | day3/src/lib.rs:62 | `filter_map` keeps every present value as many times as it occurs |
| Day3.MulsOf | day3/src/lib.rs:81 | the multiplications of an instruction list are exactly its `Mul` entries |
| Day3.MulsOfCount | day3/src/lib.rs:81 | every `Mul` payload is kept as many times as it occurs among the instructions |
| Day3.MulsOfConcat | day3/src/lib.rs:76-82 | the `Mul`s of two instruction lists in a row are those of the first followed by those of the second |
| Day3.ManyMul | day3/src/lib.rs:58 | `many0(parse_mul)` finds no instruction exactly when no `mul(` is left, and each round consumes at least four characters |
| Day3.ManyInst | day3/src/lib.rs:70 | `many0(parse_inst)` finds no instruction exactly on empty input, and each round consumes at least one character |
| Day3.ManyInstScan | day3/src/lib.rs:69-73 | the instructions `many0(parse_inst)` collects are, in order, those whose tag starts at each position of the text: every `do()`, every `don't()` and every well-formed `mul(X,Y)` |
| Day3.ScanInstsRound | day3/src/lib.rs:93-117 | one round of `parse_inst` reads the instruction at the head and consumes nothing where another tag starts |
| Day3.ParseInstIsInstAt | day3/src/lib.rs:93-117 | `parse_inst` yields the instruction whose tag starts the text, and nothing on noise or a malformed `mul(` |
| Day3.ParseInstConsumesNoTagHead | day3/src/lib.rs:93-117 | after its first character, what `parse_inst` consumes holds no `m` or `d`, so no tag starts inside it |
| Day3.Part1 | day3/src/lib.rs:57-67 | part 1 is the sum of the products of every well-formed `mul(X,Y)` in the text, wherever it starts |
| Day3.ManyMulScan | day3/src/lib.rs:57-67 | the products collected by `many0(parse_mul)` sum to the reference scan over every position |
| Day3.ScanProductsRound | day3/src/lib.rs:42-55 | one round of `parse_mul` accounts for the reference scan up to where it stops: the skipped noise adds nothing, the `mul(` adds its product if well formed |
| Day3.ScanProductsNoise | day3/src/lib.rs:43 | the noise that `take_until` skips holds no `mul(` and adds nothing |
| Day3.ScanProductsAtMul | day3/src/lib.rs:46-54 | at a `mul(` the scan adds the product of its arguments, or nothing when they are malformed, and resumes where `parse_mul` stops |
| Day3.MulArgsHaveNoTagHead | day3/src/lib.rs:48-53 | well-formed arguments are digits, `,` and `)`, so they hold no `m` or `d` and start no other tag |
| Day3.Part2 | day3/src/lib.rs:69-84 | part 2 is the sum of the products of the `Mul` instructions enabled by the switches before them, taken over the reference scan of every position of the text |
| Day3.NoMulNoProducts | day3/src/lib.rs:57-67 | input without `mul(` yields no instructions and sums to 0 |
| Day3.Part1WellFormed | day3/src/lib.rs:57-67 | part 1 of noise, `mul(X,Y)` and a tail is `X*Y` plus part 1 of the tail |
| Day3.Part1Malformed | day3/src/lib.rs:57-67 | a malformed `mul(` adds nothing, and scanning resumes right after it |
| Day3.ManyMulSkip | day3/src/lib.rs:58 | characters that do not start `mul(` are skipped without effect |
| Day3.SameMuls | day3/src/lib.rs:58-73 | the `Mul` instructions seen by part 2's parser are exactly those part 1's parser finds |
| Day3.RunIsEnabledProducts | day3/src/lib.rs:76-83 | the switch fold sums exactly the products of the `Mul`s that follow no `don't()`, or whose latest switch is `do()` |
| Day3.RunAtMostAll | day3/src/lib.rs:76-83 | the switch fold adds at most the sum of all products, and exactly that when it starts on and meets no `don't()` |
| Day3.DontNeedsTag | day3/src/lib.rs:94-101 | a `Dont` instruction can only come from a `don't()` in the text |
| Day3.DontTagGivesDont | day3/src/lib.rs:94-101 | every `don't()` in the text, after any noise, is read as a `Dont` |
| Day3.Part2DontExample | day3/src/lib.rs:69-84 | on `xdon't()mul(2,3)` the `don't()` after noise is found, so part 1 is 6 and part 2 is 0 |
| Day3.Part2AtMostPart1 | day3/src/lib.rs:69-84 | part 2 ≤ part 1, with equality when the input contains no `don't()` |
| Day3.ParseMulWholeExample | day3/src/lib.rs:124-128 | `mul(764,406)` parses to `Mul(764, 406)` with nothing left |
| Day3.ParseMulNoiseExample | day3/src/lib.rs:130-132 | `asadmul(764,406)asdas` parses to `Mul(764, 406)`, leaving `asdas` |
| Day3.ParseMulBadExample | day3/src/lib.rs:134-139 | `mul(BAD,123)…` yields `None` after `mul(`, and the next parse finds `Mul(764, 406)` |
| Day3.ParseInstMulExample | day3/src/lib.rs:144-147 | `parse_inst` reads `mul(764,406)` completely |
| Day3.ParseInstDoExample | day3/src/lib.rs:149-151 | `parse_inst` reads `do()` and leaves the rest |
| Day4.Lines | day4/src/lib.rs:53 | `str::lines` yields lines without `\n`, and none exactly for empty text |
| Day4.LinesUnlines | day4/src/lib.rs:53 | lines joined by `\n` split back into the same lines |
| Day4.LinesConsCrlf | day4/src/lib.rs:53 | a `\r\n` ending is removed as a whole |
| Day4.FromStr | day4/src/lib.rs:49-60 | the grid has one row per line, as many columns as the last line is long, and all letters of all lines in order; empty text gives the empty grid |
| Day4.FromStrRagged | day4/src/lib.rs:49-60 | ragged text `abc\nd` keeps all four letters but is one column wide, so the grid has only two cells |
| Day4.FromStrRectangle | day4/src/lib.rs:49-60 | for lines of equal width `w`, the grid is `|lines|` by `w` and its data holds exactly its cells |
| Day4.FromStrExample | day4/src/lib.rs:49-60 | `abc\ndef` becomes a grid of 3 columns and 2 rows holding `abcdef` |
| Day4.CoordOf | day4/src/lib.rs:68-73 | `coord` inverts the row-major index, keeps the column below the width, and maps cell numbers into the grid |
| Day4.Index | day4/src/lib.rs:68-82 | the intended index is undone by `coord`: dividing and taking the remainder by `cols` give back the row and the column |
| Day4.IndexAsWritten | day4/src/lib.rs:80-82 | `index` as written equals the row-major index iff the coordinate is on the first row or the grid is square |
| Day4.IndexInGrid | day4/src/lib.rs:80-82 | the row-major index of an in-grid coordinate is a cell number, and `coord` maps it back |
| Day4.IndexAsWrittenMisreads | day4/src/lib.rs:80-82 | on the 3-column, 2-row grid `abcdef`, `index` as written reads cell 3 (`d`) at position 2 (`c`) |
| Day4.IndexAsWrittenOverruns | day4/src/lib.rs:80-86 | the text `ab\ncd\nef` holds all its cells, yet `index` as written sends coordinate (2, 1) to 7, past the six letters, so `value_coord` panics on it |
| Day4.ValueAtRectangle | day4/src/lib.rs:84-86 | `value_coord` at `(r, c)` of a rectangular text is character `c` of line `r` |
| Day4.ValueCoord | day4/src/lib.rs:84-86 | `value_coord` as written reads the data at the written index, which must fall inside the data; on square grids holding their cells it is the row-major letter |
| Day4.Reading | day4/src/lib.rs:84-86 | the letters `value_coord` reads form a grid of the same shape that holds exactly its cells |
| Day4.ReadingValue | day4/src/lib.rs:84-86 | at every in-grid coordinate, that grid's row-major letter is what `value_coord` reads |
| Day4.ReadingSquare | day4/src/lib.rs:80-86 | on square or single-row text holding exactly its cells, `value_coord` never panics and reads the grid unchanged |
| Day4.CoordExample | day4/src/lib.rs:340 | on a 10-column grid, cell 67 is row 6, column 7 |
| Day4.Move | day4/src/lib.rs:203-286 | `_move` offsets the coordinate by the direction's step, and from an in-grid cell it succeeds exactly when the target is still inside the grid |
| Day4.FourLetterWord | day4/src/lib.rs:107-125 | a word exists iff three steps stay inside the grid; it is the four letters along the way and starts with the cell's letter |
| Day4.WordsAlong | day4/src/lib.rs:127-140 | at most one word per listed direction, each four letters long and starting with the cell's letter |
| Day4.WordsAlongMembers | day4/src/lib.rs:127-140 | the flattened list holds a word iff one of the listed directions reads it |
| Day4.FourLetterWords | day4/src/lib.rs:127-140 | at most eight words, each four letters long and starting with the cell's letter |
| Day4.FourLetterWordsMembers | day4/src/lib.rs:127-140 | a word is listed iff some direction reads it from the cell |
| Day4.CountWordsAlong | day4/src/lib.rs:92-94 | among the words of distinct directions, a word occurs as often as there are directions that read it |
| Day4.XmasAtDirections | day4/src/lib.rs:92-94 | a cell adds to part 1 the number of directions in which `XMAS` reads from it |
| Day4.TopLeftWords | day4/src/lib.rs:336 | at cell 0 of a grid of at least 4 by 4, the words are those read right, down-right and down, in that order |
| Day4.NothingAboveFirstRow | day4/src/lib.rs:334 | no word reads upward from the first row |
| Day4.XmasAtBound | day4/src/lib.rs:92-94 | a cell yields at most eight `XMAS` words, and none unless it holds `X` |
| Day4.Xmas | day4/src/lib.rs:88-104 | the row-major part 1 count is at most eight times the number of `X` cells |
| Day4.MatchMiddle | day4/src/lib.rs:176-201 | a middle is returned iff two steps stay inside and the three letters are the target; it is one step from the start and holds the target's middle letter |
| Day4.MatchMiddleIff | day4/src/lib.rs:176-201 | cell `i` yields middle `m` along `d` iff `M`, `A`, `S` read along `d` with the `A` at `m` and the `M` at cell `i` |
| Day4.MiddlesAlong | day4/src/lib.rs:164-174 | at most one middle per listed direction, each an `A` inside the grid |
| Day4.MasMiddles | day4/src/lib.rs:164-174 | at most four middles per cell, each an `A` inside the grid |
| Day4.MasMiddlesCount | day4/src/lib.rs:164-174 | a cell yields middle `m` once for each diagonal along which its `MAS` has middle `m` |
| Day4.AllMiddlesCount | day4/src/lib.rs:143-149 | over the first `n` cells, a coordinate is collected once per diagonal `MAS` through it that starts at one of those cells |
| Day4.MasOneWay | day4/src/lib.rs:164-174 | `MAS` cannot read both ways along one diagonal through the same middle |
| Day4.MiddleRepeatedIff | day4/src/lib.rs:142-161 | a coordinate is collected more than once iff both diagonals through it read `MAS`, each in either direction |
| Day4.MiddleIndexes | day4/src/lib.rs:143-150 | every collected middle index is a cell holding `A` |
| Day4.IndexesCount | day4/src/lib.rs:150 | counting in-grid middles by cell number counts them by coordinate |
| Day4.Repeated | day4/src/lib.rs:154-161 | the counted keys are exactly those seen more than once |
| Day4.XmasPt2Crossings | day4/src/lib.rs:142-162 | part 2 counts exactly the cells at the centre of two diagonal `MAS` words crossing in an X |
| Day4.XmasPt2 | day4/src/lib.rs:142-162 | the row-major part 2 count is the number of X-MAS centres, and at most the number of `A` cells |
| Day4.RepeatedAs | day4/src/lib.rs:154-161 | keys that all lie in a set are counted at most as often as the set is large |
| Day4.FourLetterWordAsWritten | day4/src/lib.rs:107-125 | as written, a word exists iff three steps stay inside the grid, and it is the four letters `value_coord` reads along the way |
| Day4.MatchMiddleAsWritten | day4/src/lib.rs:176-201 | as written, a middle is returned iff two steps stay inside and the three letters `value_coord` reads are the target; it is one step from the start |
| Day4.XmasAsWritten | day4/src/lib.rs:88-104 | `xmas` as written is at most eight times the number of `X` letters it reads, and on square text holding its cells it is the row-major count |
| Day4.XmasAtAsWritten | day4/src/lib.rs:88-125 | as written, a cell adds the number of directions in which `value_coord` reads `XMAS` from it |
| Day4.MiddleKeys | day4/src/lib.rs:150-151 | every key of the written index map is a position of the data holding `A`; on square text holding its cells the keys are the cell numbers of the middles |
| Day4.XmasPt2AsWritten | day4/src/lib.rs:142-162 | `xmas_pt2` as written counts at most as many keys as there are `A`s, and on square text holding its cells it counts the X-MAS centres |
| Day4.XmasAsWrittenDiverges | day4/src/lib.rs:80-104 | on `zzzz\nXMAS` the source does not panic but counts no `XMAS`, while the row-major count finds one |

## Left out

- Parsing.ParseI32: a failure is `BadInteger(s)` and carries the rejected text. The source's `ParseIntError` holds only the kind of error (empty, invalid digit, overflow), and the model does not tell these kinds apart.
- The `run` entry points: file reading, printing to stdout and the WASI export. The `io::Result` error of each line is not modelled: the solvers take the lines or the text as a value.
- Integer overflow: sums and products are unbounded. The `i32` fold of day 1 and 2 and the `u32` products of day 3 would wrap or panic on huge inputs. The range of each parsed value is checked, as `i32::from_str` and nom's `u32` check it.
- Non-ASCII text: `char::is_whitespace` is modelled by its six ASCII members only, and `line.len()` in day 4 counts characters, which equals the byte count only on ASCII input.
- Panics become preconditions:
  - `unwrap` on a missing grid cell becomes `Covered(g)`, meaning the data holds `rows * cols` cells, for the row-major model, and `ReadableAsWritten(g)` for the source's own day 4 solvers;
  - the `usize` underflow of `cols - 1` and `rows - 1` in `_move` becomes `Steppable`;
  - the division by zero in `coord` becomes `cols > 0`.
- Day4.FourLetterWord: stated on a row-major grid with `Covered(g)`. The source runs it on the letters `value_coord` reads, which is `Reading(g)` (Day4.ReadingValue, Day4.FourLetterWordAsWritten). The two agree on square or single-row text holding its cells (Day4.ReadingSquare), and may differ elsewhere.
- Day4.MatchMiddle: stated on a row-major grid, like FourLetterWord; the source's version is Day4.MatchMiddleAsWritten.
- Day4.ValueAtRectangle: stated for the intended row-major `ValueAt`. `value_coord` as written (Day4.ValueCoord) gives the same letter on square or single-row text (Day4.IndexAsWritten, Day4.ReadingSquare), and may give another elsewhere.
- Day4.WordsAlong: stated on a row-major grid, like FourLetterWord. Its contents are given by Day4.WordsAlongMembers and Day4.CountWordsAlong.
- Day4.FourLetterWords: stated on a row-major grid, like FourLetterWord.
- Day4.XmasAtBound: stated on a row-major grid, like FourLetterWord.
- Day4.MiddlesAlong: stated on a row-major grid, like MatchMiddle. Its contents are given by Day4.MasMiddlesCount.
- Day4.MasMiddles: stated on a row-major grid, like MatchMiddle.
- Day4.MiddleIndexes: keys the middles by the intended index. The source keys them by the written index (Day4.MiddleKeys), and the two agree on square text holding its cells.
- Day4.IndexesCount: stated for the intended index, under which distinct in-grid middles have distinct keys.
- Day4.XmasPt2Crossings: stated on a row-major grid with the intended index.
- Day4.XmasPt2AsWritten: on non-square text the written index can give two different middles the same key, and the count is then only bounded, not characterised.
- Day4.Xmas: the count with the intended index, for grids whose data holds all their cells. Its bound of eight words per `X` cell is not the source's on non-square text. The source's own count is Day4.XmasAsWritten, which takes the source's condition `ReadableAsWritten(g)` and agrees with Day4.Xmas on square text.
- Day4.XmasPt2: the count with the intended index, for grids whose data holds all their cells. The source's own count is Day4.XmasPt2AsWritten, which takes `ReadableAsWritten(g)` and agrees with Day4.XmasPt2 on square text.
- The `sort` in `xmas_pt2` and the `HashMap` become a multiset. The order of the keys does not change the count.
- The day 4 test's expected totals (18 and 9) depend on the input file `dat/demo.txt`, which is not part of this model. The same goes for the `test_parse_file` test of day 3 and the puzzle inputs.
- Day3.Part1 and Day3.Part2 return a number rather than a `Result`. `many0` over these parsers never fails, because each either fails without consuming (ending the loop) or consumes input, so the `Parse error` branch cannot be reached.
- nom's internal error values are not modelled; only success and failure are.
- A final line without `\n` keeps a trailing `\r`, as `str::lines` does; `Day4.LinesUnlines` is stated for lines without `\r` endings.

## Findings

| source | as written | input that shows it | evidently intended | confidence | as-written member | corrected member |
|---|---|---|---|---|---|---|
| day4/src/lib.rs:80-82 | `index` computes `row * rows + col` | on `zzzz\nXMAS` (4 columns, 2 rows) `value_coord` reads row 1 from positions 2 to 5, so `xmas` finds no `XMAS`; on `ab\ncd\nef` the in-grid coordinate (2, 1) gives 7, past the 6 cells, and `value_coord` panics | `row * cols + col`, the inverse of `coord` | high; the puzzle grids are square, where both agree (not executed) | Day4.XmasAsWrittenDiverges | Day4.Xmas |
