# 1brc aggregation pipeline in Dafny

This project models the one program of the repository, `src/main.rs`. It
reads lines of the form `<station>;<temperature>` and builds, per station,
the minimum, maximum, sum and count of the readings. Worker threads each
fold their share of the lines into a local hash map. The maps are then
merged pairwise. The result is printed as
`{name=min/mean/max, ...}` in ascending name order.

Modules, one per component of the program:

- `StationStats` (`station_stats.dfy`): the `StationData` record with `new`,
  `update` and `aggregate`. The record is a Rust value owned by its map
  entry, so each `&mut self` mutation is a function returning the new value.
  `Summary` is an independent reference definition: the min, max, exact sum
  and count of a sequence of readings.
- `Records` (`records.dfy`): `split_once` with its first-delimiter search.
- `Temperature` (`temperature.dfy`): `parse_temperature` as a loop over the
  token's characters. It is proved against `Reading`: the number spelled by
  the token's digits, negated when the token holds a `-`.
- `Tables` (`tables.dfy`): `process_line`, one worker's fold, the reduce
  closure (`MergeInto`), and the algebra behind the parallel fold/reduce. The
  empty map is an identity, merge is commutative and associative, and
  folding `l1 ++ l2` equals merging the folds of `l1` and `l2`. For any
  binary split of the input into contiguous pieces, the reduced result is the
  one-pass table. Each station's record is the `Summary` of its readings.
  The fold laws are stated over the `Measurement`s (station, reading) that
  `ParseLine` takes from each line, which is all of a line the table sees.
- `Output` (`output.dfy`): collecting the entries, sorting them by name, and
  writing the braces-enclosed, comma-separated line.
- `Overflow` (`overflow.dfy`): the record with the source's `i8` field
  widths. It is used only for the finding below.

Readings are tenths of a degree and have the type `I8` (-128..127), as in
the source. `min_temp` and `max_temp` are also `I8`. `total_temp` and
`count` are unbounded integers (see Findings). Strings are `seq<char>`. The
source splits on the byte `;` and inspects the bytes of the value token. In
UTF-8 text, `;`, `-`, `.` and the digits never occur inside the encoding of
another character. Working on characters therefore gives the same results.
Rust compares `String`s byte-lexicographically. On UTF-8 text this is the
code-point order that `Output.LexLess` uses.

Three behaviours of `src/main.rs` that the model keeps:

- A token with no digits parses to 0; it is not an error
  (src/main.rs:138, 156-160).
- A `-` anywhere in the token makes the reading negative, not only a
  leading one (src/main.rs:144).
- Lines are distributed by the parallel-iterator library, with no byte-range
  partitioner (src/main.rs:56-62). The model therefore proves the result for
  every contiguous split of the lines and every merge tree over the pieces
  (`Tables.ReduceTreeIsFold`).

## Model

| member | source | states |
|---|---|---|
| `StationStats.StationData.New` | src/main.rs:20-27 | total and count start at 0, and the extremes are sentinels that every reading replaces: the minimum of the sentinel and any `i8` reading is that reading, and so is the maximum |
| `StationStats.StationData.Update` | src/main.rs:30-35 | afterwards min <= t <= max; the new min is the old min or t and no larger, the new max is the old max or t and no smaller; the total grows by exactly t and the count by exactly 1 |
| `StationStats.StationData.Aggregate` | src/main.rs:38-43 | the result's min/max are the smaller/larger of the two records' min/max, and total and count are the sums |
| `StationStats.FirstReading` | src/main.rs:116-119 | the insert branch: `new()` then `update(t)` gives min == max == total == t and count == 1 |
| `StationStats.AggregateIdentity` | src/main.rs:20-27 | `new()` is a left and right identity of `aggregate` |
| `StationStats.AggregateCommutative` | src/main.rs:38-43 | `aggregate` is commutative on all four fields |
| `StationStats.AggregateAssociative` | src/main.rs:38-43 | `aggregate` is associative on all four fields |
| `StationStats.UpdateIsAggregate` | src/main.rs:30-43 | `update(t)` equals `aggregate` with the single-reading record (t, t, t, 1) |
| `StationStats.SummaryBounds` | src/main.rs:30-35 | the min and max of a non-empty reading sequence are readings of it and bound every reading; min*count <= sum <= max*count, so the mean lies between them |
| `StationStats.SummarySnoc` | src/main.rs:30-35 | updating with a reading the summary of some readings (or `new()` when there are none) gives the summary of those readings plus it |
| `StationStats.SummaryConcat` | src/main.rs:38-43 | aggregating the summaries of two non-empty reading sequences gives the summary of their concatenation |
| `Records.Position` | src/main.rs:128 | the index found holds the delimiter and no earlier index does; no index is found exactly when the delimiter does not occur |
| `Records.PositionOfFirst` | src/main.rs:128 | the search returns the first index holding the delimiter |
| `Records.SplitOnce` | src/main.rs:126-133 | if the delimiter occurs, the key has no delimiter and key + delimiter + rest is the input; otherwise the result is (input, "") |
| `Records.SplitOnceJoin` | src/main.rs:126-133 | splitting key + delimiter + token, for a delimiter-free key, gives back (key, token) |
| `Temperature.MagnitudeStep` | src/main.rs:146-147 | one more character multiplies the accumulated value by ten and adds the digit, or leaves it unchanged if it is not a digit |
| `Temperature.MagnitudePrefix` | src/main.rs:142-154 | the value accumulated over a prefix never exceeds the whole token's, so the `i8` accumulator holds every intermediate value once the final one fits |
| `Temperature.ParseTemperature` | src/main.rs:136-161 | the result is the number spelled by the digits in order (the `.` and other characters skipped), negated iff a `-` occurs; it is negative iff a `-` occurs and the digits spell a non-zero number; a token with no digits gives 0 |
| `Temperature.ReadingExamples` | src/main.rs:136-161 | `-3.5` reads as -35 tenths, `12.0` as 120, and the empty token as 0 |
| `Tables.Merge` | src/main.rs:62-69 | the merged key set is the union of both tables' key sets |
| `Tables.Step` | src/main.rs:114-120 | the upsert of one parsed line: the key set gains the line's station; every other station keeps its record; the station's count grows by one from its old count (0 if absent) and its extremes enclose the reading; tables whose records all have count >= 1 and min <= max stay so |
| `Tables.Fold` | src/main.rs:58-61 | the key set after folding is the starting table's keys plus every station named by a measurement; well-formed records (count >= 1, min <= max) stay well formed |
| `Tables.ProcessLine` | src/main.rs:110-123 | afterwards the line's station is present; its record is the old record updated with the parsed reading, or `new()` updated with it if the station was absent; every other station and its record is unchanged |
| `Tables.FoldLines` | src/main.rs:56-61 | one worker's fold of `process_line` from an empty table equals the sequential fold `Fold` over the stations and readings parsed from its lines |
| `Tables.MergeInto` | src/main.rs:62-69 | the reduce closure's result has both tables' keys; shared keys get `aggregate` of both records; keys present in only one table keep their record |
| `Tables.MergeOneMore` | src/main.rs:63-67 | moving one more entry of `h` into `acc` aggregates it with an existing record or inserts it |
| `Tables.MergeIdentity` | src/main.rs:62 | the empty map (`HashMap::new`, the reduce identity) is a left and right identity of the merge |
| `Tables.MergeCommutative` | src/main.rs:62-69 | the merge is commutative |
| `Tables.MergeAssociative` | src/main.rs:62-69 | the merge is associative |
| `Tables.StepIsMerge` | src/main.rs:110-123 | processing a line equals merging in the table of that line alone |
| `Tables.FoldSnoc` | src/main.rs:58-61 | folding one more parsed line at the end is one more table step of `process_line` |
| `Tables.FoldConcat` | src/main.rs:56-61 | folding `l1 ++ l2` is folding `l2` onto the fold of `l1` |
| `Tables.FoldIsMerge` | src/main.rs:56-69 | folding from any table equals merging that table with the fold from the empty table |
| `Tables.SplitMerge` | src/main.rs:56-69 | the fold of `l1 ++ l2` equals the merge of the folds of `l1` and `l2` |
| `Tables.FoldIsSummary` | src/main.rs:110-123 | a station is in the folded table exactly when some line names it, and its record is the min, max, exact sum and count of that station's readings in order |
| `Tables.TableInvariant` | src/main.rs:110-123 | every record of a folded table has count >= 1, min <= max and min*count <= total <= max*count |
| `Tables.LineParts` | src/main.rs:111 | a line `key;token` with a delimiter-free key yields that key and that token |
| `Tables.TwoReadingsExample` | src/main.rs:110-123 | the lines `X;-3.5` and `X;12.0` give the one-station table whose record is min -35, max 120, total 85, count 2 |
| `Tables.ExampleParse` | src/main.rs:110-112 | the lines `X;-3.5` and `X;12.0` parse to the station `X` with readings -35 and 120 |
| `Tables.ExampleFold` | src/main.rs:114-120 | the readings -35 then 120 of station `X` give the record (-35, 120, 85, 2) |
| `Tables.ParseLinesConcat` | src/main.rs:110-112 | the parsed stations and readings of `l1 ++ l2` are those of `l1` followed by those of `l2` |
| `Tables.ReduceTree` | src/main.rs:56-69 | every record of a table reduced along a merge tree has count >= 1 and min <= max |
| `Tables.ReduceTreeIsFold` | src/main.rs:56-69 | however the lines are split into contiguous pieces and the partial tables are merged along a binary tree, the result is the one-pass fold of all lines |
| `Tables.AggregateParts` | src/main.rs:56-69 | folding each piece from an empty table and merging each result into an accumulator started empty gives the one-pass fold of the concatenated pieces |
| `Output.LexLess` | src/main.rs:91 | `String::cmp`'s strict order: a proper prefix is ordered before the longer name, and a name is never ordered before its own prefix |
| `Output.LexIrreflexive` | src/main.rs:91 | no name is ordered before itself |
| `Output.LexTransitive` | src/main.rs:91 | the name order is transitive |
| `Output.LexTotal` | src/main.rs:91 | of two different names, one is ordered before the other |
| `Output.LexAsymmetric` | src/main.rs:91 | two names are never each ordered before the other |
| `Output.Insert` | src/main.rs:91 | inserting an entry adds exactly that entry, as a multiset |
| `Output.InsertSorted` | src/main.rs:91 | inserting an entry with a new name into a strictly sorted vector keeps it strictly sorted |
| `Output.Sort` | src/main.rs:91 | `sort_unstable_by` returns a permutation (as a multiset) of the collected entries |
| `Output.SortSorted` | src/main.rs:91 | with distinct names the sorted entries are in strictly ascending name order |
| `Output.SortedPermutation` | src/main.rs:91 | the sorted vector holds exactly the collected entries, in strictly ascending order |
| `Output.SortedUnique` | src/main.rs:91 | two strictly sorted entry vectors with the same elements are equal, so the output does not depend on the hash map's iteration order |
| `Output.Joined` | src/main.rs:92-95 | the entry text is empty exactly when there are no entries, and otherwise starts with the first entry's name followed by `=` |
| `Output.JoinedSnoc` | src/main.rs:92-94 | one more entry appends `", "` (except before the first entry), its name, `=` and its numbers |
| `Output.Collect` | src/main.rs:72-86 | one entry per station of the table, names distinct, each paired with the rendering of its record |
| `Output.Write` | src/main.rs:89-97 | the written text is `{`, the entry text, `}` and a newline |
| `Output.Format` | src/main.rs:72-97 | the output is `{`, the entries in strictly ascending name order with no name twice, each as `name=numbers`, `", "` only between entries, then `}` and a newline; it holds exactly the table's stations; an empty table gives `{}` and a newline |
| `Overflow.Wrap8` | src/main.rs:33-34 | the result is congruent to its argument modulo 256 and equals it when it is in the `i8` range |
| `Overflow.NewI8` | src/main.rs:20-27 | the `i8` record starts as the model's `new()` |
| `Overflow.UpdateAsWritten` | src/main.rs:30-35 | `update` with `i8` fields: min and max as in the model, total and count congruent modulo 256 to the exact values |
| `Overflow.AsWrittenAgreesInRange` | src/main.rs:30-35 | while the sum stays within -128..127 and the count below 127, the `i8` record agrees with the model's |
| `Overflow.AsWrittenWraps` | src/main.rs:30-35 | two readings of 10.0 give the `i8` total -56 where the exact total is 200, and the 128th reading turns the `i8` count to -128 |

## Left out

- `File::open` and the memory mapping (src/main.rs:50-51) are I/O. The model
  starts from the lines.
- `from_utf8_unchecked` (src/main.rs:52) is an unchecked reinterpretation.
  The input is taken as a given sequence of strings.
- `par_lines` cuts the text at `\n` and strips a trailing `\r`. That cutting
  is not modelled; the input is already a sequence of lines.
- Rayon's parallel scheduling (src/main.rs:57-62) is concurrency. The model
  has the sequential fold, the merge operator, and proofs that every
  contiguous split and every merge tree give the one-pass result.
- The mean as an `f32` and the `{:.1}` formatting (src/main.rs:75-83) are
  floating point. `Output.Format` takes a `render` function standing for
  them and treats its text as opaque.
- `Instant::now`, `elapsed` and `println!` (src/main.rs:47, 100-104) are
  instrumentation and I/O.
- The `with_capacity` hints (src/main.rs:55, 59, 89) do not affect results.
- Hash map hashing and iteration order are not modelled. Tables are Dafny
  `map`s. `Output.Collect` takes the entries in an arbitrary order, and
  `Output.SortedUnique` shows the printed order does not depend on it.
- Temperature.ParseTemperature: requires that the token's digits spell at
  most 127 (`Temperature.Fits`), because the accumulator is an `i8`. Outside
  that range the source panics (debug build) or wraps (release build). That
  behaviour is not modelled. `Tables.ProcessLine` and the folds inherit the
  requirement for every line.
- StationStats.StationData.Update and StationStats.StationData.Aggregate:
  `total_temp` and `count` are unbounded integers. They do not model the
  `i8` wrap-around of src/main.rs:33-34 and 41-42; see Findings. The
  `aggregate` wrap-around is the same as `update`'s and has no separate
  as-written member.

## Findings

| source | as written | input that shows it | evidently intended | confidence | as-written member | corrected member |
|---|---|---|---|---|---|---|
| src/main.rs:30-35 | `total_temp` and `count` are `i8`, so `+=` wraps in a release build (and panics in a debug build) once a station's sum of tenths leaves -128..127 or it has more than 127 readings | two readings `10.0` of one station: total 200 wraps to -56; the 128th reading of a station turns the count to -128 | totals and counts in an integer wide enough for the input, so that the mean is total / count | not executed | `Overflow.AsWrittenWraps` | `StationStats.StationData.Update` |
