# EMA crossover analysis, modelled in Dafny

`main.py` of the BTC EMA 200/50/20 project downloads daily Bitcoin prices,
computes exponential moving averages over 20, 50 and 200 days, and flags the
days on which the averages cross. A flag on the 20/50 pair is a "bullish" or
"bearish" cross; a flag on the 50/200 pair is a "golden" or "death" cross.
The script collects the flagged days into one list, newest first, and
measures the days between consecutive crosses of each kind. It then
summarises those gaps (count, mean, median, minimum, maximum) and builds a
histogram of them with 21 bins. Finally it rewrites the histogram's column
names into a form a database accepts, before uploading the tables.

This project models the batch pipeline between the download and the upload,
and proves what each stage promises. Dates are day numbers (`int`). The EMA
values are given `real` inputs.

| module (file) | stage |
|---|---|
| `Options` (options.dfy) | `Option`, the stand-in for a NaN cell |
| `Sorting` (sorting.dfy) | a stable insertion sort by an integer key, with key filters; stability, permutation, uniqueness of the sorted arrangement |
| `Uniques` (uniques.dfy) | `Series.unique()`: distinct values in order of first appearance |
| `Signals` (signals.dfy) | rows, `dropna`, the EMA differences, the `shift(1)` comparisons and the four flag columns |
| `Events` (events.dfy) | labels, the category-to-number map, the four collection loops, the newest-first sort |
| `Intervals` (intervals.dfy) | the per-category loop producing the interval records |
| `Summary` (summary.dfy) | the `groupby` aggregates and their order |
| `Histogram` (histogram.dfy) | bins, bin labels, counts and the distribution loop |
| `Sanitiser` (sanitise.dfy) | the column-name rewrite and the loop building the rename map |
| `Pipeline` (pipeline.dfy) | the stages composed into one run, and properties of the composition |

How the model follows the code:

- **Warm-up.** With `adjust=False` the EMAs are defined from the first row,
  so `dropna` (main.py:82) removes only rows that were already incomplete.
  That is what the model does (`Signals.DropUndefined`). The comment on
  line 81 claims the first 199 rows are dropped; the code does not do that.
- **Newest-first sort.** `list.sort(key=date, reverse=True)` is stable. It
  keeps equal dates in their original order, so it equals a stable
  ascending sort on the negated date (`Events.MostRecentFirst`).
- **Per-category sort.** `sort_values('Date')` inside the interval loop is
  not stable. Within one category, however, the dates are distinct whenever
  the row dates are, and then only one sorted arrangement exists
  (`Sorting.SortedPermutationUnique`). The model therefore uses the same
  stable sort there.
- **Summary order.** `groupby('Category')` orders its rows by label:
  bearish, bullish, death, golden.
- **Distribution columns.** A column exists only for a category that has
  intervals, because the loop runs over `interval_df['Category'].unique()`.
  Its zero-filled branch (main.py:276-277) cannot be taken. It is modelled
  anyway.
- **Case.** `str.upper()` is modelled for ASCII letters only.

## Model

| member | source | states |
|---|---|---|
| Signals.DropUndefined | main.py:82 | `dropna` keeps at most as many rows as it is given |
| Signals.DropUndefinedMembers | main.py:82 | a row survives `dropna` exactly when every one of its values is defined |
| Signals.DropUndefinedKeepsDefinedTable | main.py:77-82 | when every value is defined (the `adjust=False` case), no row is dropped and each row is kept as it is: there is no warm-up truncation |
| Signals.DropUndefinedKeepsOrder | main.py:82 | dropping rows keeps the dates strictly increasing |
| Signals.Shift | main.py:88-94 | `diff.shift(1)`: the first cell is NaN and cell `t` holds the difference of row `t - 1`; what a flag then means is stated by `CrossesAt` |
| Signals.UpCrosses | main.py:88-93 | `(diff.shift(1) < 0) & (diff > 0)`, a NaN comparing false; stated by `CrossesAt` and `CrossIsSignFlip` |
| Signals.DownCrosses | main.py:89-94 | `(diff.shift(1) > 0) & (diff < 0)`; stated by `CrossesAt` and `CrossIsSignFlip` |
| Signals.CrossesAt | main.py:88-94 | an upward flag at `t` holds exactly when `t > 0`, `d[t-1] < 0` and `d[t] > 0`; a downward flag exactly when `t > 0`, `d[t-1] > 0` and `d[t] < 0` |
| Signals.CrossesExclusive | main.py:88-89 | a row never has both an upward and a downward flag |
| Signals.FirstRowNeverFlagged | main.py:88-94 | `shift(1)` gives the first row no predecessor, so that row is never flagged |
| Signals.ZeroSuppresses | main.py:88-94 | a zero difference on the row or on its predecessor suppresses both flags |
| Signals.CrossIsSignFlip | main.py:88-94 | a row has some flag exactly when the product of its difference and the previous one is negative |
| Signals.NoDownCrossWhenNonDecreasing | main.py:89 | a difference series that never decreases has no downward flag |
| Signals.DownCrossBetween | main.py:89 | positive at `i`, negative at `j`, and no zero in between: there is a downward flag in `(i, j]` |
| Signals.UpCrossBetween | main.py:88 | negative at `i`, positive at `j`, and no zero in between: there is an upward flag in `(i, j]` |
| Signals.CrossesAlternate | main.py:88-94 | without zero differences, two upward flags always have a downward flag between them, and the other way round |
| Signals.ZeroBreaksAlternation | main.py:88-94 | with a zero difference they need not alternate: `-1, 1, 0, -1, 1` has two upward flags and no downward one |
| Signals.Flags | main.py:86-94 | each of the four flag columns has one cell per row |
| Signals.FlagsExclusive | main.py:86-94 | no row is both bullish and bearish, nor both golden and death |
| Events.Label | main.py:99-137 | the `type` string of each block; the labels are pairwise distinct (`CodeInjective`) |
| Events.NumOf | main.py:171-178 | `Series.map(category_to_num_map)`: a label outside the map gives NaN; every category label is in the map (`CodeIsMapped`) |
| Events.Code | main.py:171-178 | the `Category_Num` of a category, read from `category_to_num_map`: it lies between 1 and 4 |
| Events.CodeIsMapped | main.py:171-178 | mapping a category's label through the map never gives NaN; it gives the category's number |
| Events.CodeInjective | main.py:171-178 | distinct categories have distinct numbers and distinct labels |
| Events.FlaggedUpTo | main.py:100-106 | the events one collection loop has appended after visiting the first `n` rows; stated by `FlaggedUpToExact`, `FlaggedUpToCount`, `FlaggedUpToCategory` and `FlaggedUpToIncreasing`, and the invariant of `AppendFlagged` |
| Events.Flagged | main.py:100-107 | one block's events, one per flagged row in row order; stated by `FlaggedExact`, `FlaggedCategory` and `FlaggedIncreasing` |
| Events.Collected | main.py:97-137 | the four blocks in source order; stated by `CollectedLength`, `CollectedOfCategory` and `CollectedByCode` |
| Events.AppendFlagged | main.py:99-106 | one collection loop appends exactly one event per flagged row, in row order, to the list it is given |
| Events.CollectCrossovers | main.py:97-137 | the four blocks build the bullish events, then the bearish, then the golden, then the death ones |
| Events.FlaggedUpToExact | main.py:100-106 | for any flag column, an event is picked exactly when some flagged row has that event's date and close; as many events are picked as there are flags |
| Events.FlaggedExact | main.py:100-106 | a category's block has one event per flag |
| Events.FlaggedUpToCount | main.py:100-106 | visiting the first `n` rows appends one event per flag among them |
| Events.FlaggedCount | main.py:100-106 | a category's block is as long as its flag column has flags |
| Events.CollectedLength | main.py:97-137 | the collected list is as long as the four flag columns have flags together |
| Events.FlaggedUpToCategory | main.py:100-106 | every picked event carries the block's category |
| Events.FlaggedUpToIncreasing | main.py:100-106 | over strictly increasing row dates, the events picked from the first `n` rows are strictly increasing in date, and all earlier than row `n` |
| Events.FlaggedCategory | main.py:100-106 | every event of a category's block carries that category |
| Events.FlaggedIncreasing | main.py:100-106 | when row dates strictly increase, the dates in each block strictly increase |
| Events.OfCategory | main.py:195 | `df[df['Category'] == c]`, in list order; stated by `OfCategoryIsCategory`, `OfCategoryUniform` and `CollectedOfCategory` |
| Events.OfCategoryIsCategory | main.py:195 | filtering by a category keeps only events of that category |
| Events.OfCategoryUniform | main.py:195 | filtering a list of one category gives back the whole list or nothing |
| Events.OfCategoryOfBlocks | main.py:97-137 | filtering four single-category blocks, one per category, by a category picks out exactly that category's block |
| Events.CollectedOfCategory | main.py:97-137 | filtering the collected list by a category gives exactly that category's block |
| Events.MostRecentFirst | main.py:140 | `sort(key=date, reverse=True)` as a stable sort on the negated date; stated by `MostRecentFirstCorrect` and `SameDayOrder` |
| Events.MostRecentFirstCorrect | main.py:140 | after the sort, dates never increase, the list is a permutation of the collected one, and the events of each day keep their order |
| Events.CollectedByCode | main.py:97-137 | the collected list is ordered by category number |
| Events.SameDayOrder | main.py:140 | the newest-first sort keeps the events of one day in any order the list had them in |
| Events.SameDayKeepsCollectionOrder | main.py:140 | events on the same day come out bullish, bearish, golden, death |
| Sorting.SortBy | main.py:140 | sorting keeps the length |
| Sorting.SortBySorted | main.py:140 | the sorted sequence is ordered by key |
| Sorting.SortByPermutation | main.py:140 | the sorted sequence is a permutation of the input |
| Sorting.SortByStable | main.py:140 | elements with equal keys keep their relative order |
| Sorting.SortByKeepsOrderWithinKey | main.py:140 | so elements sharing a key stay ordered by any key the input was ordered by |
| Sorting.SortByDistinct | main.py:195 | with distinct keys the sorted keys strictly increase |
| Sorting.KeyFilterAppend | main.py:195 | filtering a concatenation concatenates the filtered parts |
| Sorting.KeyFilterAppend4 | main.py:195 | the same for four parts |
| Sorting.KeyFilterCons | main.py:195 | filtering keeps the first element exactly when its key matches |
| Sorting.KeyFilterPermutation | main.py:195 | filtering two permutations of each other gives permutations of each other |
| Sorting.DistinctKeysPermutation | main.py:195 | distinct keys survive any permutation |
| Sorting.SortedPermutationUnique | main.py:195 | with distinct keys, two sorted permutations of each other are equal, so a stable and an unstable sort agree |
| Sorting.SortByRestores | main.py:195 | sorting any permutation of a sorted sequence with distinct keys gives that sequence back |
| Uniques.Unique | main.py:193 | `unique()` holds every value of the column, only such values, and none twice |
| Uniques.UniqueOrder | main.py:193 | `unique()` lists values in order of first appearance |
| Intervals.UniqueCategories | main.py:193 | `crossover_df['Category'].unique()`; stated by `Uniques.Unique` and `Uniques.UniqueOrder` |
| Intervals.AscendingEvents | main.py:195 | `category_df`, one category's events sorted by date; stated by `Pipeline.AscendingIsFlagged` |
| Intervals.PairRecords | main.py:202-211 | `n` events give `n - 1` records; dropping the NaN first row leaves one record per consecutive pair |
| Intervals.CategoryIntervals | main.py:195-211 | one iteration's records, none when the category has at most one event; stated by `CategoryIntervalsCount` and `CategoryIntervalsShape` |
| Intervals.IntervalsFor | main.py:193-214 | the records of the iterations over `cats`, concatenated in loop order; stated by `IntervalsForOf` and computed by `AnalyseIntervals` |
| Intervals.AllIntervals | main.py:223-224 | `interval_df`; stated by `AllIntervalsOf` and `Pipeline.IntervalsBetweenFlags` |
| Intervals.IntervalsForStep | main.py:193-214 | one loop iteration appends that category's records to those of the earlier iterations |
| Intervals.AnalyseIntervals | main.py:190-224 | the loop builds the records of each category in first-appearance order, skipping categories with at most one event |
| Intervals.CategoryIntervalsCount | main.py:195-211 | a category with `n >= 2` events yields `n - 1` records; one with fewer yields none |
| Intervals.CategoryIntervalsShape | main.py:202-210 | each record has its category and number, `days == current - previous`, `previous <= current` (strictly `<` when dates are distinct), and its `current` is the next record's `previous` |
| Intervals.PairRecordsShape | main.py:202-210 | over dates in order, record `k` has its category and number, `days == current - previous >= 0` (positive when dates are distinct), and ends where record `k+1` starts |
| Intervals.PairRecordsTelescope | main.py:202-210 | the gaps sum to the last date minus the first |
| Intervals.PairRecordsSpan | main.py:202-210 | the gaps sum to the last record's current date minus the first record's previous date |
| Intervals.CategoryIntervalsTelescope | main.py:202-210 | a category with records has at least two sorted events, and its gaps sum to its last event date minus its first |
| Intervals.RecordsOf | main.py:268 | `interval_df[interval_df['Category'] == c]`, in table order; stated by `RecordsOfAll`, `AllIntervalsOf` and `Histogram.RecordsOfPresent` |
| Intervals.RecordsOfAll | main.py:268 | filtering single-category records by a category gives all of them or none |
| Intervals.CategoryIntervalsOf | main.py:193-214 | one loop iteration's records all belong to its own category |
| Intervals.DistinctSplit | main.py:193 | distinct categories stay distinct when the last one is split off, and the last is not among the others |
| Intervals.IntervalsForOf | main.py:193-224 | over distinct categories, the concatenated records of one category are exactly that category's iteration's records |
| Intervals.AllIntervalsOf | main.py:223-224 | the records of one category in `interval_df` are exactly those its own loop iteration produced |
| Summary.Mean | main.py:234-236 | the `mean` aggregate: the sum over the count; stated by `MeanBounds` |
| Summary.Median | main.py:234-236 | the `median` aggregate: the middle sorted value, or the average of the two middle ones; stated by `MedianBounds` |
| Summary.Minimum | main.py:234-236 | `min` is one of the values and no larger than any of them |
| Summary.Maximum | main.py:234-236 | `max` is one of the values and no smaller than any of them |
| Summary.SumBounds | main.py:234-236 | a sum of values between `lo` and `hi` lies between `n * lo` and `n * hi` |
| Summary.MeanBounds | main.py:234-236 | `min <= mean <= max` |
| Summary.MedianBounds | main.py:234-236 | `min <= median <= max` |
| Summary.SummaryRowFor | main.py:234-236 | one row of the `agg`: the category's mean, median, minimum, maximum and count of days; stated by `SummaryRowsCorrect` and `SummaryCategories` |
| Summary.GroupOrderComplete | main.py:234 | every category has a place in the group order |
| Summary.LexLess | main.py:234 | Python's string `<`, which orders the `groupby` keys; stated by `BearishBeforeBullish` and `RankIsLabelOrder` |
| Summary.BearishBeforeBullish | main.py:234 | `BEARISH CROSS (20/50)` sorts before `BULLISH CROSS (20/50)` |
| Summary.RankIsLabelOrder | main.py:234 | an earlier place in the group order means an earlier label |
| Summary.GroupOrderSortedByLabel | main.py:234 | the group order holds every category, sorted by label |
| Summary.GroupOrderRanked | main.py:234 | places increase along the group order |
| Summary.Keep | main.py:234 | a filtered category comes from the input and passes the filter |
| Summary.KeepCovers | main.py:234 | every input category that passes the filter is kept |
| Summary.KeepOrder | main.py:234 | filtering keeps increasing places increasing, above any bound they had |
| Summary.WithIntervals | main.py:234 | the groups are categories that have intervals |
| Summary.WithIntervalsCovers | main.py:234 | every category with intervals is a group |
| Summary.WithIntervalsOrder | main.py:234 | the groups keep the group order |
| Summary.Summarise | main.py:234-236 | `summary_stats`, one row per group; stated by `SummaryCategories`, `SummaryRowsCorrect`, `SummaryCovers` and `SummaryInLabelOrder` |
| Summary.SummaryCategories | main.py:234-236 | row `k` belongs to the `k`-th group |
| Summary.SummaryInRankOrder | main.py:234 | the rows follow the group order |
| Summary.SummaryInLabelOrder | main.py:234 | the rows are sorted by category label |
| Summary.SummaryRowsCorrect | main.py:234-236 | each row counts its category's records (more than zero), has `min <= median <= max` and `min <= mean <= max`, and every value lies between `min` and `max` |
| Summary.SummaryCovers | main.py:234-236 | a category has a row exactly when it has intervals |
| Histogram.BucketOf | main.py:260-273 | `pd.cut(right=False)`: a value has no bin (NaN) exactly when it is negative, and otherwise one of the 21 bins |
| Histogram.BucketOfEdges | main.py:260-273 | a value falls in bin `k` exactly when it lies in `[edge k, edge k+1)` (bin 20: from 1000 up) |
| Histogram.BucketBoundaries | main.py:260-273 | 0 and 49 are in `0-49`, 50 in `50-99`, 400 in `400-449`, 999 in `950-999`, 1000 and 100000 in `1000+`, and -1 in no bin |
| Histogram.NatToString | main.py:262 | the f-string spelling of a bin edge; stated by `DecimalSpellings` and `LabelSpelling` |
| Histogram.BucketLabel | main.py:262 | `'{low}-{high - 1}'` for bins below the last, `'1000+'` for the last; stated by `LabelSpelling` and `LabelsSpelled` |
| Histogram.Labels | main.py:262 | there are 21 labels |
| Histogram.DecimalSpellings | main.py:262 | the label numbers are spelled as an f-string spells them |
| Histogram.LabelSpelling | main.py:262 | bin `k` below the last is labelled `50k-(50k+49)` |
| Histogram.LabelsSpelled | main.py:262 | the labels read `0-49`, `50-99`, …, `950-999`, `1000+` |
| Histogram.CountIn | main.py:272-275 | how many values fall in bin `k`; stated by `CountsSum` |
| Histogram.Counts | main.py:272-275 | one count for each of the 21 bins |
| Histogram.CountsSum | main.py:272-275 | the counts of non-negative values add up to how many values there are |
| Histogram.ColumnFor | main.py:268-277 | `distribution_data[category]`: the category's label and its counts; stated by `Distribution` and `Pipeline.HistogramMatchesSummary` |
| Histogram.DistributionColumns | main.py:265-280 | one column per distinct category in `interval_df` |
| Histogram.NoIntervalsNoCounts | main.py:276-277 | with no intervals, the counts are the zero-filled column |
| Histogram.Distribution | main.py:265-280 | the loop builds one column per distinct category, in first-appearance order, holding its counts |
| Histogram.RecordsOfPresent | main.py:268 | filtering by a category is non-empty exactly when some record carries it |
| Histogram.DistributionNamesDistinct | main.py:265-280 | no two columns share a name |
| Histogram.DistributionCategories | main.py:265-280 | the distribution's columns are named after categories, one category per column, in order |
| Histogram.DistributionColumnsCover | main.py:265-280 | there is a column named after a category exactly when it has intervals, and column names are distinct |
| Sanitiser.ReplaceChar | main.py:291 | `str.replace` of one character; stated by `ReplaceCharChars`, `ReplaceAbsent` and `ReplaceCharAppend` |
| Sanitiser.Replaced | main.py:291 | the five `replace` calls in source order; stated by `ReplacedSingle`, `ReplacedPlain` and `ReplacedChars` |
| Sanitiser.ReplaceCharChars | main.py:291 | after a `replace`, every character is a kept character other than the target, or comes from the replacement |
| Sanitiser.ReplaceAbsent | main.py:291 | replacing a character that does not occur changes nothing |
| Sanitiser.ReplaceCharAppend | main.py:291 | `replace` works character by character |
| Sanitiser.ReplaceCharSingle | main.py:291 | `replace` on one character |
| Sanitiser.ReplacedAppend | main.py:291 | the five replacements work character by character |
| Sanitiser.ReplacedSingle | main.py:291 | space, slash and hyphen become `_`; parentheses vanish; every other character stays |
| Sanitiser.ReplacedPlain | main.py:291 | a string without those five characters is unchanged |
| Sanitiser.ReplacedChars | main.py:291 | no space, parenthesis, slash or hyphen survives the replacements |
| Sanitiser.Split | main.py:293 | `split` always gives at least one piece |
| Sanitiser.NonEmpty | main.py:293 | `filter(None, …)` keeps only non-empty pieces, each from the input; that it keeps every non-empty piece, in order, is stated by `NonEmptyAppend`, `NonEmptySingle` and `NonEmptyMember` |
| Sanitiser.NonEmptyAppend | main.py:293 | filtering a concatenation of pieces concatenates the filtered parts |
| Sanitiser.NonEmptySingle | main.py:293 | a single piece is kept exactly when it is non-empty |
| Sanitiser.NonEmptyMember | main.py:293 | every non-empty piece is kept |
| Sanitiser.Join | main.py:293 | `'_'.join(pieces)`; stated by `JoinChars`, `JoinNoStray` and `JoinSplit` |
| Sanitiser.ToUpper | main.py:294 | `upper()` on one character (ASCII letters only); stated through `SanitiseIsClean` |
| Sanitiser.Upper | main.py:294 | `upper()` (ASCII letters only), which keeps the length |
| Sanitiser.SplitChars | main.py:293 | a piece holds only characters of the string and never the separator |
| Sanitiser.SplitPlain | main.py:293 | a string without the separator splits into itself alone |
| Sanitiser.SplitPiece | main.py:293 | a separator-free prefix followed by a separator is the first piece, and the rest splits on its own |
| Sanitiser.JoinChars | main.py:293 | a joined character is the separator or comes from a piece |
| Sanitiser.JoinNoStray | main.py:293 | joining non-empty pieces without separators leaves no leading, trailing or doubled separator |
| Sanitiser.JoinSplit | main.py:293 | joining the split pieces gives the string back |
| Sanitiser.SplitPiecesNonEmpty | main.py:293 | a string without stray separators splits into non-empty pieces (the first is empty only for an empty string or a leading separator) |
| Sanitiser.NonEmptyKeepsAll | main.py:293 | filtering pieces that are all non-empty keeps them all |
| Sanitiser.PiecesClean | main.py:293 | the kept pieces are non-empty and contain no `_` |
| Sanitiser.CollapsedChars | main.py:293 | each character after re-joining is `_` or comes from the replaced name |
| Sanitiser.Sanitise | main.py:291-294 | the whole rewrite: replace, split, filter, join, upper; stated by `SanitiseIsClean`, `SanitiseKeepsClean`, `SanitiseIdempotent`, `SanitiseCollapses` and `SanitiseLabel` |
| Sanitiser.SanitiseIsClean | main.py:289-294 | the result has no space, parenthesis, slash, hyphen or ASCII lower-case letter, and no leading, trailing or doubled `_` |
| Sanitiser.SanitiseKeepsClean | main.py:289-294 | a name that is already clean is left as it is |
| Sanitiser.SanitiseIdempotent | main.py:289-294 | sanitising twice is sanitising once |
| Sanitiser.SameKeptPieces | main.py:289-294 | two names whose replaced forms keep the same pieces sanitise to the same name |
| Sanitiser.WordsPlain | main.py:291 | two words around one or two underscores are not rewritten |
| Sanitiser.SplitOnce | main.py:293 | `A_B` splits into `A` and `B` |
| Sanitiser.SplitTwice | main.py:293 | `A__B` splits into `A`, an empty piece and `B` |
| Sanitiser.NonEmptyGap | main.py:293 | the empty piece between two words is dropped |
| Sanitiser.KeptWords | main.py:291-293 | `A_B` and `A__B` both keep exactly the pieces `A`, `B` |
| Sanitiser.SanitiseCollapses | main.py:289-294 | a doubled underscore between two words collapses: `A__B` and `A_B` both sanitise to `A_B` |
| Sanitiser.LabelReplaced | main.py:291 | the replacements turn a label `W1 W2 (W3/W4)` into its four words joined by `_` |
| Sanitiser.JoinFour | main.py:293 | joining four pieces with `_` |
| Sanitiser.JoinedWordsClean | main.py:293 | words joined by single `_` are clean |
| Sanitiser.SanitiseLabel | main.py:288-294 | a label `W1 W2 (W3/W4)` sanitises to `W1_W2_W3_W4` |
| Sanitiser.SanitisedNames | main.py:289-294 | the map has exactly the columns as keys, and each maps to its sanitised name |
| Pipeline.CleanName | main.py:291-294 | the sanitised name of a column, which is clean |
| Pipeline.Renamed | main.py:295 | the rename keeps every column's counts and gives each its sanitised name, which is clean |
| Pipeline.RenameColumns | main.py:289-295 | the map-building loop followed by the rename gives the renamed table |
| Pipeline.Tabulate | main.py:190-295 | once there are crossovers, the run produces the interval records, their summary and the renamed distribution |
| Pipeline.Expected | main.py:68-295 | the outcome of a run: no data, no crossovers, or the four tables; `Run` computes it and `ExpectedOutcome` states when each case happens |
| Pipeline.Run | main.py:68-295 | the whole run: no data stops it early, no crossover stops it early, otherwise it produces the four tables |
| Pipeline.ExpectedOutcome | main.py:70-160 | a run stops early exactly when nothing was fetched or nothing was flagged; otherwise its event table is a non-empty permutation of the collected events |
| Pipeline.AscendingIsFlagged | main.py:140-195 | over strictly increasing dates, filtering the newest-first list by a category and sorting it by date gives that category's flagged rows in row order |
| Pipeline.IntervalsBetweenFlags | main.py:193-211 | over strictly increasing dates, a category with `n >= 2` flags has `n - 1` records; record `k` runs from the date of flag `k` to the date of flag `k+1`, with a positive gap |
| Pipeline.IntervalsOfAscending | main.py:195-211 | the records of a category pair its consecutive ascending events |
| Pipeline.HistogramMatchesSummary | main.py:234-277 | gaps are never negative, so a category's histogram counts add up to its interval count in the summary |
| Pipeline.SanitisedWords | main.py:288-295 | the four labels sanitise to `BULLISH_CROSS_20_50`, `BEARISH_CROSS_20_50`, `GOLDEN_CROSS_50_200` and `DEATH_CROSS_50_200` |
| Pipeline.SanitisedLabels | main.py:289-295 | distinct categories get distinct sanitised names, so the rename never merges two columns |
| Pipeline.ColumnNamesDistinct | main.py:289-295 | the four renamed columns have distinct names |
| Pipeline.RenamedLabel | main.py:289-295 | a column named by a category's label is renamed to that category's column name |
| Pipeline.RenamedNames | main.py:289-295 | over columns named by category labels, a renamed column is named `ColumnName(c)` exactly when a column was named `Label(c)` |
| Pipeline.RenamedColumnsCover | main.py:265-295 | after the rename, the distribution has a column named `ColumnName(c)` exactly when `c` has intervals |

## Left out

- The download through `yfinance` (main.py:68), and all of `fetch_ohlcv.py`: network I/O against services that cannot be seen. The run takes the fetched table as its input.
- Loading BigQuery credentials (main.py:19-64) and the `pandas_gbq.to_gbq` upload (main.py:301 onward): persistence and I/O.
- `exit()` and the `try`/`except` blocks: the model returns the outcome (`NoData`, `NoCrossovers`, `Report`) instead of ending the process. An exception raised inside pandas is not modelled.
- The EMA values themselves (`ewm`, main.py:77-79): floating-point numerics inside pandas. The EMA columns are given `real` inputs, and floating-point rounding is not modelled.
- The standard deviation and `round(1)` (main.py:235, 250-251): they need square roots and float rounding. With a count of 1, pandas reports the standard deviation as NaN.
- Display formatting: price strings (main.py:182), `strftime` of dates (main.py:230-231), and all `print` output.
- The columns `Open`, `High`, `Low` and `Volume` exist only to be checked by `dropna`. Rows keep only the date, the close and the three EMAs.
- In-place list updates (`append`, `list.sort`, dictionary assignment) are modelled on immutable sequences and maps, returned by methods. There is no aliasing in the source to capture.
- `Events.MostRecentFirst` is a stable insertion sort on values, not CPython's Timsort. Only the outcome (order, permutation, stability) is modelled, not the algorithm.
- `Intervals.AscendingEvents` uses the same stable sort for pandas' unstable `sort_values`. The two agree whenever a category's dates are distinct, which holds whenever the row dates strictly increase (`Sorting.SortedPermutationUnique`). For equal dates they may differ in order, but not in the gaps they produce.
- `Sanitiser.ToUpper`: upper-cases ASCII letters only, because there is no Unicode case table. The category labels are ASCII.
- `Sanitiser.Upper`: keeps the length only because it maps `ToUpper` over each character. Python's `upper()` can lengthen a string (`'ß'.upper()` is `'SS'`) and upper-cases non-ASCII letters (`'é'` becomes `'É'`); the model does neither.
- `Sanitiser.SanitiseIsClean`: "no lower-case letter" means no ASCII `a`-`z`. A non-ASCII lower-case letter such as `'é'` passes through the model unchanged; Python would upper-case it.
- `Histogram.BucketOf`: follows `pd.cut` for integer day counts only. A negative gap, which cannot occur, falls in no bin (NaN).
