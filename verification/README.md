# Wine statistics: grouped mean, median and mode

This project models the statistics core of a small React application. The
application shows two tables over the wine dataset, and this model covers how they
are computed.

- **Gamma table** (`Gamma.tsx`). Each record has a gamma, `Ash * Hue / Magnesium`.
  Gammas are grouped under the label `Class {Class}`. Each group gets a column with
  mean, median and mode.
- **Flavanoids table** (`Alchohol.tsx`). Each record's `Flavanoids` value is turned
  into a number. A JSON number is kept as it is; text goes through `parseFloat`.
  Values that come out as NaN are skipped. The rest are grouped under
  `Class {Alcohol}`, and each group gets the same three statistics.

Both tables use the same helpers:

- **mean**: a left-to-right sum from 0, divided by the count;
- **median**: sort ascending with the comparator `a - b`, then take the element at
  `floor(n / 2)`, or the average of the two middle elements when `n` is even;
- **mode**: a single scan that counts each value. The current mode changes only when
  a count goes *strictly* above the best count so far, so of the values tied for the
  highest frequency, the first to reach it wins.

The two tables differ in one place. The Gamma table takes the median on a sorted
copy. The Flavanoids table sorts the group's own array in place, then computes the
mode on that sorted array. On the Flavanoids table the mode is therefore the
*smallest* of the most frequent values. On the Gamma table it is the first value,
in dataset order, to reach the top frequency. For a Flavanoids group `[3.0, 2.0]`
a reader may expect the first-seen value 3.0, but the code gives 2.0
(`Scenarios.EndToEnd`, `Scenarios.RowsDisagree`).

Modules:

| file | module | contents |
|---|---|---|
| `wrappers.dfy` | `Wrappers` | `Option` |
| `stats.dfy` | `Stats` | sum, mean, ascending sort, median (on a copy and in place) |
| `mode.dfy` | `Mode` | the mode scan, and the first-reached-maximum rule it implements |
| `grouping.dfy` | `Grouping` | the "append to the label's array, creating it on first sight" loop; JavaScript object keys, in insertion order |
| `wine.dfy` | `Wine` | records, rows, and the `Class {key}` label |
| `gamma.dfy` | `Gamma` | `calculateGamma` and `calculateGammaStatistics` |
| `alcohol.dfy` | `Alcohol` | Flavanoids coercion, the NaN filter, and the table with its in-place sort |
| `scenarios.dfy` | `Scenarios` | small worked inputs |

Conventions:

- Numbers are `real`.
- NaN is `Option.None`. It only ever appears as the result of coercing `Flavanoids`.
- A JavaScript object used as a dictionary (`classStats`, `classValues`) is a
  sequence of `Group`s in insertion order. Both `for … in` and `Object.keys` walk
  such an object in that order, because labels of the form `Class …` are never
  integer-like keys.
- `calculateMode` returning `null` is `None`.

## Model

| member | source | states |
|---|---|---|
| Stats.Sum | src/component/Gamma/Gamma.tsx:21 | no contract of its own: the left fold from 0; `SumAppend` and `SumPermutation` state that it splits over concatenation and ignores order |
| Stats.Mean | src/component/Gamma/Gamma.tsx:20-23 | no contract of its own (defined for non-empty input only); `MeanWithinRange` and `MeanOrderIndependent` characterise it |
| Stats.MeanWithinRange | src/component/Gamma/Gamma.tsx:20-23 | the mean lies between the least and the greatest value |
| Stats.MeanOrderIndependent | src/component/alcohol/Alchohol.tsx:14-17 | two sequences with the same values (as multisets) have the same mean |
| Stats.Sort | src/component/Gamma/Gamma.tsx:26 | the sort yields an ascending permutation of its input |
| Stats.SortedPermutationUnique | src/component/Gamma/Gamma.tsx:26 | any two ascending permutations of the same values are equal, so the median does not depend on how the sort is done |
| Stats.MedianOfSortedPermutation | src/component/Gamma/Gamma.tsx:25-31 | for any ascending arrangement `t` of the values: the median is `t[n/2]` when `n` is odd, and `(t[n/2-1] + t[n/2]) / 2` when `n` is even |
| Stats.Median | src/component/Gamma/Gamma.tsx:25-31 | no contract of its own: the central rule on the sorted copy; `MedianOfSortedPermutation` and `MedianWithinRange` characterise it |
| Stats.MedianWithinRange | src/component/Gamma/Gamma.tsx:25-31 | the median lies between the least and the greatest value |
| Stats.MedianInPlace | src/component/alcohol/Alchohol.tsx:20-28 | the in-place median leaves the array an ascending permutation of its old contents, and returns the same median a sorted copy gives |
| Mode.Step | src/component/Gamma/Gamma.tsx:39-48 | no contract of its own: one `forEach` iteration; `ScanCounts`, `ScanBoundsReach` and `ScanInvariant` state what repeating it computes |
| Mode.Scan | src/component/Gamma/Gamma.tsx:34-49 | after the scan, `mode` is null exactly when the input was empty, and so is `maxCount == 0` |
| Mode.ScanCounts | src/component/Gamma/Gamma.tsx:38-44 | `valueCount` has a key exactly for each value seen, and holds its number of occurrences |
| Mode.ScanBoundsReach | src/component/Gamma/Gamma.tsx:45-48 | `maxCount` is at least every count the scan has read |
| Mode.ScanInvariant | src/component/Gamma/Gamma.tsx:45-48 | the mode is the value at the first position where the count read there equals `maxCount`; every earlier position read a smaller count |
| Mode.Mode | src/component/Gamma/Gamma.tsx:33-52 | `calculateMode` returns null exactly on an empty array |
| Mode.ModeIsMostFrequent | src/component/Gamma/Gamma.tsx:33-52 | on a non-empty array the mode is one of its values, and no value occurs more often |
| Mode.ModeIsFirstReached | src/component/Gamma/Gamma.tsx:33-52 | the mode is `m` if and only if `m` has the highest frequency and reaches it before every other value does |
| Mode.ModeOfDistinct | src/component/Gamma/Gamma.tsx:45-48 | with no repeated value, the strict comparison keeps the first value as the mode |
| Mode.ModeOfSortedIsSmallest | src/component/alcohol/Alchohol.tsx:31-50 | on an ascending array, the mode is the least of the most frequent values |
| Grouping.Find | src/component/Gamma/Gamma.tsx:61 | the lookup finds the group with the label, and reports none only when no group carries it |
| Grouping.Add | src/component/Gamma/Gamma.tsx:61-65 | one loop iteration adds at most one group, and keeps every group non-empty |
| Grouping.GroupBy | src/component/Gamma/Gamma.tsx:57-66 | there are no groups exactly when there are no entries, never more groups than entries, and no group is empty |
| Grouping.GroupByCollectsEachLabel | src/component/Gamma/Gamma.tsx:57-66 | the groups are the distinct labels in order of first occurrence, each holding exactly the values with its label, in order |
| Grouping.GroupAt | src/component/Gamma/Gamma.tsx:57-66 | group `i` is the `i`-th distinct label together with all values carrying that label, in dataset order |
| Grouping.GroupByNames | src/component/Gamma/Gamma.tsx:57-69 | the keys the loop creates are the distinct labels of the entries, in first-occurrence order |
| Grouping.DistinctInFirstOccurrenceOrder | src/component/Gamma/Gamma.tsx:69 | the keys are enumerated in the order in which the labels first occur |
| Grouping.EveryEntryInItsGroup | src/component/Gamma/Gamma.tsx:61-65 | every entry's value is in the group whose label is the entry's label |
| Grouping.GroupByKeepsEveryEntry | src/component/Gamma/Gamma.tsx:57-66 | the group sizes add up to the number of entries: no value is lost or duplicated |
| Wine.ClassNameInjective | src/component/Gamma/Gamma.tsx:58 | two labels `Class {a}` and `Class {b}` are equal if and only if `a == b` |
| Gamma.GammaOf | src/component/Gamma/Gamma.tsx:16-18 | no contract of its own (defined for non-zero Magnesium only); `GammaOfEveryRecordInItsClass` and `GammaStatisticsByClass` state where its results go |
| Gamma.GammaOfEveryRecordInItsClass | src/component/Gamma/Gamma.tsx:57-66 | every record's gamma is among the values of the group labelled `Class {Class}` of that record |
| Gamma.GammaRow | src/component/Gamma/Gamma.tsx:72-77 | labels the row with its group's label; `GammaRowStatistics` states what its mean, median and mode are |
| Gamma.CalculateGammaStatistics | src/component/Gamma/Gamma.tsx:54-82 | there are no rows exactly when there is no data, and every row has a (non-null) mode |
| Gamma.GammaStatisticsByClass | src/component/Gamma/Gamma.tsx:54-82 | row `i` is the `i`-th distinct class label, with the mean, median and mode of exactly that class's gammas in dataset order |
| Gamma.GammaRowsFollowClasses | src/component/Gamma/Gamma.tsx:68-79 | the row labels are the distinct `Class {Class}` labels of the data, in order of first occurrence |
| Gamma.GammaGroupsHoldEveryRecord | src/component/Gamma/Gamma.tsx:57-66 | the groups together hold one gamma per record |
| Gamma.GammaRowStatistics | src/component/Gamma/Gamma.tsx:71-77 | a row's mode is the group's first value to reach the top frequency, and its mean and median lie within the group's range |
| Alcohol.ValidEntries | src/component/alcohol/Alchohol.tsx:55-68 | keeps at most one entry per record; `ValidEntriesCount`, `ValidRecordKept`, `ValidEntriesAreValidRecords` and `InvalidRecordIgnored` characterise it |
| Alcohol.ValidEntriesCount | src/component/alcohol/Alchohol.tsx:55-68 | exactly one entry is kept per record whose Flavanoids value is not NaN |
| Alcohol.ValidRecordKept | src/component/alcohol/Alchohol.tsx:55-68 | a record with a non-NaN Flavanoids value is kept as an entry with its label `Class {Alcohol}` and that value |
| Alcohol.ValidEntriesAreValidRecords | src/component/alcohol/Alchohol.tsx:55-68 | a label is collected exactly when some record carries it and has a Flavanoids value that is not NaN |
| Alcohol.InvalidRecordIgnored | src/component/alcohol/Alchohol.tsx:62-67 | removing a record whose Flavanoids value is NaN, from anywhere in the data, leaves the table unchanged |
| Alcohol.AlcoholGroupsHoldEveryValidValue | src/component/alcohol/Alchohol.tsx:62-67 | the group sizes add up to the number of records whose Flavanoids value is not NaN |
| Alcohol.AlcoholValueInItsClass | src/component/alcohol/Alchohol.tsx:62-67 | every non-NaN Flavanoids value is among the values of the group labelled `Class {Alcohol}` of its record |
| Alcohol.AlcoholRow | src/component/alcohol/Alchohol.tsx:71-76 | labels the row with its group's label; `AlcoholRowLeavesGroupSorted`, `AlcoholModeIsSmallestMostFrequent` and `AlcoholMeanUnaffectedBySort` state what its statistics are |
| Alcohol.AlcoholStatistics | src/component/alcohol/Alchohol.tsx:71-76 | never more rows than records, and every row has a (non-null) mode |
| Alcohol.AlcoholStatisticsByAlcohol | src/component/alcohol/Alchohol.tsx:52-76 | row `i` is the `i`-th distinct label among valid records; it holds the mean and median of that label's values, and the mode of those values in ascending order |
| Alcohol.AlcoholRowsFollowValidClasses | src/component/alcohol/Alchohol.tsx:71 | the row labels are the distinct labels of the records with a valid Flavanoids value, in order of first occurrence |
| Alcohol.AlcoholRowLeavesGroupSorted | src/component/alcohol/Alchohol.tsx:21 | building a row leaves the group's stored array as an ascending permutation of its values, and the median equals the one a sorted copy gives |
| Alcohol.AlcoholModeIsSmallestMostFrequent | src/component/alcohol/Alchohol.tsx:73-75 | a row's mode is `m` if and only if `m` is the least of the group's most frequent values |
| Alcohol.AlcoholMeanUnaffectedBySort | src/component/alcohol/Alchohol.tsx:73-74 | the mean taken before the in-place sort equals the mean of the sorted array |
| Scenarios.TieGoesToFirst | src/component/Gamma/Gamma.tsx:45-48 | the mode of `[1, 1, 2, 2]` is 1 |
| Scenarios.DistinctGoesToFirst | src/component/Gamma/Gamma.tsx:45-48 | the mode of `[3, 1, 2]` is 3 |
| Scenarios.RowsDisagree | src/component/alcohol/Alchohol.tsx:21 | for the group `[3, 2]`, the Gamma row's mode is 3 and the Flavanoids row's mode is 2 |
| Scenarios.EndToEnd | src/component/alcohol/Alchohol.tsx:52-76 | a three-record dataset gives the Flavanoids table `Class 1: 2.5, 2.5, 2` and `Class 2: 4, 4, 4` |

## Left out

- `src/hooks/fetch.ts` and `src/App.tsx`: loading the dataset and mounting the components are I/O and user interface, not computation. They are not part of this model.
- The JSX rendering, including the `toFixed` formatting of the numbers in the table cells: presentation only.
- IEEE-754 arithmetic: sums, quotients and comparisons are exact over the reals. There is no rounding, no Infinity and no signed zero.
- Stats.Mean: requires a non-empty sequence. The source returns NaN for an empty array, but the tables never build an empty group (`Grouping.GroupBy`), so that case never arises in them.
- Stats.Median: requires a non-empty sequence, for the same reason as `Stats.Mean`.
- Gamma.GammaOf: requires Magnesium to be non-zero. The source would divide by zero and produce Infinity or NaN, which the model does not represent.
- `parseFloat` is a parameter of `Alcohol.Coerce`. How it reads a prefix of the text as a number is not modelled.
- `Class` and `Alcohol` are held as the text the template literal renders them as. JavaScript's number-to-string conversion is not modelled.
- JavaScript key quirks are not modelled: integer-like keys enumerate before the others, and object keys are strings (so `0` and `-0` merge into one mode key). Labels always start with `Class `, and the mode's keys are exact reals.
- The React component state and the re-evaluation on every render: each table is a pure function of the data here.
