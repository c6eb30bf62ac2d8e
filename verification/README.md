# Location-table cleaning, modelled in Dafny

The script `main.py` cleans a table of location samples for tracked tags. It
keeps the first row of every timestamp and then of every coordinate pair. It
drops the first row and smooths the coordinates run by run. Next it deletes the
rows marked "?", cuts the offset off the timestamps, and computes, for every
row, the seconds since the row before it, reset to 0 at the first row of each
tag. This project models those steps as pure functions over a sequence of rows.
It proves that the loop the script runs computes a run-by-run definition of the
smoothing. It also proves the properties the script relies on.

Modules, one file each:

- `Table` (`table.dfy`): the row record. A coordinate is `Val(v)` or the
  `Question` marker ("?"). Row order stands in for the index labels, which the
  script resets to 0, 1, 2, ... before every step that indexes by label.
- `Seqs` (`seqs.dfy`): masks as the filter `Where` and as the list of positions
  they select (`Positions`), subsequences, distinct and ascending keys, sums,
  and `TruncDiv`. `TruncDiv` is Python's `int(a / b)`,
  rounding toward zero.
- `Dedup` (`dedup.dfy`): `drop_duplicates(..., keep='first')` and
  `checkUniqueValues`.
- `Smoothing` (`smoothing.dfy`): `arrangeXandYdata`.
  - `Smooth` is the reference definition, run by run.
  - `ArrangeXandYdata` follows the script's loop, reading from the table it
    rewrites, and is proved to return `Smooth`.
- `Cleaning` (`cleaning.dfy`): `dropFirstRow`, `dropQuestionMarks`, and the
  string part of `arrangeDateColumn`.
- `TimeDelta` (`time_delta.dfy`): `addNewColumn` and
  `arrangeFirstElementOfEachIDtag`, over the `id_tag` column and the parsed
  timestamps as integer microseconds.
- `Pipeline` (`pipeline.dfy`): the steps in the script's order, and the row
  count after smoothing and filtering.

## Model

| member | source | states |
|---|---|---|
| Smoothing.ArrangeXandYdata | main.py:69-127 | The loop returns exactly the run-by-run smoothing `Smooth` of its input. It reads row i from the table it is rewriting. The buffer is never empty when a mean is taken, so there is no division by zero. The y branch is never taken. An empty table has no row 0, and the result is None. |
| Smoothing.Smooth | main.py:75-127 | Smoothing keeps the row count. It keeps every column except x, so y is never smoothed. |
| Smoothing.RunsJoinTheirAnchor | main.py:84 | Every row of a run lies within ±7 of the run's first row in both x and y, not merely within ±7 of the row before it. |
| Smoothing.AnchorsBreakRuns | main.py:84-122 | Each anchor after the first is a row that failed the ±7 test against the previous anchor. Only such a row replaces the anchor. |
| Smoothing.FinalRunJoinsAnchor | main.py:75-86 | Every row from the last anchor to the end of the table passes the ±7 test against that anchor. |
| Smoothing.SmoothedAnchors | main.py:89-98 | Every closed run's first row ends up with x = the mean of the run's x values, truncated toward zero. |
| Smoothing.SmoothedMarks | main.py:100-101 | The other rows of a closed run, index+1 .. i-1 with both ends included, end up with x = "?". |
| Smoothing.SmoothedFinalRun | main.py:75-127 | The last run is never closed, so its rows come out exactly as they went in. |
| Smoothing.CloseRunKeepsOtherColumns | main.py:98-101 | Closing a run writes only the x column. |
| Pipeline.SingleRowRunUnchanged | main.py:89-101 | A closed run of one row keeps its x and marks no row. |
| Pipeline.SmoothedAnchorsNear | main.py:84-98 | The x written to a run's first row lies within ±7 of that row's old x. |
| Pipeline.SmoothedCount | main.py:129-134 | Smoothing and then filtering leaves n − Σ(len(run) − 1) rows, the sum taken over the closed runs. |
| Pipeline.KnownAfterSmoothing | main.py:75-134 | The count above, for the table smoothed from any anchor onward. |
| Pipeline.ClosedRunLeavesAnchor | main.py:98-134 | Of a closed run, only its first row survives the "?" filter. |
| Pipeline.SmoothKeepsTagOrder | main.py:222-225 | A table sorted by tag stays sorted by tag after smoothing. |
| Pipeline.CleanTable | main.py:223-230 | A table of fewer than two rows fails. Otherwise the result is exactly `dropFirstRow`, then the run-by-run smoothing `Smooth`, the "?" filter and the date trim, in that order. Every row left has integer coordinates, the row count is as in `SmoothedCount`, and a table sorted by tag stays sorted. |
| Cleaning.DropQuestionMarks | main.py:129-134 | Only rows with integer x and y survive. Every such row survives, and the input's order is kept. |
| Cleaning.DropQuestionMarksIsKnownFilter | main.py:129-134 | Filtering on x and then on y is the single filter "neither coordinate is '?'". |
| Cleaning.DropQuestionMarksCount | main.py:129-134 | The number of rows kept is the number of positions with both coordinates set. |
| Cleaning.DropQuestionMarksKeepsKnown | main.py:129-134 | A table without "?" passes the filter unchanged. |
| Cleaning.DropFirstRow | main.py:57-61 | The result is the input without its first row, and an empty table stays empty. |
| Cleaning.TrimOffset | main.py:149 | `s[:-6]`: the result followed by the last six characters is the input, and a string shorter than six gives "". |
| Cleaning.TrimOffsetRoundTrip | main.py:145-149 | Trimming a timestamp that ends in a six-character offset gives the timestamp back. |
| Cleaning.ArrangeDateColumn | main.py:147-150 | Every row's timestamp loses its last six characters, and every other column is unchanged. |
| Dedup.KeepFirst | main.py:42-44 | `drop_duplicates(key, keep='first')`, stated by position. Entry k of the result is the row at the k-th position, in ascending order, that holds the first row of its key. `Positions` lists every such position and no other. The keys of the result are distinct, and the result is a subsequence of the input. |
| Dedup.KeepFirstByValue | main.py:42-44 | The same in terms of values: the first row of every key is kept, and every row kept is the first row of its key. |
| Dedup.CheckUniqueValues | main.py:36-44 | Entry k of the result is the row at the k-th surviving position, in ascending order. A row survives when it is the first with its timestamp and no earlier such row has its coordinate pair. So the point pass keeps a row exactly when it is the first of its pair among the rows the date pass kept. No two rows left share a timestamp or a coordinate pair. Each is the first row of the input with its timestamp, and the input's order is kept. |
| Dedup.CheckUniqueValuesByValue | main.py:36-44 | Every surviving row is kept, and every row kept is a surviving row of the input. |
| TimeDelta.SecondsBetween | main.py:170-173 | `int(total_seconds())` is the whole number of seconds between the two times, rounded toward zero. |
| TimeDelta.GroupFirsts | main.py:167-168 | `groupby('id_tag').first()` of the index lists a row exactly when it is the first row of its tag, in strictly ascending order of tag. |
| TimeDelta.SortedFirsts | main.py:159-179 | On a table sorted by tag, a row is the first of its tag exactly when it is row 0 or its tag differs from the row before. The first rows then come in row order. |
| TimeDelta.ArrangeFirstElementOfEachIDtag | main.py:159-179 | With two rows or more, every row ends with 0 if it is the first row of its tag. Otherwise it ends with the whole seconds since the row before. The first rows come back in tag order. With fewer rows the loop exits at once: the column is unchanged and no first rows are returned. |
| TimeDelta.SecondDiffColumn | main.py:155-179 | `addNewColumn` (a column of zeros) followed by the loop. For every table size, a row ends with 0 when it is the first row of its tag, and otherwise with the whole seconds since the row before. A table of one row keeps its 0. |

## Quirks of the script

- `checkUniqueValues` de-duplicates timestamps over the whole table, not per tag. A later row of another tag with the same timestamp is dropped too.
- `arrangeXandYdata` rewrites only x. The y column keeps every value, because the branch that would average y is unreachable: both buffers always have the same length.
- `arrangeXandYdata` never closes the last run of the table. Its rows keep their own x, however many of them there are.
- `arrangeXandYdata` marks the rest of a closed run with `.at[index+1:i-1, 'x'] = '?'`. That slice is by label and includes both ends, so it covers the rows after the anchor up to the one before the breaking row. For a run of one row the slice is empty and nothing is marked. The model writes it as `MarkRange` with both ends included; `SmoothedMarks` and `SingleRowRunUnchanged` state the effect.
- `arrangeFirstElementOfEachIDtag` resets the time delta only on the first row of each tag. On a table not sorted by tag, the other rows measure from the row before them, whatever its tag.

## Left out

- File and console I/O: `read_csv`, every print, `showData`, `dataShape`, `checkNaNValues`, `checkDuplicateValues`, `showDataInfo`, `checkImbalanceData`. They do not change the table.
- Plotting: `VisualizeData` and `createSample`. They only draw.
- `dropColumn`, `resetIndex` and `copyData`. Column dropping and the alias have no effect on the modelled columns. Index resets are implicit, since positions are labels here.
- `ascendingSort`: `sort_values` is not modelled. Where order matters, "sorted by tag" is a hypothesis (`Sorted`, `Ascending`).
- `convertColumnType` and `pd.to_datetime`: parsing is not modelled. `CleanTable` proves that x holds integers only. Timestamps enter `TimeDelta` as integer microseconds.
- Smoothing.ArrangeXandYdata: requires every x and y to be an integer. On a "?" the script's comparison raises a TypeError, and the script only smooths the table as read from the file.
- Smoothing.ArrangeXandYdata: the mean is computed as an exact integer quotient rounded toward zero. The script uses float division, which can round differently for sums beyond 2^53.
- TimeDelta.SecondsBetween: the exact quotient likewise stands in for `total_seconds()`, a float.
- TimeDelta.ArrangeFirstElementOfEachIDtag: the chained assignment `data["second_diff"][k] = v` is taken to write through to the table. That holds with pandas' copy-on-write mode off, which was the default when the script was written.
- The offset that `arrangeDateColumn` cuts off is not applied to the time, so timestamps are compared as naive local times, as the script does.
