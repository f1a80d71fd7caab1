# Dataset preparation pipeline, modelled in Dafny

Three small batch scripts prepare an hourly energy/weather table for model
training:

- the **timestamp generator** (`Datafiles/all_datetime.py`) enumerates every
  hour from 2021-01-01 00:00 to 2023-12-31 23:00 inclusive and attaches the
  first `len(df)` of those instants to the table as its `Datetime` column;
- the **column projector** (`Datafiles/whole_dataset.py`) drops five metadata
  columns (`local_time`, `PNODE_RESMRID`, `GRP_TYPE`, `POS`, `GROUP`) and then
  reselects the table to exactly `Datetime`, `Average_Temp`, `MW`;
- the **dataset splitter** (`Datafiles/data_split.py`) restricts the table to
  those three columns and cuts its rows, by position, into train (first 70%),
  validate (next 15%) and test (the rest).

The model keeps the row and column logic underneath the data-frame calls and
proves what it promises.

- `frames.dfy` (module `Frames`): the table. A `Frame` is an ordered list of
  distinct column names, a map from each name to its column, and a row count
  that every column shares. Cells are of an opaque type. It also holds the
  data-frame operations the scripts use: selection by a list of names
  (`Select`), `drop(columns=...)` (`Drop`), positional slicing with Python's
  clamping (`Rows`), and column assignment (`Assign`). The mutable frame that
  the timestamp script changes in place is the class `DataFrame`, whose
  `SetItem` is `df[name] = values`. Missing labels give a `KeyError` result
  that names them.
- `data_split.dfy` (module `DataSplit`): the boundaries `int(N*0.7)` and
  `int(N*0.7) + int(N*0.15)` as integer arithmetic, the three-way split over
  any boundaries `a <= b`, and the script itself.
- `all_datetime.dfy` (module `AllDatetime`): an instant is a whole number of
  hours after 2021-01-01 00:00, so the range runs from hour 0 to hour 26279.
  The generation loop is a `method` with its invariants. The column is placed
  on the frame's 0-based rows, and rows past the last instant get a `Missing`
  cell.
- `whole_dataset.dfy` (module `WholeDataset`): the drop followed by the
  reselection, and the fact that, since the two lists share no name, the
  result is the selection applied directly to the input.

The model follows the scripts as written. Columns other than the three
canonical ones are dropped silently by the reselection; they do not cause an
error. A frame with more rows than the 26,280 generated instants gets
`Missing` in its later rows; it does not fail.

## Model

| member | source | states |
|---|---|---|
| `Frames.Select` | Datafiles/whole_dataset.py:15-18 | `df[names]` fails exactly when a listed column is absent, and the error names exactly the absent ones. Otherwise the result has exactly the listed columns in the listed order, the same row count, and each column's values unchanged. |
| `Frames.SelectAgrees` | Datafiles/whole_dataset.py:18 | Two frames that agree on which selected columns exist, and on their values, give the same selection outcome. |
| `Frames.Drop` | Datafiles/whole_dataset.py:10-12 | `drop(columns=...)` fails exactly when a listed label is absent (pandas' `errors='raise'`), naming the absent labels. Otherwise exactly the unlisted columns remain, as a subsequence of the input's columns, with unchanged values and row count. |
| `Frames.Without` | Datafiles/whole_dataset.py:12 | The remaining column list holds exactly the names of the input that are not dropped. |
| `Frames.WithoutDistinct` | Datafiles/whole_dataset.py:12 | Dropping columns from a list without repeats gives a list without repeats. |
| `Frames.WithoutIsSubsequence` | Datafiles/whole_dataset.py:12 | The surviving columns keep their relative order. |
| `Frames.Rows` | Datafiles/data_split.py:16-18 | `iloc[lo:hi]` has `min(hi, N) - lo` rows when `lo < hi` and `lo < N`, and none otherwise. It has the input's columns, and its row `k` is input row `lo + k`. |
| `Frames.ThreeRunsReassemble` | Datafiles/data_split.py:16-18 | Three consecutive runs of a frame's rows that start at row 0 and together cover all its rows concatenate back to exactly that frame. |
| `Frames.Assign` | Datafiles/all_datetime.py:19 | `df[name] = values` keeps the row count and stores exactly `values` under `name`. An existing column stays where it is; a new one goes last. Every other column and its values are unchanged. |
| `Frames.DataFrame.constructor` | Datafiles/all_datetime.py:6 | A data frame built from valid contents, as `read_csv` returns them, holds exactly those contents. |
| `Frames.DataFrame.SetItem` | Datafiles/all_datetime.py:19 | The in-place assignment leaves the frame equal to `Assign` applied to its old contents. |
| `DataSplit.TrainEnd` | Datafiles/data_split.py:12 | `train_end` is `7N/10` rounded down: `10 * train_end <= 7N < 10 * train_end + 10`. |
| `DataSplit.ValidateEnd` | Datafiles/data_split.py:13 | `validate_end - train_end` is `15N/100` rounded down: `100 * (validate_end - train_end) <= 15N < 100 * (validate_end - train_end) + 100`. |
| `DataSplit.BoundariesInRange` | Datafiles/data_split.py:11-13 | `0 <= train_end <= validate_end <= total_rows` for every row count. |
| `DataSplit.Split` | Datafiles/data_split.py:16-18 | For `a <= b`, the part sizes are `min(a,N)`, `min(b,N) - min(a,N)` and `N - min(b,N)`. Each part has the input's columns. The parts are consecutive runs of input rows in input order: train from row 0, validate right after train, test right after validate. |
| `DataSplit.SplitReassembles` | Datafiles/data_split.py:16-18 | Concatenating train, validate and test gives back the input frame, so no row is lost or duplicated, for any `a <= b`. |
| `DataSplit.SplitAtBoundaries` | Datafiles/data_split.py:11-18 | At the integer boundaries the parts have `(7*N)/10`, `(15*N)/100` and `N - (7*N)/10 - (15*N)/100` rows (integer division, rounding down), each with the input's columns, and together they give back the frame. |
| `DataSplit.SplitColumns` | Datafiles/data_split.py:8-18 | Selecting the columns and then splitting fails exactly when a listed column is absent, naming it. Otherwise every part has exactly the listed columns in order, the boundary sizes hold, and the parts concatenate to the selected frame. |
| `DataSplit.SplitDataset` | Datafiles/data_split.py:8-18 | The script, with `['Datetime','Average_Temp','MW']`: fails exactly when one of the three is absent. Otherwise all three parts have exactly those columns in that order, with the boundary sizes. |
| `DataSplit.TenRows` | Datafiles/data_split.py:12-18 | Ten rows split at 7 and 8. Train is rows 0-6, validate is row 7, test is rows 8 and 9. |
| `DataSplit.TinyInputs` | Datafiles/data_split.py:12-18 | Frames of 0, 1 or 2 rows split without error. Validate is empty, train has one row only for two rows, and test has the rest. |
| `AllDatetime.HourlyRange` | Datafiles/all_datetime.py:9-16 | The inclusive hourly range from `start` to `end` has `end - start + 1` instants, or none when `end < start`. |
| `AllDatetime.HourlyRangeAt` | Datafiles/all_datetime.py:13-16 | The `k`-th generated instant is `start + k` hours. |
| `AllDatetime.HourlyRangeShape` | Datafiles/all_datetime.py:9-16 | The first instant is `start` and the last is `end` (the bound is inclusive). Consecutive instants differ by one hour, the list is strictly increasing, and every instant lies in `[start, end]`. |
| `AllDatetime.DefaultRange` | Datafiles/all_datetime.py:9-16 | The fixed range has 26,280 instants, and instant `k` is hour `k`, from hour 0 (2021-01-01 00:00) to hour 26279 (2023-12-31 23:00). |
| `AllDatetime.GenerateDates` | Datafiles/all_datetime.py:12-16 | The `while` loop terminates, with variant `end + 1 - current` hours. It returns `end - start + 1` instants (or none), instant `k` being `start + k`, which is the inclusive hourly range. |
| `AllDatetime.Aligned` | Datafiles/all_datetime.py:19 | `pd.Series(dates[:len(df)])` on the frame's 0-based rows gives a column of `len(df)` cells. Row `k` holds `dates[k]` for `k < len(dates)` and `Missing` after that. |
| `AllDatetime.AttachDatetime` | Datafiles/all_datetime.py:19 | After the assignment the row count is unchanged, row `k` of `Datetime` holds the `k`-th instant (or `Missing` once they run out), and all other columns keep their place and values. |
| `AllDatetime.AddDatetimeColumn` | Datafiles/all_datetime.py:9-19 | The script, in place: the frame becomes `AttachDatetime` of its old contents with the fixed range. Its row count is unchanged, and row `k` holds hour `k` for `k < 26280` and `Missing` after that. |
| `WholeDataset.Project` | Datafiles/whole_dataset.py:10-18 | The projection succeeds exactly when all five metadata columns and all three canonical columns are present. Failing, it names the missing metadata columns if there are any, and otherwise the missing canonical ones. On success the columns are exactly `Datetime, Average_Temp, MW` in that order, with unchanged values and row count. |
| `WholeDataset.DropThenSelect` | Datafiles/whole_dataset.py:12-18 | When a drop succeeds, selecting names it did not drop gives the same outcome as selecting them from the original frame. |
| `WholeDataset.ProjectIsSelect` | Datafiles/whole_dataset.py:10-18 | The drop list and the keep list are disjoint, so whenever the drop succeeds the projection equals the selection applied directly to the input. |

## Left out

- Reading and writing CSV files, and the hard-coded absolute paths. This is file I/O plus pandas' parsing and type inference, outside what can be verified. A frame arrives as its contents.
- The float arithmetic of `int(total_rows * 0.7)` and `int(total_rows * 0.15)`. `DataSplit.TrainEnd` and `DataSplit.ValidateEnd` use the intended truncation `(7*N)/10` and `(15*N)/100`. The float product can land just below an integer: `90*0.7` is `62.99999999999999` and truncates to 62, while `(7*90)/10` is 63. The partition law and the size laws of `DataSplit.Split` hold for any boundaries `a <= b`, so they do not depend on this arithmetic.
- Calendar and `datetime`/`timedelta` internals. Instants are hour offsets from 2021-01-01 00:00, and converting them to dates is not modelled. The end offset 26279 rests on 2021-2023 having 365 days each.
- Pandas' index alignment beyond the default 0-based row index that `read_csv` produces, and pandas' NaN/NaT representation. A missing timestamp is the `Missing` cell.
- `DataSplit.TrainEnd`: rounds the exact product `7N/10` down, not the float `N*0.7`, so it can be one row more than the script where the float falls just short of an integer (62 against 63 at 90 rows).
- `DataSplit.ValidateEnd`: rounds the exact `15N/100` down, not the float `N*0.15`, for the same reason.
- `Frames.Select`: requires the requested names to be distinct. Pandas also accepts a list with repeats, but the scripts only pass the fixed lists, which have none.
- Duplicate column names in a frame. `read_csv` renames them, so a frame's columns are distinct here.
- Negative slice bounds. The scripts' bounds are never negative, so `Frames.Rows` takes natural numbers.
- `DataSplit.SplitDataset`: does not restate the missing-name list or the concatenation law itself. `DataSplit.SplitColumns`, which it instantiates, states both.
- Chaining the three scripts through shared file paths. It has no behaviour beyond the files themselves.
