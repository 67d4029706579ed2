# Trajectory and camera-image importers, modelled in Dafny

The repository loads robot recordings into two databases. Each recording
is a pose CSV exported from a ROS bag plus folders of camera PNGs. This
project models the two loaders:

- **MobilityDB loader** (`import_to_mobilitydb.py`):
  - `import_trajectory_data` sorts the CSV rows by `secs + nsecs / 1e9`.
  - It decides once, from the column set, which optional channels exist:
    orientation, linear velocity and angular velocity.
  - Every row whose body completes gets a UTC time text to the millisecond
    (`...%f` cut by three digits, then `+00`).
  - That row adds a `value@time` token to the trajectory and to every
    flagged channel. A row that raises is skipped.
  - The loader issues one `trajectories` insert of brace-delimited temporal
    literals when the trajectory is not empty. An empty optional channel is
    NULL.
  - `import_images_metadata` inserts one `camera_images` record for every
    `*.png` whose name ends in `_<seconds>.png`. A name whose timestamp is
    not a number is skipped.
- **QuestDB loader** (`import_to_questdb.py`):
  - `import_csv` converts the `ts` column as a whole to
    `YYYY-MM-DDTHH:MM:SS.ffffffZ`.
  - It then issues one 16-parameter insert per row, in file order, with no
    per-row error handling.
  - `import_images` is the camera-image loader again.

The modules:

| module | content |
|---|---|
| `Wrappers` | `Option` |
| `Numbers` | Decimal digits, zero padding, and the decimal text `float()` parses |
| `CivilTime` | The proleptic Gregorian calendar and the `%Y-%m-%dT%H:%M:%S` layout |
| `StampTime` | Exact instants (integer nanoseconds), the half-even rounding `datetime.fromtimestamp` applies, and both time texts with their readers |
| `Frames` | A DataFrame as a column set plus rows. The rows are maps from column to cell, and every row has exactly the frame's columns. |
| `Literals` | `", ".join`, the brace literal, and its reader |
| `ImageNames` | The timestamp in an image file name, and the records of a listing |
| `MobilityImport` | `import_trajectory_data` and `import_images_metadata` |
| `QuestdbImport` | `import_csv` and `import_images` |

The parts that change state step by step are methods with loops:
- the row loop (`CollectTokens`, with `AppendRowTokens` for one row);
- the loader bodies;
- the insert loop of `import_csv`;
- the two filename loops.

Each method is proved against a function: `Build`, `InsertFor`,
`ImportCsvResult` and `ImageRecords`. The lemmas beside these functions
state what the source promises.

The model follows the code on these points, where its behaviour is easy
to misread:
- `sort_values` is called without a stable sort kind. The model promises
  "sorted by instant (missing last) and a permutation", not "ties keep file
  order".
- The MobilityDB time text keeps milliseconds, not microseconds.
- `import_csv` lets every exception leave the function, including one on a
  single row. A missing column raises rather than being filled with zero.
- An optional channel's value is never parsed (it is only formatted with
  `str()`), so it cannot make a row be skipped.

## Model

| member | source | states |
|---|---|---|
| MobilityImport.ImportTrajectoryData | import_mobilitydb/import_to_mobilitydb.py:133-257 | A missing, unreadable or empty file, and stamp columns that are absent or not numeric, issue no insert. Otherwise the rows are processed sorted by instant (missing last) as a permutation of the file's rows. Every processed row has the columns of every flagged channel. The inserts are those `InsertFor` gives for the built token lists. |
| MobilityImport.StampsNumeric | import_mobilitydb/import_to_mobilitydb.py:148 | Defines when `secs + nsecs / 1e9` can be computed: both stamp columns exist and hold no text. No contract of its own; `ImportTrajectoryData` states that a frame failing it issues no insert. |
| MobilityImport.SortByInstant | import_mobilitydb/import_to_mobilitydb.py:148-149 | The result is sorted by instant, missing instants last, and is a permutation (same multiset) of the rows. |
| MobilityImport.InsertByInstantSorted | import_mobilitydb/import_to_mobilitydb.py:149 | Inserting a row into a sorted sequence keeps it sorted. |
| MobilityImport.InstantLe | import_mobilitydb/import_to_mobilitydb.py:149 | Defines the order of `sort_values(by='full_timestamp')` with NaN placed last: ascending instants, a missing instant after every instant. No contract of its own; `SortByInstant` and `AcceptedSorted` are stated with it. |
| MobilityImport.SortedByInstant | import_mobilitydb/import_to_mobilitydb.py:149 | Defines a sorted row sequence: every earlier row's instant comes no later, in `InstantLe`, than every later row's. No contract of its own; `SortByInstant`, `InsertByInstantSorted` and `ImportTrajectoryData` promise it. |
| MobilityImport.ChannelsOf | import_mobilitydb/import_to_mobilitydb.py:160-162 | Each flag is true exactly when every one of its group's columns is in the column set: four for orientation, three for each velocity. |
| MobilityImport.ColumnsOf | import_mobilitydb/import_to_mobilitydb.py:160-196 | The columns a field is read from: three for the position and each velocity point, one for each orientation component. `ChannelsOf` and `FieldValue` are stated over them. |
| MobilityImport.Filled | import_mobilitydb/import_to_mobilitydb.py:175-196 | Defines which lists a completed row appends to: always the trajectory, and a channel's lists only under its flag. No contract of its own; `BuildTokens`, `BuildParallel` and `InsertChannels` state its effect. |
| MobilityImport.CoversOwnColumns | import_mobilitydb/import_to_mobilitydb.py:160-162 | A row of the frame has the columns of every channel the frame's flags switch on. |
| MobilityImport.Instant | import_mobilitydb/import_to_mobilitydb.py:148 | Defines a row's instant: `secs` as an exact decimal plus the whole nanoseconds. There is no instant when a stamp cell is missing or not a number. No contract of its own; `AcceptsIff` and `SortByInstant` state what depends on it. |
| MobilityImport.Accepts | import_mobilitydb/import_to_mobilitydb.py:164-203 | Defines which rows' loop body completes. No contract of its own; `AcceptsIff` states its meaning. |
| MobilityImport.AcceptsIff | import_mobilitydb/import_to_mobilitydb.py:164-173 | A row's body completes exactly when it has an instant, the instant rounded to the microsecond falls in years 1 to 9999 (`fromtimestamp` raises otherwise), and the three position columns exist. |
| MobilityImport.RowTime | import_mobilitydb/import_to_mobilitydb.py:167-168 | Defines the time text of a completed row: `TimeText` of its instant. No contract of its own; `BuildSameTimes` states every token of a row carries it, and `ReadFieldTokens` reads it back as the row's millisecond. |
| MobilityImport.PointText | import_mobilitydb/import_to_mobilitydb.py:175-196 | Defines the `POINT Z (x y z)` text. No contract of its own; `TokenSplits` and `ReadFieldTokens` read it back. |
| MobilityImport.Render | import_mobilitydb/import_to_mobilitydb.py:175-196 | Defines how an f-string shows a cell: `nan` for a missing value, a number's `str()` text, a text as it is. No contract of its own; `TokenSplits` recovers the rendered value from the token. |
| MobilityImport.Stamped | import_mobilitydb/import_to_mobilitydb.py:175-196 | Defines `value@time`. No contract of its own; `Literals.SplitStamped` splits such a text back at its last `@`, and `TokenSplits` states it for a row's token. |
| MobilityImport.FieldValue | import_mobilitydb/import_to_mobilitydb.py:171-196 | Defines a field's value text: the point of three columns or one scalar column, as `str()` renders the cells. No contract of its own; `TokenSplits` recovers it from the token. |
| MobilityImport.TokenOf | import_mobilitydb/import_to_mobilitydb.py:175-196 | Defines a row's token for a field, `value@time`. No contract of its own; `TokenSplits`, `TokenNoSeparator` and `ReadFieldTokens` state its properties. |
| MobilityImport.CollectTokens | import_mobilitydb/import_to_mobilitydb.py:164-203 | The loop's seven lists are exactly `Build` of the processed rows. |
| MobilityImport.AppendRowTokens | import_mobilitydb/import_to_mobilitydb.py:175-196 | A completed row appends its token to the trajectory and to each flagged channel. Unflagged channels are unchanged. |
| MobilityImport.Extend | import_mobilitydb/import_to_mobilitydb.py:175-196 | Defines one list after a completed row: the row's token appended when the list is filled, the list unchanged otherwise. No contract of its own; `BuildNext` and `AppendRowTokens` state its effect on all seven lists. |
| MobilityImport.Build | import_mobilitydb/import_to_mobilitydb.py:164-203 | Defines the seven lists the row loop builds, row by row, skipping a row that raises. It is the reference `CollectTokens` and `ImportTrajectoryData` are proved against. No contract of its own; `BuildNext`, `BuildTokens`, `BuildParallel`, `BuildSameTimes` and `ReadFieldTokens` state its contents. |
| MobilityImport.BuildNext | import_mobilitydb/import_to_mobilitydb.py:164-203 | One more row: a row that raises leaves every list unchanged. A completed row extends the trajectory and each flagged list by one token. |
| MobilityImport.Accepted | import_mobilitydb/import_to_mobilitydb.py:164-203 | The rows whose body completes, taken from the input. The list is non-empty exactly when some input row completes. |
| MobilityImport.BuildTokens | import_mobilitydb/import_to_mobilitydb.py:164-203 | A flagged channel's list is the tokens of the completed rows, in processing order. An unflagged channel's list is empty. |
| MobilityImport.BuildParallel | import_mobilitydb/import_to_mobilitydb.py:178-196 | Every flagged list has as many tokens as the trajectory. Every unflagged list has none. |
| MobilityImport.BuildSameTimes | import_mobilitydb/import_to_mobilitydb.py:175-196 | The k-th token of every flagged list carries the same time text as the k-th trajectory token. |
| MobilityImport.TokenSplits | import_mobilitydb/import_to_mobilitydb.py:175-196 | A token split at its last `@` gives back the field's value and the row's time text. |
| MobilityImport.TokenNoSeparator | import_mobilitydb/import_to_mobilitydb.py:175-196 | A token holds no `", "` when the row's cells hold no comma. |
| MobilityImport.ReadFieldTokens | import_mobilitydb/import_to_mobilitydb.py:175-196 | Reading a field's tokens back gives each completed row's value and instant, to the millisecond, in row order. |
| MobilityImport.AcceptedSorted | import_mobilitydb/import_to_mobilitydb.py:164-203 | Skipping rows keeps the processing order sorted by instant. |
| MobilityImport.AcceptedInOrder | import_mobilitydb/import_to_mobilitydb.py:164-168 | In the completed rows, instants and millisecond times never decrease. |
| MobilityImport.LiteralOfInsert | import_mobilitydb/import_to_mobilitydb.py:205-215 | The trajectory column holds the brace literal of the trajectory tokens. Every other column holds the optional literal of its list. |
| MobilityImport.InsertFor | import_mobilitydb/import_to_mobilitydb.py:205-247 | At most one insert: none for an empty trajectory, otherwise one holding the trajectory's brace literal, the bag file, the type and the optional literal of every channel. It is the reference `ImportTrajectoryData` is proved against; `LiteralOfInsert`, `InsertWhenAnyAccepted`, `InsertChannels` and `InsertReadsBack` state its contents. |
| MobilityImport.InsertWhenAnyAccepted | import_mobilitydb/import_to_mobilitydb.py:205-247 | One insert is issued exactly when some row completes. None is issued exactly when every row raises. |
| MobilityImport.NoPositionNoInsert | import_mobilitydb/import_to_mobilitydb.py:171-173 | Rows without the position columns issue no insert. |
| MobilityImport.InsertChannels | import_mobilitydb/import_to_mobilitydb.py:231-242 | The insert carries the bag file and trajectory type. A channel column is non-NULL exactly when its channel is flagged. |
| MobilityImport.InsertReadsBack | import_mobilitydb/import_to_mobilitydb.py:207-215 | When no cell holds a comma, a flagged channel's literal reads back as each completed row's value and instant, to the millisecond, in processing order. |
| MobilityImport.ImportImagesMetadata | import_mobilitydb/import_to_mobilitydb.py:96-129 | A missing directory inserts nothing. Otherwise the records are those of the listing, in listing order, and the count is their number. |
| ImageNames.RecordOf | import_mobilitydb/import_to_mobilitydb.py:106-109 | An entry gives a record exactly when its name ends in `.png` and its timestamp text is a number. |
| ImageNames.TimestampText | import_mobilitydb/import_to_mobilitydb.py:108 | Defines `filename.split('_')[-1].replace('.png', '')`. No contract of its own; `LastPieceAfter`, `RemoveTrailingPng` and `ImageTimestampOfName` state which text it is. |
| ImageNames.ImageTimestamp | import_mobilitydb/import_to_mobilitydb.py:108-109 | Defines `float()` of the timestamp text, `None` where it raises `ValueError`. No contract of its own; `ImageTimestampOfName` states the value a `<prefix>_<decimal>.png` name gives, and `NonNumericNameSkipped` the names it rejects. |
| ImageNames.ImageRecords | import_mobilitydb/import_to_mobilitydb.py:105-119 | The records of a listing, in listing order, never more than the entries. `ImageRecordsMembers` and `ImageRecordsAppend` state which records and in what order. |
| ImageNames.EndsWithPng | import_mobilitydb/import_to_mobilitydb.py:106 | Defines `filename.endswith('.png')`. No contract of its own; `RecordOf` uses it. |
| ImageNames.LastPiece | import_mobilitydb/import_to_mobilitydb.py:108 | `split('_')[-1]` holds no underscore and is no longer than the name. `LastPieceAfter` states which text it is. |
| ImageNames.RemovePng | import_mobilitydb/import_to_mobilitydb.py:108 | `replace('.png', '')` is no longer than its input. `RemoveTrailingPng` states what it removes. |
| ImageNames.ImageRecordsAppend | import_mobilitydb/import_to_mobilitydb.py:105-119 | The entries are taken one at a time: the records of `a + b` are those of `a`, then those of `b`. |
| ImageNames.ImageRecordsMembers | import_mobilitydb/import_to_mobilitydb.py:105-119 | A record is inserted exactly when some entry of the listing gives it. |
| ImageNames.ImageRecordFields | import_mobilitydb/import_to_mobilitydb.py:111-116 | Every inserted record names a `.png` entry of the listing and that entry's timestamp, and carries the given camera type, directory and bag file. |
| ImageNames.ImageTimestampOfName | import_mobilitydb/import_to_mobilitydb.py:108-109 | `<prefix>_<decimal>.png` yields that decimal, exactly, as its timestamp. |
| ImageNames.NonNumericNameSkipped | import_mobilitydb/import_to_mobilitydb.py:108-119 | A name whose timestamp text holds a character that is not a digit, a point or a sign is skipped. |
| ImageNames.LastPieceAfter | import_mobilitydb/import_to_mobilitydb.py:108 | `split('_')[-1]` gives the text after the last underscore. |
| ImageNames.RemoveTrailingPng | import_mobilitydb/import_to_mobilitydb.py:108 | `replace('.png', '')` removes the suffix of a text that holds no `p`. |
| Numbers.ParseDecimalText | import_mobilitydb/import_to_mobilitydb.py:109 | Parsing the text of a decimal gives the decimal back. |
| Numbers.ParseDecimal | import_mobilitydb/import_to_mobilitydb.py:109 | Defines the plain decimal texts `float()` reads. No contract of its own; `ParseDecimalText` and `ParseDecimalChars` state its round trip and its alphabet. |
| Numbers.ParseDecimalChars | import_mobilitydb/import_to_mobilitydb.py:109 | A text that parses holds only digits, points and signs. |
| Literals.OptionalLiteral | import_mobilitydb/import_to_mobilitydb.py:210-215 | NULL exactly when the list is empty. Otherwise the brace literal of the list. |
| Literals.Join | import_mobilitydb/import_to_mobilitydb.py:207 | Defines `', '.join(items)`. No contract of its own; `SplitJoin` states that splitting it gives the items back. |
| Literals.SetLiteral | import_mobilitydb/import_to_mobilitydb.py:207 | The tokens joined and put between braces: the text starts with `{` and ends with `}`. `ParseSetLiteral` reads the tokens back. |
| Literals.SplitJoin | import_mobilitydb/import_to_mobilitydb.py:207 | Splitting a non-empty `", "`-joined list whose items hold no separator gives the list back. |
| Literals.ParseSetLiteral | import_mobilitydb/import_to_mobilitydb.py:207 | Reading a brace literal gives its tokens back. |
| Literals.SplitStamped | import_mobilitydb/import_to_mobilitydb.py:175 | Splitting `value@time` at its last `@` gives the value and time back when the time holds no `@`. |
| StampTime.RoundToMicros | import_mobilitydb/import_to_mobilitydb.py:167 | The nearest microsecond, within 500 ns. A tie goes to the even microsecond. |
| StampTime.Nanoseconds | import_mobilitydb/import_to_mobilitydb.py:148 | Defines a decimal number of seconds in nanoseconds, digits below the nanosecond cut toward zero. No contract of its own; `QuestdbImport.SecondsParam` and `QuestdbImport.TsParamReadsBack` state the text it gives. |
| StampTime.IntegerPart | import_mobilitydb/import_to_mobilitydb.py:148 | Defines the whole part of `nsecs`, cut toward zero, added to the instant. No contract of its own; the float division is listed under Left out. |
| StampTime.Convertible | import_mobilitydb/import_to_mobilitydb.py:167 | Defines when `fromtimestamp` succeeds: the rounded microsecond lies in `datetime`'s range. No contract of its own; `CivilTime.PythonYears` states that this is years 1 to 9999, and `MobilityImport.AcceptsIff` uses it. |
| StampTime.RoundToMicrosMonotone | import_mobilitydb/import_to_mobilitydb.py:167 | Rounding never reverses the order of two instants. |
| CivilTime.PythonYears | import_mobilitydb/import_to_mobilitydb.py:167 | An instant falls in years 1 to 9999 exactly when it lies in `datetime`'s microsecond range. |
| CivilTime.ToFromMicros | import_mobilitydb/import_to_mobilitydb.py:167 | Breaking an instant into a UTC date and time and counting it back gives the same instant. |
| CivilTime.FromMicros | import_mobilitydb/import_to_mobilitydb.py:167 | The UTC date and time an instant in microseconds breaks into; every field is in range. `ToFromMicros` and `FromToMicros` state that it inverts counting the fields back. |
| CivilTime.FromToMicros | import_mobilitydb/import_to_mobilitydb.py:167 | Counting a valid date and time into microseconds and breaking it down again gives the same fields. |
| CivilTime.CivilDateOfDayNumber | import_mobilitydb/import_to_mobilitydb.py:167 | The calendar date of a valid date's day number is that date. |
| CivilTime.IsoTextMillis | import_mobilitydb/import_to_mobilitydb.py:168 | The first 23 characters of the microsecond text are the date, the time and the zero-padded milliseconds. |
| CivilTime.IsoText | import_mobilitydb/import_to_mobilitydb.py:168 | `%Y-%m-%dT%H:%M:%S.%f` of a `datetime` in years 1 to 9999 is 26 characters. `IsoTextMillis` states its layout. |
| StampTime.TruncatedMillis | import_mobilitydb/import_to_mobilitydb.py:168 | Cutting the text's last three digits names the same millisecond as the instant. |
| StampTime.ReadTimeTextRoundTrip | import_mobilitydb/import_to_mobilitydb.py:167-168 | The time text reads back as the rounded instant, to the millisecond. |
| StampTime.TimeTextChars | import_mobilitydb/import_to_mobilitydb.py:168 | The time text holds only digits, `-`, `T`, `:`, `.` and `+`, so it holds no comma and no `@`. |
| StampTime.TimeText | import_mobilitydb/import_to_mobilitydb.py:167-168 | The time text is 26 characters long. `TimeTextIsMillisText` states its layout. |
| StampTime.TimeTextIsMillisText | import_mobilitydb/import_to_mobilitydb.py:167-168 | The time text is `YYYY-MM-DDTHH:MM:SS`, a point, the three-digit milliseconds of the rounded instant, and `+00`, for a date in years 1 to 9999. |
| QuestdbImport.ImportCsv | import_questdb/importer/import_to_questdb.py:83-120 | The outcome is exactly `ImportCsvResult`: early returns, raises with the inserts already issued, or every row inserted and the row count reported. |
| QuestdbImport.ImportCsvResult | import_questdb/importer/import_to_questdb.py:83-120 | Defines what `import_csv` does with a file: return on a missing path or an empty frame; raise on an unreadable file, on a `ts` that does not convert, or at the first row missing a column, keeping the inserts already issued; otherwise every row inserted and the row count reported. It is the reference `ImportCsv` is proved against. No contract of its own; `NoInsertWithoutRows`, `BadTsRaises`, `MissingColumnRaises`, `ImportedIff`, `ImportedExecuted` and `ImportedRow` state its cases. |
| Frames.IsEmpty | import_questdb/importer/import_to_questdb.py:89 | Defines `df.empty`: no rows or no columns. No contract of its own; `QuestdbImport.NoInsertWithoutRows` and `QuestdbImport.ImportedIff` state that an empty frame issues no insert. |
| QuestdbImport.NoInsertWithoutRows | import_questdb/importer/import_to_questdb.py:84-91 | A missing path returns. An unreadable file raises. An empty frame returns. None of them inserts. |
| QuestdbImport.SecondsParam | import_questdb/importer/import_to_questdb.py:94-95 | A number of seconds converts exactly when its instant is in the `Timestamp` range. The text then reads back as that instant to the microsecond. |
| QuestdbImport.TsParam | import_questdb/importer/import_to_questdb.py:94-95 | NaN stays NaN (NaT). An empty text or a NaT spelling becomes NaN. A number converts exactly when its instant is in the `Timestamp` range. A text converts exactly when it names such a number, and raises otherwise. A converted value is a 27-character text. |
| QuestdbImport.NumericTextLikeNumber | import_questdb/importer/import_to_questdb.py:94 | A text naming a number converts exactly as that number does. |
| QuestdbImport.ConvertTsSome | import_questdb/importer/import_to_questdb.py:94-95 | The column converts exactly when every row's `ts` converts. Row i of the result is row i converted. |
| QuestdbImport.ConvertRow | import_questdb/importer/import_to_questdb.py:94 | Defines one row with its `ts` cell converted, `None` without a `ts` column or when the value does not convert. No contract of its own; `ConvertRowCells` states what it changes. |
| QuestdbImport.ConvertTs | import_questdb/importer/import_to_questdb.py:94 | The whole `ts` column converted, as many rows as the input, or `None`. `ConvertTsSome` states that it succeeds exactly when every row converts, and row by row. |
| QuestdbImport.ConvertRowCells | import_questdb/importer/import_to_questdb.py:94-95 | Converting keeps a row's columns, replaces its `ts` cell with the converted one, and changes no other cell. |
| QuestdbImport.BadTsRaises | import_questdb/importer/import_to_questdb.py:94 | One `ts` value that does not convert raises before any insert. |
| StampTime.TimestampYears | import_questdb/importer/import_to_questdb.py:94 | Every `Timestamp` instant falls in years 1677 to 2262. |
| QuestdbImport.TsParamReadsBack | import_questdb/importer/import_to_questdb.py:94-95 | The `ts` text of a number of seconds, or of a text naming one, reads back as that instant, to the microsecond (rounded down). |
| StampTime.ReadTsTextRoundTrip | import_questdb/importer/import_to_questdb.py:95 | `%Y-%m-%dT%H:%M:%S.%fZ` of a `Timestamp` reads back as its microsecond. |
| StampTime.TsText | import_questdb/importer/import_to_questdb.py:95 | `%Y-%m-%dT%H:%M:%S.%fZ` of a `Timestamp` is 27 characters ending in `Z`. `ReadTsTextRoundTrip` reads it back. |
| QuestdbImport.CellsOf | import_questdb/importer/import_to_questdb.py:110-114 | The cells exist exactly when every named column does, and the k-th cell is the k-th column's. |
| QuestdbImport.RowParams | import_questdb/importer/import_to_questdb.py:109-116 | Defines one row's sixteen parameters. No contract of its own; `RowParamsSome` and `RowParamsCells` state when they exist and what they hold. |
| QuestdbImport.RowParamsSome | import_questdb/importer/import_to_questdb.py:109-116 | A row's parameters exist exactly when it has `ts` and the thirteen measurement columns. |
| QuestdbImport.RowParamsCells | import_questdb/importer/import_to_questdb.py:109-116 | The parameters are `ts`, the thirteen measurements in insert-column order, the bag file and the trajectory type: sixteen in all. |
| QuestdbImport.ExecuteRows | import_questdb/importer/import_to_questdb.py:108-116 | The loop completes exactly when every row has its parameters, and then insert i is row i's. |
| QuestdbImport.Execute | import_questdb/importer/import_to_questdb.py:108-116 | The inserts issued, never more than the rows, and whether the loop ran to its end, in which case there is one per row. `ExecuteRows`, `ExecutePrefix` and `ExecuteStopped` state which inserts they are. |
| QuestdbImport.ExecutePrefix | import_questdb/importer/import_to_questdb.py:108-116 | Every insert issued, including before a raise, is the parameters of the row at the same position. |
| QuestdbImport.ExecuteStopped | import_questdb/importer/import_to_questdb.py:108-116 | After the row that raises, later rows issue nothing. |
| QuestdbImport.MissingColumnRaises | import_questdb/importer/import_to_questdb.py:108-116 | A non-empty frame missing one of the fourteen columns raises before any insert: no row is skipped and no value is filled in. |
| QuestdbImport.ImportedIff | import_questdb/importer/import_to_questdb.py:83-120 | The file is imported exactly when it exists, parses, is not empty, its `ts` column converts and it has all fourteen columns. |
| QuestdbImport.ImportedExecuted | import_questdb/importer/import_to_questdb.py:108-120 | An imported file has one insert per row, in file order (no sort), and the count reported is the row count. |
| QuestdbImport.ConvertedRowParams | import_questdb/importer/import_to_questdb.py:94-116 | A converted row's parameters are its converted `ts`, its thirteen measurements, the bag file and the trajectory type. |
| QuestdbImport.ImportedRow | import_questdb/importer/import_to_questdb.py:108-116 | Row i of an imported file is inserted as its converted `ts`, its thirteen measurements in column order, then the bag file and trajectory type. |
| QuestdbImport.ImportImages | import_questdb/importer/import_to_questdb.py:60-81 | A missing folder inserts nothing. Otherwise the records are those of the listing, in listing order, and `count` is their number. |

## Left out

- Database I/O: connections, cursors, `commit` and `rollback` are left out. Inserts are the values the model returns. A failing `execute` is not modelled.
- Prints, and the debug block of `import_trajectory_data`, are left out.
- The Python `float` arithmetic of `secs + nsecs / 1e9` is not modelled. An instant is exact integer nanoseconds: the seconds are decimals cut to the nanosecond, and the integer part of `nsecs` is added.
- `pd.to_datetime(unit='s')` rounds a float to nanoseconds. The model uses the exact decimal cut to the nanosecond instead.
- `str()` of a float cell is not modelled. A number cell carries its rendered text as given.
- `float()` accepts more than plain decimals (exponents, `inf`, `nan`, underscores, whitespace). The model accepts only optionally signed plain decimals, which makes image names in those forms skipped.
- QuestdbImport.TsParam: a text `ts` in one of the other `float()` forms is taken to raise, where pandas would read it as a number of seconds.
- ImageNames.ImageTimestamp: the record keeps the exact decimal of the name, not the nearest double that `float()` returns. A timestamp with more significant digits than a double holds is stored rounded by the source.
- `os.listdir` order and `os.path.join` are left out. The listing is a parameter, taken in the given order, and the path is kept as a directory plus file name.
- `os.path.exists` and `pd.read_csv` are left out. The file is a parameter: absent, unreadable, or a parsed frame.
- A flagged optional column missing in a single row is not modelled. It would leave partly appended lists, but it cannot happen, because every row of a DataFrame has every column.
- MobilityImport.ImportTrajectoryData: does not promise an order among rows with equal instants, because `sort_values` uses an unstable sort by default.
- MobilityImport.ImportTrajectoryData: a stamp column that holds text raises at the stamp computation, before the loop. The model gives it no insert and no processed rows, which is the same result.
- QuestdbImport.ImportImages and MobilityImport.ImportImagesMetadata: an insert that fails is not modelled. The QuestDB loop would skip the entry; the MobilityDB loop would roll back.
