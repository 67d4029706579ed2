/** The QuestDB importer: `import_csv`, which turns every row of a pose CSV
    into one flat 16-parameter `trajectories` insert, in file order, and
    `import_images`, the camera-image loader. */
module QuestdbImport {
  import opened Wrappers
  import opened Numbers
  import opened Frames
  import opened StampTime
  import opened ImageNames

  const TsColumn := "ts"

  /** The thirteen measurement columns, in insert order. */
  const MeasureColumns: seq<string> :=
    ["pos_x", "pos_y", "pos_z",
     "orientation_x", "orientation_y", "orientation_z", "orientation_w",
     "linear_vel_x", "linear_vel_y", "linear_vel_z",
     "angular_vel_x", "angular_vel_y", "angular_vel_z"]

  /** The columns a row's parameters are read from, in insert order. */
  const ParamColumns: seq<string> := [TsColumn] + MeasureColumns

  /** One insert: the values bound to the sixteen `%s` placeholders. */
  type Params = seq<Cell>

  // ---------------------------------------------------------------------
  // Converting the `ts` column from seconds to timestamp text

  /** The texts pandas reads as a missing timestamp. */
  const NatStrings: set<string> := {"NaT", "nat", "NAT", "nan", "NaN", "NAN"}

  /** The timestamp text of a number of seconds, or `None` when the instant
      lies outside the `Timestamp` range (`OutOfBoundsDatetime`). */
  function SecondsParam(d: Decimal): (r: Option<Cell>)
    ensures r.Some? <==> InTimestampRange(Nanoseconds(d))
    ensures r.Some? ==> r.value.Text? && ReadTsText(r.value.text) == Some(Nanoseconds(d) / 1000)
  {
    var ns := Nanoseconds(d);
    if InTimestampRange(ns) then
      ReadTsTextRoundTrip(ns);
      Some(Text(TsText(ns)))
    else None
  }

  /** The new `ts` cell of one value: a missing value stays missing (NaT
      formats to NaN); a number of seconds becomes its timestamp text; a
      text is missing when empty or a NaT spelling, is read as a number of
      seconds when it is one, and otherwise makes the conversion raise
      (`None`), as does an instant outside the `Timestamp` range. */
  function TsParam(c: Cell): (r: Option<Cell>)
    ensures c.NaN? ==> r == Some(NaN)
    ensures c.Number? ==> (r.Some? <==> InTimestampRange(Nanoseconds(c.value)))
    ensures c.Text? && (c.text == "" || c.text in NatStrings) ==> r == Some(NaN)
    ensures c.Text? && c.text != "" && c.text !in NatStrings ==>
      (r.Some? <==> ParseDecimal(c.text).Some? && InTimestampRange(Nanoseconds(ParseDecimal(c.text).value)))
    ensures r.Some? && r.value != NaN ==> r.value.Text? && |r.value.text| == 27
  {
    match c
    case NaN => Some(NaN)
    case Number(d, _) => SecondsParam(d)
    case Text(t) =>
      if t == "" || t in NatStrings then Some(NaN)
      else match ParseDecimal(t)
        case Some(d) => SecondsParam(d)
        case None => None
  }

  /** The row with its `ts` cell converted, or `None` when the row has no
      `ts` column or its value does not convert. */
  function ConvertRow(row: Row): Option<Row> {
    if TsColumn !in row then None
    else match TsParam(row[TsColumn])
      case Some(c) => Some(row[TsColumn := c])
      case None => None
  }

  /** The whole-column conversion: every row converted, or `None` when any
      row fails (the column is converted at once, so one bad value raises
      before any row is used). */
  function ConvertTs(rows: seq<Row>): (r: Option<seq<Row>>)
    ensures r.Some? ==> |r.value| == |rows|
  {
    if rows == [] then Some([])
    else
      match (ConvertTs(rows[..|rows| - 1]), ConvertRow(rows[|rows| - 1]))
      case (Some(init), Some(row)) => Some(init + [row])
      case _ => None
  }

  lemma {:induction false} ConvertTsSome(rows: seq<Row>)
    ensures ConvertTs(rows).Some? <==> forall i :: 0 <= i < |rows| ==> ConvertRow(rows[i]).Some?
    ensures ConvertTs(rows).Some? ==>
      forall i :: 0 <= i < |rows| ==> ConvertTs(rows).value[i] == ConvertRow(rows[i]).value
  {
    if rows != [] {
      var init := rows[..|rows| - 1];
      ConvertTsSome(init);
      assert forall i :: 0 <= i < |init| ==> init[i] == rows[i];
    }
  }

  /** Converting keeps a row's columns and replaces its `ts` cell only. */
  lemma ConvertRowCells(row: Row)
    requires ConvertRow(row).Some?
    ensures TsColumn in row && ConvertRow(row).value.Keys == row.Keys
    ensures ConvertRow(row).value[TsColumn] == TsParam(row[TsColumn]).value
    ensures forall c :: c in row && c != TsColumn ==> ConvertRow(row).value[c] == row[c]
  {
  }

  // ---------------------------------------------------------------------
  // The insert loop

  /** The cells of the named columns of a row, in order, or `None` when a
      column is missing (`row[name]` raises `KeyError`). */
  function CellsOf(row: Row, names: seq<string>): (r: Option<seq<Cell>>)
    ensures r.Some? <==> forall k :: 0 <= k < |names| ==> names[k] in row
    ensures r.Some? ==> |r.value| == |names| && forall k :: 0 <= k < |names| ==> r.value[k] == row[names[k]]
  {
    if names == [] then Some([])
    else
      var init := names[..|names| - 1];
      var name := names[|names| - 1];
      assert forall k :: 0 <= k < |init| ==> init[k] == names[k];
      match CellsOf(row, init)
      case Some(cells) => if name in row then Some(cells + [row[name]]) else None
      case None => None
  }

  /** The parameters of one row's insert: `ts`, the thirteen measurements,
      the bag file and the trajectory type. */
  function RowParams(row: Row, bagFile: string, trajType: string): Option<Params> {
    match CellsOf(row, ParamColumns)
    case Some(cells) => Some(cells + [Text(bagFile), Text(trajType)])
    case None => None
  }

  /** The inserts issued for rows, in order, and whether the loop ran to
      its end; it stops at the first row that raises. */
  function Execute(rows: seq<Row>, bagFile: string, trajType: string): (r: (seq<Params>, bool))
    ensures |r.0| <= |rows|
    ensures r.1 ==> |r.0| == |rows|
  {
    if rows == [] then ([], true)
    else
      var (done, completed) := Execute(rows[..|rows| - 1], bagFile, trajType);
      if !completed then (done, false)
      else match RowParams(rows[|rows| - 1], bagFile, trajType)
        case Some(params) => (done + [params], true)
        case None => (done, false)
  }

  /** What `import_csv` does with a file. */
  datatype CsvOutcome =
    | NoFile                                               // path missing: returns at once
    | EmptyFile                                            // `df.empty`: returns before any insert
    | Raised(executed: seq<Params>)                        // an exception leaves the function
    | Imported(executed: seq<Params>, count: nat)          // all rows inserted; `len(df)` reported

  /** `import_csv` as a function of the file. */
  function ImportCsvResult(csv: CsvFile, bagFile: string, trajType: string): CsvOutcome {
    match csv
    case Absent => NoFile
    case Unreadable => Raised([])
    case Parsed(frame) =>
      if IsEmpty(frame) then EmptyFile
      else match ConvertTs(frame.rows)
        case None => Raised([])
        case Some(rows) =>
          var (executed, completed) := Execute(rows, bagFile, trajType);
          if completed then Imported(executed, |frame.rows|) else Raised(executed)
  }

  /** `import_csv`: the `ts` column converted as a whole, then one insert
      per row, in DataFrame order, with no per-row error handling. */
  method ImportCsv(csv: CsvFile, bagFile: string, trajType: string) returns (outcome: CsvOutcome)
    ensures outcome == ImportCsvResult(csv, bagFile, trajType)
  {
    if csv.Absent? {
      return NoFile;
    }
    if csv.Unreadable? {
      return Raised([]);
    }
    var frame := csv.frame;
    if IsEmpty(frame) {
      return EmptyFile;
    }
    var converted := ConvertTs(frame.rows);
    if converted.None? {
      return Raised([]);
    }
    var rows := converted.value;
    var executed: seq<Params> := [];
    var i := 0;
    while i < |rows|
      invariant 0 <= i <= |rows|
      invariant Execute(rows[..i], bagFile, trajType) == (executed, true)
    {
      assert rows[..i + 1][..i] == rows[..i];
      var params := RowParams(rows[i], bagFile, trajType);
      if params.None? {
        ExecuteStopped(rows, i + 1, bagFile, trajType);
        return Raised(executed);
      }
      executed := executed + [params.value];
      i := i + 1;
    }
    assert rows[..i] == rows;
    outcome := Imported(executed, |frame.rows|);
  }

  // ---------------------------------------------------------------------
  // What `import_csv` promises

  /** The loop runs to its end exactly when every row has every named
      column, and then issues each row's parameters, in order. */
  lemma {:induction false} ExecuteRows(rows: seq<Row>, bagFile: string, trajType: string)
    ensures Execute(rows, bagFile, trajType).1 <==>
      forall i :: 0 <= i < |rows| ==> RowParams(rows[i], bagFile, trajType).Some?
    ensures Execute(rows, bagFile, trajType).1 ==>
      forall i :: 0 <= i < |rows| ==>
        RowParams(rows[i], bagFile, trajType) == Some(Execute(rows, bagFile, trajType).0[i])
  {
    if rows != [] {
      var init := rows[..|rows| - 1];
      ExecuteRows(init, bagFile, trajType);
      assert forall i :: 0 <= i < |init| ==> init[i] == rows[i];
    }
  }

  /** Nothing is inserted at or after the first row that raises: every
      insert issued is that of a row before it. */
  lemma {:induction false} ExecutePrefix(rows: seq<Row>, bagFile: string, trajType: string)
    ensures var (done, _) := Execute(rows, bagFile, trajType);
      forall i :: 0 <= i < |done| ==> RowParams(rows[i], bagFile, trajType) == Some(done[i])
  {
    if rows != [] {
      var init := rows[..|rows| - 1];
      ExecutePrefix(init, bagFile, trajType);
      assert forall i :: 0 <= i < |init| ==> init[i] == rows[i];
    }
  }

  /** Once a row has raised, the rows after it change nothing. */
  lemma {:induction false} ExecuteStopped(rows: seq<Row>, j: nat, bagFile: string, trajType: string)
    requires j <= |rows| && !Execute(rows[..j], bagFile, trajType).1
    ensures Execute(rows, bagFile, trajType) == Execute(rows[..j], bagFile, trajType)
    decreases |rows|
  {
    if j == |rows| {
      assert rows[..j] == rows;
    } else {
      var init := rows[..|rows| - 1];
      assert init[..j] == rows[..j];
      ExecuteStopped(init, j, bagFile, trajType);
    }
  }

  /** The fourteen columns a row's parameters are read from. */
  predicate HasParamColumns(columns: set<string>) {
    TsColumn in columns && forall k :: 0 <= k < |MeasureColumns| ==> MeasureColumns[k] in columns
  }

  /** The parameters exist exactly when the row has all fourteen columns. */
  lemma RowParamsSome(row: Row, bagFile: string, trajType: string)
    ensures RowParams(row, bagFile, trajType).Some? <==> HasParamColumns(row.Keys)
  {
    assert ParamColumns[0] == TsColumn;
    assert forall k :: 0 <= k < |MeasureColumns| ==> ParamColumns[k + 1] == MeasureColumns[k];
  }

  /** A row with every parameter column gives `ts`, the thirteen
      measurements in column order, the bag file and the type. */
  lemma RowParamsCells(row: Row, bagFile: string, trajType: string)
    requires HasParamColumns(row.Keys)
    ensures RowParams(row, bagFile, trajType).Some?
    ensures var p := RowParams(row, bagFile, trajType).value;
      |p| == 16 && p[0] == row[TsColumn] &&
      (forall k :: 0 <= k < 13 ==> p[k + 1] == row[MeasureColumns[k]]) &&
      p[14] == Text(bagFile) && p[15] == Text(trajType)
  {
    RowParamsSome(row, bagFile, trajType);
    var cells := CellsOf(row, ParamColumns).value;
    forall k | 0 <= k < 13 ensures cells[k + 1] == row[MeasureColumns[k]] {
      assert ParamColumns[k + 1] == MeasureColumns[k];
    }
  }

  /** The early returns: a missing path, an unreadable file and an empty
      DataFrame issue no insert. */
  lemma NoInsertWithoutRows(csv: CsvFile, bagFile: string, trajType: string)
    requires !csv.Parsed? || IsEmpty(csv.frame)
    ensures var r := ImportCsvResult(csv, bagFile, trajType);
      r == NoFile || r == EmptyFile || r == Raised([])
    ensures csv.Absent? ==> ImportCsvResult(csv, bagFile, trajType) == NoFile
    ensures csv.Parsed? ==> ImportCsvResult(csv, bagFile, trajType) == EmptyFile
  {
  }

  /** A `ts` value that does not convert raises before any insert. */
  lemma BadTsRaises(frame: Frame, bagFile: string, trajType: string, i: nat)
    requires !IsEmpty(frame) && i < |frame.rows|
    requires ConvertRow(frame.rows[i]).None?
    ensures ImportCsvResult(Parsed(frame), bagFile, trajType) == Raised([])
  {
    ConvertTsSome(frame.rows);
  }

  /** A frame lacking one of the fourteen columns raises at its first row,
      before any insert: no row is skipped and no value is filled in. */
  lemma MissingColumnRaises(frame: Frame, bagFile: string, trajType: string)
    requires !IsEmpty(frame) && !HasParamColumns(frame.columns)
    ensures ImportCsvResult(Parsed(frame), bagFile, trajType) == Raised([])
  {
    var rows := frame.rows;
    ConvertTsSome(rows);
    if ConvertTs(rows).Some? {
      var converted := ConvertTs(rows).value;
      assert rows[0].Keys == frame.columns;
      ConvertRowCells(rows[0]);
      RowParamsSome(converted[0], bagFile, trajType);
      ExecutePrefix(converted, bagFile, trajType);
    }
  }

  /** The file is imported exactly when it exists, parses, is not empty,
      its `ts` column converts and it has all fourteen columns. */
  lemma ImportedIff(csv: CsvFile, bagFile: string, trajType: string)
    ensures ImportCsvResult(csv, bagFile, trajType).Imported? <==>
      csv.Parsed? && !IsEmpty(csv.frame) && ConvertTs(csv.frame.rows).Some? &&
      HasParamColumns(csv.frame.columns)
  {
    if csv.Parsed? && !IsEmpty(csv.frame) && ConvertTs(csv.frame.rows).Some? {
      var frame := csv.frame;
      if HasParamColumns(frame.columns) {
        var rows := ConvertTs(frame.rows).value;
        ConvertTsSome(frame.rows);
        forall i | 0 <= i < |rows| ensures RowParams(rows[i], bagFile, trajType).Some? {
          assert frame.rows[i].Keys == frame.columns;
          ConvertRowCells(frame.rows[i]);
          RowParamsSome(rows[i], bagFile, trajType);
        }
        ExecuteRows(rows, bagFile, trajType);
      } else {
        MissingColumnRaises(frame, bagFile, trajType);
      }
    }
  }

  /** An imported file has one insert per DataFrame row, in DataFrame
      order, and reports the row count. */
  lemma ImportedExecuted(frame: Frame, bagFile: string, trajType: string)
    requires ImportCsvResult(Parsed(frame), bagFile, trajType).Imported?
    ensures ConvertTs(frame.rows).Some?
    ensures var r := ImportCsvResult(Parsed(frame), bagFile, trajType);
      r.count == |frame.rows| == |r.executed| &&
      forall i :: 0 <= i < |frame.rows| ==>
        RowParams(ConvertTs(frame.rows).value[i], bagFile, trajType) == Some(r.executed[i])
  {
    ExecuteRows(ConvertTs(frame.rows).value, bagFile, trajType);
  }

  /** The parameters of a converted row: its converted `ts`, its thirteen
      measurements in column order, then the bag file and trajectory type. */
  lemma ConvertedRowParams(row: Row, bagFile: string, trajType: string)
    requires ConvertRow(row).Some? && HasParamColumns(row.Keys)
    ensures RowParams(ConvertRow(row).value, bagFile, trajType).Some?
    ensures var p := RowParams(ConvertRow(row).value, bagFile, trajType).value;
      |p| == 16 && p[0] == TsParam(row[TsColumn]).value &&
      (forall k :: 0 <= k < 13 ==> p[k + 1] == row[MeasureColumns[k]]) &&
      p[14] == Text(bagFile) && p[15] == Text(trajType)
  {
    var converted := ConvertRow(row).value;
    ConvertRowCells(row);
    MeasuresAreNotTs();
    RowParamsCells(converted, bagFile, trajType);
  }

  lemma MeasuresAreNotTs()
    ensures forall k :: 0 <= k < |MeasureColumns| ==> MeasureColumns[k] != TsColumn
  {
  }

  /** Row `i` of an imported file is inserted as sixteen parameters: its
      converted `ts`, its thirteen measurements in column order, then the
      bag file and trajectory type shared by every row. */
  lemma ImportedRow(frame: Frame, bagFile: string, trajType: string, i: nat)
    requires ImportCsvResult(Parsed(frame), bagFile, trajType).Imported?
    requires i < |frame.rows|
    ensures HasParamColumns(frame.rows[i].Keys) && TsParam(frame.rows[i][TsColumn]).Some?
    ensures var r := ImportCsvResult(Parsed(frame), bagFile, trajType);
      var row := frame.rows[i];
      i < |r.executed| && |r.executed[i]| == 16 &&
      r.executed[i][0] == TsParam(row[TsColumn]).value &&
      (forall k :: 0 <= k < 13 ==> r.executed[i][k + 1] == row[MeasureColumns[k]]) &&
      r.executed[i][14] == Text(bagFile) && r.executed[i][15] == Text(trajType)
  {
    ImportedIff(Parsed(frame), bagFile, trajType);
    ImportedExecuted(frame, bagFile, trajType);
    ConvertTsSome(frame.rows);
    var row := frame.rows[i];
    assert row.Keys == frame.columns;
    ConvertRowCells(row);
    ConvertedRowParams(row, bagFile, trajType);
  }

  /** The `ts` text of a row whose `ts` is a number of seconds, or a text
      naming one, reads back as that instant to the microsecond
      (nanoseconds cut toward the past). */
  lemma TsParamReadsBack(c: Cell, d: Decimal)
    requires (c.Number? && c.value == d) || (c.Text? && c.text != "" && c.text !in NatStrings && ParseDecimal(c.text) == Some(d))
    requires TsParam(c).Some?
    ensures TsParam(c).value.Text?
    ensures ReadTsText(TsParam(c).value.text) == Some(Nanoseconds(d) / 1000)
  {
  }

  /** A text `ts` that names a number converts exactly as that number
      does: the same timestamp text, or the same out-of-range error. */
  lemma NumericTextLikeNumber(t: string, shown: string)
    requires t != "" && t !in NatStrings && ParseDecimal(t).Some?
    ensures TsParam(Text(t)) == TsParam(Number(ParseDecimal(t).value, shown))
  {
  }

  // ---------------------------------------------------------------------
  // `import_images`

  /** `import_images`: the records inserted for a folder listing, and
      `count`. A missing folder returns before the loop. */
  method ImportImages(folderExists: bool, folder: string, listing: seq<string>,
                      cameraType: string, bagFile: string)
    returns (records: seq<ImageRecord>, count: nat)
    ensures folderExists ==> records == ImageRecords(folder, listing, cameraType, bagFile)
    ensures !folderExists ==> records == []
    ensures count == |records|
  {
    records, count := [], 0;
    if !folderExists {
      return;
    }
    for i := 0 to |listing|
      invariant records == ImageRecords(folder, listing[..i], cameraType, bagFile)
      invariant count == |records|
    {
      var fname := listing[i];
      assert listing[..i + 1][..i] == listing[..i];
      ImageRecordsLast(folder, listing[..i + 1], cameraType, bagFile);
      if EndsWithPng(fname) {
        var ts := ImageTimestamp(fname);
        if ts.Some? {
          records := records + [ImageRecord(ts.value, cameraType, folder, fname, bagFile)];
          count := count + 1;
        }
      }
    }
    assert listing[..|listing|] == listing;
  }
}
