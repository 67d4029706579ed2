/** The tables the loaders read: a pandas DataFrame made from a CSV file,
    seen as a set of column names and a sequence of rows. */
module Frames {
  import opened Numbers

  /** A DataFrame cell after `pd.read_csv`: a missing value (NaN), a
      number with the text `str()` gives it, or any other text. */
  datatype Cell = NaN | Number(value: Decimal, shown: string) | Text(text: string)

  type Row = map<string, Cell>

  datatype Table = Table(columns: set<string>, rows: seq<Row>)

  /** Every row of a DataFrame has exactly the frame's columns. */
  ghost predicate Rectangular(t: Table) {
    forall i :: 0 <= i < |t.rows| ==> t.rows[i].Keys == t.columns
  }

  type Frame = t: Table | Rectangular(t) witness Table({}, [])

  /** What reading a CSV path gives: no file at the path (`os.path.exists`
      is false), a file `pd.read_csv` cannot parse, or a DataFrame. */
  datatype CsvFile = Absent | Unreadable | Parsed(frame: Frame)

  /** `DataFrame.empty`: true when either axis has length zero. */
  predicate IsEmpty(f: Frame) {
    |f.rows| == 0 || f.columns == {}
  }

  /** The column exists and holds numbers or NaN only, so that
      arithmetic on it does not raise. */
  predicate NumericColumn(f: Frame, col: string) {
    col in f.columns &&
    forall i :: 0 <= i < |f.rows| ==> col in f.rows[i] && !f.rows[i][col].Text?
  }
}
