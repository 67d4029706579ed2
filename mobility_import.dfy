/** The MobilityDB importer: the trajectory loader, which turns one pose
    CSV into a single `trajectories` insert of temporal literals, and the
    camera-image loader. */
module MobilityImport {
  import opened Wrappers
  import opened Frames
  import opened CivilTime
  import opened Literals
  import opened StampTime
  import opened ImageNames

  const SecsColumn := "header.stamp.secs"
  const NsecsColumn := "header.stamp.nsecs"

  /** The seven temporal values of a trajectory. */
  datatype Field = Position | OrientationX | OrientationY | OrientationZ | OrientationW
                 | LinearVelocity | AngularVelocity

  const OrientationColumns: seq<string> :=
    ["pose.pose.orientation.x", "pose.pose.orientation.y", "pose.pose.orientation.z", "pose.pose.orientation.w"]

  /** The CSV columns a field is read from: three for a point, one for a
      scalar. */
  function ColumnsOf(f: Field): (r: seq<string>)
    ensures |r| == 1 || |r| == 3
  {
    match f
    case Position => ["pose.pose.position.x", "pose.pose.position.y", "pose.pose.position.z"]
    case OrientationX => OrientationColumns[0..1]
    case OrientationY => OrientationColumns[1..2]
    case OrientationZ => OrientationColumns[2..3]
    case OrientationW => OrientationColumns[3..4]
    case LinearVelocity => ["twist.twist.linear.x", "twist.twist.linear.y", "twist.twist.linear.z"]
    case AngularVelocity => ["twist.twist.angular.x", "twist.twist.angular.y", "twist.twist.angular.z"]
  }

  predicate HasAll(columns: set<string>, names: seq<string>) {
    forall i :: 0 <= i < |names| ==> names[i] in columns
  }

  predicate HasField(row: Row, f: Field) {
    HasAll(row.Keys, ColumnsOf(f))
  }

  /** The three availability flags, fixed once from the column set before
      any row is read. */
  datatype Channels = Channels(orientation: bool, linear: bool, angular: bool)

  function ChannelsOf(columns: set<string>): (ch: Channels)
    ensures ch.orientation <==> forall i :: 0 <= i < 4 ==> OrientationColumns[i] in columns
    ensures ch.linear <==> HasAll(columns, ColumnsOf(LinearVelocity))
    ensures ch.angular <==> HasAll(columns, ColumnsOf(AngularVelocity))
  {
    Channels(HasAll(columns, OrientationColumns),
             HasAll(columns, ColumnsOf(LinearVelocity)),
             HasAll(columns, ColumnsOf(AngularVelocity)))
  }

  /** Whether the token list of a field is filled under the flags; the
      trajectory itself always is. */
  predicate Filled(ch: Channels, f: Field) {
    match f
    case Position => true
    case LinearVelocity => ch.linear
    case AngularVelocity => ch.angular
    case _ => ch.orientation
  }

  /** A row has the columns of every flagged group. */
  predicate Covers(row: Row, ch: Channels) {
    forall f :: f != Position && Filled(ch, f) ==> HasField(row, f)
  }

  /** Every row of a frame has the columns its flags are computed from. */
  lemma CoversOwnColumns(row: Row)
    ensures Covers(row, ChannelsOf(row.Keys))
  {
    var ch := ChannelsOf(row.Keys);
    forall f | f != Position && Filled(ch, f) ensures HasField(row, f) {
      var cols := ColumnsOf(f);
      if f.OrientationX? || f.OrientationY? || f.OrientationZ? || f.OrientationW? {
        forall i | 0 <= i < |cols| ensures cols[i] in row.Keys {
          assert cols[i] in OrientationColumns;
        }
      }
    }
  }

  // ---------------------------------------------------------------------
  // One row

  /** `secs + nsecs / 1e9` of a row in nanoseconds; `None` where either
      field is missing (NaN). */
  function Instant(row: Row): Option<int> {
    if SecsColumn in row && NsecsColumn in row then
      match (row[SecsColumn], row[NsecsColumn])
      case (Number(s, _), Number(n, _)) => Some(Nanoseconds(s) + IntegerPart(n))
      case _ => None
    else None
  }

  /** The body of the row loop completes: the instant converts to a
      `datetime` and the position columns exist. Any other row raises and
      is skipped. */
  predicate Accepts(row: Row) {
    Instant(row).Some? && Convertible(Instant(row).value) && HasField(row, Position)
  }

  /** A row's body completes exactly when both stamps are numbers, the
      instant rounded to the microsecond falls in `datetime`'s years 1 to
      9999, and the three position columns exist. */
  lemma AcceptsIff(row: Row)
    ensures Accepts(row) <==>
      Instant(row).Some? && 1 <= FromMicros(RoundToMicros(Instant(row).value)).year <= 9999 &&
      HasField(row, Position)
  {
    if Instant(row).Some? {
      PythonYears(RoundToMicros(Instant(row).value));
    }
  }

  /** The time text every token of an accepted row carries. */
  function RowTime(row: Row): string
    requires Accepts(row)
  {
    TimeText(Instant(row).value)
  }

  /** The milliseconds since the epoch the time text of a row names. */
  function Millis(row: Row): int
    requires Accepts(row)
  {
    RoundToMicros(Instant(row).value) / 1000
  }

  /** A cell in an f-string: `nan` for a missing value. */
  function Render(c: Cell): string {
    match c
    case NaN => "nan"
    case Number(_, shown) => shown
    case Text(t) => t
  }

  /** `POINT Z (x y z)`: the 3D point form of well-known text. */
  function PointText(x: string, y: string, z: string): string {
    "POINT Z (" + x + " " + y + " " + z + ")"
  }

  /** The value a field's token carries for a row. */
  function FieldValue(row: Row, f: Field): string
    requires HasField(row, f)
  {
    var cols := ColumnsOf(f);
    if |cols| == 3 then PointText(Render(row[cols[0]]), Render(row[cols[1]]), Render(row[cols[2]]))
    else Render(row[cols[0]])
  }

  /** `value@time` */
  function Stamped(value: string, time: string): string {
    value + "@" + time
  }

  function TokenOf(row: Row, f: Field): string
    requires Accepts(row) && HasField(row, f)
  {
    Stamped(FieldValue(row, f), RowTime(row))
  }

  // ---------------------------------------------------------------------
  // The seven token lists

  datatype TokenLists = TokenLists(
    trajectory: seq<string>,
    orientationX: seq<string>, orientationY: seq<string>, orientationZ: seq<string>, orientationW: seq<string>,
    linearVelocity: seq<string>, angularVelocity: seq<string>)

  function ListOf(lists: TokenLists, f: Field): seq<string> {
    match f
    case Position => lists.trajectory
    case OrientationX => lists.orientationX
    case OrientationY => lists.orientationY
    case OrientationZ => lists.orientationZ
    case OrientationW => lists.orientationW
    case LinearVelocity => lists.linearVelocity
    case AngularVelocity => lists.angularVelocity
  }

  /** A field's list after an accepted row: one more token when the field
      is filled, the same list otherwise. */
  function Extend(list: seq<string>, row: Row, ch: Channels, f: Field): seq<string>
    requires Accepts(row) && Covers(row, ch)
  {
    if Filled(ch, f) then list + [TokenOf(row, f)]
    else list
  }

  /** The lists after the rows, in order, of a frame: what the row loop
      builds. */
  function Build(rows: seq<Row>, ch: Channels): TokenLists
    requires forall r :: r in rows ==> Covers(r, ch)
  {
    if rows == [] then TokenLists([], [], [], [], [], [], [])
    else
      var lists := Build(rows[..|rows| - 1], ch);
      var row := rows[|rows| - 1];
      if !Accepts(row) then lists
      else TokenLists(
        Extend(lists.trajectory, row, ch, Position),
        Extend(lists.orientationX, row, ch, OrientationX), Extend(lists.orientationY, row, ch, OrientationY),
        Extend(lists.orientationZ, row, ch, OrientationZ), Extend(lists.orientationW, row, ch, OrientationW),
        Extend(lists.linearVelocity, row, ch, LinearVelocity), Extend(lists.angularVelocity, row, ch, AngularVelocity))
  }

  /** The lists after one more row: the body of `Build`, stated for a
      prefix of the rows. */
  lemma BuildNext(rows: seq<Row>, i: nat, ch: Channels)
    requires forall r :: r in rows ==> Covers(r, ch)
    requires i < |rows|
    ensures forall r :: r in rows[..i] ==> Covers(r, ch)
    ensures forall r :: r in rows[..i + 1] ==> Covers(r, ch)
    ensures Covers(rows[i], ch)
    ensures ch.orientation ==> HasField(rows[i], OrientationX) && HasField(rows[i], OrientationY) &&
                               HasField(rows[i], OrientationZ) && HasField(rows[i], OrientationW)
    ensures ch.linear ==> HasField(rows[i], LinearVelocity)
    ensures ch.angular ==> HasField(rows[i], AngularVelocity)
    ensures var lists := Build(rows[..i], ch); var row := rows[i];
      Build(rows[..i + 1], ch) ==
        if !Accepts(row) then lists
        else TokenLists(
          Extend(lists.trajectory, row, ch, Position),
          Extend(lists.orientationX, row, ch, OrientationX), Extend(lists.orientationY, row, ch, OrientationY),
          Extend(lists.orientationZ, row, ch, OrientationZ), Extend(lists.orientationW, row, ch, OrientationW),
          Extend(lists.linearVelocity, row, ch, LinearVelocity), Extend(lists.angularVelocity, row, ch, AngularVelocity))
  {
    assert rows[..i + 1][..i] == rows[..i];
    assert rows[i] in rows;
  }

  /** The rows whose loop body completes, in order. */
  function Accepted(rows: seq<Row>): (r: seq<Row>)
    ensures forall x :: x in r ==> x in rows && Accepts(x)
    ensures forall k :: 0 <= k < |r| ==> Accepts(r[k])
    ensures r != [] <==> exists i :: 0 <= i < |rows| && Accepts(rows[i])
  {
    if rows == [] then []
    else
      var init := Accepted(rows[..|rows| - 1]);
      var row := rows[|rows| - 1];
      assert forall i :: 0 <= i < |rows| - 1 ==> rows[..|rows| - 1][i] == rows[i];
      if Accepts(row) then init + [row] else init
  }

  /** The tokens of a field for rows that all complete: one per row, in
      order. */
  function FieldTokens(rows: seq<Row>, f: Field): (r: seq<string>)
    requires forall x :: x in rows ==> Accepts(x) && HasField(x, f)
    ensures |r| == |rows|
  {
    if rows == [] then []
    else FieldTokens(rows[..|rows| - 1], f) + [TokenOf(rows[|rows| - 1], f)]
  }

  lemma {:induction false} FieldTokensAt(rows: seq<Row>, f: Field, k: nat)
    requires forall x :: x in rows ==> Accepts(x) && HasField(x, f)
    requires k < |rows|
    ensures FieldTokens(rows, f)[k] == TokenOf(rows[k], f)
  {
    var init := rows[..|rows| - 1];
    if k < |rows| - 1 {
      FieldTokensAt(init, f, k);
    }
  }

  lemma AcceptedHaveField(rows: seq<Row>, ch: Channels, f: Field)
    requires forall r :: r in rows ==> Covers(r, ch)
    requires Filled(ch, f)
    ensures forall x :: x in Accepted(rows) ==> Accepts(x) && HasField(x, f)
  {
  }

  /** A field's list after the last row, in terms of the list before it. */
  lemma BuildLast(rows: seq<Row>, ch: Channels, f: Field)
    requires forall r :: r in rows ==> Covers(r, ch)
    requires rows != []
    ensures forall r :: r in rows[..|rows| - 1] ==> Covers(r, ch)
    ensures Covers(rows[|rows| - 1], ch)
    ensures var init := rows[..|rows| - 1]; var row := rows[|rows| - 1];
      ListOf(Build(rows, ch), f) ==
        if Accepts(row) then Extend(ListOf(Build(init, ch), f), row, ch, f) else ListOf(Build(init, ch), f)
  {
    assert rows[|rows| - 1] in rows;
    assert forall r :: r in rows[..|rows| - 1] ==> r in rows;
  }

  /** The completed rows after the last row, in terms of those before it. */
  lemma AcceptedLast(rows: seq<Row>)
    requires rows != []
    ensures var init := rows[..|rows| - 1]; var row := rows[|rows| - 1];
      Accepted(rows) == if Accepts(row) then Accepted(init) + [row] else Accepted(init)
  {
  }

  /** One more row adds its token at the end. */
  lemma FieldTokensSnoc(rows: seq<Row>, row: Row, f: Field)
    requires forall x :: x in rows ==> Accepts(x) && HasField(x, f)
    requires Accepts(row) && HasField(row, f)
    ensures forall x :: x in rows + [row] ==> Accepts(x) && HasField(x, f)
    ensures FieldTokens(rows + [row], f) == FieldTokens(rows, f) + [TokenOf(row, f)]
  {
    assert (rows + [row])[..|rows|] == rows;
  }

  /** The lists the loop builds are the rows that complete, each turned
      into its token: a filled field holds one token per completed row, in
      processing order, and an unfilled one stays empty. */
  lemma {:induction false} BuildTokens(rows: seq<Row>, ch: Channels, f: Field)
    requires forall r :: r in rows ==> Covers(r, ch)
    ensures Filled(ch, f) ==> ListOf(Build(rows, ch), f) == FieldTokens(Accepted(rows), f)
    ensures !Filled(ch, f) ==> ListOf(Build(rows, ch), f) == []
  {
    if rows != [] {
      var init := rows[..|rows| - 1];
      var row := rows[|rows| - 1];
      BuildLast(rows, ch, f);
      BuildTokens(init, ch, f);
      AcceptedLast(rows);
      if Filled(ch, f) {
        AcceptedHaveField(init, ch, f);
        if Accepts(row) {
          FieldTokensSnoc(Accepted(init), row, f);
        }
      }
    }
  }

  /** After any prefix of the rows every filled list is as long as the
      trajectory list and every unfilled list is empty. */
  lemma {:induction false} BuildParallel(rows: seq<Row>, ch: Channels, f: Field)
    requires forall r :: r in rows ==> Covers(r, ch)
    ensures |ListOf(Build(rows, ch), f)| == if Filled(ch, f) then |Build(rows, ch).trajectory| else 0
  {
    if rows != [] {
      var init := rows[..|rows| - 1];
      assert forall r :: r in init ==> r in rows;
      BuildParallel(init, ch, f);
    }
  }

  /** A token splits at its last `@` into the field's value and the row's
      time text. */
  lemma TokenSplits(row: Row, f: Field)
    requires Accepts(row) && HasField(row, f)
    ensures SplitToken(TokenOf(row, f)) == Some((FieldValue(row, f), RowTime(row)))
  {
    var t := RowTime(row);
    TimeTextChars(Instant(row).value);
    assert '@' !in t by {
      forall i | 0 <= i < |t| ensures t[i] != '@' { assert TimeChar(t[i]); }
    }
    SplitStamped(FieldValue(row, f), t);
  }

  /** The time text after the last `@` of a token. */
  function TimeOfToken(token: string): Option<string> {
    match SplitToken(token)
    case Some(p) => Some(p.1)
    case None => None
  }

  /** The k-th token of every filled list carries the same time text as the
      k-th trajectory token. */
  lemma BuildSameTimes(rows: seq<Row>, ch: Channels, f: Field, k: nat)
    requires forall r :: r in rows ==> Covers(r, ch)
    requires Filled(ch, f) && k < |Build(rows, ch).trajectory|
    ensures k < |ListOf(Build(rows, ch), f)|
    ensures TimeOfToken(ListOf(Build(rows, ch), f)[k]) == TimeOfToken(Build(rows, ch).trajectory[k])
  {
    var A := Accepted(rows);
    BuildTokens(rows, ch, f);
    BuildTokens(rows, ch, Position);
    var row := A[k];
    assert row in A;
    FieldTokensAt(A, f, k);
    FieldTokensAt(A, Position, k);
    TokenSplits(row, f);
    TokenSplits(row, Position);
    assert TimeOfToken(TokenOf(row, f)) == Some(RowTime(row));
    assert TimeOfToken(TokenOf(row, Position)) == Some(RowTime(row));
  }

  // ---------------------------------------------------------------------
  // The order rows are processed in

  /** The order `sort_values` puts instants in: ascending, missing (NaN)
      ones last. */
  predicate InstantLe(a: Option<int>, b: Option<int>) {
    match b
    case None => true
    case Some(y) => a.Some? && a.value <= y
  }

  predicate SortedByInstant(rows: seq<Row>) {
    forall i, j :: 0 <= i < j < |rows| ==> InstantLe(Instant(rows[i]), Instant(rows[j]))
  }

  /** `row` put in front of the first row it does not come after. */
  function InsertByInstant(row: Row, sorted: seq<Row>): (r: seq<Row>)
    ensures multiset(r) == multiset(sorted) + multiset{row}
  {
    if sorted == [] then [row]
    else if InstantLe(Instant(row), Instant(sorted[0])) then [row] + sorted
    else
      assert sorted == [sorted[0]] + sorted[1..];
      [sorted[0]] + InsertByInstant(row, sorted[1..])
  }

  lemma InstantLeTotal(a: Option<int>, b: Option<int>)
    ensures InstantLe(a, b) || InstantLe(b, a)
  {
  }

  /** A row no later than every row of sorted rows can go in front. */
  lemma ConsSorted(first: Row, rest: seq<Row>)
    requires SortedByInstant(rest)
    requires forall j :: 0 <= j < |rest| ==> InstantLe(Instant(first), Instant(rest[j]))
    ensures SortedByInstant([first] + rest)
  {
    var r := [first] + rest;
    forall i, j | 0 <= i < j < |r| ensures InstantLe(Instant(r[i]), Instant(r[j])) {
      if i > 0 {
        assert r[i] == rest[i - 1] && r[j] == rest[j - 1];
      }
    }
  }

  /** A row no later than every row of `tail`, and no later than `row`, is
      no later than any row of `tail` with `row` inserted. */
  lemma BeforeInserted(first: Row, row: Row, tail: seq<Row>)
    requires forall k :: 0 <= k < |tail| ==> InstantLe(Instant(first), Instant(tail[k]))
    requires InstantLe(Instant(first), Instant(row))
    ensures forall j :: 0 <= j < |InsertByInstant(row, tail)| ==>
      InstantLe(Instant(first), Instant(InsertByInstant(row, tail)[j]))
  {
    var rest := InsertByInstant(row, tail);
    forall j | 0 <= j < |rest| ensures InstantLe(Instant(first), Instant(rest[j])) {
      assert rest[j] in multiset(rest);
      if rest[j] != row {
        assert rest[j] in tail;
      }
    }
  }

  /** Inserting into sorted rows keeps them sorted. */
  lemma {:induction false} InsertByInstantSorted(row: Row, sorted: seq<Row>)
    requires SortedByInstant(sorted)
    ensures SortedByInstant(InsertByInstant(row, sorted))
  {
    if sorted != [] && !InstantLe(Instant(row), Instant(sorted[0])) {
      var tail := sorted[1..];
      assert SortedByInstant(tail);
      InsertByInstantSorted(row, tail);
      InstantLeTotal(Instant(row), Instant(sorted[0]));
      assert forall k :: 0 <= k < |tail| ==> InstantLe(Instant(sorted[0]), Instant(tail[k])) by {
        forall k | 0 <= k < |tail| ensures InstantLe(Instant(sorted[0]), Instant(tail[k])) {
          assert tail[k] == sorted[k + 1];
        }
      }
      BeforeInserted(sorted[0], row, tail);
      ConsSorted(sorted[0], InsertByInstant(row, tail));
    } else if sorted != [] {
      forall j | 0 <= j < |sorted| ensures InstantLe(Instant(row), Instant(sorted[j])) {
        if j > 0 {
          assert InstantLe(Instant(sorted[0]), Instant(sorted[j]));
        }
      }
      ConsSorted(row, sorted);
    }
  }

  /** One order `sort_values(by='full_timestamp')` may give: the rows in
      ascending instant, missing instants last. The sort is not promised
      to be stable, so nothing downstream relies on how equal instants are
      ordered. */
  function SortByInstant(rows: seq<Row>): (r: seq<Row>)
    ensures SortedByInstant(r)
    ensures multiset(r) == multiset(rows)
  {
    if rows == [] then []
    else
      assert rows == [rows[0]] + rows[1..];
      var rest := SortByInstant(rows[1..]);
      InsertByInstantSorted(rows[0], rest);
      InsertByInstant(rows[0], rest)
  }

  /** Keeping the completed rows keeps the order. */
  lemma {:induction false} AcceptedSorted(rows: seq<Row>)
    requires SortedByInstant(rows)
    ensures SortedByInstant(Accepted(rows))
  {
    if rows != [] {
      var init := rows[..|rows| - 1];
      var last := rows[|rows| - 1];
      assert SortedByInstant(init);
      AcceptedSorted(init);
      var B := Accepted(init);
      if Accepts(last) {
        var A := B + [last];
        forall j, k | 0 <= j < k < |A| ensures InstantLe(Instant(A[j]), Instant(A[k])) {
          if k == |B| {
            assert B[j] in B;
            var i :| 0 <= i < |init| && init[i] == B[j];
            assert InstantLe(Instant(rows[i]), Instant(rows[|rows| - 1]));
          } else {
            assert A[j] == B[j] && A[k] == B[k];
          }
        }
      }
    }
  }

  /** In sorted rows the completed rows come in ascending instant, so the
      times their tokens carry never decrease. */
  lemma AcceptedInOrder(rows: seq<Row>, j: nat, k: nat)
    requires SortedByInstant(rows)
    requires j < k < |Accepted(rows)|
    ensures var A := Accepted(rows);
      Instant(A[j]).value <= Instant(A[k]).value && Millis(A[j]) <= Millis(A[k])
  {
    var A := Accepted(rows);
    AcceptedSorted(rows);
    assert A[j] in A && A[k] in A;
    assert InstantLe(Instant(A[j]), Instant(A[k]));
    RoundToMicrosMonotone(Instant(A[j]).value, Instant(A[k]).value);
  }

  // ---------------------------------------------------------------------
  // The insert

  /** The parameters of the one `trajectories` insert, in statement order. */
  datatype TrajectoryInsert = TrajectoryInsert(
    trajectory: string, bagFile: string, trajectoryType: string,
    orientationX: Option<string>, orientationY: Option<string>,
    orientationZ: Option<string>, orientationW: Option<string>,
    linearVelocity: Option<string>, angularVelocity: Option<string>)

  function LiteralOf(insert: TrajectoryInsert, f: Field): Option<string> {
    match f
    case Position => Some(insert.trajectory)
    case OrientationX => insert.orientationX
    case OrientationY => insert.orientationY
    case OrientationZ => insert.orientationZ
    case OrientationW => insert.orientationW
    case LinearVelocity => insert.linearVelocity
    case AngularVelocity => insert.angularVelocity
  }

  /** The inserts issued for built lists: none without a trajectory token,
      otherwise one holding every list's literal. */
  function InsertFor(lists: TokenLists, bagFile: string, trajectoryType: string): (r: seq<TrajectoryInsert>)
    ensures |r| <= 1
  {
    if lists.trajectory == [] then []
    else [TrajectoryInsert(
      SetLiteral(lists.trajectory), bagFile, trajectoryType,
      OptionalLiteral(lists.orientationX), OptionalLiteral(lists.orientationY),
      OptionalLiteral(lists.orientationZ), OptionalLiteral(lists.orientationW),
      OptionalLiteral(lists.linearVelocity), OptionalLiteral(lists.angularVelocity))]
  }

  /** The literal of each field in the insert for non-empty lists. */
  lemma LiteralOfInsert(lists: TokenLists, bagFile: string, trajectoryType: string, f: Field)
    requires lists.trajectory != []
    ensures LiteralOf(InsertFor(lists, bagFile, trajectoryType)[0], f) ==
      if f == Position then Some(SetLiteral(lists.trajectory)) else OptionalLiteral(ListOf(lists, f))
  {
  }

  /** Exactly one insert is issued when some row completes, and none when
      every row is skipped. */
  lemma InsertWhenAnyAccepted(rows: seq<Row>, ch: Channels, bagFile: string, trajectoryType: string)
    requires forall r :: r in rows ==> Covers(r, ch)
    ensures |InsertFor(Build(rows, ch), bagFile, trajectoryType)| == 1 <==>
      exists i :: 0 <= i < |rows| && Accepts(rows[i])
    ensures InsertFor(Build(rows, ch), bagFile, trajectoryType) == [] <==>
      forall i :: 0 <= i < |rows| ==> !Accepts(rows[i])
  {
    BuildTokens(rows, ch, Position);
  }

  /** Without a position column every row raises, so nothing is inserted. */
  lemma NoPositionNoInsert(rows: seq<Row>, ch: Channels, bagFile: string, trajectoryType: string)
    requires forall r :: r in rows ==> Covers(r, ch) && !HasField(r, Position)
    ensures InsertFor(Build(rows, ch), bagFile, trajectoryType) == []
  {
    InsertWhenAnyAccepted(rows, ch, bagFile, trajectoryType);
    forall i | 0 <= i < |rows| ensures !Accepts(rows[i]) { assert rows[i] in rows; }
  }

  /** The insert has the bag file and trajectory type given, and a literal
      exactly for each filled field: the four orientation literals are all
      present or all NULL, and so are each velocity's. */
  lemma InsertChannels(rows: seq<Row>, ch: Channels, bagFile: string, trajectoryType: string, f: Field)
    requires forall r :: r in rows ==> Covers(r, ch)
    requires InsertFor(Build(rows, ch), bagFile, trajectoryType) != []
    ensures var insert := InsertFor(Build(rows, ch), bagFile, trajectoryType)[0];
      insert.bagFile == bagFile && insert.trajectoryType == trajectoryType &&
      (LiteralOf(insert, f).Some? <==> Filled(ch, f))
  {
    var lists := Build(rows, ch);
    BuildParallel(rows, ch, f);
    LiteralOfInsert(lists, bagFile, trajectoryType, f);
    assert Filled(ch, f) <==> ListOf(lists, f) != [];
  }

  // ---------------------------------------------------------------------
  // Reading the literals back

  /** The `(value, milliseconds)` pairs that tokens `value@time` name. */
  function ReadTokens(tokens: seq<string>): Option<seq<(string, int)>> {
    if tokens == [] then Some([])
    else
      match (ReadTokens(tokens[..|tokens| - 1]), SplitToken(tokens[|tokens| - 1]))
      case (Some(init), Some(p)) =>
        (match ReadTimeText(p.1)
         case Some(ms) => Some(init + [(p.0, ms)])
         case None => None)
      case _ => None
  }

  /** The `(value, milliseconds)` pairs of a temporal literal. */
  function ReadLiteral(s: string): Option<seq<(string, int)>> {
    match ParseLiteral(s)
    case Some(tokens) => ReadTokens(tokens)
    case None => None
  }

  /** What a field's literal should say of completed rows: each row's
      value at the row's instant, to the millisecond, in row order. */
  function Expected(rows: seq<Row>, f: Field): (r: seq<(string, int)>)
    requires forall x :: x in rows ==> Accepts(x) && HasField(x, f)
    ensures |r| == |rows|
  {
    if rows == [] then []
    else Expected(rows[..|rows| - 1], f) + [(FieldValue(rows[|rows| - 1], f), Millis(rows[|rows| - 1]))]
  }

  /** Reading one more token appends its pair. */
  lemma ReadTokensSnoc(tokens: seq<string>, token: string)
    requires ReadTokens(tokens).Some? && SplitToken(token).Some?
    requires ReadTimeText(SplitToken(token).value.1).Some?
    ensures ReadTokens(tokens + [token]) ==
      Some(ReadTokens(tokens).value + [(SplitToken(token).value.0, ReadTimeText(SplitToken(token).value.1).value)])
  {
    assert (tokens + [token])[..|tokens|] == tokens;
  }

  /** A row's token reads back as its value and its milliseconds. */
  lemma ReadTokenOf(row: Row, f: Field)
    requires Accepts(row) && HasField(row, f)
    ensures SplitToken(TokenOf(row, f)) == Some((FieldValue(row, f), RowTime(row)))
    ensures ReadTimeText(RowTime(row)) == Some(Millis(row))
  {
    TokenSplits(row, f);
    ReadTimeTextRoundTrip(Instant(row).value);
  }

  lemma {:induction false} ReadFieldTokens(rows: seq<Row>, f: Field)
    requires forall x :: x in rows ==> Accepts(x) && HasField(x, f)
    ensures ReadTokens(FieldTokens(rows, f)) == Some(Expected(rows, f))
  {
    if rows != [] {
      var init := rows[..|rows| - 1];
      var row := rows[|rows| - 1];
      assert row in rows;
      ReadFieldTokens(init, f);
      ReadTokenOf(row, f);
      ReadTokensSnoc(FieldTokens(init, f), TokenOf(row, f));
    }
  }

  /** No cell of the row shows a comma (true of every number). */
  predicate NoCommas(row: Row) {
    forall c :: c in row ==> ',' !in Render(row[c])
  }

  lemma FieldValueNoComma(row: Row, f: Field)
    requires HasField(row, f) && NoCommas(row)
    ensures ',' !in FieldValue(row, f)
  {
    var cols := ColumnsOf(f);
    assert cols[0] in row;
    if |cols| == 3 {
      assert cols[1] in row && cols[2] in row;
    }
  }

  lemma RowTimeNoComma(row: Row)
    requires Accepts(row)
    ensures ',' !in RowTime(row)
  {
    var t := RowTime(row);
    TimeTextChars(Instant(row).value);
    forall i | 0 <= i < |t| ensures t[i] != ',' { assert TimeChar(t[i]); }
  }

  lemma TokenNoSeparator(row: Row, f: Field)
    requires Accepts(row) && HasField(row, f) && NoCommas(row)
    ensures NoSeparator(TokenOf(row, f))
  {
    FieldValueNoComma(row, f);
    RowTimeNoComma(row);
    var s := TokenOf(row, f);
    assert ',' !in s;
    forall i | 0 <= i < |s| - 1 ensures !(s[i] == ',' && s[i + 1] == ' ') {
      assert s[i] in s;
    }
  }

  /** Each literal of the insert reads back as the completed rows' values
      of its field at their instants (to the millisecond), in processing
      order: the literal encodes exactly the tokens the loop built. */
  lemma InsertReadsBack(rows: seq<Row>, ch: Channels, bagFile: string, trajectoryType: string, f: Field)
    requires forall r :: r in rows ==> Covers(r, ch) && NoCommas(r)
    requires InsertFor(Build(rows, ch), bagFile, trajectoryType) != []
    requires Filled(ch, f)
    ensures var insert := InsertFor(Build(rows, ch), bagFile, trajectoryType)[0];
      LiteralOf(insert, f).Some? &&
      ReadLiteral(LiteralOf(insert, f).value) == Some(Expected(Accepted(rows), f))
  {
    var A := Accepted(rows);
    var lists := Build(rows, ch);
    BuildTokens(rows, ch, f);
    BuildParallel(rows, ch, f);
    var toks := ListOf(lists, f);
    assert toks == FieldTokens(A, f);
    forall i | 0 <= i < |toks| ensures NoSeparator(toks[i]) {
      FieldTokensAt(A, f, i);
      assert A[i] in A;
      TokenNoSeparator(A[i], f);
    }
    ParseSetLiteral(toks);
    ReadFieldTokens(A, f);
    LiteralOfInsert(lists, bagFile, trajectoryType, f);
  }

  // ---------------------------------------------------------------------
  // The loaders

  /** The stamp columns exist and hold numbers (or NaN), so that
      `secs + nsecs / 1e9` can be computed. */
  predicate StampsNumeric(frame: Frame) {
    NumericColumn(frame, SecsColumn) && NumericColumn(frame, NsecsColumn)
  }

  /** `import_trajectory_data`: the inserts issued for a CSV file, and the
      rows in the order the loop processed them. A missing, unreadable or
      empty file and a stamp column that is absent or not numeric issue no
      insert. Otherwise the rows are processed in ascending instant, every
      row whose body completes adds one token to the trajectory and to each
      flagged channel, and one insert is issued when the trajectory is not
      empty. */
  method ImportTrajectoryData(csv: CsvFile, bagFile: string, trajectoryType: string)
    returns (inserts: seq<TrajectoryInsert>, processed: seq<Row>)
    ensures !csv.Parsed? ==> inserts == [] && processed == []
    ensures csv.Parsed? && (IsEmpty(csv.frame) || !StampsNumeric(csv.frame)) ==> inserts == [] && processed == []
    ensures csv.Parsed? && !IsEmpty(csv.frame) && StampsNumeric(csv.frame) ==>
      SortedByInstant(processed) && multiset(processed) == multiset(csv.frame.rows) &&
      (forall r :: r in processed ==> Covers(r, ChannelsOf(csv.frame.columns))) &&
      inserts == InsertFor(Build(processed, ChannelsOf(csv.frame.columns)), bagFile, trajectoryType)
  {
    inserts, processed := [], [];
    if !csv.Parsed? {
      return;
    }
    var frame := csv.frame;
    if IsEmpty(frame) || !StampsNumeric(frame) {
      return;
    }
    processed := SortByInstant(frame.rows);
    var ch := ChannelsOf(frame.columns);
    forall r | r in processed ensures Covers(r, ch) {
      assert r in multiset(frame.rows);
      CoversOwnColumns(r);
    }
    var lists := CollectTokens(processed, ch);
    if lists.trajectory != [] {
      inserts := [TrajectoryInsert(
        SetLiteral(lists.trajectory), bagFile, trajectoryType,
        OptionalLiteral(lists.orientationX), OptionalLiteral(lists.orientationY),
        OptionalLiteral(lists.orientationZ), OptionalLiteral(lists.orientationW),
        OptionalLiteral(lists.linearVelocity), OptionalLiteral(lists.angularVelocity))];
    }
  }

  /** The row loop of `import_trajectory_data`: seven lists, one token
      appended to the trajectory and to each flagged channel for every row
      whose body completes, nothing for a row that raises. */
  method CollectTokens(processed: seq<Row>, ch: Channels) returns (lists: TokenLists)
    requires forall r :: r in processed ==> Covers(r, ch)
    ensures lists == Build(processed, ch)
  {
    lists := TokenLists([], [], [], [], [], [], []);
    var i := 0;
    while i < |processed|
      invariant 0 <= i <= |processed|
      invariant lists == Build(processed[..i], ch)
    {
      var row := processed[i];
      BuildNext(processed, i, ch);
      if Accepts(row) {
        lists := AppendRowTokens(lists, row, ch);
      }
      i := i + 1;
    }
    assert processed[..i] == processed;
  }

  /** The body of the row loop for a row that completes: one token
      appended to the trajectory and to every flagged channel. */
  method AppendRowTokens(lists: TokenLists, row: Row, ch: Channels) returns (next: TokenLists)
    requires Accepts(row) && Covers(row, ch)
    ensures next == TokenLists(
          Extend(lists.trajectory, row, ch, Position),
          Extend(lists.orientationX, row, ch, OrientationX), Extend(lists.orientationY, row, ch, OrientationY),
          Extend(lists.orientationZ, row, ch, OrientationZ), Extend(lists.orientationW, row, ch, OrientationW),
          Extend(lists.linearVelocity, row, ch, LinearVelocity), Extend(lists.angularVelocity, row, ch, AngularVelocity))
  {
    next := lists.(trajectory := lists.trajectory + [TokenOf(row, Position)]);
    if ch.orientation {
      assert HasField(row, OrientationX) && HasField(row, OrientationY) &&
             HasField(row, OrientationZ) && HasField(row, OrientationW);
      next := next.(orientationX := next.orientationX + [TokenOf(row, OrientationX)],
                    orientationY := next.orientationY + [TokenOf(row, OrientationY)],
                    orientationZ := next.orientationZ + [TokenOf(row, OrientationZ)],
                    orientationW := next.orientationW + [TokenOf(row, OrientationW)]);
    }
    if ch.linear {
      assert HasField(row, LinearVelocity);
      next := next.(linearVelocity := next.linearVelocity + [TokenOf(row, LinearVelocity)]);
    }
    if ch.angular {
      assert HasField(row, AngularVelocity);
      next := next.(angularVelocity := next.angularVelocity + [TokenOf(row, AngularVelocity)]);
    }
  }

  /** The filename loop of `import_images_metadata`: the records inserted
      for a directory listing, and `imported_count`. */
  method ImportImagesMetadata(directoryExists: bool, directory: string, listing: seq<string>,
                              cameraType: string, bagFile: string)
    returns (records: seq<ImageRecord>, importedCount: nat)
    ensures !directoryExists ==> records == [] && importedCount == 0
    ensures directoryExists ==> records == ImageRecords(directory, listing, cameraType, bagFile)
    ensures importedCount == |records|
  {
    records, importedCount := [], 0;
    if !directoryExists {
      return;
    }
    var i := 0;
    while i < |listing|
      invariant 0 <= i <= |listing|
      invariant records == ImageRecords(directory, listing[..i], cameraType, bagFile)
      invariant importedCount == |records|
    {
      var filename := listing[i];
      assert listing[..i + 1][..i] == listing[..i];
      if EndsWithPng(filename) {
        match ImageTimestamp(filename)
        case Some(timestamp) =>
          records := records + [ImageRecord(timestamp, cameraType, directory, filename, bagFile)];
          importedCount := importedCount + 1;
        case None =>
      }
      i := i + 1;
    }
    assert listing[..i] == listing;
  }
}
