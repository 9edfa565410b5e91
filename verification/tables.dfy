/** The slice of pandas the dashboard leans on: a frame is a list of column
    labels and a list of rows; building one from rows and a column list,
    looking a column up by label, and making a column the row index. */
module Tables {
  import opened Wrappers
  import opened Seqs

  /** One cell: a value as the provider sent it, or a missing value (`None`/`NaN`). */
  datatype Cell = Missing | Value(raw: string)

  type Row = seq<Cell>

  /** A table with a default (positional) row index. */
  datatype Frame = Frame(columns: seq<string>, rows: seq<Row>)

  /** A table whose row index was set from one of its columns. */
  datatype IndexedFrame = IndexedFrame(frame: Frame, indexName: string, index: seq<Cell>)

  datatype TableError =
    | ColumnCountMismatch(passed: nat, found: nat)  // more data columns than labels, or fewer
    | KeyError(key: string)                        // `df[key]` on a missing label
    | LabelsNotFound(labels: seq<string>)            // `Index.drop` of absent labels
    | DuplicateLabels                                // `reindex` on an axis with repeated labels
    | IndexNotOneDimensional(key: string)            // `df.index = df[key]` with `key` on several columns (a modelling choice)

  /** Every row has one cell per column. */
  predicate Rectangular(f: Frame) {
    forall i :: 0 <= i < |f.rows| ==> |f.rows[i]| == |f.columns|
  }

  /** The longest row's length (0 for no rows). */
  function MaxWidth(rows: seq<Row>): (w: nat)
    ensures forall i :: 0 <= i < |rows| ==> |rows[i]| <= w
    ensures |rows| > 0 ==> exists i :: 0 <= i < |rows| && |rows[i]| == w
    ensures |rows| == 0 ==> w == 0
    decreases |rows|
  {
    if |rows| == 0 then 0
    else
      var w := MaxWidth(rows[1..]);
      if |rows[0]| >= w then |rows[0]| else w
  }

  /** A row filled up with missing values to width `w`. */
  function Pad(row: Row, w: nat): (r: Row)
    requires |row| <= w
    ensures |r| == w
    ensures forall j :: 0 <= j < w ==> r[j] == if j < |row| then row[j] else Missing
  {
    row + seq(w - |row|, _ => Missing)
  }

  /** `pd.DataFrame(rows, columns=columns)` for a list of lists: shorter rows are
      padded with missing values, and the call fails unless the longest row has
      exactly one value per label. */
  function BuildFrame(columns: seq<string>, rows: seq<Row>): (r: Result<Frame, TableError>)
    ensures r.Success? <==>
              (forall i :: 0 <= i < |rows| ==> |rows[i]| <= |columns|) &&
              (|rows| == 0 || exists i :: 0 <= i < |rows| && |rows[i]| == |columns|)
    ensures r.Success? ==>
              && r.value.columns == columns
              && Rectangular(r.value)
              && |r.value.rows| == |rows|
              && forall i, j :: 0 <= i < |rows| && 0 <= j < |columns| ==>
                   r.value.rows[i][j] == if j < |rows[i]| then rows[i][j] else Missing
  {
    if |rows| > 0 && MaxWidth(rows) != |columns| then
      Failure(ColumnCountMismatch(|columns|, MaxWidth(rows)))
    else
      Success(Frame(columns, seq(|rows|, i requires 0 <= i < |rows| => Pad(rows[i], |columns|))))
  }

  /** Position of the first column carrying `key`. */
  function Find(columns: seq<string>, key: string): (r: Option<nat>)
    ensures r.None? <==> key !in columns
    ensures r.Some? ==> r.value < |columns| && columns[r.value] == key &&
                        key !in columns[..r.value]
  {
    if key in columns then Some(FirstIndex(columns, key)) else None
  }

  /** `key` labels exactly one column. */
  predicate LabelledOnce(columns: seq<string>, key: string) {
    key in columns &&
    forall j, k :: 0 <= j < k < |columns| && columns[j] == key ==> columns[k] != key
  }

  /** `df.index = df[key]`: the row index takes the values of the column `key`,
      which stays a regular column. A missing label is a `KeyError`. A label on
      several columns selects a table rather than a column; the model treats
      that as a failure. */
  function SetIndex(f: Frame, key: string): (r: Result<IndexedFrame, TableError>)
    requires Rectangular(f)
    ensures r.Success? <==> LabelledOnce(f.columns, key)
    ensures r.Failure? ==> r.error == if key in f.columns then IndexNotOneDimensional(key) else KeyError(key)
    ensures r.Success? ==>
              && r.value.frame == f
              && r.value.indexName == key
              && |r.value.index| == |f.rows|
              && forall i, j :: 0 <= i < |f.rows| && 0 <= j < |f.columns| && f.columns[j] == key ==>
                   r.value.index[i] == f.rows[i][j]
  {
    match Find(f.columns, key)
    case None => Failure(KeyError(key))
    case Some(j) =>
      if key in f.columns[j + 1..] then
        assert forall x :: 0 <= x < j ==> f.columns[..j][x] == f.columns[x];
        Failure(IndexNotOneDimensional(key))
      else
        assert forall x :: j < x < |f.columns| ==> f.columns[j + 1..][x - j - 1] == f.columns[x];
        assert forall x :: 0 <= x < j ==> f.columns[..j][x] == f.columns[x];
        Success(IndexedFrame(f, key, seq(|f.rows|, i requires 0 <= i < |f.rows| => f.rows[i][j])))
  }
}
