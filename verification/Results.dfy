/**
 * fetch of sql_interface.hpp, which appends the rows of one statement after the other to the
 * columns, and the three layouts of mksqlite.cpp in which the table is returned.
 */
module Results {
  import opened Columns
  import FieldNames

  // ----- Fetching ------------------------------------------------------------------------------

  /**
   * One execution of a statement: the rows it returns, how it ends, and the last row id then. An error
   * in transferring a value ends it like an error of SQLite: all columns are discarded.
   */
  datatype Execution = Execution(rows: seq<seq<SqlValue>>, outcome: Outcome, lastRowId: int)
  datatype Outcome = Completed | Failed(code: int)
  datatype Step = Row(cells: seq<SqlValue>) | End(outcome: Outcome)

  /** What the n-th sqlite3_step reports. */
  function StepAt(e: Execution, n: nat): Step {
    if n < |e.rows| then Row(e.rows[n]) else End(e.outcome)
  }

  /** The two switches the columns depend on. */
  datatype Settings = Settings(casts: Casts, nullAsNaN: bool)

  predicate HasWidth(rows: seq<seq<SqlValue>>, width: nat) {
    forall i :: 0 <= i < |rows| ==> |rows[i]| == width
  }

  function ColumnOf(rows: seq<seq<SqlValue>>, j: nat): (s: seq<SqlValue>)
    requires forall i :: 0 <= i < |rows| ==> j < |rows[i]|
    ensures |s| == |rows|
  {
    seq(|rows|, i requires 0 <= i < |rows| => rows[i][j])
  }

  /** Column j as it is stored. */
  function StoredColumn(rows: seq<seq<SqlValue>>, j: nat, settings: Settings): (s: seq<SqlValue>)
    requires forall i :: 0 <= i < |rows| ==> j < |rows[i]|
    ensures |s| == |rows|
  {
    StoredAll(ColumnOf(rows, j), settings.casts, settings.nullAsNaN)
  }

  /** Distinct column objects in a consistent state. */
  ghost predicate IsTable(cols: seq<ValueSQLCol>, settings: Settings)
    reads cols
  {
    && (forall j, k :: 0 <= j < k < |cols| ==> cols[j] != cols[k])
    && (forall j :: 0 <= j < |cols| ==> cols[j].Valid() && cols[j].nullAsNaN == settings.nullAsNaN
                                        && cols[j].casts == settings.casts)
  }

  /** The columns hold exactly these rows. */
  ghost predicate Holds(cols: seq<ValueSQLCol>, rows: seq<seq<SqlValue>>, settings: Settings)
    reads cols
  {
    && IsTable(cols, settings)
    && HasWidth(rows, |cols|)
    && forall j :: 0 <= j < |cols| ==> cols[j].appended == ColumnOf(rows, j)
  }

  function NamesOf(cols: seq<ValueSQLCol>): (names: seq<string>)
    ensures |names| == |cols|
  {
    seq(|cols|, j requires 0 <= j < |cols| => cols[j].name)
  }

  /** How getColNames makes field names: MATLAB's limit, and whether they have to differ. */
  datatype Naming = Naming(maxLength: nat, checkUnique: bool)

  /** These are the field names of the columns. */
  ghost predicate NamesFor(columns: seq<string>, naming: Naming, names: seq<string>)
    requires naming.maxLength >= 4
  {
    && |names| == |columns|
    && if naming.checkUnique then FieldNames.FirstFreeNames(columns, naming.maxLength, names)
       else forall i :: 0 <= i < |columns| ==> names[i] == FieldNames.Base(columns[i], naming.maxLength)
  }

  /** getColNames succeeds. */
  ghost predicate Nameable(columns: seq<string>, naming: Naming)
    requires naming.maxLength >= 4
  {
    naming.checkUnique ==> !FieldNames.Unnameable(columns, naming.maxLength)
  }

  method BuildColumns(names: seq<string>, settings: Settings) returns (cols: seq<ValueSQLCol>)
    ensures Holds(cols, [], settings) && NamesOf(cols) == names
    ensures forall j :: 0 <= j < |cols| ==> fresh(cols[j])
  {
    hide ValueSQLCol.Valid;
    cols := [];
    for i := 0 to |names|
      invariant Holds(cols, [], settings) && NamesOf(cols) == names[..i]
      invariant forall j :: 0 <= j < |cols| ==> fresh(cols[j])
    {
      var column := new ValueSQLCol(names[i], settings.casts, settings.nullAsNaN);
      cols := cols + [column];
    }
    assert names[..|names|] == names;
  }

  /** One row: a value for each column. */
  method AppendRow(cols: seq<ValueSQLCol>, cells: seq<SqlValue>, settings: Settings,
                   ghost before: seq<seq<SqlValue>>)
    requires Holds(cols, before, settings) && |cells| == |cols|
    modifies cols
    ensures Holds(cols, before + [cells], settings)
  {
    hide ValueSQLCol.Valid;
    for jCol := 0 to |cols|
      invariant IsTable(cols, settings)
      invariant forall j :: 0 <= j < jCol ==> cols[j].appended == ColumnOf(before, j) + [cells[j]]
      invariant forall j :: jCol <= j < |cols| ==> cols[j].appended == ColumnOf(before, j)
    {
      cols[jCol].Append(cells[jCol], settings.nullAsNaN);
    }
    forall j | 0 <= j < |cols| ensures ColumnOf(before + [cells], j) == ColumnOf(before, j) + [cells[j]] {
    }
  }

  datatype FetchOutcome = Fetched | NotNamed | NotCompleted

  /**
   * fetch: on the first call the columns get their names and are built; if that fails, nothing is
   * executed. Later calls go on with the same columns. A failed execution leaves no columns at all.
   */
  method Fetch(cols: seq<ValueSQLCol>, initialize: bool, columns: seq<string>, naming: Naming, e: Execution,
               settings: Settings, ghost before: seq<seq<SqlValue>>)
    returns (outcome: FetchOutcome, table: seq<ValueSQLCol>)
    requires naming.maxLength >= 4 && HasWidth(e.rows, |columns|)
    requires if initialize then before == []
             else Holds(cols, before, settings) && NamesFor(columns, naming, NamesOf(cols))
    modifies cols
    ensures outcome == if initialize && !Nameable(columns, naming) then NotNamed
                       else if e.outcome.Completed? then Fetched else NotCompleted
    ensures if outcome.Fetched?
            then Holds(table, before + e.rows, settings) && NamesFor(columns, naming, NamesOf(table))
            else table == []
    ensures forall j :: 0 <= j < |table| ==> fresh(table[j]) || table[j] in cols
  {
    hide ValueSQLCol.Valid, Holds, IsTable, FieldNames.FirstFreeNames, FieldNames.Unnameable, FieldNames.Base;
    table := cols;
    if initialize {
      var ok, pairs := FieldNames.GetColNames(columns, naming.maxLength, naming.checkUnique);
      if !ok {
        return NotNamed, [];
      }
      table := BuildColumns(FieldNames.MatlabNames(pairs), settings);
    }
    var n := 0;
    assert before + e.rows[..0] == before;
    while StepAt(e, n).Row?
      invariant 0 <= n <= |e.rows|
      invariant Holds(table, before + e.rows[..n], settings)
      invariant forall j :: 0 <= j < |table| ==> fresh(table[j]) || table[j] in cols
      decreases |e.rows| - n
    {
      AppendRow(table, StepAt(e, n).cells, settings, before + e.rows[..n]);
      assert before + e.rows[..n + 1] == before + e.rows[..n] + [e.rows[n]];
      n := n + 1;
    }
    assert e.rows[..n] == e.rows;
    if StepAt(e, n).outcome.Completed? {
      outcome := Fetched;
    } else {
      outcome, table := NotCompleted, [];
    }
  }

  /** The rows of several executions, one after the other. */
  function AllRows(runs: seq<Execution>): seq<seq<SqlValue>> {
    if runs == [] then [] else AllRows(runs[..|runs| - 1]) + runs[|runs| - 1].rows
  }

  /** Rows come in the order of the executions. */
  lemma {:induction false} RowsInOrder(first: Execution, rest: seq<Execution>)
    ensures AllRows([]) == [] && AllRows([first] + rest) == first.rows + AllRows(rest)
    decreases |rest|
  {
    var all, n := [first] + rest, |rest|;
    if n == 0 {
      assert all[..0] == [];
    } else {
      RowsInOrder(first, rest[..n - 1]);
      assert all[..n] == [first] + rest[..n - 1];
    }
  }

  // ----- MATLAB results ------------------------------------------------------------------------

  /** A MATLAB value; Bytes is what a blob becomes: a uint8 vector, or an unpacked typed blob. */
  datatype Item = Scalar(d: Double) | Int64(i: int) | Empty | Str(text: string) | Bytes(block: nat)

  /** createItemFromValueSQL */
  function ItemOf(v: SqlValue, nullAsNaN: bool): Item {
    match v
    case Null => if nullAsNaN then Scalar(NaN) else Empty
    case Integer(i) => Int64(i)
    case Float(d) => Scalar(d)
    case Text(t) => Str(t)
    case Blob(b) => Bytes(b)
  }

  /** NULL as NaN or as an empty matrix; everything else as an array that holds the value. */
  lemma ItemHolds(v: SqlValue, nullAsNaN: bool)
    ensures var item := ItemOf(v, nullAsNaN);
      match v
      case Null => (item == Scalar(NaN) <==> nullAsNaN) && (item == Empty <==> !nullAsNaN)
      case Integer(i) => item.Int64? && item.i == i
      case Float(d) => item.Scalar? && item.d == d
      case Text(t) => item.Str? && item.text == t
      case Blob(b) => item.Bytes? && item.block == b
  {}

  /** Results lose nothing: different values become different items, NULL aside if it is shown as NaN. */
  lemma ItemsDiffer(v: SqlValue, w: SqlValue, nullAsNaN: bool)
    requires ItemOf(v, nullAsNaN) == ItemOf(w, nullAsNaN)
    ensures v == w || (nullAsNaN && {v, w} == {Null, Float(NaN)})
  {}

  /** A numeric array or a cell array, stored column by column. */
  datatype Matrix = DoubleMatrix(rows: nat, doubles: seq<Double>) | CellMatrix(rows: nat, cells: seq<Item>) {
    function Size(): nat { if DoubleMatrix? then |doubles| else |cells| }

    function At(k: nat): Item
      requires k < Size()
    {
      if DoubleMatrix? then Scalar(doubles[k]) else cells[k]
    }
  }

  datatype Result =
    | ArrayOfStructs(names: seq<string>, fields: seq<seq<Item>>)
    | StructOfArrays(names: seq<string>, columns: seq<Matrix>)
    | WholeMatrix(columnCount: nat, matrix: Matrix)

  /** Where a cell stands in a matrix that is stored column by column. */
  function Position(row: nat, col: nat, rows: nat): nat { col * rows + row }

  predicate HasCell(r: Result, row: nat, col: nat) {
    match r
    case ArrayOfStructs(_, fields) => col < |fields| && row < |fields[col]|
    case StructOfArrays(_, columns) => col < |columns| && row < columns[col].Size()
    case WholeMatrix(_, matrix) => Position(row, col, matrix.rows) < matrix.Size()
  }

  /** What MATLAB code finds in a row and a column: r(row).name, r.name(row) or r(row, col). */
  function Cell(r: Result, row: nat, col: nat): Item
    requires HasCell(r, row, col)
  {
    match r
    case ArrayOfStructs(_, fields) => fields[col][row]
    case StructOfArrays(_, columns) => columns[col].At(row)
    case WholeMatrix(_, matrix) => matrix.At(Position(row, col, matrix.rows))
  }

  /** r has exactly the cells of a table of the given size. */
  predicate HasShape(r: Result, names: seq<string>, rows: nat, width: nat) {
    match r
    case ArrayOfStructs(fieldNames, fields) =>
      fieldNames == names && |fields| == width && forall i :: 0 <= i < width ==> |fields[i]| == rows
    case StructOfArrays(fieldNames, columns) =>
      fieldNames == names && |columns| == width && forall i :: 0 <= i < width ==> columns[i].Size() == rows
    case WholeMatrix(columnCount, matrix) =>
      columnCount == width && matrix.rows == rows && matrix.Size() == width * rows
  }

  /** r shows this table: the value of every cell, and no other cells. */
  ghost predicate Shows(r: Result, names: seq<string>, columns: seq<seq<SqlValue>>, nullAsNaN: bool) {
    && columns != []
    && HasShape(r, names, |columns[0]|, |columns|)
    && forall col, row :: 0 <= col < |columns| && 0 <= row < |columns[col]| ==>
        HasCell(r, row, col) && Cell(r, row, col) == ItemOf(columns[col][row], nullAsNaN)
  }

  lemma PositionBound(row: nat, col: nat, rows: nat, end: nat)
    requires row < rows && col < end
    ensures Position(row, col, rows) < end * rows
  {
    assert (col + 1) * rows <= end * rows;
  }

  /** Every position belongs to exactly one cell. */
  lemma PositionBijective(k: nat, rows: nat, width: nat, row: nat, col: nat)
    requires k < width * rows
    ensures rows > 0 && k / rows < width && k % rows < rows && Position(k % rows, k / rows, rows) == k
    ensures row < rows && Position(row, col, rows) == k ==> row == k % rows && col == k / rows
  {
    if row < rows && Position(row, col, rows) == k {
      if col < k / rows {
        PositionBound(row, col, rows, k / rows);
      } else if col > k / rows {
        PositionBound(k % rows, k / rows, rows, col);
      }
    }
  }

  /** Hence a matrix that shows a table has nothing in it but the cells of the table. */
  lemma MatrixDetermined(r: Result, names: seq<string>, columns: seq<seq<SqlValue>>, nullAsNaN: bool, k: nat)
    requires r.WholeMatrix? && Shows(r, names, columns, nullAsNaN) && k < r.matrix.Size()
    requires forall j :: 0 <= j < |columns| ==> |columns[j]| == |columns[0]|
    ensures var rows := |columns[0]|;
      && rows > 0 && k / rows < |columns| && k % rows < rows
      && r.matrix.At(k) == ItemOf(columns[k / rows][k % rows], nullAsNaN)
  {
    var rows := |columns[0]|;
    PositionBijective(k, rows, |columns|, 0, 0);
    assert Cell(r, k % rows, k / rows) == ItemOf(columns[k / rows][k % rows], nullAsNaN);
  }

  // ----- Fields ---------------------------------------------------------------------------------

  predicate DistinctNames(names: seq<string>) {
    forall j, k :: 0 <= j < k < |names| ==> names[j] != names[k]
  }

  /** The number of a field, or how many there are. */
  function FieldNumber(fields: seq<string>, name: string): (k: nat)
    ensures k <= |fields| && (k < |fields| <==> name in fields)
    ensures k < |fields| ==> fields[k] == name
    ensures forall j :: 0 <= j < k ==> fields[j] != name
  {
    if fields == [] then 0
    else if fields[0] == name then 0
    else 1 + FieldNumber(fields[1..], name)
  }

  /** The fields a struct has after one has been added for each name. */
  function FieldList(names: seq<string>): (fields: seq<string>)
    ensures |fields| <= |names|
  {
    if names == [] then []
    else
      var fields, last := FieldList(names[..|names| - 1]), names[|names| - 1];
      if last in fields then fields else fields + [last]
  }

  /** Assigning to a field that is there, or is new. */
  function Put<T>(held: seq<T>, k: nat, x: T): (more: seq<T>)
    ensures |more| == if k < |held| then |held| else |held| + 1
  {
    if k < |held| then held[k := x] else held + [x]
  }

  /** What they hold after one column has been assigned for each name. */
  function FieldColumns<T>(names: seq<string>, columns: seq<T>): (held: seq<T>)
    requires |names| == |columns|
    ensures |held| == |FieldList(names)|
  {
    if names == [] then []
    else
      var n := |names| - 1;
      Put(FieldColumns(names[..n], columns[..n]), FieldNumber(FieldList(names[..n]), names[n]), columns[n])
  }

  lemma FieldStep<T>(names: seq<string>, columns: seq<T>, i: nat)
    requires |names| == |columns| && i < |names|
    ensures var fields := FieldList(names[..i]);
      && FieldList(names[..i + 1]) == (if names[i] in fields then fields else fields + [names[i]])
      && FieldColumns(names[..i + 1], columns[..i + 1]) ==
         Put(FieldColumns(names[..i], columns[..i]), FieldNumber(fields, names[i]), columns[i])
  {
    assert names[..i + 1][..i] == names[..i] && columns[..i + 1][..i] == columns[..i];
  }

  /** Each name has exactly one field. */
  lemma {:induction false} OneFieldEach(names: seq<string>)
    ensures DistinctNames(FieldList(names)) && forall name :: name in FieldList(names) <==> name in names
  {
    if names != [] {
      var n := |names| - 1;
      OneFieldEach(names[..n]);
      assert names == names[..n] + [names[n]];
    }
  }

  lemma NumberKept(fields: seq<string>, more: seq<string>, name: string)
    requires name in fields
    ensures FieldNumber(fields + more, name) == FieldNumber(fields, name)
  {
    var k := FieldNumber(fields, name);
    assert (fields + more)[k] == name;
    assert forall j :: 0 <= j < k ==> (fields + more)[j] == fields[j];
  }

  /** And it holds the last column of that name. */
  lemma {:induction false} LastColumnHeld<T>(names: seq<string>, columns: seq<T>, j: nat)
    requires |names| == |columns| && j < |names| && names[j] !in names[j + 1..]
    ensures names[j] in FieldList(names)
    ensures FieldColumns(names, columns)[FieldNumber(FieldList(names), names[j])] == columns[j]
  {
    hide FieldList, FieldColumns, FieldNumber;
    var n := |names| - 1;
    FieldStep(names, columns, n);
    assert names[..n + 1] == names && columns[..n + 1] == columns;
    if j < n {
      assert names[j + 1..][n - j - 1] == names[n];
      assert names[..n][j + 1..] == names[j + 1..][..n - j - 1];
      LastColumnHeld(names[..n], columns[..n], j);
      NumberKept(FieldList(names[..n]), [names[n]], names[j]);
    }
  }

  /** So a struct shows every column if and only if no two have the same name. */
  lemma {:induction false} AllFieldsShown<T>(names: seq<string>, columns: seq<T>)
    requires |names| == |columns|
    ensures DistinctNames(names) <==> |FieldList(names)| == |names|
    ensures DistinctNames(names) ==> FieldList(names) == names && FieldColumns(names, columns) == columns
  {
    hide FieldNumber, DistinctNames, FieldList, FieldColumns;
    if names == [] {
      NoFields(names, columns);
      assert names[..0] == names && columns[..0] == columns;
    } else {
      var n := |names| - 1;
      AllFieldsShown(names[..n], columns[..n]);
      FieldStep(names, columns, n);
      MoreDistinct(names, n);
      assert names[..n + 1] == names == names[..n] + [names[n]];
      assert columns[..n + 1] == columns == columns[..n] + [columns[n]];
    }
  }

  lemma NoFields<T>(names: seq<string>, columns: seq<T>)
    requires |names| == |columns|
    ensures FieldList(names[..0]) == [] && FieldColumns(names[..0], columns[..0]) == [] && DistinctNames(names[..0])
  {}

  /** The next name is no field yet exactly if the names are still distinct. */
  lemma MoreDistinct(names: seq<string>, i: nat)
    requires i < |names|
    ensures DistinctNames(names[..i + 1]) <==> DistinctNames(names[..i]) && names[i] !in FieldList(names[..i])
  {
    hide FieldList;
    OneFieldEach(names[..i]);
    var before, now := names[..i], names[..i + 1];
    assert now == before + [names[i]];
    if DistinctNames(now) {
      forall j, k | 0 <= j < k < i ensures before[j] != before[k] {
        assert now[j] != now[k];
      }
      forall j | 0 <= j < i ensures before[j] != names[i] {
        assert now[j] != now[i];
      }
    }
  }

  /**
   * mxAddField: a new field gets the next number. MATLAB's documentation does not say whether a name
   * that is there already is an error or the number of that field; reuses tells which.
   */
  method AddField(fields: seq<string>, name: string, reuses: bool) returns (j: int, more: seq<string>)
    ensures name in fields && !reuses ==> j == -1 && more == fields
    ensures name in fields && reuses ==> j == FieldNumber(fields, name) && more == fields
    ensures name !in fields ==> j == |fields| && more == fields + [name]
  {
    if name in fields {
      j := if reuses then FieldNumber(fields, name) else -1;
      more := fields;
    } else {
      j, more := |fields|, fields + [name];
    }
  }

  // ----- Building the results ------------------------------------------------------------------

  ghost function ContentsOf(cols: seq<ValueSQLCol>): (values: seq<seq<SqlValue>>)
    reads cols
    ensures |values| == |cols|
  {
    seq(|cols|, j requires 0 <= j < |cols| reads cols => cols[j].Contents())
  }

  /** Which columns hold individual values. */
  ghost function KindsOf(cols: seq<ValueSQLCol>): (kinds: seq<bool>)
    reads cols
    ensures |kinds| == |cols|
  {
    seq(|cols|, j requires 0 <= j < |cols| reads cols => cols[j].isAnyType)
  }

  /** Distinct, equally long columns, at least one. */
  ghost predicate Rectangular(cols: seq<ValueSQLCol>)
    reads cols
  {
    && cols != []
    && (forall j, k :: 0 <= j < k < |cols| ==> cols[j] != cols[k])
    && (forall j :: 0 <= j < |cols| ==> cols[j].Size() == cols[0].Size())
  }

  /** Nothing is left in this column that would need memory. */
  ghost predicate Released(col: ValueSQLCol)
    reads col
  {
    col.isAnyType ==> forall row :: 0 <= row < |col.any| ==> col.any[row] == Null
  }

  /** The row loop: each value becomes an item of the target, and its memory is released. */
  method MoveRows(col: ValueSQLCol, target: array<Item>, offset: nat, nullAsNaN: bool)
    requires offset + col.Size() <= target.Length
    modifies col`any, target
    ensures col.Size() == old(col.Size()) && Released(col)
    ensures forall row :: 0 <= row < col.Size() ==>
      target[offset + row] == ItemOf(old(col.Contents())[row], nullAsNaN)
    ensures forall k :: 0 <= k < target.Length && !(offset <= k < offset + col.Size()) ==> target[k] == old(target[k])
  {
    for row := 0 to col.Size()
      invariant col.Size() == old(col.Size())
      invariant col.isAnyType ==> forall r :: 0 <= r < row ==> col.any[r] == Null
      invariant forall r :: row <= r < col.Size() ==> col.Contents()[r] == old(col.Contents())[r]
      invariant forall r :: offset <= r < offset + row ==>
        target[r] == ItemOf(old(col.Contents())[r - offset], nullAsNaN)
      invariant forall k :: 0 <= k < target.Length && !(offset <= k < offset + row) ==> target[k] == old(target[k])
    {
      target[offset + row] := ItemOf(col.At(row), nullAsNaN);
      col.Destroy(row);
    }
  }

  /** The row loop for numbers, which need no memory. */
  method CopyRows(col: ValueSQLCol, target: array<Double>, offset: nat, ghost values: seq<SqlValue>)
    requires !col.isAnyType && offset + col.Size() <= target.Length && values == col.Contents()
    modifies target
    ensures forall row :: 0 <= row < |values| ==> Float(target[offset + row]) == values[row]
    ensures forall k :: 0 <= k < target.Length && !(offset <= k < offset + |values|) ==> target[k] == old(target[k])
  {
    for row := 0 to col.Size()
      invariant forall r :: offset <= r < offset + row ==> Float(target[r]) == values[r - offset]
      invariant forall k :: 0 <= k < target.Length && !(offset <= k < offset + row) ==> target[k] == old(target[k])
    {
      target[offset + row] := col.At(row).d;
    }
  }

  /**
   * The columns before i are done with and released; those from i on still have their values. All
   * have the given number of rows.
   */
  ghost predicate Pending(cols: seq<ValueSQLCol>, i: nat, values: seq<seq<SqlValue>>, rows: nat)
    reads cols
  {
    && |values| == |cols|
    && (forall j, k :: 0 <= j < k < |cols| ==> cols[j] != cols[k])
    && (forall j :: 0 <= j < |cols| ==> cols[j].Size() == |values[j]| == rows)
    && (forall j :: 0 <= j < i && j < |cols| ==> Released(cols[j]))
    && (forall j :: i <= j < |cols| ==> cols[j].Contents() == values[j])
  }

  /** These items are what the values of one column become. */
  predicate ColumnShown(items: seq<Item>, values: seq<SqlValue>, nullAsNaN: bool) {
    && |items| == |values|
    && forall row :: 0 <= row < |values| ==> items[row] == ItemOf(values[row], nullAsNaN)
  }

  predicate MatrixShown(m: Matrix, values: seq<SqlValue>, nullAsNaN: bool) {
    && m.Size() == m.rows == |values|
    && forall row :: 0 <= row < |values| ==> m.At(row) == ItemOf(values[row], nullAsNaN)
  }

  /** The row loop on column i of a table. */
  method MoveColumn(cols: seq<ValueSQLCol>, i: nat, target: array<Item>, offset: nat, nullAsNaN: bool,
                    ghost values: seq<seq<SqlValue>>, ghost rows: nat)
    requires i < |cols| && Pending(cols, i, values, rows) && offset + rows <= target.Length
    modifies cols, target
    ensures Pending(cols, i + 1, values, rows)
    ensures KindsOf(cols) == old(KindsOf(cols))
    ensures |values| == |cols| && |values[i]| == rows
    ensures forall row :: 0 <= row < rows ==> target[offset + row] == ItemOf(values[i][row], nullAsNaN)
    ensures forall k :: 0 <= k < target.Length && !(offset <= k < offset + rows) ==> target[k] == old(target[k])
  {
    hide ValueSQLCol.Contents, Released, ItemOf;
    label Before: MoveRows(cols[i], target, offset, nullAsNaN);
    assert forall j :: 0 <= j < i ==> cols[j] != cols[i] && Released(cols[j]);
    assert forall j :: i < j < |cols| ==> cols[j] != cols[i] && cols[j].Contents() == values[j];
  }

  lemma PendingSizes(cols: seq<ValueSQLCol>, i: nat, values: seq<seq<SqlValue>>, rows: nat)
    requires Pending(cols, i, values, rows)
    ensures |values| == |cols|
    ensures forall j :: 0 <= j < |cols| ==> cols[j].Size() == |values[j]| == rows
    ensures i < |cols| ==> cols[i].Contents() == values[i]
  {}

  lemma NumberItem(d: Double, nullAsNaN: bool)
    ensures ItemOf(Float(d), nullAsNaN) == Scalar(d)
  {}

  lemma PendingNumbers(cols: seq<ValueSQLCol>, i: nat, values: seq<seq<SqlValue>>, rows: nat)
    requires i < |cols| && Pending(cols, i, values, rows) && !cols[i].isAnyType
    ensures Pending(cols, i + 1, values, rows)
  {}

  /** One column of a struct array. */
  method FieldOf(cols: seq<ValueSQLCol>, i: nat, nullAsNaN: bool, rows: nat, ghost values: seq<seq<SqlValue>>)
    returns (field: seq<Item>)
    requires i < |cols| && Pending(cols, i, values, rows)
    modifies cols
    ensures Pending(cols, i + 1, values, rows)
    ensures |values| == |cols| && ColumnShown(field, values[i], nullAsNaN)
    ensures KindsOf(cols) == old(KindsOf(cols))
  {
    hide Pending, ItemOf;
    var items := new Item[rows](_ => Empty);
    MoveColumn(cols, i, items, 0, nullAsNaN, values, rows);
    field := items[..];
    forall row | 0 <= row < rows ensures field[row] == ItemOf(values[i][row], nullAsNaN) {
      assert field[row] == items[0 + row];
    }
  }

  /** One column of a struct of arrays: a numeric vector, or a cell vector. */
  method VectorOf(cols: seq<ValueSQLCol>, i: nat, nullAsNaN: bool, rows: nat, ghost values: seq<seq<SqlValue>>)
    returns (column: Matrix)
    requires i < |cols| && Pending(cols, i, values, rows)
    modifies cols
    ensures Pending(cols, i + 1, values, rows)
    ensures MatrixShown(column, values[i], nullAsNaN)
    ensures column.DoubleMatrix? <==> !old(KindsOf(cols))[i]
    ensures KindsOf(cols) == old(KindsOf(cols))
  {
    hide Pending, ItemOf;
    PendingSizes(cols, i, values, rows);
    if cols[i].isAnyType {
      var cells := FieldOf(cols, i, nullAsNaN, rows, values);
      column := CellMatrix(rows, cells);
    } else {
      PendingNumbers(cols, i, values, rows);
      var doubles := new Double[rows](_ => Num(0.0));
      CopyRows(cols[i], doubles, 0, values[i]);
      column := DoubleMatrix(rows, doubles[..]);
      forall row | 0 <= row < rows ensures column.At(row) == ItemOf(values[i][row], nullAsNaN) {
        assert column.At(row) == Scalar(doubles[0 + row]) && Float(doubles[0 + row]) == values[i][row];
        NumberItem(doubles[0 + row], nullAsNaN);
      }
    }
  }

  lemma RectangularNonempty(cols: seq<ValueSQLCol>)
    requires Rectangular(cols)
    ensures cols != []
  {}

  /** These fields show these columns. */
  predicate FieldsSoFar(fields: seq<seq<Item>>, values: seq<seq<SqlValue>>, nullAsNaN: bool) {
    && |fields| == |values|
    && forall f :: 0 <= f < |fields| ==> ColumnShown(fields[f], values[f], nullAsNaN)
  }

  lemma NoFieldsYet(nullAsNaN: bool)
    ensures FieldsSoFar([], [], nullAsNaN)
  {}

  lemma PutField(fields: seq<seq<Item>>, values: seq<seq<SqlValue>>, k: nat, field: seq<Item>, v: seq<SqlValue>,
                 nullAsNaN: bool)
    requires FieldsSoFar(fields, values, nullAsNaN) && ColumnShown(field, v, nullAsNaN)
    ensures FieldsSoFar(Put(fields, k, field), Put(values, k, v), nullAsNaN)
  {
    hide ColumnShown;
  }

  lemma FieldsShow(names: seq<string>, fields: seq<seq<Item>>, values: seq<seq<SqlValue>>, nullAsNaN: bool)
    requires FieldsSoFar(fields, values, nullAsNaN)
    requires |values| > 0 && forall f :: 0 <= f < |values| ==> |values[f]| == |values[0]|
    ensures Shows(ArrayOfStructs(names, fields), names, values, nullAsNaN)
  {}

  lemma AllPending(cols: seq<ValueSQLCol>)
    requires Rectangular(cols)
    ensures Pending(cols, 0, ContentsOf(cols), cols[0].Size())
  {}

  lemma NonePending(cols: seq<ValueSQLCol>, values: seq<seq<SqlValue>>, rows: nat)
    requires Pending(cols, |cols|, values, rows)
    ensures |values| == |cols| && forall j :: 0 <= j < |cols| ==> Released(cols[j]) && |values[j]| == rows
  {}

  /**
   * ok is false when a field could not be added. Otherwise the struct has one field for each name,
   * which shows the last column of that name.
   */
  method CreateArrayOfStructs(cols: seq<ValueSQLCol>, nullAsNaN: bool, reuses: bool) returns (ok: bool, result: Result)
    requires Rectangular(cols)
    modifies cols
    ensures ok <==> reuses || DistinctNames(NamesOf(cols))
    ensures result.ArrayOfStructs?
    ensures ok ==>
      Shows(result, FieldList(NamesOf(cols)), FieldColumns(NamesOf(cols), old(ContentsOf(cols))), nullAsNaN)
    ensures ok ==> forall j :: 0 <= j < |cols| ==> Released(cols[j])
  {
    hide Pending, ColumnShown, Shows, Rectangular, ContentsOf, ValueSQLCol.Contents, Released;
    hide FieldList, FieldColumns, DistinctNames, FieldsSoFar, Put, FieldNumber;
    assert cols != [] by { RectangularNonempty(cols); }
    ghost var values, all := ContentsOf(cols), NamesOf(cols);
    AllPending(cols);
    NoFields(all, values);
    NoFieldsYet(nullAsNaN);
    var names: seq<string>, fields: seq<seq<Item>> := [], [];
    var rows := cols[0].Size();
    for i := 0 to |cols|
      invariant Pending(cols, i, values, rows)
      invariant names == FieldList(all[..i]) && |fields| == |names|
      invariant reuses || DistinctNames(all[..i])
      invariant FieldsSoFar(fields, FieldColumns(all[..i], values[..i]), nullAsNaN)
    {
      FieldStep(all, values, i);
      MoreDistinct(all, i);
      var j;
      j, names := AddField(names, cols[i].name, reuses);
      if j == -1 {
        NotDistinct(all, i + 1);
        return false, ArrayOfStructs(names, fields);
      }
      var field := FieldOf(cols, i, nullAsNaN, rows, values);
      PutField(fields, FieldColumns(all[..i], values[..i]), j, field, values[i], nullAsNaN);
      fields := Put(fields, j, field);
    }
    NonePending(cols, values, rows);
    FieldSizes(all, values, rows);
    assert all[..|cols|] == all && values[..|cols|] == values;
    ok, result := true, ArrayOfStructs(names, fields);
    FieldsShow(names, fields, FieldColumns(all, values), nullAsNaN);
  }

  lemma NotDistinct(names: seq<string>, n: nat)
    requires n <= |names| && !DistinctNames(names[..n])
    ensures !DistinctNames(names)
  {
    var j, k :| 0 <= j < k < n && names[..n][j] == names[..n][k];
    assert names[j] == names[k];
  }

  /** The fields hold columns, at least one if there is one. */
  lemma {:induction false} FieldSizes(names: seq<string>, columns: seq<seq<SqlValue>>, rows: nat)
    requires |names| == |columns| > 0 && forall j :: 0 <= j < |columns| ==> |columns[j]| == rows
    ensures |FieldList(names)| > 0
    ensures forall f :: 0 <= f < |FieldList(names)| ==> |FieldColumns(names, columns)[f]| == rows
  {
    var n := |names| - 1;
    FieldStep(names, columns, n);
    assert names[..n + 1] == names && columns[..n + 1] == columns;
    if n > 0 {
      FieldSizes(names[..n], columns[..n], rows);
    }
  }

  /** These vectors show these columns, as numbers where those are numbers. */
  predicate VectorsSoFar(columns: seq<Matrix>, values: seq<seq<SqlValue>>, kinds: seq<bool>, nullAsNaN: bool) {
    && |columns| == |values| == |kinds|
    && forall f :: 0 <= f < |columns| ==>
        MatrixShown(columns[f], values[f], nullAsNaN) && (columns[f].DoubleMatrix? <==> !kinds[f])
  }

  lemma NameAt(cols: seq<ValueSQLCol>, i: nat)
    requires i < |cols|
    ensures NamesOf(cols)[i] == cols[i].name
  {}

  lemma NoVectors(nullAsNaN: bool)
    ensures VectorsSoFar([], [], [], nullAsNaN)
  {}

  lemma PutVector(columns: seq<Matrix>, values: seq<seq<SqlValue>>, kinds: seq<bool>, k: nat, column: Matrix,
                  v: seq<SqlValue>, kind: bool, nullAsNaN: bool)
    requires VectorsSoFar(columns, values, kinds, nullAsNaN)
    requires MatrixShown(column, v, nullAsNaN) && (column.DoubleMatrix? <==> !kind)
    ensures VectorsSoFar(Put(columns, k, column), Put(values, k, v), Put(kinds, k, kind), nullAsNaN)
  {
    hide MatrixShown;
  }

  lemma VectorsShow(names: seq<string>, columns: seq<Matrix>, values: seq<seq<SqlValue>>, kinds: seq<bool>,
                    nullAsNaN: bool)
    requires VectorsSoFar(columns, values, kinds, nullAsNaN)
    requires |values| > 0 && forall f :: 0 <= f < |values| ==> |values[f]| == |values[0]|
    ensures Shows(StructOfArrays(names, columns), names, values, nullAsNaN)
    ensures forall f :: 0 <= f < |columns| ==> (columns[f].DoubleMatrix? <==> !kinds[f])
  {}

  method CreateStructOfArrays(cols: seq<ValueSQLCol>, nullAsNaN: bool, reuses: bool) returns (ok: bool, result: Result)
    requires Rectangular(cols)
    modifies cols
    ensures ok <==> reuses || DistinctNames(NamesOf(cols))
    ensures result.StructOfArrays?
    ensures ok ==>
      Shows(result, FieldList(NamesOf(cols)), FieldColumns(NamesOf(cols), old(ContentsOf(cols))), nullAsNaN)
    ensures ok ==> |result.columns| == |FieldList(NamesOf(cols))| && forall f :: 0 <= f < |result.columns| ==>
      (result.columns[f].DoubleMatrix? <==> !FieldColumns(NamesOf(cols), old(KindsOf(cols)))[f])
    ensures ok ==> forall j :: 0 <= j < |cols| ==> Released(cols[j])
  {
    hide Pending, MatrixShown, Shows, Rectangular, ContentsOf, KindsOf, ValueSQLCol.Contents, Released;
    hide FieldList, FieldColumns, DistinctNames, VectorsSoFar, Put, FieldNumber, NamesOf, Matrix.Size, Matrix.At;
    hide ValueSQLCol.Size, ValueSQLCol.At, ValueSQLCol.Valid;
    assert cols != [] by { RectangularNonempty(cols); }
    ghost var values, all, kinds := ContentsOf(cols), NamesOf(cols), KindsOf(cols);
    AllPending(cols);
    NoFields(all, values);
    NoFields(all, kinds);
    NoVectors(nullAsNaN);
    var names: seq<string>, columns: seq<Matrix> := [], [];
    var rows := cols[0].Size();
    for i := 0 to |cols|
      invariant Pending(cols, i, values, rows) && KindsOf(cols) == kinds
      invariant names == FieldList(all[..i]) && |columns| == |names|
      invariant reuses || DistinctNames(all[..i])
      invariant VectorsSoFar(columns, FieldColumns(all[..i], values[..i]), FieldColumns(all[..i], kinds[..i]),
                             nullAsNaN)
    {
      FieldStep(all, values, i);
      FieldStep(all, kinds, i);
      MoreDistinct(all, i);
      NameAt(cols, i);
      var j;
      j, names := AddField(names, cols[i].name, reuses);
      if j == -1 {
        NotDistinct(all, i + 1);
        return false, StructOfArrays(names, columns);
      }
      var column := VectorOf(cols, i, nullAsNaN, rows, values);
      PutVector(columns, FieldColumns(all[..i], values[..i]), FieldColumns(all[..i], kinds[..i]), j, column,
                values[i], kinds[i], nullAsNaN);
      columns := Put(columns, j, column);
    }
    NonePending(cols, values, rows);
    FieldSizes(all, values, rows);
    assert all[..|cols|] == all && values[..|cols|] == values && kinds[..|cols|] == kinds;
    ok, result := true, StructOfArrays(names, columns);
    VectorsShow(names, columns, FieldColumns(all, values), FieldColumns(all, kinds), nullAsNaN);
  }

  /** Whether a numeric matrix will do. */
  method AllFloat(cols: seq<ValueSQLCol>) returns (allFloat: bool)
    ensures allFloat <==> forall j :: 0 <= j < |cols| ==> !cols[j].isAnyType
  {
    allFloat := true;
    for i := 0 to |cols|
      invariant allFloat && forall j :: 0 <= j < i ==> !cols[j].isAnyType
    {
      if cols[i].isAnyType {
        allFloat := false;
        break;
      }
    }
  }

  /** The columns before i stand where they belong in the target. */
  ghost predicate Placed(target: seq<Item>, i: nat, values: seq<seq<SqlValue>>, rows: nat, nullAsNaN: bool) {
    && |target| == |values| * rows
    && (forall j :: 0 <= j < |values| ==> |values[j]| == rows)
    && forall j, row :: 0 <= j < i && j < |values| && 0 <= row < rows ==>
        Position(row, j, rows) < |target| && target[Position(row, j, rows)] == ItemOf(values[j][row], nullAsNaN)
  }

  /** Writing one more column behind the others. */
  lemma PlaceColumn(was: seq<Item>, now: seq<Item>, i: nat, values: seq<seq<SqlValue>>, rows: nat, nullAsNaN: bool)
    requires i < |values| && Placed(was, i, values, rows, nullAsNaN)
    requires |now| == |was| && (i + 1) * rows <= |now|
    requires forall row :: 0 <= row < rows ==> now[i * rows + row] == ItemOf(values[i][row], nullAsNaN)
    requires forall k :: 0 <= k < i * rows ==> now[k] == was[k]
    ensures Placed(now, i + 1, values, rows, nullAsNaN)
  {
    forall j, row | 0 <= j < i + 1 && 0 <= row < rows
      ensures Position(row, j, rows) < |now| && now[Position(row, j, rows)] == ItemOf(values[j][row], nullAsNaN)
    {
      if j < i {
        PositionBound(row, j, rows, i);
      } else {
        assert Position(row, j, rows) == i * rows + row;
      }
    }
  }

  lemma NothingPlaced(target: seq<Item>, values: seq<seq<SqlValue>>, rows: nat, nullAsNaN: bool)
    requires |target| == |values| * rows && forall j :: 0 <= j < |values| ==> |values[j]| == rows
    ensures Placed(target, 0, values, rows, nullAsNaN)
  {}

  function ScalarsOf(s: seq<Double>): (t: seq<Item>)
    ensures |t| == |s|
  {
    seq(|s|, k requires 0 <= k < |s| => Scalar(s[k]))
  }

  /** The items of a matrix by position. */
  function ItemsOf(m: Matrix): (t: seq<Item>)
    ensures |t| == m.Size()
    ensures forall k :: 0 <= k < |t| ==> t[k] == m.At(k)
  {
    if m.DoubleMatrix? then ScalarsOf(m.doubles) else m.cells
  }

  lemma MatrixShows(matrix: Matrix, names: seq<string>, values: seq<seq<SqlValue>>, rows: nat, nullAsNaN: bool)
    requires values != [] && matrix.rows == rows
    requires Placed(ItemsOf(matrix), |values|, values, rows, nullAsNaN)
    ensures Shows(WholeMatrix(|values|, matrix), names, values, nullAsNaN)
  {}

  method CreateMatrix(cols: seq<ValueSQLCol>, nullAsNaN: bool) returns (result: Result)
    requires Rectangular(cols)
    modifies cols
    ensures result.WholeMatrix? && Shows(result, NamesOf(cols), old(ContentsOf(cols)), nullAsNaN)
    ensures result.matrix.DoubleMatrix? <==> forall j :: 0 <= j < |cols| ==> !old(cols[j].isAnyType)
    ensures forall j :: 0 <= j < |cols| ==> Released(cols[j])
  {
    hide Pending, Placed, Shows, Rectangular, ValueSQLCol.Contents;
    assert cols != [] by { RectangularNonempty(cols); }
    ghost var values := ContentsOf(cols);
    AllPending(cols);
    var rows := cols[0].Size();
    var allFloat := AllFloat(cols);
    var matrix;
    if allFloat {
      matrix := DoublesOf(cols, rows, values, nullAsNaN);
    } else {
      matrix := CellsOf(cols, rows, values, nullAsNaN);
      NonePending(cols, values, rows);
    }
    result := WholeMatrix(|cols|, matrix);
    MatrixShows(matrix, NamesOf(cols), values, rows, nullAsNaN);
  }

  method CellsOf(cols: seq<ValueSQLCol>, rows: nat, ghost values: seq<seq<SqlValue>>, nullAsNaN: bool)
    returns (matrix: Matrix)
    requires Pending(cols, 0, values, rows)
    modifies cols
    ensures Pending(cols, |cols|, values, rows)
    ensures matrix.CellMatrix? && matrix.rows == rows && Placed(ItemsOf(matrix), |cols|, values, rows, nullAsNaN)
  {
    hide Pending, Placed, ItemOf;
    PendingSizes(cols, 0, values, rows);
    var target := new Item[|cols| * rows](_ => Empty);
    NothingPlaced(target[..], values, rows, nullAsNaN);
    for i := 0 to |cols|
      invariant Pending(cols, i, values, rows)
      invariant Placed(target[..], i, values, rows, nullAsNaN)
    {
      CellsOfColumn(cols, i, target, rows, values, nullAsNaN);
    }
    matrix := CellMatrix(rows, target[..]);
  }

  method CellsOfColumn(cols: seq<ValueSQLCol>, i: nat, target: array<Item>, rows: nat, ghost values: seq<seq<SqlValue>>,
                       nullAsNaN: bool)
    requires i < |cols| && target.Length == |cols| * rows
    requires Pending(cols, i, values, rows) && Placed(target[..], i, values, rows, nullAsNaN)
    modifies cols, target
    ensures Pending(cols, i + 1, values, rows) && Placed(target[..], i + 1, values, rows, nullAsNaN)
  {
    hide Pending, Placed, ItemOf;
    PendingSizes(cols, i, values, rows);
    ghost var was := target[..];
    var offset := i * cols[i].Size();
    EndOfColumn(i, |cols|, rows);
    MoveColumn(cols, i, target, offset, nullAsNaN, values, rows);
    PlaceColumn(was, target[..], i, values, rows, nullAsNaN);
  }

  lemma EndOfColumn(i: nat, n: nat, rows: nat)
    requires i < n
    ensures i * rows + rows == (i + 1) * rows <= n * rows
  {}

  method DoublesOf(cols: seq<ValueSQLCol>, rows: nat, ghost values: seq<seq<SqlValue>>, nullAsNaN: bool)
    returns (matrix: Matrix)
    requires Pending(cols, 0, values, rows)
    requires forall j :: 0 <= j < |cols| ==> !cols[j].isAnyType
    ensures matrix.DoubleMatrix? && matrix.rows == rows
    ensures Placed(ItemsOf(matrix), |cols|, values, rows, nullAsNaN)
  {
    hide Pending, Placed;
    PendingSizes(cols, 0, values, rows);
    var target := new Double[|cols| * rows](_ => Num(0.0));
    NothingPlaced(ScalarsOf(target[..]), values, rows, nullAsNaN);
    for i := 0 to |cols|
      invariant Pending(cols, i, values, rows)
      invariant Placed(ScalarsOf(target[..]), i, values, rows, nullAsNaN)
    {
      DoublesOfColumn(cols, i, target, rows, values, nullAsNaN);
      PendingNumbers(cols, i, values, rows);
    }
    matrix := DoubleMatrix(rows, target[..]);
  }

  method DoublesOfColumn(cols: seq<ValueSQLCol>, i: nat, target: array<Double>, rows: nat,
                         ghost values: seq<seq<SqlValue>>, nullAsNaN: bool)
    requires i < |cols| && target.Length == |cols| * rows && !cols[i].isAnyType
    requires Pending(cols, i, values, rows) && Placed(ScalarsOf(target[..]), i, values, rows, nullAsNaN)
    modifies target
    ensures Placed(ScalarsOf(target[..]), i + 1, values, rows, nullAsNaN)
  {
    hide Pending, Placed, ItemOf;
    PendingSizes(cols, i, values, rows);
    ghost var was := target[..];
    EndOfColumn(i, |cols|, rows);
    CopyRows(cols[i], target, i * rows, values[i]);
    forall row | 0 <= row < rows ensures Scalar(target[i * rows + row]) == ItemOf(values[i][row], nullAsNaN) {
      NumberItem(target[i * rows + row], nullAsNaN);
    }
    PlaceColumn(ScalarsOf(was), ScalarsOf(target[..]), i, values, rows, nullAsNaN);
  }

  datatype Layout = AsArrayOfStructs | AsStructOfArrays | AsMatrix

  /** The stored form of each column of a list of rows. */
  function StoredColumns(rows: seq<seq<SqlValue>>, width: nat, settings: Settings): (columns: seq<seq<SqlValue>>)
    requires HasWidth(rows, width)
    ensures |columns| == width
  {
    seq(width, j requires 0 <= j < width => StoredColumn(rows, j, settings))
  }

  /** A layout can be made unless a field would have to be added twice. */
  predicate Layable(layout: Layout, reuses: bool, names: seq<string>) {
    layout.AsMatrix? || reuses || names == [] || DistinctNames(names)
  }

  /**
   * r is the table in the layout asked for. In a matrix every column has its place; in a struct every
   * name has, with the last column of that name: with distinct names these are the same cells.
   */
  ghost predicate Presents(r: Result, layout: Layout, names: seq<string>, columns: seq<seq<SqlValue>>,
                           nullAsNaN: bool)
  {
    && |names| == |columns|
    && (r.ArrayOfStructs? <==> layout.AsArrayOfStructs?)
    && (r.StructOfArrays? <==> layout.AsStructOfArrays?)
    && if layout.AsMatrix? then Shows(r, names, columns, nullAsNaN)
       else Shows(r, FieldList(names), FieldColumns(names, columns), nullAsNaN)
  }

  /** With distinct names, all layouts show every cell of the table at its place. */
  lemma DistinctPresents(r: Result, layout: Layout, names: seq<string>, columns: seq<seq<SqlValue>>, nullAsNaN: bool)
    requires DistinctNames(names) && Presents(r, layout, names, columns, nullAsNaN)
    ensures Shows(r, names, columns, nullAsNaN)
  {
    AllFieldsShown(names, columns);
  }

  /** The column of a result in which the column j of the table is found. */
  function ColumnIn(layout: Layout, names: seq<string>, j: nat): (col: nat)
    requires j < |names|
  {
    if layout.AsMatrix? then j else FieldNumber(FieldList(names), names[j])
  }

  /**
   * Every value of every row is found in its cell: r(row, j) of a matrix, r(row).name or r.name(row)
   * of a struct, where the name is that of column j and of no later one.
   */
  lemma CellFound(r: Result, layout: Layout, names: seq<string>, rows: seq<seq<SqlValue>>, settings: Settings,
                  row: nat, j: nat)
    requires HasWidth(rows, |names|) && row < |rows| && j < |names| && settings.casts.Lawful()
    requires Presents(r, layout, names, StoredColumns(rows, |names|, settings), settings.nullAsNaN)
    requires layout.AsMatrix? || names[j] !in names[j + 1..]
    ensures var col := ColumnIn(layout, names, j);
      && (!layout.AsMatrix? ==> !r.WholeMatrix? && col < |r.names| && r.names[col] == names[j])
      && HasCell(r, row, col)
      && match rows[row][j]
         case Text(t) => Cell(r, row, col) == Str(t)
         case Blob(b) => Cell(r, row, col) == Bytes(b)
         case Float(d) => Cell(r, row, col) == Scalar(d)
         case Null => Cell(r, row, col) == if settings.nullAsNaN then Scalar(NaN) else Empty
         case Integer(i) =>
           && (Cell(r, row, col) == Scalar(Num(settings.casts.toDouble(i) as real)) || Cell(r, row, col) == Int64(i))
           && (-EXACT_LIMIT <= i <= EXACT_LIMIT ==> Cell(r, row, col) == Scalar(Num(i as real)))
  {
    hide FieldList, FieldColumns, FieldNumber, DistinctNames, Cell, HasCell, ItemOf, Stored;
    var columns := StoredColumns(rows, |names|, settings);
    var v := rows[row][j];
    assert columns[j][row] == Stored(v, settings.casts, settings.nullAsNaN);
    if !layout.AsMatrix? {
      LastColumnHeld(names, columns, j);
    }
    ShownAs(v, settings);
  }

  /** And there is nothing else: as many rows as were fetched, and one column for each column or name. */
  lemma ResultSize(r: Result, layout: Layout, names: seq<string>, rows: seq<seq<SqlValue>>, settings: Settings)
    requires HasWidth(rows, |names|)
    requires Presents(r, layout, names, StoredColumns(rows, |names|, settings), settings.nullAsNaN)
    ensures match r
      case ArrayOfStructs(fields, data) =>
        |data| == |fields| && fields == FieldList(names) && forall f :: 0 <= f < |data| ==> |data[f]| == |rows|
      case StructOfArrays(fields, data) =>
        |data| == |fields| && fields == FieldList(names) && forall f :: 0 <= f < |data| ==> data[f].Size() == |rows|
      case WholeMatrix(width, matrix) =>
        width == |names| && matrix.rows == |rows| && matrix.Size() == |names| * |rows|
  {
    var columns := StoredColumns(rows, |names|, settings);
    if !layout.AsMatrix? && names != [] {
      hide FieldList, FieldColumns;
      FieldSizes(names, columns, |rows|);
    }
  }

  /** What a value becomes on its way through a column into the result. */
  lemma ShownAs(v: SqlValue, settings: Settings)
    requires settings.casts.Lawful()
    ensures var item := ItemOf(Stored(v, settings.casts, settings.nullAsNaN), settings.nullAsNaN);
      match v
      case Text(t) => item == Str(t)
      case Blob(b) => item == Bytes(b)
      case Float(d) => item == Scalar(d)
      case Null => item == if settings.nullAsNaN then Scalar(NaN) else Empty
      case Integer(i) =>
        && (item == Scalar(Num(settings.casts.toDouble(i) as real)) || item == Int64(i))
        && (-EXACT_LIMIT <= i <= EXACT_LIMIT ==> item == Scalar(Num(i as real)))
  {}

  /** The table in the layout asked for. Without columns there is only an empty result. */
  method Present(cols: seq<ValueSQLCol>, settings: Settings, layout: Layout, reuses: bool,
                 ghost rows: seq<seq<SqlValue>>)
    returns (ok: bool, results: seq<Result>)
    requires Holds(cols, rows, settings)
    modifies cols
    ensures ok <==> Layable(layout, reuses, NamesOf(cols))
    ensures HasWidth(rows, |cols|)
    ensures |results| == if ok && cols != [] then 1 else 0
    ensures results != [] ==>
      Presents(results[0], layout, NamesOf(cols), StoredColumns(rows, |cols|, settings), settings.nullAsNaN)
    ensures ok ==> forall j :: 0 <= j < |cols| ==> Released(cols[j])
  {
    hide Shows, ValueSQLCol.Contents, Holds, Rectangular, Released, DistinctNames, ContentsOf;
    ReadyToShow(cols, rows, settings);
    ok, results := true, [];
    if cols != [] {
      var result;
      match layout {
        case AsArrayOfStructs => ok, result := CreateArrayOfStructs(cols, settings.nullAsNaN, reuses);
        case AsStructOfArrays => ok, result := CreateStructOfArrays(cols, settings.nullAsNaN, reuses);
        case AsMatrix => result := CreateMatrix(cols, settings.nullAsNaN);
      }
      if ok {
        results := [result];
      }
    }
  }

  lemma RowCount(cols: seq<ValueSQLCol>, rows: seq<seq<SqlValue>>, settings: Settings)
    requires Holds(cols, rows, settings)
    ensures cols != [] ==> cols[0].Size() == |rows|
  {}

  lemma ReadyToShow(cols: seq<ValueSQLCol>, rows: seq<seq<SqlValue>>, settings: Settings)
    requires Holds(cols, rows, settings)
    ensures HasWidth(rows, |cols|)
    ensures ContentsOf(cols) == StoredColumns(rows, |cols|, settings)
    ensures cols != [] ==> Rectangular(cols)
  {}
}
