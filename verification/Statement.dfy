/**
 * The argument handling of cmdHandleSQLStatement in mksqlite.cpp: one argument list is spread over
 * one statement or, with parameter wrapping, over as many runs of it as it is long.
 */
module Statement {
  import opened Columns
  import opened Results
  import FieldNames
  import opened Wrappers

  /** A MATLAB argument. The elements of a struct array have named fields. */
  datatype Arg =
    | Plain(id: nat)
    | CellArray(items: seq<Arg>)
    | StructArray(elements: seq<map<string, Arg>>)

  datatype Options = Options(wrapping: bool, streaming: bool)

  /** What is bound to the placeholders of a statement; None is an SQL NULL. */
  type Bindings = seq<Option<Arg>>

  /** A placeholder's name with its ?, :, $ or @, if it has one. */
  type Name = n: Option<string> | n.None? || n.value != "" witness None

  datatype Status =
    | Success
    | MissingArg | MissingArgCell | MissingArgStruct | UnexpectedArg
    | SingleCellNotAllowed | SingleStructNotAllowed
    | BindFailed | NamesFailed | FetchFailed | OutOfMemory

  /** Where the bind loop takes its arguments from. */
  datatype Source = List(items: seq<Arg>) | Fields(elements: seq<map<string, Arg>>)

  /** SQLite: which values it takes, and what a run yields after the runs before it. */
  datatype Database = Database(accepts: (nat, Arg) -> bool, execute: seq<Bindings> -> Execution) {
    ghost predicate Lawful(width: nat) {
      forall history :: HasWidth(execute(history).rows, width)
    }
  }

  // ----- What is wanted ------------------------------------------------------------------------

  /** The arguments proper: a single cell array stands for its elements, unless streaming is on. */
  function Spread(args: seq<Arg>, streaming: bool): seq<Arg> {
    if |args| == 1 && args[0].CellArray? && !streaming then args[0].items else args
  }

  /** A single struct array supplies its fields, unless it can be streamed into the one placeholder. */
  function SourceOf(args: seq<Arg>, needed: nat, o: Options): Source {
    var s := Spread(args, o.streaming);
    if |s| == 1 && s[0].StructArray? && (o.streaming ==> o.wrapping || needed > 1) then
      Fields(s[0].elements)
    else
      List(s)
  }

  /** With streaming, a container could be one value or many: these combinations are refused. */
  predicate Ambiguous(args: seq<Arg>, needed: nat, o: Options) {
    && o.streaming && |args| == 1
    && ((args[0].CellArray? && (o.wrapping || needed > 1))
        || (args[0].StructArray? && o.wrapping != (needed > 1)))
  }

  /** Whether the arguments fit the placeholders. */
  predicate Fits(src: Source, needed: nat, wrapping: bool) {
    match src
    case List(items) =>
      if !wrapping then |items| <= needed else needed == 0 || (|items| > 0 && |items| % needed == 0)
    case Fields(elements) =>
      needed == 0 || if wrapping then |elements| > 0 else |elements| <= 1
  }

  /** How often the statement is run. */
  function RunCount(src: Source, needed: nat, wrapping: bool): nat {
    if !wrapping || needed == 0 then 1
    else if src.List? then |src.items| / needed
    else |src.elements|
  }

  function FieldNamed(element: map<string, Arg>, name: Name): Option<Arg> {
    if name.Some? && name.value[1..] in element then Some(element[name.value[1..]]) else None
  }

  /** What belongs to placeholder j in run i. */
  function Argument(src: Source, names: seq<Name>, i: nat, j: nat): Option<Arg>
    requires j < |names|
  {
    match src
    case List(items) => if i * |names| + j < |items| then Some(items[i * |names| + j]) else None
    case Fields(elements) => if i < |elements| then FieldNamed(elements[i], names[j]) else None
  }

  /** All that belongs to run i. */
  function Wanted(src: Source, names: seq<Name>, i: nat): (b: Bindings)
    ensures |b| == |names|
  {
    seq(|names|, j requires 0 <= j < |names| => Argument(src, names, i, j))
  }

  function WantedRuns(src: Source, names: seq<Name>, count: nat): (runs: seq<Bindings>)
    ensures |runs| == count
  {
    seq(count, i requires 0 <= i < count => Wanted(src, names, i))
  }

  // ----- What is done --------------------------------------------------------------------------

  /** Which of the arguments are used: a single cell or struct array may be opened up. */
  method SelectArguments(args: seq<Arg>, needed: nat, o: Options)
    returns (status: Status, src: Source, haveParamCell: bool, countBindParam: nat)
    ensures status.Success? <==> !Ambiguous(args, needed, o)
    ensures !status.Success? ==> status == if args[0].CellArray? then SingleCellNotAllowed else SingleStructNotAllowed
    ensures status.Success? ==>
      && src == SourceOf(args, needed, o)
      && countBindParam == (if src.List? then |src.items| else needed * |src.elements|)
      && (haveParamCell <==> |args| == 1 && args[0].CellArray? && !o.streaming)
  {
    var nextBindParam := args;
    status, src, haveParamCell, countBindParam := Success, List(args), false, |args|;
    if countBindParam == 1 && nextBindParam[0].CellArray? {
      haveParamCell := true;
      if o.streaming {
        if o.wrapping || needed > 1 {
          status := SingleCellNotAllowed;
          return;
        }
        haveParamCell := false;
      }
      if haveParamCell {
        countBindParam := |nextBindParam[0].items|;
        nextBindParam := nextBindParam[0].items;
      }
    }
    src := List(nextBindParam);
    if countBindParam == 1 && nextBindParam[0].StructArray? {
      var haveParamStruct := true;
      if o.streaming {
        if o.wrapping && needed > 1 {
        } else if o.wrapping || needed > 1 {
          status := SingleStructNotAllowed;
          return;
        } else {
          haveParamStruct := false;
        }
      }
      if haveParamStruct {
        countBindParam := needed * |nextBindParam[0].elements|;
        src := Fields(nextBindParam[0].elements);
      }
    }
  }

  /** How often the statement runs, if the number of arguments allows it at all. */
  method CountRuns(countBindParam: nat, needed: nat, o: Options, haveParamStruct: bool, haveParamCell: bool,
                   ghost src: Source)
    returns (status: Status, count: nat)
    requires haveParamStruct == src.Fields?
    requires countBindParam == if src.List? then |src.items| else needed * |src.elements|
    ensures status.Success? <==> Fits(src, needed, o.wrapping)
    ensures status.Success? ==> count == RunCount(src, needed, o.wrapping)
    ensures !status.Success? ==>
      status == if !o.wrapping then UnexpectedArg
                else if haveParamStruct then MissingArgStruct
                else if haveParamCell then MissingArgCell
                else MissingArg
  {
    if src.Fields? && needed > 0 {
      WholeElements(needed, |src.elements|);
    }
    status, count := Success, 1;
    if o.wrapping {
      var remain := 0;
      if needed > 0 {
        count, remain := countBindParam / needed, countBindParam % needed;
      }
      if remain > 0 || count == 0 {
        status := if haveParamStruct then MissingArgStruct else if haveParamCell then MissingArgCell else MissingArg;
      }
    } else if countBindParam > needed {
      status := UnexpectedArg;
    }
  }

  lemma AtLeastTwice(needed: nat, elements: nat)
    requires needed > 0
    ensures needed * elements <= needed <==> elements <= 1
  {
    if elements >= 2 {
      assert needed * elements >= needed * 2;
    }
  }

  /** Quotient and remainder are determined by what they make up. */
  lemma DivisionUnique(n: nat, k: nat, q: nat, r: nat)
    requires r < n && k == n * q + r
    ensures k / n == q && k % n == r
  {
    var d: int := q - k / n;
    assert n * d == k % n - r;
    assert d >= 1 ==> n * d >= n;
    assert d <= -1 ==> n * d + n <= 0;
  }

  /** Whole elements, no remainder. */
  lemma WholeElements(needed: nat, elements: nat)
    requires needed > 0
    ensures needed * elements / needed == elements && needed * elements % needed == 0
    ensures needed * elements <= needed <==> elements <= 1
  {
    DivisionUnique(needed, needed * elements, elements, 0);
    AtLeastTwice(needed, elements);
  }

  /** Whether SQLite can be given all that belongs to run i. */
  ghost predicate Bindable(src: Source, names: seq<Name>, db: Database, i: nat) {
    forall j :: 0 <= j < |names| ==>
      match Argument(src, names, i, j)
      case Some(a) => db.accepts(j + 1, a)
      case None => src.List? || i >= |src.elements|
  }

  /** How far the argument list is used up before run i. */
  ghost predicate Progress(src: Source, needed: nat, i: nat, next: nat, countBindParam: nat) {
    match src
    case List(items) => next == i * needed && next + countBindParam == |items|
    case Fields(elements) => i <= |elements| && countBindParam == needed * (|elements| - i)
  }

  /** The bind loop of one run. */
  method BindRun(src: Source, names: seq<Name>, db: Database, i: nat, nextIn: nat, countIn: nat)
    returns (status: Status, bindings: Bindings, nextBindParam: nat, countBindParam: nat)
    requires Progress(src, |names|, i, nextIn, countIn)
    ensures status.Success? <==> Bindable(src, names, db, i)
    ensures status.Success? ==> bindings == Wanted(src, names, i)
    ensures status.Success? && (src.List? ==> countIn >= |names|) && (src.Fields? ==> i < |src.elements|) ==>
      Progress(src, |names|, i + 1, nextBindParam, countBindParam)
    ensures !status.Success? ==> status.BindFailed? || (src.Fields? && status.MissingArgStruct?)
  {
    hide Argument, Progress, FieldNamed;
    ProgressMeans(src, names, i, nextIn, countIn);
    status, nextBindParam, countBindParam := Success, nextIn, countIn;
    bindings := seq(|names|, j => None);  // clearBindings
    var iParam := 0;
    while iParam < |names| && countBindParam != 0
      invariant 0 <= iParam <= |names| && |bindings| == |names|
      invariant countBindParam + iParam == countIn
      invariant nextBindParam == if src.List? then nextIn + iParam else nextIn
      invariant src.Fields? && i >= |src.elements| ==> iParam == 0
      invariant forall j :: 0 <= j < iParam ==>
        bindings[j] == Argument(src, names, i, j) && bindings[j].Some? && db.accepts(j + 1, bindings[j].value)
      invariant forall j :: iParam <= j < |names| ==> bindings[j] == None
    {
      var bindParam;
      if src.List? {
        bindParam := Some(src.items[nextBindParam]);
        nextBindParam := nextBindParam + 1;
      } else {
        bindParam := FieldNamed(src.elements[i], names[iParam]);
        if bindParam.None? {
          status := MissingArgStruct;
          assert Argument(src, names, i, iParam).None?;
          return;
        }
      }
      assert bindParam == Argument(src, names, i, iParam);
      if !db.accepts(iParam + 1, bindParam.value) {
        status := BindFailed;
        return;
      }
      bindings := bindings[iParam := bindParam];
      iParam, countBindParam := iParam + 1, countBindParam - 1;
    }
  }

  /** Where the bind loop finds what belongs to run i, and where it leaves off. */
  lemma ProgressMeans(src: Source, names: seq<Name>, i: nat, next: nat, count: nat)
    requires Progress(src, |names|, i, next, count)
    ensures src.List? ==>
      && next + count == |src.items|
      && (forall j {:trigger Argument(src, names, i, j)} :: 0 <= j < |names| ==>
        Argument(src, names, i, j) == if j < count then Some(src.items[next + j]) else None)
      && (count >= |names| ==> Progress(src, |names|, i + 1, next + |names|, count - |names|))
    ensures src.Fields? && i < |src.elements| ==>
      && count >= |names|
      && (forall j {:trigger Argument(src, names, i, j)} :: 0 <= j < |names| ==>
        Argument(src, names, i, j) == FieldNamed(src.elements[i], names[j]))
      && Progress(src, |names|, i + 1, next, count - |names|)
    ensures src.Fields? && i >= |src.elements| ==>
      && count == 0
      && forall j {:trigger Argument(src, names, i, j)} :: 0 <= j < |names| ==> Argument(src, names, i, j) == None
  {
    if src.Fields? && i < |src.elements| {
      OneElementLess(|names|, |src.elements| - i);
    }
  }

  lemma OneElementLess(needed: nat, elements: nat)
    requires elements > 0
    ensures needed * elements == needed * (elements - 1) + needed
  {}

  /** What SQLite answered to these runs. */
  function Executions(db: Database, history: seq<Bindings>): (e: seq<Execution>)
    ensures |e| == |history|
  {
    seq(|history|, k requires 0 <= k < |history| => db.execute(history[..k + 1]))
  }

  function RowIds(executions: seq<Execution>): seq<int> {
    seq(|executions|, k requires 0 <= k < |executions| => executions[k].lastRowId)
  }

  /** Whether the first k runs can be bound and run to their end. */
  ghost predicate RunsWell(src: Source, names: seq<Name>, db: Database, k: nat) {
    forall i :: 0 <= i < k ==> Bindable(src, names, db, i) && Completes(src, names, db, i)
  }

  predicate Completes(src: Source, names: seq<Name>, db: Database, i: nat) {
    db.execute(WantedRuns(src, names, i + 1)).outcome.Completed?
  }

  /**
   * The loop over the runs. Each run has its own share of the arguments bound, and nothing else;
   * the rows of all runs accumulate. The first fetch also names the columns, before it executes.
   */
  method RunAll(src: Source, names: seq<Name>, db: Database, count: nat, countIn: nat, columns: seq<string>,
                naming: Naming, settings: Settings)
    returns (status: Status, history: seq<Bindings>, table: seq<ValueSQLCol>, lastRowIds: seq<int>)
    requires count > 0 && db.Lawful(|columns|) && naming.maxLength >= 4
    requires Progress(src, |names|, 0, 0, countIn)
    requires count > 1 ==> if src.List? then |src.items| == count * |names| else |src.elements| == count
    ensures status.Success? <==> RunsWell(src, names, db, count) && Nameable(columns, naming)
    ensures |history| <= count && history == WantedRuns(src, names, |history|)
    ensures status.Success? ==>
      && |history| == count && Holds(table, AllRows(Executions(db, history)), settings)
      && NamesFor(columns, naming, NamesOf(table)) && lastRowIds == RowIds(Executions(db, history))
    ensures forall j :: 0 <= j < |table| ==> fresh(table[j])
    ensures !Nameable(columns, naming) ==> history == []
    ensures !status.Success? ==>
      match status
      case NamesFailed => history == [] && Bindable(src, names, db, 0) && !Nameable(columns, naming)
      case FetchFailed =>
        && 0 < |history| && RunsWell(src, names, db, |history| - 1) && Bindable(src, names, db, |history| - 1)
        && !db.execute(history).outcome.Completed?
      case _ =>
        && |history| < count && RunsWell(src, names, db, |history|) && !Bindable(src, names, db, |history|)
        && (status.BindFailed? || status.MissingArgStruct?)
  {
    hide Bindable, Progress, Wanted, Holds, HasWidth, AllRows, RunsWell, Argument, FieldNamed, NamesFor, Nameable;
    status, history, table, lastRowIds := Success, [], [], [];
    RunsWellStep(src, names, db, 0);
    var nextBindParam, countBindParam := 0, countIn;
    var initialize := true;
    for i := 0 to count
      invariant status.Success? && initialize == (i == 0)
      invariant history == WantedRuns(src, names, i) && RunsWell(src, names, db, i)
      invariant i < count ==> Progress(src, |names|, i, nextBindParam, countBindParam)
      invariant i > 0 ==> Holds(table, AllRows(Executions(db, history)), settings)
      invariant i > 0 ==> NamesFor(columns, naming, NamesOf(table)) && Nameable(columns, naming)
      invariant forall j :: 0 <= j < |table| ==> fresh(table[j])
      invariant lastRowIds == RowIds(Executions(db, history))
    {
      RunsWellStep(src, names, db, i);
      ShareLeft(src, |names|, count, i, nextBindParam, countBindParam);
      var bindings;
      status, bindings, nextBindParam, countBindParam := BindRun(src, names, db, i, nextBindParam, countBindParam);
      if !status.Success? {
        RunsWellPrefix(src, names, db, i, count);
        return;
      }
      ghost var before := Executions(db, history);
      var next := history + [bindings];
      assert next == WantedRuns(src, names, i + 1);
      var e := db.execute(next);
      assert Executions(db, next) == before + [e] by { ExecutionsGrow(db, next); }
      RowsGrow(before, e);
      assert HasWidth(e.rows, |columns|);
      var outcome;
      outcome, table := Fetch(table, initialize, columns, naming, e, settings,
                              if initialize then [] else AllRows(before));
      if outcome.NotNamed? {
        status := NamesFailed;
        return;
      }
      history := next;
      if outcome.NotCompleted? {
        status := FetchFailed;
        RunsWellPrefix(src, names, db, i, count);
        return;
      }
      initialize := false;
      lastRowIds := lastRowIds + [e.lastRowId];
    }
  }

  lemma RunsWellStep(src: Source, names: seq<Name>, db: Database, i: nat)
    ensures i == 0 ==> RunsWell(src, names, db, i)
    ensures RunsWell(src, names, db, i + 1) <==>
      (RunsWell(src, names, db, i) && Bindable(src, names, db, i) && Completes(src, names, db, i))
  {}

  lemma RunsWellPrefix(src: Source, names: seq<Name>, db: Database, i: nat, count: nat)
    requires i < count
    ensures RunsWell(src, names, db, count) ==> RunsWell(src, names, db, i + 1)
  {}

  lemma ExecutionsGrow(db: Database, history: seq<Bindings>)
    requires history != []
    ensures Executions(db, history) == Executions(db, history[..|history| - 1]) + [db.execute(history)]
  {
    assert history[..|history|] == history;
    var shorter := history[..|history| - 1];
    forall k | 0 <= k < |shorter| ensures Executions(db, shorter)[k] == Executions(db, history)[k] {
      assert shorter[..k + 1] == history[..k + 1];
    }
  }

  lemma RowsGrow(before: seq<Execution>, e: Execution)
    ensures AllRows([]) == []
    ensures AllRows(before + [e]) == AllRows(before) + e.rows
  {}

  /** The shares of the runs lie one behind the other. */
  lemma SharesFit(i: nat, count: nat, needed: nat)
    requires i < count
    ensures i * needed + needed == (i + 1) * needed <= count * needed
  {
    var rest: nat := count - i - 1;
    assert count * needed == (i + 1) * needed + rest * needed;
  }

  /** While there are runs left, there are arguments for the next one. */
  lemma ShareLeft(src: Source, needed: nat, count: nat, i: nat, next: nat, countBindParam: nat)
    requires i < count && Progress(src, needed, i, next, countBindParam)
    requires count > 1 ==> if src.List? then |src.items| == count * needed else |src.elements| == count
    ensures i + 1 < count && src.List? ==> countBindParam >= needed
    ensures i + 1 < count && src.Fields? ==> i < |src.elements|
  {
    if i + 1 < count && src.List? {
      SharesFit(i, count, needed);
    }
  }

  /**
   * cmdHandleSQLStatement. It succeeds exactly when the arguments fit the placeholders, SQLite
   * takes all of them, the columns can be named, every run completes and the layout can be made; then
   * run i had bound what belongs to it, and the result presents the rows of all runs in order.
   * Arguments that do not fit are refused before anything runs, and so are columns without names;
   * otherwise what ran before a failure stays done.
   */
  method HandleStatement(args: seq<Arg>, names: seq<Name>, o: Options, db: Database, columns: seq<string>,
                         naming: Naming, settings: Settings, layout: Layout, reuses: bool)
    returns (status: Status, history: seq<Bindings>, results: seq<Result>, rowCount: nat, fieldNames: seq<string>,
             lastRowIds: seq<int>)
    requires db.Lawful(|columns|) && naming.maxLength >= 4
    ensures var src := SourceOf(args, |names|, o); var count := RunCount(src, |names|, o.wrapping);
      && (status.Success? <==>
          !Ambiguous(args, |names|, o) && Fits(src, |names|, o.wrapping) && RunsWell(src, names, db, count)
          && Nameable(columns, naming) && CanLayOut(columns, naming, layout, reuses))
      && |history| <= count && history == WantedRuns(src, names, |history|)
      && (Ambiguous(args, |names|, o) || !Fits(src, |names|, o.wrapping) || !Nameable(columns, naming) ==>
          history == [])
      && (status.Success? || status.OutOfMemory? ==> |history| == count)
      && (status.OutOfMemory? ==> !CanLayOut(columns, naming, layout, reuses))
      && (status.FetchFailed? ==> history != [])
      && RunsWell(src, names, db, if status.FetchFailed? then |history| - 1 else |history|)
    ensures status.Success? ==>
      && NamesFor(columns, naming, fieldNames)
      && rowCount == (if columns == [] then 0 else |AllRows(Executions(db, history))|)
      && lastRowIds == RowIds(Executions(db, history))
      && forall k :: 0 <= k < |history| ==> lastRowIds[k] == db.execute(history[..k + 1]).lastRowId
    ensures |results| == if status.Success? && columns != [] then 1 else 0
    ensures results != [] ==>
      && HasWidth(AllRows(Executions(db, history)), |columns|)
      && Presents(results[0], layout, fieldNames, StoredColumns(AllRows(Executions(db, history)), |columns|, settings),
                  settings.nullAsNaN)
  {
    hide Ambiguous, RunsWell, Holds, AllRows, Presents, Executions, HasWidth, Database.Lawful, Wanted;
    hide Nameable, CanLayOut, Layable, RowIds, ValueSQLCol.Contents;
    var src, haveParamCell, countBindParam, count, table;
    history, results, rowCount, fieldNames, lastRowIds := [], [], 0, [], [];
    RunsWellStep(SourceOf(args, |names|, o), names, db, 0);
    status, src, haveParamCell, countBindParam := SelectArguments(args, |names|, o);
    if !status.Success? {
      return;
    }
    status, count := CountRuns(countBindParam, |names|, o, src.Fields?, haveParamCell, src);
    if !status.Success? {
      return;
    }
    Shares(src, |names|, o.wrapping);
    status, history, table, lastRowIds := RunAll(src, names, db, count, countBindParam, columns, naming, settings);
    if status.Success? {
      RowCount(table, AllRows(Executions(db, history)), settings);
      rowCount := if table == [] then 0 else table[0].Size();
      var ok;
      ok, results := Present(table, settings, layout, reuses, AllRows(Executions(db, history)));
      LayoutKnown(columns, naming, NamesOf(table), layout, reuses);
      if !ok {
        status := OutOfMemory;
        return;
      }
      fieldNames := NamesOf(table);
      RowIdsAt(db, history);
    }
  }

  /** What a run yields depends on its own bindings and on those of the runs before it. */
  lemma RowIdsAt(db: Database, history: seq<Bindings>)
    ensures forall k :: 0 <= k < |history| ==>
      && Executions(db, history)[k] == db.execute(history[..k + 1])
      && RowIds(Executions(db, history))[k] == db.execute(history[..k + 1]).lastRowId
  {}

  /** A struct layout can be made: the names are kept distinct, or are so by themselves. */
  predicate CanLayOut(columns: seq<string>, naming: Naming, layout: Layout, reuses: bool) {
    || naming.checkUnique
    || Layable(layout, reuses,
               seq(|columns|, i requires 0 <= i < |columns| => FieldNames.Base(columns[i], naming.maxLength)))
  }

  lemma LayoutKnown(columns: seq<string>, naming: Naming, names: seq<string>, layout: Layout, reuses: bool)
    requires naming.maxLength >= 4 && NamesFor(columns, naming, names)
    ensures Layable(layout, reuses, names) <==> CanLayOut(columns, naming, layout, reuses)
  {
    hide FieldNames.Base, FieldNames.FirstFreeNames;
    if naming.checkUnique {
      FieldNames.NamesAreUsable(columns, naming.maxLength, names);
    } else {
      assert names == seq(|columns|, i requires 0 <= i < |columns| => FieldNames.Base(columns[i], naming.maxLength));
    }
  }

  lemma Shares(src: Source, needed: nat, wrapping: bool)
    requires Fits(src, needed, wrapping)
    ensures var count := RunCount(src, needed, wrapping);
      && count > 0
      && (count > 1 ==> if src.List? then |src.items| == count * needed else |src.elements| == count)
  {}

  // ----- What that means -----------------------------------------------------------------------

  function Concat(runs: seq<Bindings>): Bindings {
    if runs == [] then [] else Concat(runs[..|runs| - 1]) + runs[|runs| - 1]
  }

  function AllBound(items: seq<Arg>): Bindings {
    seq(|items|, x requires 0 <= x < |items| => Some(items[x]))
  }

  /**
   * With wrapping, a list is accepted exactly when it has k arguments for each of the n
   * placeholders, for some k > 0. Then there are k runs, and one after the other they bind every
   * argument once, in order.
   */
  lemma EachArgumentOnce(items: seq<Arg>, names: seq<Name>)
    requires names != []
    ensures Fits(List(items), |names|, true) <==> exists k: nat :: k > 0 && |items| == k * |names|
    ensures Fits(List(items), |names|, true) ==>
      var k := RunCount(List(items), |names|, true);
      |items| == k * |names| && Concat(WantedRuns(List(items), names, k)) == AllBound(items)
  {
    var n := |names|;
    if k: nat :| k > 0 && |items| == k * n {
      DivisionUnique(n, |items|, k, 0);
    }
    if Fits(List(items), n, true) {
      assert |items| == |items| / n * n;
      assert items[..|items|] == items;
      Consumed(items, names, |items| / n);
    }
  }

  lemma {:induction false} Consumed(items: seq<Arg>, names: seq<Name>, k: nat)
    requires k * |names| <= |items|
    ensures Concat(WantedRuns(List(items), names, k)) == AllBound(items[..k * |names|])
  {
    if k == 0 {
      assert items[..0] == [];
    } else {
      var n := |names|;
      SharesFit(k - 1, k, n);
      Consumed(items, names, k - 1);
      var runs := WantedRuns(List(items), names, k);
      assert runs[..k - 1] == WantedRuns(List(items), names, k - 1);
      assert AllBound(items[..k * n]) == AllBound(items[..(k - 1) * n]) + Wanted(List(items), names, k - 1);
    }
  }

  /** A struct array runs once per element, and binds to every placeholder the field of its name. */
  lemma FieldsByName(elements: seq<map<string, Arg>>, names: seq<Name>, db: Database, i: nat, j: nat)
    requires i < |elements| && j < |names| && Bindable(Fields(elements), names, db, i)
    ensures names[j].Some? && names[j].value[1..] in elements[i]
    ensures Wanted(Fields(elements), names, i)[j] == Some(elements[i][names[j].value[1..]])
    ensures RunCount(Fields(elements), |names|, true) == |elements|
  {
    assert Argument(Fields(elements), names, i, j) == FieldNamed(elements[i], names[j]);
  }

  /**
   * Without wrapping, at most one argument for each placeholder is accepted, and fewer are too. Then
   * there is one run: the arguments come first, NULL is left for the rest.
   */
  lemma RestStaysNull(items: seq<Arg>, names: seq<Name>)
    ensures Fits(List(items), |names|, false) <==> |items| <= |names|
    ensures |items| <= |names| ==>
      && RunCount(List(items), |names|, false) == 1
      && Wanted(List(items), names, 0) == AllBound(items) + seq(|names| - |items|, x => None)
  {}

  /**
   * The elements of a struct array count as one argument for each placeholder: it is accepted, and
   * runs as often, as a list of that many arguments. So without wrapping it has at most one element,
   * and with wrapping at least one.
   */
  lemma StructsCount(elements: seq<map<string, Arg>>, needed: nat, wrapping: bool, items: seq<Arg>)
    requires |items| == needed * |elements|
    ensures Fits(Fields(elements), needed, wrapping) <==> Fits(List(items), needed, wrapping)
    ensures Fits(Fields(elements), needed, wrapping) ==>
      RunCount(Fields(elements), needed, wrapping) == RunCount(List(items), needed, wrapping)
    ensures needed > 0 ==>
      (Fits(Fields(elements), needed, wrapping) <==> if wrapping then elements != [] else |elements| <= 1)
  {
    if needed > 0 {
      WholeElements(needed, |elements|);
      if |elements| > 0 {
        OneElementLess(needed, |elements|);
      }
    }
  }

  /** A statement without placeholders runs once; arguments for it are ignored only with wrapping. */
  lemma NoPlaceholders(src: Source, wrapping: bool)
    ensures Fits(src, 0, wrapping) <==> wrapping || src.Fields? || src.items == []
    ensures RunCount(src, 0, wrapping) == 1
  {}

  /** What can be bound, in terms of the arguments: SQLite numbers the placeholders from 1. */
  lemma BindableMeans(src: Source, names: seq<Name>, db: Database, i: nat)
    ensures src.List? ==>
      (Bindable(src, names, db, i) <==>
       var rest := if i * |names| <= |src.items| then src.items[i * |names|..] else [];
       forall j :: 0 <= j < |names| && j < |rest| ==> db.accepts(j + 1, rest[j]))
    ensures src.Fields? && i < |src.elements| ==>
      (Bindable(src, names, db, i) <==>
       forall j :: 0 <= j < |names| ==>
         && names[j].Some? && names[j].value[1..] in src.elements[i]
         && db.accepts(j + 1, src.elements[i][names[j].value[1..]]))
  {
    if src.List? {
      ListBindable(src, names, db, i);
    } else if i < |src.elements| {
      FieldsBindable(src, names, db, i);
    }
  }

  lemma ListBindable(src: Source, names: seq<Name>, db: Database, i: nat)
    requires src.List?
    ensures var rest := if i * |names| <= |src.items| then src.items[i * |names|..] else [];
      Bindable(src, names, db, i) <==>
      forall j :: 0 <= j < |names| && j < |rest| ==> db.accepts(j + 1, rest[j])
  {
    var rest := if i * |names| <= |src.items| then src.items[i * |names|..] else [];
    forall j | 0 <= j < |names|
      ensures Argument(src, names, i, j) == if j < |rest| then Some(rest[j]) else None
    {}
    if Bindable(src, names, db, i) {
      forall j | 0 <= j < |names| && j < |rest| ensures db.accepts(j + 1, rest[j]) {
        assert Argument(src, names, i, j).Some?;
      }
    }
  }

  lemma FieldsBindable(src: Source, names: seq<Name>, db: Database, i: nat)
    requires src.Fields? && i < |src.elements|
    ensures Bindable(src, names, db, i) <==>
            forall j :: 0 <= j < |names| ==>
              && names[j].Some? && names[j].value[1..] in src.elements[i]
              && db.accepts(j + 1, src.elements[i][names[j].value[1..]])
  {
    if Bindable(src, names, db, i) {
      forall j | 0 <= j < |names|
        ensures names[j].Some? && names[j].value[1..] in src.elements[i]
        ensures db.accepts(j + 1, src.elements[i][names[j].value[1..]])
      {
        assert Argument(src, names, i, j).Some?;
      }
    }
  }

  // ----- Which arguments are opened up ---------------------------------------------------------

  /** Without streaming nothing is refused: a single cell array stands for its elements, a struct for its fields. */
  lemma OpenedUp(args: seq<Arg>, needed: nat, wrapping: bool)
    ensures var o := Options(wrapping, false);
      && !Ambiguous(args, needed, o)
      && (|args| == 1 && args[0].StructArray? ==> SourceOf(args, needed, o) == Fields(args[0].elements))
      && (|args| == 1 && args[0].CellArray? && !(|args[0].items| == 1 && args[0].items[0].StructArray?) ==>
            SourceOf(args, needed, o) == List(args[0].items))
      && (|args| == 1 && args[0].CellArray? && |args[0].items| == 1 && args[0].items[0].StructArray? ==>
            SourceOf(args, needed, o) == Fields(args[0].items[0].elements))
      && (|args| != 1 || args[0].Plain? ==> SourceOf(args, needed, o) == List(args))
  {}

  /**
   * With streaming a single container is the value of the one placeholder. For several placeholders, or
   * with wrapping, it is refused, but for a struct that has both.
   */
  lemma Streamed(args: seq<Arg>, needed: nat, wrapping: bool)
    ensures var o, several := Options(wrapping, true), needed > 1;
      && (|args| != 1 || args[0].Plain? ==> !Ambiguous(args, needed, o) && SourceOf(args, needed, o) == List(args))
      && (|args| == 1 && !args[0].Plain? && !wrapping && !several ==>
            !Ambiguous(args, needed, o) && SourceOf(args, needed, o) == List(args))
      && (|args| == 1 && !args[0].Plain? && wrapping != several ==> Ambiguous(args, needed, o))
      && (|args| == 1 && args[0].CellArray? && wrapping && several ==> Ambiguous(args, needed, o))
      && (|args| == 1 && args[0].StructArray? && wrapping && several ==>
            !Ambiguous(args, needed, o) && SourceOf(args, needed, o) == Fields(args[0].elements))
  {}

  /** The argument is accepted for so many placeholders, and makes so many runs. */
  predicate Accepted(args: seq<Arg>, needed: nat, o: Options, count: nat) {
    && !Ambiguous(args, needed, o)
    && Fits(SourceOf(args, needed, o), needed, o.wrapping)
    && RunCount(SourceOf(args, needed, o), needed, o.wrapping) == count
  }

  predicate TooMany(args: seq<Arg>, needed: nat, o: Options) {
    !Ambiguous(args, needed, o) && !Fits(SourceOf(args, needed, o), needed, o.wrapping)
  }

  /** The table in front of the code: a cell of four and a struct of two elements, for one or two placeholders. */
  lemma ArgumentTable(cells: seq<Arg>, structs: seq<Arg>)
    requires |cells| == |structs| == 1 && cells[0].CellArray? && structs[0].StructArray?
    requires |cells[0].items| == 4 && |structs[0].elements| == 2
    ensures var off, wrap := Options(false, false), Options(true, false);
      && TooMany(cells, 1, off) && Accepted(cells, 1, wrap, 4)
      && TooMany(cells, 2, off) && Accepted(cells, 2, wrap, 2)
      && TooMany(structs, 1, off) && Accepted(structs, 1, wrap, 2)
      && TooMany(structs, 2, off) && Accepted(structs, 2, wrap, 2)
    ensures var stream, both := Options(false, true), Options(true, true);
      && Accepted(cells, 1, stream, 1) && Ambiguous(cells, 1, both)
      && Ambiguous(cells, 2, stream) && Ambiguous(cells, 2, both)
      && Accepted(structs, 1, stream, 1) && Ambiguous(structs, 1, both)
      && Ambiguous(structs, 2, stream) && Accepted(structs, 2, both, 2)
  {}
}
