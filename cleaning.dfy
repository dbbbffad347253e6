/** clean_dataset: the cleaning pass over one raw intake or outcome table. */
module Cleaning {
  import opened Wrappers
  import opened Timestamps
  import opened Strings
  import opened Selection
  import opened Frames

  /** What the pass raises: IndexError when no column name starts with "sex", KeyError when a
      column it needs is absent, and the parser's error for a text it cannot read as a date. */
  datatype CleanError =
    | NoSexColumn
    | MissingColumns(names: set<string>)
    | UnparsableDate(text: string)

  /** The parser behind `pd.to_datetime` on one text: None when it gives up. */
  type Parser = string -> Option<Timestamp>

  // ---------------------------------------------------------------------------------------------
  // Headers.

  /** `df.columns = df.columns.str.lower().str.replace(' ', '-')`. */
  function NormalizeHeaders(t: Table): Table {
    t.(columns := seq(|t.columns|, j requires 0 <= j < |t.columns| => KebabCase(t.columns[j])))
  }

  // ---------------------------------------------------------------------------------------------
  // Missing sex values.

  /** `col[:3].lower() == 'sex'`. */
  predicate IsSexColumn(c: string) {
    Lower(Prefix(c, 3)) == "sex"
  }

  /** `[col for col in df.columns if col[:3].lower() == 'sex'][0]`, None where indexing the empty
      list raises. */
  function FirstSexColumn(columns: seq<string>): (r: Option<nat>)
    ensures r.None? <==> forall j :: 0 <= j < |columns| ==> !IsSexColumn(columns[j])
    ensures r.Some? ==> r.value < |columns| && IsSexColumn(columns[r.value])
                        && forall j :: 0 <= j < r.value ==> !IsSexColumn(columns[j])
  {
    if columns == [] then None
    else if IsSexColumn(columns[0]) then Some(0)
    else
      match FirstSexColumn(columns[1..])
      case None => None
      case Some(j) => Some(j + 1)
  }

  /** One row of `df[name].fillna(v)`: missing cells under columns named `name` become Text(v). */
  function FillRow(columns: seq<string>, row: seq<Cell>, name: string, v: string): seq<Cell> {
    seq(|row|, j requires 0 <= j < |row| =>
      if j < |columns| && columns[j] == name && row[j] == Missing then Text(v) else row[j])
  }

  function FillMissing(t: Table, name: string, v: string): Table {
    t.(rows := seq(|t.rows|, i requires 0 <= i < |t.rows| => FillRow(t.columns, t.rows[i], name, v)))
  }

  /** Lines 31-32: fill the missing values of the first sex column with 'Unknown'. */
  function FillSex(t: Table): Result<Table, CleanError> {
    match FirstSexColumn(t.columns)
    case None => Failure(NoSexColumn)
    case Some(j) => Success(FillMissing(t, t.columns[j], "Unknown"))
  }

  // ---------------------------------------------------------------------------------------------
  // Dates.

  /** `pd.to_datetime(...).dt.normalize()` on one cell: missing stays missing (NaT), a text is
      parsed and truncated to its day. */
  function ConvertCell(c: Cell, parse: Parser): Result<Cell, CleanError> {
    match c
    case Missing => Success(Missing)
    case Stamp(ts) => Success(Stamp(Normalize(ts)))
    case Text(s) =>
      match parse(s)
      case None => Failure(UnparsableDate(s))
      case Some(ts) => Success(Stamp(Normalize(ts)))
  }

  /** Converts the cells of `row` that lie under a column named `name`, left to right. */
  function ConvertCells(columns: seq<string>, row: seq<Cell>, name: string, parse: Parser)
    : (r: Result<seq<Cell>, CleanError>)
    ensures r.Success? ==> |r.value| == |row|
  {
    if row == [] then Success([])
    else
      var c :- if columns != [] && columns[0] == name then ConvertCell(row[0], parse)
               else Success(row[0]);
      var rest :- ConvertCells(if columns == [] then [] else columns[1..], row[1..], name, parse);
      Success([c] + rest)
  }

  /** Converts the column `name` of every row, top to bottom; the first failure is raised. */
  function ConvertRows(columns: seq<string>, rows: seq<seq<Cell>>, name: string, parse: Parser)
    : (r: Result<seq<seq<Cell>>, CleanError>)
    ensures r.Success? ==> |r.value| == |rows|
  {
    if rows == [] then Success([])
    else
      var first :- ConvertCells(columns, rows[0], name, parse);
      var rest :- ConvertRows(columns, rows[1..], name, parse);
      Success([first] + rest)
  }

  /** `df[name] = pd.to_datetime(df[name]).dt.normalize()`: KeyError when the column is absent. */
  function ConvertColumn(t: Table, name: string, parse: Parser): Result<Table, CleanError> {
    if name !in t.columns then Failure(MissingColumns({name}))
    else
      var rows :- ConvertRows(t.columns, t.rows, name, parse);
      Success(t.(rows := rows))
  }

  // ---------------------------------------------------------------------------------------------
  // Dropping a column.

  /** The positions of the columns not named `name`. */
  function KeptColumns(columns: seq<string>, name: string): seq<nat> {
    Positions(|columns|, (j: nat) => j < |columns| && columns[j] != name)
  }

  function Pick<T>(s: seq<T>, ps: seq<nat>, default: T): seq<T> {
    seq(|ps|, k requires 0 <= k < |ps| => if ps[k] < |s| then s[ps[k]] else default)
  }

  /** `df.drop(columns=[name], inplace=True)`: removes every column of that name, KeyError when
      there is none. */
  function DropColumn(t: Table, name: string): Result<Table, CleanError> {
    if name !in t.columns then Failure(MissingColumns({name}))
    else
      var ps := KeptColumns(t.columns, name);
      Success(Table(Pick(t.columns, ps, ""),
                    seq(|t.rows|, i requires 0 <= i < |t.rows| => Pick(t.rows[i], ps, Missing))))
  }

  // ---------------------------------------------------------------------------------------------
  // Duplicates.

  /** The (animal-id, datetime) pair of row i. */
  function RowKey(t: Table, i: int): (Cell, Cell)
    requires 0 <= i < |t.rows|
  {
    (Get(t, i, "animal-id"), Get(t, i, "datetime"))
  }

  /** The keys of the first n rows. */
  function KeysBefore(t: Table, n: nat): set<(Cell, Cell)>
    requires n <= |t.rows|
  {
    if n == 0 then {} else KeysBefore(t, n - 1) + {RowKey(t, n - 1)}
  }

  /** Row i is the first of its key: no earlier row has the same key. */
  predicate FirstOfKey(t: Table, i: nat) {
    i < |t.rows| && RowKey(t, i) !in KeysBefore(t, i)
  }

  /** The positions below n of the rows that are the first of their key. */
  function FirstRows(t: Table, n: nat): seq<nat> {
    Positions(n, (i: nat) => FirstOfKey(t, i))
  }

  /** The key columns that are absent. */
  function AbsentKeyColumns(columns: seq<string>): set<string> {
    (if "animal-id" in columns then {} else {"animal-id"})
    + (if "datetime" in columns then {} else {"datetime"})
  }

  /** `df.drop_duplicates(subset=['animal-id', 'datetime'])`: keeps the first row of each key. */
  function DropDuplicates(t: Table): Result<Table, CleanError> {
    if AbsentKeyColumns(t.columns) != {} then Failure(MissingColumns(AbsentKeyColumns(t.columns)))
    else Success(t.(rows := Select(t.rows, FirstRows(t, |t.rows|))))
  }

  // ---------------------------------------------------------------------------------------------
  // Missing outcome types.

  /** The positions of the rows whose cell under `name` is present. */
  function PresentRows(t: Table, name: string): seq<nat> {
    Positions(|t.rows|, (i: nat) => i < |t.rows| && Get(t, i, name) != Missing)
  }

  /** `df.dropna(subset=[name])`: KeyError when the column is absent. */
  function DropMissing(t: Table, name: string): Result<Table, CleanError> {
    if name !in t.columns then Failure(MissingColumns({name}))
    else Success(t.(rows := Select(t.rows, PresentRows(t, name))))
  }

  // ---------------------------------------------------------------------------------------------
  // The pass.

  predicate IsIntakeFile(path: string) {
    Contains(Lower(path), "intake")
  }

  predicate IsOutcomeFile(path: string) {
    Contains(Lower(path), "outcome")
  }

  /** The steps that follow the drop of duplicates, chosen by the file name: intake files lose
      found-location; other files whose name mentions outcome lose the rows without an
      outcome-type and get their date-of-birth converted. */
  function FileSpecific(path: string, t: Table, parse: Parser): Result<Table, CleanError> {
    if IsIntakeFile(path) then DropColumn(t, "found-location")
    else if IsOutcomeFile(path) then
      var t' :- DropMissing(t, "outcome-type");
      ConvertColumn(t', "date-of-birth", parse)
    else Success(t)
  }

  /** The steps every file goes through, up to the drop of duplicates. */
  function UniversalChanges(raw: Table, parse: Parser): Result<Table, CleanError> {
    var t1 := NormalizeHeaders(raw);
    var t2 :- FillSex(t1);
    var t3 :- ConvertColumn(t2, "datetime", parse);
    var t4 :- DropColumn(t3, "monthyear");
    DropDuplicates(t4)
  }

  /** clean_dataset applied to the table read from `path`: the reference definition. */
  function Clean(path: string, raw: Table, parse: Parser): Result<Table, CleanError> {
    var t :- UniversalChanges(raw, parse);
    FileSpecific(path, t, parse)
  }

  // ---------------------------------------------------------------------------------------------
  // The DataFrame, changed in place step by step.

  /** A step that raises leaves the frame as it was; one that succeeds leaves its result. */
  predicate Applied(r: Result<Table, CleanError>, before: Table, after: Table, err: Option<CleanError>) {
    match r
    case Success(t) => err.None? && after == t
    case Failure(e) => err == Some(e) && after == before
  }

  class DataFrame {
    var columns: seq<string>
    var rows: seq<seq<Cell>>

    function Contents(): Table
      reads this
    {
      Table(columns, rows)
    }

    constructor (t: Table)
      ensures Contents() == t
    {
      columns := t.columns;
      rows := t.rows;
    }

    method RenameColumns()
      modifies this
      ensures Contents() == NormalizeHeaders(old(Contents()))
    {
      var cs := columns;
      columns := seq(|cs|, j requires 0 <= j < |cs| => KebabCase(cs[j]));
    }

    /** Finds the first sex column by a scan over the headers, then fills its missing cells. */
    method FillSexColumn() returns (err: Option<CleanError>)
      modifies this
      ensures Applied(FillSex(old(Contents())), old(Contents()), Contents(), err)
    {
      var j := 0;
      while j < |columns| && !IsSexColumn(columns[j])
        invariant 0 <= j <= |columns|
        invariant forall k :: 0 <= k < j ==> !IsSexColumn(columns[k])
      {
        j := j + 1;
      }
      if j == |columns| {
        return Some(NoSexColumn);
      }
      assert FirstSexColumn(columns) == Some(j);
      var sexColumn := columns[j];
      var cs, rs := columns, rows;
      rows := seq(|rs|, i requires 0 <= i < |rs| => FillRow(cs, rs[i], sexColumn, "Unknown"));
      err := None;
    }

    method ConvertDates(name: string, parse: Parser) returns (err: Option<CleanError>)
      modifies this
      ensures Applied(ConvertColumn(old(Contents()), name, parse), old(Contents()), Contents(), err)
    {
      if name !in columns {
        return Some(MissingColumns({name}));
      }
      var converted := ConvertRows(columns, rows, name, parse);
      if converted.Failure? {
        return Some(converted.error);
      }
      rows := converted.value;
      err := None;
    }

    method Drop(name: string) returns (err: Option<CleanError>)
      modifies this
      ensures Applied(DropColumn(old(Contents()), name), old(Contents()), Contents(), err)
    {
      if name !in columns {
        return Some(MissingColumns({name}));
      }
      var ps := KeptColumns(columns, name);
      var rs := rows;
      rows := seq(|rs|, i requires 0 <= i < |rs| => Pick(rs[i], ps, Missing));
      columns := Pick(columns, ps, "");
      err := None;
    }

    /** Keeps the first row of each (animal-id, datetime) key, remembering the keys seen. */
    method DropDuplicateRows() returns (err: Option<CleanError>)
      modifies this
      ensures Applied(DropDuplicates(old(Contents())), old(Contents()), Contents(), err)
    {
      var absent := AbsentKeyColumns(columns);
      if absent != {} {
        return Some(MissingColumns(absent));
      }
      ghost var t := Contents();
      var idColumn := Lookup(columns, "animal-id").value;
      var dateColumn := Lookup(columns, "datetime").value;
      var seen: set<(Cell, Cell)> := {};
      var kept: seq<seq<Cell>> := [];
      var i := 0;
      while i < |rows|
        invariant 0 <= i <= |rows| && Contents() == t
        invariant seen == KeysBefore(t, i)
        invariant kept == Select(t.rows, FirstRows(t, i))
      {
        var key := (CellAt(rows[i], idColumn), CellAt(rows[i], dateColumn));
        assert key == RowKey(t, i);
        if key !in seen {
          kept := kept + [rows[i]];
        }
        seen := seen + {key};
        i := i + 1;
      }
      rows := kept;
      err := None;
    }

    method DropNa(name: string) returns (err: Option<CleanError>)
      modifies this
      ensures Applied(DropMissing(old(Contents()), name), old(Contents()), Contents(), err)
    {
      if name !in columns {
        return Some(MissingColumns({name}));
      }
      rows := Select(rows, PresentRows(Contents(), name));
      err := None;
    }
  }

  /** clean_dataset on the table read from `path`, one in-place step after another. */
  method CleanDataset(path: string, raw: Table, parse: Parser) returns (r: Result<Table, CleanError>)
    ensures r == Clean(path, raw, parse)
  {
    var df := new DataFrame(raw);
    df.RenameColumns();
    var err := df.FillSexColumn();
    if err.Some? {
      return Failure(err.value);
    }
    err := df.ConvertDates("datetime", parse);
    if err.Some? {
      return Failure(err.value);
    }
    err := df.Drop("monthyear");
    if err.Some? {
      return Failure(err.value);
    }
    err := df.DropDuplicateRows();
    if err.Some? {
      return Failure(err.value);
    }
    if IsIntakeFile(path) {
      err := df.Drop("found-location");
    } else if IsOutcomeFile(path) {
      err := df.DropNa("outcome-type");
      if err.None? {
        err := df.ConvertDates("date-of-birth", parse);
      }
    }
    if err.Some? {
      return Failure(err.value);
    }
    r := Success(df.Contents());
  }
}
