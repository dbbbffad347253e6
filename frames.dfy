/** The cleaning pass's DataFrame as a value: a header row and rows of cells. */
module Frames {
  import opened Wrappers
  import opened Timestamps
  import opened Selection

  /** A cell: missing (NaN / NaT), text as read from the CSV, or a parsed timestamp. */
  datatype Cell = Missing | Text(s: string) | Stamp(t: Timestamp)

  datatype Table = Table(columns: seq<string>, rows: seq<seq<Cell>>)

  /** The cell at position j of a row; a short row reads as missing there. */
  function CellAt(row: seq<Cell>, j: int): Cell {
    if 0 <= j < |row| then row[j] else Missing
  }

  /** The position of the first column named `name`, if there is one. */
  function Lookup(columns: seq<string>, name: string): (r: Option<nat>)
    ensures r.None? <==> name !in columns
    ensures r.Some? ==> r.value < |columns| && columns[r.value] == name
                        && forall j :: 0 <= j < r.value ==> columns[j] != name
  {
    if columns == [] then None
    else if columns[0] == name then Some(0)
    else
      match Lookup(columns[1..], name)
      case None => None
      case Some(j) => Some(j + 1)
  }

  /** `df[name]` read at row i: the cell under the first column of that name. */
  function Get(t: Table, i: int, name: string): Cell
    requires 0 <= i < |t.rows|
  {
    match Lookup(t.columns, name)
    case None => Missing
    case Some(j) => CellAt(t.rows[i], j)
  }

  /** The rows at the given positions, in that order. */
  function Select(rows: seq<seq<Cell>>, ps: seq<nat>): (r: seq<seq<Cell>>)
    requires forall k :: 0 <= k < |ps| ==> ps[k] < |rows|
    ensures |r| == |ps|
  {
    seq(|ps|, k requires 0 <= k < |ps| => rows[ps[k]])
  }

  /** A frame as pandas builds it: every row has one cell per column. */
  ghost predicate Rectangular(t: Table) {
    forall i :: 0 <= i < |t.rows| ==> |t.rows[i]| == |t.columns|
  }
}
