/** create_paired_records: pairs every intake of an animal with the outcome that follows it. */
module Pairing {
  import opened Wrappers
  import opened Timestamps
  import opened Sorting
  import opened Ranking
  import opened Selection

  /** A row of the cleaned intake table (its found-location and monthyear columns are gone). */
  datatype IntakeRow = IntakeRow(
    animalId: int,
    name: string,
    datetime: Timestamp,
    intakeType: string,
    intakeCondition: string,
    animalType: string,
    sexUponIntake: string,
    ageUponIntake: string,
    breed: string,
    color: string)

  /** A row of the cleaned outcome table, restricted to the columns the pairing reads. */
  datatype OutcomeRow = OutcomeRow(
    animalId: int,
    datetime: Timestamp,
    dateOfBirth: Option<Timestamp>,
    outcomeType: Option<string>,
    outcomeSubtype: Option<string>,
    sexUponOutcome: string)

  function IntakeKey(r: IntakeRow): Key { Key(r.animalId, r.datetime) }

  function OutcomeKey(r: OutcomeRow): Key { Key(r.animalId, r.datetime) }

  // ---------------------------------------------------------------------------------------------
  // Sequence: the merged timeline and its record-number column.

  /** A row of unpaired_append: animal-id, datetime, intake-type, outcome-type, and the index label
      the row carries over from its own table (its position there). */
  datatype Event = Event(
    animalId: int,
    datetime: Timestamp,
    intakeType: Option<string>,
    outcomeType: Option<string>,
    index: nat)

  function EventKey(e: Event): Key { Key(e.animalId, e.datetime) }

  function IntakeEvent(r: IntakeRow, index: nat): Event {
    Event(r.animalId, r.datetime, Some(r.intakeType), None, index)
  }

  function OutcomeEvent(r: OutcomeRow, index: nat): Event {
    Event(r.animalId, r.datetime, None, r.outcomeType, index)
  }

  /** The intakes' three columns with the outcomes' three columns appended below them. */
  function Timeline(ins: seq<IntakeRow>, outs: seq<OutcomeRow>): (t: seq<Event>)
    ensures |t| == |ins| + |outs|
    ensures forall i :: 0 <= i < |ins| ==> t[i] == IntakeEvent(ins[i], i)
    ensures forall j :: 0 <= j < |outs| ==> t[|ins| + j] == OutcomeEvent(outs[j], j)
  {
    seq(|ins|, i requires 0 <= i < |ins| => IntakeEvent(ins[i], i))
    + seq(|outs|, j requires 0 <= j < |outs| => OutcomeEvent(outs[j], j))
  }

  /** The record-number of row p of the timeline. */
  function RecordNumber(ins: seq<IntakeRow>, outs: seq<OutcomeRow>, p: int): nat
    requires 0 <= p < |ins| + |outs|
  {
    Rank(Timeline(ins, outs), EventKey, p)
  }

  // ---------------------------------------------------------------------------------------------
  // Filter orphans.

  /** first_outs.index: the labels of the timeline rows that have an outcome-type and
      record-number 1. */
  function OrphanLabels(ins: seq<IntakeRow>, outs: seq<OutcomeRow>): set<nat> {
    var t := Timeline(ins, outs);
    set p | 0 <= p < |t| && t[p].outcomeType.Some? && Rank(t, EventKey, p) == 1 :: t[p].index
  }

  /** The positions below n that are not listed in `drop`, in ascending order. */
  function Kept(n: nat, drop: set<nat>): seq<nat> {
    Positions(n, (k: nat) => k !in drop)
  }

  /** DataFrame.drop(labels) on a table whose index labels are its positions. */
  function DropLabels<T>(s: seq<T>, labels: set<nat>): (r: seq<T>)
  {
    var ks := Kept(|s|, labels);
    seq(|ks|, k requires 0 <= k < |ks| => s[ks[k]])
  }

  /** subsequent_outs. */
  function SubsequentOuts(ins: seq<IntakeRow>, outs: seq<OutcomeRow>): seq<OutcomeRow> {
    DropLabels(outs, OrphanLabels(ins, outs))
  }

  // ---------------------------------------------------------------------------------------------
  // Rank: the two tables sorted and numbered per animal.

  function SortedIns(ins: seq<IntakeRow>): (s: seq<IntakeRow>)
    ensures |s| == |ins|
  {
    StableSort(ins, IntakeKey)
  }

  /** The intake-number of row i of the sorted intake table. */
  function IntakeNumber(ins: seq<IntakeRow>, i: int): nat
    requires 0 <= i < |ins|
  {
    Rank(SortedIns(ins), IntakeKey, i)
  }

  function SortedOuts(ins: seq<IntakeRow>, outs: seq<OutcomeRow>): (s: seq<OutcomeRow>)
    ensures |s| == |SubsequentOuts(ins, outs)|
  {
    StableSort(SubsequentOuts(ins, outs), OutcomeKey)
  }

  /** The outcome-number of row j of the sorted surviving outcomes. */
  function OutcomeNumber(ins: seq<IntakeRow>, outs: seq<OutcomeRow>, j: int): nat
    requires 0 <= j < |SortedOuts(ins, outs)|
  {
    Rank(SortedOuts(ins, outs), OutcomeKey, j)
  }

  // ---------------------------------------------------------------------------------------------
  // Join.

  /** A row of subsequent_outs[outcome_specific_cols], datetime renamed to outcome-date. */
  datatype OutcomeCols = OutcomeCols(
    animalId: int,
    outcomeDate: Timestamp,
    dateOfBirth: Option<Timestamp>,
    outcomeType: Option<string>,
    outcomeSubtype: Option<string>,
    sexUponOutcome: string,
    outcomeNumber: nat)

  /** A row of ins (datetime renamed to intake-date) with its intake-number. */
  datatype RankedIntake = RankedIntake(row: IntakeRow, intakeNumber: nat)

  /** A row of ins_and_outs: the left row and, when the join found one, the right row. */
  datatype JoinedRow = JoinedRow(left: RankedIntake, right: Option<OutcomeCols>)

  function Cols(r: OutcomeRow, outcomeNumber: nat): OutcomeCols {
    OutcomeCols(r.animalId, r.datetime, r.dateOfBirth, r.outcomeType, r.outcomeSubtype,
                r.sexUponOutcome, outcomeNumber)
  }

  /** The right rows whose (animal-id, outcome-number) equals the left key, in right order. */
  function Matches(right: seq<OutcomeCols>, animalId: int, number: nat): seq<OutcomeCols> {
    if right == [] then []
    else
      (if right[0].animalId == animalId && right[0].outcomeNumber == number then [right[0]] else [])
      + Matches(right[1..], animalId, number)
  }

  /** The rows a left merge produces for one left row: one per match, or one with the right side
      empty when nothing matches. */
  function JoinOne(l: RankedIntake, right: seq<OutcomeCols>): (r: seq<JoinedRow>)
    ensures |r| >= 1
  {
    var ms := Matches(right, l.row.animalId, l.intakeNumber);
    if ms == [] then [JoinedRow(l, None)]
    else seq(|ms|, k requires 0 <= k < |ms| => JoinedRow(l, Some(ms[k])))
  }

  /** pd.merge(how='left', left_on=['animal-id', 'intake-number'],
      right_on=['animal-id', 'outcome-number']). */
  function LeftJoin(left: seq<RankedIntake>, right: seq<OutcomeCols>): (r: seq<JoinedRow>)
    ensures |r| >= |left|
  {
    if left == [] then [] else JoinOne(left[0], right) + LeftJoin(left[1..], right)
  }

  /** The left table of the merge: sorted intakes with their intake-number. */
  function LeftTable(ins: seq<IntakeRow>): (l: seq<RankedIntake>)
    ensures |l| == |ins|
  {
    var s := SortedIns(ins);
    seq(|s|, i requires 0 <= i < |s| => RankedIntake(s[i], Rank(s, IntakeKey, i)))
  }

  /** The right table of the merge: sorted survivors with their outcome-number. */
  function RightTable(ins: seq<IntakeRow>, outs: seq<OutcomeRow>): (r: seq<OutcomeCols>)
    ensures |r| == |SortedOuts(ins, outs)|
  {
    var s := SortedOuts(ins, outs);
    seq(|s|, j requires 0 <= j < |s| => Cols(s[j], Rank(s, OutcomeKey, j)))
  }

  function Joined(ins: seq<IntakeRow>, outs: seq<OutcomeRow>): (j: seq<JoinedRow>)
    ensures |j| >= |ins|
  {
    LeftJoin(LeftTable(ins), RightTable(ins, outs))
  }

  // ---------------------------------------------------------------------------------------------
  // Project.

  /** A row of the result, in the published column order. */
  datatype PairedRecord = PairedRecord(
    animalId: int,
    name: string,
    animalType: string,
    breed: string,
    color: string,
    dateOfBirth: Option<Timestamp>,
    intakeDate: Timestamp,
    intakeType: string,
    intakeCondition: string,
    sexUponIntake: string,
    outcomeDate: Option<Timestamp>,
    outcomeType: Option<string>,
    outcomeSubtype: Option<string>,
    sexUponOutcome: Option<string>)

  /** new_order. */
  const OutputColumns: seq<string> := [
    "animal-id", "name", "animal-type", "breed", "color", "date-of-birth", "intake-date",
    "intake-type", "intake-condition", "sex-upon-intake", "outcome-date", "outcome-type",
    "outcome-subtype", "sex-upon-outcome"]

  /** The columns removed at the drop before the projection. */
  const HelperColumns: seq<string> := ["intake-number", "outcome-number", "age-upon-intake"]

  /** A cell of the joined table; Null is pandas' NaN / NaT. */
  datatype Value = Null | Number(n: int) | Stamp(t: Timestamp) | Text(s: string)

  function StampOrNull(t: Option<Timestamp>): Value {
    if t.Some? then Stamp(t.value) else Null
  }

  function TextOrNull(s: Option<string>): Value {
    if s.Some? then Text(s.value) else Null
  }

  /** The cell of column `c` of a joined row, None when the joined table has no such column. */
  function JoinedCell(j: JoinedRow, c: string): Option<Value> {
    var l := j.left.row;
    var r := j.right;
    match c
    case "animal-id" => Some(Number(l.animalId))
    case "name" => Some(Text(l.name))
    case "intake-date" => Some(Stamp(l.datetime))
    case "intake-type" => Some(Text(l.intakeType))
    case "intake-condition" => Some(Text(l.intakeCondition))
    case "animal-type" => Some(Text(l.animalType))
    case "sex-upon-intake" => Some(Text(l.sexUponIntake))
    case "age-upon-intake" => Some(Text(l.ageUponIntake))
    case "breed" => Some(Text(l.breed))
    case "color" => Some(Text(l.color))
    case "intake-number" => Some(Number(j.left.intakeNumber))
    case "outcome-date" => Some(if r.Some? then Stamp(r.value.outcomeDate) else Null)
    case "date-of-birth" => Some(if r.Some? then StampOrNull(r.value.dateOfBirth) else Null)
    case "outcome-type" => Some(if r.Some? then TextOrNull(r.value.outcomeType) else Null)
    case "outcome-subtype" => Some(if r.Some? then TextOrNull(r.value.outcomeSubtype) else Null)
    case "sex-upon-outcome" => Some(if r.Some? then Text(r.value.sexUponOutcome) else Null)
    case "outcome-number" => Some(if r.Some? then Number(r.value.outcomeNumber) else Null)
    case _ => None
  }

  /** The cell of column `c` after the helper columns are dropped. */
  function DroppedCell(j: JoinedRow, c: string): Option<Value> {
    if c in HelperColumns then None else JoinedCell(j, c)
  }

  /** ins_and_outs[new_order] for one row. */
  function Project(j: JoinedRow): PairedRecord {
    var l := j.left.row;
    var r := j.right;
    PairedRecord(
      l.animalId, l.name, l.animalType, l.breed, l.color,
      if r.Some? then r.value.dateOfBirth else None,
      l.datetime, l.intakeType, l.intakeCondition, l.sexUponIntake,
      if r.Some? then Some(r.value.outcomeDate) else None,
      if r.Some? then r.value.outcomeType else None,
      if r.Some? then r.value.outcomeSubtype else None,
      if r.Some? then Some(r.value.sexUponOutcome) else None)
  }

  /** The cells of a result row, in the order of OutputColumns. */
  function Cells(p: PairedRecord): seq<Value> {
    [Number(p.animalId), Text(p.name), Text(p.animalType), Text(p.breed), Text(p.color),
     StampOrNull(p.dateOfBirth), Stamp(p.intakeDate), Text(p.intakeType),
     Text(p.intakeCondition), Text(p.sexUponIntake), StampOrNull(p.outcomeDate),
     TextOrNull(p.outcomeType), TextOrNull(p.outcomeSubtype), TextOrNull(p.sexUponOutcome)]
  }

  /** What create_paired_records returns. */
  function PairedRecords(ins: seq<IntakeRow>, outs: seq<OutcomeRow>): (rs: seq<PairedRecord>)
    ensures |rs| >= |ins|
  {
    var j := Joined(ins, outs);
    seq(|j|, k requires 0 <= k < |j| => Project(j[k]))
  }

  // ---------------------------------------------------------------------------------------------
  // The pipeline, step by step.

  /** create_paired_records on the two cleaned tables. */
  method CreatePairedRecords(ins: seq<IntakeRow>, outs: seq<OutcomeRow>)
    returns (records: seq<PairedRecord>)
    ensures records == PairedRecords(ins, outs)
  {
    var subsequent := RemoveOrphans(ins, outs);
    var left := NumberIntakes(ins);
    var right := NumberOutcomes(subsequent);
    assert right == RightTable(ins, outs);
    // The left merge: each numbered intake with the survivor of the same animal and number.
    var insAndOuts := LeftJoin(left, right);
    records := seq(|insAndOuts|, k requires 0 <= k < |insAndOuts| => Project(insAndOuts[k]));
  }

  /** Numbers every event of an animal along the appended timeline and drops each outcome that is
      its animal's first event and has an outcome type. */
  method RemoveOrphans(ins: seq<IntakeRow>, outs: seq<OutcomeRow>) returns (subsequent: seq<OutcomeRow>)
    ensures subsequent == SubsequentOuts(ins, outs)
  {
    var unpaired := Timeline(ins, outs);
    var recordNumbers := RankFirst(unpaired, EventKey);
    var firstOuts := FirstOutcomeLabels(unpaired, recordNumbers);
    assert firstOuts == OrphanLabels(ins, outs);
    subsequent := Drop(outs, firstOuts);
  }

  /** Sorts the intakes in place and adds their intake-number. */
  method NumberIntakes(ins: seq<IntakeRow>) returns (left: seq<RankedIntake>)
    ensures left == LeftTable(ins)
  {
    var table := new IntakeRow[|ins|](i requires 0 <= i < |ins| => ins[i]);
    assert table[..] == ins;
    SortByKey(table, IntakeKey);
    var sorted := table[..];
    var intakeNumbers := RankFirst(sorted, IntakeKey);
    left := seq(|sorted|, i requires 0 <= i < |sorted| => RankedIntake(sorted[i], intakeNumbers[i]));
  }

  /** Sorts the surviving outcomes in place and adds their outcome-number. */
  method NumberOutcomes(subsequent: seq<OutcomeRow>) returns (right: seq<OutcomeCols>)
    ensures var s := StableSort(subsequent, OutcomeKey);
      && |right| == |s|
      && forall j :: 0 <= j < |s| ==> right[j] == Cols(s[j], Rank(s, OutcomeKey, j))
  {
    var table := new OutcomeRow[|subsequent|](j requires 0 <= j < |subsequent| => subsequent[j]);
    assert table[..] == subsequent;
    SortByKey(table, OutcomeKey);
    var sorted := table[..];
    var outcomeNumbers := RankFirst(sorted, OutcomeKey);
    right := seq(|sorted|, j requires 0 <= j < |sorted| => Cols(sorted[j], outcomeNumbers[j]));
  }

  /** The labels collected into first_outs. */
  method FirstOutcomeLabels(t: seq<Event>, recordNumbers: seq<nat>) returns (labels: set<nat>)
    requires |recordNumbers| == |t|
    requires forall p :: 0 <= p < |t| ==> recordNumbers[p] == Rank(t, EventKey, p)
    ensures labels
         == set p | 0 <= p < |t| && t[p].outcomeType.Some? && Rank(t, EventKey, p) == 1 :: t[p].index
  {
    labels := {};
    var p := 0;
    while p < |t|
      invariant 0 <= p <= |t|
      invariant labels
             == set q | 0 <= q < p && t[q].outcomeType.Some? && Rank(t, EventKey, q) == 1 :: t[q].index
    {
      ghost var before := labels;
      if t[p].outcomeType.Some? && recordNumbers[p] == 1 {
        labels := labels + {t[p].index};
      }
      assert labels
          == set q | 0 <= q < p + 1 && t[q].outcomeType.Some? && Rank(t, EventKey, q) == 1 :: t[q].index;
      p := p + 1;
    }
  }

  /** outs.drop(labels): keeps the rows whose position is not listed, in order. */
  method Drop<T>(s: seq<T>, labels: set<nat>) returns (r: seq<T>)
    ensures r == DropLabels(s, labels)
  {
    r := [];
    var j := 0;
    while j < |s|
      invariant 0 <= j <= |s|
      invariant r == DropLabels(s[..j], labels)
    {
      ghost var ks := Kept(j, labels);
      assert j + 1 <= |s|;
      if j !in labels {
        assert Kept(j + 1, labels) == ks + [j];
        r := r + [s[j]];
      } else {
        assert Kept(j + 1, labels) == ks;
      }
      j := j + 1;
      assert s[..j][..j - 1] == s[..j - 1];
    }
    assert s[..|s|] == s;
  }
}
