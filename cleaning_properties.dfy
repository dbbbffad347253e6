/** What each step of clean_dataset guarantees, and what the whole pass guarantees. */
module CleaningProperties {
  import opened Wrappers
  import opened Timestamps
  import opened Strings
  import opened Selection
  import opened Frames
  import opened Cleaning

  // ---------------------------------------------------------------------------------------------
  // Headers.

  /** A header in lower-kebab-case: no space and no upper-case letter. */
  predicate CleanHeader(h: string) {
    forall i :: 0 <= i < |h| ==> h[i] != ' ' && !IsUpper(h[i])
  }

  /** Every header is rewritten character by character (a space to '-', a capital to its small
      letter) into lower-kebab-case; the rows are untouched. */
  lemma HeadersRewritten(raw: Table)
    ensures var t := NormalizeHeaders(raw);
      && t.rows == raw.rows && |t.columns| == |raw.columns|
      && (forall j :: 0 <= j < |t.columns| ==> CleanHeader(t.columns[j]))
      && forall j :: 0 <= j < |t.columns| ==>
           |t.columns[j]| == |raw.columns[j]|
           && forall i :: 0 <= i < |raw.columns[j]| ==>
                t.columns[j][i] == if raw.columns[j][i] == ' ' then '-' else LowerChar(raw.columns[j][i])
  {
    var t := NormalizeHeaders(raw);
    forall j | 0 <= j < |t.columns|
      ensures CleanHeader(t.columns[j]) && |t.columns[j]| == |raw.columns[j]|
      ensures forall i :: 0 <= i < |raw.columns[j]| ==>
                t.columns[j][i] == if raw.columns[j][i] == ' ' then '-' else LowerChar(raw.columns[j][i])
    {
      KebabCaseChars(raw.columns[j]);
      KebabCaseIsClean(raw.columns[j]);
    }
  }

  /** Rewriting the headers of a frame whose headers were already rewritten changes nothing. */
  lemma HeadersIdempotent(raw: Table)
    ensures NormalizeHeaders(NormalizeHeaders(raw)) == NormalizeHeaders(raw)
  {
    var t := NormalizeHeaders(raw);
    forall j | 0 <= j < |t.columns| ensures KebabCase(t.columns[j]) == t.columns[j] {
      KebabCaseIdempotent(raw.columns[j]);
    }
  }

  // ---------------------------------------------------------------------------------------------
  // Missing sex values.

  /** The step raises exactly when no header starts with "sex" in any case; otherwise, in the
      first such column, every missing value becomes 'Unknown' and every present value stays,
      and no other column changes. */
  lemma FillSexSpec(t: Table)
    ensures FillSex(t).Failure? <==> forall j :: 0 <= j < |t.columns| ==> !IsSexColumn(t.columns[j])
    ensures FillSex(t).Failure? ==> FillSex(t).error == NoSexColumn
    ensures FillSex(t).Success? ==>
      var r, c := FillSex(t).value, t.columns[FirstSexColumn(t.columns).value];
      && IsSexColumn(c) && r.columns == t.columns && |r.rows| == |t.rows|
      && (Rectangular(t) ==> Rectangular(r))
      && (Rectangular(t) ==> forall i :: 0 <= i < |t.rows| ==>
            Get(r, i, c) == if Get(t, i, c) == Missing then Text("Unknown") else Get(t, i, c))
      && forall i, n :: 0 <= i < |t.rows| && n != c ==> Get(r, i, n) == Get(t, i, n)
  {
    if FillSex(t).Success? {
      var r, c := FillSex(t).value, t.columns[FirstSexColumn(t.columns).value];
      if Rectangular(t) {
        forall i | 0 <= i < |t.rows|
          ensures Get(r, i, c) == if Get(t, i, c) == Missing then Text("Unknown") else Get(t, i, c)
        {
          var j := Lookup(t.columns, c).value;
          assert r.rows[i] == FillRow(t.columns, t.rows[i], c, "Unknown");
          assert j < |t.rows[i]|;
        }
      }
      forall i, n | 0 <= i < |t.rows| && n != c ensures Get(r, i, n) == Get(t, i, n) {
        assert r.rows[i] == FillRow(t.columns, t.rows[i], c, "Unknown");
      }
    }
  }

  // ---------------------------------------------------------------------------------------------
  // Dates.

  /** A text cell pd.to_datetime cannot read. */
  predicate Unparsable(c: Cell, parse: Parser) {
    c.Text? && parse(c.s).None?
  }

  /** A cell holding a day: missing, or a timestamp at midnight. */
  predicate IsDay(c: Cell) {
    c == Missing || (c.Stamp? && c.t.sinceMidnight == 0)
  }

  /** Position k of a row lies under a column named `name`. */
  predicate Under(columns: seq<string>, k: int, name: string) {
    0 <= k < |columns| && columns[k] == name
  }

  /** Position k of a row holds a date the conversion of column `name` cannot read. */
  predicate BadCell(columns: seq<string>, row: seq<Cell>, name: string, parse: Parser, k: int) {
    0 <= k < |row| && Under(columns, k, name) && Unparsable(row[k], parse)
  }

  /** One cell converts unless it is unreadable text, to a day that is missing exactly when the
      cell was, and to the parsed day of a text. */
  lemma ConvertCellSpec(c: Cell, parse: Parser)
    ensures ConvertCell(c, parse).Failure? <==> Unparsable(c, parse)
    ensures ConvertCell(c, parse).Failure? ==> ConvertCell(c, parse).error == UnparsableDate(c.s)
    ensures ConvertCell(c, parse).Success? ==>
      var d := ConvertCell(c, parse).value;
      && IsDay(d) && (d == Missing <==> c == Missing)
      && (c.Text? ==> d == Stamp(Normalize(parse(c.s).value)))
      && (c.Stamp? ==> d == Stamp(Normalize(c.t)))
  {
  }

  /** Converting one row fails exactly when a cell under the column is unreadable, and then
      names that cell's text; otherwise it converts every cell under the column and keeps the
      rest. */
  lemma {:induction false} ConvertCellsSpec(columns: seq<string>, row: seq<Cell>, name: string, parse: Parser)
    decreases |row|
    ensures var r := ConvertCells(columns, row, name, parse);
      && (r.Failure? <==> exists k :: BadCell(columns, row, name, parse, k))
      && (r.Failure? ==> exists k :: BadCell(columns, row, name, parse, k) && r.error == UnparsableDate(row[k].s))
      && (r.Success? ==> forall k :: 0 <= k < |row| ==>
            if Under(columns, k, name) then ConvertCell(row[k], parse) == Success(r.value[k])
            else r.value[k] == row[k])
  {
    if row != [] {
      var cs := if columns == [] then [] else columns[1..];
      var tail := row[1..];
      ConvertCellsSpec(cs, tail, name, parse);
      var head := if columns != [] && columns[0] == name then ConvertCell(row[0], parse) else Success(row[0]);
      assert forall k :: 1 <= k < |row| ==> (Under(columns, k, name) <==> Under(cs, k - 1, name));
      assert forall k :: 1 <= k < |row| ==> (BadCell(columns, row, name, parse, k) <==> BadCell(cs, tail, name, parse, k - 1));
      assert head.Failure? <==> BadCell(columns, row, name, parse, 0);
      if exists k :: BadCell(cs, tail, name, parse, k) {
        var k :| BadCell(cs, tail, name, parse, k);
        assert BadCell(columns, row, name, parse, k + 1);
      }
      var r := ConvertCells(columns, row, name, parse);
      if head.Success? && ConvertCells(cs, tail, name, parse).Success? {
        var rest := ConvertCells(cs, tail, name, parse).value;
        assert r == Success([head.value] + rest);
        forall k | 0 <= k < |row|
          ensures if Under(columns, k, name) then ConvertCell(row[k], parse) == Success(r.value[k])
                  else r.value[k] == row[k]
        {
          if k > 0 {
            assert r.value[k] == rest[k - 1];
          }
        }
      }
    }
  }

  /** Converting every row fails exactly when some row holds an unreadable cell under the column,
      and then names the text of such a cell; otherwise each row is converted cell by cell. */
  lemma {:induction false} ConvertRowsSpec(columns: seq<string>, rows: seq<seq<Cell>>, name: string, parse: Parser)
    decreases |rows|
    ensures var r := ConvertRows(columns, rows, name, parse);
      && (r.Failure? <==> exists i, k :: 0 <= i < |rows| && BadCell(columns, rows[i], name, parse, k))
      && (r.Failure? ==> exists i, k :: 0 <= i < |rows| && BadCell(columns, rows[i], name, parse, k)
                                         && r.error == UnparsableDate(rows[i][k].s))
      && (r.Success? ==> forall i :: 0 <= i < |rows| ==>
            && |r.value[i]| == |rows[i]|
            && forall k :: 0 <= k < |rows[i]| ==>
                 if Under(columns, k, name) then ConvertCell(rows[i][k], parse) == Success(r.value[i][k])
                 else r.value[i][k] == rows[i][k])
  {
    if rows != [] {
      ConvertCellsSpec(columns, rows[0], name, parse);
      ConvertRowsSpec(columns, rows[1..], name, parse);
      var tail := rows[1..];
      if exists i, k :: 0 <= i < |tail| && BadCell(columns, tail[i], name, parse, k) {
        var i, k :| 0 <= i < |tail| && BadCell(columns, tail[i], name, parse, k);
        assert BadCell(columns, rows[i + 1], name, parse, k);
      }
      if exists i, k :: 0 <= i < |rows| && BadCell(columns, rows[i], name, parse, k) {
        var i, k :| 0 <= i < |rows| && BadCell(columns, rows[i], name, parse, k);
        if i > 0 {
          assert BadCell(columns, tail[i - 1], name, parse, k);
        }
      }
      var r := ConvertRows(columns, rows, name, parse);
      var first := ConvertCells(columns, rows[0], name, parse);
      var rest := ConvertRows(columns, tail, name, parse);
      if first.Failure? {
        var k :| BadCell(columns, rows[0], name, parse, k) && first.error == UnparsableDate(rows[0][k].s);
        assert r.error == UnparsableDate(rows[0][k].s);
      } else if rest.Failure? {
        var i, k :| 0 <= i < |tail| && BadCell(columns, tail[i], name, parse, k)
                    && rest.error == UnparsableDate(tail[i][k].s);
        assert BadCell(columns, rows[i + 1], name, parse, k) && r.error == UnparsableDate(rows[i + 1][k].s);
      } else {
        assert r.value == [first.value] + rest.value;
        forall i | 0 <= i < |rows|
          ensures |r.value[i]| == |rows[i]|
          ensures forall k :: 0 <= k < |rows[i]| ==>
                    if Under(columns, k, name) then ConvertCell(rows[i][k], parse) == Success(r.value[i][k])
                    else r.value[i][k] == rows[i][k]
        {
          if i > 0 {
            assert r.value[i] == rest.value[i - 1] && rows[i] == tail[i - 1];
          }
        }
      }
    }
  }

  /** Converting a column raises KeyError when it is absent, and otherwise fails exactly when a
      cell under it is unreadable. On success the column holds days: missing where it was
      missing, the parsed day of each text; the other columns keep their values. */
  lemma ConvertColumnSpec(t: Table, name: string, parse: Parser)
    ensures ConvertColumn(t, name, parse).Failure? <==>
      name !in t.columns || exists i, k :: 0 <= i < |t.rows| && BadCell(t.columns, t.rows[i], name, parse, k)
    ensures name !in t.columns ==> ConvertColumn(t, name, parse) == Failure(MissingColumns({name}))
    ensures ConvertColumn(t, name, parse).Success? ==>
      var r := ConvertColumn(t, name, parse).value;
      && r.columns == t.columns && |r.rows| == |t.rows| && (Rectangular(t) ==> Rectangular(r))
      && (forall i :: 0 <= i < |t.rows| ==>
            && ConvertCell(Get(t, i, name), parse) == Success(Get(r, i, name))
            && IsDay(Get(r, i, name))
            && (Get(r, i, name) == Missing <==> Get(t, i, name) == Missing)
            && (Get(t, i, name).Text? ==>
                  parse(Get(t, i, name).s).Some?
                  && Get(r, i, name) == Stamp(Normalize(parse(Get(t, i, name).s).value))))
      && forall i, n :: 0 <= i < |t.rows| && n != name ==> Get(r, i, n) == Get(t, i, n)
  {
    if name in t.columns {
      ConvertRowsSpec(t.columns, t.rows, name, parse);
      var c := ConvertRows(t.columns, t.rows, name, parse);
      if c.Success? {
        var r := ConvertColumn(t, name, parse).value;
        assert r.rows == c.value;
        forall i | 0 <= i < |t.rows|
          ensures ConvertCell(Get(t, i, name), parse) == Success(Get(r, i, name))
          ensures IsDay(Get(r, i, name))
          ensures Get(r, i, name) == Missing <==> Get(t, i, name) == Missing
          ensures Get(t, i, name).Text? ==>
                    parse(Get(t, i, name).s).Some?
                    && Get(r, i, name) == Stamp(Normalize(parse(Get(t, i, name).s).value))
        {
          var j := Lookup(t.columns, name).value;
          assert Under(t.columns, j, name);
          if j < |t.rows[i]| {
            ConvertCellSpec(t.rows[i][j], parse);
          }
        }
        forall i, n | 0 <= i < |t.rows| && n != name ensures Get(r, i, n) == Get(t, i, n) {
          if Lookup(t.columns, n).Some? {
            assert !Under(t.columns, Lookup(t.columns, n).value, name);
          }
        }
      }
    }
  }

  // ---------------------------------------------------------------------------------------------
  // Dropping a column.

  /** After the drop, the k-th remaining column is the column a name other than `name` was first
      found at before, so reading that name finds the same cells. */
  lemma KeptLookup(columns: seq<string>, name: string, n: string)
    requires n != name
    ensures var ps := KeptColumns(columns, name);
      match Lookup(Pick(columns, ps, ""), n)
      case None => Lookup(columns, n).None?
      case Some(k) => k < |ps| && Lookup(columns, n) == Some(ps[k])
  {
    var keep := (j: nat) => j < |columns| && columns[j] != name;
    var ps := KeptColumns(columns, name);
    PositionsSpec(|columns|, keep);
    var p := Pick(columns, ps, "");
    assert forall k :: 0 <= k < |ps| ==> p[k] == columns[ps[k]];
    if Lookup(columns, n).Some? {
      var j := Lookup(columns, n).value;
      assert keep(j);
      var k :| 0 <= k < |ps| && ps[k] == j;
      assert p[k] == n;
      var m := Lookup(p, n).value;
      assert m <= k;
      assert ps[m] <= ps[k];
      assert columns[ps[m]] == n;
      assert m == k;
    } else {
      assert n !in p;
    }
  }

  /** Dropping a column raises KeyError exactly when it is absent; otherwise the name is gone,
      every other name is still there, and reading any other name gives the same cells. */
  lemma DropColumnSpec(t: Table, name: string)
    ensures DropColumn(t, name).Failure? <==> name !in t.columns
    ensures DropColumn(t, name).Failure? ==> DropColumn(t, name).error == MissingColumns({name})
    ensures DropColumn(t, name).Success? ==>
      var r := DropColumn(t, name).value;
      && name !in r.columns && |r.rows| == |t.rows| && (Rectangular(t) ==> Rectangular(r))
      && (forall n :: n != name ==> (n in r.columns <==> n in t.columns))
      && forall i, n :: 0 <= i < |t.rows| && n != name ==> Get(r, i, n) == Get(t, i, n)
  {
    if name in t.columns {
      var r := DropColumn(t, name).value;
      var keep := (j: nat) => j < |t.columns| && t.columns[j] != name;
      var ps := KeptColumns(t.columns, name);
      PositionsSpec(|t.columns|, keep);
      assert r.columns == Pick(t.columns, ps, "");
      assert forall k :: 0 <= k < |ps| ==> r.columns[k] == t.columns[ps[k]];
      forall n | n != name ensures n in r.columns <==> n in t.columns {
        KeptLookup(t.columns, name, n);
      }
      forall i, n | 0 <= i < |t.rows| && n != name ensures Get(r, i, n) == Get(t, i, n) {
        KeptLookup(t.columns, name, n);
        assert r.rows[i] == Pick(t.rows[i], ps, Missing);
      }
    }
  }

  // ---------------------------------------------------------------------------------------------
  // Duplicates.

  /** No two rows share an (animal-id, datetime) key. */
  predicate UniqueRowKeys(t: Table) {
    forall k, l :: 0 <= k < l < |t.rows| ==> RowKey(t, k) != RowKey(t, l)
  }

  /** The keys seen before row n are the keys of rows 0 .. n-1. */
  lemma {:induction false} KeysBeforeSpec(t: Table, n: nat, key: (Cell, Cell))
    requires n <= |t.rows|
    ensures key in KeysBefore(t, n) <==> exists i :: 0 <= i < n && RowKey(t, i) == key
  {
    if n > 0 {
      KeysBeforeSpec(t, n - 1, key);
    }
  }

  /** Every row has a first row with its key, at or before it. */
  lemma {:induction false} FirstOccurrence(t: Table, i: nat) returns (i0: nat)
    requires i < |t.rows|
    decreases i
    ensures i0 <= i && FirstOfKey(t, i0) && RowKey(t, i0) == RowKey(t, i)
  {
    if FirstOfKey(t, i) {
      return i;
    }
    KeysBeforeSpec(t, i, RowKey(t, i));
    var i' :| 0 <= i' < i && RowKey(t, i') == RowKey(t, i);
    i0 := FirstOccurrence(t, i');
  }

  /** Reading a frame cut down to some of its rows reads the original at those rows. */
  lemma SelectGet(t: Table, ps: seq<nat>)
    requires forall k :: 0 <= k < |ps| ==> ps[k] < |t.rows|
    ensures forall k, n :: 0 <= k < |ps| ==> Get(t.(rows := Select(t.rows, ps)), k, n) == Get(t, ps[k], n)
    ensures forall k :: 0 <= k < |ps| ==> RowKey(t.(rows := Select(t.rows, ps)), k) == RowKey(t, ps[k])
  {
  }

  /** drop_duplicates keeps, in order, exactly the rows no earlier row shares a key with. */
  lemma DedupKeepsFirsts(t: Table)
    requires DropDuplicates(t).Success?
    ensures var r, ps := DropDuplicates(t).value, FirstRows(t, |t.rows|);
      && r.columns == t.columns && |r.rows| == |ps| <= |t.rows| && (Rectangular(t) ==> Rectangular(r))
      && Increasing(ps) && (forall k :: 0 <= k < |ps| ==> ps[k] < |t.rows| && r.rows[k] == t.rows[ps[k]])
      && forall i :: 0 <= i < |t.rows| ==>
           (i in ps <==> forall i' :: 0 <= i' < i ==> RowKey(t, i') != RowKey(t, i))
  {
    var ps := FirstRows(t, |t.rows|);
    var keep := (i: nat) => FirstOfKey(t, i);
    PositionsSpec(|t.rows|, keep);
    PositionsLength(|t.rows|, keep);
    forall i | 0 <= i < |t.rows|
      ensures i in ps <==> forall i' :: 0 <= i' < i ==> RowKey(t, i') != RowKey(t, i)
    {
      KeysBeforeSpec(t, i, RowKey(t, i));
    }
  }

  /** After drop_duplicates no two rows share a key. */
  lemma DedupUnique(t: Table)
    requires DropDuplicates(t).Success?
    ensures UniqueRowKeys(DropDuplicates(t).value)
  {
    var r, ps := DropDuplicates(t).value, FirstRows(t, |t.rows|);
    var keep := (i: nat) => FirstOfKey(t, i);
    PositionsSpec(|t.rows|, keep);
    SelectGet(t, ps);
    forall k, l | 0 <= k < l < |r.rows| ensures RowKey(r, k) != RowKey(r, l) {
      assert keep(ps[l]);
      KeysBeforeSpec(t, ps[l], RowKey(t, ps[l]));
    }
  }

  /** drop_duplicates loses no key: every key of the input is the key of a row it keeps. */
  lemma DedupCovers(t: Table)
    requires DropDuplicates(t).Success?
    ensures var r := DropDuplicates(t).value;
      forall i :: 0 <= i < |t.rows| ==> exists k :: 0 <= k < |r.rows| && RowKey(r, k) == RowKey(t, i)
  {
    var r, ps := DropDuplicates(t).value, FirstRows(t, |t.rows|);
    var keep := (i: nat) => FirstOfKey(t, i);
    PositionsSpec(|t.rows|, keep);
    SelectGet(t, ps);
    forall i | 0 <= i < |t.rows| ensures exists k :: 0 <= k < |r.rows| && RowKey(r, k) == RowKey(t, i) {
      var i0 := FirstOccurrence(t, i);
      assert i0 in ps;
      var k :| 0 <= k < |ps| && ps[k] == i0;
      assert RowKey(r, k) == RowKey(t, i);
    }
  }

  /** drop_duplicates raises KeyError naming each absent key column, and otherwise succeeds. */
  lemma DedupFails(t: Table)
    ensures DropDuplicates(t).Failure? <==> "animal-id" !in t.columns || "datetime" !in t.columns
    ensures DropDuplicates(t).Failure? ==>
      && DropDuplicates(t).error.MissingColumns?
      && forall c :: c in DropDuplicates(t).error.names <==> c in {"animal-id", "datetime"} && c !in t.columns
  {
  }

  // ---------------------------------------------------------------------------------------------
  // Missing outcome types.

  /** dropna raises KeyError when the column is absent; otherwise it keeps, in order, exactly the
      rows with a value in it. */
  lemma DropMissingSpec(t: Table, name: string)
    ensures DropMissing(t, name).Failure? <==> name !in t.columns
    ensures DropMissing(t, name).Failure? ==> DropMissing(t, name).error == MissingColumns({name})
    ensures DropMissing(t, name).Success? ==>
      var r, ps := DropMissing(t, name).value, PresentRows(t, name);
      && r.columns == t.columns && |r.rows| == |ps| <= |t.rows| && (Rectangular(t) ==> Rectangular(r))
      && Increasing(ps) && (forall k :: 0 <= k < |ps| ==> ps[k] < |t.rows| && r.rows[k] == t.rows[ps[k]])
      && (forall i :: 0 <= i < |t.rows| ==> (i in ps <==> Get(t, i, name) != Missing))
      && forall k :: 0 <= k < |r.rows| ==> Get(r, k, name) != Missing
  {
    if name in t.columns {
      var keep := (i: nat) => i < |t.rows| && Get(t, i, name) != Missing;
      var ps := PresentRows(t, name);
      PositionsSpec(|t.rows|, keep);
      PositionsLength(|t.rows|, keep);
      SelectGet(t, ps);
    }
  }

  /** Duplicates go before missing outcome types: when the first row of a key has no outcome type,
      the key disappears although a later row with an outcome type shared it. */
  lemma DuplicateBeforeMissing(t: Table, name: string, i: nat)
    requires DropDuplicates(t).Success? && DropMissing(DropDuplicates(t).value, name).Success?
    requires i < |t.rows| && FirstOfKey(t, i) && Get(t, i, name) == Missing
    ensures var r := DropMissing(DropDuplicates(t).value, name).value;
      forall k :: 0 <= k < |r.rows| ==> RowKey(r, k) != RowKey(t, i)
  {
    var d := DropDuplicates(t).value;
    var r := DropMissing(d, name).value;
    DedupUnique(t);
    DropMissingSpec(d, name);
    var ps, qs := FirstRows(t, |t.rows|), PresentRows(d, name);
    SelectGet(t, ps);
    SelectGet(d, qs);
    var keep := (j: nat) => FirstOfKey(t, j);
    PositionsSpec(|t.rows|, keep);
    assert keep(i);
    assert i in ps;
    var m :| 0 <= m < |ps| && ps[m] == i;
    assert Get(d, m, name) == Missing;
    forall k | 0 <= k < |r.rows| ensures RowKey(r, k) != RowKey(t, i) {
      assert RowKey(r, k) == RowKey(d, qs[k]);
      assert Get(d, qs[k], name) != Missing;
      assert qs[k] != m;
      assert RowKey(d, qs[k]) != RowKey(d, m);
    }
  }

  // ---------------------------------------------------------------------------------------------
  // The whole pass.

  ghost predicate CleanHeaders(columns: seq<string>) {
    forall h :: h in columns ==> CleanHeader(h)
  }

  /** Every cell under `name` holds a day. */
  predicate DaysIn(t: Table, name: string) {
    forall i :: 0 <= i < |t.rows| ==> IsDay(Get(t, i, name))
  }

  /** No cell under `name` is missing. */
  predicate Filled(t: Table, name: string) {
    forall i :: 0 <= i < |t.rows| ==> Get(t, i, name) != Missing
  }

  /** What the universal changes leave behind: lower-kebab-case headers, no monthyear column,
      unique (animal-id, datetime) keys, datetime holding days, and the sex column c. */
  ghost predicate AfterUniversal(t: Table, c: string) {
    && CleanHeaders(t.columns) && "monthyear" !in t.columns && UniqueRowKeys(t)
    && DaysIn(t, "datetime") && c in t.columns && IsSexColumn(c)
  }

  /** None of the columns the pass converts or drops is a sex column. */
  lemma NotSexHeaders()
    ensures !IsSexColumn("datetime") && !IsSexColumn("monthyear") && !IsSexColumn("found-location")
    ensures !IsSexColumn("outcome-type") && !IsSexColumn("date-of-birth")
  {
    assert Lower(Prefix("datetime", 3)) == "dat";
    assert Lower(Prefix("monthyear", 3)) == "mon";
    assert Lower(Prefix("found-location", 3)) == "fou";
    assert Lower(Prefix("outcome-type", 3)) == "out";
    assert Lower(Prefix("date-of-birth", 3)) == "dat";
  }

  /** The names the pass drops or converts after the drop of duplicates are not key columns. */
  lemma NotKeyHeaders()
    ensures "found-location" !in {"animal-id", "datetime"}
    ensures "date-of-birth" !in {"animal-id", "datetime"}
  {
    assert "found-location"[0] != "animal-id"[0] && "found-location"[0] != "datetime"[0];
    assert "date-of-birth"[4] != "animal-id"[4] && "date-of-birth"[4] != "datetime"[4];
  }

  /** t and r have the same rows and agree on every name but `name`. */
  ghost predicate SameElsewhere(t: Table, r: Table, name: string) {
    |r.rows| == |t.rows| && forall i, n :: 0 <= i < |t.rows| && n != name ==> Get(r, i, n) == Get(t, i, n)
  }

  /** A step that changes only the column `name` keeps what holds of the other columns. */
  lemma ElsewhereKeeps(t: Table, r: Table, name: string, n: string)
    requires SameElsewhere(t, r, name)
    ensures n != name && Filled(t, n) ==> Filled(r, n)
    ensures n != name && DaysIn(t, n) ==> DaysIn(r, n)
    ensures name !in {"animal-id", "datetime"} && UniqueRowKeys(t) ==> UniqueRowKeys(r)
  {
    if name !in {"animal-id", "datetime"} {
      assert forall i :: 0 <= i < |t.rows| ==> RowKey(r, i) == RowKey(t, i);
    }
  }

  /** A frame cut down to increasing row positions keeps unique keys and full columns. */
  lemma SelectKeeps(t: Table, ps: seq<nat>, name: string)
    requires forall k :: 0 <= k < |ps| ==> ps[k] < |t.rows|
    requires Increasing(ps)
    ensures var r := t.(rows := Select(t.rows, ps));
      && (UniqueRowKeys(t) ==> UniqueRowKeys(r))
      && (DaysIn(t, name) ==> DaysIn(r, name))
      && (Filled(t, name) ==> Filled(r, name))
  {
    SelectGet(t, ps);
  }

  /** Headers rewritten and the sex column filled: c is the sex column. */
  lemma SexStep(raw: Table) returns (c: string)
    requires FillSex(NormalizeHeaders(raw)).Success?
    ensures var t := FillSex(NormalizeHeaders(raw)).value;
      && CleanHeaders(t.columns) && c in t.columns && IsSexColumn(c) && |t.rows| == |raw.rows|
      && (Rectangular(raw) ==> Rectangular(t) && Filled(t, c))
  {
    var t1 := NormalizeHeaders(raw);
    HeadersRewritten(raw);
    FillSexSpec(t1);
    c := t1.columns[FirstSexColumn(t1.columns).value];
    assert CleanHeaders(t1.columns);
  }

  /** Converting datetime and dropping monthyear keep the sex column and leave days in datetime. */
  lemma DateStep(t2: Table, parse: Parser, c: string)
    requires CleanHeaders(t2.columns) && c in t2.columns && IsSexColumn(c)
    requires ConvertColumn(t2, "datetime", parse).Success?
    requires DropColumn(ConvertColumn(t2, "datetime", parse).value, "monthyear").Success?
    ensures var t4 := DropColumn(ConvertColumn(t2, "datetime", parse).value, "monthyear").value;
      && CleanHeaders(t4.columns) && "monthyear" !in t4.columns && c in t4.columns
      && DaysIn(t4, "datetime") && |t4.rows| == |t2.rows|
      && (Rectangular(t2) && Filled(t2, c) ==> Rectangular(t4) && Filled(t4, c))
  {
    NotSexHeaders();
    ConvertColumnSpec(t2, "datetime", parse);
    var t3 := ConvertColumn(t2, "datetime", parse).value;
    assert SameElsewhere(t2, t3, "datetime");
    ElsewhereKeeps(t2, t3, "datetime", c);
    DropColumnSpec(t3, "monthyear");
    var t4 := DropColumn(t3, "monthyear").value;
    assert SameElsewhere(t3, t4, "monthyear");
    ElsewhereKeeps(t3, t4, "monthyear", c);
    ElsewhereKeeps(t3, t4, "monthyear", "datetime");
  }

  /** Dropping duplicates makes the keys unique and keeps the rest. */
  lemma DedupStep(t4: Table, c: string)
    requires DropDuplicates(t4).Success?
    requires CleanHeaders(t4.columns) && "monthyear" !in t4.columns && c in t4.columns && IsSexColumn(c)
    requires DaysIn(t4, "datetime")
    ensures var t5 := DropDuplicates(t4).value;
      && AfterUniversal(t5, c) && |t5.rows| <= |t4.rows|
      && (Rectangular(t4) && Filled(t4, c) ==> Rectangular(t5) && Filled(t5, c))
  {
    DedupKeepsFirsts(t4);
    DedupUnique(t4);
    var ps := FirstRows(t4, |t4.rows|);
    SelectKeeps(t4, ps, "datetime");
    SelectKeeps(t4, ps, c);
  }

  /** After the universal changes. */
  lemma UniversalGuarantees(raw: Table, parse: Parser) returns (c: string)
    requires UniversalChanges(raw, parse).Success?
    ensures var t := UniversalChanges(raw, parse).value;
      && AfterUniversal(t, c) && |t.rows| <= |raw.rows|
      && (Rectangular(raw) ==> Rectangular(t) && Filled(t, c))
  {
    var t1 := NormalizeHeaders(raw);
    c := SexStep(raw);
    var t2 := FillSex(t1).value;
    DateStep(t2, parse, c);
    var t4 := DropColumn(ConvertColumn(t2, "datetime", parse).value, "monthyear").value;
    DedupStep(t4, c);
  }

  /** An intake file loses found-location and keeps the rest. */
  lemma IntakeStep(t: Table, c: string)
    requires DropColumn(t, "found-location").Success? && AfterUniversal(t, c)
    ensures var r := DropColumn(t, "found-location").value;
      && AfterUniversal(r, c) && |r.rows| == |t.rows| && "found-location" !in r.columns
      && (Rectangular(t) && Filled(t, c) ==> Rectangular(r) && Filled(r, c))
  {
    NotSexHeaders();
    NotKeyHeaders();
    DropColumnSpec(t, "found-location");
    var r := DropColumn(t, "found-location").value;
    assert SameElsewhere(t, r, "found-location");
    ElsewhereKeeps(t, r, "found-location", c);
    ElsewhereKeeps(t, r, "found-location", "datetime");
  }

  /** An outcome file loses the rows without an outcome type and gets days in date-of-birth. */
  lemma OutcomeStep(t: Table, parse: Parser, c: string)
    requires DropMissing(t, "outcome-type").Success? && AfterUniversal(t, c)
    requires ConvertColumn(DropMissing(t, "outcome-type").value, "date-of-birth", parse).Success?
    ensures var r := ConvertColumn(DropMissing(t, "outcome-type").value, "date-of-birth", parse).value;
      && AfterUniversal(r, c) && |r.rows| <= |t.rows|
      && Filled(r, "outcome-type") && DaysIn(r, "date-of-birth")
      && (Rectangular(t) && Filled(t, c) ==> Rectangular(r) && Filled(r, c))
  {
    NotSexHeaders();
    NotKeyHeaders();
    DropMissingSpec(t, "outcome-type");
    var d := DropMissing(t, "outcome-type").value;
    var ps := PresentRows(t, "outcome-type");
    assert d == t.(rows := Select(t.rows, ps));
    SelectKeeps(t, ps, "datetime");
    SelectKeeps(t, ps, c);
    ConvertColumnSpec(d, "date-of-birth", parse);
    var r := ConvertColumn(d, "date-of-birth", parse).value;
    assert SameElsewhere(d, r, "date-of-birth");
    ElsewhereKeeps(d, r, "date-of-birth", c);
    ElsewhereKeeps(d, r, "date-of-birth", "datetime");
    ElsewhereKeeps(d, r, "date-of-birth", "outcome-type");
  }

  /** After the steps that depend on the file name: an intake file has lost found-location, an
      outcome file has an outcome type in every row and days in date-of-birth, and any other
      file is left as it was; what the universal changes established still holds. */
  lemma FileSpecificGuarantees(path: string, t: Table, parse: Parser, c: string)
    requires FileSpecific(path, t, parse).Success? && AfterUniversal(t, c)
    ensures var r := FileSpecific(path, t, parse).value;
      && AfterUniversal(r, c) && |r.rows| <= |t.rows|
      && (Rectangular(t) && Filled(t, c) ==> Rectangular(r) && Filled(r, c))
      && (IsIntakeFile(path) ==> "found-location" !in r.columns)
      && (!IsIntakeFile(path) && IsOutcomeFile(path) ==> Filled(r, "outcome-type") && DaysIn(r, "date-of-birth"))
      && (!IsIntakeFile(path) && !IsOutcomeFile(path) ==> r == t)
  {
    if IsIntakeFile(path) {
      IntakeStep(t, c);
    } else if IsOutcomeFile(path) {
      OutcomeStep(t, parse, c);
    }
  }

  /** What a successful clean_dataset guarantees about the frame it returns. */
  lemma CleanGuarantees(path: string, raw: Table, parse: Parser)
    requires Clean(path, raw, parse).Success?
    ensures var r := Clean(path, raw, parse).value;
      && |r.rows| <= |raw.rows|
      && CleanHeaders(r.columns) && "monthyear" !in r.columns
      && UniqueRowKeys(r) && DaysIn(r, "datetime")
      && (exists c :: c in r.columns && IsSexColumn(c) && (Rectangular(raw) ==> Filled(r, c)))
      && (Rectangular(raw) ==> Rectangular(r))
      && (IsIntakeFile(path) ==> "found-location" !in r.columns)
      && (!IsIntakeFile(path) && IsOutcomeFile(path) ==> Filled(r, "outcome-type") && DaysIn(r, "date-of-birth"))
  {
    var c := UniversalGuarantees(raw, parse);
    var t := UniversalChanges(raw, parse).value;
    FileSpecificGuarantees(path, t, parse, c);
  }

  // ---------------------------------------------------------------------------------------------
  // Where the rows of the result come from.

  /** The positions 0 .. n-1: the rows of a step that keeps every row. */
  function AllRows(n: nat): (ps: seq<nat>)
    ensures |ps| == n && forall k :: 0 <= k < n ==> ps[k] == k
  {
    seq(n, k requires 0 <= k < n => k)
  }

  /** Rows qs of a frame whose rows are the rows ps of an earlier frame are these rows of it. */
  function Compose(ps: seq<nat>, qs: seq<nat>): seq<nat>
    requires forall k :: 0 <= k < |qs| ==> qs[k] < |ps|
  {
    seq(|qs|, k requires 0 <= k < |qs| => ps[qs[k]])
  }

  /** Row k of r is row ps[k] of t, the positions ascend, and every name outside `changed` reads
      the same cell in both. */
  ghost predicate RowsFrom(t: Table, r: Table, ps: seq<nat>, changed: set<string>) {
    && |ps| == |r.rows| && Increasing(ps) && (forall k :: 0 <= k < |ps| ==> ps[k] < |t.rows|)
    && forall k, n :: 0 <= k < |ps| && n !in changed ==> Get(r, k, n) == Get(t, ps[k], n)
  }

  /** Column `name` of r is column `name` of t at the rows ps, converted to a day. */
  ghost predicate ConvertedAt(t: Table, r: Table, ps: seq<nat>, name: string, parse: Parser) {
    forall k :: 0 <= k < |ps| && k < |r.rows| && ps[k] < |t.rows| ==>
      ConvertCell(Get(t, ps[k], name), parse) == Success(Get(r, k, name))
  }

  /** A missing sex value becomes 'Unknown'. */
  function FillCell(c: Cell): Cell {
    if c == Missing then Text("Unknown") else c
  }

  /** Column c of r is column c of t at the rows ps, with 'Unknown' where it was missing. */
  ghost predicate FilledAt(t: Table, r: Table, ps: seq<nat>, c: string) {
    forall k :: 0 <= k < |ps| && k < |r.rows| && ps[k] < |t.rows| ==> Get(r, k, c) == FillCell(Get(t, ps[k], c))
  }

  /** A step that keeps every row and changes only the column `name` keeps where the rows came
      from, and what was said of the other columns. */
  lemma ThenSame(a: Table, b: Table, c: Table, ps: seq<nat>, changed: set<string>, name: string)
    requires RowsFrom(a, b, ps, changed) && SameElsewhere(b, c, name)
    ensures RowsFrom(a, c, ps, changed + {name})
    ensures forall n, parse :: n != name && ConvertedAt(a, b, ps, n, parse) ==> ConvertedAt(a, c, ps, n, parse)
    ensures forall n :: n != name && FilledAt(a, b, ps, n) ==> FilledAt(a, c, ps, n)
  {
  }

  /** A step that keeps the rows qs of b, ascending, keeps the rows Compose(ps, qs) of a. */
  lemma ThenSelect(a: Table, b: Table, ps: seq<nat>, changed: set<string>, qs: seq<nat>)
    requires RowsFrom(a, b, ps, changed)
    requires Increasing(qs) && forall k :: 0 <= k < |qs| ==> qs[k] < |b.rows|
    ensures var c := b.(rows := Select(b.rows, qs));
      && RowsFrom(a, c, Compose(ps, qs), changed)
      && (forall n, parse :: ConvertedAt(a, b, ps, n, parse) ==> ConvertedAt(a, c, Compose(ps, qs), n, parse))
      && (forall n :: FilledAt(a, b, ps, n) ==> FilledAt(a, c, Compose(ps, qs), n))
  {
    SelectGet(b, qs);
  }

  /** Converting a column no earlier step changed leaves it converted from the original rows. */
  lemma ThenConvert(a: Table, b: Table, ps: seq<nat>, changed: set<string>, name: string, parse: Parser)
    requires RowsFrom(a, b, ps, changed) && name !in changed
    requires ConvertColumn(b, name, parse).Success?
    ensures var c := ConvertColumn(b, name, parse).value;
      && RowsFrom(a, c, ps, changed + {name}) && ConvertedAt(a, c, ps, name, parse)
      && (forall n, p :: n != name && ConvertedAt(a, b, ps, n, p) ==> ConvertedAt(a, c, ps, n, p))
      && (forall n :: n != name && FilledAt(a, b, ps, n) ==> FilledAt(a, c, ps, n))
  {
    ConvertColumnSpec(b, name, parse);
    var c := ConvertColumn(b, name, parse).value;
    assert SameElsewhere(b, c, name);
    ThenSame(a, b, c, ps, changed, name);
  }

  /** The header rewrite and the sex fill keep every row: only the sex column c changes. */
  lemma SexRows(raw: Table) returns (c: string)
    requires FillSex(NormalizeHeaders(raw)).Success?
    ensures var t := NormalizeHeaders(raw);
      && FirstSexColumn(t.columns).Some? && c == t.columns[FirstSexColumn(t.columns).value]
      && RowsFrom(t, FillSex(t).value, AllRows(|t.rows|), {c})
      && (Rectangular(raw) ==> FilledAt(t, FillSex(t).value, AllRows(|t.rows|), c))
  {
    var t := NormalizeHeaders(raw);
    FillSexSpec(t);
    c := t.columns[FirstSexColumn(t.columns).value];
    var ps := AllRows(|t.rows|);
    assert Increasing(ps);
  }

  /** Converting datetime and dropping monthyear keep every row of the filled frame t2. */
  lemma DateRows(t1: Table, t2: Table, c: string, parse: Parser)
    requires RowsFrom(t1, t2, AllRows(|t1.rows|), {c}) && IsSexColumn(c)
    requires ConvertColumn(t2, "datetime", parse).Success?
    requires DropColumn(ConvertColumn(t2, "datetime", parse).value, "monthyear").Success?
    ensures var t4, id := DropColumn(ConvertColumn(t2, "datetime", parse).value, "monthyear").value, AllRows(|t1.rows|);
      && RowsFrom(t1, t4, id, {c, "datetime", "monthyear"})
      && ConvertedAt(t1, t4, id, "datetime", parse)
      && (FilledAt(t1, t2, id, c) ==> FilledAt(t1, t4, id, c))
  {
    NotSexHeaders();
    var id := AllRows(|t1.rows|);
    ThenConvert(t1, t2, id, {c}, "datetime", parse);
    var t3 := ConvertColumn(t2, "datetime", parse).value;
    DropColumnSpec(t3, "monthyear");
    var t4 := DropColumn(t3, "monthyear").value;
    assert SameElsewhere(t3, t4, "monthyear");
    ThenSame(t1, t3, t4, id, {c, "datetime"}, "monthyear");
    assert {c, "datetime"} + {"monthyear"} == {c, "datetime", "monthyear"};
  }

  /** The universal changes keep rows ps of the frame with rewritten headers, in order: the sex
      column filled, datetime converted, monthyear gone, every other column as read. */
  lemma UniversalRows(raw: Table, parse: Parser) returns (ps: seq<nat>, c: string)
    requires UniversalChanges(raw, parse).Success?
    ensures var t, r := NormalizeHeaders(raw), UniversalChanges(raw, parse).value;
      && FirstSexColumn(t.columns).Some? && c == t.columns[FirstSexColumn(t.columns).value]
      && RowsFrom(t, r, ps, {c, "datetime", "monthyear"})
      && ConvertedAt(t, r, ps, "datetime", parse)
      && (Rectangular(raw) ==> FilledAt(t, r, ps, c))
  {
    NotSexHeaders();
    var t1 := NormalizeHeaders(raw);
    c := SexRows(raw);
    var t2 := FillSex(t1).value;
    DateRows(t1, t2, c, parse);
    var t4 := DropColumn(ConvertColumn(t2, "datetime", parse).value, "monthyear").value;
    DedupKeepsFirsts(t4);
    var id, qs := AllRows(|t1.rows|), FirstRows(t4, |t4.rows|);
    ThenSelect(t1, t4, id, {c, "datetime", "monthyear"}, qs);
    ps := Compose(id, qs);
  }

  /** The names whose cells the pass rewrites or removes: the sex column c, datetime, monthyear,
      and found-location in an intake file or date-of-birth in an outcome file. */
  function ChangedColumns(path: string, c: string): set<string> {
    {c, "datetime", "monthyear"}
    + if IsIntakeFile(path) then {"found-location"} else if IsOutcomeFile(path) then {"date-of-birth"} else {}
  }

  /** The file-specific steps keep rows of what the universal changes left: all of them in an
      intake file, those with an outcome type in an outcome file (date-of-birth converted). */
  lemma FileSpecificRows(path: string, a: Table, t: Table, ps: seq<nat>, c: string, parse: Parser)
    returns (qs: seq<nat>)
    requires FileSpecific(path, t, parse).Success? && IsSexColumn(c)
    requires RowsFrom(a, t, ps, {c, "datetime", "monthyear"}) && ConvertedAt(a, t, ps, "datetime", parse)
    ensures var r := FileSpecific(path, t, parse).value;
      && RowsFrom(a, r, qs, ChangedColumns(path, c))
      && ConvertedAt(a, r, qs, "datetime", parse)
      && (FilledAt(a, t, ps, c) ==> FilledAt(a, r, qs, c))
      && (!IsIntakeFile(path) && IsOutcomeFile(path) ==> ConvertedAt(a, r, qs, "date-of-birth", parse))
  {
    NotSexHeaders();
    var changed := {c, "datetime", "monthyear"};
    if IsIntakeFile(path) {
      DropColumnSpec(t, "found-location");
      var r := DropColumn(t, "found-location").value;
      assert SameElsewhere(t, r, "found-location");
      ThenSame(a, t, r, ps, changed, "found-location");
      qs := ps;
    } else if IsOutcomeFile(path) {
      DropMissingSpec(t, "outcome-type");
      var ks := PresentRows(t, "outcome-type");
      var d := DropMissing(t, "outcome-type").value;
      assert d == t.(rows := Select(t.rows, ks));
      ThenSelect(a, t, ps, changed, ks);
      qs := Compose(ps, ks);
      ThenConvert(a, d, qs, changed, "date-of-birth", parse);
    } else {
      qs := ps;
    }
  }

  /** The rows of r are the rows ps of t, ascending; column j of t is the sex column, filled in
      r, datetime (and date-of-birth in an outcome file) is converted, and every other name the
      pass leaves alone reads as in t. */
  ghost predicate DerivedRows(path: string, t: Table, r: Table, ps: seq<nat>, j: nat, parse: Parser) {
    && FirstSexColumn(t.columns) == Some(j)
    && RowsFrom(t, r, ps, ChangedColumns(path, t.columns[j]))
    && ConvertedAt(t, r, ps, "datetime", parse)
    && (Rectangular(t) ==> FilledAt(t, r, ps, t.columns[j]))
    && (!IsIntakeFile(path) && IsOutcomeFile(path) ==> ConvertedAt(t, r, ps, "date-of-birth", parse))
  }

  /** clean_dataset invents no row and reorders none: its rows are rows of the raw frame (with
      rewritten headers), ascending, with the pass's per-column maps applied. */
  lemma CleanProvenance(path: string, raw: Table, parse: Parser)
    requires Clean(path, raw, parse).Success?
    ensures exists ps: seq<nat>, j: nat ::
      DerivedRows(path, NormalizeHeaders(raw), Clean(path, raw, parse).value, ps, j, parse)
  {
    var t := NormalizeHeaders(raw);
    var ps, c := UniversalRows(raw, parse);
    var u := UniversalChanges(raw, parse).value;
    assert Clean(path, raw, parse) == FileSpecific(path, u, parse);
    var qs := FileSpecificRows(path, t, u, ps, c, parse);
    var j := FirstSexColumn(t.columns).value;
    assert Rectangular(t) ==> Rectangular(raw);
    assert DerivedRows(path, t, Clean(path, raw, parse).value, qs, j, parse);
  }

  /** The universal changes raise IndexError exactly when the sex column is missing. */
  lemma UniversalNoSex(raw: Table, parse: Parser)
    ensures UniversalChanges(raw, parse) == Failure(NoSexColumn) <==> FillSex(NormalizeHeaders(raw)).Failure?
  {
    var t1 := NormalizeHeaders(raw);
    FillSexSpec(t1);
    if FillSex(t1).Success? {
      var t2 := FillSex(t1).value;
      NoSexErrorFromConvert(t2, "datetime", parse);
      if ConvertColumn(t2, "datetime", parse).Success? {
        var t3 := ConvertColumn(t2, "datetime", parse).value;
        DropColumnSpec(t3, "monthyear");
        if DropColumn(t3, "monthyear").Success? {
          DedupFails(DropColumn(t3, "monthyear").value);
        }
      }
    }
  }

  /** The file-specific steps never raise IndexError. */
  lemma FileSpecificNoSex(path: string, t: Table, parse: Parser)
    ensures FileSpecific(path, t, parse) != Failure(NoSexColumn)
  {
    DropColumnSpec(t, "found-location");
    DropMissingSpec(t, "outcome-type");
    if DropMissing(t, "outcome-type").Success? {
      NoSexErrorFromConvert(DropMissing(t, "outcome-type").value, "date-of-birth", parse);
    }
  }

  /** clean_dataset raises IndexError exactly when no rewritten header starts with "sex": no
      later step raises it. */
  lemma CleanFailsWithoutSex(path: string, raw: Table, parse: Parser)
    ensures Clean(path, raw, parse) == Failure(NoSexColumn) <==>
      forall j :: 0 <= j < |raw.columns| ==> !IsSexColumn(KebabCase(raw.columns[j]))
  {
    var t1 := NormalizeHeaders(raw);
    FillSexSpec(t1);
    UniversalNoSex(raw, parse);
    if UniversalChanges(raw, parse).Success? {
      FileSpecificNoSex(path, UniversalChanges(raw, parse).value, parse);
    }
    assert forall j :: 0 <= j < |raw.columns| ==> t1.columns[j] == KebabCase(raw.columns[j]);
  }

  /** Converting a column raises KeyError or a parse error, never IndexError. */
  lemma NoSexErrorFromConvert(t: Table, name: string, parse: Parser)
    ensures ConvertColumn(t, name, parse) != Failure(NoSexColumn)
  {
    ConvertColumnSpec(t, name, parse);
    if name in t.columns {
      ConvertRowsSpec(t.columns, t.rows, name, parse);
    }
  }
}
