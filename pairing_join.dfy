/** Properties of the join and projection stages of create_paired_records. */
module PairingJoin {
  import opened Wrappers
  import opened Timestamps
  import opened Sorting
  import opened Ranking
  import opened Selection
  import opened Pairing

  // ---------------------------------------------------------------------------------------------
  // The left merge, for a right table whose join keys are unique.

  /** Right row k carries the join key (a, n). */
  predicate HasKey(right: seq<OutcomeCols>, k: int, a: int, n: nat)
    requires 0 <= k < |right|
  {
    right[k].animalId == a && right[k].outcomeNumber == n
  }

  /** No two right rows share an (animal-id, outcome-number) pair. */
  ghost predicate UniqueKeys(right: seq<OutcomeCols>) {
    forall k, l :: 0 <= k < l < |right| && right[k].animalId == right[l].animalId
      ==> right[k].outcomeNumber != right[l].outcomeNumber
  }

  /** Row j of the merge is left row l completed by the right row with its key, if any. */
  ghost predicate PairedAs(j: JoinedRow, l: RankedIntake, right: seq<OutcomeCols>) {
    && j.left == l
    && (j.right.None?
        <==> forall k :: 0 <= k < |right| ==> !HasKey(right, k, l.row.animalId, l.intakeNumber))
    && (forall k :: 0 <= k < |right| && HasKey(right, k, l.row.animalId, l.intakeNumber)
          ==> j.right == Some(right[k]))
  }

  /** Matches finds nothing exactly when no right row has the key. */
  lemma {:induction false} MatchesEmpty(right: seq<OutcomeCols>, a: int, n: nat)
    ensures Matches(right, a, n) == [] <==> forall k :: 0 <= k < |right| ==> !HasKey(right, k, a, n)
  {
    if right != [] {
      var tail := right[1..];
      MatchesEmpty(tail, a, n);
      var head := if HasKey(right, 0, a, n) then [right[0]] else [];
      assert Matches(right, a, n) == head + Matches(tail, a, n);
      assert |Matches(right, a, n)| == |head| + |Matches(tail, a, n)|;
      if Matches(right, a, n) == [] {
        forall k | 0 <= k < |right| ensures !HasKey(right, k, a, n) {
          if k > 0 {
            assert tail[k - 1] == right[k];
            assert !HasKey(tail, k - 1, a, n);
          }
        }
      } else if !HasKey(right, 0, a, n) {
        var k :| 0 <= k < |tail| && HasKey(tail, k, a, n);
        assert right[k + 1] == tail[k];
        assert HasKey(right, k + 1, a, n);
      }
    }
  }

  /** With unique keys, the match of the key of right row k is that row alone. */
  lemma {:induction false} MatchesUnique(right: seq<OutcomeCols>, k: int, a: int, n: nat)
    requires UniqueKeys(right)
    requires 0 <= k < |right| && HasKey(right, k, a, n)
    ensures Matches(right, a, n) == [right[k]]
  {
    var tail := right[1..];
    if k == 0 {
      forall l | 0 <= l < |tail| ensures !HasKey(tail, l, a, n) {
        assert tail[l] == right[l + 1];
      }
      MatchesEmpty(tail, a, n);
    } else {
      assert !HasKey(right, 0, a, n);
      assert UniqueKeys(tail) by {
        forall p, q | 0 <= p < q < |tail| && tail[p].animalId == tail[q].animalId
          ensures tail[p].outcomeNumber != tail[q].outcomeNumber
        {
          assert tail[p] == right[p + 1] && tail[q] == right[q + 1];
        }
      }
      assert tail[k - 1] == right[k];
      MatchesUnique(tail, k - 1, a, n);
    }
  }

  /** With unique right keys, each left row yields exactly one merged row. */
  lemma JoinOneSingle(l: RankedIntake, right: seq<OutcomeCols>)
    requires UniqueKeys(right)
    ensures |JoinOne(l, right)| == 1
    ensures PairedAs(JoinOne(l, right)[0], l, right)
  {
    var a, n := l.row.animalId, l.intakeNumber;
    MatchesEmpty(right, a, n);
    if Matches(right, a, n) != [] {
      var k :| 0 <= k < |right| && HasKey(right, k, a, n);
      MatchesUnique(right, k, a, n);
      forall k' | 0 <= k' < |right| && HasKey(right, k', a, n)
        ensures JoinOne(l, right)[0].right == Some(right[k'])
      {
        MatchesUnique(right, k', a, n);
      }
    }
  }

  /** With unique right keys the left merge is one-to-one: row i of the result is left row i,
      completed by the right row with its key. */
  lemma {:induction false} LeftJoinOneToOne(left: seq<RankedIntake>, right: seq<OutcomeCols>)
    requires UniqueKeys(right)
    ensures |LeftJoin(left, right)| == |left|
    ensures forall i :: 0 <= i < |left| ==> PairedAs(LeftJoin(left, right)[i], left[i], right)
  {
    if left != [] {
      var tail := left[1..];
      JoinOneSingle(left[0], right);
      LeftJoinOneToOne(tail, right);
      var r := LeftJoin(left, right);
      assert r == JoinOne(left[0], right) + LeftJoin(tail, right);
      forall i | 0 <= i < |left| ensures PairedAs(r[i], left[i], right) {
        if i > 0 {
          assert r[i] == LeftJoin(tail, right)[i - 1];
          assert left[i] == tail[i - 1];
        }
      }
    }
  }

  /** Every row Matches finds is a right row with the key. */
  lemma {:induction false} MatchesSound(right: seq<OutcomeCols>, a: int, n: nat)
    ensures forall m :: m in Matches(right, a, n) ==> m in right && m.animalId == a && m.outcomeNumber == n
  {
    if right != [] {
      MatchesSound(right[1..], a, n);
    }
  }

  /** The right side of a merged row is a right row with the left row's key, and is empty only
      when no right row has that key. */
  ghost predicate SoundMatch(j: JoinedRow, right: seq<OutcomeCols>) {
    && (j.right.Some? ==>
          && j.right.value in right
          && j.right.value.animalId == j.left.row.animalId
          && j.right.value.outcomeNumber == j.left.intakeNumber)
    && (j.right.None? ==>
          forall m :: 0 <= m < |right| ==> !HasKey(right, m, j.left.row.animalId, j.left.intakeNumber))
  }

  /** Every row a left row yields carries that left row and a sound right side. */
  lemma JoinOneSound(l: RankedIntake, right: seq<OutcomeCols>)
    ensures forall k :: 0 <= k < |JoinOne(l, right)| ==>
      JoinOne(l, right)[k].left == l && SoundMatch(JoinOne(l, right)[k], right)
  {
    var a, n := l.row.animalId, l.intakeNumber;
    MatchesSound(right, a, n);
    MatchesEmpty(right, a, n);
    var ms := Matches(right, a, n);
    forall k | 0 <= k < |JoinOne(l, right)|
      ensures JoinOne(l, right)[k].left == l && SoundMatch(JoinOne(l, right)[k], right)
    {
      if ms != [] {
        assert JoinOne(l, right)[k].right == Some(ms[k]) && ms[k] in ms;
      }
    }
  }

  /** Left row i is merged row ps[i], and the positions ascend. */
  ghost predicate LeftRowsAt(r: seq<JoinedRow>, left: seq<RankedIntake>, ps: seq<nat>) {
    |ps| == |left| && Increasing(ps) && forall i :: 0 <= i < |left| ==> ps[i] < |r| && r[ps[i]].left == left[i]
  }

  /** Putting a block that starts with left row l before the merge of the other rows puts l
      first and shifts the other positions by the block's length. */
  lemma PrependBlock(h: seq<JoinedRow>, rest: seq<JoinedRow>, l: RankedIntake, tail: seq<RankedIntake>, ps: seq<nat>)
    requires |h| >= 1 && h[0].left == l && LeftRowsAt(rest, tail, ps)
    ensures LeftRowsAt(h + rest, [l] + tail, [0] + seq(|ps|, i requires 0 <= i < |ps| => ps[i] + |h|))
  {
    var qs: seq<nat> := [0] + seq(|ps|, i requires 0 <= i < |ps| => ps[i] + |h|);
    var r, left := h + rest, [l] + tail;
    forall i | 0 <= i < |left| ensures qs[i] < |r| && r[qs[i]].left == left[i] {
      if i > 0 {
        assert qs[i] == ps[i - 1] + |h| && left[i] == tail[i - 1];
      }
    }
  }

  /** For any right table, the left merge loses no left row and keeps their order. */
  lemma {:induction false} LeftJoinKeepsLeft(left: seq<RankedIntake>, right: seq<OutcomeCols>)
    ensures exists ps: seq<nat> :: LeftRowsAt(LeftJoin(left, right), left, ps)
  {
    if left == [] {
      assert LeftRowsAt(LeftJoin(left, right), left, []);
    } else {
      var tail := left[1..];
      var h, rest := JoinOne(left[0], right), LeftJoin(tail, right);
      LeftJoinKeepsLeft(tail, right);
      var ps :| LeftRowsAt(rest, tail, ps);
      PrependBlock(h, rest, left[0], tail, ps);
      assert LeftJoin(left, right) == h + rest && left == [left[0]] + tail;
    }
  }

  /** For any right table, every merged row comes from a left row, and its right side is a right
      row with that left row's key, or empty because no right row has the key. */
  lemma {:induction false} LeftJoinRowsSound(left: seq<RankedIntake>, right: seq<OutcomeCols>)
    ensures forall k :: 0 <= k < |LeftJoin(left, right)| ==> SoundMatch(LeftJoin(left, right)[k], right)
    ensures forall k :: 0 <= k < |LeftJoin(left, right)| ==> LeftJoin(left, right)[k].left in left
  {
    if left != [] {
      var r := LeftJoin(left, right);
      var tail := left[1..];
      var h, rest := JoinOne(left[0], right), LeftJoin(tail, right);
      assert r == h + rest;
      JoinOneSound(left[0], right);
      LeftJoinRowsSound(tail, right);
      forall k | 0 <= k < |r|
        ensures SoundMatch(r[k], right) && r[k].left in left
      {
        if k < |h| {
          assert r[k] == h[k] && h[k].left == left[0] && SoundMatch(h[k], right);
        } else {
          var k' := k - |h|;
          assert r[k] == rest[k'] && 0 <= k' < |rest|;
          assert SoundMatch(rest[k'], right) && rest[k'].left in tail;
        }
      }
    }
  }

  // ---------------------------------------------------------------------------------------------
  // The merge of create_paired_records.

  /** The right table has unique join keys: outcome-numbers are distinct within an animal. */
  lemma RightKeysUnique(ins: seq<IntakeRow>, outs: seq<OutcomeRow>)
    ensures UniqueKeys(RightTable(ins, outs))
  {
    var o := SortedOuts(ins, outs);
    var right := RightTable(ins, outs);
    forall k, l | 0 <= k < l < |right| && right[k].animalId == right[l].animalId
      ensures right[k].outcomeNumber != right[l].outcomeNumber
    {
      RankOrder(o, OutcomeKey, k, l);
    }
  }

  /** ins_and_outs has one row per intake, in sorted-intake order, each completed by the
      surviving outcome with the same animal-id and outcome-number equal to its intake-number. */
  lemma JoinedShape(ins: seq<IntakeRow>, outs: seq<OutcomeRow>)
    ensures |Joined(ins, outs)| == |ins|
    ensures forall i :: 0 <= i < |ins|
              ==> PairedAs(Joined(ins, outs)[i], LeftTable(ins)[i], RightTable(ins, outs))
  {
    RightKeysUnique(ins, outs);
    LeftJoinOneToOne(LeftTable(ins), RightTable(ins, outs));
  }

  // ---------------------------------------------------------------------------------------------
  // Properties of the result.

  /** Result row p carries the intake columns of intake row r. */
  predicate HasIntake(p: PairedRecord, r: IntakeRow) {
    && p.animalId == r.animalId && p.name == r.name && p.animalType == r.animalType
    && p.breed == r.breed && p.color == r.color && p.intakeDate == r.datetime
    && p.intakeType == r.intakeType && p.intakeCondition == r.intakeCondition
    && p.sexUponIntake == r.sexUponIntake
  }

  /** Result row p carries the outcome columns of outcome row r. */
  predicate HasOutcome(p: PairedRecord, r: OutcomeRow) {
    && p.outcomeDate == Some(r.datetime) && p.dateOfBirth == r.dateOfBirth
    && p.outcomeType == r.outcomeType && p.outcomeSubtype == r.outcomeSubtype
    && p.sexUponOutcome == Some(r.sexUponOutcome)
  }

  /** Result row p is open: every outcome column is null. */
  predicate IsOpen(p: PairedRecord) {
    && p.outcomeDate.None? && p.dateOfBirth.None? && p.outcomeType.None?
    && p.outcomeSubtype.None? && p.sexUponOutcome.None?
  }

  /** Every intake yields exactly one result row: the rows are the intakes, sorted by
      (animal-id, intake-date), none lost and none repeated. */
  lemma OneRowPerIntake(ins: seq<IntakeRow>, outs: seq<OutcomeRow>)
    ensures var rs := PairedRecords(ins, outs);
      && |rs| == |ins|
      && multiset(SortedIns(ins)) == multiset(ins)
      && forall i :: 0 <= i < |ins| ==> HasIntake(rs[i], SortedIns(ins)[i])
  {
    JoinedShape(ins, outs);
  }

  /** The result is ordered by animal-id, then intake-date. */
  lemma OutputSorted(ins: seq<IntakeRow>, outs: seq<OutcomeRow>, i: int, i': int)
    requires 0 <= i < i' < |ins|
    ensures var rs := PairedRecords(ins, outs);
      KeyLe(Key(rs[i].animalId, rs[i].intakeDate), Key(rs[i'].animalId, rs[i'].intakeDate))
  {
    JoinedShape(ins, outs);
    StableSortSorted(ins, IntakeKey);
  }

  /** Surviving outcome k is the partner of sorted intake i: same animal, and outcome-number
      equal to intake-number. */
  ghost predicate PairsWith(ins: seq<IntakeRow>, outs: seq<OutcomeRow>, i: int, k: int)
    requires 0 <= i < |ins|
  {
    && 0 <= k < |SortedOuts(ins, outs)|
    && SortedOuts(ins, outs)[k].animalId == SortedIns(ins)[i].animalId
    && OutcomeNumber(ins, outs, k) == IntakeNumber(ins, i)
  }

  /** Row i of the result is the projection of merged row i, which pairs sorted intake i. */
  lemma ResultRow(ins: seq<IntakeRow>, outs: seq<OutcomeRow>, i: int)
    requires 0 <= i < |ins|
    ensures PairedRecords(ins, outs)[i] == Project(Joined(ins, outs)[i])
    ensures PairedAs(Joined(ins, outs)[i], LeftTable(ins)[i], RightTable(ins, outs))
    ensures forall k :: PairsWith(ins, outs, i, k)
              ==> HasKey(RightTable(ins, outs), k, LeftTable(ins)[i].row.animalId,
                         LeftTable(ins)[i].intakeNumber)
  {
    JoinedShape(ins, outs);
  }

  /** Positional pairing: result row i carries an outcome exactly when some surviving outcome of
      its animal has outcome-number equal to the row's intake-number. */
  lemma PairedIffPartner(ins: seq<IntakeRow>, outs: seq<OutcomeRow>, i: int)
    requires 0 <= i < |ins|
    ensures PairedRecords(ins, outs)[i].outcomeDate.Some? <==> exists k :: PairsWith(ins, outs, i, k)
  {
    ResultRow(ins, outs, i);
    var right, l := RightTable(ins, outs), LeftTable(ins)[i];
    if PairedRecords(ins, outs)[i].outcomeDate.Some? {
      var k :| 0 <= k < |right| && HasKey(right, k, l.row.animalId, l.intakeNumber);
      assert PairsWith(ins, outs, i, k);
    }
  }

  /** A paired row carries the columns of its partner outcome. */
  lemma PairedCarriesPartner(ins: seq<IntakeRow>, outs: seq<OutcomeRow>, i: int, k: int)
    requires 0 <= i < |ins|
    requires PairsWith(ins, outs, i, k)
    ensures HasOutcome(PairedRecords(ins, outs)[i], SortedOuts(ins, outs)[k])
  {
    ResultRow(ins, outs, i);
  }

  /** A row without an outcome-date is open: all its outcome columns are null. */
  lemma UnpairedIsOpen(ins: seq<IntakeRow>, outs: seq<OutcomeRow>, i: int)
    requires 0 <= i < |ins|
    requires PairedRecords(ins, outs)[i].outcomeDate.None?
    ensures IsOpen(PairedRecords(ins, outs)[i])
    ensures forall k :: !PairsWith(ins, outs, i, k)
  {
    ResultRow(ins, outs, i);
    PairedIffPartner(ins, outs, i);
  }

  /** Pairs never cross: for two rows of one animal, the later intake is paired with the later
      outcome (and the earlier intake-date with the earlier outcome-date). */
  lemma PairsNeverCross(ins: seq<IntakeRow>, outs: seq<OutcomeRow>,
                        i: int, i': int, k: int, k': int)
    requires 0 <= i < i' < |ins|
    requires SortedIns(ins)[i].animalId == SortedIns(ins)[i'].animalId
    requires 0 <= k < |SortedOuts(ins, outs)| && 0 <= k' < |SortedOuts(ins, outs)|
    requires SortedOuts(ins, outs)[k].animalId == SortedIns(ins)[i].animalId
    requires SortedOuts(ins, outs)[k'].animalId == SortedIns(ins)[i'].animalId
    requires OutcomeNumber(ins, outs, k) == IntakeNumber(ins, i)
    requires OutcomeNumber(ins, outs, k') == IntakeNumber(ins, i')
    ensures k < k'
    ensures !Before(SortedIns(ins)[i'].datetime, SortedIns(ins)[i].datetime)
    ensures !Before(SortedOuts(ins, outs)[k'].datetime, SortedOuts(ins, outs)[k].datetime)
  {
    var s, o := SortedIns(ins), SortedOuts(ins, outs);
    StableSortSorted(ins, IntakeKey);
    StableSortSorted(SubsequentOuts(ins, outs), OutcomeKey);
    SortedRankIncreasing(s, IntakeKey, i, i');
    RankOrder(o, OutcomeKey, k, k');
    assert Precedes(o, OutcomeKey, k, k');
    assert KeyLe(IntakeKey(s[i]), IntakeKey(s[i']));
  }

  /** No surviving outcome is paired with two result rows. */
  lemma OutcomeUsedAtMostOnce(ins: seq<IntakeRow>, outs: seq<OutcomeRow>, i: int, i': int)
    requires 0 <= i < |ins| && 0 <= i' < |ins|
    requires Joined(ins, outs)[i].right.Some?
    requires Joined(ins, outs)[i].right == Joined(ins, outs)[i'].right
    ensures i == i'
  {
    JoinedShape(ins, outs);
    var right, left := RightTable(ins, outs), LeftTable(ins);
    var s := SortedIns(ins);
    MatchesEmpty(right, left[i].row.animalId, left[i].intakeNumber);
    var k :| 0 <= k < |right| && HasKey(right, k, left[i].row.animalId, left[i].intakeNumber);
    assert HasKey(right, k, left[i'].row.animalId, left[i'].intakeNumber);
    RankOrder(s, IntakeKey, i, i');
  }

  /** An outcome whose outcome-number exceeds the number of intakes of its animal is dropped:
      no result row carries it. */
  lemma ExcessOutcomeUnpaired(ins: seq<IntakeRow>, outs: seq<OutcomeRow>, k: int, i: int)
    requires 0 <= k < |SortedOuts(ins, outs)| && 0 <= i < |ins|
    requires OutcomeNumber(ins, outs, k)
           > |Group(ins, IntakeKey, SortedOuts(ins, outs)[k].animalId)|
    ensures Joined(ins, outs)[i].right != Some(RightTable(ins, outs)[k])
  {
    JoinedShape(ins, outs);
    var right, left := RightTable(ins, outs), LeftTable(ins);
    var s := SortedIns(ins);
    if Joined(ins, outs)[i].right.Some? {
      var k' :| 0 <= k' < |right| && HasKey(right, k', left[i].row.animalId, left[i].intakeNumber);
      RankBounds(s, IntakeKey, i);
      GroupSizeSorted(ins, IntakeKey, s[i].animalId);
      assert right[k'] != right[k];
    }
  }

  // ---------------------------------------------------------------------------------------------
  // The number columns.

  /** In a table sorted by (animal-id, datetime), row j is numbered before row i of the same
      animal exactly when it comes first. */
  lemma SortedPrecedes<T>(s: seq<T>, key: T -> Key, j: int, i: int)
    requires Sorted(s, key)
    requires 0 <= j < |s| && 0 <= i < |s| && key(s[j]).animalId == key(s[i]).animalId
    ensures Rank(s, key, j) < Rank(s, key, i) <==> j < i
  {
    RankOrder(s, key, j, i);
    if j < i {
      SortedRankIncreasing(s, key, j, i);
    } else if i < j {
      SortedRankIncreasing(s, key, i, j);
    }
  }

  /** intake-number numbers each animal's intakes 1, 2, ... in the order of the sorted table,
      up to the animal's number of intakes. */
  lemma IntakeNumbersSequential(ins: seq<IntakeRow>, i: int, i': int)
    requires 0 <= i < |ins| && 0 <= i' < |ins|
    requires SortedIns(ins)[i].animalId == SortedIns(ins)[i'].animalId
    ensures 1 <= IntakeNumber(ins, i) <= |Group(ins, IntakeKey, SortedIns(ins)[i].animalId)|
    ensures IntakeNumber(ins, i) < IntakeNumber(ins, i') <==> i < i'
  {
    var s := SortedIns(ins);
    RankBounds(s, IntakeKey, i);
    GroupSizeSorted(ins, IntakeKey, s[i].animalId);
    StableSortSorted(ins, IntakeKey);
    SortedPrecedes(s, IntakeKey, i, i');
  }

  /** outcome-number numbers each animal's surviving outcomes 1, 2, ... in the order of the
      sorted table, up to the animal's number of surviving outcomes. */
  lemma OutcomeNumbersSequential(ins: seq<IntakeRow>, outs: seq<OutcomeRow>, k: int, k': int)
    requires 0 <= k < |SortedOuts(ins, outs)| && 0 <= k' < |SortedOuts(ins, outs)|
    requires SortedOuts(ins, outs)[k].animalId == SortedOuts(ins, outs)[k'].animalId
    ensures 1 <= OutcomeNumber(ins, outs, k)
              <= |Group(SubsequentOuts(ins, outs), OutcomeKey, SortedOuts(ins, outs)[k].animalId)|
    ensures OutcomeNumber(ins, outs, k) < OutcomeNumber(ins, outs, k') <==> k < k'
  {
    var o := SortedOuts(ins, outs);
    RankBounds(o, OutcomeKey, k);
    GroupSizeSorted(SubsequentOuts(ins, outs), OutcomeKey, o[k].animalId);
    StableSortSorted(SubsequentOuts(ins, outs), OutcomeKey);
    SortedPrecedes(o, OutcomeKey, k, k');
  }

  // ---------------------------------------------------------------------------------------------
  // The projection.

  /** Dropping the helper columns and selecting new_order: the result row lists, in the order of
      OutputColumns, exactly the cells the merged row has under those names; the helper columns
      exist before the drop and not after it, and no other column survives. */
  lemma ProjectionSchema(j: JoinedRow)
    ensures |Cells(Project(j))| == |OutputColumns|
    ensures forall k :: 0 <= k < |OutputColumns|
              ==> DroppedCell(j, OutputColumns[k]) == Some(Cells(Project(j))[k])
    ensures forall c :: c in HelperColumns ==> JoinedCell(j, c).Some? && DroppedCell(j, c).None?
    ensures forall c :: DroppedCell(j, c).Some? ==> c in OutputColumns
  {
  }
}
