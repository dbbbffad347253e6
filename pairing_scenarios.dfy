/** Two small shelter histories worked through create_paired_records. */
module PairingScenarios {
  import opened Wrappers
  import opened Timestamps
  import opened Sorting
  import opened Ranking
  import opened Pairing
  import opened PairingTimeline
  import opened PairingJoin

  /** Both rows of a two-row table belong to animal a, the first one no later than the second. */
  lemma TwoRowsInOrder<T>(s: seq<T>, key: T -> Key, a: int)
    requires |s| == 2 && key(s[0]).animalId == a && key(s[1]).animalId == a
    requires KeyLe(key(s[0]), key(s[1]))
    ensures StableSort(s, key) == s
    ensures Group(s, key, a) == {0, 1}
  {
    assert s[1..][1..] == [];
    assert StableSort(s[1..], key) == [s[1]];
    assert s == [s[0]] + [s[1]];
  }

  /** The ranks of a sorted two-row table of one animal are 1 and 2. */
  lemma TwoRowRanks<T>(s: seq<T>, key: T -> Key, a: int)
    requires |s| == 2 && key(s[0]).animalId == a && key(s[1]).animalId == a
    requires KeyLe(key(s[0]), key(s[1]))
    ensures Rank(StableSort(s, key), key, 0) == 1 && Rank(StableSort(s, key), key, 1) == 2
  {
    TwoRowsInOrder(s, key, a);
    StableSortSorted(s, key);
    SortedRankIncreasing(s, key, 0, 1);
    RankBounds(s, key, 0);
    RankBounds(s, key, 1);
  }

  /** In two stays, both outcomes follow the first intake, so neither is an orphan. */
  lemma SurvivorsOfTwoStays(i1: IntakeRow, i2: IntakeRow, o1: OutcomeRow, o2: OutcomeRow)
    requires i1.animalId == i2.animalId == o1.animalId == o2.animalId
    requires Before(i1.datetime, o1.datetime) && Before(o1.datetime, i2.datetime)
    requires Before(i2.datetime, o2.datetime)
    ensures SubsequentOuts([i1, i2], [o1, o2]) == [o1, o2]
  {
    var ins, outs := [i1, i2], [o1, o2];
    assert !Before(o1.datetime, i1.datetime);
    assert !Before(o2.datetime, i1.datetime);
    forall j | 0 <= j < |outs|
      ensures exists i :: 0 <= i < |ins| && ins[i].animalId == outs[j].animalId
                          && !Before(outs[j].datetime, ins[i].datetime)
    {
      assert ins[0].animalId == outs[j].animalId && !Before(outs[j].datetime, ins[0].datetime);
    }
    assert forall j :: 0 <= j < |outs|
             ==> exists i :: 0 <= i < |ins| && ins[i].animalId == outs[j].animalId
                              && !Before(outs[j].datetime, ins[i].datetime);
    NoOrphansWhenIntakeFirst(ins, outs);
  }

  /** In two stays, both tables are already in order and are numbered 1, 2. */
  lemma NumbersOfTwoStays(i1: IntakeRow, i2: IntakeRow, o1: OutcomeRow, o2: OutcomeRow)
    requires i1.animalId == i2.animalId == o1.animalId == o2.animalId
    requires Before(i1.datetime, o1.datetime) && Before(o1.datetime, i2.datetime)
    requires Before(i2.datetime, o2.datetime)
    ensures SortedIns([i1, i2]) == [i1, i2] && SortedOuts([i1, i2], [o1, o2]) == [o1, o2]
    ensures IntakeNumber([i1, i2], 0) == 1 && IntakeNumber([i1, i2], 1) == 2
    ensures OutcomeNumber([i1, i2], [o1, o2], 0) == 1 && OutcomeNumber([i1, i2], [o1, o2], 1) == 2
  {
    var ins, outs, a := [i1, i2], [o1, o2], i1.animalId;
    SurvivorsOfTwoStays(i1, i2, o1, o2);
    TwoRowRanks(ins, IntakeKey, a);
    TwoRowRanks(outs, OutcomeKey, a);
    TwoRowsInOrder(ins, IntakeKey, a);
    TwoRowsInOrder(outs, OutcomeKey, a);
  }

  /** Two stays of one animal, intakes at t1 < t2 and outcomes at t3 < t4 with
      t1 < t3 < t2 < t4: the intake at t1 pairs with the outcome at t3 and the intake at t2 with
      the outcome at t4, and the two records come out in intake order. */
  lemma TwoStays(i1: IntakeRow, i2: IntakeRow, o1: OutcomeRow, o2: OutcomeRow)
    requires i1.animalId == i2.animalId == o1.animalId == o2.animalId
    requires Before(i1.datetime, o1.datetime) && Before(o1.datetime, i2.datetime)
    requires Before(i2.datetime, o2.datetime)
    ensures var rs := PairedRecords([i1, i2], [o1, o2]);
      && |rs| == 2
      && HasIntake(rs[0], i1) && HasOutcome(rs[0], o1)
      && HasIntake(rs[1], i2) && HasOutcome(rs[1], o2)
  {
    var ins, outs, a := [i1, i2], [o1, o2], i1.animalId;
    NumbersOfTwoStays(i1, i2, o1, o2);
    OneRowPerIntake(ins, outs);
    assert PairsWith(ins, outs, 0, 0) && PairsWith(ins, outs, 1, 1);
    PairedCarriesPartner(ins, outs, 0, 0);
    PairedCarriesPartner(ins, outs, 1, 1);
  }

  /** With two outcomes before the only intake, the first is the orphan, the second survives,
      and each table holds one row, numbered 1. */
  lemma NumbersOfEarlyOutcomes(i: IntakeRow, o1: OutcomeRow, o2: OutcomeRow)
    requires i.animalId == o1.animalId == o2.animalId
    requires o1.outcomeType.Some?
    requires Before(o1.datetime, o2.datetime) && Before(o2.datetime, i.datetime)
    ensures OrphanLabels([i], [o1, o2]) == {0}
    ensures SortedIns([i]) == [i] && SortedOuts([i], [o1, o2]) == [o2]
    ensures IntakeNumber([i], 0) == 1 && OutcomeNumber([i], [o1, o2], 0) == 1
  {
    var ins, outs, a := [i], [o1, o2], i.animalId;
    OrphanIsFirstEvent(ins, outs, 0);
    assert 0 in OrphanLabels(ins, outs);
    forall j | j != 0 ensures j !in OrphanLabels(ins, outs) {
      OrphanLabelsExact(ins, outs, j);
      if j == 1 {
        RecordNumbersChronological(ins, outs, 1, 2);
        RecordNumbersInRange(ins, outs, 1);
      }
    }
    assert OrphanLabels(ins, outs) == {0};
    assert Kept(2, {0}) == [1];
    var sub := SubsequentOuts(ins, outs);
    assert sub == [o2];
    assert SortedOuts(ins, outs) == sub;
    assert SortedIns(ins) == ins;
    RankBounds(ins, IntakeKey, 0);
    assert Group(ins, IntakeKey, a) == {0};
    RankBounds(sub, OutcomeKey, 0);
    assert Group(sub, OutcomeKey, a) == {0};
  }

  /** An animal whose history opens with two outcomes before its only intake: the first outcome
      is dropped as an orphan, and the second becomes outcome-number 1 and is paired with the
      intake although it is earlier than it. */
  lemma EarlyOutcomeIsPaired(i: IntakeRow, o1: OutcomeRow, o2: OutcomeRow)
    requires i.animalId == o1.animalId == o2.animalId
    requires o1.outcomeType.Some?
    requires Before(o1.datetime, o2.datetime) && Before(o2.datetime, i.datetime)
    ensures var rs := PairedRecords([i], [o1, o2]);
      && |rs| == 1
      && HasIntake(rs[0], i) && HasOutcome(rs[0], o2)
  {
    var ins, outs := [i], [o1, o2];
    NumbersOfEarlyOutcomes(i, o1, o2);
    OneRowPerIntake(ins, outs);
    assert PairsWith(ins, outs, 0, 0);
    PairedCarriesPartner(ins, outs, 0, 0);
  }
}
