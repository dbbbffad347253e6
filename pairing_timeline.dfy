/** Properties of the sequencing and orphan-filtering stages of create_paired_records. */
module PairingTimeline {
  import opened Wrappers
  import opened Timestamps
  import opened Sorting
  import opened Ranking
  import opened Selection
  import opened Pairing

  /** The timeline holds, for each animal, its intakes followed by its outcomes. */
  lemma TimelineGroupSize(ins: seq<IntakeRow>, outs: seq<OutcomeRow>, a: int)
    ensures |Group(Timeline(ins, outs), EventKey, a)|
         == |Group(ins, IntakeKey, a)| + |Group(outs, OutcomeKey, a)|
  {
    var t := Timeline(ins, outs);
    var gi, go := Group(ins, IntakeKey, a), Group(outs, OutcomeKey, a);
    var shifted := set j | j in go :: |ins| + j;
    forall p | p in Group(t, EventKey, a) ensures p in gi + shifted {
      if p >= |ins| {
        assert p - |ins| in go;
      }
    }
    forall p | p in gi + shifted ensures p in Group(t, EventKey, a) {
      if p !in gi {
        var j :| j in go && p == |ins| + j;
      }
    }
    assert Group(t, EventKey, a) == gi + shifted;
    assert gi !! shifted;
    ShiftCard(go, |ins|);
  }

  /** The number of events of animal `a`: its intakes plus its outcomes. */
  function EventCount(ins: seq<IntakeRow>, outs: seq<OutcomeRow>, a: int): nat {
    |Group(ins, IntakeKey, a)| + |Group(outs, OutcomeKey, a)|
  }

  /** Within each animal, record-number lies in 1..n, n being how many events the animal has. */
  lemma RecordNumbersInRange(ins: seq<IntakeRow>, outs: seq<OutcomeRow>, p: int)
    requires 0 <= p < |ins| + |outs|
    ensures 1 <= RecordNumber(ins, outs, p) <= EventCount(ins, outs, Timeline(ins, outs)[p].animalId)
  {
    TimelineGroupSize(ins, outs, Timeline(ins, outs)[p].animalId);
    RankBounds(Timeline(ins, outs), EventKey, p);
  }

  /** No two events of one animal share a record-number. */
  lemma RecordNumbersDistinct(ins: seq<IntakeRow>, outs: seq<OutcomeRow>, p: int, q: int)
    requires 0 <= p < |ins| + |outs| && 0 <= q < |ins| + |outs| && p != q
    requires Timeline(ins, outs)[p].animalId == Timeline(ins, outs)[q].animalId
    ensures RecordNumber(ins, outs, p) != RecordNumber(ins, outs, q)
  {
    RankOrder(Timeline(ins, outs), EventKey, p, q);
  }

  /** Every number in 1..n is the record-number of one of the animal's events: with
      RecordNumbersInRange and RecordNumbersDistinct, the numbers are a permutation of 1..n. */
  lemma RecordNumbersCover(ins: seq<IntakeRow>, outs: seq<OutcomeRow>, a: int, r: int)
    requires 1 <= r <= EventCount(ins, outs, a)
    ensures exists p :: 0 <= p < |ins| + |outs| && Timeline(ins, outs)[p].animalId == a
                        && RecordNumber(ins, outs, p) == r
  {
    TimelineGroupSize(ins, outs, a);
    RankSurjective(Timeline(ins, outs), EventKey, a, r);
  }

  /** record-number follows the datetime within an animal; on equal datetimes the row that comes
      first in the merged table (intakes before outcomes) gets the smaller number. */
  lemma RecordNumbersChronological(ins: seq<IntakeRow>, outs: seq<OutcomeRow>, p: int, q: int)
    requires 0 <= p < |ins| + |outs| && 0 <= q < |ins| + |outs|
    requires Timeline(ins, outs)[p].animalId == Timeline(ins, outs)[q].animalId
    ensures var t := Timeline(ins, outs);
      RecordNumber(ins, outs, p) < RecordNumber(ins, outs, q)
      <==> Before(t[p].datetime, t[q].datetime) || (t[p].datetime == t[q].datetime && p < q)
  {
    RankOrder(Timeline(ins, outs), EventKey, p, q);
  }

  /** first_outs holds exactly the outcome positions whose timeline row has an outcome-type and
      record-number 1; no intake can enter it. */
  lemma OrphanLabelsExact(ins: seq<IntakeRow>, outs: seq<OutcomeRow>, j: int)
    ensures j in OrphanLabels(ins, outs)
        <==> 0 <= j < |outs| && outs[j].outcomeType.Some? && RecordNumber(ins, outs, |ins| + j) == 1
  {
    var t := Timeline(ins, outs);
    if j in OrphanLabels(ins, outs) {
      var p :| 0 <= p < |t| && t[p].outcomeType.Some? && Rank(t, EventKey, p) == 1 && t[p].index == j;
      assert p >= |ins|;
      assert t[p] == OutcomeEvent(outs[p - |ins|], p - |ins|);
    } else if 0 <= j < |outs| && outs[j].outcomeType.Some? {
      assert t[|ins| + j].index == j;
    }
  }

  /** No event of the merged table precedes position p within its animal. */
  ghost predicate FirstOfAnimal(t: seq<Event>, p: int)
    requires 0 <= p < |t|
  {
    forall q :: 0 <= q < |t| ==> !Precedes(t, EventKey, q, p)
  }

  /** Every intake of the animal of outcome `o` is strictly later than `o`. */
  ghost predicate AllIntakesLater(ins: seq<IntakeRow>, o: OutcomeRow) {
    forall i :: 0 <= i < |ins| && ins[i].animalId == o.animalId ==> Before(o.datetime, ins[i].datetime)
  }

  /** Outcome j is the first outcome of its animal: every other is later, or on the same
      datetime further down the table. */
  ghost predicate FirstOutcome(outs: seq<OutcomeRow>, j: int)
    requires 0 <= j < |outs|
  {
    forall k :: 0 <= k < |outs| && k != j && outs[k].animalId == outs[j].animalId
      ==> Before(outs[j].datetime, outs[k].datetime) || (outs[k].datetime == outs[j].datetime && j < k)
  }

  /** An outcome is an orphan exactly when it has an outcome-type and is its animal's first event:
      every intake of the animal is strictly later, and it is the animal's first outcome. */
  lemma OrphanIsFirstEvent(ins: seq<IntakeRow>, outs: seq<OutcomeRow>, j: int)
    requires 0 <= j < |outs|
    ensures j in OrphanLabels(ins, outs)
        <==> outs[j].outcomeType.Some? && AllIntakesLater(ins, outs[j]) && FirstOutcome(outs, j)
  {
    var t := Timeline(ins, outs);
    OrphanLabelsExact(ins, outs, j);
    RankOneIffFirst(t, EventKey, |ins| + j);
    if FirstOfAnimal(t, |ins| + j) {
      FirstEventCriteria(ins, outs, j);
    }
    if AllIntakesLater(ins, outs[j]) && FirstOutcome(outs, j) {
      CriteriaFirstEvent(ins, outs, j);
    }
  }

  lemma FirstEventCriteria(ins: seq<IntakeRow>, outs: seq<OutcomeRow>, j: int)
    requires 0 <= j < |outs|
    requires FirstOfAnimal(Timeline(ins, outs), |ins| + j)
    ensures AllIntakesLater(ins, outs[j]) && FirstOutcome(outs, j)
  {
    var t := Timeline(ins, outs);
    var p := |ins| + j;
    forall i | 0 <= i < |ins| && ins[i].animalId == outs[j].animalId
      ensures Before(outs[j].datetime, ins[i].datetime)
    {
      assert !Precedes(t, EventKey, i, p);
    }
    forall k | 0 <= k < |outs| && k != j && outs[k].animalId == outs[j].animalId
      ensures Before(outs[j].datetime, outs[k].datetime)
              || (outs[k].datetime == outs[j].datetime && j < k)
    {
      assert !Precedes(t, EventKey, |ins| + k, p);
    }
  }

  lemma CriteriaFirstEvent(ins: seq<IntakeRow>, outs: seq<OutcomeRow>, j: int)
    requires 0 <= j < |outs|
    requires AllIntakesLater(ins, outs[j]) && FirstOutcome(outs, j)
    ensures FirstOfAnimal(Timeline(ins, outs), |ins| + j)
  {
    var t := Timeline(ins, outs);
    var p := |ins| + j;
    forall q | 0 <= q < |t| ensures !Precedes(t, EventKey, q, p) {
      if q < |ins| {
        assert t[q] == IntakeEvent(ins[q], q);
      } else {
        assert t[q] == OutcomeEvent(outs[q - |ins|], q - |ins|);
      }
    }
  }

  /** Intakes come before outcomes in the merged table, so an outcome with an intake of the same
      animal on the same datetime or earlier gets the larger record-number and is never dropped. */
  lemma IntakeNoLaterKeepsOutcome(ins: seq<IntakeRow>, outs: seq<OutcomeRow>, i: int, j: int)
    requires 0 <= i < |ins| && 0 <= j < |outs|
    requires ins[i].animalId == outs[j].animalId
    requires !Before(outs[j].datetime, ins[i].datetime)
    ensures RecordNumber(ins, outs, i) < RecordNumber(ins, outs, |ins| + j)
    ensures j !in OrphanLabels(ins, outs)
  {
    var t := Timeline(ins, outs);
    assert Precedes(t, EventKey, i, |ins| + j);
    RankMonotone(t, EventKey, i, |ins| + j);
    OrphanLabelsExact(ins, outs, j);
  }

  /** Orphan removal drops at most one outcome per animal. */
  lemma AtMostOneOrphanPerAnimal(ins: seq<IntakeRow>, outs: seq<OutcomeRow>, j: int, k: int)
    requires j in OrphanLabels(ins, outs) && k in OrphanLabels(ins, outs)
    requires 0 <= j < |outs| && 0 <= k < |outs| && outs[j].animalId == outs[k].animalId
    ensures j == k
  {
    OrphanLabelsExact(ins, outs, j);
    OrphanLabelsExact(ins, outs, k);
    RankOrder(Timeline(ins, outs), EventKey, |ins| + j, |ins| + k);
  }

  /** subsequent_outs is outs without the orphans: it keeps every other outcome row, invents none,
      and keeps their order. */
  lemma SurvivorsAreNonOrphans(ins: seq<IntakeRow>, outs: seq<OutcomeRow>)
    ensures var ks := Kept(|outs|, OrphanLabels(ins, outs));
      var sub := SubsequentOuts(ins, outs);
      && |sub| == |ks|
      && (forall k :: 0 <= k < |sub| ==> sub[k] == outs[ks[k]] && ks[k] !in OrphanLabels(ins, outs))
      && (forall j :: 0 <= j < |outs| && j !in OrphanLabels(ins, outs) ==> j in ks)
      && (forall k, l :: 0 <= k < l < |ks| ==> ks[k] < ks[l])
  {
    PositionsSpec(|outs|, (k: nat) => k !in OrphanLabels(ins, outs));
  }

  lemma {:induction false} KeptAll(n: nat)
    ensures |Kept(n, {})| == n
    ensures forall k :: 0 <= k < n ==> Kept(n, {})[k] == k
  {
    if n > 0 {
      KeptAll(n - 1);
      var ks := Kept(n - 1, {});
      assert Kept(n, {}) == ks + [n - 1];
    }
  }

  /** When every outcome has an intake of its animal on the same datetime or earlier, no outcome
      is an orphan and subsequent_outs is the whole outcome table. */
  lemma NoOrphansWhenIntakeFirst(ins: seq<IntakeRow>, outs: seq<OutcomeRow>)
    requires forall j :: 0 <= j < |outs|
               ==> exists i :: 0 <= i < |ins| && ins[i].animalId == outs[j].animalId
                                && !Before(outs[j].datetime, ins[i].datetime)
    ensures OrphanLabels(ins, outs) == {}
    ensures SubsequentOuts(ins, outs) == outs
  {
    forall j ensures j !in OrphanLabels(ins, outs) {
      OrphanLabelsExact(ins, outs, j);
      if 0 <= j < |outs| {
        var i :| 0 <= i < |ins| && ins[i].animalId == outs[j].animalId
                 && !Before(outs[j].datetime, ins[i].datetime);
        IntakeNoLaterKeepsOutcome(ins, outs, i, j);
      }
    }
    KeptAll(|outs|);
  }
}
