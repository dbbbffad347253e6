/** Positions selected by a mask: the row labels a boolean filter or a drop by label keeps. */
module Selection {

  /** Strictly ascending positions. */
  ghost predicate Increasing(ps: seq<nat>) {
    forall k, l :: 0 <= k < l < |ps| ==> ps[k] < ps[l]
  }

  /** The positions below n that `keep` selects, ascending: the labels a boolean mask keeps. */
  function Positions(n: nat, keep: nat -> bool): (ps: seq<nat>)
    ensures forall k :: 0 <= k < |ps| ==> ps[k] < n
  {
    if n == 0 then [] else Positions(n - 1, keep) + (if keep(n - 1) then [n - 1] else [])
  }

  /** The positions are ascending and are exactly those below n that `keep` selects. */
  lemma {:induction false} PositionsSpec(n: nat, keep: nat -> bool)
    ensures Increasing(Positions(n, keep))
    ensures forall k :: 0 <= k < |Positions(n, keep)| ==> keep(Positions(n, keep)[k])
    ensures forall i: nat :: i < n ==> (i in Positions(n, keep) <==> keep(i))
  {
    if n > 0 {
      PositionsSpec(n - 1, keep);
      var ps := Positions(n - 1, keep);
      assert Positions(n, keep) == ps + (if keep(n - 1) then [n - 1] else []);
      assert n - 1 !in ps;
    }
  }

  /** At most n positions lie below n. */
  lemma {:induction false} PositionsLength(n: nat, keep: nat -> bool)
    ensures |Positions(n, keep)| <= n
  {
    if n > 0 {
      PositionsLength(n - 1, keep);
    }
  }
}
