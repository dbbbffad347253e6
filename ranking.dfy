/** `groupby(by='animal-id')['datetime'].rank(method='first')`: within each animal, the rows are
    numbered 1, 2, ... by ascending datetime, equal datetimes in order of appearance. */
module Ranking {
  import opened Timestamps
  import opened Sorting

  /** Row j is numbered before row i: same animal, and an earlier datetime, or the same datetime
      and an earlier position. */
  predicate Precedes<T>(s: seq<T>, key: T -> Key, j: int, i: int)
    requires 0 <= j < |s| && 0 <= i < |s|
  {
    key(s[j]).animalId == key(s[i]).animalId
    && (Before(key(s[j]).at, key(s[i]).at) || (key(s[j]).at == key(s[i]).at && j < i))
  }

  function Predecessors<T>(s: seq<T>, key: T -> Key, i: int): set<int>
    requires 0 <= i < |s|
  {
    set j | 0 <= j < |s| && Precedes(s, key, j, i)
  }

  /** The rank pandas gives row i: one more than the number of rows numbered before it. */
  function Rank<T>(s: seq<T>, key: T -> Key, i: int): nat
    requires 0 <= i < |s|
  {
    1 + |Predecessors(s, key, i)|
  }

  /** The positions of the rows of animal `a`. */
  function Group<T>(s: seq<T>, key: T -> Key, a: int): set<int> {
    set j | 0 <= j < |s| && key(s[j]).animalId == a
  }

  lemma PrecedesOrder<T>(s: seq<T>, key: T -> Key, i: int, j: int, k: int)
    requires 0 <= i < |s| && 0 <= j < |s| && 0 <= k < |s|
    ensures !Precedes(s, key, i, i)
    ensures Precedes(s, key, i, j) ==> !Precedes(s, key, j, i)
    ensures Precedes(s, key, i, j) && Precedes(s, key, j, k) ==> Precedes(s, key, i, k)
    ensures i != j && key(s[i]).animalId == key(s[j]).animalId
            ==> Precedes(s, key, i, j) || Precedes(s, key, j, i)
  {
  }

  lemma SubsetCard(a: set<int>, b: set<int>)
    requires a <= b
    ensures |a| <= |b|
    ensures a < b ==> |a| < |b|
  {
    assert b == a + (b - a);
    if b - a == {} {
      assert b == a;
    }
  }

  /** Ranks grow along the order: a row numbered before another gets the smaller rank. */
  lemma RankMonotone<T>(s: seq<T>, key: T -> Key, j: int, i: int)
    requires 0 <= j < |s| && 0 <= i < |s|
    requires Precedes(s, key, j, i)
    ensures Rank(s, key, j) < Rank(s, key, i)
  {
    var pj, pi := Predecessors(s, key, j), Predecessors(s, key, i);
    forall k | k in pj ensures k in pi {
      PrecedesOrder(s, key, k, j, i);
    }
    PrecedesOrder(s, key, j, j, i);
    assert j in pi - pj;
    SubsetCard(pj, pi);
  }

  /** Within one animal, the smaller rank marks exactly the row numbered first: rank order is
      datetime order, with ties broken by position. */
  lemma RankOrder<T>(s: seq<T>, key: T -> Key, j: int, i: int)
    requires 0 <= j < |s| && 0 <= i < |s|
    requires key(s[j]).animalId == key(s[i]).animalId
    ensures Rank(s, key, j) < Rank(s, key, i) <==> Precedes(s, key, j, i)
    ensures Rank(s, key, j) == Rank(s, key, i) <==> j == i
  {
    PrecedesOrder(s, key, i, j, i);
    if Precedes(s, key, j, i) {
      RankMonotone(s, key, j, i);
    } else if i != j {
      RankMonotone(s, key, i, j);
    }
  }

  /** Ranks of one animal lie in 1..n, where n is that animal's number of rows. */
  lemma RankBounds<T>(s: seq<T>, key: T -> Key, i: int)
    requires 0 <= i < |s|
    ensures 1 <= Rank(s, key, i) <= |Group(s, key, key(s[i]).animalId)|
  {
    var g := Group(s, key, key(s[i]).animalId);
    var p := Predecessors(s, key, i);
    PrecedesOrder(s, key, i, i, i);
    assert p <= g - {i};
    SubsetCard(p, g - {i});
  }

  /** Rank 1 goes to the row that nothing precedes. */
  lemma RankOneIffFirst<T>(s: seq<T>, key: T -> Key, i: int)
    requires 0 <= i < |s|
    ensures Rank(s, key, i) == 1 <==> forall j :: 0 <= j < |s| ==> !Precedes(s, key, j, i)
  {
    if Rank(s, key, i) == 1 {
      assert Predecessors(s, key, i) == {};
      forall j | 0 <= j < |s| ensures !Precedes(s, key, j, i) {
        assert j !in Predecessors(s, key, i);
      }
    } else {
      var j :| j in Predecessors(s, key, i);
    }
  }

  /** On a table sorted by (animal-id, datetime), ranks of one animal grow with the position. */
  lemma SortedRankIncreasing<T>(s: seq<T>, key: T -> Key, j: int, i: int)
    requires Sorted(s, key)
    requires 0 <= j < i < |s| && key(s[j]).animalId == key(s[i]).animalId
    ensures Rank(s, key, j) < Rank(s, key, i)
  {
    assert KeyLe(key(s[j]), key(s[i]));
    assert Precedes(s, key, j, i);
    RankMonotone(s, key, j, i);
  }

  /** The set {1, ..., n}. */
  function Interval(n: nat): (r: set<int>)
    ensures forall v :: v in r <==> 1 <= v <= n
    ensures |r| == n
  {
    if n == 0 then {} else Interval(n - 1) + {n}
  }

  lemma {:induction false} ImageCard<T>(s: seq<T>, key: T -> Key, a: int, g: set<int>)
    requires g <= Group(s, key, a)
    ensures |set i | i in g :: Rank(s, key, i)| == |g|
  {
    if g != {} {
      var x :| x in g;
      var rest := g - {x};
      ImageCard(s, key, a, rest);
      var img := set i | i in g :: Rank(s, key, i);
      var imgRest := set i | i in rest :: Rank(s, key, i);
      assert img == imgRest + {Rank(s, key, x)};
      forall i | i in rest ensures Rank(s, key, i) != Rank(s, key, x) {
        RankOrder(s, key, i, x);
      }
      assert Rank(s, key, x) !in imgRest;
    }
  }

  /** The ranks of one animal are exactly 1..n: every number in 1..n is the rank of one of its rows. */
  lemma RankSurjective<T>(s: seq<T>, key: T -> Key, a: int, r: int)
    requires 1 <= r <= |Group(s, key, a)|
    ensures exists i :: 0 <= i < |s| && key(s[i]).animalId == a && Rank(s, key, i) == r
  {
    var g := Group(s, key, a);
    var n := |g|;
    var img := set i | i in g :: Rank(s, key, i);
    var range := Interval(n);
    ImageCard(s, key, a, g);
    forall v | v in img ensures v in range {
      var i :| i in g && v == Rank(s, key, i);
      RankBounds(s, key, i);
    }
    if r !in img {
      SubsetCard(img, range - {r});
    }
  }

  /** Shifting a set of positions by d keeps its size. */
  lemma {:induction false} ShiftCard(g: set<int>, d: int)
    ensures |set j | j in g :: d + j| == |g|
  {
    if exists y :: y in g {
      var x :| x in g;
      ShiftCard(g - {x}, d);
      var img := set j | j in g :: d + j;
      var rest := set j | j in g - {x} :: d + j;
      forall y | y in img ensures y in rest + {d + x} {
        var j :| j in g && y == d + j;
        if j != x {
          assert j in g - {x};
        }
      }
      assert img == rest + {d + x};
      assert d + x !in rest;
    }
  }

  /** How many rows of `s` belong to animal `a`. */
  function CountAnimal<T>(s: seq<T>, key: T -> Key, a: int): nat {
    if s == [] then 0 else (if key(s[0]).animalId == a then 1 else 0) + CountAnimal(s[1..], key, a)
  }

  lemma {:induction false} GroupCount<T>(s: seq<T>, key: T -> Key, a: int)
    ensures |Group(s, key, a)| == CountAnimal(s, key, a)
  {
    if s != [] {
      var t := s[1..];
      GroupCount(t, key, a);
      var rest := Group(t, key, a);
      var shifted := set j | j in rest :: 1 + j;
      ShiftCard(rest, 1);
      var head: set<int> := if key(s[0]).animalId == a then {0} else {};
      forall i | i in Group(s, key, a) ensures i in head + shifted {
        if i > 0 {
          assert t[i - 1] == s[i];
          assert i - 1 in rest;
        }
      }
      forall i | i in head + shifted ensures i in Group(s, key, a) {
        if i !in head {
          var j :| j in rest && i == 1 + j;
          assert t[j] == s[i];
        }
      }
      assert Group(s, key, a) == head + shifted;
      assert head !! shifted;
    }
  }

  lemma {:induction false} CountInsert<T>(x: T, s: seq<T>, key: T -> Key, a: int)
    ensures CountAnimal(Insert(x, s, key), key, a) == CountAnimal([x] + s, key, a)
  {
    assert ([x] + s)[1..] == s;
    if s != [] && !KeyLe(key(x), key(s[0])) {
      var r := Insert(x, s[1..], key);
      CountInsert(x, s[1..], key, a);
      assert ([s[0]] + r)[1..] == r;
      assert ([x] + s[1..])[1..] == s[1..];
    }
  }

  lemma {:induction false} CountSorted<T>(s: seq<T>, key: T -> Key, a: int)
    ensures CountAnimal(StableSort(s, key), key, a) == CountAnimal(s, key, a)
  {
    if s != [] {
      var r := StableSort(s[1..], key);
      CountSorted(s[1..], key, a);
      CountInsert(s[0], r, key, a);
      assert ([s[0]] + r)[1..] == r;
    }
  }

  /** Sorting keeps the number of rows of each animal. */
  lemma GroupSizeSorted<T>(s: seq<T>, key: T -> Key, a: int)
    ensures |Group(StableSort(s, key), key, a)| == |Group(s, key, a)|
  {
    GroupCount(s, key, a);
    GroupCount(StableSort(s, key), key, a);
    CountSorted(s, key, a);
  }

  /** Adds the rank column: ranks[i] is the rank of row i. */
  method RankFirst<T>(s: seq<T>, key: T -> Key) returns (ranks: seq<nat>)
    ensures |ranks| == |s|
    ensures forall i :: 0 <= i < |s| ==> ranks[i] == Rank(s, key, i)
  {
    ranks := [];
    var i := 0;
    while i < |s|
      invariant 0 <= i <= |s|
      invariant |ranks| == i
      invariant forall k :: 0 <= k < i ==> ranks[k] == Rank(s, key, k)
    {
      var count := 0;
      var j := 0;
      while j < |s|
        invariant 0 <= j <= |s|
        invariant count == |set k | 0 <= k < j && Precedes(s, key, k, i)|
      {
        ghost var before := set k | 0 <= k < j && Precedes(s, key, k, i);
        if Precedes(s, key, j, i) {
          assert (set k | 0 <= k < j + 1 && Precedes(s, key, k, i)) == before + {j};
          count := count + 1;
        } else {
          assert (set k | 0 <= k < j + 1 && Precedes(s, key, k, i)) == before;
        }
        j := j + 1;
      }
      assert (set k | 0 <= k < |s| && Precedes(s, key, k, i)) == Predecessors(s, key, i);
      ranks := ranks + [1 + count];
      i := i + 1;
    }
  }
}
