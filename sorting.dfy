/** `sort_values(by=['animal-id', 'datetime'], ascending=True)`: a stable sort by animal, then by
    timestamp. pandas sorts on several columns with a lexicographic, stable indexer, so rows with
    equal keys keep their relative order. */
module Sorting {
  import opened Timestamps

  /** The sort key of a row: its animal-id and its datetime. */
  datatype Key = Key(animalId: int, at: Timestamp)

  /** Strict lexicographic order on keys. */
  predicate KeyLess(a: Key, b: Key) {
    a.animalId < b.animalId || (a.animalId == b.animalId && Before(a.at, b.at))
  }

  predicate KeyLe(a: Key, b: Key) {
    !KeyLess(b, a)
  }

  ghost predicate Sorted<T>(s: seq<T>, key: T -> Key) {
    forall i, j :: 0 <= i < j < |s| ==> KeyLe(key(s[i]), key(s[j]))
  }

  /** The rows of `s` whose key is `k`, in their order in `s`. */
  function WithKey<T>(s: seq<T>, key: T -> Key, k: Key): seq<T> {
    if s == [] then []
    else (if key(s[0]) == k then [s[0]] else []) + WithKey(s[1..], key, k)
  }

  /** Insertion of `x` in front of the first row whose key is not smaller than its own. */
  function Insert<T>(x: T, s: seq<T>, key: T -> Key): (r: seq<T>)
    ensures |r| == |s| + 1
    ensures multiset(r) == multiset(s) + multiset{x}
  {
    if s == [] || KeyLe(key(x), key(s[0])) then [x] + s
    else
      assert s == [s[0]] + s[1..];
      [s[0]] + Insert(x, s[1..], key)
  }

  /** Stable insertion sort: the reference definition of the sorted table. */
  function StableSort<T>(s: seq<T>, key: T -> Key): (r: seq<T>)
    ensures |r| == |s|
    ensures multiset(r) == multiset(s)
  {
    if s == [] then []
    else
      assert s == [s[0]] + s[1..];
      Insert(s[0], StableSort(s[1..], key), key)
  }

  lemma {:induction false} InsertSorted<T>(x: T, s: seq<T>, key: T -> Key)
    requires Sorted(s, key)
    ensures Sorted(Insert(x, s, key), key)
  {
    if s == [] || KeyLe(key(x), key(s[0])) {
    } else {
      var t := s[1..];
      InsertSorted(x, t, key);
      var r := Insert(x, t, key);
      assert multiset(r) == multiset(t) + multiset{x};
      forall y | y in r
        ensures KeyLe(key(s[0]), key(y))
      {
        assert y in multiset(r);
        if y == x {
        } else {
          assert y in multiset(t);
          assert y in t;
        }
      }
      assert Insert(x, s, key) == [s[0]] + r;
    }
  }

  /** The stable sort is sorted by (animal-id, datetime). */
  lemma {:induction false} StableSortSorted<T>(s: seq<T>, key: T -> Key)
    ensures Sorted(StableSort(s, key), key)
  {
    if s != [] {
      StableSortSorted(s[1..], key);
      InsertSorted(s[0], StableSort(s[1..], key), key);
    }
  }

  lemma {:induction false} InsertWithKey<T>(x: T, s: seq<T>, key: T -> Key, k: Key)
    ensures WithKey(Insert(x, s, key), key, k)
         == (if key(x) == k then [x] else []) + WithKey(s, key, k)
  {
    if s == [] || KeyLe(key(x), key(s[0])) {
      assert ([x] + s)[1..] == s;
    } else {
      InsertWithKey(x, s[1..], key, k);
      assert ([s[0]] + Insert(x, s[1..], key))[1..] == Insert(x, s[1..], key);
    }
  }

  /** Stability: among rows with equal keys, the sort keeps the input order. Together with the
      sortedness of StableSortSorted this determines the sorted table. */
  lemma {:induction false} StableSortWithKey<T>(s: seq<T>, key: T -> Key, k: Key)
    ensures WithKey(StableSort(s, key), key, k) == WithKey(s, key, k)
  {
    if s != [] {
      StableSortWithKey(s[1..], key, k);
      InsertWithKey(s[0], StableSort(s[1..], key), key, k);
    }
  }

  /** Row k of t with x inserted at position m. */
  function InsertedAt<T>(x: T, t: seq<T>, m: nat, k: nat): T
    requires m <= |t| && k <= |t|
  {
    if k < m then t[k] else if k == m then x else t[k - 1]
  }

  /** Inserting `x` lands it just after the prefix of rows with smaller keys. */
  lemma {:induction false} InsertAt<T>(x: T, t: seq<T>, key: T -> Key, m: nat)
    requires m <= |t|
    requires forall k :: 0 <= k < m ==> KeyLess(key(t[k]), key(x))
    requires m == |t| || KeyLe(key(x), key(t[m]))
    ensures forall k: nat :: k <= |t| ==> Insert(x, t, key)[k] == InsertedAt(x, t, m, k)
  {
    if m == 0 {
      assert Insert(x, t, key) == [x] + t;
    } else {
      var u := t[1..];
      assert KeyLess(key(t[0]), key(x));
      var r := Insert(x, u, key);
      assert Insert(x, t, key) == [t[0]] + r;
      forall k | 0 <= k < m - 1 ensures KeyLess(key(u[k]), key(x)) {
        assert u[k] == t[k + 1];
      }
      assert m - 1 == |u| || u[m - 1] == t[m];
      InsertAt(x, u, key, m - 1);
      forall k: nat | 0 < k <= |t| ensures Insert(x, t, key)[k] == InsertedAt(x, t, m, k) {
        assert Insert(x, t, key)[k] == r[k - 1] == InsertedAt(x, u, m - 1, k - 1);
      }
      assert Insert(x, t, key)[0] == t[0];
    }
  }

  /** sort_values(..., inplace=True) on an array of rows: insertion sort from the right end. */
  method SortByKey<T>(a: array<T>, key: T -> Key)
    modifies a
    ensures a[..] == StableSort(old(a[..]), key)
  {
    var i := a.Length;
    while i > 0
      invariant 0 <= i <= a.Length
      invariant a[..i] == old(a[..i])
      invariant a[i..] == StableSort(old(a[i..]), key)
    {
      i := i - 1;
      assert old(a[i..]) == [old(a[i])] + old(a[i + 1..]);
      InsertInPlace(a, i, key);
    }
  }

  /** One step of the insertion sort: moves a[i] into the sorted run a[i + 1..]. */
  method InsertInPlace<T>(a: array<T>, i: nat, key: T -> Key)
    requires i < a.Length
    modifies a
    ensures a[..i] == old(a[..i])
    ensures a[i..] == Insert(old(a[i]), old(a[i + 1..]), key)
  {
    var n := a.Length;
    var x := a[i];
    var kx := key(x);
    ghost var t := a[i + 1..];
    var j := i;
    while j + 1 < n && KeyLess(key(a[j + 1]), kx)
      invariant i <= j < n
      invariant forall k :: 0 <= k < i ==> a[k] == old(a[k])
      invariant forall k :: i <= k < j ==> a[k] == t[k - i]
      invariant forall k :: j < k < n ==> a[k] == t[k - i - 1]
      invariant forall k :: 0 <= k < j - i ==> KeyLess(key(t[k]), kx)
    {
      a[j] := a[j + 1];
      j := j + 1;
    }
    a[j] := x;
    InsertedRun(a[..], i, j, x, t, key);
    assert a[..i] == old(a[..i]);
  }

  /** The array contents left by InsertInPlace: the run a[i..] is the insertion of x into t. */
  lemma InsertedRun<T>(b: seq<T>, i: nat, j: nat, x: T, t: seq<T>, key: T -> Key)
    requires i <= j < |b| && |t| == |b| - i - 1
    requires forall k :: i <= k < j ==> b[k] == t[k - i]
    requires b[j] == x
    requires forall k :: j < k < |b| ==> b[k] == t[k - i - 1]
    requires forall k :: 0 <= k < j - i ==> KeyLess(key(t[k]), key(x))
    requires j + 1 == |b| || KeyLe(key(x), key(t[j - i]))
    ensures b[i..] == Insert(x, t, key)
  {
    var m := j - i;
    InsertAt(x, t, key, m);
    var r := Insert(x, t, key);
    forall k | 0 <= k < |r|
      ensures b[i..][k] == r[k]
    {
      assert b[i..][k] == b[i + k];
      assert r[k] == InsertedAt(x, t, m, k);
    }
    assert b[i..] == r;
  }
}
