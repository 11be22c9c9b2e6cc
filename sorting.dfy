/** `list.sort(key=..., reverse=True)` and `sorted(..., key=..., reverse=True)` on an
    integer key: Python's sort is stable, also in reverse, so elements of equal key
    keep the order they had. The result is specified by three facts: it is ordered
    by non-increasing key, it is a permutation, and for each key value the elements
    with that key appear in their original order. */
module Sorting {

  predicate SortedDesc<T>(xs: seq<T>, key: T -> int)
  {
    forall i, j | 0 <= i < j < |xs| :: key(xs[i]) >= key(xs[j])
  }

  /** The elements of `xs` whose key is `v`, in order. */
  function WithKey<T>(xs: seq<T>, key: T -> int, v: int): seq<T>
  {
    if xs == [] then []
    else WithKey(xs[..|xs| - 1], key, v) + (if key(xs[|xs| - 1]) == v then [xs[|xs| - 1]] else [])
  }

  /** Inserts `x` after every element whose key is at least its own. */
  function Insert<T>(x: T, ys: seq<T>, key: T -> int): (r: seq<T>)
    ensures |r| == |ys| + 1
  {
    if ys == [] then [x]
    else if key(ys[0]) >= key(x) then [ys[0]] + Insert(x, ys[1..], key)
    else [x] + ys
  }

  /** The stable sort by non-increasing key. */
  function SortDesc<T>(xs: seq<T>, key: T -> int): (r: seq<T>)
    ensures |r| == |xs|
  {
    if xs == [] then [] else Insert(xs[|xs| - 1], SortDesc(xs[..|xs| - 1], key), key)
  }

  lemma WithKeyCons<T>(y: T, ys: seq<T>, key: T -> int, v: int)
    ensures WithKey([y] + ys, key, v) == (if key(y) == v then [y] else []) + WithKey(ys, key, v)
    decreases |ys|
  {
    if ys == [] {
      assert [y] + ys == [y];
      assert WithKey([y], key, v) == WithKey([], key, v) + (if key(y) == v then [y] else []);
    } else {
      var n := |ys| - 1;
      assert ([y] + ys)[..|ys|] == [y] + ys[..n];
      WithKeyCons(y, ys[..n], key, v);
    }
  }

  lemma {:induction false} WithKeyNone<T>(ys: seq<T>, key: T -> int, v: int)
    requires forall i | 0 <= i < |ys| :: key(ys[i]) != v
    ensures WithKey(ys, key, v) == []
    decreases |ys|
  {
    if ys != [] {
      WithKeyNone(ys[..|ys| - 1], key, v);
    }
  }

  lemma {:induction false} InsertMultiset<T>(x: T, ys: seq<T>, key: T -> int)
    ensures multiset(Insert(x, ys, key)) == multiset(ys) + multiset{x}
    decreases |ys|
  {
    if ys != [] && key(ys[0]) >= key(x) {
      InsertMultiset(x, ys[1..], key);
      assert ys == [ys[0]] + ys[1..];
    }
  }

  lemma {:induction false} InsertSorted<T>(x: T, ys: seq<T>, key: T -> int)
    requires SortedDesc(ys, key)
    ensures SortedDesc(Insert(x, ys, key), key)
    decreases |ys|
  {
    var r := Insert(x, ys, key);
    if ys != [] && key(ys[0]) >= key(x) {
      var rest := Insert(x, ys[1..], key);
      InsertSorted(x, ys[1..], key);
      InsertMultiset(x, ys[1..], key);
      assert r == [ys[0]] + rest;
      forall i, j | 0 <= i < j < |r| ensures key(r[i]) >= key(r[j]) {
        if i == 0 {
          assert r[j] == rest[j - 1];
          assert r[j] in multiset(ys[1..]) + multiset{x};
          if r[j] in multiset(ys[1..]) {
            var k :| 0 <= k < |ys[1..]| && ys[1..][k] == r[j];
            assert ys[1..][k] == ys[k + 1];
          }
        } else {
          assert r[i] == rest[i - 1] && r[j] == rest[j - 1];
        }
      }
    } else if ys != [] {
      forall i, j | 0 <= i < j < |r| ensures key(r[i]) >= key(r[j]) {
        if i > 0 {
          assert r[i] == ys[i - 1] && r[j] == ys[j - 1];
        } else {
          assert r[j] == ys[j - 1];
          assert key(ys[0]) >= key(ys[j - 1]);
        }
      }
    }
  }

  lemma {:induction false} InsertWithKey<T>(x: T, ys: seq<T>, key: T -> int, v: int)
    requires SortedDesc(ys, key)
    ensures WithKey(Insert(x, ys, key), key, v) == WithKey(ys, key, v) + (if key(x) == v then [x] else [])
    decreases |ys|
  {
    if ys == [] {
      assert Insert(x, ys, key)[..0] == [];
    } else if key(ys[0]) >= key(x) {
      SortedTail(ys, key);
      InsertWithKey(x, ys[1..], key, v);
      InsertWithKeyAfter(x, ys, key, v);
    } else {
      InsertWithKeyBefore(x, ys, key, v);
    }
  }

  lemma SortedTail<T>(ys: seq<T>, key: T -> int)
    requires ys != [] && SortedDesc(ys, key)
    ensures SortedDesc(ys[1..], key)
  {
    forall i, j | 0 <= i < j < |ys| - 1 ensures key(ys[1..][i]) >= key(ys[1..][j]) {
      assert ys[1..][i] == ys[i + 1] && ys[1..][j] == ys[j + 1];
    }
  }

  /** `x` goes past the head `ys[0]`: the head comes first on both sides. */
  lemma InsertWithKeyAfter<T>(x: T, ys: seq<T>, key: T -> int, v: int)
    requires ys != [] && key(ys[0]) >= key(x)
    requires WithKey(Insert(x, ys[1..], key), key, v) == WithKey(ys[1..], key, v) + (if key(x) == v then [x] else [])
    ensures WithKey(Insert(x, ys, key), key, v) == WithKey(ys, key, v) + (if key(x) == v then [x] else [])
  {
    assert ys == [ys[0]] + ys[1..];
    WithKeyCons(ys[0], Insert(x, ys[1..], key), key, v);
    WithKeyCons(ys[0], ys[1..], key, v);
  }

  /** `x` goes in front: every key of `ys` is below `key(x)`, so none equals `v`
      when `key(x)` does. */
  lemma InsertWithKeyBefore<T>(x: T, ys: seq<T>, key: T -> int, v: int)
    requires SortedDesc(ys, key) && ys != [] && key(ys[0]) < key(x)
    ensures WithKey(Insert(x, ys, key), key, v) == WithKey(ys, key, v) + (if key(x) == v then [x] else [])
  {
    WithKeyCons(x, ys, key, v);
    if key(x) == v {
      forall i | 0 <= i < |ys| ensures key(ys[i]) != v {
        if i > 0 { assert key(ys[0]) >= key(ys[i]); }
      }
      WithKeyNone(ys, key, v);
    }
  }

  /** The sort orders by non-increasing key, keeps every element, and keeps the
      elements of each key value in their original order. */
  lemma {:induction false} SortDescSpec<T>(xs: seq<T>, key: T -> int)
    ensures SortedDesc(SortDesc(xs, key), key)
    ensures multiset(SortDesc(xs, key)) == multiset(xs)
    ensures forall v :: WithKey(SortDesc(xs, key), key, v) == WithKey(xs, key, v)
    decreases |xs|
  {
    if xs != [] {
      var n := |xs| - 1;
      SortDescSpec(xs[..n], key);
      var sorted := SortDesc(xs[..n], key);
      InsertSorted(xs[n], sorted, key);
      InsertMultiset(xs[n], sorted, key);
      forall v ensures WithKey(SortDesc(xs, key), key, v) == WithKey(xs, key, v) {
        InsertWithKey(xs[n], sorted, key, v);
      }
      assert xs == xs[..n] + [xs[n]];
    }
  }

  /** The first `m` elements of a list sorted by non-increasing key: an element
      left out has a key no greater than any taken, and only when `m` are taken. */
  lemma TakeBest<T>(sorted: seq<T>, key: T -> int, m: nat, x: T)
    requires SortedDesc(sorted, key) && x in sorted
    ensures var r := if m < |sorted| then sorted[..m] else sorted;
            x in r || (|r| == m && forall y | y in r :: key(y) >= key(x))
  {
    var j :| 0 <= j < |sorted| && sorted[j] == x;
    if m < |sorted| {
      if j < m {
        assert sorted[..m][j] == x;
      } else {
        forall y | y in sorted[..m] ensures key(y) >= key(x) {
          var q :| 0 <= q < m && sorted[..m][q] == y;
          assert sorted[q] == y;
        }
      }
    }
  }
}
