/** Generic helpers for tables held as sequences of rows: the row filter behind
    a query set's `filter()`, a lookup behind `get()`, and a stable ordering
    behind `order_by()`. */
module Tables {

  datatype Option<T> = None | Some(value: T)

  /** The rows of `s` that satisfy `keep`, in table order. */
  function Filter<T(!new)>(s: seq<T>, keep: T -> bool): (r: seq<T>)
    ensures |r| <= |s|
    ensures forall x :: x in r <==> x in s && keep(x)
    ensures forall i :: 0 <= i < |r| ==> keep(r[i])
    decreases |s|
  {
    if s == [] then []
    else if keep(s[0]) then [s[0]] + Filter(s[1..], keep)
    else Filter(s[1..], keep)
  }

  /** `idx` lists, in increasing order, the positions in `s` of the rows of
      `r`: `r` is `s` with some rows left out and the rest in table order. */
  ghost predicate PicksInOrder<T>(idx: seq<nat>, r: seq<T>, s: seq<T>)
  {
    && |idx| == |r|
    && (forall k :: 0 <= k < |idx| ==> idx[k] < |s| && s[idx[k]] == r[k])
    && (forall k, l :: 0 <= k < l < |idx| ==> idx[k] < idx[l])
  }

  /** The positions `idx` one row further down the table. */
  function Shift(idx: seq<nat>): (r: seq<nat>)
    ensures |r| == |idx| && forall k :: 0 <= k < |idx| ==> r[k] == idx[k] + 1
  {
    seq(|idx|, k requires 0 <= k < |idx| => idx[k] + 1)
  }

  lemma ShiftPicks<T>(idx: seq<nat>, r: seq<T>, s: seq<T>)
    requires s != [] && PicksInOrder(idx, r, s[1..])
    ensures PicksInOrder(Shift(idx), r, s)
    ensures forall k :: 0 <= k < |idx| ==> Shift(idx)[k] > 0
  {
    forall k | 0 <= k < |idx| ensures s[Shift(idx)[k]] == r[k] {
      assert s[1..][idx[k]] == s[idx[k] + 1];
    }
  }

  lemma ConsPicks<T>(idx: seq<nat>, r: seq<T>, s: seq<T>)
    requires s != [] && PicksInOrder(idx, r, s)
    requires forall k :: 0 <= k < |idx| ==> idx[k] > 0
    ensures PicksInOrder([0] + idx, [s[0]] + r, s)
  {
    var j := [0] + idx;
    assert forall k :: 1 <= k < |j| ==> j[k] == idx[k - 1];
  }

  /** `filter()` keeps table order and skips no row it keeps: the result is
      picked out of `s` at increasing positions, and every position whose row
      satisfies `keep` is among them. */
  lemma {:induction false} FilterInOrder<T(!new)>(s: seq<T>, keep: T -> bool) returns (idx: seq<nat>)
    ensures PicksInOrder(idx, Filter(s, keep), s)
    ensures forall j :: 0 <= j < |s| && keep(s[j]) ==> j in idx
    decreases |s|
  {
    if s == [] {
      idx := [];
    } else {
      var rest := FilterInOrder(s[1..], keep);
      ShiftPicks(rest, Filter(s[1..], keep), s);
      var shifted := Shift(rest);
      forall j | 1 <= j < |s| && keep(s[j]) ensures j in shifted {
        assert s[1..][j - 1] == s[j];
        var k :| 0 <= k < |rest| && rest[k] == j - 1;
        assert shifted[k] == j;
      }
      if keep(s[0]) {
        ConsPicks(shifted, Filter(s[1..], keep), s);
        idx := [0] + shifted;
      } else {
        idx := shifted;
      }
    }
  }

  /** Filtering distributes over concatenation of tables. */
  lemma {:induction false} FilterConcat<T(!new)>(a: seq<T>, b: seq<T>, keep: T -> bool)
    ensures Filter(a + b, keep) == Filter(a, keep) + Filter(b, keep)
    decreases |a|
  {
    if a == [] {
      assert a + b == b;
    } else {
      assert (a + b)[0] == a[0];
      assert (a + b)[1..] == a[1..] + b;
      FilterConcat(a[1..], b, keep);
    }
  }

  /** A filter that keeps every row of `s` is the identity. */
  lemma {:induction false} FilterAll<T(!new)>(s: seq<T>, keep: T -> bool)
    requires forall x :: x in s ==> keep(x)
    ensures Filter(s, keep) == s
    decreases |s|
  {
    if s != [] {
      assert s[0] in s;
      assert forall x :: x in s[1..] ==> x in s;
      FilterAll(s[1..], keep);
      assert [s[0]] + s[1..] == s;
    }
  }

  /** The number of rows satisfying `keep` (a query set's `count()`). */
  function Count<T(!new)>(s: seq<T>, keep: T -> bool): (n: nat)
    ensures n <= |s|
    ensures n == 0 <==> forall x :: x in s ==> !keep(x)
  {
    var r := Filter(s, keep);
    assert r != [] ==> r[0] in r;
    |r|
  }

  /** One more row adds one to the count exactly when it satisfies `keep`. */
  lemma CountAppend<T(!new)>(s: seq<T>, x: T, keep: T -> bool)
    ensures Count(s + [x], keep) == Count(s, keep) + (if keep(x) then 1 else 0)
  {
    FilterConcat(s, [x], keep);
    assert [x][1..] == [];
  }

  /** The first row satisfying `matches`, if any. */
  function Find<T(!new)>(s: seq<T>, matches: T -> bool): (r: Option<T>)
    ensures r.Some? ==> r.value in s && matches(r.value)
    ensures r.None? <==> forall x :: x in s ==> !matches(x)
    decreases |s|
  {
    if s == [] then None
    else if matches(s[0]) then Some(s[0])
    else Find(s[1..], matches)
  }

  /** Every row passed through `f`, position by position (an `update()`). */
  function MapRows<T>(s: seq<T>, f: T -> T): (r: seq<T>)
    ensures |r| == |s|
    ensures forall i :: 0 <= i < |s| ==> r[i] == f(s[i])
  {
    seq(|s|, i requires 0 <= i < |s| => f(s[i]))
  }

  /** The set of keys the rows of `s` carry. */
  function Keys<T(==, !new), K>(s: seq<T>, key: T -> K): (ks: set<K>)
    ensures forall x :: x in s ==> key(x) in ks
    ensures forall k :: k in ks ==> exists x :: x in s && key(x) == k
  {
    set x | x in s :: key(x)
  }

  /** No two rows of `s` carry the same key (a unique column). */
  ghost predicate UniqueKeys<T, K>(s: seq<T>, key: T -> K)
  {
    forall i, j :: 0 <= i < j < |s| ==> key(s[i]) != key(s[j])
  }

  /** Filtering keeps a column unique. */
  lemma {:induction false} FilterUniqueKeys<T(!new), K>(s: seq<T>, keep: T -> bool, key: T -> K)
    requires UniqueKeys(s, key)
    ensures UniqueKeys(Filter(s, keep), key)
    decreases |s|
  {
    if s != [] {
      var rest := Filter(s[1..], keep);
      assert UniqueKeys(s[1..], key) by {
        forall i, j | 0 <= i < j < |s[1..]| ensures key(s[1..][i]) != key(s[1..][j]) {
          assert s[1..][i] == s[i + 1] && s[1..][j] == s[j + 1];
        }
      }
      FilterUniqueKeys(s[1..], keep, key);
      if keep(s[0]) {
        forall x | x in rest ensures key(x) != key(s[0]) {
          assert x in s[1..];
          var j :| 0 <= j < |s[1..]| && s[1..][j] == x;
          assert s[j + 1] == x;
        }
        var r := [s[0]] + rest;
        forall i, j | 0 <= i < j < |r| ensures key(r[i]) != key(r[j]) {
          if i == 0 {
            assert r[j] == rest[j - 1] && r[j] in rest;
          } else {
            assert r[i] == rest[i - 1] && r[j] == rest[j - 1];
          }
        }
      }
    }
  }

  /** Appending a row whose key no existing row carries keeps a column unique. */
  lemma AppendUniqueKeys<T(!new), K>(s: seq<T>, x: T, key: T -> K)
    requires UniqueKeys(s, key)
    requires key(x) !in Keys(s, key)
    ensures UniqueKeys(s + [x], key)
  {
    var r := s + [x];
    forall i, j | 0 <= i < j < |r| ensures key(r[i]) != key(r[j]) {
      if j == |s| {
        assert r[i] == s[i] && s[i] in s;
      } else {
        assert r[i] == s[i] && r[j] == s[j];
      }
    }
  }

  /** Appending a row adds its key to the set of keys. */
  lemma KeysAppend<T(!new), K>(s: seq<T>, x: T, key: T -> K)
    ensures Keys(s + [x], key) == Keys(s, key) + {key(x)}
  {
    var r := s + [x];
    forall k | k in Keys(r, key) ensures k in Keys(s, key) + {key(x)} {
      var y :| y in r && key(y) == k;
      if y != x {
        assert y in s;
      }
    }
  }

  /** A row update that leaves every key in place keeps a column unique. */
  lemma MapRowsUniqueKeys<T, K>(s: seq<T>, f: T -> T, key: T -> K)
    requires UniqueKeys(s, key)
    requires forall x :: x in s ==> key(f(x)) == key(x)
    ensures UniqueKeys(MapRows(s, f), key)
  {
    var r := MapRows(s, f);
    forall i, j | 0 <= i < j < |r| ensures key(r[i]) != key(r[j]) {
      assert s[i] in s && s[j] in s;
    }
  }

  /** A row update that leaves every key in place keeps the set of keys. */
  lemma MapRowsKeys<T(!new), K>(s: seq<T>, f: T -> T, key: T -> K)
    requires forall x :: x in s ==> key(f(x)) == key(x)
    ensures Keys(MapRows(s, f), key) == Keys(s, key)
  {
    var r := MapRows(s, f);
    forall k | k in Keys(s, key) ensures k in Keys(r, key) {
      var x :| x in s && key(x) == k;
      var i :| 0 <= i < |s| && s[i] == x;
      assert r[i] in r && key(r[i]) == k;
    }
    forall k | k in Keys(r, key) ensures k in Keys(s, key) {
      var x :| x in r && key(x) == k;
      var i :| 0 <= i < |r| && r[i] == x;
      assert s[i] in s;
    }
  }

  /** In a table whose column is unique, a row is the only one with its key. */
  lemma UniqueKeysFind<T, K>(s: seq<T>, key: T -> K, x: T, y: T)
    requires UniqueKeys(s, key)
    requires x in s && y in s && key(x) == key(y)
    ensures x == y
  {
    var i :| 0 <= i < |s| && s[i] == x;
    var j :| 0 <= j < |s| && s[j] == y;
    assert key(s[i]) == key(s[j]);
  }

  /** `s` is ordered by `key`, smallest first. */
  ghost predicate SortedBy<T>(s: seq<T>, key: T -> int)
  {
    forall i, j :: 0 <= i < j < |s| ==> key(s[i]) <= key(s[j])
  }

  /** A suffix of a sorted sequence is sorted. */
  lemma SortedTail<T>(s: seq<T>, key: T -> int)
    requires s != [] && SortedBy(s, key)
    ensures SortedBy(s[1..], key)
  {
    forall i, j | 0 <= i < j < |s[1..]| ensures key(s[1..][i]) <= key(s[1..][j]) {
      assert s[1..][i] == s[i + 1] && s[1..][j] == s[j + 1];
    }
  }

  /** Every row of a permutation of `x` and the tail of sorted `s` has a key
      at least as large as the head's, when `x`'s key is. */
  lemma HeadBelowAll<T>(x: T, s: seq<T>, tail: seq<T>, key: T -> int)
    requires s != [] && SortedBy(s, key) && key(s[0]) <= key(x)
    requires multiset(tail) == multiset(s[1..]) + multiset{x}
    ensures forall k :: 0 <= k < |tail| ==> key(s[0]) <= key(tail[k])
  {
    forall k | 0 <= k < |tail| ensures key(s[0]) <= key(tail[k]) {
      assert tail[k] in multiset(tail);
      if tail[k] != x {
        assert tail[k] in multiset(s[1..]);
        var j :| 0 <= j < |s[1..]| && s[1..][j] == tail[k];
        assert s[j + 1] == tail[k];
      }
    }
  }

  /** `x` placed before the first row of the sorted `s` whose key is at least
      its own, so ahead of every row with an equal key. */
  function InsertSorted<T>(x: T, s: seq<T>, key: T -> int): (r: seq<T>)
    requires SortedBy(s, key)
    ensures SortedBy(r, key)
    ensures multiset(r) == multiset(s) + multiset{x}
    ensures |r| == |s| + 1
    decreases |s|
  {
    if s == [] then [x]
    else if key(x) <= key(s[0]) then [x] + s
    else
      SortedTail(s, key);
      var tail := InsertSorted(x, s[1..], key);
      HeadBelowAll(x, s, tail, key);
      assert s == [s[0]] + s[1..];
      [s[0]] + tail
  }

  /** A stable insertion sort of `s` by ascending `key` (`order_by`): each
      row of `s`, last first, is inserted ahead of the rows of equal key
      already placed. The order among rows with equal keys, which a database
      leaves open, is therefore table order (SortByStable). */
  function SortBy<T>(s: seq<T>, key: T -> int): (r: seq<T>)
    ensures SortedBy(r, key)
    ensures multiset(r) == multiset(s)
    ensures |r| == |s|
    decreases |s|
  {
    if s == [] then []
    else
      assert s == [s[0]] + s[1..];
      InsertSorted(s[0], SortBy(s[1..], key), key)
  }

  /** A sorted permutation keeps exactly the rows it was given. */
  lemma SortByMembers<T>(s: seq<T>, key: T -> int)
    ensures forall x :: x in SortBy(s, key) <==> x in s
  {
    var r := SortBy(s, key);
    forall x ensures x in r <==> x in s {
      assert x in r <==> x in multiset(r);
      assert x in s <==> x in multiset(s);
    }
  }

  /** The test that a row's key is `k`. */
  function KeyIs<T(!new)>(key: T -> int, k: int): (r: T -> bool)
    ensures forall x :: r(x) <==> key(x) == k
  {
    x => key(x) == k
  }

  /** Inserting `x` into a sorted table puts it first among the rows of its
      own key and moves no other row of any key. */
  lemma {:induction false} InsertSortedKeys<T(!new)>(x: T, s: seq<T>, key: T -> int, k: int)
    requires SortedBy(s, key)
    ensures Filter(InsertSorted(x, s, key), KeyIs(key, k))
         == (if key(x) == k then [x] else []) + Filter(s, KeyIs(key, k))
    decreases |s|
  {
    var same := KeyIs(key, k);
    if s == [] {
    } else if key(x) <= key(s[0]) {
      FilterConcat([x], s, same);
    } else {
      SortedTail(s, key);
      InsertSortedKeys(x, s[1..], key, k);
      var tail := InsertSorted(x, s[1..], key);
      assert InsertSorted(x, s, key) == [s[0]] + tail;
      FilterConcat([s[0]], tail, same);
      assert s == [s[0]] + s[1..];
      FilterConcat([s[0]], s[1..], same);
    }
  }

  /** `SortBy` is stable: for every key, the rows with that key appear in the
      result in the order they have in the table. */
  lemma {:induction false} SortByStable<T(!new)>(s: seq<T>, key: T -> int, k: int)
    ensures Filter(SortBy(s, key), KeyIs(key, k)) == Filter(s, KeyIs(key, k))
    decreases |s|
  {
    if s != [] {
      var same := KeyIs(key, k);
      var head := if key(s[0]) == k then [s[0]] else [];
      var sorted := SortBy(s[1..], key);
      calc {
        Filter(SortBy(s, key), same);
      == { InsertSortedKeys(s[0], sorted, key, k); }
        head + Filter(sorted, same);
      == { SortByStable(s[1..], key, k); }
        head + Filter(s[1..], same);
      == { assert [s[0]][1..] == [];
           FilterConcat([s[0]], s[1..], same);
           assert s == [s[0]] + s[1..]; }
        Filter(s, same);
      }
    }
  }

  /** Two rows with equal keys stay in table order. */
  lemma TiesKeepTableOrder<T>(a: T, b: T, key: T -> int)
    requires key(a) == key(b)
    ensures SortBy([a, b], key) == [a, b]
  {
    assert [a, b][1..] == [b];
    assert SortBy([b], key) == [b];
  }
}
