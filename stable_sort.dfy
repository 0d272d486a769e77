/** The stable descending sort that Python performs for
    `xs.sort(key=key, reverse=True)` and `sorted(..., reverse=True)`:
    elements with equal keys keep their original relative order even though
    the order is reversed (Python does not reverse a stable ascending sort). */
module StableSort {

  /** Inserts `x` in front of the first element whose key is not larger, so
      that `x` precedes every element of `ys` with the same key. */
  function Insert<T>(x: T, ys: seq<T>, key: T -> int): (r: seq<T>)
    ensures |r| == |ys| + 1
  {
    if ys == [] || key(ys[0]) <= key(x) then [x] + ys
    else [ys[0]] + Insert(x, ys[1..], key)
  }

  /** Insertion sort, descending by `key`: the result is as long as the
      input and its keys do not increase (`SortDescPermutes` shows it holds
      the same elements). */
  function SortDesc<T>(xs: seq<T>, key: T -> int): (r: seq<T>)
    ensures |r| == |xs|
    ensures SortedDesc(r, key)
  {
    if xs == [] then []
    else
      var rest := SortDesc(xs[1..], key);
      InsertSorted(xs[0], rest, key);
      Insert(xs[0], rest, key)
  }

  ghost predicate SortedDesc<T>(xs: seq<T>, key: T -> int) {
    forall i, j | 0 <= i < j < |xs| :: key(xs[i]) >= key(xs[j])
  }

  /** The subsequence of the elements whose key is `k`. */
  function WithKey<T>(xs: seq<T>, key: T -> int, k: int): (r: seq<T>)
    ensures |r| <= |xs|
  {
    if xs == [] then []
    else (if key(xs[0]) == k then [xs[0]] else []) + WithKey(xs[1..], key, k)
  }

  lemma {:induction false} WithKeyAppend<T>(a: seq<T>, b: seq<T>, key: T -> int, k: int)
    ensures WithKey(a + b, key, k) == WithKey(a, key, k) + WithKey(b, key, k)
  {
    if a != [] {
      assert (a + b)[1..] == a[1..] + b;
      WithKeyAppend(a[1..], b, key, k);
    } else {
      assert a + b == b;
    }
  }

  lemma {:induction false} InsertPermutes<T>(x: T, ys: seq<T>, key: T -> int)
    ensures multiset(Insert(x, ys, key)) == multiset([x] + ys)
  {
    if ys != [] && key(ys[0]) > key(x) {
      InsertPermutes(x, ys[1..], key);
      assert ys == [ys[0]] + ys[1..];
    }
  }

  /** Inserting keeps every key at most `b` when all were. */
  lemma {:induction false} InsertBounded<T>(x: T, ys: seq<T>, key: T -> int, b: int)
    requires key(x) <= b && forall i | 0 <= i < |ys| :: key(ys[i]) <= b
    ensures forall i | 0 <= i < |Insert(x, ys, key)| :: key(Insert(x, ys, key)[i]) <= b
  {
    if ys != [] && key(ys[0]) > key(x) {
      InsertBounded(x, ys[1..], key, b);
      assert forall i | 0 <= i < |ys| - 1 :: ys[1..][i] == ys[i + 1];
    }
  }

  lemma {:induction false} InsertSorted<T>(x: T, ys: seq<T>, key: T -> int)
    requires SortedDesc(ys, key)
    ensures SortedDesc(Insert(x, ys, key), key)
  {
    if ys != [] && key(ys[0]) > key(x) {
      var rest := ys[1..];
      var tail := Insert(x, rest, key);
      assert SortedDesc(rest, key) && forall i | 0 <= i < |rest| :: key(rest[i]) <= key(ys[0]) by {
        assert forall i | 0 <= i < |rest| :: rest[i] == ys[i + 1];
      }
      InsertSorted(x, rest, key);
      InsertBounded(x, rest, key, key(ys[0]));
      var r := [ys[0]] + tail;
      forall i, j | 0 <= i < j < |r| ensures key(r[i]) >= key(r[j]) {
        assert r[j] == tail[j - 1];
        if i > 0 {
          assert r[i] == tail[i - 1];
        }
      }
    }
  }

  lemma {:induction false} InsertStable<T>(x: T, ys: seq<T>, key: T -> int, k: int)
    ensures WithKey(Insert(x, ys, key), key, k) == WithKey([x] + ys, key, k)
  {
    if ys != [] && key(ys[0]) > key(x) {
      var y, rest := ys[0], ys[1..];
      var tail := Insert(x, rest, key);
      InsertStable(x, rest, key, k);
      var xk := if key(x) == k then [x] else [];
      var yk := if key(y) == k then [y] else [];
      assert ([y] + tail)[1..] == tail;
      assert WithKey([y] + tail, key, k) == yk + WithKey(tail, key, k);
      assert ([x] + rest)[1..] == rest;
      assert WithKey(tail, key, k) == xk + WithKey(rest, key, k);
      assert ([x] + ys)[1..] == ys;
      assert WithKey([x] + ys, key, k) == xk + WithKey(ys, key, k);
      assert WithKey(ys, key, k) == yk + WithKey(rest, key, k);
      assert xk == [] || yk == [];
    }
  }

  /** The sorted list holds the same elements, as many times each. */
  lemma {:induction false} SortDescPermutes<T>(xs: seq<T>, key: T -> int)
    ensures multiset(SortDesc(xs, key)) == multiset(xs)
  {
    if xs != [] {
      SortDescPermutes(xs[1..], key);
      InsertPermutes(xs[0], SortDesc(xs[1..], key), key);
      assert xs == [xs[0]] + xs[1..];
    }
  }

  /** Stability: the elements sharing any one key appear in their original
      order. */
  lemma {:induction false} SortDescStable<T>(xs: seq<T>, key: T -> int, k: int)
    ensures WithKey(SortDesc(xs, key), key, k) == WithKey(xs, key, k)
  {
    if xs != [] {
      var rest := SortDesc(xs[1..], key);
      SortDescStable(xs[1..], key, k);
      InsertStable(xs[0], rest, key, k);
      WithKeyAppend([xs[0]], rest, key, k);
      WithKeyAppend([xs[0]], xs[1..], key, k);
      assert xs == [xs[0]] + xs[1..];
    }
  }

  lemma {:induction false} SortDescNoDuplicates<T>(xs: seq<T>, key: T -> int)
    requires forall i, j | 0 <= i < j < |xs| :: xs[i] != xs[j]
    ensures forall i, j | 0 <= i < j < |SortDesc(xs, key)| :: SortDesc(xs, key)[i] != SortDesc(xs, key)[j]
  {
    if xs != [] {
      var rest := SortDesc(xs[1..], key);
      SortDescNoDuplicates(xs[1..], key);
      SortDescPermutes(xs[1..], key);
      assert xs[0] !in xs[1..] by {
        forall j | 0 <= j < |xs[1..]| ensures xs[1..][j] != xs[0] {
          assert xs[1..][j] == xs[1 + j];
        }
      }
      assert xs[0] !in multiset(rest);
      InsertNoDuplicates(xs[0], rest, key);
    }
  }

  lemma {:induction false} InsertNoDuplicates<T>(x: T, ys: seq<T>, key: T -> int)
    requires x !in ys
    requires forall i, j | 0 <= i < j < |ys| :: ys[i] != ys[j]
    ensures forall i, j | 0 <= i < j < |Insert(x, ys, key)| :: Insert(x, ys, key)[i] != Insert(x, ys, key)[j]
  {
    if ys != [] && key(ys[0]) > key(x) {
      var tail := Insert(x, ys[1..], key);
      InsertNoDuplicates(x, ys[1..], key);
      InsertPermutes(x, ys[1..], key);
      assert ys[0] !in [x] + ys[1..] by {
        forall j | 0 <= j < |ys[1..]| ensures ys[1..][j] != ys[0] {
          assert ys[1..][j] == ys[1 + j];
        }
      }
      assert ys[0] !in multiset(tail);
      var r := [ys[0]] + tail;
      forall i, j | 0 <= i < j < |r| ensures r[i] != r[j] {
        if i > 0 {
          assert r[i] == tail[i - 1] && r[j] == tail[j - 1];
        } else {
          assert r[j] == tail[j - 1];
        }
      }
    }
  }

  /** A prefix of a sorted list is sorted, and nothing after it has a larger
      key than anything in it. */
  lemma PrefixOfSorted<T>(s: seq<T>, r: seq<T>, key: T -> int)
    requires SortedDesc(s, key) && r <= s
    ensures SortedDesc(r, key)
    ensures forall i, j | 0 <= i < |r| <= j < |s| :: key(r[i]) >= key(s[j])
  {
    forall i, j | 0 <= i < |r| <= j < |s| ensures key(r[i]) >= key(s[j]) {
      assert r[i] == s[i];
    }
  }

  /** A prefix of the sorted sequence holds the largest keys: it is sorted,
      and nothing of the input left out of it has a larger key than any of
      its elements. */
  lemma PrefixOfSortIsTop<T>(xs: seq<T>, r: seq<T>, key: T -> int)
    requires r <= SortDesc(xs, key)
    ensures forall i | 0 <= i < |r| :: r[i] in xs
    ensures SortedDesc(r, key)
    ensures forall w, i | w in xs && w !in r && 0 <= i < |r| :: key(w) <= key(r[i])
  {
    var s := SortDesc(xs, key);
    SortDescPermutes(xs, key);
    PrefixOfSorted(s, r, key);
    forall i | 0 <= i < |r| ensures r[i] in xs {
      assert r[i] == s[i] && r[i] in multiset(s);
    }
    forall w, i | w in xs && w !in r && 0 <= i < |r| ensures key(w) <= key(r[i]) {
      assert w in multiset(s);
      var j :| 0 <= j < |s| && s[j] == w;
      assert j >= |r|;
    }
  }

  /** A prefix of the sorted sequence keeps, for each key, a prefix of the
      input's elements with that key, in input order. */
  lemma PrefixOfSortKeepsTies<T>(xs: seq<T>, r: seq<T>, key: T -> int, k: int)
    requires r <= SortDesc(xs, key)
    ensures WithKey(r, key, k) <= WithKey(xs, key, k)
  {
    var s := SortDesc(xs, key);
    SortDescStable(xs, key, k);
    assert s == r + s[|r|..];
    WithKeyAppend(r, s[|r|..], key, k);
  }
}
