/** Python's ordering of `str` values: code point by code point, a proper
    prefix before the longer string (what `sorted` uses on a list of
    strings). */
module StringOrder {

  predicate Less(a: string, b: string)
    decreases |a|
  {
    if a == [] then b != []
    else if b == [] then false
    else if a[0] != b[0] then a[0] < b[0]
    else Less(a[1..], b[1..])
  }

  lemma {:induction false} Irreflexive(a: string)
    ensures !Less(a, a)
  {
    if a != [] {
      Irreflexive(a[1..]);
    }
  }

  lemma {:induction false} Total(a: string, b: string)
    ensures a == b || Less(a, b) || Less(b, a)
  {
    if a != [] && b != [] && a[0] == b[0] {
      Total(a[1..], b[1..]);
      if a[1..] == b[1..] {
        assert a == [a[0]] + a[1..] && b == [b[0]] + b[1..];
      }
    }
  }

  lemma {:induction false} Transitive(a: string, b: string, c: string)
    requires Less(a, b) && Less(b, c)
    ensures Less(a, c)
  {
    if a != [] && b != [] && c != [] && a[0] == b[0] && b[0] == c[0] {
      Transitive(a[1..], b[1..], c[1..]);
    }
  }

  /** Ascending with no repeats: what `sorted(list(s))` gives for a set `s`. */
  ghost predicate StrictlySorted(xs: seq<string>) {
    forall i, j | 0 <= i < j < |xs| :: Less(xs[i], xs[j])
  }

  /** A strictly ascending list repeats nothing. */
  lemma StrictlySortedNoDuplicates(xs: seq<string>)
    requires StrictlySorted(xs)
    ensures forall i, j | 0 <= i < j < |xs| :: xs[i] != xs[j]
  {
    forall i, j | 0 <= i < j < |xs| ensures xs[i] != xs[j] {
      Irreflexive(xs[i]);
    }
  }

  /** `sorted(list(found))`: the set's elements in ascending order.  The
      set is listed in whatever order it iterates; the sorted result does
      not depend on that order. */
  method SortedList(found: set<string>) returns (r: seq<string>)
    ensures StrictlySorted(r)
    ensures forall s :: s in r <==> s in found
    ensures |r| == |found|
  {
    r := [];
    var rest := found;
    while rest != {}
      invariant rest <= found
      invariant StrictlySorted(r)
      invariant forall s :: s in r <==> s in found && s !in rest
      invariant |r| + |rest| == |found|
      decreases rest
    {
      var x :| x in rest;
      var k := 0;
      while k < |r| && Less(r[k], x)
        invariant 0 <= k <= |r|
        invariant forall j | 0 <= j < k :: Less(r[j], x)
      {
        k := k + 1;
      }
      if k < |r| {
        Total(r[k], x);
      }
      ghost var old_r := r;
      r := r[..k] + [x] + r[k..];
      forall i, j | 0 <= i < j < |r| ensures Less(r[i], r[j]) {
        if j < k {
          assert r[i] == old_r[i] && r[j] == old_r[j];
        } else if j == k {
          assert r[i] == old_r[i];
        } else if i == k {
          assert r[j] == old_r[j - 1];
          if j - 1 > k {
            Transitive(x, old_r[k], old_r[j - 1]);
          }
        } else if i < k {
          assert r[i] == old_r[i] && r[j] == old_r[j - 1];
        } else {
          assert r[i] == old_r[i - 1] && r[j] == old_r[j - 1];
        }
      }
      rest := rest - {x};
    }
  }
}
