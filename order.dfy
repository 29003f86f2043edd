/**
 * Column order of the rendered table: the keys of the first record, taken
 * in hash-map iteration order and then sorted with `sort_by(|a, b| b.cmp(a))`,
 * that is in descending byte-wise lexicographic order.
 */
module KeyOrder {
  import opened Utf8Text

  predicate Distinct(ks: seq<Bytes>) {
    forall i, j :: 0 <= i < j < |ks| ==> ks[i] != ks[j]
  }

  /** `ks` lists every element of `s` exactly once, in some order. */
  ghost predicate Enumerates(ks: seq<Bytes>, s: set<Bytes>) {
    Distinct(ks) && forall k :: k in ks <==> k in s
  }

  predicate StrictlyDescending(ks: seq<Bytes>) {
    forall i, j :: 0 <= i < j < |ks| ==> Below(ks[j], ks[i])
  }

  /** What a sort with the comparator `b.cmp(a)` promises: no element is
      below one that comes after it. */
  predicate NonIncreasing(ks: seq<Bytes>) {
    forall i, j :: 0 <= i < j < |ks| ==> !Below(ks[i], ks[j])
  }

  /** `m` is in `s` and every other element of `s` is below it. */
  predicate IsGreatest(m: Bytes, s: set<Bytes>) {
    m in s && forall x :: x in s && x != m ==> Below(x, m)
  }

  lemma {:induction false} GreatestExists(s: set<Bytes>)
    requires s != {}
    ensures exists m :: IsGreatest(m, s)
    decreases |s|
  {
    var y :| y in s;
    if s == {y} {
      assert IsGreatest(y, s);
    } else {
      var rest := s - {y};
      GreatestExists(rest);
      var m :| IsGreatest(m, rest);
      BelowTotal(y, m);
      if Below(y, m) {
        assert IsGreatest(m, s);
      } else {
        forall x | x in s && x != y
          ensures Below(x, y)
        {
          if x != m {
            BelowTransitive(x, m, y);
          }
        }
        assert IsGreatest(y, s);
      }
    }
  }

  ghost function Greatest(s: set<Bytes>): (m: Bytes)
    requires s != {}
    ensures m in s && forall x :: x in s && x != m ==> Below(x, m)
  {
    GreatestExists(s);
    var m :| IsGreatest(m, s);
    m
  }

  /** The column order the renderer fixes for a key set: repeatedly the
      greatest remaining key. */
  ghost function ColumnOrder(s: set<Bytes>): seq<Bytes>
    decreases |s|
  {
    if s == {} then []
    else
      var m := Greatest(s);
      [m] + ColumnOrder(s - {m})
  }

  /** The column order lists every key once, in strictly descending order. */
  lemma {:induction false} ColumnOrderSorted(s: set<Bytes>)
    ensures StrictlyDescending(ColumnOrder(s))
    ensures forall k :: k in ColumnOrder(s) <==> k in s
    ensures |ColumnOrder(s)| == |s|
    decreases |s|
  {
    if s != {} {
      var m := Greatest(s);
      var rest := ColumnOrder(s - {m});
      ColumnOrderSorted(s - {m});
      forall j | 0 <= j < |rest|
        ensures Below(rest[j], m)
      {
        assert rest[j] in s - {m};
      }
      assert ColumnOrder(s) == [m] + rest;
    }
  }

  lemma {:induction false} DescendingIsDistinct(ks: seq<Bytes>)
    requires StrictlyDescending(ks)
    ensures Distinct(ks)
  {
    forall i, j | 0 <= i < j < |ks|
      ensures ks[i] != ks[j]
    {
      if ks[i] == ks[j] {
        BelowIrreflexive(ks[i]);
      }
    }
  }

  lemma HeadIsGreatest(ks: seq<Bytes>, s: set<Bytes>)
    requires StrictlyDescending(ks) && ks != []
    requires forall k :: k in ks <==> k in s
    ensures ks[0] in s && Greatest(s) == ks[0]
  {
    assert ks[0] in s;
    var m := Greatest(s);
    if m != ks[0] {
      var j :| 0 <= j < |ks| && ks[j] == m;
      assert j != 0;
      BelowAsymmetric(m, ks[0]);
      assert false;
    }
  }

  /** Dropping the head of a strictly descending listing of `s` leaves a
      strictly descending listing of the rest of `s`. */
  lemma TailStep(ks: seq<Bytes>, s: set<Bytes>)
    requires StrictlyDescending(ks) && ks != []
    requires forall k :: k in ks <==> k in s
    ensures StrictlyDescending(ks[1..])
    ensures forall k :: k in ks[1..] <==> k in s - {ks[0]}
  {
    DescendingIsDistinct(ks);
    forall k
      ensures k in ks[1..] <==> k in s - {ks[0]}
    {
      if k in ks[1..] {
        var j :| 0 <= j < |ks[1..]| && ks[1..][j] == k;
        assert ks[j + 1] == k;
      }
      if k in s && k != ks[0] {
        var j :| 0 <= j < |ks| && ks[j] == k;
        assert ks[1..][j - 1] == k;
      }
    }
  }

  /** A key set has only one strictly descending listing, so the column order
      does not depend on the order the keys were enumerated in. */
  lemma {:induction false} ColumnOrderUnique(ks: seq<Bytes>, s: set<Bytes>)
    requires StrictlyDescending(ks)
    requires forall k :: k in ks <==> k in s
    ensures ks == ColumnOrder(s)
    decreases |ks|
  {
    if ks == [] {
      assert s == {};
    } else {
      var m, tail := ks[0], ks[1..];
      HeadIsGreatest(ks, s);
      TailStep(ks, s);
      ColumnOrderUnique(tail, s - {m});
      assert ks == [m] + tail;
    }
  }

  lemma {:induction false} EnumerationLength(ks: seq<Bytes>, s: set<Bytes>)
    requires Enumerates(ks, s)
    ensures |ks| == |s|
    decreases |ks|
  {
    if ks != [] {
      var init, last := ks[..|ks| - 1], ks[|ks| - 1];
      assert Enumerates(init, s - {last}) by {
        forall k ensures k in init <==> k in s - {last} {
          if k in init {
            var j :| 0 <= j < |init| && init[j] == k;
            assert ks[j] == k;
          }
          if k in s && k != last {
            var j :| 0 <= j < |ks| && ks[j] == k;
            assert init[j] == k;
          }
        }
      }
      EnumerationLength(init, s - {last});
    } else {
      assert s == {};
    }
  }

  lemma {:induction false} DistinctMultiplicity(ks: seq<Bytes>, x: Bytes)
    requires Distinct(ks)
    ensures multiset(ks)[x] <= 1
    decreases |ks|
  {
    if ks != [] {
      var init, last := ks[..|ks| - 1], ks[|ks| - 1];
      assert ks == init + [last];
      DistinctMultiplicity(init, x);
      if x == last {
        assert x !in init;
      }
    }
  }

  lemma RepeatMultiplicity(ks: seq<Bytes>, i: nat, j: nat)
    requires i < j < |ks| && ks[i] == ks[j]
    ensures multiset(ks)[ks[i]] >= 2
  {
    assert ks == ks[..j] + [ks[j]] + ks[j + 1..];
    assert ks[i] in ks[..j];
  }

  /** Two listings of the same set, each without repeats, hold the same
      elements the same number of times. */
  lemma EnumerationsArePermutations(a: seq<Bytes>, b: seq<Bytes>, s: set<Bytes>)
    requires Enumerates(a, s) && Enumerates(b, s)
    ensures multiset(a) == multiset(b)
  {
    forall x
      ensures multiset(a)[x] == multiset(b)[x]
    {
      DistinctMultiplicity(a, x);
      DistinctMultiplicity(b, x);
      assert x in a <==> x in b;
    }
  }

  /** The column order is itself a listing of its key set. */
  lemma ColumnOrderEnumerates(s: set<Bytes>)
    ensures Enumerates(ColumnOrder(s), s)
  {
    ColumnOrderSorted(s);
    DescendingIsDistinct(ColumnOrder(s));
  }

  /** The sorted keys of a record are its key set in column order. */
  lemma SortedEnumeration(order: seq<Bytes>, keys: seq<Bytes>, s: set<Bytes>)
    requires Enumerates(order, s)
    requires multiset(keys) == multiset(order) && NonIncreasing(keys)
    ensures keys == ColumnOrder(s)
  {
    forall i, j | 0 <= i < j < |keys|
      ensures Below(keys[j], keys[i])
    {
      if keys[i] == keys[j] {
        RepeatMultiplicity(keys, i, j);
        DistinctMultiplicity(order, keys[i]);
      }
      BelowTotal(keys[i], keys[j]);
    }
    assert forall k :: k in keys <==> k in multiset(order);
    ColumnOrderUnique(keys, s);
  }

  /** `m.keys()`: the keys of a hash map in an unspecified order, modelled
      as an arbitrary choice of the next key at each step. */
  method IterationOrder<V>(m: map<Bytes, V>) returns (ks: seq<Bytes>)
    ensures Enumerates(ks, m.Keys)
  {
    ks := [];
    var rest := m.Keys;
    while rest != {}
      invariant rest <= m.Keys
      invariant Distinct(ks)
      invariant forall k :: k in ks ==> k in m && k !in rest
      invariant forall k :: k in m ==> k in ks || k in rest
      decreases |rest|
    {
      var k :| k in rest;
      ks := ks + [k];
      rest := rest - {k};
    }
  }

  /** Inserts `x` after every element not below it, as a stable sort with
      the comparator `b.cmp(a)` places it. */
  method InsertDescending(ys: seq<Bytes>, x: Bytes) returns (zs: seq<Bytes>)
    requires NonIncreasing(ys)
    ensures NonIncreasing(zs)
    ensures multiset(zs) == multiset(ys) + multiset{x}
  {
    var i := 0;
    while i < |ys| && !Below(ys[i], x)
      invariant 0 <= i <= |ys|
      invariant forall j :: 0 <= j < i ==> !Below(ys[j], x)
    {
      i := i + 1;
    }
    zs := ys[..i] + [x] + ys[i..];
    forall j | i <= j < |ys|
      ensures !Below(x, ys[j])
    {
      BelowAsymmetric(ys[i], x);
      if j > i && Below(x, ys[j]) {
        BelowTransitive(ys[i], x, ys[j]);
      }
    }
    assert ys == ys[..i] + ys[i..];
  }

  /** `keys.sort_by(|a, b| b.cmp(a))`. */
  method SortDescending(xs: seq<Bytes>) returns (ys: seq<Bytes>)
    ensures NonIncreasing(ys)
    ensures multiset(ys) == multiset(xs)
  {
    ys := [];
    for n := 0 to |xs|
      invariant NonIncreasing(ys)
      invariant multiset(ys) == multiset(xs[..n])
    {
      ys := InsertDescending(ys, xs[n]);
      assert xs[..n + 1] == xs[..n] + [xs[n]];
    }
    assert xs[..|xs|] == xs;
  }
}
