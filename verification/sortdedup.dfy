/**
  The "sort ascending, then keep each value the first time it is seen"
  idiom that builds both the list of identifier codes of a state and the
  list of states offered by the selector.
 */
module SortDedup {
  import opened StrOrder

  /** Ascending with repeats allowed: what `sort_values(ascending=True)` yields. */
  predicate Sorted(xs: seq<string>) {
    forall i, j :: 0 <= i < j < |xs| ==> AtMost(xs[i], xs[j])
  }

  /** Strictly ascending: sorted and free of repeats. */
  predicate Ascending(xs: seq<string>) {
    forall i, j :: 0 <= i < j < |xs| ==> Below(xs[i], xs[j])
  }

  predicate NoDuplicates(xs: seq<string>) {
    forall i, j :: 0 <= i < j < |xs| ==> xs[i] != xs[j]
  }

  function Elements(xs: seq<string>): set<string> {
    set x | x in xs
  }

  lemma AscendingHasNoDuplicates(xs: seq<string>)
    requires Ascending(xs)
    ensures NoDuplicates(xs)
  {
    forall i, j | 0 <= i < j < |xs|
      ensures xs[i] != xs[j]
    {
      BelowIrreflexive(xs[i]);
    }
  }

  /** Inserts `x` into a sorted sequence, before the first element not below it. */
  function Insert(x: string, xs: seq<string>): (r: seq<string>)
    requires Sorted(xs)
    ensures Sorted(r)
    ensures multiset(r) == multiset(xs) + multiset{x}
  {
    if |xs| == 0 then [x]
    else if AtMost(x, xs[0]) then
      assert forall j :: 0 < j < |xs| ==> AtMost(x, xs[j]) by {
        forall j | 0 < j < |xs| ensures AtMost(x, xs[j]) {
          AtMostTransitive(x, xs[0], xs[j]);
        }
      }
      [x] + xs
    else
      NotBelow(x, xs[0]);
      assert xs == [xs[0]] + xs[1..];
      var tail := Insert(x, xs[1..]);
      forall y | y in multiset(tail)
        ensures AtMost(xs[0], y)
      {
        if y != x {
          assert y in multiset(xs[1..]);
        }
      }
      SortedCons(xs[0], tail);
      [xs[0]] + tail
  }

  lemma SortedCons(h: string, t: seq<string>)
    requires Sorted(t)
    requires forall y :: y in multiset(t) ==> AtMost(h, y)
    ensures Sorted([h] + t)
  {
    forall j | 0 <= j < |t|
      ensures AtMost(h, t[j])
    {
      assert t[j] in multiset(t);
    }
  }

  /** The ascending sort of `sort_values(ascending=True)`, as an insertion sort. */
  function Sort(xs: seq<string>): (r: seq<string>)
    ensures Sorted(r)
    ensures multiset(r) == multiset(xs)
  {
    if |xs| == 0 then []
    else
      assert xs == [xs[0]] + xs[1..];
      Insert(xs[0], Sort(xs[1..]))
  }

  /** The first element of a sorted sequence is at most every element. */
  lemma SortedHeadLeast(a: seq<string>, y: string)
    requires Sorted(a) && y in multiset(a)
    ensures |a| > 0 && AtMost(a[0], y)
  {
    var k :| 0 <= k < |a| && a[k] == y;
    if k > 0 {
      assert AtMost(a[0], a[k]);
    }
  }

  lemma SortedTail(a: seq<string>)
    requires Sorted(a) && |a| > 0
    ensures Sorted(a[1..])
    ensures multiset(a[1..]) == multiset(a) - multiset{a[0]}
  {
    assert a == [a[0]] + a[1..];
  }

  /**
    A sorted rearrangement is unique, so the model's insertion sort gives the
    same sequence as whatever algorithm the data-frame library uses.
   */
  lemma {:induction false} SortedPermutationUnique(a: seq<string>, b: seq<string>)
    requires Sorted(a) && Sorted(b)
    requires multiset(a) == multiset(b)
    ensures a == b
    decreases |a|
  {
    if |a| > 0 {
      assert a[0] in multiset(b);
      SortedHeadLeast(b, a[0]);
      SortedHeadLeast(a, b[0]);
      AtMostAntisymmetric(a[0], b[0]);
      SortedTail(a);
      SortedTail(b);
      SortedPermutationUnique(a[1..], b[1..]);
      assert a == [a[0]] + a[1..] && b == [b[0]] + b[1..];
    } else {
      assert |b| == |multiset(b)| == 0;
    }
  }

  lemma SortIsTheSortedPermutation(xs: seq<string>, ys: seq<string>)
    ensures ys == Sort(xs) <==> Sorted(ys) && multiset(ys) == multiset(xs)
  {
    if Sorted(ys) && multiset(ys) == multiset(xs) {
      SortedPermutationUnique(ys, Sort(xs));
    }
  }

  /**
    Walks `xs` from the left and appends each value not already collected,
    the way the `if i not in unique_data: unique_data.append(i)` loop does.
   */
  function Dedup(xs: seq<string>): (r: seq<string>)
    ensures Elements(r) == Elements(xs)
    ensures NoDuplicates(r)
  {
    if |xs| == 0 then []
    else
      var d := Dedup(xs[..|xs| - 1]);
      var x := xs[|xs| - 1];
      assert Elements(xs) == Elements(xs[..|xs| - 1]) + {x} by {
        assert xs == xs[..|xs| - 1] + [x];
      }
      if x in d then d
      else
        assert Elements(d + [x]) == Elements(d) + {x};
        d + [x]
  }

  /** On sorted input the collected values come out strictly ascending. */
  lemma {:induction false} DedupOfSortedAscending(xs: seq<string>)
    requires Sorted(xs)
    ensures Ascending(Dedup(xs))
    decreases |xs|
  {
    if |xs| > 0 {
      var init := xs[..|xs| - 1];
      var x := xs[|xs| - 1];
      assert Sorted(init);
      DedupOfSortedAscending(init);
      var d := Dedup(init);
      if x !in d {
        forall i | 0 <= i < |d|
          ensures Below(d[i], x)
        {
          assert d[i] in Elements(init);
          var k :| 0 <= k < |init| && init[k] == d[i];
          assert AtMost(xs[k], xs[|xs| - 1]);
        }
      }
    }
  }

  /** The distinct values of `xs` in ascending order. */
  function SortedDistinct(xs: seq<string>): seq<string> {
    Dedup(Sort(xs))
  }

  lemma ElementsEmpty(xs: seq<string>)
    ensures Elements(xs) == {} ==> |xs| == 0
  {
    if |xs| > 0 {
      assert xs[0] in Elements(xs);
    }
  }

  /** Two strictly ascending sequences holding the same values are equal. */
  lemma {:induction false} AscendingUnique(a: seq<string>, b: seq<string>)
    requires Ascending(a) && Ascending(b)
    requires Elements(a) == Elements(b)
    ensures a == b
    decreases |a|
  {
    ElementsEmpty(a);
    ElementsEmpty(b);
    if |a| > 0 {
      assert a[0] in Elements(b) && |b| > 0;
      var k :| 0 <= k < |b| && b[k] == a[0];
      assert b[0] in Elements(a);
      var m :| 0 <= m < |a| && a[m] == b[0];
      if k > 0 {
        assert Below(b[0], a[0]);
        if m > 0 {
          BelowAsymmetric(a[0], a[m]);
        } else {
          BelowIrreflexive(a[0]);
        }
        assert false;
      }
      assert a == [a[0]] + a[1..] && b == [b[0]] + b[1..];
      AscendingHasNoDuplicates(a);
      AscendingHasNoDuplicates(b);
      assert Elements(a[1..]) == Elements(a) - {a[0]};
      assert Elements(b[1..]) == Elements(b) - {b[0]};
      AscendingUnique(a[1..], b[1..]);
    }
  }

  /**
    `SortedDistinct(xs)` is THE strictly ascending sequence of the values of
    `xs`: nothing missing, nothing extra, nothing repeated, in order.
   */
  lemma SortedDistinctCharacterised(xs: seq<string>, u: seq<string>)
    ensures u == SortedDistinct(xs) <==> Ascending(u) && Elements(u) == Elements(xs)
  {
    var s := Sort(xs);
    DedupOfSortedAscending(s);
    assert Elements(s) == Elements(xs) by {
      assert forall x :: x in s <==> x in multiset(s);
      assert forall x :: x in xs <==> x in multiset(xs);
    }
    if Ascending(u) && Elements(u) == Elements(xs) {
      AscendingUnique(u, Dedup(s));
    }
  }

  /**
    The loop shape of Final.py:126-132 and 236-242: sort the values, then walk
    them and append each one not yet in the list.
   */
  method SortUnique(values: seq<string>) returns (unique: seq<string>)
    ensures Ascending(unique)
    ensures Elements(unique) == Elements(values)
  {
    var data := Sort(values);
    unique := [];
    var k := 0;
    while k < |data|
      invariant 0 <= k <= |data|
      invariant unique == Dedup(data[..k])
    {
      assert data[..k + 1][..k] == data[..k];
      if data[k] !in unique {
        unique := unique + [data[k]];
      }
      k := k + 1;
    }
    assert data[..|data|] == data;
    SortedDistinctCharacterised(values, unique);
  }
}
