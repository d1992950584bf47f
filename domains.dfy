/** The partitioning in `select_domains`: a chain of `N` guide atoms is
    split recursively at the position of least cost, as long as both parts
    keep `minsize` atoms and the cost stays within the cutoff; the sorted
    split points, framed by 0 and `N`, bound the domains. The cost of
    splitting at `i` (the reduction of the distance matrix blocks on either
    side of `i`) depends on `i` only and is a parameter. */
module Domains {
  import opened Common

  /** `min(gen(start, end))` as a position: the first position of
      `[lo, hi)` with the least cost, since the `(cost, i)` tuples compare
      by cost first and then by position. None when the range is empty
      (the `ValueError` of `min`). */
  function ArgMin(cost: int -> real, lo: int, hi: int): (r: Option<int>)
    ensures r.None? <==> lo >= hi
    ensures r.Some? ==> lo <= r.value < hi
    ensures r.Some? ==> forall i :: lo <= i < hi ==> cost(r.value) <= cost(i)
    ensures r.Some? ==> forall i :: lo <= i < r.value ==> cost(r.value) < cost(i)
    decreases hi - lo
  {
    if lo >= hi then None
    else
      var rest := ArgMin(cost, lo + 1, hi);
      if rest.None? || cost(lo) <= cost(rest.value) then Some(lo) else rest
  }

  /** The split of `[start, end)`, if any: the best position, provided its
      cost does not exceed the cutoff. */
  function Best(cost: int -> real, cutoff: real, minsize: nat, start: int, end: int): (r: Option<int>)
    ensures r.Some? ==> start + minsize <= r.value < end - minsize && cost(r.value) <= cutoff
  {
    var m := ArgMin(cost, start + minsize, end - minsize);
    if m.None? || cost(m.value) > cutoff then None else m
  }

  /** `gen_all(start, end)`: the `(cost, position)` pairs in the order the
      generator yields them, each split before those of its two parts. */
  function Splits(cost: int -> real, cutoff: real, minsize: nat, start: int, end: int): (r: seq<(real, int)>)
    requires minsize >= 1
    ensures forall k :: 0 <= k < |r| ==>
      start + minsize <= r[k].1 < end - minsize && r[k].0 == cost(r[k].1) && r[k].0 <= cutoff
    decreases end - start
  {
    var b := Best(cost, cutoff, minsize, start, end);
    if b.None? then []
    else
      var j := b.value;
      [(cost(j), j)] + Splits(cost, cutoff, minsize, start, j) + Splits(cost, cutoff, minsize, j, end)
  }

  /** The split positions in increasing order. */
  function InOrder(cost: int -> real, cutoff: real, minsize: nat, start: int, end: int): (r: seq<int>)
    requires minsize >= 1
    ensures forall k :: 0 <= k < |r| ==> start + minsize <= r[k] < end - minsize
    ensures forall k :: 0 <= k < |r| - 1 ==> r[k] + minsize <= r[k + 1]
    decreases end - start
  {
    var b := Best(cost, cutoff, minsize, start, end);
    if b.None? then []
    else
      var j := b.value;
      var left := InOrder(cost, cutoff, minsize, start, j);
      var right := InOrder(cost, cutoff, minsize, j, end);
      SpacedJoin(left, j, right, start, end, minsize);
      left + [j] + right
  }

  /** Two spaced lists, one on each side of `j`, stay spaced around it. */
  lemma SpacedJoin(left: seq<int>, j: int, right: seq<int>, start: int, end: int, minsize: nat)
    requires start + minsize <= j < end - minsize
    requires forall k :: 0 <= k < |left| ==> start + minsize <= left[k] < j - minsize
    requires forall k :: 0 <= k < |left| - 1 ==> left[k] + minsize <= left[k + 1]
    requires forall k :: 0 <= k < |right| ==> j + minsize <= right[k] < end - minsize
    requires forall k :: 0 <= k < |right| - 1 ==> right[k] + minsize <= right[k + 1]
    ensures forall k :: 0 <= k < |left + [j] + right| ==> start + minsize <= (left + [j] + right)[k] < end - minsize
    ensures forall k :: 0 <= k < |left + [j] + right| - 1 ==> (left + [j] + right)[k] + minsize <= (left + [j] + right)[k + 1]
  {
    var s := left + [j] + right;
    forall k | 0 <= k < |s| - 1
      ensures s[k] + minsize <= s[k + 1]
    {
      if k < |left| - 1 {
        assert s[k] == left[k] && s[k + 1] == left[k + 1];
      } else if k == |left| - 1 {
        assert s[k] == left[k] && s[k + 1] == j;
      } else if k == |left| {
        assert s[k] == j && s[k + 1] == right[0];
      } else {
        assert s[k] == right[k - |left| - 1] && s[k + 1] == right[k - |left|];
      }
    }
  }

  /** The positions of a list of splits. */
  function Positions(ps: seq<(real, int)>): (r: seq<int>)
    ensures |r| == |ps| && forall k :: 0 <= k < |ps| ==> r[k] == ps[k].1
  {
    if |ps| == 0 then [] else [ps[0].1] + Positions(ps[1..])
  }

  lemma PositionsAppend(a: seq<(real, int)>, b: seq<(real, int)>)
    ensures Positions(a + b) == Positions(a) + Positions(b)
  {
  }

  /** The generator yields exactly the positions of the increasing list. */
  lemma {:induction false} SplitsInOrder(cost: int -> real, cutoff: real, minsize: nat, start: int, end: int)
    requires minsize >= 1
    ensures multiset(Positions(Splits(cost, cutoff, minsize, start, end))) == multiset(InOrder(cost, cutoff, minsize, start, end))
    decreases end - start
  {
    var b := Best(cost, cutoff, minsize, start, end);
    if b.Some? {
      var j := b.value;
      var l := Splits(cost, cutoff, minsize, start, j);
      var r := Splits(cost, cutoff, minsize, j, end);
      SplitsInOrder(cost, cutoff, minsize, start, j);
      SplitsInOrder(cost, cutoff, minsize, j, end);
      PositionsAppend([(cost(j), j)] + l, r);
      PositionsAppend([(cost(j), j)], l);
    }
  }

  predicate NonDecreasing(s: seq<int>) {
    forall k :: 0 <= k < |s| - 1 ==> s[k] <= s[k + 1]
  }

  predicate Increasing(s: seq<int>) {
    forall k :: 0 <= k < |s| - 1 ==> s[k] < s[k + 1]
  }

  lemma IncreasingBelow(s: seq<int>, i: nat, j: nat)
    requires Increasing(s) && i < j < |s|
    ensures s[i] < s[j]
    decreases j - i
  {
    if i + 1 < j {
      IncreasingBelow(s, i + 1, j);
    }
  }

  lemma NonDecreasingBelow(s: seq<int>, i: nat, j: nat)
    requires NonDecreasing(s) && i <= j < |s|
    ensures s[i] <= s[j]
    decreases j - i
  {
    if i < j {
      NonDecreasingBelow(s, i + 1, j);
    }
  }

  /** The smallest element of both lists comes first in both. */
  lemma SameHead(a: seq<int>, b: seq<int>)
    requires Increasing(a) && NonDecreasing(b) && multiset(a) == multiset(b) && |a| > 0
    ensures |b| > 0 && a[0] == b[0]
  {
    assert a[0] in multiset(b);
    var k :| 0 <= k < |b| && b[k] == a[0];
    NonDecreasingBelow(b, 0, k);
    assert b[0] in multiset(a);
    var m :| 0 <= m < |a| && a[m] == b[0];
    if m > 0 {
      IncreasingBelow(a, 0, m);
    }
  }

  lemma SameTail(a: seq<int>, b: seq<int>)
    requires |a| > 0 && |b| > 0 && a[0] == b[0] && multiset(a) == multiset(b)
    ensures multiset(a[1..]) == multiset(b[1..])
  {
    assert a == [a[0]] + a[1..] && b == [b[0]] + b[1..];
    assert multiset(a) == multiset{a[0]} + multiset(a[1..]);
    assert multiset(b) == multiset{b[0]} + multiset(b[1..]);
    assert multiset(a[1..]) == multiset(a) - multiset{a[0]};
    assert multiset(b[1..]) == multiset(b) - multiset{b[0]};
  }

  /** `sorted` has one answer: a non-decreasing list with the same
      elements as an increasing list is that list. */
  lemma {:induction false} SortedUnique(a: seq<int>, b: seq<int>)
    requires Increasing(a) && NonDecreasing(b) && multiset(a) == multiset(b)
    ensures a == b
    decreases |a|
  {
    if |a| == 0 {
      assert |b| == |multiset(b)| == 0;
    } else {
      SameHead(a, b);
      SameTail(a, b);
      SortedUnique(a[1..], b[1..]);
      assert a == [a[0]] + a[1..] && b == [b[0]] + b[1..];
    }
  }

  /** `[0] + sorted(j for (d, j) in partitions) + [N]`. */
  function Boundaries(cost: int -> real, cutoff: real, minsize: nat, n: nat): seq<int>
    requires minsize >= 1
  {
    [0] + InOrder(cost, cutoff, minsize, 0, n) + [n]
  }

  /** Sorting the generated positions gives the increasing list, so the
      boundaries are 0, the split points in increasing order, and `N`. */
  lemma BoundariesSorted(cost: int -> real, cutoff: real, minsize: nat, n: nat, sorted: seq<int>)
    requires minsize >= 1
    requires NonDecreasing(sorted)
    requires multiset(sorted) == multiset(Positions(Splits(cost, cutoff, minsize, 0, n)))
    ensures Boundaries(cost, cutoff, minsize, n) == [0] + sorted + [n]
  {
    SplitsInOrder(cost, cutoff, minsize, 0, n);
    var s := InOrder(cost, cutoff, minsize, 0, n);
    assert Increasing(s);
    SortedUnique(s, sorted);
  }

  /** `zip(boundaries[:-1], boundaries[1:])`: each domain's first position
      and the position just past its end. */
  function DomainRanges(bounds: seq<int>): (r: seq<(int, int)>)
    ensures |r| == if |bounds| < 2 then 0 else |bounds| - 1
    ensures forall k :: 0 <= k < |r| ==> r[k] == (bounds[k], bounds[k + 1])
  {
    if |bounds| < 2 then [] else [(bounds[0], bounds[1])] + DomainRanges(bounds[1..])
  }

  /** The domains tile `[0, N)` without gaps or overlaps, and once there
      is any split every domain holds at least `minsize` atoms. */
  lemma DomainsTile(cost: int -> real, cutoff: real, minsize: nat, n: nat)
    requires minsize >= 1
    ensures var d := DomainRanges(Boundaries(cost, cutoff, minsize, n));
      |d| >= 1 && d[0].0 == 0 && d[|d| - 1].1 == n &&
      (forall k :: 0 <= k < |d| - 1 ==> d[k].1 == d[k + 1].0) &&
      (|d| > 1 ==> forall k :: 0 <= k < |d| ==> d[k].1 - d[k].0 >= minsize)
  {
    var s := InOrder(cost, cutoff, minsize, 0, n);
    var bounds := Boundaries(cost, cutoff, minsize, n);
    var d := DomainRanges(bounds);
    assert |bounds| == |s| + 2 && bounds[0] == 0 && bounds[|s| + 1] == n;
    assert forall k :: 1 <= k <= |s| ==> bounds[k] == s[k - 1];
    assert |d| == |s| + 1;
    forall k | 0 <= k < |d| - 1
      ensures d[k].1 == d[k + 1].0
    {
      assert d[k] == (bounds[k], bounds[k + 1]) && d[k + 1] == (bounds[k + 1], bounds[k + 2]);
    }
    if |d| > 1 {
      forall k | 0 <= k < |d|
        ensures d[k].1 - d[k].0 >= minsize
      {
        if k == 0 {
          assert d[0] == (0, s[0]);
        } else if k == |s| {
          assert d[k] == (s[k - 1], n);
        } else {
          assert bounds[k] == s[k - 1] && bounds[k + 1] == s[k];
          assert s[k - 1] + minsize <= s[k];
        }
      }
    }
  }
}
