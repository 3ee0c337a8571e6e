/** Sorting of real values, the median `np.median` takes and the order
    statistic `set_target_max_position` picks. Sorting is written as an
    insertion sort; only its result (sorted, same multiset) matters. */
module Sorting {
  import opened Wrappers
  import opened Table

  predicate Sorted(s: seq<real>) {
    forall i, j :: 0 <= i < j < |s| ==> s[i] <= s[j]
  }

  function Insert(x: real, s: seq<real>): (r: seq<real>)
    requires Sorted(s)
    ensures Sorted(r)
    ensures multiset(r) == multiset(s) + multiset{x}
    ensures |r| == |s| + 1
  {
    if s == [] || x <= s[0] then
      ConsSorted(x, s);
      [x] + s
    else
      var tail := Insert(x, s[1..]);
      assert s == [s[0]] + s[1..];
      InsertHeadBelow(x, s, tail);
      ConsSorted(s[0], tail);
      [s[0]] + tail
  }

  /** A value at most every element, put in front of a sorted sequence. */
  lemma ConsSorted(h: real, t: seq<real>)
    requires Sorted(t)
    requires t == [] || h <= t[0]
    ensures Sorted([h] + t)
  {
    forall i, j | 0 <= i < j < |t| + 1 ensures ([h] + t)[i] <= ([h] + t)[j] {
      assert ([h] + t)[j] == t[j - 1];
      if i > 0 {
        assert ([h] + t)[i] == t[i - 1];
      } else {
        assert t[0] <= t[j - 1];
      }
    }
  }

  /** The head of a sorted `s` below `x` is below every element of `s[1..]`
      with `x` inserted. */
  lemma InsertHeadBelow(x: real, s: seq<real>, tail: seq<real>)
    requires Sorted(s) && |s| > 0 && s[0] < x
    requires multiset(tail) == multiset(s[1..]) + multiset{x}
    ensures forall k :: 0 <= k < |tail| ==> s[0] <= tail[k]
  {
    forall k | 0 <= k < |tail| ensures s[0] <= tail[k] {
      assert tail[k] in multiset(tail);
      if tail[k] != x {
        assert tail[k] in multiset(s[1..]);
        var m :| 0 <= m < |s[1..]| && s[1..][m] == tail[k];
        assert s[m + 1] == tail[k];
      }
    }
  }

  function Sort(s: seq<real>): (r: seq<real>)
    ensures Sorted(r)
    ensures multiset(r) == multiset(s)
    ensures |r| == |s|
  {
    if s == [] then []
    else
      assert s == [s[0]] + s[1..];
      Insert(s[0], Sort(s[1..]))
  }

  /** Every element of the sorted copy is an element of the input. */
  lemma SortMember(s: seq<real>, k: nat)
    requires k < |s|
    ensures exists j :: 0 <= j < |s| && Sort(s)[k] == s[j]
  {
    var r := Sort(s);
    assert r[k] in multiset(r);
    assert r[k] in multiset(s);
  }

  /** `np.median`: the middle element of the sorted values, or the mean of the
      two middle ones when there is an even number of them. */
  function Median(s: seq<real>): (m: real)
    requires |s| > 0
  {
    var r := Sort(s);
    var h := |s| / 2;
    if |s| % 2 == 1 then r[h] else (r[h - 1] + r[h]) / 2.0
  }

  /** The median lies within any bounds that hold for every value. */
  lemma MedianWithin(s: seq<real>, lo: real, hi: real)
    requires |s| > 0
    requires forall k :: 0 <= k < |s| ==> lo <= s[k] <= hi
    ensures lo <= Median(s) <= hi
  {
    var h := |s| / 2;
    SortMember(s, h);
    if |s| % 2 == 0 {
      SortMember(s, h - 1);
    }
  }

  function AbsAll(s: seq<real>): (r: seq<real>)
    ensures |r| == |s|
    ensures forall k :: 0 <= k < |s| ==> r[k] == Abs(s[k])
  {
    seq(|s|, k requires 0 <= k < |s| => Abs(s[k]))
  }

  /** The position `int(len(s) * 0.99)` that `set_target_max_position` reads,
      with the float product taken exactly. */
  function PercentileIndex(n: nat): (i: nat)
    requires n > 0
    ensures i < n
  {
    (99 * n) / 100
  }

  /** `set_target_max_position`: sort the absolute stimulus positions and take
      the element at `PercentileIndex`; an empty column raises IndexError. */
  function Percentile99(values: seq<real>): (r: Result<real>)
    ensures r.Err? <==> |values| == 0
    ensures r.Err? ==> r.error == IndexError
    ensures r.Ok? ==> r.value >= 0.0
    ensures r.Ok? ==> exists j :: 0 <= j < |values| && r.value == Abs(values[j])
  {
    if |values| == 0 then Err(IndexError)
    else
      var i := PercentileIndex(|values|);
      SortMember(AbsAll(values), i);
      Ok(Sort(AbsAll(values))[i])
  }

  /** How many values are at most `y`, and how many are below it. */
  function CountAtMost(s: seq<real>, y: real): (c: nat)
    ensures c <= |s|
  {
    if s == [] then 0 else (if s[0] <= y then 1 else 0) + CountAtMost(s[1..], y)
  }

  function CountBelow(s: seq<real>, y: real): (c: nat)
    ensures c <= |s|
  {
    if s == [] then 0 else (if s[0] < y then 1 else 0) + CountBelow(s[1..], y)
  }

  lemma {:induction false} CountAppend(a: seq<real>, b: seq<real>, y: real)
    ensures CountAtMost(a + b, y) == CountAtMost(a, y) + CountAtMost(b, y)
    ensures CountBelow(a + b, y) == CountBelow(a, y) + CountBelow(b, y)
  {
    if a == [] {
      assert a + b == b;
    } else {
      assert (a + b)[1..] == a[1..] + b;
      CountAppend(a[1..], b, y);
    }
  }

  lemma {:induction false} CountInsert(x: real, s: seq<real>, y: real)
    requires Sorted(s)
    ensures CountAtMost(Insert(x, s), y) == CountAtMost(s, y) + (if x <= y then 1 else 0)
    ensures CountBelow(Insert(x, s), y) == CountBelow(s, y) + (if x < y then 1 else 0)
  {
    if s == [] || x <= s[0] {
      assert ([x] + s)[1..] == s;
    } else {
      var tail := Insert(x, s[1..]);
      assert ([s[0]] + tail)[1..] == tail;
      CountInsert(x, s[1..], y);
    }
  }

  /** Sorting changes no count. */
  lemma {:induction false} CountSort(s: seq<real>, y: real)
    ensures CountAtMost(Sort(s), y) == CountAtMost(s, y)
    ensures CountBelow(Sort(s), y) == CountBelow(s, y)
  {
    if s != [] {
      CountSort(s[1..], y);
      CountInsert(s[0], Sort(s[1..]), y);
    }
  }

  lemma {:induction false} CountAllAtMost(s: seq<real>, y: real)
    requires forall k :: 0 <= k < |s| ==> s[k] <= y
    ensures CountAtMost(s, y) == |s|
  {
    if s != [] {
      CountAllAtMost(s[1..], y);
    }
  }

  lemma {:induction false} CountNoneBelow(s: seq<real>, y: real)
    requires forall k :: 0 <= k < |s| ==> y <= s[k]
    ensures CountBelow(s, y) == 0
  {
    if s != [] {
      CountNoneBelow(s[1..], y);
    }
  }

  /** In a sorted sequence the element at position t has at least t+1 values
      at most it and at most t values below it. */
  lemma SortedRank(r: seq<real>, t: nat)
    requires Sorted(r)
    requires t < |r|
    ensures CountAtMost(r, r[t]) >= t + 1
    ensures CountBelow(r, r[t]) <= t
  {
    SortedCountAtMost(r, t);
    SortedCountBelow(r, t);
  }

  lemma SortedCountAtMost(r: seq<real>, t: nat)
    requires Sorted(r)
    requires t < |r|
    ensures CountAtMost(r, r[t]) >= t + 1
  {
    var upTo, rest := r[..t + 1], r[t + 1..];
    assert r == upTo + rest;
    CountAppend(upTo, rest, r[t]);
    forall k | 0 <= k < |upTo| ensures upTo[k] <= r[t] {
      assert upTo[k] == r[k];
    }
    CountAllAtMost(upTo, r[t]);
  }

  lemma SortedCountBelow(r: seq<real>, t: nat)
    requires Sorted(r)
    requires t < |r|
    ensures CountBelow(r, r[t]) <= t
  {
    var before, from := r[..t], r[t..];
    assert r == before + from;
    CountAppend(before, from, r[t]);
    forall k | 0 <= k < |from| ensures r[t] <= from[k] {
      assert from[k] == r[t + k];
    }
    CountNoneBelow(from, r[t]);
  }

  /** The picked value is the 99th percentile of the absolute values: more
      than `PercentileIndex(n)` of them are at most it, and no more than
      `PercentileIndex(n)` are below it. */
  lemma PercentileRank(values: seq<real>)
    requires |values| > 0
    ensures Percentile99(values).Ok?
    ensures CountAtMost(AbsAll(values), Percentile99(values).value) >= PercentileIndex(|values|) + 1
    ensures CountBelow(AbsAll(values), Percentile99(values).value) <= PercentileIndex(|values|)
  {
    var i := PercentileIndex(|values|);
    var r := Sort(AbsAll(values));
    SortedRank(r, i);
    CountSort(AbsAll(values), r[i]);
  }
}
