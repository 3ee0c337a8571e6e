/** `np.unique(times, return_index=True)` followed by `np.argsort`, as the
    older engine uses them to clean a window's timestamps: the distinct times
    in ascending order, each with the position of its first occurrence. */
module Dedup {
  import opened Table
  import opened Text

  /** No value occurs twice. */
  predicate Distinct(s: seq<real>) {
    forall i, j :: 0 <= i < j < |s| ==> s[i] != s[j]
  }

  /** `x` added to a strictly increasing sequence unless already there. */
  function InsertUnique(x: real, s: seq<real>): (r: seq<real>)
    requires StrictlyIncreasing(s)
    ensures StrictlyIncreasing(r)
    ensures forall y :: y in r <==> y == x || y in s
    ensures |r| == if x in s then |s| else |s| + 1
  {
    if s == [] then [x]
    else
      assert forall k :: 0 < k < |s| ==> s[0] < s[k] by {
        forall k | 0 < k < |s| ensures s[0] < s[k] {
          StrictlyIncreasingPairwise(s, 0, k);
        }
      }
      if x < s[0] then [x] + s
      else if x == s[0] then s
      else
        var rest := InsertUnique(x, s[1..]);
        assert forall y :: y in s <==> y == s[0] || y in s[1..];
        [s[0]] + rest
  }

  /** The distinct values of `s` in ascending order. */
  function DistinctSorted(s: seq<real>): (u: seq<real>)
    ensures StrictlyIncreasing(u)
    ensures forall y :: y in u <==> y in s
    decreases |s|
  {
    if s == [] then []
    else
      var init := s[..|s| - 1];
      assert forall y :: y in s <==> y in init || y == s[|s| - 1] by {
        assert s == init + [s[|s| - 1]];
      }
      InsertUnique(s[|s| - 1], DistinctSorted(init))
  }

  /** There are at most as many distinct values as values, and exactly as
      many when no value repeats. */
  lemma {:induction false} DistinctSortedLength(s: seq<real>)
    ensures |DistinctSorted(s)| <= |s|
    ensures |DistinctSorted(s)| == |s| <==> Distinct(s)
    decreases |s|
  {
    if s != [] {
      var init := s[..|s| - 1];
      var x := s[|s| - 1];
      DistinctSortedLength(init);
      assert s == init + [x];
      if Distinct(s) {
        assert Distinct(init) by {
          forall i, j | 0 <= i < j < |init| ensures init[i] != init[j] {
            assert init[i] == s[i] && init[j] == s[j];
          }
        }
        assert x !in init by {
          forall i | 0 <= i < |init| ensures init[i] != x {
            assert init[i] == s[i];
          }
        }
      }
      if |DistinctSorted(s)| == |s| {
        assert x !in DistinctSorted(init);
        forall i, j | 0 <= i < j < |s| ensures s[i] != s[j] {
          if j == |s| - 1 {
            assert s[i] == init[i];
          } else {
            assert s[i] == init[i] && s[j] == init[j];
          }
        }
      }
    }
  }

  /** The values of `vs` at the first occurrence of each of `keys` in `s`. */
  function AtFirstOccurrences(s: seq<real>, vs: seq<real>, keys: seq<real>): (r: seq<real>)
    requires |vs| == |s|
    requires forall i :: 0 <= i < |keys| ==> keys[i] in s
    ensures |r| == |keys|
    ensures forall i :: 0 <= i < |keys| ==> r[i] == vs[IndexOf(s, keys[i])]
  {
    seq(|keys|, i requires 0 <= i < |keys| => vs[IndexOf(s, keys[i])])
  }

  /** A permutation `p` of `[0, |u|)` that sorts a strictly increasing `u`
      (what `np.argsort` returns for it) is the identity, so the reordering
      after `np.unique` changes nothing. */
  lemma ArgsortOfIncreasingIsIdentity(u: seq<real>, p: seq<nat>)
    requires StrictlyIncreasing(u)
    requires |p| == |u|
    requires forall i :: 0 <= i < |p| ==> p[i] < |u|
    requires forall i, j :: 0 <= i < j < |p| ==> p[i] != p[j]
    requires forall i :: 0 < i < |p| ==> u[p[i - 1]] <= u[p[i]]
    ensures forall i :: 0 <= i < |p| ==> p[i] == i
  {
    var m := |p|;
    forall i | 0 < i < m ensures p[i - 1] < p[i] {
      if p[i] < p[i - 1] {
        StrictlyIncreasingPairwise(u, p[i], p[i - 1]);
      }
    }
    IncreasingIndicesAreIdentity(p, m);
  }

  /** `m` strictly increasing naturals below `m` are `0, 1, ..., m - 1`. */
  lemma IncreasingIndicesAreIdentity(p: seq<nat>, m: nat)
    requires |p| == m
    requires forall i :: 0 <= i < m ==> p[i] < m
    requires forall i :: 0 < i < m ==> p[i - 1] < p[i]
    ensures forall i :: 0 <= i < m ==> p[i] == i
  {
    for i := 0 to m
      invariant forall j :: 0 <= j < i ==> p[j] >= j
    {
      if i > 0 {
        assert p[i - 1] >= i - 1;
      }
    }
    var i := m;
    while i > 0
      invariant 0 <= i <= m
      invariant forall j :: i <= j < m ==> p[j] <= j
      decreases i
    {
      i := i - 1;
      if i < m - 1 {
        assert p[i] < p[i + 1];
      }
    }
  }
}
