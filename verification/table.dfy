/** The tracking table the crash-repair engines work on: one record per
    sample, and the three-column record the resampler emits. Row labels are
    the positions 0..n-1, as the engines assume when they mix `.index` labels
    with `iloc` positions. */
module Table {

  /** One sample of the tracking series: the columns `flip_time`, `stim_pos`,
      `user_pos`, `crash_count` and `did_crash`. */
  datatype Row = Row(flipTime: real, stimPos: real, userPos: real, crashCount: int, didCrash: bool)

  /** A row with only `flip_time`, `stim_pos` and `user_pos`, the columns of a
      synthesized transition and of the resampled output. */
  datatype Sample = Sample(flipTime: real, stimPos: real, userPos: real)

  function FlipTimes(rows: seq<Row>): (ts: seq<real>)
    ensures |ts| == |rows|
    ensures forall k :: 0 <= k < |rows| ==> ts[k] == rows[k].flipTime
  {
    seq(|rows|, k requires 0 <= k < |rows| => rows[k].flipTime)
  }

  function StimPositions(rows: seq<Row>): (vs: seq<real>)
    ensures |vs| == |rows|
    ensures forall k :: 0 <= k < |rows| ==> vs[k] == rows[k].stimPos
  {
    seq(|rows|, k requires 0 <= k < |rows| => rows[k].stimPos)
  }

  function UserPositions(rows: seq<Row>): (vs: seq<real>)
    ensures |vs| == |rows|
    ensures forall k :: 0 <= k < |rows| ==> vs[k] == rows[k].userPos
  {
    seq(|rows|, k requires 0 <= k < |rows| => rows[k].userPos)
  }

  function CrashCounts(rows: seq<Row>): (cs: seq<int>)
    ensures |cs| == |rows|
    ensures forall k :: 0 <= k < |rows| ==> cs[k] == rows[k].crashCount
  {
    seq(|rows|, k requires 0 <= k < |rows| => rows[k].crashCount)
  }

  /** The three columns the resampler reads, row by row. */
  function Project(rows: seq<Row>): (ss: seq<Sample>)
    ensures |ss| == |rows|
    ensures forall k :: 0 <= k < |rows| ==>
      ss[k] == Sample(rows[k].flipTime, rows[k].stimPos, rows[k].userPos)
  {
    seq(|rows|, k requires 0 <= k < |rows| => Sample(rows[k].flipTime, rows[k].stimPos, rows[k].userPos))
  }

  function SampleTimes(ss: seq<Sample>): (ts: seq<real>)
    ensures |ts| == |ss|
    ensures forall k :: 0 <= k < |ss| ==> ts[k] == ss[k].flipTime
  {
    seq(|ss|, k requires 0 <= k < |ss| => ss[k].flipTime)
  }

  lemma FlipTimesConcat(a: seq<Row>, b: seq<Row>)
    ensures FlipTimes(a + b) == FlipTimes(a) + FlipTimes(b)
  {
    var l, r := FlipTimes(a + b), FlipTimes(a) + FlipTimes(b);
    forall i | 0 <= i < |l| ensures l[i] == r[i] {
      if i < |a| {
        assert (a + b)[i] == a[i];
      } else {
        assert (a + b)[i] == b[i - |a|];
      }
    }
  }

  /** A frame built from its three columns. */
  function Samples(times: seq<real>, stim: seq<real>, user: seq<real>): (r: seq<Sample>)
    requires |stim| == |times| && |user| == |times|
    ensures |r| == |times|
    ensures forall i :: 0 <= i < |times| ==> r[i] == Sample(times[i], stim[i], user[i])
    ensures SampleTimes(r) == times
  {
    seq(|times|, i requires 0 <= i < |times| => Sample(times[i], stim[i], user[i]))
  }

  /** Every step is positive: what PCHIP and the natural cubic spline demand of
      their abscissa. */
  predicate StrictlyIncreasing(s: seq<real>) {
    forall k :: 0 < k < |s| ==> s[k - 1] < s[k]
  }

  predicate NonDecreasing(s: seq<real>) {
    forall k :: 0 < k < |s| ==> s[k - 1] <= s[k]
  }

  /** Consecutive increase gives increase between any two positions. */
  lemma {:induction false} StrictlyIncreasingPairwise(s: seq<real>, i: nat, j: nat)
    requires StrictlyIncreasing(s)
    requires i < j < |s|
    ensures s[i] < s[j]
    decreases j - i
  {
    if i + 1 < j {
      StrictlyIncreasingPairwise(s, i, j - 1);
    }
  }

  lemma {:induction false} NonDecreasingPairwise(s: seq<real>, i: nat, j: nat)
    requires NonDecreasing(s)
    requires i <= j < |s|
    ensures s[i] <= s[j]
    decreases j - i
  {
    if i < j {
      NonDecreasingPairwise(s, i, j - 1);
    }
  }

  function Abs(x: real): (r: real)
    ensures r >= 0.0 && (r == x || r == -x)
  {
    if x < 0.0 then -x else x
  }

  function Max(a: int, b: int): (r: int)
    ensures r >= a && r >= b && (r == a || r == b)
  {
    if a >= b then a else b
  }

  function Min(a: int, b: int): (r: int)
    ensures r <= a && r <= b && (r == a || r == b)
  {
    if a <= b then a else b
  }
}
