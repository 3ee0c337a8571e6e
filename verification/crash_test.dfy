/** The older crash-repair engine (`old_1/crash_test.py`). It shares the
    segment finder's windows, but masks outlying stimulus samples with NaN
    first, builds each transition from the window's de-duplicated sample
    times, splices it into an inclusive label range with `reindex` (labels
    beyond the transition become NaN), fills NaN positions by linear
    interpolation over row positions and finally resamples at 30 Hz with
    rows of unknown time dropped. NaN is `None` here. */
module OldEngine {
  import opened Wrappers
  import opened Table
  import opened Sorting
  import opened SegmentFinder
  import opened TimeAxis
  import opened Numerics
  import opened Dedup

  const TargetFrequency := 30.0

  // ---------------------------------------------------------------------
  // Segments

  /** The segment dictionaries of this engine carry no `is_partial` flag:
      only the window. */
  function WindowsOf(segs: seq<Segment>): (ws: seq<Window>)
    ensures |ws| == |segs|
    ensures forall j :: 0 <= j < |segs| ==> ws[j] == segs[j].window
  {
    seq(|segs|, j requires 0 <= j < |segs| => segs[j].window)
  }

  lemma WindowsOfAppend(segs: seq<Segment>, more: seq<Segment>)
    ensures WindowsOf(segs + more) == WindowsOf(segs) + WindowsOf(more)
  {
    var l, r := WindowsOf(segs + more), WindowsOf(segs) + WindowsOf(more);
    forall j | 0 <= j < |l| ensures l[j] == r[j] {
      if j < |segs| {
        assert (segs + more)[j] == segs[j];
      } else {
        assert (segs + more)[j] == more[j - |segs|];
      }
    }
  }

  /** `find_crash_segments` with its extra clamps `max(0, ...)` and
      `min(len, ...)`, which never bind: it finds the same windows as the
      shared finder. */
  method FindCrashWindows(data: seq<Row>, w: nat) returns (windows: seq<Window>)
    ensures windows == WindowsOf(Segments(data, w))
  {
    var transitions := TransitionIndices(CrashCounts(data));
    windows := [];
    for j := 0 to |transitions|
      invariant windows == WindowsOf(SegmentsOf(data, w, transitions[..j]))
    {
      SegmentsOfPrefix(data, w, transitions, j);
      var window := WindowFor(data, w, transitions[j]);
      if window.Some? {
        ghost var s := SegmentAt(data, w, transitions[j]).value;
        WindowsOfAppend(SegmentsOf(data, w, transitions[..j]), [s]);
        assert WindowsOf([s]) == [window.value];
        windows := windows + [window.value];
      }
    }
    assert transitions[..|transitions|] == transitions;
  }

  /** The body of this engine's loop for one transition, with its clamps:
      the shared finder's window, or `None` where it skips. */
  method WindowFor(data: seq<Row>, w: nat, crashIdx: nat) returns (window: Option<Window>)
    requires crashIdx < |data|
    ensures window.None? <==> SegmentAt(data, w, crashIdx).None?
    ensures window.Some? ==> window.value == SegmentAt(data, w, crashIdx).value.window
  {
    var preWindowSize := Min(crashIdx, w);
    var postWindowSize := Min(|data| - crashIdx, w);
    var preStartIdx := Max(0, crashIdx - preWindowSize);
    var postEndIdx := Min(|data|, crashIdx + postWindowSize);
    var preLen := crashIdx - preStartIdx;
    var postLen := postEndIdx - crashIdx;
    if preLen == 0 || postLen == 0 {
      return None;
    }
    var gap := data[crashIdx].flipTime - data[crashIdx - 1].flipTime;
    window := Some(Window(crashIdx, preStartIdx, postEndIdx, gap));
  }

  /** Every window has rows on both sides of the crash and lies inside a
      table of `n` rows. */
  predicate InTable(n: nat, ws: seq<Window>) {
    forall j :: 0 <= j < |ws| ==> ws[j].preStart < ws[j].crashIdx < ws[j].postEnd <= n
  }

  lemma WindowsInTable(data: seq<Row>, w: nat)
    ensures InTable(|data|, WindowsOf(Segments(data, w)))
  {
    SegmentsAreWellFormed(data, w);
  }

  // ---------------------------------------------------------------------
  // Outlier detection

  /** What `detect_aberrant_data` ends with on `n` values and a window of
      `w` frames. The `n`-long padded flags are assigned to
      `aberrant_points[w:]`, which holds `max(n - w, 0)` entries; numpy
      accepts that only when the lengths agree or the flags have length 1,
      i.e. when `w == 0` or `n <= 1`, and raises a broadcast ValueError
      otherwise. When it succeeds, the head and tail marking covers every
      position. */
  function AberrantOutcome(n: nat, w: nat): (r: Result<seq<bool>>)
    ensures r.Err? <==> w >= 1 && n >= 2
    ensures r.Err? ==> r.error == BroadcastError
    ensures r.Ok? ==> |r.value| == n && forall i :: 0 <= i < n ==> r.value[i]
  {
    if w >= 1 && n >= 2 then Err(BroadcastError) else Ok(seq(n, _ => true))
  }

  /** `detect_aberrant_data(values)`: differences above `mean + 1.5 std`
      flagged, padded, written after the first `w` points, and then the first
      and last `w` points marked. */
  method DetectAberrantData(k: Kernels, values: seq<real>, w: nat) returns (r: Result<seq<bool>>)
    requires k.Valid()
    ensures r == AberrantOutcome(|values|, w)
  {
    var n := |values|;
    var aberrantFlags := k.aboveThreshold(AbsAll(Diffs(values)));
    assert |aberrantFlags| == if n == 0 then 0 else n - 1;
    var aberrantPoints := new bool[n](_ => false);
    if |aberrantFlags| < n - w {
      aberrantFlags := aberrantFlags + seq(n - |aberrantFlags|, _ => false);
    }
    aberrantFlags := aberrantFlags + seq(n - |aberrantFlags|, _ => false);
    assert |aberrantFlags| == n;
    var sliceLen := if w < n then n - w else 0;
    if |aberrantFlags| != sliceLen && |aberrantFlags| != 1 {
      return Err(BroadcastError);
    }
    for i := 0 to sliceLen {
      aberrantPoints[w + i] := if |aberrantFlags| == 1 then aberrantFlags[0] else aberrantFlags[i];
    }
    var head := Min(w, n);
    for i := 0 to head
      invariant forall j :: 0 <= j < i ==> aberrantPoints[j]
    {
      aberrantPoints[i] := true;
    }
    var tailStart := if w == 0 || w > n then 0 else n - w;
    for i := tailStart to n
      invariant forall j :: (0 <= j < head || tailStart <= j < i) ==> aberrantPoints[j]
    {
      aberrantPoints[i] := true;
    }
    assert w == 0 || n <= 1;
    assert aberrantPoints[..] == seq(n, _ => true);
    r := Ok(aberrantPoints[..]);
  }

  // ---------------------------------------------------------------------
  // Masked table

  /** A row of the working copy once NaN can appear in it. */
  datatype MaskedRow = MaskedRow(flipTime: Option<real>, stimPos: Option<real>, userPos: Option<real>, crashCount: int, didCrash: bool)

  /** A row of the resampled output, whose positions may be NaN. */
  datatype MaskedSample = MaskedSample(flipTime: real, stimPos: Option<real>, userPos: Option<real>)

  /** `repaired_data.loc[flags, ['stim_pos', 'user_pos']] = np.nan`. */
  function Mask(data: seq<Row>, flags: seq<bool>): (m: seq<MaskedRow>)
    requires |flags| == |data|
    ensures |m| == |data|
  {
    seq(|data|, i requires 0 <= i < |data| =>
      var r := data[i];
      if flags[i] then MaskedRow(Some(r.flipTime), None, None, r.crashCount, r.didCrash)
      else MaskedRow(Some(r.flipTime), Some(r.stimPos), Some(r.userPos), r.crashCount, r.didCrash))
  }

  /** Masking changes the positions of the flagged rows only. */
  lemma MaskSpec(data: seq<Row>, flags: seq<bool>, i: nat)
    requires |flags| == |data| && i < |data|
    ensures Mask(data, flags)[i].flipTime == Some(data[i].flipTime)
    ensures Mask(data, flags)[i].crashCount == data[i].crashCount
    ensures Mask(data, flags)[i].didCrash == data[i].didCrash
    ensures flags[i] <==> Mask(data, flags)[i].stimPos.None?
    ensures flags[i] <==> Mask(data, flags)[i].userPos.None?
    ensures !flags[i] ==> Mask(data, flags)[i].stimPos == Some(data[i].stimPos)
    ensures !flags[i] ==> Mask(data, flags)[i].userPos == Some(data[i].userPos)
  {
  }

  // ---------------------------------------------------------------------
  // Transitions

  /** `compute_transition(pre, post)` of this engine: `None` when either side
      has fewer than two rows; otherwise the distinct times in ascending
      order (`np.unique`; the `argsort` that follows is the identity, see
      `ArgsortOfIncreasingIsIdentity`), each with the positions of its first
      occurrence, put through PCHIP at the same times, `smooth_dampen` and the
      optional Savitzky–Golay pass. PCHIP raises ValueError on fewer than two
      distinct times. */
  function ComputeTransition(k: Kernels, target: real, pre: seq<Row>, post: seq<Row>): (r: Result<Option<seq<Sample>>>)
    requires k.Valid()
    ensures r == Ok(None) <==> |pre| < 2 || |post| < 2
    ensures r.Err? <==> |pre| >= 2 && |post| >= 2 && |DistinctSorted(FlipTimes(pre + post))| < 2
    ensures r.Err? ==> r.error == ValueError
    ensures r.Ok? && r.value.Some? ==> SampleTimes(r.value.value) == DistinctSorted(FlipTimes(pre + post))
  {
    if |pre| < 2 || |post| < 2 then Ok(None)
    else
      var times := FlipTimes(pre + post);
      var sortedTimes := DistinctSorted(times);
      if |sortedTimes| < 2 then Err(ValueError)
      else
        var sortedStim := AtFirstOccurrences(times, StimPositions(pre + post), sortedTimes);
        var sortedUser := AtFirstOccurrences(times, UserPositions(pre + post), sortedTimes);
        var stim := Smooth(k, DampenAll(k, EvalAt(k.pchip, sortedTimes, sortedStim, sortedTimes), target));
        var user := Smooth(k, DampenAll(k, EvalAt(k.pchip, sortedTimes, sortedUser, sortedTimes), target));
        Ok(Some(Samples(sortedTimes, stim, user)))
  }

  /** A transition has one row per distinct time of the window: never more
      rows than the window, and exactly as many when no time repeats. */
  lemma TransitionLength(k: Kernels, target: real, pre: seq<Row>, post: seq<Row>)
    requires k.Valid()
    requires ComputeTransition(k, target, pre, post).Ok?
    requires ComputeTransition(k, target, pre, post).value.Some?
    ensures var tr := ComputeTransition(k, target, pre, post).value.value;
      && |tr| <= |pre| + |post|
      && (|tr| == |pre| + |post| <==> Distinct(FlipTimes(pre + post)))
  {
    var tr := ComputeTransition(k, target, pre, post).value.value;
    DistinctSortedLength(FlipTimes(pre + post));
    assert |tr| == |SampleTimes(tr)|;
  }

  /** PCHIP evaluated at its own knots gives the data back, so the transition
      is the first-occurrence positions, dampened and smoothed. */
  lemma TransitionValues(k: Kernels, target: real, pre: seq<Row>, post: seq<Row>)
    requires k.Valid()
    requires ComputeTransition(k, target, pre, post).Ok?
    requires ComputeTransition(k, target, pre, post).value.Some?
    ensures var tr := ComputeTransition(k, target, pre, post).value.value;
      var times := FlipTimes(pre + post);
      var u := DistinctSorted(times);
      var stim := Smooth(k, DampenAll(k, AtFirstOccurrences(times, StimPositions(pre + post), u), target));
      var user := Smooth(k, DampenAll(k, AtFirstOccurrences(times, UserPositions(pre + post), u), target));
      |tr| == |u| == |stim| == |user| &&
      forall i :: 0 <= i < |tr| ==> tr[i] == Sample(u[i], stim[i], user[i])
  {
    var times := FlipTimes(pre + post);
    var u := DistinctSorted(times);
    var s := AtFirstOccurrences(times, StimPositions(pre + post), u);
    var v := AtFirstOccurrences(times, UserPositions(pre + post), u);
    EvalAtKnots(k.pchip, u, s);
    EvalAtKnots(k.pchip, u, v);
  }

  /** A segment's rows before the crash (`pre_crash`). */
  function PreRows(data: seq<Row>, win: Window): (r: seq<Row>)
    requires win.preStart <= win.crashIdx <= |data|
    ensures |r| == win.crashIdx - win.preStart
  {
    data[win.preStart..win.crashIdx]
  }

  /** A segment's rows from the crash on (`post_crash`). */
  function PostRows(data: seq<Row>, win: Window): (r: seq<Row>)
    requires win.crashIdx <= win.postEnd <= |data|
    ensures |r| == win.postEnd - win.crashIdx
  {
    data[win.crashIdx..win.postEnd]
  }

  /** The transitions of all windows, in order, computed from the unmasked
      table; the first one that raises ends `repair_tracking`. */
  function Transitions(k: Kernels, target: real, data: seq<Row>, ws: seq<Window>): (r: Result<seq<Option<seq<Sample>>>>)
    requires k.Valid() && InTable(|data|, ws)
    ensures r.Ok? ==> |r.value| == |ws|
    ensures r.Err? ==> r.error == ValueError
    ensures ws == [] ==> r == Ok([])
  {
    if ws == [] then Ok([])
    else
      var j := |ws| - 1;
      assert InTable(|data|, ws[..j]) by {
        forall i | 0 <= i < j ensures ws[..j][i] == ws[i] { }
      }
      var before :- Transitions(k, target, data, ws[..j]);
      var t :- ComputeTransition(k, target, PreRows(data, ws[j]), PostRows(data, ws[j]));
      Ok(before + [t])
  }

  // ---------------------------------------------------------------------
  // Splice

  /** The write of one transition over the inclusive label range
      `[start, end]`: a too long transition is cut to the range's length
      (`head`), and `reindex` by the range's labels gives label `l` the
      transition's row `l` (its own index counts from 0), or NaN when it has
      none. `crash_count` becomes 0 over the range; `did_crash` is left
      alone. */
  function SpliceRows(work: seq<MaskedRow>, start: nat, end: nat, tr: seq<Sample>): (r: seq<MaskedRow>)
    requires start <= end < |work|
    ensures |r| == |work|
    ensures forall l :: 0 <= l < |work| ==> r[l].didCrash == work[l].didCrash
    ensures forall l :: 0 <= l < |work| && !(start <= l <= end) ==> r[l] == work[l]
    ensures forall l :: start <= l <= end ==> r[l].crashCount == 0
    ensures forall l :: start <= l <= end ==>
      (r[l].flipTime.Some? <==> l < Min(|tr|, end - start + 1)) &&
      (r[l].flipTime.Some? ==> r[l].flipTime.value == tr[l].flipTime)
  {
    var kept := Min(|tr|, end - start + 1);
    seq(|work|, l requires 0 <= l < |work| =>
      if start <= l <= end then
        if l < kept then MaskedRow(Some(tr[l].flipTime), Some(tr[l].stimPos), Some(tr[l].userPos), 0, work[l].didCrash)
        else MaskedRow(None, None, None, 0, work[l].didCrash)
      else work[l])
  }

  /** One splice on the array working copy. */
  method SpliceInPlace(a: array<MaskedRow>, start: nat, end: nat, tr: seq<Sample>)
    requires start <= end < a.Length
    modifies a
    ensures a[..] == SpliceRows(old(a[..]), start, end, tr)
  {
    ghost var spliced := SpliceRows(a[..], start, end, tr);
    var segmentLength := end - start + 1;
    var transition := tr;
    if segmentLength != |tr| {
      transition := tr[..Min(segmentLength, |tr|)];
    }
    for l := start to end + 1
      invariant forall i :: 0 <= i < a.Length ==> a[i] == if start <= i < l then spliced[i] else old(a[i])
    {
      if l < |transition| {
        var s := transition[l];
        a[l] := MaskedRow(Some(s.flipTime), Some(s.stimPos), Some(s.userPos), 0, a[l].didCrash);
      } else {
        a[l] := MaskedRow(None, None, None, 0, a[l].didCrash);
      }
    }
    assert a[..] == spliced;
  }

  /** The working copy after the windows `ws` with transitions `trs`, in
      order; a window without a transition is skipped. */
  function SpliceAll(masked: seq<MaskedRow>, ws: seq<Window>, trs: seq<Option<seq<Sample>>>): (r: seq<MaskedRow>)
    requires |ws| == |trs| && InTable(|masked|, ws)
    ensures |r| == |masked|
  {
    if ws == [] then masked
    else
      var j := |ws| - 1;
      assert InTable(|masked|, ws[..j]) by {
        forall i | 0 <= i < j ensures ws[..j][i] == ws[i] { }
      }
      var before := SpliceAll(masked, ws[..j], trs[..j]);
      if trs[j].Some? then SpliceRows(before, ws[j].preStart, ws[j].postEnd - 1, trs[j].value) else before
  }

  /** The splice loop of `repair_tracking` on an array working copy. */
  method ApplyTransitions(masked: seq<MaskedRow>, ws: seq<Window>, trs: seq<Option<seq<Sample>>>) returns (repaired: seq<MaskedRow>)
    requires |ws| == |trs| && InTable(|masked|, ws)
    ensures repaired == SpliceAll(masked, ws, trs)
  {
    var a := new MaskedRow[|masked|](i requires 0 <= i < |masked| => masked[i]);
    for j := 0 to |ws|
      invariant a[..] == SpliceAll(masked, ws[..j], trs[..j])
    {
      assert ws[..j + 1][..j] == ws[..j] && trs[..j + 1][..j] == trs[..j];
      var transition := trs[j];
      if transition.None? {
        continue;
      }
      SpliceInPlace(a, ws[j].preStart, ws[j].postEnd - 1, transition.value);
    }
    assert ws[..|ws|] == ws && trs[..|trs|] == trs;
    repaired := a[..];
  }

  // ---------------------------------------------------------------------
  // Filling NaN positions

  /** The last known position before `i`. */
  function PrevKnown(vs: seq<Option<real>>, i: nat): (r: Option<nat>)
    requires i <= |vs|
    ensures r.Some? ==> r.value < i && vs[r.value].Some? && forall j :: r.value < j < i ==> vs[j].None?
    ensures r.None? ==> forall j :: 0 <= j < i ==> vs[j].None?
  {
    if i == 0 then None else if vs[i - 1].Some? then Some(i - 1) else PrevKnown(vs, i - 1)
  }

  /** The first known position from `i` on. */
  function NextKnown(vs: seq<Option<real>>, i: nat): (r: Option<nat>)
    requires i <= |vs|
    ensures r.Some? ==> i <= r.value < |vs| && vs[r.value].Some? && forall j :: i <= j < r.value ==> vs[j].None?
    ensures r.None? ==> forall j :: i <= j < |vs| ==> vs[j].None?
    decreases |vs| - i
  {
    if i == |vs| then None else if vs[i].Some? then Some(i) else NextKnown(vs, i + 1)
  }

  /** Entry `i` of `Series.interpolate()` (linear, treating the rows as
      equally spaced, forward direction): a known value stays; a NaN between
      two known values lies on the line through them; a NaN after the last
      known value takes it; a NaN before the first known value stays NaN. */
  function FillAt(vs: seq<Option<real>>, i: nat): Option<real>
    requires i < |vs|
  {
    if vs[i].Some? then vs[i]
    else match PrevKnown(vs, i)
      case None => None
      case Some(a) =>
        match NextKnown(vs, i + 1)
        case None => vs[a]
        case Some(b) =>
          Some(Lerp(a as real, vs[a].value, b as real, vs[b].value, i as real))
  }

  /** `Series.interpolate()`: known values are kept, and every position from
      the first known value on is filled. */
  function FillLinear(vs: seq<Option<real>>): (r: seq<Option<real>>)
    ensures |r| == |vs|
    ensures forall i :: 0 <= i < |vs| && vs[i].Some? ==> r[i] == vs[i]
    ensures forall i, j :: 0 <= j <= i < |vs| && vs[j].Some? ==> r[i].Some?
    ensures forall i :: 0 <= i < |vs| && (forall j :: 0 <= j <= i ==> vs[j].None?) ==> r[i].None?
  {
    seq(|vs|, i requires 0 <= i < |vs| => FillAt(vs, i))
  }

  /** A NaN run between the known values at `a` and `b` is filled along the
      straight line between them. */
  lemma FillInterior(vs: seq<Option<real>>, a: nat, b: nat, i: nat)
    requires a < i < b < |vs|
    requires vs[a].Some? && vs[b].Some?
    requires forall j :: a < j < b ==> vs[j].None?
    ensures FillLinear(vs)[i] ==
      Some(Lerp(a as real, vs[a].value, b as real, vs[b].value, i as real))
  {
    FillAtInterior(vs, a, b, i);
  }

  lemma FillAtInterior(vs: seq<Option<real>>, a: nat, b: nat, i: nat)
    requires a < i < b < |vs|
    requires vs[a].Some? && vs[b].Some?
    requires forall j :: a < j < b ==> vs[j].None?
    ensures FillAt(vs, i) ==
      Some(Lerp(a as real, vs[a].value, b as real, vs[b].value, i as real))
  {
    var p := PrevKnown(vs, i);
    assert p == Some(a);
    var q := NextKnown(vs, i + 1);
    assert q == Some(b);
  }

  /** A NaN after the last known value at `a` takes that value. */
  lemma FillTrailing(vs: seq<Option<real>>, a: nat, i: nat)
    requires a < i < |vs|
    requires vs[a].Some?
    requires forall j :: a < j < |vs| ==> vs[j].None?
    ensures FillLinear(vs)[i] == vs[a]
  {
    var p := PrevKnown(vs, i);
    assert p == Some(a);
    assert NextKnown(vs, i + 1).None?;
    assert FillLinear(vs)[i] == FillAt(vs, i);
  }

  function StimColumn(rows: seq<MaskedRow>): (vs: seq<Option<real>>)
    ensures |vs| == |rows|
    ensures forall i :: 0 <= i < |rows| ==> vs[i] == rows[i].stimPos
  {
    seq(|rows|, i requires 0 <= i < |rows| => rows[i].stimPos)
  }

  function UserColumn(rows: seq<MaskedRow>): (vs: seq<Option<real>>)
    ensures |vs| == |rows|
    ensures forall i :: 0 <= i < |rows| ==> vs[i] == rows[i].userPos
  {
    seq(|rows|, i requires 0 <= i < |rows| => rows[i].userPos)
  }

  /** Both position columns interpolated; the other columns untouched. */
  function FillPositions(rows: seq<MaskedRow>): (r: seq<MaskedRow>)
    ensures |r| == |rows|
  {
    var stim := FillLinear(StimColumn(rows));
    var user := FillLinear(UserColumn(rows));
    seq(|rows|, i requires 0 <= i < |rows| => rows[i].(stimPos := stim[i], userPos := user[i]))
  }

  // ---------------------------------------------------------------------
  // Resampling

  /** `data.dropna(subset=['flip_time'])`. */
  function Timed(rows: seq<MaskedRow>): (r: seq<MaskedRow>)
    ensures |r| <= |rows|
    ensures forall i :: 0 <= i < |r| ==> r[i].flipTime.Some? && r[i] in rows
    ensures (forall i :: 0 <= i < |rows| ==> rows[i].flipTime.Some?) ==> r == rows
    ensures r == [] <==> forall i :: 0 <= i < |rows| ==> rows[i].flipTime.None?
  {
    if rows == [] then []
    else
      var last := rows[|rows| - 1];
      assert rows == rows[..|rows| - 1] + [last];
      Timed(rows[..|rows| - 1]) + if last.flipTime.Some? then [last] else []
  }

  /** Dropping the untimed rows of two tables one after the other is dropping
      them from the two tables joined: exactly the timed rows survive, in
      their order. */
  lemma {:induction false} TimedAppend(a: seq<MaskedRow>, b: seq<MaskedRow>)
    ensures Timed(a + b) == Timed(a) + Timed(b)
    decreases |b|
  {
    if b == [] {
      assert a + b == a;
    } else {
      var last := b[|b| - 1];
      var init := b[..|b| - 1];
      assert (a + b)[..|a + b| - 1] == a + init;
      assert (a + b)[|a + b| - 1] == last;
      TimedAppend(a, init);
    }
  }

  /** A single row survives exactly when it carries a time. */
  lemma TimedSingle(row: MaskedRow)
    ensures Timed([row]) == if row.flipTime.Some? then [row] else []
  {
    assert [row][..0] == [];
  }

  function TimeColumn(rows: seq<MaskedRow>): (ts: seq<real>)
    requires forall i :: 0 <= i < |rows| ==> rows[i].flipTime.Some?
    ensures |ts| == |rows|
    ensures forall i :: 0 <= i < |rows| ==> ts[i] == rows[i].flipTime.value
  {
    seq(|rows|, i requires 0 <= i < |rows| => rows[i].flipTime.value)
  }

  /** `np.interp` over knots whose values may be NaN: as `LinearInterp`, but
      a point strictly inside an interval with a NaN end is NaN, while a
      point on a knot or outside the knots takes that knot's value. */
  function InterpOptFrom(xp: seq<real>, fp: seq<Option<real>>, x: real, j: nat): Option<real>
    requires |xp| == |fp| && j < |xp| && xp[j] <= x
    decreases |xp| - j
  {
    if j == |xp| - 1 then fp[j]
    else if x < xp[j + 1] then
      if x == xp[j] then fp[j]
      else if fp[j].Some? && fp[j + 1].Some? then
        Some(Lerp(xp[j], fp[j].value, xp[j + 1], fp[j + 1].value, x))
      else None
    else InterpOptFrom(xp, fp, x, j + 1)
  }

  function InterpOpt(xp: seq<real>, fp: seq<Option<real>>, x: real): Option<real>
    requires |xp| == |fp| > 0
  {
    if x < xp[0] then fp[0] else InterpOptFrom(xp, fp, x, 0)
  }

  function Values(fp: seq<Option<real>>): (vs: seq<real>)
    requires forall i :: 0 <= i < |fp| ==> fp[i].Some?
    ensures |vs| == |fp|
    ensures forall i :: 0 <= i < |fp| ==> fp[i] == Some(vs[i])
  {
    seq(|fp|, i requires 0 <= i < |fp| => fp[i].value)
  }

  lemma {:induction false} InterpOptFromKnown(xp: seq<real>, fp: seq<Option<real>>, x: real, j: nat)
    requires |xp| == |fp| && j < |xp| && xp[j] <= x
    requires forall i :: 0 <= i < |fp| ==> fp[i].Some?
    ensures InterpOptFrom(xp, fp, x, j) == Some(InterpFrom(xp, Values(fp), x, j))
    decreases |xp| - j
  {
    var vs := Values(fp);
    if j < |xp| - 1 {
      if x >= xp[j + 1] {
        InterpOptFromKnown(xp, fp, x, j + 1);
      } else if x == xp[j] {
        LerpAtStart(xp[j], vs[j], xp[j + 1], vs[j + 1]);
      } else {
        assert fp[j].value == vs[j] && fp[j + 1].value == vs[j + 1];
      }
    }
  }

  /** Without NaN the interpolation is `np.interp` on plain numbers. */
  lemma InterpOptKnown(xp: seq<real>, fp: seq<Option<real>>, x: real)
    requires |xp| == |fp| > 0
    requires forall i :: 0 <= i < |fp| ==> fp[i].Some?
    ensures InterpOpt(xp, fp, x) == Some(LinearInterp(xp, Values(fp), x))
  {
    if x >= xp[0] {
      InterpOptFromKnown(xp, fp, x, 0);
    }
  }

  lemma {:induction false} InterpOptFromUnknown(xp: seq<real>, fp: seq<Option<real>>, x: real, j: nat)
    requires |xp| == |fp| && j < |xp| && xp[j] <= x
    requires forall i :: 0 <= i < |fp| ==> fp[i].None?
    ensures InterpOptFrom(xp, fp, x, j).None?
    decreases |xp| - j
  {
    if j < |xp| - 1 && x >= xp[j + 1] {
      InterpOptFromUnknown(xp, fp, x, j + 1);
    }
  }

  /** With every value NaN the interpolation is NaN everywhere. */
  lemma InterpOptUnknown(xp: seq<real>, fp: seq<Option<real>>, x: real)
    requires |xp| == |fp| > 0
    requires forall i :: 0 <= i < |fp| ==> fp[i].None?
    ensures InterpOpt(xp, fp, x).None?
  {
    if x >= xp[0] {
      InterpOptFromUnknown(xp, fp, x, 0);
    }
  }

  function MaskedSampleTimes(ss: seq<MaskedSample>): (ts: seq<real>)
    ensures |ts| == |ss|
    ensures forall i :: 0 <= i < |ss| ==> ts[i] == ss[i].flipTime
  {
    seq(|ss|, i requires 0 <= i < |ss| => ss[i].flipTime)
  }

  /** `resample_data(rows, f)` of this engine: rows of unknown time are
      dropped; an empty remainder raises IndexError (`iloc[0]`), a last time
      not after the first raises ValueError; otherwise both positions are
      interpolated on the grid `start + k / f` below the last time. */
  function Resample(rows: seq<MaskedRow>, f: real): (r: Result<seq<MaskedSample>>)
    requires f > 0.0
    ensures var t := Timed(rows);
      && (r.Err? <==> t == [] || t[0].flipTime.value >= t[|t| - 1].flipTime.value)
      && (r.Err? ==> (r.error == IndexError <==> t == []) && (r.error == IndexError || r.error == ValueError))
      && (r.Ok? ==> MaskedSampleTimes(r.value) == Arange(t[0].flipTime.value, t[|t| - 1].flipTime.value, 1.0 / f))
  {
    var t := Timed(rows);
    if t == [] then Err(IndexError)
    else
      var startTime := t[0].flipTime.value;
      var endTime := t[|t| - 1].flipTime.value;
      if startTime >= endTime then Err(ValueError)
      else
        var times := TimeColumn(t);
        var grid := Arange(startTime, endTime, 1.0 / f);
        Ok(seq(|grid|, i requires 0 <= i < |grid| =>
          MaskedSample(grid[i], InterpOpt(times, StimColumn(t), grid[i]), InterpOpt(times, UserColumn(t), grid[i]))))
  }

  /** On a table with every time and position known, the resampled output
      is the one of the current engine's resampler, which has no NaN. */
  lemma ResampleKnown(rows: seq<MaskedRow>, f: real, i: nat)
    requires f > 0.0
    requires forall j :: 0 <= j < |rows| ==> rows[j].flipTime.Some? && rows[j].stimPos.Some? && rows[j].userPos.Some?
    requires Resample(rows, f).Ok? && i < |Resample(rows, f).value|
    ensures var s := Resample(rows, f).value[i];
      var times := TimeColumn(rows);
      s.stimPos == Some(LinearInterp(times, Values(StimColumn(rows)), s.flipTime)) &&
      s.userPos == Some(LinearInterp(times, Values(UserColumn(rows)), s.flipTime))
  {
    var s := Resample(rows, f).value[i];
    assert Timed(rows) == rows;
    InterpOptKnown(TimeColumn(rows), StimColumn(rows), s.flipTime);
    InterpOptKnown(TimeColumn(rows), UserColumn(rows), s.flipTime);
  }

  // ---------------------------------------------------------------------
  // The whole repair

  /** `repair_tracking` of this engine: windows, outlier masking (which
      may raise), transitions from the unmasked table, the splice, filling
      of NaN positions, and resampling at 30 Hz. */
  function Repair(k: Kernels, data: seq<Row>, w: nat, target: real): (r: Result<seq<MaskedSample>>)
    requires k.Valid()
    ensures w >= 1 && |data| >= 2 ==> r == Err(BroadcastError)
    ensures data == [] ==> r == Err(IndexError)
  {
    WindowsInTable(data, w);
    var windows := WindowsOf(Segments(data, w));
    var flags :- AberrantOutcome(|data|, w);
    var trs :- Transitions(k, target, data, windows);
    Resample(FillPositions(SpliceAll(Mask(data, flags), windows, trs)), TargetFrequency)
  }

  /** When outlier detection succeeds there is nothing to splice: a segment
      needs a window of at least one frame and at least two rows. */
  lemma DetectionLeavesNoSegments(data: seq<Row>, w: nat)
    requires w == 0 || |data| <= 1
    ensures Segments(data, w) == []
  {
    var segs := Segments(data, w);
    if segs != [] {
      SegmentExistsIff(data, w, segs[0].window.crashIdx);
    }
  }

  /** Filling leaves columns that are NaN throughout NaN. */
  lemma FillKeepsUnknown(rows: seq<MaskedRow>)
    requires forall i :: 0 <= i < |rows| ==> rows[i].stimPos.None? && rows[i].userPos.None?
    ensures forall i :: 0 <= i < |rows| ==> FillPositions(rows)[i] == rows[i]
  {
    var stim, user := StimColumn(rows), UserColumn(rows);
    forall i | 0 <= i < |rows| ensures FillLinear(stim)[i].None? && FillLinear(user)[i].None? {
      assert forall j :: 0 <= j <= i ==> stim[j].None? && user[j].None?;
    }
  }

  /** Resampling a table without known positions gives none either. */
  lemma ResampleKeepsUnknown(rows: seq<MaskedRow>, f: real)
    requires f > 0.0
    requires forall i :: 0 <= i < |rows| ==> rows[i].stimPos.None? && rows[i].userPos.None?
    requires Resample(rows, f).Ok?
    ensures forall i :: 0 <= i < |Resample(rows, f).value| ==>
      Resample(rows, f).value[i].stimPos.None? && Resample(rows, f).value[i].userPos.None?
  {
    var t := Timed(rows);
    var times := TimeColumn(t);
    var out := Resample(rows, f).value;
    assert forall i :: 0 <= i < |t| ==> StimColumn(t)[i].None? && UserColumn(t)[i].None?;
    forall i | 0 <= i < |out| ensures out[i].stimPos.None? && out[i].userPos.None? {
      InterpOptUnknown(times, StimColumn(t), out[i].flipTime);
      InterpOptUnknown(times, UserColumn(t), out[i].flipTime);
    }
  }

  /** Whatever the input, a table this engine returns has no known position:
      either masking raises, or it masks every row and there is no segment
      to splice; filling leaves all-NaN columns NaN and interpolating NaN
      gives NaN. */
  lemma RepairLosesAllPositions(k: Kernels, data: seq<Row>, w: nat, target: real)
    requires k.Valid()
    requires Repair(k, data, w, target).Ok?
    ensures forall i :: 0 <= i < |Repair(k, data, w, target).value| ==>
      Repair(k, data, w, target).value[i].stimPos.None? && Repair(k, data, w, target).value[i].userPos.None?
  {
    var flags := AberrantOutcome(|data|, w).value;
    var masked := Mask(data, flags);
    assert Repair(k, data, w, target) == Resample(FillPositions(masked), TargetFrequency) by {
      DetectionLeavesNoSegments(data, w);
      WindowsInTable(data, w);
      assert WindowsOf(Segments(data, w)) == [];
    }
    forall i | 0 <= i < |data| ensures masked[i].stimPos.None? && masked[i].userPos.None? {
      MaskSpec(data, flags, i);
    }
    FillAndResampleKeepUnknown(masked, TargetFrequency);
  }

  /** A table without known positions keeps none through filling and
      resampling. */
  lemma FillAndResampleKeepUnknown(rows: seq<MaskedRow>, f: real)
    requires f > 0.0
    requires forall i :: 0 <= i < |rows| ==> rows[i].stimPos.None? && rows[i].userPos.None?
    requires Resample(FillPositions(rows), f).Ok?
    ensures forall i :: 0 <= i < |Resample(FillPositions(rows), f).value| ==>
      Resample(FillPositions(rows), f).value[i].stimPos.None? && Resample(FillPositions(rows), f).value[i].userPos.None?
  {
    FillKeepsUnknown(rows);
    assert FillPositions(rows) == rows;
    ResampleKeepsUnknown(rows, f);
  }

  /** The tracking table and the engine's parameters. */
  class CrashRepair {
    const data: seq<Row>
    const samplingRate: real
    const frameDuration: real
    const windowFrameCount: nat
    var targetMaxPosition: real

    /** `window_frame_count = int(window_size * sampling_rate)`. */
    constructor(data: seq<Row>, samplingRate: real, targetMaxPosition: real, windowSize: real)
      requires samplingRate > 0.0 && windowSize >= 0.0
      ensures this.data == data && this.samplingRate == samplingRate
      ensures frameDuration == 1.0 / samplingRate
      ensures this.targetMaxPosition == targetMaxPosition
      ensures windowFrameCount == (windowSize * samplingRate).Floor
    {
      this.data := data;
      this.samplingRate := samplingRate;
      frameDuration := 1.0 / samplingRate;
      this.targetMaxPosition := targetMaxPosition;
      assert windowSize * samplingRate >= 0.0;
      windowFrameCount := (windowSize * samplingRate).Floor;
    }

    /** `set_target_max_position`: the same 99th-percentile pick as the
        current engine. */
    method SetTargetMaxPosition() returns (outcome: Result<real>)
      modifies this
      ensures outcome == Percentile99(StimPositions(data))
      ensures targetMaxPosition == if outcome.Ok? then outcome.value else old(targetMaxPosition)
    {
      outcome := Percentile99(StimPositions(data));
      if outcome.Ok? {
        targetMaxPosition := outcome.value;
      }
    }

    /** `repair_tracking`, masking and splicing on array working copies. */
    method RepairTracking(k: Kernels) returns (r: Result<seq<MaskedSample>>)
      requires k.Valid()
      ensures r == Repair(k, data, windowFrameCount, targetMaxPosition)
    {
      var segments := FindCrashWindows(data, windowFrameCount);
      WindowsInTable(data, windowFrameCount);
      var aberrantFlags :- DetectAberrantData(k, StimPositions(data), windowFrameCount);
      var masked := Mask(data, aberrantFlags);
      var transitions :- Transitions(k, targetMaxPosition, data, segments);
      var repaired := ApplyTransitions(masked, segments, transitions);
      r := Resample(FillPositions(repaired), TargetFrequency);
    }
  }
}
