/** The current crash-repair engine: find the segments, build a PCHIP
    transition for each (on the raw times, or on `restructure_arr` of them when
    the raw times are not strictly increasing), dampen and smooth it, splice it
    into a working copy and resample the result on a uniform grid. */
module CurrentEngine {
  import opened Wrappers
  import opened Table
  import opened Sorting
  import opened SegmentFinder
  import opened TimeAxis
  import opened Numerics
  import opened Splice

  /** The frequency `repair_tracking` resamples at. */
  const TargetFrequency: real := 30.0

  /** PCHIP accepts the raw times, or `restructure_arr` of them. */
  predicate Fittable(knots: seq<real>)
    requires |knots| > 0
  {
    StrictlyIncreasing(knots) || StrictlyIncreasing(Restructure(knots))
  }

  /** The abscissa the two PCHIP fits are built on. PCHIP refuses an
      abscissa that is not strictly increasing; the first refusal is caught
      and the fit retried on `restructure_arr` of the times; a second refusal
      is caught too, printed, and leaves the interpolator unbound, so the next
      statement raises UnboundLocalError. */
  function FitAbscissa(knots: seq<real>): (r: Result<seq<real>>)
    requires |knots| > 0
    ensures r.Ok? ==> StrictlyIncreasing(r.value) && |r.value| == |knots|
    ensures StrictlyIncreasing(knots) ==> r == Ok(knots)
    ensures r.Ok? && r.value != knots ==> r.value == Restructure(knots)
    ensures r.Err? <==> !Fittable(knots)
    ensures r.Err? ==> r.error == UnboundLocalError
  {
    if StrictlyIncreasing(knots) then Ok(knots)
    else if StrictlyIncreasing(Restructure(knots)) then Ok(Restructure(knots))
    else Err(UnboundLocalError)
  }

  /** `compute_transition`: no transition when either side has fewer than two
      rows; otherwise `len(pre) + len(post)` samples on the evenly spaced grid
      from the first time before the crash to the last time after it, with
      positions read off the PCHIP interpolants, dampened towards the target
      and smoothed. */
  function ComputeTransition(k: Kernels, target: real, pre: seq<Row>, post: seq<Row>): (r: Result<Option<seq<Sample>>>)
    requires k.Valid()
    ensures r == Ok(None) <==> |pre| < 2 || |post| < 2
    ensures r.Err? <==> |pre| >= 2 && |post| >= 2 && !Fittable(FlipTimes(pre + post))
    ensures r.Err? ==> r.error == UnboundLocalError
    ensures r.Ok? && r.value.Some? ==>
      && |r.value.value| == |pre| + |post|
      && SampleTimes(r.value.value) == Linspace(pre[0].flipTime, post[|post| - 1].flipTime, |pre| + |post|)
  {
    if |pre| < 2 || |post| < 2 then Ok(None)
    else
      var n := |pre| + |post|;
      var times := Linspace(pre[0].flipTime, post[|post| - 1].flipTime, n);
      var abscissa :- FitAbscissa(FlipTimes(pre + post));
      var stim := Positions(k, target, abscissa, StimPositions(pre + post), times);
      var user := Positions(k, target, abscissa, UserPositions(pre + post), times);
      Ok(Some(Samples(times, stim, user)))
  }

  /** One position column of a transition: the PCHIP interpolant through
      `(abscissa, values)` read at `times`, dampened, then smoothed. */
  function Positions(k: Kernels, target: real, abscissa: seq<real>, values: seq<real>, times: seq<real>): (r: seq<real>)
    requires k.Valid()
    ensures |r| == |times|
  {
    Smooth(k, DampenAll(k, EvalAt(k.pchip, abscissa, values, times), target))
  }

  /** The samples run from time `a` to time `b` in equal steps. */
  predicate EvenlySpaced(tr: seq<Sample>, a: real, b: real) {
    && |tr| >= 2
    && tr[0].flipTime == a
    && tr[|tr| - 1].flipTime == b
    && forall i :: 0 <= i < |tr| - 1 ==> tr[i + 1].flipTime - tr[i].flipTime == (b - a) / ((|tr| - 1) as real)
  }

  /** The times of a transition run evenly from the first time before the
      crash to the last time after it, in `len(pre) + len(post)` samples. */
  lemma TransitionTimeGrid(k: Kernels, target: real, pre: seq<Row>, post: seq<Row>)
    requires k.Valid()
    requires ComputeTransition(k, target, pre, post).Ok?
    requires ComputeTransition(k, target, pre, post).value.Some?
    ensures |ComputeTransition(k, target, pre, post).value.value| == |pre| + |post|
    ensures EvenlySpaced(ComputeTransition(k, target, pre, post).value.value, pre[0].flipTime, post[|post| - 1].flipTime)
  {
    var tr := ComputeTransition(k, target, pre, post).value.value;
    EvenGrid(tr, pre[0].flipTime, post[|post| - 1].flipTime);
  }

  /** Samples whose times are `linspace(a, b, len)` are evenly spaced. */
  lemma EvenGrid(tr: seq<Sample>, a: real, b: real)
    requires |tr| >= 2 && SampleTimes(tr) == Linspace(a, b, |tr|)
    ensures EvenlySpaced(tr, a, b)
  {
    var n := |tr|;
    LinspaceSpec(a, b, n);
    var times := SampleTimes(tr);
    forall i | 0 <= i < n - 1 ensures tr[i + 1].flipTime - tr[i].flipTime == (b - a) / ((n - 1) as real) {
      assert tr[i + 1].flipTime == times[i + 1] && tr[i].flipTime == times[i];
    }
    assert tr[0].flipTime == times[0];
    assert tr[n - 1].flipTime == times[n - 1];
  }

  /** A transition of fewer than six samples is not smoothed, so every
      position in it lies strictly within the target of a positive target
      (the only case in which the dampening bound survives). */
  lemma ShortTransitionWithinTarget(k: Kernels, target: real, pre: seq<Row>, post: seq<Row>)
    requires k.Valid() && target > 0.0
    requires |pre| + |post| < 6
    requires ComputeTransition(k, target, pre, post).Ok?
    requires ComputeTransition(k, target, pre, post).value.Some?
    ensures forall i :: 0 <= i < |ComputeTransition(k, target, pre, post).value.value| ==>
      var s := ComputeTransition(k, target, pre, post).value.value[i];
      Abs(s.stimPos) < target && Abs(s.userPos) < target
  {
    var tr := ComputeTransition(k, target, pre, post).value.value;
    var n := |pre| + |post|;
    var times := Linspace(pre[0].flipTime, post[|post| - 1].flipTime, n);
    var abscissa := FitAbscissa(FlipTimes(pre + post)).value;
    var stimRaw := EvalAt(k.pchip, abscissa, StimPositions(pre + post), times);
    var userRaw := EvalAt(k.pchip, abscissa, UserPositions(pre + post), times);
    assert tr == Samples(times, Positions(k, target, abscissa, StimPositions(pre + post), times),
                         Positions(k, target, abscissa, UserPositions(pre + post), times));
    assert Positions(k, target, abscissa, StimPositions(pre + post), times) == DampenAll(k, stimRaw, target);
    assert Positions(k, target, abscissa, UserPositions(pre + post), times) == DampenAll(k, userRaw, target);
    forall i | 0 <= i < |tr| ensures Abs(tr[i].stimPos) < target && Abs(tr[i].userPos) < target {
      assert tr[i].stimPos == SmoothDampen(k, stimRaw[i], target);
      assert tr[i].userPos == SmoothDampen(k, userRaw[i], target);
      DampenWithinTarget(k, stimRaw[i], target);
      DampenWithinTarget(k, userRaw[i], target);
    }
  }

  /** The transitions of all segments, in order; the first one that raises
      ends `repair_tracking` with its exception. Every transition produced
      has exactly the window's length, so the length-mismatch skip never
      fires. */
  function Transitions(k: Kernels, target: real, data: seq<Row>, segs: seq<Segment>): (r: Result<seq<Option<seq<Sample>>>>)
    requires k.Valid() && InTable(data, segs)
    ensures r.Ok? ==> |r.value| == |segs|
    ensures r.Ok? ==> forall j :: 0 <= j < |segs| && r.value[j].Some? ==> Applies(segs, r.value, j)
    ensures r.Err? ==> r.error == UnboundLocalError
  {
    if segs == [] then Ok([])
    else
      var j := |segs| - 1;
      assert InTable(data, segs[..j]) by {
        forall i | 0 <= i < j ensures segs[..j][i] == segs[i] { }
      }
      var before :- Transitions(k, target, data, segs[..j]);
      var t :- ComputeTransition(k, target, PreRows(data, segs[j]), PostRows(data, segs[j]));
      Ok(before + [t])
  }

  /** `resample_data(rows, f)`: the grid `start + k / f` below the last time,
      with both positions interpolated linearly over the rows' times. Only
      these three columns are produced; `iloc[0]` on an empty table raises
      IndexError. */
  function Resample(rows: seq<Row>, f: real): (r: Result<seq<Sample>>)
    requires f > 0.0
    ensures r.Err? <==> |rows| == 0
    ensures r.Err? ==> r.error == IndexError
    ensures r.Ok? ==> SampleTimes(r.value) == Arange(rows[0].flipTime, rows[|rows| - 1].flipTime, 1.0 / f)
  {
    if |rows| == 0 then Err(IndexError)
    else
      var times := FlipTimes(rows);
      var grid := Arange(rows[0].flipTime, rows[|rows| - 1].flipTime, 1.0 / f);
      Ok(Samples(grid, InterpAll(times, StimPositions(rows), grid), InterpAll(times, UserPositions(rows), grid)))
  }

  /** The resampled table depends on the time and position columns alone:
      two tables that differ only in `crash_count` and `did_crash` resample
      to the same result, which is why the bookkeeping `repair_tracking`
      writes is absent from its output. */
  lemma ResampleReadsOnlyPositions(a: seq<Row>, b: seq<Row>, f: real)
    requires f > 0.0
    requires Project(a) == Project(b)
    ensures Resample(a, f) == Resample(b, f)
  {
    assert |a| == |Project(a)| == |Project(b)| == |b|;
    forall i | 0 <= i < |a| ensures a[i].flipTime == b[i].flipTime && a[i].stimPos == b[i].stimPos && a[i].userPos == b[i].userPos {
      assert Project(a)[i] == Project(b)[i];
    }
    assert FlipTimes(a) == FlipTimes(b);
    assert StimPositions(a) == StimPositions(b);
    assert UserPositions(a) == UserPositions(b);
  }

  /** The grid points all lie before the last time, the next point would
      not, and a table whose last time is not after its first resamples to
      nothing. */
  lemma ResampleGrid(rows: seq<Row>, f: real)
    requires f > 0.0 && |rows| > 0
    ensures var g := Resample(rows, f).value;
      && (forall i :: 0 <= i < |g| ==> g[i].flipTime < rows[|rows| - 1].flipTime)
      && rows[0].flipTime + (|g| as real) * (1.0 / f) >= rows[|rows| - 1].flipTime
      && (g == [] <==> rows[0].flipTime >= rows[|rows| - 1].flipTime)
  {
    var g := Resample(rows, f).value;
    ArangeSpec(rows[0].flipTime, rows[|rows| - 1].flipTime, 1.0 / f);
    forall i | 0 <= i < |g| ensures g[i].flipTime == SampleTimes(g)[i] { }
  }

  /** Resampling is not idempotent: a table already sampled every `1 / f`
      seconds comes back without its last row (the grid stops before the
      last time). */
  lemma ResampleUniformDropsLast(rows: seq<Row>, f: real)
    requires f > 0.0 && |rows| > 0
    requires forall i :: 0 <= i < |rows| ==> rows[i].flipTime == rows[0].flipTime + (i as real) * (1.0 / f)
    ensures Resample(rows, f) == Ok(Project(rows)[..|rows| - 1])
  {
    var n := |rows|;
    var step := 1.0 / f;
    var times := FlipTimes(rows);
    UniformGrid(rows[0].flipTime, step, times);
    var grid := Arange(rows[0].flipTime, rows[n - 1].flipTime, step);
    var r := Resample(rows, f).value;
    assert |r| == n - 1;
    var expected := Project(rows)[..n - 1];
    forall i | 0 <= i < n - 1 ensures r[i] == expected[i] {
      assert grid[i] == times[i];
      InterpAtKnot(times, StimPositions(rows), i);
      InterpAtKnot(times, UserPositions(rows), i);
    }
    assert r == expected;
  }

  /** `repair_tracking`: segments, their transitions (the first exception
      ends the call), the splice, and resampling at 30 Hz. */
  function Repair(k: Kernels, data: seq<Row>, w: nat, target: real): (r: Result<seq<Sample>>)
    requires k.Valid()
    ensures r.Err? ==> r.error == UnboundLocalError || (r.error == IndexError && data == [])
    ensures data == [] ==> r == Err(IndexError)
  {
    SegmentsInTable(data, w);
    var segs := Segments(data, w);
    var trs :- Transitions(k, target, data, segs);
    Resample(SpliceAll(data, segs, trs), TargetFrequency)
  }

  /** A successful run of `compute_transition` over several windows
      succeeded on all windows but the last, and on the last. */
  lemma TransitionsOkStep(k: Kernels, target: real, data: seq<Row>, segs: seq<Segment>)
    requires k.Valid() && InTable(data, segs) && segs != []
    requires Transitions(k, target, data, segs).Ok?
    ensures InTable(data, segs[..|segs| - 1])
    ensures Transitions(k, target, data, segs[..|segs| - 1]).Ok?
    ensures ComputeTransition(k, target, PreRows(data, segs[|segs| - 1]), PostRows(data, segs[|segs| - 1])).Ok?
  {
    var last := |segs| - 1;
    assert InTable(data, segs[..last]) by {
      forall i | 0 <= i < last ensures segs[..last][i] == segs[i] { }
    }
  }

  /** Every transition of a table whose transitions all succeed succeeds. */
  lemma {:induction false} TransitionsOkEach(k: Kernels, target: real, data: seq<Row>, segs: seq<Segment>, j: nat)
    requires k.Valid() && InTable(data, segs) && j < |segs|
    requires Transitions(k, target, data, segs).Ok?
    ensures ComputeTransition(k, target, PreRows(data, segs[j]), PostRows(data, segs[j])).Ok?
  {
    var last := |segs| - 1;
    TransitionsOkStep(k, target, data, segs);
    if j < last {
      TransitionsOkEach(k, target, data, segs[..last], j);
      assert segs[..last][j] == segs[j];
    } else {
      assert j == last;
    }
  }

  /** One window whose transition raises makes all the transitions raise. */
  lemma TransitionsRejectAt(k: Kernels, target: real, data: seq<Row>, segs: seq<Segment>, j: nat)
    requires k.Valid() && InTable(data, segs) && j < |segs|
    requires ComputeTransition(k, target, PreRows(data, segs[j]), PostRows(data, segs[j])).Err?
    ensures Transitions(k, target, data, segs) == Err(UnboundLocalError)
  {
    if Transitions(k, target, data, segs).Ok? {
      TransitionsOkEach(k, target, data, segs, j);
      assert false;
    }
  }

  /** The transition of a window with two or more rows per side whose times
      neither PCHIP fit accepts raises. */
  lemma UnfittableWindowRaises(k: Kernels, target: real, data: seq<Row>, s: Segment)
    requires k.Valid()
    requires s.window.crashIdx - s.window.preStart >= 2
    requires s.window.postEnd - s.window.crashIdx >= 2
    requires s.window.preStart <= s.window.postEnd <= |data|
    requires !Fittable(FlipTimes(data[s.window.preStart..s.window.postEnd]))
    ensures ComputeTransition(k, target, PreRows(data, s), PostRows(data, s)).Err?
  {
    assert PreRows(data, s) + PostRows(data, s) == data[s.window.preStart..s.window.postEnd];
  }

  /** A window of at least two rows on each side whose times neither PCHIP
      fit accepts leaves the interpolator unbound: the whole repair raises. */
  lemma RepairRejectsUnfittableWindow(k: Kernels, data: seq<Row>, w: nat, target: real, j: nat)
    requires k.Valid()
    requires j < |Segments(data, w)|
    requires var s := Segments(data, w)[j];
      && s.window.crashIdx - s.window.preStart >= 2
      && s.window.postEnd - s.window.crashIdx >= 2
      && s.window.preStart <= s.window.postEnd <= |data|
      && !Fittable(FlipTimes(data[s.window.preStart..s.window.postEnd]))
    ensures Repair(k, data, w, target) == Err(UnboundLocalError)
  {
    SegmentsInTable(data, w);
    var segs := Segments(data, w);
    UnfittableWindowRaises(k, target, data, segs[j]);
    TransitionsRejectAt(k, target, data, segs, j);
  }

  /** A table whose `crash_count` never changes is only resampled. */
  lemma RepairWithoutCrashes(k: Kernels, data: seq<Row>, w: nat, target: real)
    requires k.Valid()
    requires forall i :: 0 < i < |data| ==> data[i].crashCount == data[i - 1].crashCount
    ensures Repair(k, data, w, target) == Resample(data, TargetFrequency)
  {
    NoChangeNoSegments(data, w);
  }

  /** The tracking table and the engine's parameters. */
  class CrashRepair {
    const data: seq<Row>
    const samplingRate: real
    const frameDuration: real
    const windowFrameCount: nat
    var targetMaxPosition: real

    /** `window_frame_count = int(window_size * sampling_rate)`. */
    constructor(data: seq<Row>, samplingRate: real, targetMaxPosition: real, windowSize: real)
      requires samplingRate > 0.0 && windowSize >= 0.0
      ensures this.data == data && this.samplingRate == samplingRate
      ensures frameDuration == 1.0 / samplingRate
      ensures this.targetMaxPosition == targetMaxPosition
      ensures windowFrameCount == (windowSize * samplingRate).Floor
    {
      this.data := data;
      this.samplingRate := samplingRate;
      frameDuration := 1.0 / samplingRate;
      this.targetMaxPosition := targetMaxPosition;
      assert windowSize * samplingRate >= 0.0;
      windowFrameCount := (windowSize * samplingRate).Floor;
    }

    /** `set_target_max_position`: the 99th-percentile pick of the absolute
        stimulus positions; on an empty table the call raises and the target
        is left as it was. */
    method SetTargetMaxPosition() returns (outcome: Result<real>)
      modifies this
      ensures outcome == Percentile99(StimPositions(data))
      ensures targetMaxPosition == if outcome.Ok? then outcome.value else old(targetMaxPosition)
    {
      outcome := Percentile99(StimPositions(data));
      if outcome.Ok? {
        targetMaxPosition := outcome.value;
      }
    }

    /** `repair_tracking`, splicing into an array working copy. */
    method RepairTracking(k: Kernels) returns (r: Result<seq<Sample>>)
      requires k.Valid()
      ensures r == Repair(k, data, windowFrameCount, targetMaxPosition)
    {
      var segments := FindCrashSegments(data, windowFrameCount);
      SegmentsInTable(data, windowFrameCount);
      var transitions :- Transitions(k, targetMaxPosition, data, segments);
      var repaired := ApplyTransitions(data, segments, transitions);
      r := Resample(repaired, TargetFrequency);
    }
  }
}
