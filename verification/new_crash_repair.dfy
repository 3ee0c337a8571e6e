/** The alternative crash-repair engine: the same segments, a natural cubic
    spline through each window evaluated at the window's own times and passed
    through a Gaussian filter, and the same splice; no fallback time axis and
    no resampling. */
module NewEngine {
  import opened Wrappers
  import opened Table
  import opened SegmentFinder
  import opened Numerics
  import opened Splice

  /** `compute_transition`: no transition when either side has fewer than two
      rows; otherwise the window's own times, in order, with the splines'
      values there filtered. `CubicSpline` raises ValueError unless the times
      increase strictly, and nothing catches it. */
  function ComputeTransition(k: Kernels, pre: seq<Row>, post: seq<Row>): (r: Result<Option<seq<Sample>>>)
    requires k.Valid()
    ensures r == Ok(None) <==> |pre| < 2 || |post| < 2
    ensures r.Err? <==> |pre| >= 2 && |post| >= 2 && !StrictlyIncreasing(FlipTimes(pre + post))
    ensures r.Err? ==> r.error == ValueError
    ensures r.Ok? && r.value.Some? ==>
      SampleTimes(r.value.value) == FlipTimes(pre) + FlipTimes(post) && |r.value.value| == |pre| + |post|
  {
    if |pre| < 2 || |post| < 2 then Ok(None)
    else
      var times := FlipTimes(pre + post);
      FlipTimesConcat(pre, post);
      if !StrictlyIncreasing(times) then Err(ValueError)
      else
        var stim := k.gaussian(EvalAt(k.spline, times, StimPositions(pre + post), times));
        var user := k.gaussian(EvalAt(k.spline, times, UserPositions(pre + post), times));
        Ok(Some(Samples(times, stim, user)))
  }

  /** The spline passes through its knots, so a transition is the Gaussian
      filter applied to the window's own positions. */
  lemma TransitionFiltersData(k: Kernels, pre: seq<Row>, post: seq<Row>)
    requires k.Valid()
    requires ComputeTransition(k, pre, post).Ok? && ComputeTransition(k, pre, post).value.Some?
    ensures var tr := ComputeTransition(k, pre, post).value.value;
      forall i :: 0 <= i < |tr| ==>
        tr[i].stimPos == k.gaussian(StimPositions(pre + post))[i] &&
        tr[i].userPos == k.gaussian(UserPositions(pre + post))[i]
  {
    var times := FlipTimes(pre + post);
    EvalAtKnots(k.spline, times, StimPositions(pre + post));
    EvalAtKnots(k.spline, times, UserPositions(pre + post));
  }

  /** The transitions of all segments, in order; the first ValueError ends
      `repair_tracking`. Every transition has the window's length, so the
      length-mismatch skip never fires. */
  function Transitions(k: Kernels, data: seq<Row>, segs: seq<Segment>): (r: Result<seq<Option<seq<Sample>>>>)
    requires k.Valid() && InTable(data, segs)
    ensures r.Ok? ==> |r.value| == |segs|
    ensures r.Ok? ==> forall j :: 0 <= j < |segs| && r.value[j].Some? ==> Applies(segs, r.value, j)
    ensures r.Err? ==> r.error == ValueError
  {
    if segs == [] then Ok([])
    else
      var j := |segs| - 1;
      assert InTable(data, segs[..j]) by {
        forall i | 0 <= i < j ensures segs[..j][i] == segs[i] { }
      }
      var before :- Transitions(k, data, segs[..j]);
      var t :- ComputeTransition(k, PreRows(data, segs[j]), PostRows(data, segs[j]));
      Ok(before + [t])
  }

  /** When the transitions are all computed, each segment's own computation
      succeeded. */
  lemma {:induction false} TransitionsOkEach(k: Kernels, data: seq<Row>, segs: seq<Segment>, j: nat)
    requires k.Valid() && InTable(data, segs) && j < |segs|
    requires Transitions(k, data, segs).Ok?
    ensures ComputeTransition(k, PreRows(data, segs[j]), PostRows(data, segs[j])).Ok?
  {
    var last := |segs| - 1;
    assert InTable(data, segs[..last]) by {
      forall i | 0 <= i < last ensures segs[..last][i] == segs[i] { }
    }
    if j < last {
      TransitionsOkEach(k, data, segs[..last], j);
      assert segs[..last][j] == segs[j];
    }
  }

  /** `repair_tracking`: the spliced working copy, not resampled. */
  function Repair(k: Kernels, data: seq<Row>, w: nat): (r: Result<seq<Row>>)
    requires k.Valid()
    ensures r.Ok? ==> |r.value| == |data|
    ensures r.Err? ==> r.error == ValueError
  {
    SegmentsInTable(data, w);
    var segs := Segments(data, w);
    var trs :- Transitions(k, data, segs);
    Ok(SpliceAll(data, segs, trs))
  }

  /** Rows outside every segment's window come back unchanged. */
  lemma RepairKeepsOutside(k: Kernels, data: seq<Row>, w: nat, i: nat)
    requires k.Valid() && i < |data|
    requires Repair(k, data, w).Ok?
    requires forall j :: 0 <= j < |Segments(data, w)| ==> !Covers(Segments(data, w)[j], i)
    ensures Repair(k, data, w).value[i] == data[i]
  {
    SegmentsInTable(data, w);
    var segs := Segments(data, w);
    var trs := Transitions(k, data, segs).value;
    SpliceAllOutside(data, segs, trs, i);
  }

  /** A window of at least two rows on each side whose times do not increase
      strictly makes the whole repair raise. */
  lemma RepairRejectsUnorderedWindow(k: Kernels, data: seq<Row>, w: nat, j: nat)
    requires k.Valid()
    requires j < |Segments(data, w)|
    requires var s := Segments(data, w)[j];
      && s.window.crashIdx - s.window.preStart >= 2
      && s.window.postEnd - s.window.crashIdx >= 2
      && s.window.preStart <= s.window.postEnd <= |data|
      && !StrictlyIncreasing(FlipTimes(data[s.window.preStart..s.window.postEnd]))
    ensures Repair(k, data, w) == Err(ValueError)
  {
    SegmentsInTable(data, w);
    var segs := Segments(data, w);
    var s := segs[j];
    var pre, post := PreRows(data, s), PostRows(data, s);
    assert pre + post == data[s.window.preStart..s.window.postEnd];
    if Transitions(k, data, segs).Ok? {
      TransitionsOkEach(k, data, segs, j);
      assert false;
    }
  }

  /** A table whose `crash_count` never changes has no segment and comes
      back as it went in. */
  lemma RepairWithoutCrashes(k: Kernels, data: seq<Row>, w: nat)
    requires k.Valid()
    requires forall i :: 0 < i < |data| ==> data[i].crashCount == data[i - 1].crashCount
    ensures Repair(k, data, w) == Ok(data)
  {
    NoChangeNoSegments(data, w);
  }

  /** The tracking table and the engine's parameters. */
  class CrashRepair {
    const data: seq<Row>
    const samplingRate: real
    const frameDuration: real
    const windowFrameCount: nat
    var targetMaxPosition: real

    /** `window_frame_count = int(window_size * sampling_rate)`. */
    constructor(data: seq<Row>, samplingRate: real, targetMaxPosition: real, windowSize: real)
      requires samplingRate > 0.0 && windowSize >= 0.0
      ensures this.data == data && this.samplingRate == samplingRate
      ensures frameDuration == 1.0 / samplingRate
      ensures this.targetMaxPosition == targetMaxPosition
      ensures windowFrameCount == (windowSize * samplingRate).Floor
    {
      this.data := data;
      this.samplingRate := samplingRate;
      frameDuration := 1.0 / samplingRate;
      this.targetMaxPosition := targetMaxPosition;
      assert windowSize * samplingRate >= 0.0;
      windowFrameCount := (windowSize * samplingRate).Floor;
    }

    /** `repair_tracking`, splicing into an array working copy. */
    method RepairTracking(k: Kernels) returns (r: Result<seq<Row>>)
      requires k.Valid()
      ensures r == Repair(k, data, windowFrameCount)
    {
      var segments := FindCrashSegments(data, windowFrameCount);
      SegmentsInTable(data, windowFrameCount);
      var transitions :- Transitions(k, data, segments);
      var repaired := ApplyTransitions(data, segments, transitions);
      r := Ok(repaired);
    }
  }
}
