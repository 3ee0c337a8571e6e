/** The segment finder shared by the three crash-repair engines
    (`find_crash_segments`): every position where `crash_count` changes is a
    crash transition, and each transition gets a pre-window that ends at it and
    a post-window that starts at it, both at most `w` rows long and cut at the
    ends of the table. */
module SegmentFinder {
  import opened Wrappers
  import opened Table

  predicate Ascending(s: seq<nat>) {
    forall a, b :: 0 <= a < b < |s| ==> s[a] < s[b]
  }

  /** The positions from `i` on where the count differs from the one before. */
  function ChangesFrom(cc: seq<int>, i: nat): (r: seq<nat>)
    requires 1 <= i <= |cc|
    ensures forall k :: 0 <= k < |r| ==> i <= r[k] < |cc|
    decreases |cc| - i
  {
    if i == |cc| then []
    else (if cc[i] != cc[i - 1] then [i] else []) + ChangesFrom(cc, i + 1)
  }

  /** `data[data['crash_count'].diff() != 0].index.tolist()`: pandas gives NaN
      as the first difference and NaN != 0, so position 0 is always listed. */
  function TransitionIndices(cc: seq<int>): (r: seq<nat>)
    ensures forall k :: 0 <= k < |r| ==> r[k] < |cc|
  {
    if |cc| == 0 then [] else [0] + ChangesFrom(cc, 1)
  }

  lemma {:induction false} ChangesFromSpec(cc: seq<int>, i: nat)
    requires 1 <= i <= |cc|
    ensures forall k: nat :: k in ChangesFrom(cc, i) <==> i <= k < |cc| && cc[k] != cc[k - 1]
    ensures Ascending(ChangesFrom(cc, i))
    decreases |cc| - i
  {
    if i < |cc| {
      ChangesFromSpec(cc, i + 1);
      var head: seq<nat> := if cc[i] != cc[i - 1] then [i] else [];
      assert ChangesFrom(cc, i) == head + ChangesFrom(cc, i + 1);
    }
  }

  /** The transitions are position 0 (for a non-empty table) and every later
      position whose count differs from its predecessor's, in ascending order. */
  lemma TransitionIndicesSpec(cc: seq<int>)
    ensures forall k: nat :: k in TransitionIndices(cc) <==> k < |cc| && (k == 0 || cc[k] != cc[k - 1])
    ensures Ascending(TransitionIndices(cc))
  {
    var r := TransitionIndices(cc);
    if |cc| == 0 {
      assert r == [];
    } else {
      var rest := ChangesFrom(cc, 1);
      ChangesFromSpec(cc, 1);
      assert r == [0] + rest;
      forall k: nat ensures k in r <==> k < |cc| && (k == 0 || cc[k] != cc[k - 1]) {
        assert k in r <==> k == 0 || k in rest;
      }
      forall a, b | 0 <= a < b < |r| ensures r[a] < r[b] {
        assert r[b] == rest[b - 1];
        if a > 0 {
          assert r[a] == rest[a - 1];
        }
      }
    }
  }

  /** The rows `[preStart, crashIdx)` before a crash and `[crashIdx, postEnd)`
      after it, with the time between the last row before and the first after. */
  datatype Window = Window(crashIdx: nat, preStart: nat, postEnd: nat, gapDuration: real)

  /** A window and the `is_partial` flag: one of its two halves was cut short. */
  datatype Segment = Segment(window: Window, isPartial: bool)

  /** One turn of the finder's loop, for transition position `i`: no segment
      when either half would be empty. */
  function SegmentAt(data: seq<Row>, w: nat, i: nat): Option<Segment>
    requires i < |data|
  {
    var preLen := Min(w, i);
    var postLen := Min(w, |data| - i);
    if preLen == 0 || postLen == 0 then None
    else Some(Segment(Window(i, i - preLen, i + postLen, data[i].flipTime - data[i - 1].flipTime),
                      preLen < w || postLen < w))
  }

  /** The segments of the transitions `ts`, in their order. */
  function SegmentsOf(data: seq<Row>, w: nat, ts: seq<nat>): seq<Segment>
    requires forall k :: 0 <= k < |ts| ==> ts[k] < |data|
  {
    if ts == [] then []
    else
      SegmentsOf(data, w, ts[..|ts| - 1]) +
      match SegmentAt(data, w, ts[|ts| - 1])
      case None => []
      case Some(s) => [s]
  }

  function Segments(data: seq<Row>, w: nat): seq<Segment> {
    SegmentsOf(data, w, TransitionIndices(CrashCounts(data)))
  }

  /** One more transition: its segment, if any, is appended. */
  lemma SegmentsOfPrefix(data: seq<Row>, w: nat, ts: seq<nat>, j: nat)
    requires forall k :: 0 <= k < |ts| ==> ts[k] < |data|
    requires j < |ts|
    ensures SegmentAt(data, w, ts[j]).None? ==> SegmentsOf(data, w, ts[..j + 1]) == SegmentsOf(data, w, ts[..j])
    ensures SegmentAt(data, w, ts[j]).Some? ==>
      SegmentsOf(data, w, ts[..j + 1]) == SegmentsOf(data, w, ts[..j]) + [SegmentAt(data, w, ts[j]).value]
  {
    assert ts[..j + 1][..j] == ts[..j];
  }

  /** `find_crash_segments` of the current and the alternative engine: scan
      the transitions and append a segment for each that has rows on both
      sides. */
  method FindCrashSegments(data: seq<Row>, w: nat) returns (segments: seq<Segment>)
    ensures segments == Segments(data, w)
  {
    var transitions := TransitionIndices(CrashCounts(data));
    segments := [];
    for j := 0 to |transitions|
      invariant segments == SegmentsOf(data, w, transitions[..j])
    {
      SegmentsOfPrefix(data, w, transitions, j);
      var segment := SegmentFor(data, w, transitions[j]);
      if segment.Some? {
        segments := segments + [segment.value];
      }
    }
    assert transitions[..|transitions|] == transitions;
  }

  /** The body of the finder's loop for one transition: `None` where the
      source skips it with `continue`. */
  method SegmentFor(data: seq<Row>, w: nat, crashIdx: nat) returns (segment: Option<Segment>)
    requires crashIdx < |data|
    ensures segment == SegmentAt(data, w, crashIdx)
  {
    var preWindow := Min(w, crashIdx);
    var postWindow := Min(w, |data| - crashIdx);
    if preWindow == 0 || postWindow == 0 {
      return None;
    }
    var gap := data[crashIdx].flipTime - data[crashIdx - 1].flipTime;
    segment := Some(Segment(Window(crashIdx, crashIdx - preWindow, crashIdx + postWindow, gap),
                            preWindow < w || postWindow < w));
  }

  /** What every segment satisfies: it sits at a change of `crash_count`
      after position 0, its pre-window is `[i - min(w, i), i)` and its
      post-window `[i, i + min(w, n - i))`, both non-empty, at most `w` rows
      and inside the table, and it is partial exactly when one is shorter
      than `w`. */
  ghost predicate WellFormed(data: seq<Row>, w: nat, s: Segment) {
    var i := s.window.crashIdx;
    && 0 < i < |data|
    && data[i].crashCount != data[i - 1].crashCount
    && s.window.preStart == i - Min(w, i)
    && s.window.postEnd == i + Min(w, |data| - i)
    && 0 < i - s.window.preStart <= w
    && 0 < s.window.postEnd - i <= w
    && s.window.postEnd <= |data|
    && (s.isPartial <==> i - s.window.preStart < w || s.window.postEnd - i < w)
    && s.window.gapDuration == data[i].flipTime - data[i - 1].flipTime
  }

  lemma {:induction false} SegmentsOfMembers(data: seq<Row>, w: nat, ts: seq<nat>)
    requires forall k :: 0 <= k < |ts| ==> ts[k] < |data|
    ensures forall k :: 0 <= k < |SegmentsOf(data, w, ts)| ==>
      SegmentsOf(data, w, ts)[k].window.crashIdx in ts &&
      SegmentAt(data, w, SegmentsOf(data, w, ts)[k].window.crashIdx) == Some(SegmentsOf(data, w, ts)[k])
    ensures forall i :: i in ts && SegmentAt(data, w, i).Some? ==> SegmentAt(data, w, i).value in SegmentsOf(data, w, ts)
  {
    if ts != [] {
      var init := ts[..|ts| - 1];
      SegmentsOfMembers(data, w, init);
      assert ts == init + [ts[|ts| - 1]];
    }
  }

  lemma {:induction false} SegmentsOfAscending(data: seq<Row>, w: nat, ts: seq<nat>)
    requires forall k :: 0 <= k < |ts| ==> ts[k] < |data|
    requires Ascending(ts)
    ensures forall a, b :: 0 <= a < b < |SegmentsOf(data, w, ts)| ==>
      SegmentsOf(data, w, ts)[a].window.crashIdx < SegmentsOf(data, w, ts)[b].window.crashIdx
  {
    if ts != [] {
      var init := ts[..|ts| - 1];
      var last := ts[|ts| - 1];
      SegmentsOfAscending(data, w, init);
      SegmentsOfMembers(data, w, init);
      var before := SegmentsOf(data, w, init);
      forall k | 0 <= k < |before| ensures before[k].window.crashIdx < last {
        var j :| 0 <= j < |init| && init[j] == before[k].window.crashIdx;
        assert ts[j] == init[j];
      }
    }
  }

  lemma SegmentsAreWellFormed(data: seq<Row>, w: nat)
    ensures forall k :: 0 <= k < |Segments(data, w)| ==> WellFormed(data, w, Segments(data, w)[k])
  {
    var cc := CrashCounts(data);
    var ts := TransitionIndices(cc);
    TransitionIndicesSpec(cc);
    SegmentsOfMembers(data, w, ts);
  }

  /** Segments come in ascending order of their crash position. */
  lemma SegmentsAscending(data: seq<Row>, w: nat)
    ensures forall a, b :: 0 <= a < b < |Segments(data, w)| ==>
      Segments(data, w)[a].window.crashIdx < Segments(data, w)[b].window.crashIdx
  {
    var cc := CrashCounts(data);
    TransitionIndicesSpec(cc);
    SegmentsOfAscending(data, w, TransitionIndices(cc));
  }

  /** There is a segment at position i exactly when `crash_count` changes at
      i > 0 and windows are at least one row long; position 0, listed as a
      transition because of the NaN difference, never yields one. */
  lemma SegmentExistsIff(data: seq<Row>, w: nat, i: nat)
    ensures (exists k :: 0 <= k < |Segments(data, w)| && Segments(data, w)[k].window.crashIdx == i)
        <==> 0 < i < |data| && data[i].crashCount != data[i - 1].crashCount && w > 0
  {
    var cc := CrashCounts(data);
    var ts := TransitionIndices(cc);
    TransitionIndicesSpec(cc);
    SegmentsOfMembers(data, w, ts);
    var segs := Segments(data, w);
    if 0 < i < |data| && data[i].crashCount != data[i - 1].crashCount && w > 0 {
      assert i in ts;
      var s := SegmentAt(data, w, i).value;
      assert s in segs;
      var k :| 0 <= k < |segs| && segs[k] == s;
      assert segs[k].window.crashIdx == i;
    }
  }

  /** A table whose `crash_count` never changes has no segment. */
  lemma NoChangeNoSegments(data: seq<Row>, w: nat)
    requires forall k :: 0 < k < |data| ==> data[k].crashCount == data[k - 1].crashCount
    ensures Segments(data, w) == []
  {
    var segs := Segments(data, w);
    if segs != [] {
      SegmentExistsIff(data, w, segs[0].window.crashIdx);
    }
  }
}
