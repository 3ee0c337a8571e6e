/** The splice of the current and the alternative engine (`repair_tracking`):
    for each segment whose transition exists and has exactly as many rows as
    the segment's window, the rows `[preStart, postEnd)` of a working copy of
    the table take the transition's time and positions, `did_crash` becomes
    false and `crash_count` becomes the working copy's count just before the
    range (0 at the top of the table). Later segments overwrite earlier ones. */
module Splice {
  import opened Wrappers
  import opened Table
  import opened SegmentFinder

  /** `repaired_data.loc[start - 1, 'crash_count'] if start > 0 else 0`. */
  function PriorCount(work: seq<Row>, start: nat): int
    requires start <= |work|
  {
    if start > 0 then work[start - 1].crashCount else 0
  }

  /** The row a transition sample turns into. */
  function SplicedRow(s: Sample, count: int): Row {
    Row(s.flipTime, s.stimPos, s.userPos, count, false)
  }

  /** One segment's write: rows `[start, start + |tr|)` replaced. */
  function SpliceRows(work: seq<Row>, start: nat, tr: seq<Sample>): (r: seq<Row>)
    requires start + |tr| <= |work|
    ensures |r| == |work|
  {
    seq(|work|, k requires 0 <= k < |work| =>
      if start <= k < start + |tr| then SplicedRow(tr[k - start], PriorCount(work, start)) else work[k])
  }

  /** The writes of one segment on the working copy, in place. */
  method SpliceInPlace(a: array<Row>, start: nat, tr: seq<Sample>)
    requires start + |tr| <= a.Length
    modifies a
    ensures a[..] == SpliceRows(old(a[..]), start, tr)
  {
    var lastCrashCount := if start > 0 then a[start - 1].crashCount else 0;
    assert lastCrashCount == PriorCount(old(a[..]), start);
    for i := 0 to |tr|
      invariant forall k :: 0 <= k < a.Length ==>
        a[k] == if start <= k < start + i then SplicedRow(tr[k - start], lastCrashCount) else old(a[k])
    {
      a[start + i] := SplicedRow(tr[i], lastCrashCount);
    }
  }

  /** Every segment's window lies inside the table. */
  predicate InTable(data: seq<Row>, segs: seq<Segment>) {
    forall j :: 0 <= j < |segs| ==>
      segs[j].window.preStart <= segs[j].window.crashIdx <= segs[j].window.postEnd <= |data|
  }

  /** The splice of segment `j` happens: its transition exists and its length
      matches the window's (otherwise the engine skips it). */
  predicate Applies(segs: seq<Segment>, trs: seq<Option<seq<Sample>>>, j: nat)
    requires j < |segs| == |trs|
  {
    trs[j].Some? && |trs[j].value| == segs[j].window.postEnd - segs[j].window.preStart
  }

  predicate Covers(s: Segment, k: int) {
    s.window.preStart <= k < s.window.postEnd
  }

  /** The working copy after the segments `segs`, with transitions `trs`, in
      order. */
  function SpliceAll(data: seq<Row>, segs: seq<Segment>, trs: seq<Option<seq<Sample>>>): (r: seq<Row>)
    requires |segs| == |trs| && InTable(data, segs)
    ensures |r| == |data|
  {
    if segs == [] then data
    else
      var j := |segs| - 1;
      var before := SpliceAll(data, segs[..j], trs[..j]);
      if Applies(segs, trs, j) then SpliceRows(before, segs[j].window.preStart, trs[j].value) else before
  }

  /** The loop of `repair_tracking` on an array working copy. */
  method ApplyTransitions(data: seq<Row>, segs: seq<Segment>, trs: seq<Option<seq<Sample>>>) returns (repaired: seq<Row>)
    requires |segs| == |trs| && InTable(data, segs)
    ensures repaired == SpliceAll(data, segs, trs)
  {
    var a := new Row[|data|](k requires 0 <= k < |data| => data[k]);
    for j := 0 to |segs|
      invariant a[..] == SpliceAll(data, segs[..j], trs[..j])
    {
      assert segs[..j + 1][..j] == segs[..j] && trs[..j + 1][..j] == trs[..j];
      var transition := trs[j];
      if transition.None? {
        continue;
      }
      var startIdx := segs[j].window.preStart;
      var endIdx := segs[j].window.postEnd;
      if |transition.value| != endIdx - startIdx {
        continue;
      }
      SpliceInPlace(a, startIdx, transition.value);
    }
    assert segs[..|segs|] == segs && trs[..|trs|] == trs;
    repaired := a[..];
  }

  /** A row that no applied segment covers keeps its original contents. */
  lemma {:induction false} SpliceAllOutside(data: seq<Row>, segs: seq<Segment>, trs: seq<Option<seq<Sample>>>, k: nat)
    requires |segs| == |trs| && InTable(data, segs) && k < |data|
    requires forall j :: 0 <= j < |segs| && Applies(segs, trs, j) ==> !Covers(segs[j], k)
    ensures SpliceAll(data, segs, trs)[k] == data[k]
  {
    if segs != [] {
      var j := |segs| - 1;
      forall i | 0 <= i < j && Applies(segs[..j], trs[..j], i) ensures !Covers(segs[..j][i], k) {
        assert Applies(segs, trs, i);
      }
      SpliceAllOutside(data, segs[..j], trs[..j], k);
    }
  }

  /** A row covered by an applied segment and by no later applied one holds
      that segment's transition sample, `did_crash` false and the count the
      working copy had just before the segment's range when it was spliced. */
  lemma {:induction false} SpliceAllLastWriter(data: seq<Row>, segs: seq<Segment>, trs: seq<Option<seq<Sample>>>, k: nat, j: nat)
    requires |segs| == |trs| && InTable(data, segs) && k < |data|
    requires j < |segs| && Applies(segs, trs, j) && Covers(segs[j], k)
    requires forall i :: j < i < |segs| && Applies(segs, trs, i) ==> !Covers(segs[i], k)
    ensures SpliceAll(data, segs, trs)[k] ==
      SplicedRow(trs[j].value[k - segs[j].window.preStart],
                 PriorCount(SpliceAll(data, segs[..j], trs[..j]), segs[j].window.preStart))
  {
    var last := |segs| - 1;
    if j < last {
      assert !(Applies(segs, trs, last) && Covers(segs[last], k));
      forall i | j < i < last && Applies(segs[..last], trs[..last], i) ensures !Covers(segs[..last][i], k) {
        assert Applies(segs, trs, i);
      }
      assert segs[..last][..j] == segs[..j] && trs[..last][..j] == trs[..j];
      SpliceAllLastWriter(data, segs[..last], trs[..last], k, j);
    }
  }

  /** `did_crash` is false on every row an applied segment covers. */
  lemma {:induction false} SpliceAllClearsCrashFlag(data: seq<Row>, segs: seq<Segment>, trs: seq<Option<seq<Sample>>>, k: nat, j: nat)
    requires |segs| == |trs| && InTable(data, segs) && k < |data|
    requires j < |segs| && Applies(segs, trs, j) && Covers(segs[j], k)
    ensures !SpliceAll(data, segs, trs)[k].didCrash
  {
    var last := |segs| - 1;
    if !(Applies(segs, trs, last) && Covers(segs[last], k)) {
      assert Applies(segs[..last], trs[..last], j);
      SpliceAllClearsCrashFlag(data, segs[..last], trs[..last], k, j);
    } else {
      var before := SpliceAll(data, segs[..last], trs[..last]);
      var start, tr := segs[last].window.preStart, trs[last].value;
      assert SpliceAll(data, segs, trs) == SpliceRows(before, start, tr);
      assert start <= k < start + |tr|;
      assert SpliceRows(before, start, tr)[k] == SplicedRow(tr[k - start], PriorCount(before, start));
    }
  }

  /** The finder's segments all lie inside the table. */
  lemma SegmentsInTable(data: seq<Row>, w: nat)
    ensures InTable(data, Segments(data, w))
  {
    SegmentsAreWellFormed(data, w);
  }

  /** The rows of a segment before the crash (`pre_crash`). */
  function PreRows(data: seq<Row>, s: Segment): (r: seq<Row>)
    requires s.window.preStart <= s.window.crashIdx <= |data|
    ensures |r| == s.window.crashIdx - s.window.preStart
  {
    data[s.window.preStart..s.window.crashIdx]
  }

  /** The rows of a segment from the crash on (`post_crash`). */
  function PostRows(data: seq<Row>, s: Segment): (r: seq<Row>)
    requires s.window.crashIdx <= s.window.postEnd <= |data|
    ensures |r| == s.window.postEnd - s.window.crashIdx
  {
    data[s.window.crashIdx..s.window.postEnd]
  }
}
