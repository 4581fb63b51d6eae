/**
 * Distance-based segmentation of a recorded GPS trail (PathSegmentationService).
 *
 * A trail is an ordered sequence of fixes. Consecutive fixes whose distance is
 * at most the configured threshold are joined by a line; a larger step breaks
 * the line. The result lists the maximal runs of joined fixes that have at
 * least two points, each as a contiguous slice of the trail, in trail order.
 *
 * The great-circle (haversine) distance is floating-point arithmetic; here it
 * is a parameter of the configuration, and the threshold is another.
 */
module PathSegmentation {

  /** A GPS fix in degrees. */
  datatype LatLng = LatLng(lat: real, lng: real)

  /** One polyline to draw. */
  datatype PathSegment = PathSegment(points: seq<LatLng>)

  /** The service's configuration: how far apart two fixes are, and the split threshold in metres. */
  datatype Config = Config(distance: (LatLng, LatLng) -> real, maxDistanceThreshold: real)
  {
    /** Two consecutive fixes stay connected when their distance is at most the threshold. */
    predicate Near(a: LatLng, b: LatLng) {
      distance(a, b) <= maxDistanceThreshold
    }
  }

  /** The configuration the service is built with: a threshold of 1 km. */
  function ServiceConfig(distance: (LatLng, LatLng) -> real): (c: Config)
    ensures forall a, b :: c.Near(a, b) <==> distance(a, b) <= 1000.0
  {
    Config(distance, 1000.0)
  }

  /** The half-open index range [lo, hi) of a trail. */
  datatype Span = Span(lo: nat, hi: nat)

  /** The step from p[i - 1] to p[i] is within the threshold. */
  predicate Joined(c: Config, p: seq<LatLng>, i: nat)
    requires 0 < i < |p|
  {
    c.Near(p[i - 1], p[i])
  }

  /** The step from p[i - 1] to p[i] exceeds the threshold. */
  predicate Break(c: Config, p: seq<LatLng>, i: nat)
    requires 0 < i < |p|
  {
    !Joined(c, p, i)
  }

  /** Every step inside p[lo..hi] is within the threshold. */
  predicate Linked(c: Config, p: seq<LatLng>, lo: nat, hi: nat)
    requires lo <= hi <= |p|
  {
    forall i | lo < i < hi :: Joined(c, p, i)
  }

  /** Neither neighbour of p[i] is within the threshold, so no line reaches it. */
  predicate Isolated(c: Config, p: seq<LatLng>, i: nat)
    requires i < |p|
  {
    (i == 0 || Break(c, p, i)) && (i + 1 == |p| || Break(c, p, i + 1))
  }

  /** p[i] lies inside one of the spans. */
  predicate Covered(ss: seq<Span>, i: nat) {
    exists k | 0 <= k < |ss| :: ss[k].lo <= i < ss[k].hi
  }

  /** The end of the maximal run of within-threshold steps that starts at p[lo]. */
  function RunEnd(c: Config, p: seq<LatLng>, lo: nat): (hi: nat)
    requires lo < |p|
    ensures lo < hi <= |p|
    ensures Linked(c, p, lo, hi)
    ensures hi < |p| ==> Break(c, p, hi)
    decreases |p| - lo
  {
    if lo + 1 < |p| && Joined(c, p, lo + 1) then RunEnd(c, p, lo + 1) else lo + 1
  }

  /** A linked range that ends at a break (or at the end of the trail) is the run's full extent. */
  lemma RunEndUnique(c: Config, p: seq<LatLng>, lo: nat, hi: nat)
    requires lo < hi <= |p|
    requires Linked(c, p, lo, hi)
    requires hi < |p| ==> Break(c, p, hi)
    ensures RunEnd(c, p, lo) == hi
  {
  }

  /** The runs of two or more points in p[lo..], as spans, in order. */
  function SpansFrom(c: Config, p: seq<LatLng>, lo: nat): (ss: seq<Span>)
    requires lo <= |p|
    ensures forall k | 0 <= k < |ss| :: lo <= ss[k].lo && ss[k].lo + 2 <= ss[k].hi <= |p|
    decreases |p| - lo
  {
    if lo == |p| then []
    else
      var hi := RunEnd(c, p, lo);
      (if hi - lo >= 2 then [Span(lo, hi)] else []) + SpansFrom(c, p, hi)
  }

  /**
   * The spans ss of p[lo..] are maximal runs of within-threshold steps, in
   * trail order: each ends at a break or at the end of the trail, and each
   * but one starting at lo starts at a break.
   */
  predicate MaximalRuns(c: Config, p: seq<LatLng>, lo: nat, ss: seq<Span>)
    requires forall k | 0 <= k < |ss| :: lo <= ss[k].lo && ss[k].lo + 2 <= ss[k].hi <= |p|
  {
    && (forall k | 0 <= k < |ss| :: Linked(c, p, ss[k].lo, ss[k].hi))
    && (forall k | 0 <= k < |ss| :: ss[k].lo == lo || Break(c, p, ss[k].lo))
    && (forall k | 0 <= k < |ss| :: ss[k].hi < |p| ==> Break(c, p, ss[k].hi))
    && (forall k | 0 < k < |ss| :: ss[k - 1].hi <= ss[k].lo)
  }

  /** Helper of SpansFromMaximal: every span is linked. */
  lemma {:induction false} SpansFromLinked(c: Config, p: seq<LatLng>, lo: nat)
    requires lo <= |p|
    ensures forall k | 0 <= k < |SpansFrom(c, p, lo)| ::
              Linked(c, p, SpansFrom(c, p, lo)[k].lo, SpansFrom(c, p, lo)[k].hi)
    decreases |p| - lo
  {
    if lo < |p| {
      var hi := RunEnd(c, p, lo);
      SpansFromLinked(c, p, hi);
    }
  }

  /** Helper of SpansFromMaximal: every span but one starting at lo starts at a break. */
  lemma {:induction false} SpansFromStartAtBreaks(c: Config, p: seq<LatLng>, lo: nat)
    requires lo <= |p|
    ensures forall k | 0 <= k < |SpansFrom(c, p, lo)| ::
              SpansFrom(c, p, lo)[k].lo == lo || Break(c, p, SpansFrom(c, p, lo)[k].lo)
    decreases |p| - lo
  {
    if lo < |p| {
      var hi := RunEnd(c, p, lo);
      SpansFromStartAtBreaks(c, p, hi);
    }
  }

  /** Helper of SpansFromMaximal: every span ends at a break or at the end of the trail. */
  lemma {:induction false} SpansFromEndAtBreaks(c: Config, p: seq<LatLng>, lo: nat)
    requires lo <= |p|
    ensures forall k | 0 <= k < |SpansFrom(c, p, lo)| ::
              SpansFrom(c, p, lo)[k].hi < |p| ==> Break(c, p, SpansFrom(c, p, lo)[k].hi)
    decreases |p| - lo
  {
    if lo < |p| {
      var hi := RunEnd(c, p, lo);
      SpansFromEndAtBreaks(c, p, hi);
    }
  }

  /** Helper of SpansFromMaximal: the spans come in trail order without overlap. */
  lemma {:induction false} SpansFromOrdered(c: Config, p: seq<LatLng>, lo: nat)
    requires lo <= |p|
    ensures forall k | 0 < k < |SpansFrom(c, p, lo)| ::
              SpansFrom(c, p, lo)[k - 1].hi <= SpansFrom(c, p, lo)[k].lo
    decreases |p| - lo
  {
    if lo < |p| {
      var hi := RunEnd(c, p, lo);
      SpansFromOrdered(c, p, hi);
    }
  }

  /** The spans that SpansFrom finds are maximal runs. */
  lemma SpansFromMaximal(c: Config, p: seq<LatLng>, lo: nat)
    requires lo <= |p|
    ensures MaximalRuns(c, p, lo, SpansFrom(c, p, lo))
  {
    SpansFromLinked(c, p, lo);
    SpansFromStartAtBreaks(c, p, lo);
    SpansFromEndAtBreaks(c, p, lo);
    SpansFromOrdered(c, p, lo);
  }

  /**
   * The index ranges of the segments of trail p: each is a maximal run of
   * within-threshold steps with at least two points; they come in trail order
   * and do not overlap.
   */
  function SegmentSpans(c: Config, p: seq<LatLng>): (ss: seq<Span>)
    ensures forall k | 0 <= k < |ss| :: ss[k].lo + 2 <= ss[k].hi <= |p|
    ensures forall k | 0 <= k < |ss| :: Linked(c, p, ss[k].lo, ss[k].hi)
    ensures forall k | 0 <= k < |ss| :: ss[k].lo > 0 ==> Break(c, p, ss[k].lo)
    ensures forall k | 0 <= k < |ss| :: ss[k].hi < |p| ==> Break(c, p, ss[k].hi)
    ensures forall k | 0 < k < |ss| :: ss[k - 1].hi <= ss[k].lo
  {
    SpansFromMaximal(c, p, 0);
    SpansFrom(c, p, 0)
  }

  /** The slices of p that the spans name, as segments. */
  function Slices(p: seq<LatLng>, ss: seq<Span>): seq<PathSegment>
    requires forall k | 0 <= k < |ss| :: ss[k].lo <= ss[k].hi <= |p|
  {
    if ss == [] then [] else [PathSegment(p[ss[0].lo..ss[0].hi])] + Slices(p, ss[1..])
  }

  /** Segment k of Slices(p, ss) is the slice that span k names. */
  lemma {:induction false} SlicesAt(p: seq<LatLng>, ss: seq<Span>)
    requires forall k | 0 <= k < |ss| :: ss[k].lo <= ss[k].hi <= |p|
    ensures |Slices(p, ss)| == |ss|
    ensures forall k | 0 <= k < |ss| :: Slices(p, ss)[k].points == p[ss[k].lo..ss[k].hi]
  {
    if ss != [] {
      SlicesAt(p, ss[1..]);
    }
  }

  /** The segments of p[lo..]; the loop of CreatePathSegments keeps its output plus these equal to the whole result. */
  function SegmentsFrom(c: Config, p: seq<LatLng>, lo: nat): seq<PathSegment>
    requires lo <= |p|
  {
    Slices(p, SpansFrom(c, p, lo))
  }

  /** What createPathSegments returns for trail p: every segment has two or more points, all steps within the threshold. */
  function PathSegments(c: Config, p: seq<LatLng>): (segs: seq<PathSegment>)
    ensures |segs| == |SegmentSpans(c, p)|
    ensures forall k | 0 <= k < |segs| ::
              |segs[k].points| >= 2 && Linked(c, segs[k].points, 0, |segs[k].points|)
  {
    var ss := SegmentSpans(c, p);
    SegmentsLinked(c, p, ss);
    Slices(p, ss)
  }

  /** Helper of PathSegments: a slice of a linked range is linked on its own. */
  lemma SegmentsLinked(c: Config, p: seq<LatLng>, ss: seq<Span>)
    requires forall k | 0 <= k < |ss| :: ss[k].lo + 2 <= ss[k].hi <= |p| && Linked(c, p, ss[k].lo, ss[k].hi)
    ensures |Slices(p, ss)| == |ss|
    ensures forall k | 0 <= k < |ss| ::
              |Slices(p, ss)[k].points| >= 2 && Linked(c, Slices(p, ss)[k].points, 0, |Slices(p, ss)[k].points|)
  {
    SlicesAt(p, ss);
    forall k | 0 <= k < |ss|
      ensures Linked(c, Slices(p, ss)[k].points, 0, |Slices(p, ss)[k].points|)
    {
      var lo, hi := ss[k].lo, ss[k].hi;
      var s := p[lo..hi];
      assert Slices(p, ss)[k].points == s;
      forall j | 0 < j < |s|
        ensures Joined(c, s, j)
      {
        assert Joined(c, p, lo + j);
      }
    }
  }

  /** Each segment is the slice of the trail that the corresponding span names. */
  lemma SegmentsAreSlices(c: Config, p: seq<LatLng>)
    ensures var ss := SegmentSpans(c, p);
      forall k | 0 <= k < |ss| :: PathSegments(c, p)[k].points == p[ss[k].lo..ss[k].hi]
  {
    SlicesAt(p, SegmentSpans(c, p));
  }

  /** All points of the segments, one segment after the other. */
  function Flatten(segs: seq<PathSegment>): seq<LatLng> {
    if segs == [] then [] else segs[0].points + Flatten(segs[1..])
  }

  /** The points of p[lo..] that are not isolated, in trail order. */
  function DrawablePoints(c: Config, p: seq<LatLng>, lo: nat): (r: seq<LatLng>)
    requires lo <= |p|
    ensures |r| <= |p| - lo
    ensures |r| < |p| - lo <==> exists i | lo <= i < |p| :: Isolated(c, p, i)
    decreases |p| - lo
  {
    if lo == |p| then []
    else (if Isolated(c, p, lo) then [] else [p[lo]]) + DrawablePoints(c, p, lo + 1)
  }

  /**
   * Loop of createPathSegments: one pass over the trail, extending the current
   * run on a step within the threshold and closing it on a larger step; a run
   * is emitted only when it has two or more points. The trail is only read.
   */
  method CreatePathSegments(c: Config, points: array<LatLng>) returns (segments: seq<PathSegment>)
    ensures segments == PathSegments(c, points[..])
  {
    if points.Length <= 1 {
      ShortTrailHasNoSegments(c, points[..]);
      return [];
    }
    ghost var p := points[..];
    segments := [];
    var currentSegment := [points[0]];
    ghost var start := 0;
    for i := 1 to points.Length
      invariant start < i
      invariant CurrentRun(c, p, currentSegment, start, i)
      invariant ClosedBefore(c, p, segments, start)
    {
      var distance := c.distance(points[i - 1], points[i]);
      if distance <= c.maxDistanceThreshold {
        ExtendRun(c, p, currentSegment, start, i);
        currentSegment := currentSegment + [points[i]];
      } else {
        assert Break(c, p, i);
        CloseRun(c, p, segments, currentSegment, start, i);
        if |currentSegment| > 1 {
          segments := segments + [PathSegment(currentSegment)];
        }
        currentSegment := [points[i]];
        start := i;
      }
    }
    CloseLastRun(c, p, segments, currentSegment, start);
    if |currentSegment| > 1 {
      segments := segments + [PathSegment(currentSegment)];
    }
  }

  /** Invariant of the loop of CreatePathSegments: `segments` are the segments of the runs closed before p[start]. */
  predicate ClosedBefore(c: Config, p: seq<LatLng>, segments: seq<PathSegment>, start: nat)
    requires start <= |p|
  {
    SegmentsFrom(c, p, 0) == segments + SegmentsFrom(c, p, start)
  }

  /** Helper of CreatePathSegments: a step within the threshold extends the current run. */
  lemma ExtendRun(c: Config, p: seq<LatLng>, current: seq<LatLng>, start: nat, i: nat)
    requires start < i < |p|
    requires CurrentRun(c, p, current, start, i)
    requires c.Near(p[i - 1], p[i])
    ensures CurrentRun(c, p, current + [p[i]], start, i + 1)
  {
  }

  /** Invariant of the loop of CreatePathSegments: `current` is the run p[start..i], joined throughout. */
  predicate CurrentRun(c: Config, p: seq<LatLng>, current: seq<LatLng>, start: nat, i: nat)
    requires start <= i <= |p|
  {
    current == p[start..i] && Linked(c, p, start, i)
  }

  /**
   * Helper of CreatePathSegments: when the current run p[start..i] ends at a
   * break or at the end of the trail, it is emitted exactly when it has two or
   * more points, and the segments still to come are those from p[i].
   */
  lemma CloseRun(c: Config, p: seq<LatLng>, segments: seq<PathSegment>, current: seq<LatLng>, start: nat, i: nat)
    requires start < i <= |p|
    requires CurrentRun(c, p, current, start, i)
    requires i < |p| ==> Break(c, p, i)
    requires ClosedBefore(c, p, segments, start)
    ensures |current| > 1 ==> ClosedBefore(c, p, segments + [PathSegment(current)], i)
    ensures |current| <= 1 ==> ClosedBefore(c, p, segments, i)
  {
    RunEndUnique(c, p, start, i);
    var rest := SpansFrom(c, p, i);
    if i - start >= 2 {
      assert SpansFrom(c, p, start) == [Span(start, i)] + rest;
      assert ([Span(start, i)] + rest)[1..] == rest;
      assert SegmentsFrom(c, p, start) == [PathSegment(current)] + SegmentsFrom(c, p, i);
      assert segments + ([PathSegment(current)] + SegmentsFrom(c, p, i))
          == (segments + [PathSegment(current)]) + SegmentsFrom(c, p, i);
    } else {
      assert SpansFrom(c, p, start) == rest;
    }
  }

  /** Helper of CreatePathSegments: closing the last run completes the result. */
  lemma CloseLastRun(c: Config, p: seq<LatLng>, segments: seq<PathSegment>, current: seq<LatLng>, start: nat)
    requires start < |p|
    requires CurrentRun(c, p, current, start, |p|)
    requires ClosedBefore(c, p, segments, start)
    ensures |current| > 1 ==> PathSegments(c, p) == segments + [PathSegment(current)]
    ensures |current| <= 1 ==> PathSegments(c, p) == segments
  {
    CloseRun(c, p, segments, current, start, |p|);
    assert SegmentsFrom(c, p, |p|) == [];
    assert segments + [] == segments;
    assert (segments + [PathSegment(current)]) + [] == segments + [PathSegment(current)];
  }

  // ---------------------------------------------------------------------------
  // Properties of the segmentation

  /** A trail of zero or one point yields no segment. */
  lemma ShortTrailHasNoSegments(c: Config, p: seq<LatLng>)
    requires |p| <= 1
    ensures PathSegments(c, p) == []
  {
  }

  /** When every step is within the threshold, the whole trail is the one segment. */
  lemma AllNearIsOneSegment(c: Config, p: seq<LatLng>)
    requires |p| >= 2
    requires Linked(c, p, 0, |p|)
    ensures PathSegments(c, p) == [PathSegment(p)]
  {
    RunEndUnique(c, p, 0, |p|);
    assert SpansFrom(c, p, 0) == [Span(0, |p|)];
    assert p[0..|p|] == p;
  }

  /** Steps near, far, near: the trail splits into its first two and its last two points. */
  lemma NearFarNearSplitsInTwo(c: Config, a: LatLng, b: LatLng, d: LatLng, e: LatLng)
    requires c.Near(a, b) && !c.Near(b, d) && c.Near(d, e)
    ensures PathSegments(c, [a, b, d, e]) == [PathSegment([a, b]), PathSegment([d, e])]
  {
    var p := [a, b, d, e];
    assert Joined(c, p, 1) && Break(c, p, 2) && Joined(c, p, 3);
    RunEndUnique(c, p, 0, 2);
    RunEndUnique(c, p, 2, 4);
    assert SpansFrom(c, p, 4) == [];
    assert SpansFrom(c, p, 2) == [Span(2, 4)];
    assert SpansFrom(c, p, 0) == [Span(0, 2), Span(2, 4)];
    assert p[0..2] == [a, b] && p[2..4] == [d, e];
    assert Slices(p, [Span(2, 4)]) == [PathSegment([d, e])];
  }

  /** A point is covered by a concatenation of spans when one of the parts covers it. */
  lemma CoveredAppend(a: seq<Span>, b: seq<Span>, i: nat)
    ensures Covered(a + b, i) <==> Covered(a, i) || Covered(b, i)
  {
    if Covered(a, i) {
      var k :| 0 <= k < |a| && a[k].lo <= i < a[k].hi;
      assert (a + b)[k] == a[k];
    }
    if Covered(b, i) {
      var k :| 0 <= k < |b| && b[k].lo <= i < b[k].hi;
      assert (a + b)[|a| + k] == b[k];
    }
    if Covered(a + b, i) {
      var k :| 0 <= k < |a + b| && (a + b)[k].lo <= i < (a + b)[k].hi;
      if k >= |a| {
        assert b[k - |a|] == (a + b)[k];
        assert b[k - |a|].lo <= i < b[k - |a|].hi;
      } else {
        assert a[k] == (a + b)[k];
        assert a[k].lo <= i < a[k].hi;
      }
    }
  }

  /** Helper of SegmentsCoverDrawablePoints, by induction over the runs from p[lo]. */
  lemma {:induction false} CoveredFrom(c: Config, p: seq<LatLng>, lo: nat, i: nat)
    requires lo <= i < |p|
    requires lo == 0 || Break(c, p, lo)
    ensures Covered(SpansFrom(c, p, lo), i) <==> !Isolated(c, p, i)
    decreases |p| - lo
  {
    var hi := RunEnd(c, p, lo);
    var rest := SpansFrom(c, p, hi);
    var head := if hi - lo >= 2 then [Span(lo, hi)] else [];
    assert SpansFrom(c, p, lo) == head + rest;
    CoveredAppend(head, rest, i);
    if i < hi {
      assert !Covered(rest, i);
      if hi - lo >= 2 {
        assert head[0].lo <= i < head[0].hi;
        assert Covered(head, i);
        if i > lo {
          assert Joined(c, p, i);
        } else {
          assert Joined(c, p, i + 1);
        }
      } else {
        assert !Covered(head, i);
        assert Isolated(c, p, i);
      }
    } else {
      CoveredFrom(c, p, hi, i);
      assert !Covered(head, i);
    }
  }

  /** A point of the trail belongs to some segment exactly when it is not isolated. */
  lemma SegmentsCoverDrawablePoints(c: Config, p: seq<LatLng>, i: nat)
    requires i < |p|
    ensures Covered(SegmentSpans(c, p), i) <==> !Isolated(c, p, i)
  {
    CoveredFrom(c, p, 0, i);
  }

  /** The threshold is inclusive: a step of at most the threshold lies inside one segment. */
  lemma StepWithinThresholdStaysInSegment(c: Config, p: seq<LatLng>, i: nat)
    requires 0 < i < |p|
    requires c.distance(p[i - 1], p[i]) <= c.maxDistanceThreshold
    ensures exists k | 0 <= k < |SegmentSpans(c, p)| ::
              SegmentSpans(c, p)[k].lo <= i - 1 && i < SegmentSpans(c, p)[k].hi
  {
    var ss := SegmentSpans(c, p);
    SegmentsCoverDrawablePoints(c, p, i);
    var k :| 0 <= k < |ss| && ss[k].lo <= i < ss[k].hi;
    assert ss[k].lo <= i - 1;
  }

  /**
   * A step above the threshold is never drawn; the far point is not dropped:
   * when the next step is within the threshold it starts a segment.
   */
  lemma StepAboveThresholdSplits(c: Config, p: seq<LatLng>, i: nat)
    requires 0 < i < |p|
    requires c.distance(p[i - 1], p[i]) > c.maxDistanceThreshold
    ensures forall k | 0 <= k < |SegmentSpans(c, p)| ::
              !(SegmentSpans(c, p)[k].lo < i < SegmentSpans(c, p)[k].hi)
    ensures i + 1 < |p| && c.Near(p[i], p[i + 1]) ==>
              exists k | 0 <= k < |SegmentSpans(c, p)| :: SegmentSpans(c, p)[k].lo == i
  {
    var ss := SegmentSpans(c, p);
    assert Break(c, p, i);
    if i + 1 < |p| && c.Near(p[i], p[i + 1]) {
      assert !Isolated(c, p, i);
      SegmentsCoverDrawablePoints(c, p, i);
      var k :| 0 <= k < |ss| && ss[k].lo <= i < ss[k].hi;
      if ss[k].lo < i {
        assert false;
      }
    }
  }

  /** Helper of FlattenSpansFrom: every point of a run of two or more is drawable. */
  lemma {:induction false} RunPointsDrawable(c: Config, p: seq<LatLng>, lo: nat, j: nat, hi: nat)
    requires lo <= j <= hi <= |p| && lo + 2 <= hi
    requires Linked(c, p, lo, hi)
    ensures DrawablePoints(c, p, j) == p[j..hi] + DrawablePoints(c, p, hi)
    decreases hi - j
  {
    if j < hi {
      RunPointsDrawable(c, p, lo, j + 1, hi);
      if j > lo {
        assert Joined(c, p, j);
      } else {
        assert Joined(c, p, j + 1);
      }
      assert !Isolated(c, p, j);
      assert p[j..hi] == [p[j]] + p[j + 1..hi];
    }
  }

  /** Helper of SegmentsKeepDrawablePoints, by induction over the runs from p[lo]. */
  lemma {:induction false} FlattenSpansFrom(c: Config, p: seq<LatLng>, lo: nat)
    requires lo <= |p|
    requires lo == 0 || lo == |p| || Break(c, p, lo)
    ensures Flatten(Slices(p, SpansFrom(c, p, lo))) == DrawablePoints(c, p, lo)
    decreases |p| - lo
  {
    if lo < |p| {
      var hi := RunEnd(c, p, lo);
      var rest := SpansFrom(c, p, hi);
      FlattenSpansFrom(c, p, hi);
      if hi - lo >= 2 {
        assert SpansFrom(c, p, lo) == [Span(lo, hi)] + rest;
        assert Slices(p, [Span(lo, hi)] + rest) == [PathSegment(p[lo..hi])] + Slices(p, rest);
        RunPointsDrawable(c, p, lo, lo, hi);
      } else {
        assert SpansFrom(c, p, lo) == rest;
        assert Isolated(c, p, lo);
      }
    }
  }

  /**
   * The segments, concatenated, are the trail with its isolated points removed;
   * so they hold at most as many points as the trail, and fewer exactly when
   * some point is isolated.
   */
  lemma SegmentsKeepDrawablePoints(c: Config, p: seq<LatLng>)
    ensures Flatten(PathSegments(c, p)) == DrawablePoints(c, p, 0)
    ensures |Flatten(PathSegments(c, p))| <= |p|
    ensures |Flatten(PathSegments(c, p))| < |p| <==> exists i | 0 <= i < |p| :: Isolated(c, p, i)
  {
    FlattenSpansFrom(c, p, 0);
  }
}
