/** `ofApp::sample_to_screen` and the polyline `ofApp::draw` emits for a
    variable: pure geometry over a variable's plotting options. */
module Screen {
  import opened Graphed

  /** The affine map from a sample to its screen position: time is measured
      from the lower time limit and scaled by x_per_t, value is measured from
      the lower value limit and scaled by y_per_v, both offset by the axes
      origin. Values beyond the upper limit are not clamped. */
  function SampleToScreen(a: Axes, s: Sample): (p: Point)
    ensures s.t == a.tLimLower ==> p.x == a.axOrigin.x
    ensures s.v == a.vLimLower ==> p.y == a.axOrigin.y
  {
    Point(a.axOrigin.x + (s.t - a.tLimLower) * a.xPerT,
          a.axOrigin.y + (s.v - a.vLimLower) * a.yPerV)
  }

  /** The inverse map, defined when neither scale factor is zero. */
  function ScreenToSample(a: Axes, p: Point): Sample
    requires a.xPerT != 0.0 && a.yPerV != 0.0
  {
    Sample(a.tLimLower + (p.x - a.axOrigin.x) / a.xPerT,
           a.vLimLower + (p.y - a.axOrigin.y) / a.yPerV)
  }

  /** With non-zero scales the map loses nothing: the sample is recovered
      from its screen position. */
  lemma ScreenRoundTrip(a: Axes, s: Sample)
    requires a.xPerT != 0.0 && a.yPerV != 0.0
    ensures ScreenToSample(a, SampleToScreen(a, s)) == s
  {
  }

  /** The lower-left corner of the plotted range lands exactly on the axes
      origin. */
  lemma LowerLimitsMapToOrigin(a: Axes)
    ensures SampleToScreen(a, Sample(a.tLimLower, a.vLimLower)) == a.axOrigin
  {
  }

  /** Distances scale: the offset between two screen positions is the offset
      between the samples multiplied by the scale factors. */
  lemma SampleToScreenIsAffine(a: Axes, s1: Sample, s2: Sample)
    ensures SampleToScreen(a, s2).x - SampleToScreen(a, s1).x == (s2.t - s1.t) * a.xPerT
    ensures SampleToScreen(a, s2).y - SampleToScreen(a, s1).y == (s2.v - s1.v) * a.yPerV
  {
  }

  /** No clamping: with a positive value scale, a value above the upper limit
      maps above the band of height (v_lim_upper - v_lim_lower) * y_per_v. */
  lemma ValuesAreNotClamped(a: Axes, s: Sample)
    requires a.yPerV > 0.0 && s.v > a.vLimUpper
    ensures SampleToScreen(a, s).y > a.axOrigin.y + (a.vLimUpper - a.vLimLower) * a.yPerV
  {
  }

  /** A worked case: origin (100, 200), x_per_t 0.5, y_per_v 1, lower value
      limit -80 and lower time limit 10 put the sample (20, -40) at
      (105, 240). */
  lemma MappingExample()
    ensures SampleToScreen(Axes(Point(100.0, 200.0), 50.0, 1.0, 0.5, 500.0, 40.0, -80.0, 10.0),
                           Sample(20.0, -40.0)) == Point(105.0, 240.0)
  {
  }

  /** `segs` is the polyline through the mapped samples: one segment per
      consecutive pair, segment i joining sample i to sample i + 1. */
  ghost predicate IsPolylineOf(segs: seq<Segment>, a: Axes, samples: seq<Sample>) {
    && |samples| > 0
    && |segs| == |samples| - 1
    && forall i :: 0 <= i < |segs| ==>
         segs[i] == Segment(SampleToScreen(a, samples[i]), SampleToScreen(a, samples[i + 1]))
  }

  /** The polyline is connected: each segment starts where the previous one
      ends, and it runs from the first sample to the last. */
  lemma PolylineIsConnected(segs: seq<Segment>, a: Axes, samples: seq<Sample>)
    requires IsPolylineOf(segs, a, samples)
    ensures forall i :: 0 < i < |segs| ==> segs[i].from == segs[i - 1].to
    ensures |segs| > 0 ==>
      (segs[0].from == SampleToScreen(a, samples[0]) &&
       segs[|segs| - 1].to == SampleToScreen(a, samples[|samples| - 1]))
  {
    forall i | 0 < i < |segs|
      ensures segs[i].from == segs[i - 1].to
    {
      assert segs[i] == Segment(SampleToScreen(a, samples[i]), SampleToScreen(a, samples[i + 1]));
      assert segs[i - 1] == Segment(SampleToScreen(a, samples[i - 1]), SampleToScreen(a, samples[i]));
    }
    if |segs| > 0 {
      var last := |segs| - 1;
      assert segs[0] == Segment(SampleToScreen(a, samples[0]), SampleToScreen(a, samples[1]));
      assert segs[last] == Segment(SampleToScreen(a, samples[last]), SampleToScreen(a, samples[last + 1]));
    }
  }

  /** A variable's samples determine its polyline. */
  lemma PolylineIsUnique(s1: seq<Segment>, s2: seq<Segment>, a: Axes, samples: seq<Sample>)
    requires IsPolylineOf(s1, a, samples) && IsPolylineOf(s2, a, samples)
    ensures s1 == s2
  {
    forall i | 0 <= i < |s1|
      ensures s1[i] == s2[i]
    {
      assert s1[i] == Segment(SampleToScreen(a, samples[i]), SampleToScreen(a, samples[i + 1]));
    }
  }
}
