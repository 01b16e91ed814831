/** The records declared in ofApp.h: the sample triple carried by a message,
    and GraphedVariable, the per-channel store of samples and plotting
    options. */
module Graphed {
  import opened Numeric

  /** A stored signal sample: sample time t and sampled value v. */
  datatype Sample = Sample(t: real, v: real)

  /** A screen position. */
  datatype Point = Point(x: real, y: real)

  /** One line drawn between two screen positions. */
  datatype Segment = Segment(from: Point, to: Point)

  /** One (gid, t, v) record of a received message (`sample_t`). The
      identifier travels as a floating value. */
  datatype Triple = Triple(gid: real, t: real, v: real)

  /** The plotting options of a variable: where its axes start on screen,
      its scale factors and its limits. */
  datatype Axes = Axes(
    axOrigin: Point,
    yHeight: real,
    yPerV: real,
    xPerT: real,
    xWidthMax: real,
    vLimUpper: real,
    vLimLower: real,
    tLimLower: real)

  /** The sample every new variable starts with. */
  const SENTINEL: Sample := Sample(0.0, 0.0)

  /** The plotting options a new variable starts with. */
  const DEFAULT_AXES: Axes := Axes(Point(0.0, 0.0), 50.0, 1.0, 0.5, 500.0, 40.0, -80.0, 0.0)

  /** A graphed variable: the samples received for one identifier, in
      arrival order, and its plotting options. All fields are public and
      writable, as in the C++ class; `samples` only ever grows. */
  class GraphedVariable {
    var samples: seq<Sample>
    var name: string
    var id: Uint32
    var axOrigin: Point
    var yHeight: real
    var yPerV: real
    var xPerT: real
    var xWidthMax: real
    var vLimUpper: real
    var vLimLower: real
    var tLimLower: real

    /** The sample store is never empty: drawing reads its front. */
    ghost predicate Valid()
      reads this
    {
      |samples| > 0
    }

    /** As the constructor leaves it: the sentinel sample alone and the
        default plotting options. */
    ghost predicate IsNew()
      reads this
    {
      samples == [SENTINEL] && CurrentAxes() == DEFAULT_AXES
    }

    /** The plotting options as one value. */
    function CurrentAxes(): Axes
      reads this
    {
      Axes(axOrigin, yHeight, yPerV, xPerT, xWidthMax, vLimUpper, vLimLower, tLimLower)
    }

    /** A new variable keeps the given identifier and name, takes the
        default plotting options and holds the single sentinel sample. */
    constructor (id: Uint32, varname: string)
      ensures this.id == id && name == varname
      ensures axOrigin == Point(0.0, 0.0) && yHeight == 50.0 && yPerV == 1.0 && xPerT == 0.5
      ensures xWidthMax == 500.0 && vLimUpper == 40.0 && vLimLower == -80.0 && tLimLower == 0.0
      ensures CurrentAxes() == DEFAULT_AXES
      ensures samples == [SENTINEL]
      ensures IsNew() && Valid() && YHeightMax() == 120
    {
      name := varname;
      this.id := id;
      axOrigin := Point(0.0, 0.0);
      yHeight := 50.0;
      yPerV := 1.0;
      xPerT := 0.5;
      xWidthMax := 500.0;
      vLimUpper := 40.0;
      vLimLower := -80.0;
      tLimLower := 0.0;
      samples := [SENTINEL];
    }

    /** The pixel height of the whole value range, converted to `int` by
        truncation toward zero. */
    function YHeightMax(): (h: int)
      reads this
      ensures var span := (vLimUpper - vLimLower) * yPerV;
        (0.0 <= span ==> 0 <= h && h as real <= span < h as real + 1.0) &&
        (span < 0.0 ==> h <= 0 && h as real - 1.0 < span <= h as real)
    {
      TruncateTowardZero((vLimUpper - vLimLower) * yPerV)
    }

    /** `samples->push_back(s)`: appends at the back, changes nothing else. */
    method PushSample(s: Sample)
      modifies this`samples
      ensures samples == old(samples) + [s]
      ensures |samples| > 0
    {
      samples := samples + [s];
    }
  }
}
