/**
 The detector adapter: turns the raw records of one forward pass of the
 object detector into the frame's list of person detections, each with its
 confidence, its pixel bounding box and the box's centroid.
 */
module Detection {
  import opened Numeric

  /** An axis-aligned box `(startX, startY, endX, endY)`. */
  datatype Box<T> = Box(startX: T, startY: T, endX: T, endY: T)

  /** A pixel position. */
  datatype Point = Point(x: int, y: int)

  /**
   One slot of the network's output: the class label (a float in the
   output tensor), the confidence and the box in coordinates normalised to
   the frame's width and height.
   */
  datatype RawDetection = RawDetection(classValue: real, confidence: real, box: Box<real>)

  /** One person found in the frame. */
  datatype Detection = Detection(confidence: real, bbox: Box<int>, centroid: Point)

  /** The class index the adapter reads from a raw record, `int(...)` of the label. */
  function ClassIndex(r: RawDetection): int {
    Trunc(r.classValue)
  }

  /** A raw record survives both filters: confidence strictly above the minimum, class "person". */
  predicate IsKept(r: RawDetection, minConf: real, personIdx: int) {
    r.confidence > minConf && ClassIndex(r) == personIdx
  }

  /**
   Each pixel coordinate of `p` is the matching normalised coordinate of `b`
   times the frame's width (x) or height (y), truncated toward zero.
   */
  predicate IsScaledBox(p: Box<int>, b: Box<real>, width: nat, height: nat) {
    && IsTruncOf(p.startX, b.startX * width as real)
    && IsTruncOf(p.startY, b.startY * height as real)
    && IsTruncOf(p.endX, b.endX * width as real)
    && IsTruncOf(p.endY, b.endY * height as real)
  }

  /** A whole number halved with rounding toward zero. */
  function HalfTowardZero(s: int): int {
    if s >= 0 then s / 2 else -((-s) / 2)
  }

  /** Scales a normalised box by `(W, H, W, H)` and truncates each coordinate. */
  function ScaleBox(b: Box<real>, width: nat, height: nat): (p: Box<int>)
    ensures IsScaledBox(p, b, width, height)
  {
    Box(Trunc(b.startX * width as real), Trunc(b.startY * height as real),
        Trunc(b.endX * width as real), Trunc(b.endY * height as real))
  }

  /**
   The box's midpoint, each coordinate `int((start + end) / 2.0)`: the
   coordinate sum halved with rounding toward zero, which is the floor of the
   midpoint, Dafny's `(start + end) / 2`, when the sum is non-negative.
   */
  function Centroid(b: Box<int>): (c: Point)
    ensures c == Point(HalfTowardZero(b.startX + b.endX), HalfTowardZero(b.startY + b.endY))
    ensures b.startX + b.endX >= 0 ==> c.x == (b.startX + b.endX) / 2
    ensures b.startY + b.endY >= 0 ==> c.y == (b.startY + b.endY) / 2
  {
    Point(Trunc((b.startX + b.endX) as real / 2.0), Trunc((b.startY + b.endY) as real / 2.0))
  }

  /** The detection emitted for a raw record that passed the filters. */
  function ToDetection(r: RawDetection, width: nat, height: nat): (d: Detection)
    ensures d.confidence == r.confidence
    ensures IsScaledBox(d.bbox, r.box, width, height)
    ensures d.centroid == Point(HalfTowardZero(d.bbox.startX + d.bbox.endX), HalfTowardZero(d.bbox.startY + d.bbox.endY))
  {
    var bbox := ScaleBox(r.box, width, height);
    Detection(r.confidence, bbox, Centroid(bbox))
  }

  /**
   The adapter's filtering loop: one detection per kept raw record, appended
   in the order the network produced them, with nothing merged or suppressed.
   */
  function DetectPeople(raws: seq<RawDetection>, width: nat, height: nat, minConf: real, personIdx: int)
    : (results: seq<Detection>)
    ensures |results| <= |raws|
    ensures forall k :: 0 <= k < |results| ==> results[k].confidence > minConf
  {
    if |raws| == 0 then []
    else
      var prefix := DetectPeople(raws[..|raws| - 1], width, height, minConf, personIdx);
      var last := raws[|raws| - 1];
      if IsKept(last, minConf, personIdx) then prefix + [ToDetection(last, width, height)] else prefix
  }

  /** The positions, in increasing order, of the raw records that pass both filters. */
  function KeptIndices(raws: seq<RawDetection>, minConf: real, personIdx: int): (idx: seq<nat>)
    ensures forall k :: 0 <= k < |idx| ==> idx[k] < |raws| && IsKept(raws[idx[k]], minConf, personIdx)
    ensures forall k, l :: 0 <= k < l < |idx| ==> idx[k] < idx[l]
    ensures forall i :: 0 <= i < |raws| && IsKept(raws[i], minConf, personIdx) ==> i in idx
  {
    if |raws| == 0 then []
    else
      var prefix := KeptIndices(raws[..|raws| - 1], minConf, personIdx);
      if IsKept(raws[|raws| - 1], minConf, personIdx) then prefix + [|raws| - 1] else prefix
  }

  /** The set of positions of raw records that pass both filters. */
  function KeptSet(raws: seq<RawDetection>, minConf: real, personIdx: int): set<nat> {
    set i: nat | i < |raws| && IsKept(raws[i], minConf, personIdx)
  }

  /**
   The adapter's output is the subsequence of the raw records that pass the
   filters, each converted by `ToDetection`: the k-th result comes from the
   k-th kept record.
   */
  lemma {:induction false} DetectPeopleIsKeptSubsequence(
    raws: seq<RawDetection>, width: nat, height: nat, minConf: real, personIdx: int)
    ensures ConvertsAt(DetectPeople(raws, width, height, minConf, personIdx), raws,
                       KeptIndices(raws, minConf, personIdx), width, height)
  {
    if |raws| > 0 {
      var n := |raws| - 1;
      var front := raws[..n];
      assert raws == front + [raws[n]];
      DetectPeopleIsKeptSubsequence(front, width, height, minConf, personIdx);
      var pre := DetectPeople(front, width, height, minConf, personIdx);
      var preIdx := KeptIndices(front, minConf, personIdx);
      ConvertsAtExtend(pre, front, preIdx, raws[n], width, height);
    }
  }

  /**
   `results` lists, in order, the conversions of the raw records at the
   positions `idx`.
   */
  predicate ConvertsAt(results: seq<Detection>, raws: seq<RawDetection>, idx: seq<nat>, width: nat, height: nat) {
    && |results| == |idx|
    && forall k :: 0 <= k < |results| ==> idx[k] < |raws| && results[k] == ToDetection(raws[idx[k]], width, height)
  }

  /** Appending a raw record keeps the earlier conversions, and may add its own at the end. */
  lemma ConvertsAtExtend(
    results: seq<Detection>, raws: seq<RawDetection>, idx: seq<nat>, last: RawDetection, width: nat, height: nat)
    requires ConvertsAt(results, raws, idx, width, height)
    ensures ConvertsAt(results, raws + [last], idx, width, height)
    ensures ConvertsAt(results + [ToDetection(last, width, height)], raws + [last], idx + [|raws|], width, height)
  {
    var raws' := raws + [last];
    forall k | 0 <= k < |results|
      ensures raws'[idx[k]] == raws[idx[k]]
    {
    }
  }

  /**
   Every result is the conversion of some raw record of the person class
   whose confidence is above the threshold: wrong-class records never appear,
   whatever their confidence.
   */
  lemma {:induction false} DetectPeopleProvenance(
    raws: seq<RawDetection>, width: nat, height: nat, minConf: real, personIdx: int, k: nat)
    requires k < |DetectPeople(raws, width, height, minConf, personIdx)|
    ensures exists i :: 0 <= i < |raws| && raws[i].confidence > minConf && ClassIndex(raws[i]) == personIdx
                        && DetectPeople(raws, width, height, minConf, personIdx)[k] == ToDetection(raws[i], width, height)
  {
    DetectPeopleIsKeptSubsequence(raws, width, height, minConf, personIdx);
    var i := KeptIndices(raws, minConf, personIdx)[k];
    assert IsKept(raws[i], minConf, personIdx);
  }

  /** The number of results is the number of raw records that pass both filters. */
  lemma {:induction false} DetectPeopleCount(
    raws: seq<RawDetection>, width: nat, height: nat, minConf: real, personIdx: int)
    ensures |DetectPeople(raws, width, height, minConf, personIdx)| == |KeptSet(raws, minConf, personIdx)|
  {
    if |raws| > 0 {
      var n := |raws| - 1;
      var front := raws[..n];
      DetectPeopleCount(front, width, height, minConf, personIdx);
      var s := KeptSet(raws, minConf, personIdx);
      var s' := KeptSet(front, minConf, personIdx);
      assert n !in s';
      if IsKept(raws[n], minConf, personIdx) {
        assert s == s' + {n};
      } else {
        assert s == s';
      }
    }
  }

  /** A frame in which no raw record passes the filters yields no detections, and no error. */
  lemma NothingKeptYieldsEmpty(raws: seq<RawDetection>, width: nat, height: nat, minConf: real, personIdx: int)
    requires forall i :: 0 <= i < |raws| ==> !IsKept(raws[i], minConf, personIdx)
    ensures DetectPeople(raws, width, height, minConf, personIdx) == []
  {
  }

  /** A normalised coordinate in [0, 1] scales to a pixel coordinate in [0, size]. */
  lemma ScaleWithinFrame(v: real, size: nat)
    requires 0.0 <= v <= 1.0
    ensures 0 <= Trunc(v * size as real) <= size
  {
    assert v * size as real <= size as real;
    TruncMonotone(v * size as real, size as real);
    TruncOfInt(size);
  }

  /** For a well-formed box the centroid lies inside the box. */
  lemma CentroidInsideBox(b: Box<int>)
    requires b.startX <= b.endX && b.startY <= b.endY
    ensures b.startX <= Centroid(b).x <= b.endX
    ensures b.startY <= Centroid(b).y <= b.endY
  {
  }

  /**
   Truncation is not the floor once a box reaches into negative coordinates:
   the x-range -3..0 has midpoint -1.5, which becomes -1, not -2.
   */
  lemma CentroidOfNegativeBoxIsNotFloor()
    ensures Centroid(Box(-3, 0, 0, 0)).x == -1
    ensures (-3 + 0) / 2 == -2
  {
  }
}
