/**
 One frame of the pipeline: detect the people, flag those standing too close
 to someone else, label each detection for drawing and count the flagged
 people.
 */
module Frame {
  import opened Detection
  import opened Proximity
  import Config

  /** How a detection is drawn: green when safe, red when violating. */
  datatype Status = Safe | Violating

  /** The per-frame outcome handed to the renderer. */
  datatype FrameReport = FrameReport(detections: seq<Detection>, labels: seq<Status>, violationCount: nat)

  /** The centroids of a frame's detections, in detection order. */
  function Centroids(dets: seq<Detection>): (cs: seq<Point>)
    ensures |cs| == |dets|
    ensures forall k :: 0 <= k < |dets| ==> cs[k] == dets[k].centroid
  {
    seq(|dets|, k requires 0 <= k < |dets| => dets[k].centroid)
  }

  /** The status of each of `n` detections: violating exactly when its index is in `violate`. */
  function Labels(n: nat, violate: set<nat>): (labels: seq<Status>)
    ensures |labels| == n
    ensures forall k :: 0 <= k < n ==> (labels[k] == Violating <==> k in violate)
  {
    seq(n, k requires 0 <= k < n => if k in violate then Violating else Safe)
  }

  /** How many labels are `Violating`. */
  function CountViolating(labels: seq<Status>): nat {
    if |labels| == 0 then 0
    else CountViolating(labels[..|labels| - 1]) + (if labels[|labels| - 1] == Violating then 1 else 0)
  }

  /**
   The count shown on screen, the size of the violation set, is the number of
   detections drawn as violating: it counts people, not pairs.
   */
  lemma {:induction false} CountIsNumberOfViolatingLabels(n: nat, violate: set<nat>)
    requires forall k :: k in violate ==> k < n
    ensures CountViolating(Labels(n, violate)) == |violate|
  {
    if n > 0 {
      var rest := violate - {n - 1};
      CountIsNumberOfViolatingLabels(n - 1, rest);
      LabelsPrefix(n, violate);
      var labels := Labels(n, violate);
      assert CountViolating(labels) == CountViolating(Labels(n - 1, rest)) + (if n - 1 in violate then 1 else 0);
      RemoveLastIndexCard(violate, n - 1);
    } else {
      assert violate == {};
    }
  }

  lemma LabelsPrefix(n: nat, violate: set<nat>)
    requires n > 0
    ensures Labels(n, violate)[..n - 1] == Labels(n - 1, violate - {n - 1})
  {
  }

  lemma RemoveLastIndexCard(violate: set<nat>, last: nat)
    ensures |violate| == |violate - {last}| + (if last in violate then 1 else 0)
  {
  }

  /** Classifies already-detected people: the part of the frame loop after detection. */
  function Analyze(dets: seq<Detection>, minDist: nat): (rep: FrameReport)
    ensures rep.detections == dets
    ensures |rep.labels| == |dets|
    ensures forall k :: 0 <= k < |dets| ==>
              (rep.labels[k] == Violating <==>
                 exists m :: 0 <= m < |dets| && m != k && Close(dets[k].centroid, dets[m].centroid, minDist))
    ensures rep.violationCount == CountViolating(rep.labels)
    ensures rep.violationCount <= |dets|
    ensures |dets| < 2 ==> rep.violationCount == 0
  {
    var cs := Centroids(dets);
    var violate := Violations(cs, minDist);
    ViolationsCharacterization(cs, minDist);
    ViolationsInRange(cs, minDist);
    CountIsNumberOfViolatingLabels(|dets|, violate);
    FrameReport(dets, Labels(|dets|, violate), |violate|)
  }

  /** The whole per-frame pipeline from the network's raw output. */
  function ProcessFrame(raws: seq<RawDetection>, width: nat, height: nat, cfg: Config.Config): (rep: FrameReport)
    ensures forall k :: 0 <= k < |rep.detections| ==> rep.detections[k].confidence > cfg.minConf
    ensures |rep.labels| == |rep.detections| <= |raws|
    ensures rep.violationCount <= |rep.detections|
  {
    Analyze(DetectPeople(raws, width, height, cfg.minConf, cfg.personIdx), cfg.minDistance)
  }

  /**
   With the default safe distance of 50 pixels, centroids at (0,0), (30,0)
   and (1000,1000): the first two are 30 apart, the third is far from both,
   so exactly the first two are flagged.
   */
  lemma ThreePeopleExample()
    ensures Violations([Point(0, 0), Point(30, 0), Point(1000, 1000)], Config.Default.minDistance) == {0, 1}
  {
  }

  /** Two people exactly 50 pixels apart (a 30-40-50 triangle) are not flagged. */
  lemma ExactlyMinDistanceIsSafe()
    ensures Violations([Point(0, 0), Point(30, 40)], Config.MinDistance) == {}
  {
  }

  /** Four people in a 30-pixel row form six too-close pairs but count as four violations. */
  lemma CountIsPeopleNotPairs()
    ensures var cs := [Point(0, 0), Point(10, 0), Point(20, 0), Point(30, 0)];
            && (forall i, j :: 0 <= i < j < 4 ==> Close(cs[i], cs[j], Config.MinDistance))
            && |Violations(cs, Config.MinDistance)| == 4
  {
    var cs := [Point(0, 0), Point(10, 0), Point(20, 0), Point(30, 0)];
    RowOfFourAllClose(cs);
    ViolationsComplete(cs, 50, 0, 1);
    ViolationsComplete(cs, 50, 2, 3);
    ViolationsInRange(cs, 50);
    var v := Violations(cs, 50);
    assert v == {0, 1, 2, 3} by {
      assert forall k :: k in v ==> k < 4;
      assert 0 in v && 1 in v && 2 in v && 3 in v;
    }
  }

  /** Any two of four people at most 30 pixels apart on one line are too close. */
  lemma RowOfFourAllClose(cs: seq<Point>)
    requires cs == [Point(0, 0), Point(10, 0), Point(20, 0), Point(30, 0)]
    ensures forall i, j :: 0 <= i < j < 4 ==> Close(cs[i], cs[j], Config.MinDistance)
  {
    forall i, j | 0 <= i < j < 4
      ensures Close(cs[i], cs[j], Config.MinDistance)
    {
      var dx := cs[i].x - cs[j].x;
      assert -30 <= dx <= 0 && cs[i].y == cs[j].y;
      assert Sq(dx) <= 900 by {
        assert dx * dx == (-dx) * (-dx);
        assert (-dx) * (-dx) <= 30 * (-dx) <= 900;
      }
    }
  }

  /** A raw record with confidence exactly at the threshold is dropped; one just above it is kept. */
  lemma ConfidenceThresholdIsStrict(box: Box<real>)
    ensures DetectPeople([RawDetection(15.0, 0.2, box)], 300, 300, Config.Default.minConf, Config.Default.personIdx) == []
    ensures |DetectPeople([RawDetection(15.0, 0.2000001, box)], 300, 300, Config.Default.minConf, Config.Default.personIdx)| == 1
  {
  }

  /**
   A confident detection of another class is dropped; the class label is
   truncated before the comparison, so a label of 15.7 reads as class 15.
   */
  lemma ClassFilterExamples(box: Box<real>)
    ensures DetectPeople([RawDetection(7.0, 0.99, box)], 300, 300, Config.MinConf, Config.PersonIdx) == []
    ensures |DetectPeople([RawDetection(15.7, 0.5, box)], 300, 300, Config.MinConf, Config.PersonIdx)| == 1
  {
  }
}
