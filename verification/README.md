# Social-distancing detector: per-frame pipeline in Dafny

This project models the analytical core of a social-distancing video
detector. For each frame, a MobileNet SSD object detector yields raw
records (class label, confidence, normalised box). The **detector adapter**
(`detect_people`) keeps the confident "person" records. It scales each box
to pixels and derives the box's centroid. The **proximity classifier** then
flags every person whose centroid is closer than the safe distance to some
other person's centroid. The frame loop colours each detection
accordingly and shows how many people are flagged.

Modules:

- `Numeric` (`numeric.dfy`): truncation toward zero, the rounding done by Python's `int()` and numpy's `astype("int")`.
- `Config` (`config.dfy`): the thresholds `MinConf = 0.2`, `MinDistance = 50` and `PersonIdx = 15`, bundled into one immutable value.
- `Detection` (`detection.dfy`): raw and filtered detections, `DetectPeople`, box scaling and centroids.
- `Proximity` (`proximity.dfy`): the too-close relation, the violation set as a pure function (`Violations`), and the nested loop that computes it (`ClassifyViolations`).
- `Frame` (`frame.dfy`): per-detection labels, the violation count, the whole per-frame pipeline, and worked examples.

Modelling choices:

- Confidences and normalised boxes are exact `real`s. The threshold test uses integer squared distances. `Proximity.CloseIffDistanceBelow` shows this agrees with the source's `sqrt(dx² + dy²) < minDist` for integer centroids, so no square root is needed.
- The class label is a float in the network's output, and the source converts it with `int(...)`. A raw record therefore carries a `real` label, and the model truncates it.
- Every stage is a pure function of its inputs. Running the classifier twice on the same centroids gives the same set by construction.
- The code computes each centroid coordinate as `int((startX + endX) / 2.0)`, which rounds toward zero. A floor of the midpoint would differ for negative coordinates, which the detector's boxes can have. The contract of `Detection.Centroid` shows the two agree when the coordinate sum is non-negative. `Detection.CentroidOfNegativeBoxIsNotFloor` shows where they differ.

## Model

| member | source | states |
|---|---|---|
| Numeric.Trunc | pyimagesearch/detection.py:25 | the result is the input with its fractional part dropped: within one of it, on the zero side, never changing sign |
| Detection.DetectPeople | pyimagesearch/detection.py:17-33 | every emitted detection has confidence strictly above `minConf`, so a record exactly at the threshold is never emitted; there are never more results than raw records |
| Detection.DetectPeopleProvenance | pyimagesearch/detection.py:20-31 | each result is the conversion of some raw record whose confidence is above `minConf` and whose class index is the person index; wrong-class records never appear |
| Detection.KeptIndices | pyimagesearch/detection.py:17-23 | the positions of the surviving raw records are strictly increasing, each one passes both filters, and every passing position is listed |
| Detection.DetectPeopleIsKeptSubsequence | pyimagesearch/detection.py:17-31 | the output corresponds one-to-one, in order, to the passing raw records: the k-th result is the conversion of the k-th passing record, with its confidence unchanged |
| Detection.DetectPeopleCount | pyimagesearch/detection.py:17-31 | the number of results equals the number of raw records that pass both filters, so nothing is merged or suppressed |
| Detection.NothingKeptYieldsEmpty | pyimagesearch/detection.py:9-33 | when no raw record passes the filters (including an empty input) the result is the empty list, not an error |
| Detection.ScaleBox | pyimagesearch/detection.py:24-25 | each pixel coordinate is the normalised coordinate times W, H, W, H respectively, truncated toward zero |
| Detection.ScaleWithinFrame | pyimagesearch/detection.py:24-25 | a normalised coordinate in [0, 1] becomes a pixel coordinate between 0 and the frame size |
| Detection.Centroid | pyimagesearch/detection.py:27-28 | `int((start + end) / 2.0)` on each axis is the integer coordinate sum halved with rounding toward zero, which is the floor `(start + end) / 2` when the sum is non-negative |
| Detection.ToDetection | pyimagesearch/detection.py:24-30 | the emitted detection keeps the raw confidence unchanged, its box is the raw box scaled by W, H, W, H and truncated, and its centroid is the box's coordinate sums halved toward zero |
| Detection.CentroidInsideBox | pyimagesearch/detection.py:27-28 | the centroid of a well-formed box lies inside the box |
| Detection.CentroidOfNegativeBoxIsNotFloor | pyimagesearch/detection.py:27-28 | for a box spanning x = -3..0 the centroid x is -1, where the floor of the midpoint would be -2 |
| Proximity.CloseIffDistanceBelow | social_distance_detector.py:58-62 | the squared-distance test holds exactly when the Euclidean distance is strictly below `minDist`; a distance of exactly `minDist` is not too close |
| Proximity.Violations | social_distance_detector.py:54-64 | the violation set is empty with fewer than two centroids, and every member is a valid index; its exact membership is stated by `Proximity.ViolationsCharacterization` |
| Proximity.CloseSymmetric | social_distance_detector.py:58 | the too-close relation between two centroids does not depend on their order, like the symmetric distance matrix |
| Proximity.ViolationsSound | social_distance_detector.py:60-64 | a flagged index is a valid index that has another index whose centroid is too close; nobody is flagged alone |
| Proximity.ViolationsComplete | social_distance_detector.py:60-64 | for every too-close pair `i < j`, both `i` and `j` are flagged |
| Proximity.ViolationsCharacterization | social_distance_detector.py:54-64 | the violation set is exactly the set of indices that have a too-close partner, whichever of the two comes first |
| Proximity.ViolationsInRange | social_distance_detector.py:60-64 | every flagged index is below the number of detections, so at most that many people are flagged |
| Proximity.ViolationsInvariantUnderReordering | social_distance_detector.py:57-64 | listing the same centroids in another order flags the same people: position k of the reordered list is flagged iff its source position was |
| Proximity.ClassifyViolations | social_distance_detector.py:54-64 | the two nested loops over pairs `i < j` build exactly the pure violation set, and so exactly the indices with a too-close partner |
| Frame.Labels | social_distance_detector.py:66-72 | there is one label per detection, and detection k is drawn as violating exactly when k is in the violation set |
| Frame.CountIsNumberOfViolatingLabels | social_distance_detector.py:66-77 | the displayed count, the size of the violation set, equals the number of detections drawn as violating |
| Frame.Analyze | social_distance_detector.py:54-77 | each detection is labelled violating iff another detection's centroid is too close; the count equals the number of violating labels, is at most the number of detections, and is zero with fewer than two detections |
| Frame.ProcessFrame | social_distance_detector.py:52-77 | the whole frame pipeline reports only detections above the confidence threshold, at most one per raw record, one label per detection, and a count no larger than the number of detections |
| Frame.ThreePeopleExample | social_distance_detector.py:54-64 | with safe distance 50, centroids (0,0), (30,0) and (1000,1000) give the violation set {0, 1} |
| Frame.ExactlyMinDistanceIsSafe | social_distance_detector.py:62 | two centroids exactly 50 pixels apart are not flagged |
| Frame.CountIsPeopleNotPairs | social_distance_detector.py:77 | four people in a 30-pixel row form six too-close pairs, since every pair `i < j` is too close, but the count is 4 |
| Frame.ConfidenceThresholdIsStrict | pyimagesearch/detection.py:20 | a person record with confidence exactly 0.2 is dropped; one with 0.2000001 is kept |
| Frame.ClassFilterExamples | pyimagesearch/detection.py:21-23 | a confident record of another class is dropped; a label of 15.7 truncates to class 15 and is kept |

## Left out

- Model loading, building the model paths, and the `CLASSES` label list (social_distance_detector.py:26-37) are file I/O and static data. Only the person index 15 is used.
- Video capture, `imutils.resize`, `cv2.dnn.blobFromImage` and `net.forward()` are device I/O and foreign library calls. The model takes the network's output as a sequence of raw records, plus the frame's width and height.
- Drawing, display, key handling, video writing and argument parsing are UI and I/O.
- `NMS_THRESH` and `USE_GPU` are declared in the configuration but never used. No suppression step is modelled.
- Float32 rounding in numpy and in `scipy.spatial.distance.cdist` is not modelled. Box scaling uses exact reals, and the distance test uses exact integer squared distances.
- Confidences are exact reals, so the confidence threshold is the real-number boundary `confidence > 0.2`. The source compares a float32 confidence with the Python float 0.2. Whether the float32 nearest 0.2 is kept depends on the numpy version's promotion rules, and the model does not capture that.
- NaN confidences and coordinates too large for the integer cast are not modelled, because reals have neither.
- The code defines no invalid-frame or inference-failure error paths, so none are modelled.
