/**
 The detector's static configuration: the thresholds of the per-frame
 pipeline, gathered into one immutable value that is passed to both stages.
 */
module Config {

  /**
   `minConf` keeps only detections the network is more than this sure of,
   `minDistance` is the safe distance between two people in pixels, and
   `personIdx` is the label index of "person" in the detector's taxonomy.
   */
  datatype Config = Config(minConf: real, minDistance: nat, personIdx: int)

  /** Weak detections at or below this confidence are dropped. */
  const MinConf: real := 0.2

  /** Minimum safe distance between two people, in pixels. */
  const MinDistance: nat := 50

  /** MobileNet SSD's index of the "person" class. */
  const PersonIdx: int := 15

  const Default: Config := Config(MinConf, MinDistance, PersonIdx)
}
