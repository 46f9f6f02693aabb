/** The per-frame rule "left wrist raised and crossed past the nose". It reads
    only joint 0 (nose) and joint 9 (left wrist) of one pose estimate. */
module Classifier {

  /** One keypoint as the pose estimator returns it: vertical position
      (growing downwards), horizontal position and confidence score. The
      values are only ever compared, so reals stand in for the floats. */
  datatype Joint = Joint(height: real, width: real, score: real)

  /** The keypoints of one person in one frame, indexed by joint number. */
  type Keypoints = seq<Joint>

  const Nose: nat := 0
  const LeftWrist: nat := 9

  /** The confidence gate: the frame is rejected only when BOTH the nose and
      the wrist scores fall below the threshold. */
  predicate Confident(kp: Keypoints, threshold: real)
    requires |kp| > LeftWrist
  {
    !(kp[Nose].score < threshold && kp[LeftWrist].score < threshold)
  }

  /** The wrist is above the nose (smaller height) and to the right of it in
      image coordinates (larger width). */
  predicate WristAboveAndAcross(kp: Keypoints)
    requires |kp| > LeftWrist
  {
    kp[Nose].height > kp[LeftWrist].height && kp[Nose].width < kp[LeftWrist].width
  }

  /** The rule itself: true exactly when the gate lets the frame through and
      the geometry holds. */
  function LeftWristUpCross(kp: Keypoints, threshold: real): (up: bool)
    requires |kp| > LeftWrist
    ensures !Confident(kp, threshold) ==> !up
    ensures Confident(kp, threshold) ==> (up <==> WristAboveAndAcross(kp))
  {
    if kp[Nose].score < threshold && kp[LeftWrist].score < threshold then false
    else if kp[Nose].height > kp[LeftWrist].height && kp[Nose].width < kp[LeftWrist].width then true
    else false
  }

  /** The result depends on joints 0 and 9 only; every other joint, and any
      joints past index 9, are ignored. */
  lemma OnlyNoseAndWristMatter(kp: Keypoints, kp': Keypoints, threshold: real)
    requires |kp| > LeftWrist && |kp'| > LeftWrist
    requires kp[Nose] == kp'[Nose] && kp[LeftWrist] == kp'[LeftWrist]
    ensures LeftWristUpCross(kp, threshold) == LeftWristUpCross(kp', threshold)
  {
  }

  /** Raising the confidence threshold can only turn a detection off, never on. */
  lemma ThresholdMonotone(kp: Keypoints, low: real, high: real)
    requires |kp| > LeftWrist
    requires low <= high
    ensures LeftWristUpCross(kp, high) ==> LeftWristUpCross(kp, low)
  {
  }

  /** The gate is the disjunction of the two per-joint gates: one confident
      joint suffices, however low the other one's score. */
  lemma OneConfidentJointSuffices(kp: Keypoints, threshold: real)
    requires |kp| > LeftWrist
    requires kp[Nose].score >= threshold
    requires WristAboveAndAcross(kp)
    ensures LeftWristUpCross(kp, threshold)
  {
  }

  /** A frame where nose and wrist are confident (0.9), the nose at (0.2, 0.5)
      and the wrist at (0.1, 0.6), with threshold 0.5: the rule fires. */
  lemma ConfidentRaisedWrist(kp: Keypoints)
    requires |kp| > LeftWrist
    requires kp[Nose] == Joint(0.2, 0.5, 0.9) && kp[LeftWrist] == Joint(0.1, 0.6, 0.9)
    ensures LeftWristUpCross(kp, 0.5)
  {
  }

  /** Both scores 0.1 with threshold 0.5: the rule rejects whatever the geometry. */
  lemma UnconfidentFrame(kp: Keypoints)
    requires |kp| > LeftWrist
    requires kp[Nose].score == 0.1 && kp[LeftWrist].score == 0.1
    ensures !LeftWristUpCross(kp, 0.5)
  {
  }
}
