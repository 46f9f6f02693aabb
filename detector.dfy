/** The gesture detector of one detection session: a bounded queue of
    per-frame labels, updated in place as frames arrive, and the vote that
    turns it into debounced events. */
module Detector {
  import opened Enums
  import opened Classifier
  import opened Counting
  import opened Window
  import opened Voting

  const DefaultMaxlen: nat := 10
  const DefaultThreshold: real := 0.2

  /** The label one frame contributes to the queue. */
  function FrameLabel(keypoint: Keypoints, threshold: real): (g: Gesture)
    requires |keypoint| > LeftWrist
    ensures g == LeftWristUp <==> LeftWristUpCross(keypoint, threshold)
  {
    if LeftWristUpCross(keypoint, threshold) then LeftWristUp else NoGesture
  }

  class GestureDetector {
    /** The labels of the most recent frames, oldest first. */
    var queue: seq<Gesture>
    /** The capacity of the queue. */
    const maxlen: nat
    /** The confidence threshold of the wrist rule. */
    const threshold: real

    ghost predicate Valid()
      reads this
    {
      |queue| <= maxlen
    }

    constructor (maxlen: nat := DefaultMaxlen, threshold: real := DefaultThreshold)
      ensures Valid()
      ensures this.maxlen == maxlen && this.threshold == threshold
      ensures queue == []
    {
      this.maxlen := maxlen;
      this.threshold := threshold;
      queue := [];
    }

    /** Classifies one frame, appends its label (evicting the oldest one when
        the queue is full), then votes. */
    method CheckGesture(keypoint: Keypoints) returns (g: Gesture)
      requires Valid() && 0 < maxlen
      requires |keypoint| > LeftWrist
      modifies this
      ensures Valid()
      ensures Outcome(g, queue) == Step(old(queue), FrameLabel(keypoint, threshold), maxlen)
      ensures g == NoGesture ==> queue == Appended(old(queue), FrameLabel(keypoint, threshold), maxlen)
      ensures g != NoGesture ==> queue == []
    {
      if LeftWristUpCross(keypoint, threshold) {
        queue := Appended(queue, LeftWristUp, maxlen);
      } else {
        queue := Appended(queue, NoGesture, maxlen);
      }
      g := CheckModGesture();
    }

    /** The vote on the current queue: nothing until the queue is full, then
        the most common label if it reaches the bar; a winning gesture other
        than NoGesture empties the queue. */
    method CheckModGesture() returns (g: Gesture)
      requires Valid() && 0 < maxlen
      modifies this
      ensures Valid()
      ensures Outcome(g, queue) == Vote(old(queue), maxlen)
      ensures |old(queue)| < maxlen ==> g == NoGesture && queue == old(queue)
      ensures g == NoGesture ==> queue == old(queue)
      ensures g != NoGesture ==> queue == [] && IsMode(old(queue), g) && Count(old(queue), g) >= Required(maxlen)
    {
      if |queue| < maxlen {
        return NoGesture;
      }
      var (mode, count) := MostCommon(queue);
      if count < Required(maxlen) {
        return NoGesture;
      }
      if mode != NoGesture {
        VoteFiresExactly(queue, maxlen, mode);
        queue := [];
      }
      g := mode;
    }
  }
}
