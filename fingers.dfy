/** The finger-state classifier: which of the five fingers of a detected hand
    are held up, judged from the hand's 21 landmarks by plain comparisons. */
module Fingers {

  /** One landmark of the hand-pose detector, in normalised image coordinates
      (the unused depth is dropped; y grows downwards). */
  datatype Landmark = Landmark(x: real, y: real)

  /** The detector reports 21 landmarks per hand. */
  const LandmarkCount := 21

  /** Fingertip and the joint below it, thumb first, then index, middle, ring, pinky. */
  const Tips: seq<nat> := [4, 8, 12, 16, 20]
  const Pips: seq<nat> := [3, 6, 10, 14, 18]

  /** `f` is the finger-state vector of `lm`: five entries; the thumb is up when
      its tip is left of its joint, every other finger when its tip is above its joint. */
  ghost predicate Classifies(lm: seq<Landmark>, f: seq<bool>)
    requires |lm| == LandmarkCount
  {
    |f| == 5 &&
    f[0] == (lm[4].x < lm[3].x) &&
    f[1] == (lm[8].y < lm[6].y) &&
    f[2] == (lm[12].y < lm[10].y) &&
    f[3] == (lm[16].y < lm[14].y) &&
    f[4] == (lm[20].y < lm[18].y)
  }

  /** `fingers_up`: builds the vector one finger at a time. */
  method FingersUp(lm: seq<Landmark>) returns (fingers: seq<bool>)
    requires |lm| == LandmarkCount
    ensures Classifies(lm, fingers)
  {
    fingers := [];
    fingers := fingers + [lm[Tips[0]].x < lm[Pips[0]].x];  // thumb
    for i := 1 to 5
      invariant |fingers| == i
      invariant fingers[0] == (lm[4].x < lm[3].x)
      invariant forall j :: 1 <= j < i ==> fingers[j] == (lm[Tips[j]].y < lm[Pips[j]].y)
    {
      fingers := fingers + [lm[Tips[i]].y < lm[Pips[i]].y];
    }
  }

  /** The drawing pose: the index finger up and none of middle, ring or pinky
      (`fingers[1] and not any(fingers[2:])`); the thumb is not looked at. */
  predicate IsDrawPose(fingers: seq<bool>)
    requires |fingers| == 5
    ensures IsDrawPose(fingers) <==> fingers[1] && !fingers[2] && !fingers[3] && !fingers[4]
  {
    assert fingers[2..] == [fingers[2], fingers[3], fingers[4]];
    fingers[1] && true !in fingers[2..]
  }

  /** On a classified hand, the drawing pose holds exactly when the index tip is
      above its joint and the middle, ring and pinky tips are not above theirs. */
  lemma DrawPoseOfLandmarks(lm: seq<Landmark>, f: seq<bool>)
    requires |lm| == LandmarkCount && Classifies(lm, f)
    ensures IsDrawPose(f) <==>
      lm[8].y < lm[6].y && lm[12].y >= lm[10].y && lm[16].y >= lm[14].y && lm[20].y >= lm[18].y
  {
    assert f[2..] == [f[2], f[3], f[4]];
  }
}
