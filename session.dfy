/** The program as a whole: load the palette, then run the per-frame step over
    the frames the camera delivers until one of them fails. */
module Session {
  import opened Common
  import opened Palette
  import opened Fingers
  import opened Gesture

  /** What the detector reports for the first hand it finds in a frame: its
      landmarks and the index fingertip already converted to pixels. */
  datatype Detection = Detection(landmarks: seq<Landmark>, x: int, y: int)

  /** No frame shows a hand. */
  predicate NoHands(frames: seq<Option<Detection>>)
  {
    forall i :: 0 <= i < |frames| ==> frames[i].None?
  }

  /** No detected fingertip is on the palette strip, so no colour is ever chosen. */
  predicate NoStripTouch(frames: seq<Option<Detection>>)
  {
    forall i :: 0 <= i < |frames| ==> frames[i].Some? ==> frames[i].value.y >= PaletteHeight
  }

  /** The body of the `while True` loop, frame after frame, classifying each
      detected hand first. The camera running dry (or the quit key) is the end
      of `frames`; an exception ends the loop at the frame that raised it. */
  method RunFrames(d: Doodle, frames: seq<Option<Detection>>) returns (out: Outcome, handled: nat)
    requires d.Valid()
    requires forall i :: 0 <= i < |frames| && frames[i].Some? ==> |frames[i].value.landmarks| == LandmarkCount
    modifies d
    ensures handled <= |frames|
    ensures out.Running? ==> handled == |frames| && d.Valid()
    ensures out.Crashed? ==> handled > 0
    ensures old(d.canvas) <= d.canvas && Painted(d.canvas, d.paletteColors)
    // At most one segment per frame.
    ensures |d.canvas| <= |old(d.canvas)| + handled
    // Too many icons: the first frame fails on the palette bar.
    ensures |d.paletteColors| > FrameWidth && frames != [] ==>
      out == Crashed(PaletteBarError) && handled == 1 && d.canvas == old(d.canvas)
    // No hand in any frame: the loop runs to the end and draws nothing.
    ensures |d.paletteColors| <= FrameWidth && NoHands(frames) ==>
      out == Running && d.canvas == old(d.canvas)
    // Without a chosen colour, nothing is drawn until the strip is touched.
    ensures old(d.drawColor).None? && NoStripTouch(frames) ==>
      d.drawColor.None? && d.canvas == old(d.canvas)
  {
    out, handled := Running, 0;
    while handled < |frames| && out.Running?
      invariant handled <= |frames|
      invariant out.Running? ==> d.Valid()
      invariant handled == 0 ==> out == Running
      invariant out.Crashed? ==> handled > 0
      invariant old(d.canvas) <= d.canvas && Painted(d.canvas, d.paletteColors)
      invariant |d.canvas| <= |old(d.canvas)| + handled
      invariant |d.paletteColors| > FrameWidth && handled > 0 ==>
        out == Crashed(PaletteBarError) && handled == 1 && d.canvas == old(d.canvas)
      invariant |d.paletteColors| <= FrameWidth && (forall i :: 0 <= i < handled ==> frames[i].None?) ==>
        out == Running && d.canvas == old(d.canvas)
      invariant old(d.drawColor).None? &&
                (forall i :: 0 <= i < handled ==> frames[i].Some? ==> frames[i].value.y >= PaletteHeight) ==>
        d.drawColor.None? && d.canvas == old(d.canvas)
    {
      var hand: Option<Hand> := None;
      if frames[handled].Some? {
        var det := frames[handled].value;
        var fingers := FingersUp(det.landmarks);
        hand := Some(Hand(fingers, det.x, det.y));
      }
      out := d.Step(hand);
      handled := handled + 1;
    }
  }

  /** How the program ends: it exits before opening the camera when no palette
      icon could be loaded, or the frame loop ends after `handled` frames with
      the canvas it drew. */
  datatype ProgramEnd = NoPaletteExit | Ended(out: Outcome, handled: nat, canvas: seq<Segment>)

  /** The whole program on a given palette folder and sequence of frames. */
  method RunProgram<Img>(folderExists: bool, listing: seq<string>, read: string -> Option<Img>,
                         frames: seq<Option<Detection>>) returns (r: ProgramEnd)
    requires forall i :: 0 <= i < |frames| && frames[i].Some? ==> |frames[i].value.landmarks| == LandmarkCount
    ensures r.NoPaletteExit? <==> KeptIcons(folderExists, listing, read) == []
    ensures r.Ended? ==>
      var kept := KeptIcons(folderExists, listing, read);
      forall k :: 0 <= k < |r.canvas| ==>
        (exists j :: 0 <= j < |kept| && r.canvas[k].color == ColorOf(kept[j])) &&
        r.canvas[k].thickness == Thickness(r.canvas[k].color)
    ensures r.Ended? ==>
      r.handled <= |frames| && |r.canvas| <= r.handled &&
      (r.out.Running? ==> r.handled == |frames|) && (r.out.Crashed? ==> r.handled > 0)
    ensures r.Ended? && |KeptIcons(folderExists, listing, read)| > FrameWidth && frames != [] ==>
      r.out == Crashed(PaletteBarError) && r.handled == 1 && r.canvas == []
    ensures r.Ended? && |KeptIcons(folderExists, listing, read)| <= FrameWidth && NoHands(frames) ==>
      r.out == Running && r.handled == |frames| && r.canvas == []
    ensures r.Ended? && NoStripTouch(frames) ==> r.canvas == []
  {
    var loaded := LoadPalette(folderExists, listing, read);
    if loaded.NoPalette? {
      return NoPaletteExit;
    }
    ghost var kept := KeptIcons(folderExists, listing, read);
    var d := new Doodle(loaded.colors);
    var out, handled := RunFrames(d, frames);
    r := Ended(out, handled, d.canvas);
    assert Painted(r.canvas, loaded.colors);
    forall k | 0 <= k < |r.canvas|
      ensures exists j :: 0 <= j < |kept| && r.canvas[k].color == ColorOf(kept[j])
    {
      var j :| 0 <= j < |loaded.colors| && loaded.colors[j] == r.canvas[k].color;
      assert r.canvas[k].color == ColorOf(kept[j]);
    }
  }
}
