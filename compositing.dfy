/** Laying the canvas over the live frame: pixels drawn brightly enough show the
    canvas as is, all others show the frame with the canvas OR-ed in. */
module Compositing {
  import opened Common

  /** The threshold applied to the canvas's intensity. */
  const Threshold: bv8 := 50

  /** `cv2.threshold(gray, 50, 255, cv2.THRESH_BINARY_INV)` on one pixel:
      black where the canvas is brighter than the threshold, white elsewhere. */
  function InvMask(g: bv8): (m: bv8)
    ensures m == 0 <==> g > Threshold
    ensures m == 255 <==> g <= Threshold
  {
    if g > Threshold then 0 else 255
  }

  /** `bitwise_and(frame, inv)` then `bitwise_or(_, canvas)` on one pixel, the
      one-channel mask copied to all three channels. `gray` stands for
      `cv2.cvtColor(_, COLOR_BGR2GRAY)` on a pixel. */
  function MergePixel(frame: Bgr, canvas: Bgr, gray: Bgr -> bv8): (out: Bgr)
    ensures gray(canvas) > Threshold ==> out == canvas
    ensures gray(canvas) <= Threshold ==>
      out == Bgr(frame.b | canvas.b, frame.g | canvas.g, frame.r | canvas.r)
  {
    var m := InvMask(gray(canvas));
    Bgr((frame.b & m) | canvas.b, (frame.g & m) | canvas.g, (frame.r & m) | canvas.r)
  }

  /** Every bit set in the canvas is set in the result: strokes are never
      dimmed by the frame beneath them. */
  lemma CanvasBitsShow(frame: Bgr, canvas: Bgr, gray: Bgr -> bv8)
    ensures var out := MergePixel(frame, canvas, gray);
      out.b & canvas.b == canvas.b && out.g & canvas.g == canvas.g && out.r & canvas.r == canvas.r
  {
    var m := InvMask(gray(canvas));
    BitsOfOr(frame.b & m, canvas.b);
    BitsOfOr(frame.g & m, canvas.g);
    BitsOfOr(frame.r & m, canvas.r);
  }

  lemma BitsOfOr(a: bv8, c: bv8)
    ensures (a | c) & c == c
  {
  }

  /** A black canvas pixel (never drawn, or painted over by the eraser) shows
      the live frame unchanged, whenever black has intensity 0. */
  lemma BlackCanvasShowsFrame(frame: Bgr, gray: Bgr -> bv8)
    requires gray(Black) == 0
    ensures MergePixel(frame, Black, gray) == frame
  {
    assert frame.b | 0 == frame.b && frame.g | 0 == frame.g && frame.r | 0 == frame.r;
  }

  /** The whole composite, pixel by pixel over frame and canvas of equal size. */
  function Merge(frame: seq<Bgr>, canvas: seq<Bgr>, gray: Bgr -> bv8): (out: seq<Bgr>)
    requires |frame| == |canvas|
    ensures |out| == |frame|
    ensures forall i :: 0 <= i < |out| ==> out[i] == MergePixel(frame[i], canvas[i], gray)
  {
    seq(|frame|, i requires 0 <= i < |frame| => MergePixel(frame[i], canvas[i], gray))
  }

  /** On an all-black canvas the composite is the frame itself. */
  lemma BlankCanvasShowsFrame(frame: seq<Bgr>, canvas: seq<Bgr>, gray: Bgr -> bv8)
    requires |frame| == |canvas| && gray(Black) == 0
    requires forall i :: 0 <= i < |canvas| ==> canvas[i] == Black
    ensures Merge(frame, canvas, gray) == frame
  {
    forall i | 0 <= i < |frame| ensures Merge(frame, canvas, gray)[i] == frame[i] {
      BlackCanvasShowsFrame(frame[i], gray);
    }
  }
}
