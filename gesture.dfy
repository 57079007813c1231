/** The per-frame gesture step of the air-drawing loop: palette selection,
    drawing with a smoothed fingertip, and the resets between strokes. */
module Gesture {
  import opened Common
  import opened PyArith
  import Fingers

  /** A pixel position, x to the right and y downwards. */
  datatype Point = Point(x: int, y: int)

  /** `(0, 0)`, the value of the previous point that means "no previous point". */
  const Origin := Point(0, 0)

  /** One `cv2.line` call on the canvas; the canvas is the log of these. */
  datatype Segment = Segment(from: Point, to: Point, color: Bgr, thickness: int)

  /** What the step is told about the first detected hand: its finger-state vector
      and the index fingertip (landmark 8) in pixels. */
  datatype Hand = Hand(fingers: seq<bool>, x: int, y: int)

  /** The exceptions that end the program inside a frame. */
  datatype Fault =
    | PaletteBarError     // section width 0: cv2.resize of an icon to zero width fails
    | PaletteIndexError   // palette_colors[index] with index below -len(palette_colors)
    | DrawColorUnbound    // draw_color is read before any palette selection assigned it
  datatype Outcome = Running | Crashed(fault: Fault)

  // ---------------- smoothing ----------------

  /** The last `n` elements of `s` (all of `s` when it is shorter). */
  function LastN<T>(s: seq<T>, n: nat): (r: seq<T>)
    ensures |r| == if |s| <= n then |s| else n
    ensures n > 0 && s != [] ==> r[|r| - 1] == s[|s| - 1]
  {
    if |s| <= n then s else s[|s| - n..]
  }

  /** The window is the tail of the history: its k-th entry is the k-th of the
      last `|LastN(s, n)|` entries of `s`. */
  lemma LastNAt<T>(s: seq<T>, n: nat, k: nat)
    requires k < |LastN(s, n)|
    ensures LastN(s, n)[k] == s[|s| - |LastN(s, n)| + k]
  {
  }

  /** The smoothing list after `points.append(p)` and, when it grew past
      SMOOTHING entries, `points.pop(0)`. */
  function Push(points: seq<Point>, p: Point): (r: seq<Point>)
    ensures r != [] && r[|r| - 1] == p
    ensures |points| <= Smoothing ==> |r| == if |points| < Smoothing then |points| + 1 else Smoothing
  {
    var q := points + [p];
    if |q| > Smoothing then q[1..] else q
  }

  /** Pushing onto the window of a history gives the window of the longer history:
      the list always holds the last SMOOTHING fingertips, oldest first. */
  lemma PushKeepsLastN(s: seq<Point>, p: Point)
    ensures Push(LastN(s, Smoothing), p) == LastN(s + [p], Smoothing)
    ensures |Push(LastN(s, Smoothing), p)| <= Smoothing
  {
    var w := LastN(s, Smoothing);
    var lhs, rhs := Push(w, p), LastN(s + [p], Smoothing);
    assert |lhs| == |rhs|;
    forall k | 0 <= k < |lhs| ensures lhs[k] == rhs[k] {
      if |w + [p]| > Smoothing {
        assert lhs[k] == (w + [p])[k + 1];
      }
    }
  }

  /** The smoothing list of a stroke drawn below the strip lies below it too. */
  lemma LastNBelowPalette(s: seq<Point>)
    requires forall k :: 0 <= k < |s| ==> s[k].y >= PaletteHeight
    ensures forall k :: 0 <= k < |LastN(s, Smoothing)| ==> LastN(s, Smoothing)[k].y >= PaletteHeight
  {
    var r := LastN(s, Smoothing);
    forall k | 0 <= k < |r| ensures r[k].y >= PaletteHeight {
      LastNAt(s, Smoothing, k);
    }
  }

  function Xs(points: seq<Point>): (r: seq<int>)
    ensures |r| == |points| && forall k :: 0 <= k < |points| ==> r[k] == points[k].x
  {
    seq(|points|, k requires 0 <= k < |points| => points[k].x)
  }

  function Ys(points: seq<Point>): (r: seq<int>)
    ensures |r| == |points| && forall k :: 0 <= k < |points| ==> r[k] == points[k].y
  {
    seq(|points|, k requires 0 <= k < |points| => points[k].y)
  }

  /** `(int(sum(xs) / len), int(sum(ys) / len))`: the coordinate-wise mean of the
      points, each coordinate truncated toward zero. */
  function Average(points: seq<Point>): (a: Point)
    requires |points| > 0
    ensures |points| == 1 ==> a == points[0]
  {
    Point(Mean(Xs(points)), Mean(Ys(points)))
  }

  /** The average lies in every axis-aligned box that holds all the points. */
  lemma AverageInBox(points: seq<Point>, x0: int, x1: int, y0: int, y1: int)
    requires |points| > 0
    requires forall k :: 0 <= k < |points| ==> x0 <= points[k].x <= x1 && y0 <= points[k].y <= y1
    ensures x0 <= Average(points).x <= x1 && y0 <= Average(points).y <= y1
  {
    MeanAtLeast(Xs(points), x0);
    MeanAtMost(Xs(points), x1);
    MeanAtLeast(Ys(points), y0);
    MeanAtMost(Ys(points), y1);
  }

  /** All points below the palette strip have their average below it too. */
  lemma AverageBelowPalette(points: seq<Point>)
    requires |points| > 0
    requires forall k :: 0 <= k < |points| ==> points[k].y >= PaletteHeight
    ensures Average(points).y >= PaletteHeight
  {
    MeanAtLeast(Ys(points), PaletteHeight);
  }

  // ---------------- palette selection ----------------

  /** `FRAME_WIDTH // len(palette_images)`. */
  function SectionWidth(n: nat): (w: int)
    requires n > 0
    ensures w >= 0 && w * n <= FrameWidth < (w + 1) * n
    ensures w > 0 <==> n <= FrameWidth
  {
    FloorDiv(FrameWidth, n)
  }

  /** What touching the palette strip at column `x` does to the colour. */
  datatype Touch = Select(color: Bgr) | Miss | IndexFault

  /** The floor quotient is the one section whose columns contain `x`. */
  lemma FloorDivUnique(x: int, w: int, i: int)
    requires w > 0 && i * w <= x < (i + 1) * w
    ensures FloorDiv(x, w) == i
  {
    var q := FloorDiv(x, w);
    if q < i { MulMono(q + 1, i, w); }
    if q > i { MulMono(i + 1, q, w); }
  }

  /** `index = x // section_width`, then `palette_colors[index]` when
      `index < len(palette_colors)`, with Python's wrap-around for a negative index. */
  function PaletteTouch(colors: seq<Bgr>, x: int): (t: Touch)
    requires 0 < |colors| <= FrameWidth
    ensures t.Select? ==> t.color in colors
    ensures t.Miss? <==> FloorDiv(x, SectionWidth(|colors|)) >= |colors|
    ensures t.IndexFault? <==> FloorDiv(x, SectionWidth(|colors|)) < -|colors|
    ensures 0 <= FloorDiv(x, SectionWidth(|colors|)) < |colors| ==>
      t == Select(colors[FloorDiv(x, SectionWidth(|colors|))])
    ensures -|colors| <= FloorDiv(x, SectionWidth(|colors|)) < 0 ==>
      t == Select(colors[|colors| + FloorDiv(x, SectionWidth(|colors|))])
  {
    var index := FloorDiv(x, SectionWidth(|colors|));
    if index < |colors| then
      match PyIndex(colors, index)
      case Some(c) => Select(c)
      case None => IndexFault
    else
      Miss
  }

  /** Touching anywhere inside section i of the strip selects palette entry i. */
  lemma TouchSection(colors: seq<Bgr>, i: nat, x: int)
    requires 0 < |colors| <= FrameWidth && i < |colors|
    requires i * SectionWidth(|colors|) <= x < (i + 1) * SectionWidth(|colors|)
    ensures PaletteTouch(colors, x) == Select(colors[i])
  {
    FloorDivUnique(x, SectionWidth(|colors|), i);
  }

  /** Columns left of the strip wrap around: the j-th section to the left of
      column 0 selects the j-th colour from the end of the list. */
  lemma TouchLeftOfStrip(colors: seq<Bgr>, j: int, x: int)
    requires 0 < |colors| <= FrameWidth && 0 < j <= |colors|
    requires (0 - j) * SectionWidth(|colors|) <= x < (1 - j) * SectionWidth(|colors|)
    ensures PaletteTouch(colors, x) == Select(colors[|colors| - j])
  {
    FloorDivUnique(x, SectionWidth(|colors|), 0 - j);
  }

  /** Exactly the columns from `len * section_width` rightwards select nothing;
      when the frame width is not a multiple of the palette size these include
      the last `FRAME_WIDTH % len` columns of the frame. */
  lemma TouchMissIff(colors: seq<Bgr>, x: int)
    requires 0 < |colors| <= FrameWidth
    ensures PaletteTouch(colors, x).Miss? <==> x >= |colors| * SectionWidth(|colors|)
    ensures FrameWidth - FrameWidth % |colors| == |colors| * SectionWidth(|colors|)
  {
    var n, w := |colors|, SectionWidth(|colors|);
    var q := FloorDiv(x, w);
    if q >= n { MulMono(n, q, w); }
    else { MulMono(q + 1, n, w); }
    assert FrameWidth == w * n + FrameWidth % n;
  }

  /** Exactly the columns left of `-len * section_width` raise IndexError. */
  lemma TouchFaultIff(colors: seq<Bgr>, x: int)
    requires 0 < |colors| <= FrameWidth
    ensures PaletteTouch(colors, x).IndexFault? <==> x < -|colors| * SectionWidth(|colors|)
  {
    var n, w := |colors|, SectionWidth(|colors|);
    var q := FloorDiv(x, w);
    if q < -n { MulMono(q + 1, -n, w); }
    else { MulMono(-n, q, w); }
  }

  /** The eraser colour is drawn with the wide brush, every other colour with the thin one. */
  function Thickness(c: Bgr): (t: int)
    ensures t == EraserThickness <==> c == Black
    ensures t == DrawThickness <==> c != Black
  {
    if c == Black then EraserThickness else DrawThickness
  }

  // ---------------- the state of the drawing loop ----------------

  /** Every segment on the canvas is drawn in a palette colour, with the
      thickness that colour calls for. */
  ghost predicate Painted(canvas: seq<Segment>, colors: seq<Bgr>)
  {
    forall k :: 0 <= k < |canvas| ==>
      canvas[k].color in colors && canvas[k].thickness == Thickness(canvas[k].color)
  }

  class Doodle {
    const paletteColors: seq<Bgr>
    var prev: Point
    var points: seq<Point>
    var drawColor: Option<Bgr>
    var canvas: seq<Segment>
    /** The fingertips of every drawing frame since the last reset, oldest first. */
    ghost var stroke: seq<Point>

    ghost predicate Valid()
      reads this
    {
      |paletteColors| > 0 &&
      points == LastN(stroke, Smoothing) &&
      (forall k :: 0 <= k < |stroke| ==> stroke[k].y >= PaletteHeight) &&
      (prev == Origin <==> stroke == []) &&
      (stroke != [] ==>
         prev == Average(points) && prev.y >= PaletteHeight &&
         canvas != [] && canvas[|canvas| - 1].to == prev) &&
      (drawColor.Some? ==> drawColor.value in paletteColors) &&
      Painted(canvas, paletteColors)
    }

    /** The state at the start of the loop: no previous point, an empty smoothing
        list, a blank canvas and no colour chosen yet. */
    constructor (colors: seq<Bgr>)
      requires |colors| > 0
      ensures Valid()
      ensures paletteColors == colors && prev == Origin && points == [] && stroke == []
      ensures drawColor == None && canvas == []
    {
      paletteColors := colors;
      prev := Origin;
      points := [];
      drawColor := None;
      canvas := [];
      stroke := [];
    }

    /** Forgets the current stroke: `prev_x, prev_y = 0, 0` and `points.clear()`. */
    method ResetStroke()
      requires Valid()
      modifies this
      ensures Valid()
      ensures prev == Origin && points == [] && stroke == []
      ensures drawColor == old(drawColor) && canvas == old(canvas)
    {
      prev := Origin;
      points := [];
      stroke := [];
    }

    /** The palette-strip branch: a touch at column `x` may choose a new colour,
        and the stroke is reset whether or not it did. */
    method TouchPalette(x: int) returns (out: Outcome)
      requires Valid() && |paletteColors| <= FrameWidth
      modifies this
      ensures out.Running? ==> Valid()
      ensures canvas == old(canvas)
      ensures PaletteTouch(paletteColors, x).IndexFault? ==>
        out == Crashed(PaletteIndexError) &&
        prev == old(prev) && points == old(points) && stroke == old(stroke) &&
        drawColor == old(drawColor)
      ensures !PaletteTouch(paletteColors, x).IndexFault? ==>
        out == Running && prev == Origin && points == [] && stroke == [] &&
        drawColor == (if PaletteTouch(paletteColors, x).Select?
                      then Some(PaletteTouch(paletteColors, x).color) else old(drawColor))
    {
      var t := PaletteTouch(paletteColors, x);
      if t.IndexFault? {
        return Crashed(PaletteIndexError);
      }
      if t.Select? {
        drawColor := Some(t.color);
      }
      ResetStroke();
      out := Running;
    }

    /** The drawing branch for the fingertip `p` below the strip: smooth, then draw
        one segment from the previous point (right after a reset, from the new
        average itself) to the new average, which becomes the previous point. */
    method DrawTo(p: Point) returns (out: Outcome)
      requires Valid() && p.y >= PaletteHeight
      modifies this
      ensures points == Push(old(points), p) && |points| <= Smoothing
      ensures stroke == old(stroke) + [p] && drawColor == old(drawColor)
      ensures old(drawColor).None? ==>
        out == Crashed(DrawColorUnbound) && canvas == old(canvas) &&
        prev == (if old(prev) == Origin then Average(points) else old(prev))
      ensures old(drawColor).Some? && old(stroke) != [] ==>
        |old(canvas)| > 0 && |canvas| == |old(canvas)| + 1 &&
        canvas[|canvas| - 1].from == old(canvas)[|old(canvas)| - 1].to
      ensures old(drawColor).Some? ==>
        out == Running && Valid() && prev == Average(points) && prev.y >= PaletteHeight &&
        canvas == old(canvas) + [Segment(if old(prev) == Origin then prev else old(prev), prev,
                                         old(drawColor).value, Thickness(old(drawColor).value))]
    {
      PushKeepsLastN(stroke, p);
      points := points + [p];
      if |points| > Smoothing {
        points := points[1..];
      }
      stroke := stroke + [p];
      LastNBelowPalette(stroke);
      AverageBelowPalette(points);
      var avg := Average(points);
      if prev == Origin {
        prev := avg;
      }
      if drawColor.None? {
        return Crashed(DrawColorUnbound);
      }
      var color := drawColor.value;
      var segment := Segment(prev, avg, color, Thickness(color));
      canvas := canvas + [segment];
      prev := avg;
      out := Running;
    }

    /** One pass of the loop body from the palette bar to the drawing decision.
        `hand` is the first detected hand, `None` when the detector found none. */
    method Step(hand: Option<Hand>) returns (out: Outcome)
      requires Valid()
      requires hand.Some? ==> |hand.value.fingers| == 5
      modifies this
      ensures out.Running? ==> Valid()
      ensures old(canvas) <= canvas && Painted(canvas, paletteColors)
      // The palette bar cannot be laid out: the frame fails and nothing changes.
      ensures |paletteColors| > FrameWidth ==>
        out == Crashed(PaletteBarError) &&
        prev == old(prev) && points == old(points) && stroke == old(stroke) &&
        drawColor == old(drawColor) && canvas == old(canvas)
      // No hand: nothing changes.
      ensures |paletteColors| <= FrameWidth && hand.None? ==>
        out == Running &&
        prev == old(prev) && points == old(points) && stroke == old(stroke) &&
        drawColor == old(drawColor) && canvas == old(canvas)
      // Palette strip: maybe a new colour; the stroke is reset; the canvas is kept.
      ensures |paletteColors| <= FrameWidth && hand.Some? && hand.value.y < PaletteHeight ==>
        var t := PaletteTouch(paletteColors, hand.value.x);
        canvas == old(canvas) &&
        (t.IndexFault? ==>
           out == Crashed(PaletteIndexError) &&
           prev == old(prev) && points == old(points) && stroke == old(stroke) &&
           drawColor == old(drawColor)) &&
        (!t.IndexFault? ==>
           out == Running && prev == Origin && points == [] && stroke == [] &&
           drawColor == (if t.Select? then Some(t.color) else old(drawColor)))
      // Drawing pose below the strip.
      ensures |paletteColors| <= FrameWidth && hand.Some? && hand.value.y >= PaletteHeight &&
              Fingers.IsDrawPose(hand.value.fingers) ==>
        var p := Point(hand.value.x, hand.value.y);
        var avg := Average(Push(old(points), p));
        var start := if old(prev) == Origin then avg else old(prev);
        points == Push(old(points), p) && |points| <= Smoothing &&
        stroke == old(stroke) + [p] && drawColor == old(drawColor) &&
        (old(drawColor).None? ==>
           out == Crashed(DrawColorUnbound) && prev == start && canvas == old(canvas)) &&
        (old(drawColor).Some? ==>
           out == Running && prev == avg && prev.y >= PaletteHeight &&
           canvas == old(canvas) + [Segment(start, avg, old(drawColor).value, Thickness(old(drawColor).value))])
      // Any other pose below the strip: the stroke is reset; colour and canvas are kept.
      ensures |paletteColors| <= FrameWidth && hand.Some? && hand.value.y >= PaletteHeight &&
              !Fingers.IsDrawPose(hand.value.fingers) ==>
        out == Running && prev == Origin && points == [] && stroke == [] &&
        drawColor == old(drawColor) && canvas == old(canvas)
    {
      if SectionWidth(|paletteColors|) == 0 {
        return Crashed(PaletteBarError);
      }
      out := Running;
      if hand.None? {
        return;
      }
      var h := hand.value;
      if h.y < PaletteHeight {
        out := TouchPalette(h.x);
      } else if Fingers.IsDrawPose(h.fingers) {
        out := DrawTo(Point(h.x, h.y));
      } else {
        ResetStroke();
      }
    }
  }
}
