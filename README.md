# Hand gesture doodle — a Dafny model of the air-drawing loop

The program draws on a webcam picture with a fingertip. A hand-pose detector
reports 21 landmarks per hand. The program decides from them which fingers are
held up. With only the index finger up below the palette strip, the smoothed
fingertip draws onto a persistent canvas. Touching the palette strip at the top
of the frame chooses a colour or the eraser. Each frame, the canvas is laid over
the live picture.

This project models the decision logic of `hand_gesture_doodle.py`:

- `common.dfy` (module `Common`): the settings constants, the BGR colour/pixel
  type and `Option`.
- `pyarith.dfy` (module `PyArith`): the Python arithmetic the program depends on.
  This covers floor division `//`, `int(a / b)` (which truncates toward zero),
  indexing with negative indices and IndexError, and the truncated mean.
- `palette.dfy` (module `Palette`): choosing a colour from a filename by keyword
  (ASCII lowercase, substring test, first match wins), `sorted` as an insertion
  sort in code-point order, and the loader loop, which keeps images and colours
  in step.
- `fingers.dfy` (module `Fingers`): `fingers_up` as a loop method, and the
  drawing pose `fingers[1] and not any(fingers[2:])`.
- `gesture.dfy` (module `Gesture`): the per-frame state machine as the class
  `Doodle`. Its fields are the previous point, the smoothing list, the current
  colour and the canvas, all updated in place. The ghost field `stroke` holds the
  fingertips drawn since the last reset. The invariant `Valid()` ties the fields
  together:
  - the smoothing list is the last 5 fingertips of the stroke;
  - `(0, 0)` as the previous point means exactly "no stroke in progress";
  - a stroke in progress ends where the last canvas segment ends, below the strip;
  - every segment has a palette colour and the thickness that colour calls for.
- `compositing.dfy` (module `Compositing`): the threshold/AND/OR merge, per pixel
  and for a whole picture.
- `session.dfy` (module `Session`): the main loop over a sequence of frames, and
  the whole program (load the palette, or exit; then run the frames).

The canvas is a log of `cv2.line` calls, `Segment(from, to, color, thickness)`,
not a pixel buffer.

Behaviour the model keeps from the code:

- `draw_color` is assigned inside `main` (line 110) and has no `global`
  declaration, so Python treats it as local to `main`. The module-level default
  at line 47 is never seen there. Drawing before any palette touch therefore
  raises UnboundLocalError at line 133. This happens after the smoothing list
  and the previous point have already been updated. The model starts the colour
  as `None` and ends such a frame with `Crashed(DrawColorUnbound)`. The
  module-level `draw_color = (0, 0, 255)` suggests red was meant as the starting
  colour, but `main` never sees it.
- `x // section_width` is floor division. A negative fingertip column gives a
  negative index, which Python reads from the end of the colour list. Below
  `-len` it raises IndexError (`Crashed(PaletteIndexError)`). An index at or past
  `len` selects nothing, but the stroke is still reset.
- With more than 640 palette images, `section_width` is 0. Resizing an icon to
  zero width then fails on every frame (`Crashed(PaletteBarError)`).
- The smoothed point is `int(sum / len)`, truncated toward zero. `(0, 0)` is the
  "no previous point" sentinel. The model proves it is unambiguous: after a draw
  step the previous point lies at or below row 100.

Inputs that stand in for devices and libraries: `folderExists` is
`os.path.exists("colors")` and `listing` is `os.listdir("colors")`, which the
loader sorts itself. `read` (for `cv2.imread`) maps a file name to an image or
`None`. The detector's result is an optional
`Detection` (21 landmarks plus the fingertip in pixels). `gray` (for
`cv2.cvtColor` to grayscale) maps a pixel to an intensity.

## Model

| member | source | states |
|---|---|---|
| `PyArith.FloorDiv` | hand_gesture_doodle.py:108 | for a positive section width the index q satisfies q·w ≤ x < (q+1)·w, i.e. Python's floor division also for negative x |
| `PyArith.TruncDiv` | hand_gesture_doodle.py:127-128 | `int(a / d)` rounds toward zero: below the quotient for a ≥ 0, above it for a < 0 |
| `PyArith.PyIndex` | hand_gesture_doodle.py:110 | indexing succeeds exactly for -len ≤ i < len, counting from the back for negative i; otherwise IndexError (None) |
| `PyArith.SumAtLeast` | hand_gesture_doodle.py:127-128 | a sum of n values that are all at least lo is at least n·lo |
| `PyArith.SumAtMost` | hand_gesture_doodle.py:127-128 | a sum of n values that are all at most hi is at most n·hi |
| `PyArith.TruncDivAtLeast` | hand_gesture_doodle.py:127-128 | the truncated quotient of a value of at least n·lo is at least lo |
| `PyArith.TruncDivAtMost` | hand_gesture_doodle.py:127-128 | the truncated quotient of a value of at most n·hi is at most hi |
| `PyArith.Mean` | hand_gesture_doodle.py:127-128 | `int(sum(s) / len(s))`; the mean of a single value is that value |
| `PyArith.MeanAtLeast` | hand_gesture_doodle.py:127-128 | the truncated mean stays at or above any lower bound of the entries |
| `PyArith.MeanAtMost` | hand_gesture_doodle.py:127-128 | the truncated mean stays at or below any upper bound of the entries |
| `Palette.Lower` | hand_gesture_doodle.py:31 | `f.lower()` keeps the length and maps each letter A-Z to its lower-case letter, every other character to itself |
| `Palette.LowerIdempotent` | hand_gesture_doodle.py:31 | lowercasing a lowercased name changes nothing |
| `Palette.Contains` | hand_gesture_doodle.py:32-38 | the keyword test `w in name`; the empty word is in every name, as in Python |
| `Palette.ContainsIffOccurs` | hand_gesture_doodle.py:32-38 | the keyword test `w in name` holds exactly when w occurs in the name at some offset |
| `Palette.ColorOf` | hand_gesture_doodle.py:31-41 | red iff the lowercased name has "red"; green iff "green" and not "red"; blue iff "blue" and neither earlier keyword; black (eraser and every other name alike) iff none of red/green/blue |
| `Palette.ColorOfIgnoresCase` | hand_gesture_doodle.py:31 | the colour of a name does not depend on the case of its letters |
| `Palette.NameLe` | hand_gesture_doodle.py:24 | the string order `sorted` uses: code point by code point, and a prefix sorts no later than any extension of it |
| `Palette.NameLeTotal` | hand_gesture_doodle.py:24 | Python's string order is total: of two names one sorts first |
| `Palette.NameLeAntisymmetric` | hand_gesture_doodle.py:24 | two names each sorting no later than the other are equal |
| `Palette.NameLeTrans` | hand_gesture_doodle.py:24 | the string order is transitive |
| `Palette.Sort` | hand_gesture_doodle.py:24 | `sorted(listing)` is in ascending order and holds exactly the listed names (a permutation) |
| `Palette.Readable` | hand_gesture_doodle.py:25-29 | keeps the readable files of the listing in listing order, skipping the others; never more than were listed (its meaning is proved in the next three rows) |
| `Palette.ReadableMembers` | hand_gesture_doodle.py:25-29 | every kept file is a listed, readable file, and every listed readable file is kept |
| `Palette.ReadableCount` | hand_gesture_doodle.py:25-29 | each readable file is kept exactly as many times as it is listed, and an unreadable one not at all |
| `Palette.ReadableSorted` | hand_gesture_doodle.py:24-29 | skipping unreadable files keeps a sorted listing sorted |
| `Palette.KeptIcons` | hand_gesture_doodle.py:23-29 | the loaded icons are in sorted-filename order, are listed, readable files, hold every readable file of the listing exactly as many times as it is listed and no unreadable one, and are none when the folder is missing |
| `Palette.ReadIcons` | hand_gesture_doodle.py:25-41 | the loader loop: one image and one colour per readable file, in order, image k read from kept file k and colour k its keyword colour |
| `Palette.LoadPalette` | hand_gesture_doodle.py:23-45 | no palette iff no readable file in the sorted listing (or no folder); otherwise images and colours have equal, non-zero length, image k is what reading kept file k gave and colour k is `ColorOf` of that file, the kept files being the readable listed files, each as often as listed, in sorted-filename order (`Palette.KeptIcons`) |
| `Fingers.FingersUp` | hand_gesture_doodle.py:50-61 | five booleans: thumb tip left of landmark 3; tips 8, 12, 16, 20 above joints 6, 10, 14, 18 |
| `Fingers.IsDrawPose` | hand_gesture_doodle.py:122 | `fingers[1] and not any(fingers[2:])` holds exactly when the index finger is up and middle, ring and pinky are all down |
| `Fingers.DrawPoseOfLandmarks` | hand_gesture_doodle.py:122 | on a classified hand the drawing pose holds iff the index tip is above its joint and middle, ring and pinky tips are not; the thumb plays no part |
| `Gesture.LastN` | hand_gesture_doodle.py:123-125 | the window of a history is min(len, n) long and, for n > 0, ends with the newest entry |
| `Gesture.LastNAt` | hand_gesture_doodle.py:123-125 | the window's k-th entry is the k-th of the most recent entries of the history |
| `Gesture.Push` | hand_gesture_doodle.py:123-125 | `append` then `pop(0)` past SMOOTHING: the new fingertip is last, and a list of at most 5 grows by one up to 5 |
| `Gesture.PushKeepsLastN` | hand_gesture_doodle.py:123-125 | append then `pop(0)` past 5 entries turns the last-5 window of a history into the last-5 window of the longer history, never more than 5 entries |
| `Gesture.LastNBelowPalette` | hand_gesture_doodle.py:107-125 | fingertips drawn below the strip stay below it in the smoothing list |
| `Gesture.Average` | hand_gesture_doodle.py:127-128 | the coordinate-wise truncated mean; the first point after a reset is the fingertip itself |
| `Gesture.AverageInBox` | hand_gesture_doodle.py:127-128 | the smoothed point lies in every box containing the buffered fingertips |
| `Gesture.AverageBelowPalette` | hand_gesture_doodle.py:127-131 | the smoothed point of fingertips below the strip is below it, so it never equals the (0, 0) sentinel |
| `Gesture.SectionWidth` | hand_gesture_doodle.py:88 | `640 // n` sections fit in the frame width with less than one section left over; the width is positive iff n ≤ 640 |
| `Gesture.FloorDivUnique` | hand_gesture_doodle.py:108 | the computed index is the one section whose columns contain x |
| `Gesture.PaletteTouch` | hand_gesture_doodle.py:107-110 | by index = x // width: a choice from the palette for -len ≤ index < len (wrapping for negatives), a miss for index ≥ len, IndexError below -len; any choice is one of the palette colours |
| `Gesture.TouchSection` | hand_gesture_doodle.py:107-110 | a touch anywhere in section i selects palette colour i |
| `Gesture.TouchLeftOfStrip` | hand_gesture_doodle.py:108-110 | the j-th section left of column 0 selects the j-th colour from the end |
| `Gesture.TouchMissIff` | hand_gesture_doodle.py:88-109 | exactly the columns at or right of len·width select nothing; these are the last 640 mod len columns of the frame |
| `Gesture.TouchFaultIff` | hand_gesture_doodle.py:108-110 | exactly the columns left of -len·width raise IndexError |
| `Gesture.Thickness` | hand_gesture_doodle.py:133 | thickness is 50 iff the colour is black (the eraser), 5 iff it is not |
| `Gesture.Doodle.constructor` | hand_gesture_doodle.py:69-71 | the loop starts with no previous point, an empty smoothing list, a blank canvas and no colour |
| `Gesture.Doodle.ResetStroke` | hand_gesture_doodle.py:118-119 | previous point back to (0, 0) and the smoothing list emptied; colour and canvas kept |
| `Gesture.Doodle.TouchPalette` | hand_gesture_doodle.py:107-119 | a successful touch sets the colour only when a section was hit, resets the stroke either way and leaves the canvas; IndexError changes nothing |
| `Gesture.Doodle.DrawTo` | hand_gesture_doodle.py:122-136 | buffer becomes the last-5 window; one segment from the previous point (the new average right after a reset) to the new average, in the current colour with its thickness; the segment continues the previous one when no reset came between; without a colour the frame raises with the canvas untouched |
| `Gesture.Doodle.Step` | hand_gesture_doodle.py:88-140 | the four paths of a frame (no hand, palette strip, drawing pose, other pose) with their exact effects; the canvas only grows, only on the drawing path, and the invariant holds after every frame that does not raise |
| `Compositing.InvMask` | hand_gesture_doodle.py:144 | the inverse binary threshold is 0 exactly when intensity exceeds 50 and 255 exactly when it does not |
| `Compositing.MergePixel` | hand_gesture_doodle.py:143-147 | a canvas pixel brighter than 50 is shown as is; otherwise the frame pixel OR the canvas pixel per channel |
| `Compositing.CanvasBitsShow` | hand_gesture_doodle.py:147 | every bit of the canvas pixel survives into the composite |
| `Compositing.BlackCanvasShowsFrame` | hand_gesture_doodle.py:143-147 | a black (undrawn or erased) canvas pixel leaves the frame pixel unchanged |
| `Compositing.Merge` | hand_gesture_doodle.py:143-147 | the composite has the frame's size and is the per-pixel merge at every position |
| `Compositing.BlankCanvasShowsFrame` | hand_gesture_doodle.py:143-147 | with an all-black canvas the composite is the live frame |
| `Session.RunFrames` | hand_gesture_doodle.py:78-140 | frames run in order until they run out or one raises; the canvas only grows, by at most one segment per frame, and every segment keeps a palette colour and its thickness; more than 640 icons fail on the first frame; frames without a hand keep the loop running and draw nothing; without a chosen colour nothing is drawn until a fingertip touches the strip |
| `Session.RunProgram` | hand_gesture_doodle.py:18-159 | the program exits before the loop iff no palette icon loads; otherwise it reports how many frames it handled (all of them unless one raised), every drawn segment's colour is the keyword colour of some loaded icon with the matching thickness, there are at most as many segments as frames handled, more than 640 icons crash on the first frame with a blank canvas, frames without a hand run to the end with a blank canvas, and a run in which no fingertip touches the strip leaves the canvas blank |

## Left out

- `app.py` (the launcher page, reading and base64-encoding its background, and the detached `subprocess.Popen`): page markup and process plumbing with no decision logic.
- Camera capture and its failure exit, `cv2.flip`, the MediaPipe detector and its confidence settings, `imshow`, `waitKey` and the quit key, and releasing the camera. These are devices and foreign libraries. A frame is an optional `Detection`, and the end of the camera stream or a quit key is the end of the frame sequence.
- The conversion `int(landmark.x * w)` of normalised landmarks to pixels (lines 103-104). It is floating point, so the fingertip pixel is an input.
- Float rounding inside `sum / len` at lines 127-128. For pixel-sized sums the quotient is exact enough that truncation gives the integer model's result.
- Rasterising `cv2.line`, the highlight rectangle, `draw_landmarks`, and building the palette bar from resized icons. These are library drawing. The canvas is a segment log, and only the zero-width resize failure of the bar is modelled.
- The float-weighted BGR→gray conversion. It is the parameter `gray`. The compositing lemmas take canvas pixels as given and are not linked to the segment log.
- `str.lower()` beyond ASCII letters. Non-ASCII case mappings are not modelled.
- A palette folder holding `blue.png`, `eraser.png`, `green.png` and `red.png` is not proved as an instance. Its parts are covered by `Palette.Sort`, `Palette.ColorOf`, `Gesture.TouchSection` and `Gesture.Thickness`.
- Session.RunFrames: states the canvas growth and colour invariant across frames, not the exact state after each frame. That is `Gesture.Doodle.Step`'s contract.
- Session.RunProgram: beyond the cases it names (too many icons, frames without a hand, no strip touch), it does not give the outcome or the canvas the frames produce. That is carried frame by frame by `Gesture.Doodle.Step`'s contract.
- The failure of `os.listdir` on an existing `colors` entry (a regular file of that name raises NotADirectoryError, an unreadable directory PermissionError), which ends the program with a traceback before the empty-palette check. `listing` is the listing itself, so this failure is not expressible.
