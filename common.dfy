/** Values and settings shared by every part of the air-drawing program. */
module Common {

  datatype Option<+T> = None | Some(value: T)

  /** A colour or pixel as OpenCV stores it: blue, green, red channels, one byte each. */
  datatype Bgr = Bgr(b: bv8, g: bv8, r: bv8)

  const Black := Bgr(0, 0, 0)
  const Red := Bgr(0, 0, 255)
  const Green := Bgr(0, 255, 0)
  const Blue := Bgr(255, 0, 0)

  // The settings block at the top of the program.
  const FrameWidth: int := 640
  const FrameHeight: int := 480
  const PaletteHeight: int := 100
  const DrawThickness: int := 5
  const EraserThickness: int := 50
  const Smoothing: nat := 5
}
