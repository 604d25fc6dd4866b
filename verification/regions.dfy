/** Damage rectangles and the size of the 32-bit pixel blocks fetched for them. */
module Regions {
  import opened Bytes

  /** A rectangle as the writers receive it: four C `int`s. */
  datatype Rect = Rect(x: i32, y: i32, width: i32, height: i32)

  /** Bytes per pixel of the 32-bit ZPixmap images the daemon captures. */
  const BytesPerPixel: nat := 4

  /** Number of bytes of a 32-bit pixel block covering `width` by `height` pixels. */
  function PixelBytes(width: nat, height: nat): nat
  {
    BytesPerPixel * width * height
  }
}
