/** Pixel geometry: points, OpenCV rectangles, edge boxes and image sizes. */
module Geometry {
  import opened Numbers

  datatype Point = Point(x: int, y: int)

  /** A rectangle as OpenCV's boundingRect reports it: top-left corner, width and height. */
  datatype Rect = Rect(x: int, y: int, w: nat, h: nat)

  /** A box given by its edges: a merged fold line or a PIL crop box (left, upper, right, lower). */
  datatype Box = Box(left: int, top: int, right: int, bottom: int)

  /** The pixel size of an image; the pixels themselves are not modelled. */
  datatype Size = Size(width: nat, height: nat)

  /** A Python slice bound normalised against a sequence of length n. */
  function ClampIndex(n: nat, i: int): (j: nat)
    ensures j <= n
    ensures 0 <= i <= n ==> j == i
  {
    if i < 0 then (if i + n < 0 then 0 else i + n) else if i > n then n else i
  }

  /** Number of elements in the Python (and numpy) slice a[start:stop] of a length-n sequence. */
  function SliceLength(n: nat, start: int, stop: int): (len: nat)
    ensures len <= n
    ensures 0 <= start <= stop <= n ==> len == stop - start
  {
    var lo := ClampIndex(n, start);
    var hi := ClampIndex(n, stop);
    if lo <= hi then hi - lo else 0
  }

  /** Size of image_np[r.y:r.y + r.h, r.x:r.x + r.w] for an image of the given size. */
  function CropSize(image: Size, r: Rect): (s: Size)
    ensures s.width <= image.width && s.height <= image.height
    ensures 0 <= r.x && r.x + r.w <= image.width ==> s.width == r.w
    ensures 0 <= r.y && r.y + r.h <= image.height ==> s.height == r.h
  {
    Size(SliceLength(image.width, r.x, r.x + r.w), SliceLength(image.height, r.y, r.y + r.h))
  }
}
