/** The mask rus_bot.py hands to the inpainting service: a white band of
    `WATERMARK_WIDTH` by `WATERMARK_HEIGHT` pixels, centred horizontally at
    the bottom edge of the photo, where BeForward stamps its logo. */
module Watermark {

  /** config.py WATERMARK_WIDTH and WATERMARK_HEIGHT. */
  const WatermarkWidth: int := 300
  const WatermarkHeight: int := 30

  /** The corners passed to `ImageDraw.rectangle([x1, y1, x2, y2])`. */
  datatype Rect = Rect(x1: int, y1: int, x2: int, y2: int)

  /** `_create_watermark_mask`: Python's `//` floors, as Dafny's `/` does for
      a positive divisor, so the band is centred with any odd pixel left on
      the right, also when the photo is narrower than the band. */
  function MaskRect(width: int, height: int): (r: Rect)
    ensures r.x2 - r.x1 == WatermarkWidth && r.y2 - r.y1 == WatermarkHeight
    ensures r.y2 == height
    ensures 0 <= (width - r.x2) - r.x1 <= 1
    ensures width >= WatermarkWidth ==> 0 <= r.x1 && r.x2 <= width
    ensures height >= WatermarkHeight ==> 0 <= r.y1
  {
    var x1 := (width - WatermarkWidth) / 2;
    Rect(x1, height - WatermarkHeight, x1 + WatermarkWidth, height)
  }

  /** Pixel `(x, y)` of a `width` by `height` mask is painted: PIL fills the
      rectangle including both corners, clipped to the image. */
  predicate Painted(r: Rect, width: int, height: int, x: int, y: int) {
    0 <= x < width && 0 <= y < height && r.x1 <= x <= r.x2 && r.y1 <= y <= r.y2
  }

  /** For a photo at least as large as the band, the painted pixels are
      exactly the bottom `WatermarkHeight` rows between `x1` and `x2`
      inclusive: the band is one pixel wider than `WatermarkWidth` whenever
      the photo leaves room for it, and every painted row lies in the photo. */
  lemma MaskPaintsBottomBand(width: int, height: int, x: int, y: int)
    requires width >= WatermarkWidth && height >= WatermarkHeight
    ensures var r := MaskRect(width, height);
            Painted(r, width, height, x, y) <==>
              (height - WatermarkHeight <= y < height && r.x1 <= x <= r.x2 && x < width)
    ensures var r := MaskRect(width, height);
            width > WatermarkWidth ==> r.x2 < width
  {
  }
}
