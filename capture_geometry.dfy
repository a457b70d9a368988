/**
  The aspect-fit rectangle of `captureFrame`: the centred sub-rectangle of the
  video frame, in the 1200x630 proportion of an Open Graph card, that is drawn
  scaled onto the 1200x630 canvas. Arithmetic is over reals.
 */
module CaptureGeometry {

  /** Output raster size for Open Graph and WhatsApp previews. */
  const TargetWidth: nat := 1200
  const TargetHeight: nat := 630

  /** A rectangle in source-pixel coordinates. */
  datatype Rect = Rect(x: real, y: real, width: real, height: real)

  /** The rectangle has the proportion TargetWidth : TargetHeight. */
  predicate HasTargetAspect(r: Rect)
  {
    r.width * TargetHeight as real == r.height * TargetWidth as real
  }

  /** The rectangle lies within the frame [0, w] x [0, h]. */
  predicate Inside(r: Rect, w: real, h: real)
  {
    0.0 <= r.x && 0.0 <= r.y && 0.0 <= r.width && 0.0 <= r.height &&
    r.x + r.width <= w && r.y + r.height <= h
  }

  /** The margins left and right, and above and below, are equal. */
  predicate Centred(r: Rect, w: real, h: real)
  {
    r.x + r.width + r.x == w && r.y + r.height + r.y == h
  }

  /**
    The source rectangle drawn for a frame of videoWidth x videoHeight pixels:
    scale = min(videoWidth / 1200, videoHeight / 630), a 1200*scale x 630*scale
    rectangle, offset so that it is centred.
   */
  function Fit(videoWidth: nat, videoHeight: nat): (r: Rect)
    ensures HasTargetAspect(r)
    ensures Inside(r, videoWidth as real, videoHeight as real)
    ensures Centred(r, videoWidth as real, videoHeight as real)
    ensures r.width == videoWidth as real || r.height == videoHeight as real
    ensures (r.width == 0.0 && r.height == 0.0) <==> (videoWidth == 0 || videoHeight == 0)
  {
    var scaleX := videoWidth as real / TargetWidth as real;
    var scaleY := videoHeight as real / TargetHeight as real;
    var scale := if scaleX <= scaleY then scaleX else scaleY;
    var drawWidth := TargetWidth as real * scale;
    var drawHeight := TargetHeight as real * scale;
    Rect((videoWidth as real - drawWidth) / 2.0, (videoHeight as real - drawHeight) / 2.0,
         drawWidth, drawHeight)
  }

  /**
    Fit is the largest rectangle of the target proportion that fits in the
    frame: crop-to-fill, nothing is letterboxed.
   */
  lemma FitIsLargest(videoWidth: nat, videoHeight: nat, c: Rect)
    requires HasTargetAspect(c) && Inside(c, videoWidth as real, videoHeight as real)
    ensures c.width <= Fit(videoWidth, videoHeight).width
    ensures c.height <= Fit(videoWidth, videoHeight).height
  {
  }

  /** A 2400x1260 frame already has the target proportion: it is used whole. */
  lemma FitExactProportion()
    ensures Fit(2400, 1260) == Rect(0.0, 0.0, 2400.0, 1260.0)
  {
  }

  /** A 1200x1000 frame: full width, 630 rows, 185 rows cropped above and below. */
  lemma FitTallFrame()
    ensures Fit(1200, 1000) == Rect(0.0, 185.0, 1200.0, 630.0)
  {
  }

  /** A 1920x1080 (16:9) frame: full width, 1008 rows, 36 rows cropped above and below. */
  lemma FitWideScreen()
    ensures Fit(1920, 1080) == Rect(0.0, 36.0, 1920.0, 1008.0)
  {
  }
}
