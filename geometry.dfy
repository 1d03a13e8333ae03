/**
 * Fit-and-centre placement of a decoded image on a drawing surface, as the preview
 * and every exported frame compute it: `ratio = min(W / w, H / h)`, drawn size
 * `(w * ratio, h * ratio)`, offsets `((W - dw) / 2, (H - dh) / 2)`. Exact reals
 * stand for the source's floating-point numbers.
 */
module Geometry {

  /** Image sizes: a decoded bitmap is never empty. */
  type Positive = r: real | r > 0.0 witness 1.0

  /** Where `drawImage` puts the image: top-left corner and drawn size. */
  datatype Placement = Placement(dx: real, dy: real, dw: real, dh: real)

  /**
   * The placement fits inside a `surfaceW` by `surfaceH` surface, fills it along
   * at least one axis, keeps the image's aspect ratio and is centred.
   */
  predicate FitsAndCentres(p: Placement, surfaceW: real, surfaceH: real, w: Positive, h: Positive)
  {
    && 0.0 <= p.dw <= surfaceW && 0.0 <= p.dh <= surfaceH
    && (p.dw == surfaceW || p.dh == surfaceH)
    && p.dw * h == p.dh * w
    && p.dx >= 0.0 && p.dy >= 0.0
    && p.dx + p.dw + p.dx == surfaceW && p.dy + p.dh + p.dy == surfaceH
  }

  function MinReal(a: real, b: real): real
  {
    if a <= b then a else b
  }

  /** The scale factor `Math.min(W / w, H / h)`. */
  function FitRatio(surfaceW: real, surfaceH: real, w: Positive, h: Positive): (ratio: real)
    requires surfaceW >= 0.0 && surfaceH >= 0.0
    ensures ratio >= 0.0
    ensures w * ratio <= surfaceW && h * ratio <= surfaceH
    ensures w * ratio == surfaceW || h * ratio == surfaceH
  {
    MinReal(surfaceW / w, surfaceH / h)
  }

  /** The placement `drawFrameOnCanvas` and `exportGIF` compute. */
  function Fit(surfaceW: real, surfaceH: real, w: Positive, h: Positive): (p: Placement)
    requires surfaceW >= 0.0 && surfaceH >= 0.0
    ensures FitsAndCentres(p, surfaceW, surfaceH, w, h)
  {
    var ratio := FitRatio(surfaceW, surfaceH, w, h);
    var dw := w * ratio;
    var dh := h * ratio;
    assert dw * h == dh * w by {
      assert dw * h == ratio * (w * h) && dh * w == ratio * (w * h);
    }
    Placement((surfaceW - dw) / 2.0, (surfaceH - dh) / 2.0, dw, dh)
  }

  /**
   * No uniform scale larger than the one chosen still fits: the drawn image is the
   * largest undistorted copy that the surface holds.
   */
  lemma FitIsLargest(surfaceW: real, surfaceH: real, w: Positive, h: Positive, scale: real)
    requires surfaceW >= 0.0 && surfaceH >= 0.0
    requires scale >= 0.0 && w * scale <= surfaceW && h * scale <= surfaceH
    ensures w * scale <= Fit(surfaceW, surfaceH, w, h).dw
    ensures h * scale <= Fit(surfaceW, surfaceH, w, h).dh
  {
    var ratio := FitRatio(surfaceW, surfaceH, w, h);
    MulCancel(w, scale, ratio);
    MulCancel(h, scale, ratio);
    if w * ratio == surfaceW {
      assert w * scale <= w * ratio;
    } else {
      assert h * scale <= h * ratio;
    }
    MulMonotone(w, scale, ratio);
    MulMonotone(h, scale, ratio);
  }

  lemma MulCancel(k: real, a: real, b: real)
    requires k > 0.0
    ensures k * a <= k * b ==> a <= b
  {
    if a > b {
      assert k * a - k * b == k * (a - b);
      assert k * (a - b) > 0.0;
    }
  }

  lemma MulMonotone(k: real, a: real, b: real)
    requires k > 0.0
    ensures a <= b ==> k * a <= k * b
  {
    assert k * b - k * a == k * (b - a);
    if a <= b {
      assert k * (b - a) >= 0.0;
    }
  }
}
