/**
 * The preview surface: `drawFrameOnCanvas` (fit-and-centre one frame on the
 * 600 by 1100 preview canvas and report "position / total: name — duration ms")
 * and `clearCanvas` ("No frames").
 */
module Preview {
  import opened Geometry
  import opened Frames

  /** The preview canvas size `initCanvas` sets. */
  const CanvasWidth: real := 600.0
  const CanvasHeight: real := 1100.0

  /** What the preview canvas and the status line show. */
  datatype View =
    | Cleared
    | Drawn(placement: Placement, position: int, total: nat, name: string, duration: int)

  /** `drawFrameOnCanvas(frames[k])`: the view it paints (the bitmap cache is updated by the caller). */
  function DrawFrame(frames: seq<Frame>, k: nat): (v: View)
    requires k < |frames|
    ensures v.Drawn? && v.total == |frames| && 1 <= v.position <= v.total
    ensures v.position == k + 1 && v.name == frames[k].name && v.duration == frames[k].duration
    ensures FitsAndCentres(v.placement, CanvasWidth, CanvasHeight, Decoded(frames[k]).width, Decoded(frames[k]).height)
  {
    var b := Decoded(frames[k]);
    Drawn(Fit(CanvasWidth, CanvasHeight, b.width, b.height), k + 1, |frames|, frames[k].name, frames[k].duration)
  }

  /** The cache update that comes with drawing `frames[k]`. */
  function CacheAt(frames: seq<Frame>, k: nat): (r: seq<Frame>)
    requires k < |frames|
    ensures |r| == |frames| && Ids(r) == Ids(frames)
    ensures r[k].bitmap.Some? && Decoded(r[k]) == Decoded(frames[k])
    ensures forall i :: 0 <= i < |frames| && i != k ==> r[i] == frames[i]
    ensures forall i :: 0 <= i < |frames| ==> r[i].(bitmap := frames[i].bitmap) == frames[i]
  {
    frames[k := Cache(frames[k])]
  }
}
