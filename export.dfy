/**
 * `exportGIF`: with no frames it stops before any encoder exists; otherwise it
 * configures the encoder and submits one rasterized frame per record, in list
 * order, each with the record's duration as its delay. The encoder (gif.js, its
 * workers, its `progress`/`finished` events and the download) is represented only
 * by its configuration and the list of submissions it receives.
 */
module Export {
  import opened Geometry
  import opened Frames

  /** One `gif.addFrame(tctx, {copy: true, delay})`: which frame, its delay, and how it was drawn. */
  datatype Submission = Submission(frameId: Id, delay: int, width: real, height: real, placement: Placement)

  /** The outcome of one export request. */
  datatype ExportResult =
    | NothingToExport   // `alert('No frames to export')`, no encoder constructed
    | Encoded(workers: nat, quality: nat, repeat: int, width: real, height: real, submitted: seq<Submission>)

  /** The encoder options `new GIF({...})` receives. */
  const Workers: nat := 2
  const Quality: nat := 10
  const RepeatForever: int := 0

  /** What rasterizing one frame on an `outW` by `outH` canvas submits. */
  predicate Rasterized(s: Submission, f: Frame, outW: real, outH: real)
    requires outW >= 0.0 && outH >= 0.0
  {
    && s.frameId == f.id && s.delay == f.duration
    && s.width == outW && s.height == outH
    && FitsAndCentres(s.placement, outW, outH, Decoded(f).width, Decoded(f).height)
  }

  /**
   * The export loop. `outW` and `outH` are the output size (the preview size times
   * the chosen scale, already rounded). Besides the result it returns the frame
   * list with every bitmap cached, as the loop leaves it.
   */
  method ExportFrames(frames: seq<Frame>, outW: real, outH: real) returns (r: ExportResult, cached: seq<Frame>)
    requires outW >= 0.0 && outH >= 0.0
    ensures frames == [] <==> r.NothingToExport?
    ensures r.Encoded? ==> r.workers == Workers && r.quality == Quality && r.repeat == RepeatForever
    ensures r.Encoded? ==> r.width == outW && r.height == outH && |r.submitted| == |frames|
    ensures r.Encoded? ==> forall i :: 0 <= i < |frames| ==> Rasterized(r.submitted[i], frames[i], outW, outH)
    ensures |cached| == |frames|
    ensures forall i :: 0 <= i < |frames| ==> cached[i] == Cache(frames[i])
  {
    cached := frames;
    if |frames| == 0 {
      return NothingToExport, cached;
    }
    var submitted: seq<Submission> := [];
    var i := 0;
    while i < |frames|
      invariant 0 <= i <= |frames|
      invariant |cached| == |frames| && |submitted| == i
      invariant forall j :: 0 <= j < i ==> cached[j] == Cache(frames[j])
      invariant forall j :: i <= j < |frames| ==> cached[j] == frames[j]
      invariant forall j :: 0 <= j < i ==> Rasterized(submitted[j], frames[j], outW, outH)
    {
      var f := Cache(cached[i]);
      cached := cached[i := f];
      var b := f.bitmap.value;
      var placement := Fit(outW, outH, b.width, b.height);
      submitted := submitted + [Submission(f.id, f.duration, outW, outH, placement)];
      i := i + 1;
    }
    r := Encoded(Workers, Quality, RepeatForever, outW, outH, submitted);
  }
}
