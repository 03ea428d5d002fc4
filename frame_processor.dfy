/** The frame processors: `SimpleProcessor`, which checks that a raw frame
    is packed RGB24 (three bytes per pixel) and inverts every colour byte,
    and `DefaultProcessor`, whose 2D-to-3D conversion returns the frame as
    it is. Both pass the request's timestamp through to the response. */
module Processing {
  import opened Wrappers
  import opened Bytes

  datatype OutputFormat = Format2D | Format3D

  /** `ProcessRequest`; the floating-point processing parameters are not
      modelled (no modelled operation reads them). */
  datatype ProcessRequest = ProcessRequest(rawFrame: seq<byte>, timestamp: int, outputFormat: OutputFormat)

  datatype ProcessResponse = ProcessResponse(data: seq<byte>, timestamp: int)

  /** `RuntimeConfig` without its floating-point default disparity. */
  datatype RuntimeConfig = RuntimeConfig(maxFps: int, outputFormat: OutputFormat, hardwareAccel: bool)

  /** "invalid frame format". */
  datatype ProcessError = InvalidFrameFormat

  /** One colour channel inverted. */
  function Invert(b: byte): byte
  {
    255 - b
  }

  /** The colour-inverted frame: every byte b becomes 255 - b. */
  function Inverted(frame: seq<byte>): (r: seq<byte>)
    ensures |r| == |frame|
  {
    seq(|frame|, i requires 0 <= i < |frame| => Invert(frame[i]))
  }

  /** Each output byte is the complement of its input byte to 255: the two
      add up to 255 exactly, with no wrap-around. */
  lemma InvertedComplements(frame: seq<byte>)
    ensures forall i | 0 <= i < |frame| :: Inverted(frame)[i] as int + frame[i] as int == 255
  {
    forall i | 0 <= i < |frame|
      ensures Inverted(frame)[i] as int + frame[i] as int == 255
    {
      assert Inverted(frame)[i] == Invert(frame[i]);
    }
  }

  /** Inverting twice gives back the frame, and an inverted RGB24 frame is
      again a whole number of pixels, so a response can be fed back as a
      request and comes out as the original frame. */
  lemma InvertedInvolution(frame: seq<byte>)
    ensures Inverted(Inverted(frame)) == frame
    ensures |Inverted(frame)| % 3 == |frame| % 3
  {
    var twice := Inverted(Inverted(frame));
    forall i | 0 <= i < |frame|
      ensures twice[i] == frame[i]
    {
      assert Inverted(frame)[i] == Invert(frame[i]);
    }
  }

  /** No byte is a fixed point of inversion: a non-empty frame always
      changes. */
  lemma InvertedChangesEveryByte(frame: seq<byte>)
    ensures forall i | 0 <= i < |frame| :: Inverted(frame)[i] != frame[i]
    ensures |frame| > 0 ==> Inverted(frame) != frame
  {
    if |frame| > 0 {
      assert Inverted(frame)[0] != frame[0];
    }
  }

  class SimpleProcessor {

    /** `NewSimpleProcessor` (the logger is not modelled). */
    constructor ()
    {
    }

    /** RGB inversion: a frame whose length is not a multiple of 3 is
        rejected; otherwise the response carries a new buffer holding the
        inverted frame and the request's timestamp. */
    method ProcessFrame(req: ProcessRequest) returns (r: Result<ProcessResponse, ProcessError>)
      ensures r.Failure? <==> |req.rawFrame| % 3 != 0
      ensures r.Failure? ==> r.error == InvalidFrameFormat
      ensures r.Success? ==> r.value.data == Inverted(req.rawFrame)
      ensures r.Success? ==> r.value.timestamp == req.timestamp
    {
      var raw := req.rawFrame;
      if |raw| % 3 != 0 {
        return Failure(InvalidFrameFormat);
      }
      ghost var pixels := |raw| / 3;
      var processed := new byte[|raw|];
      var i := 0;
      ghost var done := 0;
      while i < |raw|
        invariant i == 3 * done && done <= pixels && |raw| == 3 * pixels
        invariant forall j | 0 <= j < i :: processed[j] == Inverted(raw)[j]
      {
        processed[i] := Invert(raw[i]);
        processed[i + 1] := Invert(raw[i + 1]);
        processed[i + 2] := Invert(raw[i + 2]);
        i, done := i + 3, done + 1;
      }
      return Success(ProcessResponse(processed[..], req.timestamp));
    }
  }

  /** `convertTo3D`: the conversion returns the frame unchanged. */
  function ConvertTo3D(frame: seq<byte>, cfg: RuntimeConfig): (r: seq<byte>)
  {
    frame
  }

  /** `DefaultProcessor.ProcessFrame`. The configuration manager is an
      interface whose implementation is not part of this model; `cfg` is the
      configuration its `GetCurrentConfig` returns for this call. The call
      never fails, and the response carries the request's own frame and
      timestamp whatever the configuration. */
  function DefaultProcessFrame(cfg: RuntimeConfig, req: ProcessRequest): (r: Result<ProcessResponse, ProcessError>)
    ensures r.Success?
    ensures r.value.data == req.rawFrame && r.value.timestamp == req.timestamp
  {
    Success(ProcessResponse(ConvertTo3D(req.rawFrame, cfg), req.timestamp))
  }

  /** The configuration has no effect on the result. */
  lemma DefaultProcessorIgnoresConfig(cfg: RuntimeConfig, other: RuntimeConfig, req: ProcessRequest)
    ensures DefaultProcessFrame(cfg, req) == DefaultProcessFrame(other, req)
  {
  }
}
