/**
  The motion detector the service drives. Its image differencing is not part
  of this model: the object only records which calls it received and whether
  it holds a baseline frame, and what `detect` reports is given to it.
*/
module Motion {
  import opened Detector

  datatype DetectorCall = ResetCall | SeedCall | DetectCall

  class MotionDetector {
    var hasBaseline: bool
    var calls: seq<DetectorCall>

    constructor()
      ensures !hasBaseline && calls == []
    {
      hasBaseline := false;
      calls := [];
    }

    /** Drops the baseline, so the next comparison starts afresh. */
    method Reset()
      modifies this
      ensures !hasBaseline && calls == old(calls) + [ResetCall]
    {
      hasBaseline := false;
      calls := calls + [ResetCall];
    }

    /** Takes the current frame as the new baseline. */
    method Seed()
      modifies this
      ensures hasBaseline && calls == old(calls) + [SeedCall]
    {
      hasBaseline := true;
      calls := calls + [SeedCall];
    }

    /**
      Compares the frame with the baseline and makes the frame the new
      baseline; `found` is what the comparison reports. Without a baseline the
      frame only becomes the baseline and nothing is reported.
    */
    method Detect(found: seq<Detection>) returns (detections: seq<Detection>)
      modifies this
      ensures detections == (if old(hasBaseline) then found else [])
      ensures hasBaseline && calls == old(calls) + [DetectCall]
    {
      calls := calls + [DetectCall];
      detections := if hasBaseline then found else [];
      hasBaseline := true;
    }
  }
}
