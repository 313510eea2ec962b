/**
 * The live detector `stl_zscore_anomaly_detection_live` of data_detection.py.
 * Its window is a list given as a default argument, created once and shared
 * by every call that does not pass its own; here that list is the field of
 * an object whose method is called once per incoming point.
 */
module LiveDetector {
  import opened Window

  class LiveWindow {
    /** The persistent `data_window` list. */
    var dataWindow: seq<real>

    /** The default list as first created: empty. */
    constructor ()
      ensures dataWindow == []
    {
      dataWindow := [];
    }

    /**
     * Processes one incoming point: answers whether it is an anomaly and
     * leaves the window as the next call will find it. The window size and
     * threshold default to 200 and 3, as in the source.
     */
    method StlZscoreAnomalyDetectionLive(data: real, windowSize: int := 200, zThreshold: real := 3.0, oracle: Oracle)
      returns (anomaly: bool)
      modifies this
      ensures var admitted := Admit(old(dataWindow), data, windowSize);
        anomaly <==>
          1 <= |admitted| == windowSize && oracle(admitted).Scored? && Abs(oracle(admitted).z) > zThreshold
      ensures var admitted := Admit(old(dataWindow), data, windowSize);
        dataWindow == if anomaly then admitted[..|admitted| - 1] else admitted
      ensures anomaly ==> |dataWindow| == windowSize - 1
      ensures var o := Step(old(dataWindow), data, windowSize, zThreshold, oracle);
        anomaly == o.verdict.Anomalous? && dataWindow == o.window
    {
      dataWindow := dataWindow + [data];
      if |dataWindow| > windowSize {
        dataWindow := dataWindow[1..];
      }
      anomaly := false;
      if |dataWindow| == windowSize {
        match oracle(dataWindow)
        case Raised =>
          // the exception is logged; the answer is False
        case Scored(z) =>
          if Abs(z) > zThreshold {
            if |dataWindow| > 0 {
              dataWindow := dataWindow[..|dataWindow| - 1];
              anomaly := true;
            }
            // otherwise pop() on the empty window raises IndexError, which is caught
          }
      }
    }
  }
}
