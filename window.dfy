/**
 * The sliding-window step shared by both detectors of data_detection.py:
 * append the incoming point, evict the oldest one on overflow, classify the
 * window when it is exactly full, and drop the newest point again when it is
 * classified anomalous (the suppression policy).
 *
 * The STL decomposition and the z-score of the newest residual are foreign,
 * floating-point computations; they are an oracle here, which either raises
 * or yields the z-score of the last residual of the window it is given.
 */
module Window {

  /** What STL + z-score yields for a full window. */
  datatype Score = Raised | Scored(z: real)

  /** The decomposition and scoring step, a total function of the window contents. */
  type Oracle = seq<real> -> Score

  function Abs(x: real): (r: real)
    ensures r >= 0.0 && (r == x || r == -x)
  {
    if x < 0.0 then -x else x
  }

  /** The result of classifying one window. */
  datatype Verdict =
    | NotFull              // the window length differs from the window size: no attempt
    | Failed               // an exception was caught and logged
    | Normal               // |z| <= threshold
    | Anomalous(z: real)   // |z| > threshold: the newest point was popped

  /** Window after appending `x` and evicting the head on overflow. */
  function Admit(window: seq<real>, x: real, windowSize: int): (w: seq<real>)
    ensures |w| == if |window| + 1 > windowSize then |window| else |window| + 1
    ensures w == (window + [x])[|window| + 1 - |w|..]
    ensures 0 <= windowSize && |window| <= windowSize ==> |w| <= windowSize
  {
    var appended := window + [x];
    if |appended| > windowSize then appended[1..] else appended
  }

  /** The newest point of `window` is flagged: the window is full and non-empty and its |z| exceeds the threshold. */
  predicate Flags(window: seq<real>, windowSize: int, zThreshold: real, oracle: Oracle)
  {
    1 <= |window| == windowSize && oracle(window).Scored? && Abs(oracle(window).z) > zThreshold
  }

  /**
   * Classification of a window: attempted only when the window is exactly full.
   * A raised exception, and the IndexError of popping an empty window (possible
   * only with a window size of 0), are both caught and yield Failed.
   */
  function Classify(window: seq<real>, windowSize: int, zThreshold: real, oracle: Oracle): (v: Verdict)
    ensures v.NotFull? <==> |window| != windowSize
    ensures v.Anomalous? <==> Flags(window, windowSize, zThreshold, oracle)
    ensures v.Anomalous? ==> v.z == oracle(window).z
    ensures v.Failed? ==> |window| == windowSize
  {
    if |window| != windowSize then NotFull
    else match oracle(window)
      case Raised => Failed
      case Scored(z) =>
        if Abs(z) <= zThreshold then Normal
        else if |window| == 0 then Failed
        else Anomalous(z)
  }

  /** The window after one incoming point, and the verdict on that point. */
  datatype Outcome = Outcome(window: seq<real>, verdict: Verdict)

  function Step(window: seq<real>, x: real, windowSize: int, zThreshold: real, oracle: Oracle): (o: Outcome)
    ensures o.verdict == Classify(Admit(window, x, windowSize), windowSize, zThreshold, oracle)
    ensures !o.verdict.Anomalous? ==> o.window == Admit(window, x, windowSize)
    ensures o.verdict.Anomalous? ==>
      |o.window| == windowSize - 1 &&
      o.window == if |window| + 1 > windowSize then window[1..] else window
  {
    var w := Admit(window, x, windowSize);
    var v := Classify(w, windowSize, zThreshold, oracle);
    if v.Anomalous? then
      AdmitThenDropLast(window, x, windowSize);
      Outcome(w[..|w| - 1], v)
    else
      Outcome(w, v)
  }

  /** Removing the newest point of an admitted window undoes the append. */
  lemma AdmitThenDropLast(window: seq<real>, x: real, windowSize: int)
    requires |Admit(window, x, windowSize)| >= 1
    ensures var w := Admit(window, x, windowSize);
      w[..|w| - 1] == if |window| + 1 > windowSize then window[1..] else window
  {
    var w := Admit(window, x, windowSize);
    if |window| + 1 > windowSize {
      assert w == window[1..] + [x];
    } else {
      assert w == window + [x];
    }
  }

  /**
   * After a suppression the window holds `windowSize - 1` points, and the next
   * incoming point refills it without evicting anything.
   */
  lemma SuppressionThenRefill(window: seq<real>, x: real, y: real, windowSize: int, zThreshold: real, oracle: Oracle)
    requires Step(window, x, windowSize, zThreshold, oracle).verdict.Anomalous?
    ensures var w := Step(window, x, windowSize, zThreshold, oracle).window;
      |w| == windowSize - 1 &&
      Admit(w, y, windowSize) == w + [y] &&
      |Admit(w, y, windowSize)| == windowSize
  {
  }

  /** A point whose classification fails leaves the admitted window as it is. */
  lemma FailureKeepsWindow(window: seq<real>, x: real, windowSize: int, zThreshold: real, oracle: Oracle)
    requires |Admit(window, x, windowSize)| == windowSize
    requires oracle(Admit(window, x, windowSize)) == Raised
    ensures Step(window, x, windowSize, zThreshold, oracle) == Outcome(Admit(window, x, windowSize), Failed)
  {
  }
}
