/**
 * The batch detector `stl_zscore_anomaly_detection` of data_detection.py:
 * one pass over a finite stream that keeps a sliding window, records the
 * index and z-score of every point it flags, and counts the flags.
 *
 * `Analyze` is the specification: the state after each prefix of the stream.
 * The method `StlZscoreAnomalyDetection` is the loop of the source, proved
 * to compute it; the lemmas state what the source promises about that state.
 */
module Detector {
  import opened Window

  function Min(a: int, b: int): (m: int)
  {
    if a < b then a else b
  }

  /** The loop state of the batch detector: its window, indices, scores and counter. */
  datatype Run = Run(window: seq<real>, indices: seq<int>, scores: seq<real>, count: int)

  /**
   * One iteration of the loop: point `x` arrives with index `i`. It is
   * admitted to the window; when the window is then full and its newest
   * point scores above the threshold, the point is popped again and its
   * index, its score and the counter are recorded. An iteration is one
   * application of the shared step `Step` to the window.
   */
  function Record(prev: Run, i: int, x: real, windowSize: int, zThreshold: real, oracle: Oracle): (r: Run)
    ensures var o := Step(prev.window, x, windowSize, zThreshold, oracle);
      && r.window == o.window
      && r.indices == prev.indices + (if o.verdict.Anomalous? then [i] else [])
      && r.scores == prev.scores + (if o.verdict.Anomalous? then [o.verdict.z] else [])
      && r.count == prev.count + (if o.verdict.Anomalous? then 1 else 0)
  {
    var w := Admit(prev.window, x, windowSize);
    if Flags(w, windowSize, zThreshold, oracle) then
      Run(w[..|w| - 1], prev.indices + [i], prev.scores + [oracle(w).z], prev.count + 1)
    else
      Run(w, prev.indices, prev.scores, prev.count)
  }

  /** The state after the whole of `stream` has been processed, starting from empty. */
  function Analyze(stream: seq<real>, windowSize: int, zThreshold: real, oracle: Oracle): (r: Run)
    decreases |stream|
  {
    if stream == [] then Run([], [], [], 0)
    else
      var i := |stream| - 1;
      Record(Analyze(stream[..i], windowSize, zThreshold, oracle), i, stream[i], windowSize, zThreshold, oracle)
  }

  /** The window on which the point with index `i` is classified: the previous window with it admitted. */
  function Candidate(stream: seq<real>, i: int, windowSize: int, zThreshold: real, oracle: Oracle): (w: seq<real>)
    requires 0 <= i < |stream|
  {
    Admit(Analyze(stream[..i], windowSize, zThreshold, oracle).window, stream[i], windowSize)
  }

  /** The points of `stream` whose index is not in `flagged`, in arrival order. */
  function Unflagged(stream: seq<real>, flagged: seq<int>): (kept: seq<real>)
    decreases |stream|
  {
    if stream == [] then []
    else
      var i := |stream| - 1;
      Unflagged(stream[..i], flagged) + (if i in flagged then [] else [stream[i]])
  }

  predicate IsSuffix(w: seq<real>, s: seq<real>)
  {
    |w| <= |s| && w == s[|s| - |w|..]
  }

  lemma SuffixTransitive(a: seq<real>, b: seq<real>, c: seq<real>)
    requires IsSuffix(a, b) && IsSuffix(b, c)
    ensures IsSuffix(a, c)
  {
    assert c[|c| - |b|..][|b| - |a|..] == c[|c| - |a|..];
  }

  lemma SuffixExtend(w: seq<real>, s: seq<real>, x: real)
    requires IsSuffix(w, s)
    ensures IsSuffix(w + [x], s + [x])
  {
    assert (s + [x])[|s| + 1 - (|w| + 1)..] == s[|s| - |w|..] + [x];
  }

  lemma {:induction false} UnflaggedLength(stream: seq<real>, flagged: seq<int>)
    ensures |Unflagged(stream, flagged)| <= |stream|
    decreases |stream|
  {
    if stream != [] {
      UnflaggedLength(stream[..|stream| - 1], flagged);
    }
  }

  /** Flagging an index beyond the stream does not change which of its points are unflagged. */
  lemma {:induction false} UnflaggedIgnoresLater(stream: seq<real>, flagged: seq<int>, j: int)
    requires j >= |stream|
    ensures Unflagged(stream, flagged + [j]) == Unflagged(stream, flagged)
    decreases |stream|
  {
    if stream != [] {
      var i := |stream| - 1;
      UnflaggedIgnoresLater(stream[..i], flagged, j);
      assert i in flagged + [j] <==> i in flagged;
    }
  }

  /** On return, `anomaly_count == len(anomaly_indices) == len(anomaly_scores)`. */
  lemma {:induction false} CountsAgree(stream: seq<real>, windowSize: int, zThreshold: real, oracle: Oracle)
    ensures var r := Analyze(stream, windowSize, zThreshold, oracle);
      r.count == |r.indices| == |r.scores|
    decreases |stream|
  {
    if stream != [] {
      CountsAgree(stream[..|stream| - 1], windowSize, zThreshold, oracle);
    }
  }

  /** Every element of `xs` lies in `[lo, hi)` and `xs` is strictly increasing. */
  predicate IncreasingWithin(xs: seq<int>, lo: int, hi: int)
  {
    && (forall k :: 0 <= k < |xs| ==> lo <= xs[k] < hi)
    && (forall k, l :: 0 <= k < l < |xs| ==> xs[k] < xs[l])
  }

  lemma IncreasingAppend(xs: seq<int>, lo: int, hi: int, i: int, hi': int)
    requires IncreasingWithin(xs, lo, hi) && lo <= hi <= i < hi'
    ensures IncreasingWithin(xs + [i], lo, hi')
  {
  }

  /** Reported indices are strictly increasing and lie inside the stream. */
  lemma {:induction false} IndicesIncreasing(stream: seq<real>, windowSize: int, zThreshold: real, oracle: Oracle)
    ensures IncreasingWithin(Analyze(stream, windowSize, zThreshold, oracle).indices, 0, |stream|)
    decreases |stream|
  {
    if stream != [] {
      var n := |stream| - 1;
      var prev := Analyze(stream[..n], windowSize, zThreshold, oracle);
      IndicesIncreasing(stream[..n], windowSize, zThreshold, oracle);
      if Step(prev.window, stream[n], windowSize, zThreshold, oracle).verdict.Anomalous? {
        IncreasingAppend(prev.indices, 0, n, n, n + 1);
      }
    }
  }

  /**
   * The window is always, in arrival order, a suffix of the stream so far
   * with every flagged point removed.
   */
  lemma {:induction false} WindowIsSuffixOfUnflagged(stream: seq<real>, windowSize: int, zThreshold: real, oracle: Oracle)
    ensures var r := Analyze(stream, windowSize, zThreshold, oracle);
      IsSuffix(r.window, Unflagged(stream, r.indices))
    decreases |stream|
  {
    if stream != [] {
      var p := stream[..|stream| - 1];
      WindowIsSuffixOfUnflagged(p, windowSize, zThreshold, oracle);
      IndicesIncreasing(p, windowSize, zThreshold, oracle);
      RecordKeepsSuffix(stream, Analyze(p, windowSize, zThreshold, oracle), windowSize, zThreshold, oracle);
    }
  }

  /** One iteration keeps the window a suffix of the unflagged points. */
  lemma RecordKeepsSuffix(stream: seq<real>, prev: Run, windowSize: int, zThreshold: real, oracle: Oracle)
    requires stream != [] && |stream| - 1 !in prev.indices
    requires IsSuffix(prev.window, Unflagged(stream[..|stream| - 1], prev.indices))
    ensures var r := Record(prev, |stream| - 1, stream[|stream| - 1], windowSize, zThreshold, oracle);
      IsSuffix(r.window, Unflagged(stream, r.indices))
  {
    var i := |stream| - 1;
    var p, x := stream[..i], stream[i];
    var kept := Unflagged(p, prev.indices);
    var o := Step(prev.window, x, windowSize, zThreshold, oracle);
    var r := Record(prev, i, x, windowSize, zThreshold, oracle);
    if o.verdict.Anomalous? {
      assert r.window == o.window && r.indices == prev.indices + [i];
      UnflaggedIgnoresLater(p, prev.indices, i);
      assert Unflagged(stream, r.indices) == kept;
      assert IsSuffix(o.window, prev.window);
      SuffixTransitive(o.window, prev.window, kept);
    } else {
      assert r.window == o.window == Admit(prev.window, x, windowSize) && r.indices == prev.indices;
      assert Unflagged(stream, r.indices) == kept + [x];
      AdmitKeepsSuffix(prev.window, kept, x, windowSize);
    }
  }

  /** Admitting `x` to a suffix of `kept` gives a suffix of `kept + [x]`. */
  lemma AdmitKeepsSuffix(window: seq<real>, kept: seq<real>, x: real, windowSize: int)
    requires IsSuffix(window, kept)
    ensures IsSuffix(Admit(window, x, windowSize), kept + [x])
  {
    assert IsSuffix(Admit(window, x, windowSize), window + [x]);
    SuffixExtend(window, kept, x);
    SuffixTransitive(Admit(window, x, windowSize), window + [x], kept + [x]);
  }

  /** After each incoming point the window holds at most `window_size` values (none if it is negative). */
  lemma {:induction false} WindowWithinCapacity(stream: seq<real>, windowSize: int, zThreshold: real, oracle: Oracle)
    ensures |Analyze(stream, windowSize, zThreshold, oracle).window| <= if windowSize < 0 then 0 else windowSize
    decreases |stream|
  {
    if stream != [] {
      WindowWithinCapacity(stream[..|stream| - 1], windowSize, zThreshold, oracle);
    }
  }

  /**
   * The window holds the last `window_size` unflagged points (all of them while
   * fewer have arrived), except right after a suppression, when it holds
   * exactly `window_size - 1`.
   */
  lemma {:induction false} WindowFillLevel(stream: seq<real>, windowSize: int, zThreshold: real, oracle: Oracle)
    requires windowSize >= 1
    ensures var r := Analyze(stream, windowSize, zThreshold, oracle);
      |stream| - 1 in r.indices ==> |r.window| == windowSize - 1
    ensures var r := Analyze(stream, windowSize, zThreshold, oracle);
      |stream| - 1 !in r.indices ==> |r.window| == Min(|Unflagged(stream, r.indices)|, windowSize)
    decreases |stream|
  {
    if stream != [] {
      var i := |stream| - 1;
      var p, x := stream[..i], stream[i];
      var prev := Analyze(p, windowSize, zThreshold, oracle);
      var o := Step(prev.window, x, windowSize, zThreshold, oracle);
      WindowFillLevel(p, windowSize, zThreshold, oracle);
      WindowIsSuffixOfUnflagged(p, windowSize, zThreshold, oracle);
      WindowWithinCapacity(p, windowSize, zThreshold, oracle);
      IndicesIncreasing(p, windowSize, zThreshold, oracle);
      assert i !in prev.indices;
      if !o.verdict.Anomalous? {
        assert Unflagged(stream, prev.indices) == Unflagged(p, prev.indices) + [x];
      }
    }
  }

  /**
   * Classification needs a full window, so no index below `window_size - 1`
   * is ever reported; reported indices are strictly increasing and inside the stream.
   */
  lemma {:induction false} ReportedIndicesInRange(stream: seq<real>, windowSize: int, zThreshold: real, oracle: Oracle)
    ensures IncreasingWithin(Analyze(stream, windowSize, zThreshold, oracle).indices, windowSize - 1, |stream|)
    decreases |stream|
  {
    if stream != [] {
      var n := |stream| - 1;
      var p, x := stream[..n], stream[n];
      var prev := Analyze(p, windowSize, zThreshold, oracle);
      ReportedIndicesInRange(p, windowSize, zThreshold, oracle);
      if Step(prev.window, x, windowSize, zThreshold, oracle).verdict.Anomalous? {
        WindowIsSuffixOfUnflagged(p, windowSize, zThreshold, oracle);
        UnflaggedLength(p, prev.indices);
        assert |Admit(prev.window, x, windowSize)| == windowSize;
        IncreasingAppend(prev.indices, windowSize - 1, n, n, n + 1);
      }
    }
  }

  /** With a window size of 0 or less nothing is ever reported. */
  lemma {:induction false} NothingReportedWithoutCapacity(stream: seq<real>, windowSize: int, zThreshold: real, oracle: Oracle)
    requires windowSize <= 0
    ensures Analyze(stream, windowSize, zThreshold, oracle).indices == []
    ensures Analyze(stream, windowSize, zThreshold, oracle).window == []
    decreases |stream|
  {
    if stream != [] {
      NothingReportedWithoutCapacity(stream[..|stream| - 1], windowSize, zThreshold, oracle);
    }
  }

  /**
   * A point is reported exactly when its window is full and the oracle's
   * |z| for it is strictly greater than the threshold.
   */
  lemma {:induction false} FlaggedIff(stream: seq<real>, i: int, windowSize: int, zThreshold: real, oracle: Oracle)
    requires 0 <= i < |stream|
    ensures var w := Candidate(stream, i, windowSize, zThreshold, oracle);
      i in Analyze(stream, windowSize, zThreshold, oracle).indices <==>
      (1 <= |w| == windowSize && oracle(w).Scored? && Abs(oracle(w).z) > zThreshold)
    decreases |stream|
  {
    var n := |stream| - 1;
    var p, x := stream[..n], stream[n];
    var prev := Analyze(p, windowSize, zThreshold, oracle);
    var r := Analyze(stream, windowSize, zThreshold, oracle);
    var flagged := Step(prev.window, x, windowSize, zThreshold, oracle).verdict.Anomalous?;
    assert r.indices == prev.indices + (if flagged then [n] else []);
    IndicesIncreasing(p, windowSize, zThreshold, oracle);
    if i < n {
      FlaggedIff(p, i, windowSize, zThreshold, oracle);
      CandidateOfPrefix(stream, n, i, windowSize, zThreshold, oracle);
      assert i in r.indices <==> i in prev.indices;
    } else {
      assert n !in prev.indices;
      assert Candidate(stream, n, windowSize, zThreshold, oracle) == Admit(prev.window, x, windowSize);
      assert n in r.indices <==> flagged;
    }
  }

  /** The window a point is classified on does not depend on later points. */
  lemma CandidateOfPrefix(stream: seq<real>, m: int, j: int, windowSize: int, zThreshold: real, oracle: Oracle)
    requires 0 <= j < m <= |stream|
    ensures Candidate(stream[..m], j, windowSize, zThreshold, oracle) == Candidate(stream, j, windowSize, zThreshold, oracle)
  {
    assert stream[..m][..j] == stream[..j];
  }

  /** Each recorded score is the oracle's z for its point's window, and its magnitude exceeds the threshold. */
  ghost predicate ScoresMatch(stream: seq<real>, r: Run, windowSize: int, zThreshold: real, oracle: Oracle)
  {
    |r.scores| == |r.indices| &&
    forall k :: 0 <= k < |r.indices| ==>
      0 <= r.indices[k] < |stream| &&
      oracle(Candidate(stream, r.indices[k], windowSize, zThreshold, oracle)) == Scored(r.scores[k]) &&
      Abs(r.scores[k]) > zThreshold
  }

  /** The score recorded with each reported index is the oracle's z for that point's window. */
  lemma {:induction false} ScoresAreZ(stream: seq<real>, windowSize: int, zThreshold: real, oracle: Oracle)
    ensures ScoresMatch(stream, Analyze(stream, windowSize, zThreshold, oracle), windowSize, zThreshold, oracle)
    decreases |stream|
  {
    if stream != [] {
      var n := |stream| - 1;
      var p, x := stream[..n], stream[n];
      var prev := Analyze(p, windowSize, zThreshold, oracle);
      var r := Analyze(stream, windowSize, zThreshold, oracle);
      var o := Step(prev.window, x, windowSize, zThreshold, oracle);
      ScoresAreZ(p, windowSize, zThreshold, oracle);
      forall k | 0 <= k < |prev.indices|
        ensures 0 <= prev.indices[k] < |stream|
        ensures Candidate(p, prev.indices[k], windowSize, zThreshold, oracle)
          == Candidate(stream, prev.indices[k], windowSize, zThreshold, oracle)
      {
        CandidateOfPrefix(stream, n, prev.indices[k], windowSize, zThreshold, oracle);
      }
      if o.verdict.Anomalous? {
        assert Candidate(stream, n, windowSize, zThreshold, oracle) == Admit(prev.window, x, windowSize);
        assert r.indices == prev.indices + [n] && r.scores == prev.scores + [o.verdict.z];
      } else {
        assert r.indices == prev.indices && r.scores == prev.scores;
      }
    }
  }

  /**
   * A point whose decomposition or scoring raises is not recorded, and the
   * window after it is the window it was classified on.
   */
  lemma RaisedIsNotReported(stream: seq<real>, i: int, windowSize: int, zThreshold: real, oracle: Oracle)
    requires 0 <= i < |stream|
    requires oracle(Candidate(stream, i, windowSize, zThreshold, oracle)) == Raised
    ensures i !in Analyze(stream, windowSize, zThreshold, oracle).indices
    ensures Analyze(stream[..i + 1], windowSize, zThreshold, oracle).window == Candidate(stream, i, windowSize, zThreshold, oracle)
  {
    FlaggedIff(stream, i, windowSize, zThreshold, oracle);
    var prev := Analyze(stream[..i], windowSize, zThreshold, oracle);
    AnalyzeOneMore(stream, i, windowSize, zThreshold, oracle);
    assert !Step(prev.window, stream[i], windowSize, zThreshold, oracle).verdict.Anomalous?;
  }

  /**
   * Processing one more point is one application of the shared step to the
   * current window: the batch detector behaves as the live detector called
   * once per point on a persistent window.
   */
  lemma StepsLikeLive(stream: seq<real>, x: real, windowSize: int, zThreshold: real, oracle: Oracle)
    ensures var r := Analyze(stream, windowSize, zThreshold, oracle);
      var r' := Analyze(stream + [x], windowSize, zThreshold, oracle);
      var o := Step(r.window, x, windowSize, zThreshold, oracle);
      r'.window == o.window &&
      (|stream| in r'.indices <==> o.verdict.Anomalous?) &&
      r'.indices == r.indices + (if o.verdict.Anomalous? then [|stream|] else [])
  {
    assert (stream + [x])[..|stream|] == stream;
    IndicesIncreasing(stream, windowSize, zThreshold, oracle);
  }

  /** One more point of the stream is one more `Record`. */
  lemma AnalyzeOneMore(stream: seq<real>, i: int, windowSize: int, zThreshold: real, oracle: Oracle)
    requires 0 <= i < |stream|
    ensures Analyze(stream[..i + 1], windowSize, zThreshold, oracle)
      == Record(Analyze(stream[..i], windowSize, zThreshold, oracle), i, stream[i], windowSize, zThreshold, oracle)
  {
    assert stream[..i + 1][..i] == stream[..i];
  }

  /** `stl_zscore_anomaly_detection`: the loop over the stream, with the same defaults for the window size and threshold. */
  method StlZscoreAnomalyDetection(dataStream: seq<real>, windowSize: int := 1000, zThreshold: real := 3.0, oracle: Oracle)
    returns (anomalyIndices: seq<int>, anomalyScores: seq<real>, anomalyCount: int)
    ensures var r := Analyze(dataStream, windowSize, zThreshold, oracle);
      anomalyIndices == r.indices && anomalyScores == r.scores && anomalyCount == r.count
    ensures anomalyCount == |anomalyIndices| == |anomalyScores|
    ensures IncreasingWithin(anomalyIndices, windowSize - 1, |dataStream|)
  {
    var dataWindow: seq<real> := [];
    anomalyIndices, anomalyScores, anomalyCount := [], [], 0;
    var index := 0;
    while index < |dataStream|
      invariant 0 <= index <= |dataStream|
      invariant Run(dataWindow, anomalyIndices, anomalyScores, anomalyCount)
        == Analyze(dataStream[..index], windowSize, zThreshold, oracle)
    {
      var dataPoint := dataStream[index];
      ghost var before := Run(dataWindow, anomalyIndices, anomalyScores, anomalyCount);
      AnalyzeOneMore(dataStream, index, windowSize, zThreshold, oracle);
      dataWindow := dataWindow + [dataPoint];
      if |dataWindow| > windowSize {
        dataWindow := dataWindow[1..];
      }
      ghost var step := Step(before.window, dataPoint, windowSize, zThreshold, oracle);
      assert dataWindow == Admit(before.window, dataPoint, windowSize);
      if |dataWindow| == windowSize {
        match oracle(dataWindow)
        case Raised =>
          // the exception is logged and the state is left alone
        case Scored(z) =>
          if Abs(z) > zThreshold {
            if |dataWindow| > 0 {
              assert step.verdict == Anomalous(z);
              dataWindow := dataWindow[..|dataWindow| - 1];
              anomalyCount := anomalyCount + 1;
              anomalyIndices := anomalyIndices + [index];
              anomalyScores := anomalyScores + [z];
            }
            // otherwise pop() on the empty window raises IndexError, which is caught
          }
      }
      assert dataWindow == step.window;
      assert Run(dataWindow, anomalyIndices, anomalyScores, anomalyCount)
        == Record(before, index, dataPoint, windowSize, zThreshold, oracle);
      index := index + 1;
    }
    assert dataStream[..index] == dataStream;
    CountsAgree(dataStream, windowSize, zThreshold, oracle);
    ReportedIndicesInRange(dataStream, windowSize, zThreshold, oracle);
  }
}
