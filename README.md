# Sliding-window STL + z-score anomaly detection, modelled in Dafny

This project models the core of `data_detection.py`, a streaming anomaly
detector for a time series with trend and seasonality:

- **The batch detector** `stl_zscore_anomaly_detection` walks a finite
  stream. It appends each point to a list `data_window` and drops the head
  when the list grows past `window_size`. When the list is exactly full, it
  asks STL decomposition plus a z-score of the newest residual whether that
  point is anomalous. On a hit it pops the point again (the suppression
  policy) and records its index, its z-score and a counter. An exception is
  logged and leaves the state alone.
- **The live detector** `stl_zscore_anomaly_detection_live` does the same
  for one point per call. Its window is a mutable default list that
  persists across calls. It answers True exactly when the point was flagged.
- **Anomaly injection** in `generate_data_point_with_anomalies` takes the
  first `int(p*num)` entries of a random permutation of `range(200, num)`.
  It shifts each chosen value by `1.5*Amp` = 15, in the direction of its
  original first difference.

Modules:

- `Window` (window.dfy) holds the per-point step shared by both detectors:
  `Admit` (append and evict the head), `Flags` (the condition for a flag),
  `Classify` (classify only a full window) and `Step` (classify, then suppress). The STL fit and the z-score
  are an oracle, a function from the window contents to `Raised` or
  `Scored(z)`.
- `Detector` (detector.dfy) holds `Record`, one iteration of the loop
  written as the source writes it and proved to be one application of
  `Step`, and `Analyze`, the loop state after each prefix of the stream,
  which is the specification. The method
  `StlZscoreAnomalyDetection` is the source's loop, proved equal to it. The
  lemmas prove what the source promises about the window and the reports.
- `LiveDetector` (live.dfy) holds the class `LiveWindow`. Its field
  `dataWindow` is the shared default list, and its method is the live
  detector.
- `Generator` (generator.dfy) holds the injection as an in-place update of
  an `array<real>`. It is specified by the function `Injected` on the
  original contents.

The source does not validate `window_size`. With `window_size == 0` every
point is evicted on arrival, so the window is always empty, and
classification runs on the empty window. If that call flags the point,
`pop()` raises `IndexError` inside the `try`, which is caught, so nothing is
recorded. The model keeps this behaviour: `Classify` yields `Failed` there.
The model also defines a negative `window_size`, for which its window stays
empty; see "## Left out" for what the source may do instead.

The defaults of the source are kept as Dafny default parameter values:
`window_size=1000` and `z_threshold=3` for the batch detector,
`window_size=200` and `z_threshold=3` for the live detector.

## Model

| member | source | states |
|---|---|---|
| `Window.Admit` | data_detection.py:81-85 | the window grows by exactly one point unless that overflows `window_size`; only the oldest value at position 0 is evicted, so the result is a suffix of the old window plus the new point, and it stays within the window size |
| `Window.Classify` | data_detection.py:88-110 | classification happens only when the window length equals `window_size`; a point is anomalous exactly when the window is full and non-empty and the oracle's `abs(z)` is strictly greater than `z_threshold`; the recorded score is the oracle's signed z |
| `Window.Step` | data_detection.py:81-107 | after a flag the window holds `window_size - 1` points and is the pre-push window (minus its evicted head): exactly the just-appended point was popped; without a flag the window is the admitted window unchanged |
| `Window.AdmitThenDropLast` | data_detection.py:103-104 | popping the newest point of an admitted window undoes the append and keeps any head eviction |
| `Window.SuppressionThenRefill` | data_detection.py:81-104 | after a suppression the window holds `window_size - 1` points, and the next push brings it back to `window_size` without evicting anything |
| `Window.FailureKeepsWindow` | data_detection.py:89-110 | when the decomposition or scoring raises, the verdict is a failure and the window is the admitted window, untouched |
| `Detector.Record` | data_detection.py:79-107 | one iteration (append, evict the head on overflow, classify a full window, pop and record on a flag) is exactly one application of the shared step `Step`: same new window, and an index, a score and a count are appended exactly when the step flags the point, the score being the step's z |
| `Detector.StlZscoreAnomalyDetection` | data_detection.py:57-114 | the loop returns exactly the indices, scores and count of `Analyze` on the stream; `anomaly_count == len(anomaly_indices) == len(anomaly_scores)`; indices strictly increase and lie in `[window_size-1, len(data_stream))` |
| `Detector.CountsAgree` | data_detection.py:105-107 | the counter always equals the number of recorded indices and of recorded scores |
| `Detector.IndicesIncreasing` | data_detection.py:79-106 | reported indices are strictly increasing and lie in `[0, len(stream))` |
| `Detector.WindowIsSuffixOfUnflagged` | data_detection.py:81-104 | the window is always, in arrival order, a suffix of the stream so far with every flagged point removed |
| `Detector.WindowWithinCapacity` | data_detection.py:81-85 | after every point the window holds at most `window_size` values, and none when `window_size` is negative |
| `Detector.WindowFillLevel` | data_detection.py:81-104 | right after the last point was flagged the window holds exactly `window_size - 1` values; otherwise it holds `min(unflagged points so far, window_size)` |
| `Detector.ReportedIndicesInRange` | data_detection.py:88-106 | no index below `window_size - 1` is ever reported; all reported indices are below the stream length and strictly increasing |
| `Detector.NothingReportedWithoutCapacity` | data_detection.py:84-88 | with `window_size <= 0` the window stays empty and nothing is ever reported |
| `Detector.FlaggedIff` | data_detection.py:88-106 | index `i` is reported if and only if its window (previous window plus `stream[i]`) is full and the oracle's `abs(z)` for it exceeds `z_threshold` |
| `Detector.ScoresAreZ` | data_detection.py:98-107 | the k-th recorded score is the oracle's z for the window of the k-th reported point, and its magnitude exceeds the threshold |
| `Detector.RaisedIsNotReported` | data_detection.py:109-110 | a point whose decomposition or scoring raises is not reported, and the window after it is the window it was classified on |
| `Detector.StepsLikeLive` | data_detection.py:79-107 | one more point of the batch loop is one application of the live step to the current window: same new window, and the point is reported exactly when the step flags it |
| `LiveDetector.LiveWindow.constructor` | data_detection.py:117 | the shared default window starts empty |
| `LiveDetector.LiveWindow.StlZscoreAnomalyDetectionLive` | data_detection.py:117-161 | returns True exactly when the admitted window is full and the oracle's `abs(z)` exceeds the threshold; the window persists in the object, with the flagged point popped (leaving `window_size - 1` values) or as admitted otherwise |
| `Generator.Trunc` | data_detection.py:46 | `int()` truncates toward zero: within one below (for non-negative) or above (for negative) the real value |
| `Generator.SliceLength` | data_detection.py:50 | `[:stop]` yields `stop` items, capped at the length, and a negative stop counts from the end |
| `Generator.AnomalyCount` | data_detection.py:46-50 | the number of injected anomalies never exceeds the `max(0, num - 200)` candidates |
| `Generator.AnomalyCountForProportion` | data_detection.py:46-50 | for `p >= 0` the number of anomalies is `min(floor(p*num), num - 200)`, and 0 when `num <= 200` |
| `Generator.SelectionDistinctInRange` | data_detection.py:50 | the selected indices are `AnomalyCount` distinct indices, all in `[200, num)` |
| `Generator.Direction` | data_detection.py:51 | the sign factor is +1 exactly when the value is at least its predecessor, else -1 |
| `Generator.Injected` | data_detection.py:51 | a value changes if and only if its index is selected; a selected value moves up by exactly 15 when it is at least its original predecessor and down by exactly 15 otherwise, with differences taken before any modification |
| `Generator.AmplifiesLocalMovement` | data_detection.py:51 | where the predecessor was not selected, the new first difference keeps its original sign and grows in magnitude by exactly 15 |
| `Generator.GenerateDataPointWithAnomalies` | data_detection.py:44-54 | returns the first `AnomalyCount` entries of the permutation and leaves the array equal to `Injected` of its original contents: selected values shifted, all others unchanged |

## Left out

- STL decomposition (`statsmodels.tsa.seasonal.STL`, data_detection.py:93-95 and 145-147) is floating-point LOESS in a foreign library. It is the oracle parameter, which either raises or yields the z-score of the newest point.
- The mean, standard deviation and z-score arithmetic (data_detection.py:98-100, 150-152) is part of the oracle. Under numpy a zero standard deviation gives NaN or infinity rather than an exception. The code has no guard for it. A NaN z compares false and is not flagged. The oracle expresses that either as `Raised`, which has the same effect (nothing is recorded, the admitted window is kept, the live call answers False), or as a z whose magnitude is at most the threshold; for a negative threshold only `Raised` fits.
- `trend`, `seasonality`, `noise` and `generate_data_points` (data_detection.py:15-29) compute logarithms, sines and Gaussian noise. The base series is the array's initial contents.
- `np.random.permutation` (data_detection.py:50) is random. It is the parameter `permutation`, which may be any permutation of `[200, num)`.
- Floating-point rounding is not modelled. Stream values, `p*num`, the ±15 offset and the comparisons are exact `real` arithmetic.
- `pd.date_range`, the DataFrame construction and logging (data_detection.py:76, 91-92, 110, 131, 143-144, 159) are library plumbing and side effects. A caught exception is modelled by its effect on the state: nothing changes.
- When a caller passes its own `data_window` to the live detector, that list is a separate `LiveWindow` object. Aliasing of one Python list between several callers is not modelled beyond that.
- If a caller shrinks `window_size` between live calls, the persistent window can exceed it. Only one head value is evicted per call, as in the source, so no capacity invariant is claimed for `LiveWindow` across calls with different sizes.
- The injection count is `int(p*num)`, truncated toward zero. The code does not check `window_size` against a seasonal period and does not guard a zero standard deviation. The model follows the code.
- A higher threshold can yield more detections, not fewer: each suppression changes every later window, so for an arbitrary oracle the number of detections is not monotone in `z_threshold`. No monotonicity is claimed.
- `pd.date_range(..., periods=window_size, ...)` (data_detection.py:76 and 131) runs outside the `try`, before the loop and before the append. The model assumes it succeeds for every `window_size`. If pandas rejects a negative `periods`, the source raises for a negative `window_size`: the batch detector would raise instead of returning `([], [], 0)`, and each live call would raise with the window unchanged instead of answering False. That case is not modelled; `NothingReportedWithoutCapacity` and `WindowWithinCapacity` describe the model's empty window there.
- Scoring against ground truth (TP/FP/FN): test.py declares the lists but never fills them, so there is no logic to model. data_stream.py, visualize.py, test.py and anomaly_detection.py are not part of this model. They hold an infinite RNG generator with `time.sleep`, matplotlib animation, and a statsmodels wrapper that cannot run as written.
