/**
 * The anomaly-injection step of `generate_data_point_with_anomalies` in
 * data_detection.py. The base series (trend + seasonality + noise) is the
 * array's initial contents, and the random permutation of `range(200, num)`
 * is a parameter.
 */
module Generator {

  /** `Amp` of the source. */
  const Amp: real := 10.0

  /** `anomalies_values`: the size of every injected displacement. */
  const AnomalyValue: real := 1.5 * Amp

  /** Injected indices are drawn from `[WarmUp, num)`. */
  const WarmUp: int := 200

  function Max(a: int, b: int): (m: int)
  {
    if a < b then b else a
  }

  /** Python's `int()` of a float: truncation toward zero. */
  function Trunc(r: real): (n: int)
    ensures 0.0 <= r ==> n as real <= r < n as real + 1.0
    ensures r < 0.0 ==> n as real - 1.0 < r <= n as real
  {
    if r >= 0.0 then r.Floor else -((-r).Floor)
  }

  /** `len(xs[:stop])` for a list of length `len`: a negative stop counts from the end. */
  function SliceLength(len: nat, stop: int): (n: nat)
    ensures n <= len
    ensures 0 <= stop ==> n == stop || (n == len && len < stop)
    ensures stop < 0 ==> n == len + stop || (n == 0 && len + stop < 0)
  {
    if stop >= 0 then (if stop < len then stop else len)
    else if len + stop > 0 then len + stop
    else 0
  }

  /** `len(np.random.permutation(np.arange(200, num))[:int(p*num)])`. */
  function AnomalyCount(num: int, p: real): (n: nat)
    ensures n <= Max(0, num - WarmUp)
  {
    SliceLength(Max(0, num - WarmUp), Trunc(p * num as real))
  }

  /** `perm` is a permutation of `[lo, hi)`: the right length, in range, no repeats. */
  predicate IsPermutationOfRange(perm: seq<int>, lo: int, hi: int)
  {
    && |perm| == Max(0, hi - lo)
    && (forall k :: 0 <= k < |perm| ==> lo <= perm[k] < hi)
    && (forall k, l :: 0 <= k < l < |perm| ==> perm[k] != perm[l])
  }

  /** `((x[i] - x[i-1]) >= 0) * 2 - 1`: the direction of the original first difference. */
  function Direction(orig: seq<real>, i: int): (d: real)
    requires 1 <= i < |orig|
    ensures d == 1.0 || d == -1.0
    ensures d == 1.0 <==> orig[i] >= orig[i - 1]
  {
    if orig[i] - orig[i - 1] >= 0.0 then 1.0 else -1.0
  }

  /** The series after injection at the indices `selected`, all differences taken on `orig`. */
  function Injected(orig: seq<real>, selected: seq<int>): (r: seq<real>)
    requires forall k :: 0 <= k < |selected| ==> 1 <= selected[k] < |orig|
    ensures |r| == |orig|
    ensures forall i :: 0 <= i < |orig| ==> (r[i] == orig[i] <==> i !in selected)
    ensures forall i :: 1 <= i < |orig| && i in selected ==>
      (orig[i] >= orig[i - 1] ==> r[i] == orig[i] + AnomalyValue) &&
      (orig[i] < orig[i - 1] ==> r[i] == orig[i] - AnomalyValue)
  {
    seq(|orig|, i requires 0 <= i < |orig| =>
      if 1 <= i && i in selected then orig[i] + AnomalyValue * Direction(orig, i) else orig[i])
  }

  /**
   * The number of injected anomalies for a proportion `p` in `[0, 1]`:
   * `min(floor(p * num), num - 200)`, and none when `num <= 200`.
   */
  lemma AnomalyCountForProportion(num: nat, p: real)
    requires 0.0 <= p
    ensures AnomalyCount(num, p) == if num <= WarmUp then 0
      else if (p * num as real).Floor < num - WarmUp then (p * num as real).Floor
      else num - WarmUp
  {
  }

  /**
   * An anomaly injected where the predecessor was left alone amplifies the
   * local movement: the new first difference has the original sign and
   * grows in magnitude by exactly `AnomalyValue`.
   */
  lemma AmplifiesLocalMovement(orig: seq<real>, selected: seq<int>, i: int)
    requires forall k :: 0 <= k < |selected| ==> 1 <= selected[k] < |orig|
    requires 1 <= i < |orig| && i in selected && i - 1 !in selected
    ensures var r := Injected(orig, selected);
      (r[i] - r[i - 1] >= 0.0 <==> orig[i] - orig[i - 1] >= 0.0) &&
      (orig[i] >= orig[i - 1] ==> r[i] - r[i - 1] == orig[i] - orig[i - 1] + AnomalyValue) &&
      (orig[i] < orig[i - 1] ==> r[i] - r[i - 1] == orig[i] - orig[i - 1] - AnomalyValue)
  {
  }

  /**
   * The selected indices are `AnomalyCount(num, p)` distinct indices, all in `[200, num)`.
   */
  lemma SelectionDistinctInRange(perm: seq<int>, num: int, p: real)
    requires IsPermutationOfRange(perm, WarmUp, num)
    ensures var selected := perm[..AnomalyCount(num, p)];
      |selected| == AnomalyCount(num, p) &&
      (forall k :: 0 <= k < |selected| ==> WarmUp <= selected[k] < num) &&
      (forall k, l :: 0 <= k < l < |selected| ==> selected[k] != selected[l])
  {
  }

  /**
   * data_detection.py:46-54: choose the first `int(p*num)` entries of the permutation and
   * shift each chosen value by `1.5*Amp` in the direction of its original
   * first difference, in place.
   */
  method GenerateDataPointWithAnomalies(dataPoints: array<real>, p: real, permutation: seq<int>)
    returns (anomaliesIndices: seq<int>)
    requires IsPermutationOfRange(permutation, WarmUp, dataPoints.Length)
    modifies dataPoints
    ensures anomaliesIndices == permutation[..AnomalyCount(dataPoints.Length, p)]
    ensures dataPoints[..] == Injected(old(dataPoints[..]), anomaliesIndices)
  {
    var orig := dataPoints[..];
    var anomaliesNum := AnomalyCount(dataPoints.Length, p);
    anomaliesIndices := permutation[..anomaliesNum];
    var k := 0;
    while k < anomaliesNum
      invariant 0 <= k <= anomaliesNum
      invariant forall i :: 0 <= i < dataPoints.Length ==>
        dataPoints[i] == if i in permutation[..k] then orig[i] + AnomalyValue * Direction(orig, i) else orig[i]
    {
      var i := permutation[k];
      assert i !in permutation[..k];
      dataPoints[i] := orig[i] + AnomalyValue * Direction(orig, i);
      assert permutation[..k + 1] == permutation[..k] + [i];
      k := k + 1;
    }
    forall i | 0 <= i < dataPoints.Length
      ensures dataPoints[i] == Injected(orig, anomaliesIndices)[i]
    {
      assert permutation[..k] == anomaliesIndices;
    }
    assert dataPoints[..] == Injected(orig, anomaliesIndices);
  }
}
