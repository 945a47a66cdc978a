/** The peak-index logic of the X/Y estimation of a detected object.

    The squared magnitudes of the azimuth FFT (floats, modelled as reals) are
    searched for their maximum. With extended maximum velocity the search
    also covers the flipped half, and a peak found there means the Doppler
    index aliased. With multi-object beam forming, the shoulders of the first
    peak are walked down circularly on both sides, and the rest of the
    circle is searched for a second peak, which is reported as a new object
    when it is high enough and there is room. The coordinate computation of
    OdsDemo_XYcalc (floating point) is not part of this model. Indices are
    masked with `& (numAngleBins - 1)`, which is the remainder modulo
    numAngleBins for a power-of-two number of angle bins. */
module AzimuthPeak {

  /** `x & (n - 1)` for a power-of-two n on the range the search uses:
      one period either side of [0, n), the unsigned wrap of a negative
      difference included. */
  function Circ(x: int, n: nat): (r: nat)
    requires n >= 1 && -(n as int) <= x < 2 * n
    ensures r < n && (r == x || r == x + n || r == x - n)
  {
    if x < 0 then x + n else if x < n then x else x - n
  }

  /** The bin reached after t circular steps from a, upward or downward. */
  function Walk(a: nat, t: nat, up: bool, n: nat): (r: nat)
    requires a < n
    ensures r < n
  {
    if t == 0 then a
    else Circ(Walk(a, t - 1, up, n) + (if up then 1 else -1), n)
  }

  /** Walking up t steps lands on the masked sum a + t. */
  lemma {:induction false} WalkUp(a: nat, t: nat, n: nat)
    requires a < n && t <= n
    ensures Walk(a, t, true, n) == Circ(a + t, n)
  {
    if t > 0 {
      WalkUp(a, t - 1, n);
    }
  }

  /** Walking down t steps lands on the masked difference a - t. */
  lemma {:induction false} WalkDown(a: nat, t: nat, n: nat)
    requires a < n && t <= n
    ensures Walk(a, t, false, n) == Circ(a - t, n)
  {
    if t > 0 {
      WalkDown(a, t - 1, n);
    }
  }

  /** A full round in either direction comes back to the start. */
  lemma WalkAround(a: nat, n: nat, up: bool)
    requires a < n
    ensures Walk(a, n, up, n) == a
  {
    if up { WalkUp(a, n, n); } else { WalkDown(a, n, n); }
  }

  /** The peak search: the first index of the largest magnitude among the
      first numSearchBins, starting from 0 at index 0, so a search over
      magnitudes that are all at most 0 reports index 0 with 0. */
  method FindPeak(mag: array<real>, numSearchBins: nat) returns (azimIdx: nat, maxVal: real)
    requires numSearchBins <= mag.Length
    ensures maxVal >= 0.0 && forall i :: 0 <= i < numSearchBins ==> mag[i] <= maxVal
    ensures maxVal == 0.0 ==> azimIdx == 0
    ensures maxVal > 0.0 ==> azimIdx < numSearchBins && mag[azimIdx] == maxVal
    ensures forall i :: 0 <= i < azimIdx && i < numSearchBins ==> mag[i] < maxVal
  {
    azimIdx := 0;
    maxVal := 0.0;
    var i := 0;
    while i < numSearchBins
      invariant i <= numSearchBins
      invariant maxVal >= 0.0 && forall j :: 0 <= j < i ==> mag[j] <= maxVal
      invariant maxVal == 0.0 ==> azimIdx == 0
      invariant maxVal > 0.0 ==> azimIdx < i && mag[azimIdx] == maxVal
      invariant forall j :: 0 <= j < azimIdx && j < i ==> mag[j] < maxVal
    {
      if mag[i] > maxVal {
        azimIdx := i;
        maxVal := mag[i];
      }
      i := i + 1;
    }
  }

  /** The alias correction: a peak in the flipped half (index numAngleBins
      or more) is moved back by numAngleBins, and the Doppler index moved by
      a whole period toward the other sign. */
  function CorrectAlias(azimIdx: nat, dopplerIdx: int, numAngleBins: nat, numDopplerBins: nat): (r: (nat, int))
    ensures azimIdx < numAngleBins ==> r == (azimIdx, dopplerIdx)
    ensures azimIdx >= numAngleBins ==> r.0 + numAngleBins == azimIdx
    ensures azimIdx >= numAngleBins ==>
              r.1 == dopplerIdx + numDopplerBins || r.1 == dopplerIdx - numDopplerBins
    ensures azimIdx >= numAngleBins && -(numDopplerBins as int) <= dopplerIdx < numDopplerBins ==>
              (dopplerIdx < 0 <==> r.1 >= 0)
  {
    if azimIdx >= numAngleBins then
      (azimIdx - numAngleBins, if dopplerIdx < 0 then dopplerIdx + numDopplerBins else dopplerIdx - numDopplerBins)
    else (azimIdx, dopplerIdx)
  }

  /** The magnitudes fall (weakly) along the first `steps` steps of the walk
      from a around the circle of n bins. */
  ghost predicate FallsFrom(mag: array<real>, a: nat, steps: nat, up: bool, n: nat)
    requires a < n <= mag.Length
    reads mag
  {
    forall t: nat :: t < steps ==> mag[Walk(a, t, up, n)] >= mag[Walk(a, t + 1, up, n)]
  }

  /** One edge of the first peak: from azimIdx, step up (or down) while the
      next magnitude does not exceed the current one, at most numAngleBins
      times. The result is the first bin past the shoulder, where the
      magnitudes fall along the steps taken and, unless the walk went all
      the way round, rise at the next one. */
  method Edge(mag: array<real>, azimIdx: nat, up: bool, numAngleBins: nat) returns (searchIdx: nat, steps: nat)
    requires azimIdx < numAngleBins <= mag.Length
    ensures steps <= numAngleBins && searchIdx == Walk(azimIdx, steps + 1, up, numAngleBins)
    ensures FallsFrom(mag, azimIdx, steps, up, numAngleBins)
    ensures steps < numAngleBins ==> mag[Walk(azimIdx, steps, up, numAngleBins)] < mag[searchIdx]
  {
    var n := numAngleBins;
    var dir: int := if up then 1 else -1;
    var i := azimIdx;
    searchIdx := Circ(i + dir, n);
    var k := n;
    steps := 0;
    while mag[i] >= mag[searchIdx] && k > 0
      invariant steps + k == n
      invariant i == Walk(azimIdx, steps, up, n) && searchIdx == Walk(azimIdx, steps + 1, up, n)
      invariant FallsFrom(mag, azimIdx, steps, up, n)
      decreases k
    {
      i := Circ(i + dir, n);
      searchIdx := Circ(searchIdx + dir, n);
      k := k - 1;
      steps := steps + 1;
    }
  }

  /** Bin u of the circular window that starts at left. */
  function WindowBin(left: nat, u: nat, n: nat): nat
    requires left < n && u <= n
  {
    Circ(left + u, n)
  }

  /** The search for the second peak: the first largest magnitude over the
      len bins from left on, around the circle, starting from the bin at
      left. */
  method SecondPeak(mag: array<real>, left: nat, len: nat, numAngleBins: nat)
    returns (azimIdx: nat, maxVal: real, ghost offset: nat)
    requires left < numAngleBins <= mag.Length && 1 <= len <= numAngleBins
    ensures offset < len && azimIdx == WindowBin(left, offset, numAngleBins) && maxVal == mag[azimIdx]
    ensures forall u: nat :: u < len ==> mag[WindowBin(left, u, numAngleBins)] <= maxVal
    ensures forall u: nat :: u < offset ==> mag[WindowBin(left, u, numAngleBins)] < maxVal
  {
    var n := numAngleBins;
    maxVal := mag[left];
    azimIdx := left;
    offset := 0;
    var i := left;
    while i < left + len
      invariant left <= i <= left + len
      invariant offset < len && (offset < i - left || (offset == 0 && i == left))
      invariant azimIdx == WindowBin(left, offset, n) && maxVal == mag[azimIdx]
      invariant forall u: nat :: u < i - left ==> mag[WindowBin(left, u, n)] <= maxVal
      invariant forall u: nat :: u < offset ==> mag[WindowBin(left, u, n)] < maxVal
    {
      var iModAzimLen := Circ(i, n);
      assert iModAzimLen == WindowBin(left, i - left, n);
      if mag[iModAzimLen] > maxVal {
        azimIdx := iModAzimLen;
        maxVal := mag[iModAzimLen];
        offset := i - left;
      }
      i := i + 1;
    }
  }

  /** A second peak is reported when it exceeds the first scaled by the
      threshold and the object list has room. */
  predicate SecondPeakAccepted(maxVal2: real, maxVal: real, multiPeakThrsScal: real, numDetObj: nat, maxObjOut: nat)
  {
    maxVal2 > maxVal * multiPeakThrsScal && numDetObj < maxObjOut
  }

  /** A possible second object: its azimuth index and peak. */
  datatype SecondObject = NoSecond | Second(azimIdx: nat, maxVal: real)

  /** What the X/Y estimation decides for one object: its azimuth index and
      peak, its (possibly corrected) Doppler index, the possible second
      object and the new number of detected objects. */
  datatype Estimate = Estimate(azimIdx: nat, maxVal: real, dopplerIdx: int, second: SecondObject, numDetObj: nat)

  /** OdsDemo_XYestimation, peak-index part. `aliasSearch` stands for
      extended maximum velocity being on with more virtual azimuth antennas
      than receive antennas; `extendedMaxVelocity` and `multiObjBeamForming`
      for the configured features. */
  method XYestimation(mag: array<real>, numAngleBins: nat, aliasSearch: bool, extendedMaxVelocity: bool,
                      multiObjBeamForming: bool, dopplerIdx: int, numDopplerBins: nat,
                      multiPeakThrsScal: real, numDetObj: nat, maxObjOut: nat) returns (e: Estimate)
    requires 1 <= numAngleBins && (if aliasSearch then 2 * numAngleBins else numAngleBins) <= mag.Length
    ensures e.azimIdx < numAngleBins && e.maxVal >= 0.0
    ensures forall i :: 0 <= i < (if aliasSearch then 2 * numAngleBins else numAngleBins) ==> mag[i] <= e.maxVal
    ensures e.maxVal == 0.0 ==> e.azimIdx == 0 && e.dopplerIdx == dopplerIdx
    ensures !aliasSearch ==> e.dopplerIdx == dopplerIdx
    ensures e.maxVal > 0.0 && e.dopplerIdx == dopplerIdx && numDopplerBins >= 1 ==> mag[e.azimIdx] == e.maxVal
    // the peak is the first occurrence of the maximum among the search bins
    ensures forall i :: 0 <= i < (if e.dopplerIdx != dopplerIdx then e.azimIdx + numAngleBins else e.azimIdx) ==>
              mag[i] < e.maxVal
    ensures e.dopplerIdx != dopplerIdx ==>
              && aliasSearch && mag[e.azimIdx + numAngleBins] == e.maxVal
              && (forall i :: 0 <= i < numAngleBins ==> mag[i] < e.maxVal)
              && (e.dopplerIdx == dopplerIdx + numDopplerBins || e.dopplerIdx == dopplerIdx - numDopplerBins)
    ensures e.second.Second? ==>
              && multiObjBeamForming && !extendedMaxVelocity
              && SecondPeakAccepted(e.second.maxVal, e.maxVal, multiPeakThrsScal, numDetObj, maxObjOut)
    ensures !multiObjBeamForming || extendedMaxVelocity || numDetObj >= maxObjOut ==> e.second == NoSecond
    ensures e.second.Second? ==> e.second.azimIdx < numAngleBins && mag[e.second.azimIdx] == e.second.maxVal
    ensures e.numDetObj == if e.second.Second? then numDetObj + 1 else numDetObj
  {
    var numSearchBins := if aliasSearch then 2 * numAngleBins else numAngleBins;
    var azimIdx, maxVal := FindPeak(mag, numSearchBins);
    var d := dopplerIdx;
    if aliasSearch {
      var r := CorrectAlias(azimIdx, dopplerIdx, numAngleBins, numDopplerBins);
      azimIdx, d := r.0, r.1;
    }
    e := Estimate(azimIdx, maxVal, d, NoSecond, numDetObj);
    if multiObjBeamForming && !extendedMaxVelocity {
      var leftSearchIdx, _ := Edge(mag, azimIdx, true, numAngleBins);
      var rightSearchIdx, _ := Edge(mag, azimIdx, false, numAngleBins);
      var secondSearchLen := Circ(rightSearchIdx as int - leftSearchIdx, numAngleBins) + 1;
      var azimIdx2, maxVal2, _ := SecondPeak(mag, leftSearchIdx, secondSearchLen, numAngleBins);
      if SecondPeakAccepted(maxVal2, maxVal, multiPeakThrsScal, numDetObj, maxObjOut) {
        e := e.(second := Second(azimIdx2, maxVal2), numDetObj := numDetObj + 1);
      }
    }
  }
}
