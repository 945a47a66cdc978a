/** Configuration helpers of the data path: the power-of-two round-up, the
    derived Doppler configuration and the checks on the dynamic
    configuration. A failed OdsDemo_dssAssert is modelled as a `false`
    verdict. */
module Config {
  import opened Common

  /** 2^31, the largest power of two a uint32_t holds. */
  const Pow2Of31: nat := Pow2(31)

  /** OdsDemo_pow2roundup: doubles 1 until it reaches x, giving the smallest
      power of two that is at least x. */
  method Pow2RoundUp(x: nat) returns (result: nat)
    requires x <= Pow2Of31
    ensures exists k: nat :: k <= 31 && result == Pow2(k)
    ensures x <= result && (result == 1 || result < 2 * x)
  {
    result := 1;
    ghost var k: nat := 0;
    while x > result
      invariant k <= 31 && result == Pow2(k)
      invariant result == 1 || result < 2 * x
      decreases x - result
    {
      if k == 31 {
        assert false;
      }
      result := 2 * result;
      k := k + 1;
    }
  }

  /** The largest k with 2^k <= n. */
  function FloorLog2(n: nat): (k: nat)
    requires n >= 1
    ensures Pow2(k) <= n < 2 * Pow2(k)
  {
    if n == 1 then 0 else 1 + FloorLog2(n / 2)
  }

  /** The derived Doppler configuration: log2 of the number of Doppler bins,
      and whether the number passes the power-of-two assertion. */
  datatype DerivedConfig = DerivedConfig(log2NumDopplerBins: nat, ok: bool)

  /** OdsDemo_dataPathComputeDerivedConfig. */
  function ComputeDerivedConfig(numDopplerBins: nat): (c: DerivedConfig)
    requires numDopplerBins >= 1
    ensures Pow2(c.log2NumDopplerBins) <= numDopplerBins
    ensures c.ok <==> Pow2(c.log2NumDopplerBins) == numDopplerBins
  {
    var k := FloorLog2(numDopplerBins);
    DerivedConfig(k, Pow2(k) == numDopplerBins)
  }

  /** The assertion accepts exactly the powers of two. */
  lemma {:induction false} DerivedConfigAcceptsPowersOfTwo(numDopplerBins: nat)
    requires numDopplerBins >= 1
    ensures ComputeDerivedConfig(numDopplerBins).ok <==> IsPow2(numDopplerBins)
  {
    var c := ComputeDerivedConfig(numDopplerBins);
    if IsPow2(numDopplerBins) {
      var j: nat :| Pow2(j) == numDopplerBins;
      var k := c.log2NumDopplerBins;
      if j < k {
        Pow2Monotone(j + 1, k);
      } else if j > k {
        Pow2Monotone(k + 1, j);
      }
    }
  }

  /** The features a dynamic configuration may enable. */
  datatype DynamicConfig = DynamicConfig(
    extendedMaxVelocity: bool, multiObjBeamForming: bool, nearFieldCorrection: bool, numTxAntennas: nat)

  /** OdsDemo_checkDynamicConfigErrors: the three assertions, each ruling out
      a combination with extended maximum velocity. */
  function DynamicConfigAccepted(c: DynamicConfig): (ok: bool)
  {
    && !(c.extendedMaxVelocity && c.multiObjBeamForming)
    && !(c.extendedMaxVelocity && c.nearFieldCorrection)
    && !(c.extendedMaxVelocity && c.numTxAntennas == 1)
  }
}
