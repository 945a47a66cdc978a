/** DC range-signature calibration and compensation.

    For every chirp, a band of range bins of each receive antenna (bins
    0..positiveBinIdx and the last -negativeBinIdx bins) carries a fixed
    antenna signature. During the first numAvgChirps * numTxAntennas chirps
    the band is accumulated into a mean buffer (one slot per ping/pong chirp
    parity), the buffer is then divided by 2^log2NumAvgChirps, and from then on
    each chirp has the mean subtracted from its band. The mean buffer stores
    the two parts of a sample in swapped words and undoes the swap when
    subtracting; the model keeps each part in its own place. */
module DcCalibration {
  import opened Common

  function Add(x: Cplx, y: Cplx): Cplx
  {
    Cplx(x.re + y.re, x.im + y.im)
  }

  /** The subtraction of the compensation, packed back into 16-bit parts. */
  function Sub16(x: Cplx, y: Cplx): Cplx
  {
    Cplx(Wrap16(x.re - y.re), Wrap16(x.im - y.im))
  }

  /** The division of the mean: both parts shifted right arithmetically. */
  function Shift(x: Cplx, k: nat): Cplx
  {
    Cplx(ShiftRight(x.re, k), ShiftRight(x.im, k))
  }

  const Zero := Cplx(0, 0)

  /** The first index of row a in a row-major layout of rows of w entries. */
  function RowStart(a: nat, w: nat): nat
  {
    if a == 0 then 0 else RowStart(a - 1, w) + w
  }

  lemma {:induction false} RowStartIsProduct(a: nat, w: nat)
    ensures RowStart(a, w) == a * w
  {
    if a > 0 {
      RowStartIsProduct(a - 1, w);
      assert a * w == (a - 1) * w + w;
    }
  }

  /** Entry j < w of row a lies before row a + 1, which starts no later than row n > a. */
  lemma {:induction false} RowLayout(a: nat, j: nat, w: nat, n: nat)
    requires a < n && j < w
    ensures RowStart(a, w) + j < RowStart(a + 1, w) <= RowStart(n, w)
    decreases n
  {
    if a + 1 < n {
      RowLayout(a, j, w, n - 1);
    }
  }

  lemma AtLeastOneCopy(n: nat, s: nat)
    requires n >= 1
    ensures s <= n * s
  {
    assert n * s == (n - 1) * s + s;
  }

  class DcRangeSigCalibration {
    const numRxAntennas: nat
    const numTxAntennas: nat
    const numRangeBins: nat
    const positiveBinIdx: nat
    const negativeBinIdx: int
    const numAvgChirps: nat
    const log2NumAvgChirps: nat
    /** dcRangeSigMean: room for the ping and the pong slot. */
    const mean: array<Cplx>
    /** dcRangeSigCalibCntr */
    var calibCntr: nat

    /** Entries of one antenna's band. */
    function BandWidth(): nat
      requires negativeBinIdx <= 0
    {
      positiveBinIdx - negativeBinIdx + 1
    }

    /** chirpPingPongSize: the band entries of all receive antennas. */
    function SlotSize(): nat
      requires negativeBinIdx <= 0
    {
      numRxAntennas * BandWidth()
    }

    function Threshold(): nat
    {
      numAvgChirps * numTxAntennas
    }

    /** The band's two halves fit in one antenna's range bins without
        overlap, and the mean buffer holds both slots and the averaged part. */
    predicate Layout()
    {
      && negativeBinIdx <= 0
      && positiveBinIdx + 1 <= numRangeBins + negativeBinIdx
      && numTxAntennas * SlotSize() <= mean.Length
      && 2 * SlotSize() <= mean.Length
    }

    predicate Valid()
      reads this
    {
      Layout() && calibCntr <= Threshold()
    }

    /** The range bin of band entry j: 0..positiveBinIdx first, then the
        last -negativeBinIdx bins. */
    function BandBin(j: nat): (b: nat)
      requires Layout() && j < BandWidth()
      ensures b < numRangeBins
      ensures j <= positiveBinIdx ==> b == j
      ensures j > positiveBinIdx ==> b >= numRangeBins + negativeBinIdx
    {
      if j <= positiveBinIdx then j else numRangeBins + negativeBinIdx + (j - positiveBinIdx - 1)
    }

    function SlotBase(pp: nat): nat
      requires negativeBinIdx <= 0
    {
      if pp == 0 then 0 else SlotSize()
    }

    /** Band entry j of antenna a in the mean slot of chirp parity pp: inside
        that slot, hence inside the mean buffer. */
    function MeanIndex(pp: nat, a: nat, j: nat): (k: nat)
      requires Layout() && pp < 2 && a < numRxAntennas && j < BandWidth()
      ensures SlotBase(pp) <= k < SlotBase(pp) + SlotSize() && k < mean.Length
    {
      RowLayout(a, j, BandWidth(), numRxAntennas);
      RowStartIsProduct(numRxAntennas, BandWidth());
      SlotBase(pp) + RowStart(a, BandWidth()) + j
    }

    /** Range bin b of antenna a in the 1D FFT output of chirp parity pp:
        inside that chirp's block of numRxAntennas rows. */
    function FftIndex(pp: nat, a: nat, b: nat): (k: nat)
      requires pp < 2 && a < numRxAntennas && b < numRangeBins
      ensures ChirpBase(pp) <= k < ChirpBase(pp) + numRxAntennas * numRangeBins <= 2 * (numRxAntennas * numRangeBins)
    {
      RowLayout(a, b, numRangeBins, numRxAntennas);
      RowStartIsProduct(numRxAntennas, numRangeBins);
      ChirpBase(pp) + RowStart(a, numRangeBins) + b
    }

    /** The chirp of parity pp follows numRxAntennas rows of numRangeBins samples. */
    function ChirpBase(pp: nat): nat
    {
      if pp == 0 then 0 else numRxAntennas * numRangeBins
    }

    /** The 1D FFT output holds both chirp parities of every antenna. */
    predicate FftFits(fftOut1D: array<Cplx>)
    {
      2 * (numRxAntennas * numRangeBins) <= fftOut1D.Length
    }

    /** With at least one transmitter, every ping entry (parity 0) lies in
        the part of the buffer that is zeroed and divided. */
    lemma {:induction false} PingSlotAveraged(a: nat, j: nat)
      requires Layout() && numTxAntennas >= 1 && a < numRxAntennas && j < BandWidth()
      ensures MeanIndex(0, a, j) < numTxAntennas * SlotSize()
    {
      AtLeastOneCopy(numTxAntennas, SlotSize());
    }

    /** With a single transmitter the chirp parity still alternates, but the
        zeroing and the division cover only numTxAntennas slots: every pong
        entry lies beyond them. */
    lemma {:induction false} SingleTxPongSlotNotAveraged(a: nat, j: nat)
      requires Layout() && numTxAntennas == 1 && a < numRxAntennas && j < BandWidth()
      ensures MeanIndex(1, a, j) >= numTxAntennas * SlotSize()
    {
      assert numTxAntennas * SlotSize() == SlotSize();
    }

    /** Antenna a's samples lie in its own row of the chirp. */
    lemma {:induction false} FftIndexLayout(pp: nat, a: nat, b: nat)
      requires pp < 2 && a < numRxAntennas && b < numRangeBins
      ensures FftIndex(pp, a, b) == ChirpBase(pp) + RowStart(a, numRangeBins) + b
      ensures ChirpBase(pp) + RowStart(a + 1, numRangeBins) <= ChirpBase(pp) + numRxAntennas * numRangeBins
    {
      RowLayout(a, b, numRangeBins, numRxAntennas);
      RowStartIsProduct(numRxAntennas, numRangeBins);
    }

    constructor (numRxAntennas: nat, numTxAntennas: nat, numRangeBins: nat, positiveBinIdx: nat,
                 negativeBinIdx: int, numAvgChirps: nat, log2NumAvgChirps: nat, capacity: nat)
      requires negativeBinIdx <= 0 && positiveBinIdx + 1 <= numRangeBins + negativeBinIdx
      requires var slot := numRxAntennas * (positiveBinIdx - negativeBinIdx + 1);
               numTxAntennas * slot <= capacity && 2 * slot <= capacity
      ensures Valid() && fresh(mean) && calibCntr == 0
      ensures this.numRxAntennas == numRxAntennas && this.numTxAntennas == numTxAntennas
      ensures this.numRangeBins == numRangeBins && this.positiveBinIdx == positiveBinIdx
      ensures this.negativeBinIdx == negativeBinIdx && this.numAvgChirps == numAvgChirps
      ensures this.log2NumAvgChirps == log2NumAvgChirps && mean.Length == capacity
    {
      this.numRxAntennas := numRxAntennas;
      this.numTxAntennas := numTxAntennas;
      this.numRangeBins := numRangeBins;
      this.positiveBinIdx := positiveBinIdx;
      this.negativeBinIdx := negativeBinIdx;
      this.numAvgChirps := numAvgChirps;
      this.log2NumAvgChirps := log2NumAvgChirps;
      mean := new Cplx[capacity](_ => Zero);
      calibCntr := 0;
    }

    /** The memset at counter 0: the numTxAntennas slots are cleared. */
    method ClearMean()
      requires Valid()
      modifies mean
      ensures forall k :: 0 <= k < numTxAntennas * SlotSize() ==> mean[k] == Zero
      ensures forall k :: numTxAntennas * SlotSize() <= k < mean.Length ==> mean[k] == old(mean[k])
    {
      var count := numTxAntennas * SlotSize();
      var k := 0;
      while k < count
        invariant k <= count
        invariant forall i :: 0 <= i < k ==> mean[i] == Zero
        invariant forall i :: count <= i < mean.Length ==> mean[i] == old(mean[i])
      {
        mean[k] := Zero;
        k := k + 1;
      }
    }

    /** The division once the threshold is reached: every entry of the
        numTxAntennas slots shifted right by log2NumAvgChirps. */
    method DivideMean()
      requires Valid()
      modifies mean
      ensures forall k :: 0 <= k < numTxAntennas * SlotSize() ==> mean[k] == Shift(old(mean[k]), log2NumAvgChirps)
      ensures forall k :: numTxAntennas * SlotSize() <= k < mean.Length ==> mean[k] == old(mean[k])
    {
      var count := numTxAntennas * SlotSize();
      var k := 0;
      while k < count
        invariant k <= count
        invariant forall i :: 0 <= i < k ==> mean[i] == Shift(old(mean[i]), log2NumAvgChirps)
        invariant forall i :: k <= i < mean.Length ==> mean[i] == old(mean[i])
      {
        mean[k] := Shift(mean[k], log2NumAvgChirps);
        k := k + 1;
      }
    }

    /** One antenna's band added into the mean entries from meanBase on. */
    method AccumulateBand(fftOut1D: array<Cplx>, meanBase: nat, fftBase: nat)
      requires Valid() && meanBase + BandWidth() <= mean.Length && fftBase + numRangeBins <= fftOut1D.Length
      requires fftOut1D != mean
      modifies mean
      ensures forall j :: 0 <= j < BandWidth() ==>
                mean[meanBase + j] == Add(old(mean[meanBase + j]), fftOut1D[fftBase + BandBin(j)])
      ensures forall k :: 0 <= k < mean.Length && !(meanBase <= k < meanBase + BandWidth()) ==> mean[k] == old(mean[k])
    {
      var ind := 0;
      var binIdx := 0;
      while binIdx <= positiveBinIdx
        invariant binIdx <= positiveBinIdx + 1 && ind == binIdx
        invariant forall j :: 0 <= j < ind ==> mean[meanBase + j] == Add(old(mean[meanBase + j]), fftOut1D[fftBase + BandBin(j)])
        invariant forall k :: 0 <= k < mean.Length && !(meanBase <= k < meanBase + ind) ==> mean[k] == old(mean[k])
      {
        mean[meanBase + ind] := Add(mean[meanBase + ind], fftOut1D[fftBase + binIdx]);
        ind := ind + 1;
        binIdx := binIdx + 1;
      }
      var negBase := fftBase + numRangeBins + negativeBinIdx;
      binIdx := 0;
      while binIdx < -negativeBinIdx
        invariant 0 <= binIdx <= -negativeBinIdx && ind == positiveBinIdx + 1 + binIdx
        invariant forall j :: 0 <= j < ind ==> mean[meanBase + j] == Add(old(mean[meanBase + j]), fftOut1D[fftBase + BandBin(j)])
        invariant forall k :: 0 <= k < mean.Length && !(meanBase <= k < meanBase + ind) ==> mean[k] == old(mean[k])
      {
        mean[meanBase + ind] := Add(mean[meanBase + ind], fftOut1D[negBase + binIdx]);
        ind := ind + 1;
        binIdx := binIdx + 1;
      }
    }

    /** One antenna's band with the mean entries from meanBase on subtracted. */
    method SubtractBand(fftOut1D: array<Cplx>, meanBase: nat, fftBase: nat)
      requires Valid() && meanBase + BandWidth() <= mean.Length && fftBase + numRangeBins <= fftOut1D.Length
      requires fftOut1D != mean
      modifies fftOut1D
      ensures forall j :: 0 <= j < BandWidth() ==>
                fftOut1D[fftBase + BandBin(j)] == Sub16(old(fftOut1D[fftBase + BandBin(j)]), mean[meanBase + j])
      ensures forall k :: (0 <= k < fftOut1D.Length && !(fftBase <= k <= fftBase + positiveBinIdx)
                           && !(fftBase + numRangeBins + negativeBinIdx <= k < fftBase + numRangeBins))
                ==> fftOut1D[k] == old(fftOut1D[k])
    {
      var ind := 0;
      var binIdx := 0;
      while binIdx <= positiveBinIdx
        invariant binIdx <= positiveBinIdx + 1 && ind == binIdx
        invariant forall j :: 0 <= j < ind ==>
                    fftOut1D[fftBase + BandBin(j)] == Sub16(old(fftOut1D[fftBase + BandBin(j)]), mean[meanBase + j])
        invariant forall k :: 0 <= k < fftOut1D.Length && !(fftBase <= k < fftBase + ind) ==> fftOut1D[k] == old(fftOut1D[k])
      {
        fftOut1D[fftBase + binIdx] := Sub16(fftOut1D[fftBase + binIdx], mean[meanBase + ind]);
        ind := ind + 1;
        binIdx := binIdx + 1;
      }
      var negBase := fftBase + numRangeBins + negativeBinIdx;
      binIdx := 0;
      while binIdx < -negativeBinIdx
        invariant 0 <= binIdx <= -negativeBinIdx && ind == positiveBinIdx + 1 + binIdx
        invariant forall j :: 0 <= j < ind ==>
                    fftOut1D[fftBase + BandBin(j)] == Sub16(old(fftOut1D[fftBase + BandBin(j)]), mean[meanBase + j])
        invariant forall k :: (0 <= k < fftOut1D.Length && !(fftBase <= k <= fftBase + positiveBinIdx)
                               && !(negBase <= k < negBase + binIdx))
                    ==> fftOut1D[k] == old(fftOut1D[k])
      {
        fftOut1D[negBase + binIdx] := Sub16(fftOut1D[negBase + binIdx], mean[meanBase + ind]);
        ind := ind + 1;
        binIdx := binIdx + 1;
      }
    }

    /** Range bin b of an antenna belongs to the band. */
    predicate InBand(b: nat)
    {
      b <= positiveBinIdx || numRangeBins + negativeBinIdx <= b
    }

    /** Distinct band entries name distinct range bins, so no bin is
        accumulated or compensated twice. */
    lemma BandBinInjective(j1: nat, j2: nat)
      requires Layout() && j1 < BandWidth() && j2 < BandWidth()
      ensures BandBin(j1) == BandBin(j2) ==> j1 == j2
    {
    }

    /** The band entries cover exactly the range bins of the band. */
    lemma {:induction false} BandBinCoversBand(b: nat)
      requires Layout() && b < numRangeBins
      ensures InBand(b) <==> exists j :: 0 <= j < BandWidth() && BandBin(j) == b
    {
      if InBand(b) {
        var j := if b <= positiveBinIdx then b else b - (numRangeBins + negativeBinIdx) + positiveBinIdx + 1;
        assert BandBin(j) == b;
      }
    }

    /** One antenna's share of the accumulation: its band entries are added
        into its row of the slot, and nothing else changes. */
    method AccumulateAntenna(fftOut1D: array<Cplx>, pp: nat, a: nat)
      requires Valid() && pp < 2 && a < numRxAntennas && FftFits(fftOut1D) && fftOut1D != mean
      modifies mean
      ensures forall j :: 0 <= j < BandWidth() ==>
                mean[MeanIndex(pp, a, j)] == Add(old(mean[MeanIndex(pp, a, j)]), fftOut1D[FftIndex(pp, a, BandBin(j))])
      ensures forall k :: 0 <= k < mean.Length && !(SlotBase(pp) + RowStart(a, BandWidth()) <= k < SlotBase(pp) + RowStart(a + 1, BandWidth()))
                ==> mean[k] == old(mean[k])
    {
      var w := BandWidth();
      var meanBase := MeanIndex(pp, a, 0);
      RowLayout(a, 0, w, numRxAntennas);
      RowStartIsProduct(numRxAntennas, w);
      assert meanBase + w == SlotBase(pp) + RowStart(a + 1, w) <= SlotBase(pp) + SlotSize() <= mean.Length;
      FftIndexLayout(pp, a, 0);
      var fftBase := ChirpBase(pp) + RowStart(a, numRangeBins);
      assert fftBase + numRangeBins <= fftOut1D.Length;
      AccumulateBand(fftOut1D, meanBase, fftBase);
      forall j | 0 <= j < BandWidth()
        ensures MeanIndex(pp, a, j) == meanBase + j
        ensures FftIndex(pp, a, BandBin(j)) == fftBase + BandBin(j)
      {
        FftIndexLayout(pp, a, BandBin(j));
      }
    }

    /** The accumulation step of a calibration chirp: each antenna's band is
        added into the slot of the chirp's parity; nothing outside that slot
        changes. */
    method Accumulate(fftOut1D: array<Cplx>, chirpPingPongId: nat)
      requires Valid() && chirpPingPongId < 2 && FftFits(fftOut1D) && fftOut1D != mean
      modifies mean
      ensures forall a, j :: 0 <= a < numRxAntennas && 0 <= j < BandWidth() ==>
                mean[MeanIndex(chirpPingPongId, a, j)]
                == Add(old(mean[MeanIndex(chirpPingPongId, a, j)]), fftOut1D[FftIndex(chirpPingPongId, a, BandBin(j))])
      ensures forall k :: 0 <= k < mean.Length && !(SlotBase(chirpPingPongId) <= k < SlotBase(chirpPingPongId) + SlotSize())
                ==> mean[k] == old(mean[k])
    {
      var pp := chirpPingPongId;
      var w := BandWidth();
      RowStartIsProduct(numRxAntennas, w);
      var rxAntIdx := 0;
      while rxAntIdx < numRxAntennas
        invariant rxAntIdx <= numRxAntennas
        invariant forall a, j :: 0 <= a < rxAntIdx && 0 <= j < w ==>
                    mean[MeanIndex(pp, a, j)] == Add(old(mean[MeanIndex(pp, a, j)]), fftOut1D[FftIndex(pp, a, BandBin(j))])
        invariant forall k :: 0 <= k < mean.Length && !(SlotBase(pp) <= k < SlotBase(pp) + RowStart(rxAntIdx, w))
                    ==> mean[k] == old(mean[k])
      {
        ghost var before := mean[..];
        AccumulateAntenna(fftOut1D, pp, rxAntIdx);
        forall a, j | 0 <= a < rxAntIdx && 0 <= j < w
          ensures mean[MeanIndex(pp, a, j)] == before[MeanIndex(pp, a, j)]
        {
          RowLayout(a, j, w, rxAntIdx);
        }
        rxAntIdx := rxAntIdx + 1;
      }
    }

    /** One antenna's share of the compensation: its band bins have the mean
        subtracted, its other bins and everything outside its row are kept. */
    method SubtractAntenna(fftOut1D: array<Cplx>, pp: nat, a: nat)
      requires Valid() && pp < 2 && a < numRxAntennas && FftFits(fftOut1D) && fftOut1D != mean
      modifies fftOut1D
      ensures forall j :: 0 <= j < BandWidth() ==>
                fftOut1D[FftIndex(pp, a, BandBin(j))] == Sub16(old(fftOut1D[FftIndex(pp, a, BandBin(j))]), mean[MeanIndex(pp, a, j)])
      ensures forall b :: 0 <= b < numRangeBins && !InBand(b) ==> fftOut1D[FftIndex(pp, a, b)] == old(fftOut1D[FftIndex(pp, a, b)])
      ensures forall k :: 0 <= k < fftOut1D.Length
                          && !(ChirpBase(pp) + RowStart(a, numRangeBins) <= k < ChirpBase(pp) + RowStart(a + 1, numRangeBins))
                ==> fftOut1D[k] == old(fftOut1D[k])
      ensures forall a', b :: 0 <= a' < a && 0 <= b < numRangeBins ==>
                fftOut1D[FftIndex(pp, a', b)] == old(fftOut1D[FftIndex(pp, a', b)])
    {
      var w := BandWidth();
      var meanBase := MeanIndex(pp, a, 0);
      RowLayout(a, 0, w, numRxAntennas);
      RowStartIsProduct(numRxAntennas, w);
      assert meanBase + w == SlotBase(pp) + RowStart(a + 1, w) <= SlotBase(pp) + SlotSize() <= mean.Length;
      FftIndexLayout(pp, a, 0);
      var fftBase := ChirpBase(pp) + RowStart(a, numRangeBins);
      assert fftBase + numRangeBins <= fftOut1D.Length;
      SubtractBand(fftOut1D, meanBase, fftBase);
      forall j | 0 <= j < w
        ensures MeanIndex(pp, a, j) == meanBase + j
        ensures FftIndex(pp, a, BandBin(j)) == fftBase + BandBin(j)
      {
        FftIndexLayout(pp, a, BandBin(j));
      }
      forall b | 0 <= b < numRangeBins
        ensures FftIndex(pp, a, b) == fftBase + b
      {
        FftIndexLayout(pp, a, b);
      }
      forall a', b | 0 <= a' < a && 0 <= b < numRangeBins
        ensures FftIndex(pp, a', b) < fftBase
      {
        FftIndexLayout(pp, a', b);
        RowLayout(a', b, numRangeBins, a);
      }
    }

    /** The compensation of a chirp after calibration: the band of every
        antenna has the mean of the chirp parity's slot subtracted; the other
        range bins keep their samples. */
    method Subtract(fftOut1D: array<Cplx>, chirpPingPongId: nat)
      requires Valid() && chirpPingPongId < 2 && FftFits(fftOut1D) && fftOut1D != mean
      modifies fftOut1D
      ensures forall a, j :: 0 <= a < numRxAntennas && 0 <= j < BandWidth() ==>
                fftOut1D[FftIndex(chirpPingPongId, a, BandBin(j))]
                == Sub16(old(fftOut1D[FftIndex(chirpPingPongId, a, BandBin(j))]), mean[MeanIndex(chirpPingPongId, a, j)])
      ensures forall a, b :: 0 <= a < numRxAntennas && 0 <= b < numRangeBins && !InBand(b) ==>
                fftOut1D[FftIndex(chirpPingPongId, a, b)] == old(fftOut1D[FftIndex(chirpPingPongId, a, b)])
      ensures forall k :: 0 <= k < fftOut1D.Length && !(ChirpBase(chirpPingPongId) <= k < ChirpBase(chirpPingPongId) + numRxAntennas * numRangeBins)
                ==> fftOut1D[k] == old(fftOut1D[k])
    {
      var pp := chirpPingPongId;
      var w := BandWidth();
      RowStartIsProduct(numRxAntennas, numRangeBins);
      var rxAntIdx := 0;
      while rxAntIdx < numRxAntennas
        invariant rxAntIdx <= numRxAntennas
        invariant forall a, j :: 0 <= a < rxAntIdx && 0 <= j < w ==>
                    fftOut1D[FftIndex(pp, a, BandBin(j))]
                    == Sub16(old(fftOut1D[FftIndex(pp, a, BandBin(j))]), mean[MeanIndex(pp, a, j)])
        invariant forall a, b :: 0 <= a < rxAntIdx && 0 <= b < numRangeBins && !InBand(b) ==>
                    fftOut1D[FftIndex(pp, a, b)] == old(fftOut1D[FftIndex(pp, a, b)])
        invariant forall k :: 0 <= k < fftOut1D.Length && !(ChirpBase(pp) <= k < ChirpBase(pp) + RowStart(rxAntIdx, numRangeBins))
                    ==> fftOut1D[k] == old(fftOut1D[k])
      {
        forall b | 0 <= b < numRangeBins
          ensures fftOut1D[FftIndex(pp, rxAntIdx, b)] == old(fftOut1D[FftIndex(pp, rxAntIdx, b)])
        {
          FftIndexLayout(pp, rxAntIdx, b);
        }
        SubtractAntenna(fftOut1D, pp, rxAntIdx);
        rxAntIdx := rxAntIdx + 1;
      }
    }

    /** The mean entry k after the zeroing that precedes a chirp's step. */
    function ClearedAt(v: Cplx, k: nat, cntr: nat): Cplx
      requires negativeBinIdx <= 0
    {
      if cntr == 0 && k < numTxAntennas * SlotSize() then Zero else v
    }

    /** The mean entry k after the division that follows a chirp's step. */
    function AveragedAt(v: Cplx, k: nat, cntrAfter: nat): Cplx
      requires negativeBinIdx <= 0
    {
      if cntrAfter == Threshold() && k < numTxAntennas * SlotSize() then Shift(v, log2NumAvgChirps) else v
    }

    /** The calibration branch: the chirp's band is added into the slot of
        its parity, the counter advances, and the step that reaches the
        threshold divides the mean. The chirp itself is not changed. */
    method CalibrateChirp(fftOut1D: array<Cplx>, chirpPingPongId: nat)
      requires Valid() && chirpPingPongId < 2 && FftFits(fftOut1D) && fftOut1D != mean
      requires calibCntr < Threshold()
      modifies this, mean
      ensures Valid() && calibCntr == old(calibCntr) + 1
      ensures forall a, j :: 0 <= a < numRxAntennas && 0 <= j < BandWidth() ==>
                var k := MeanIndex(chirpPingPongId, a, j);
                mean[k] == AveragedAt(Add(old(mean[k]), fftOut1D[FftIndex(chirpPingPongId, a, BandBin(j))]), k, calibCntr)
      ensures forall k :: 0 <= k < mean.Length && !(SlotBase(chirpPingPongId) <= k < SlotBase(chirpPingPongId) + SlotSize()) ==>
                mean[k] == AveragedAt(old(mean[k]), k, calibCntr)
    {
      Accumulate(fftOut1D, chirpPingPongId);
      ghost var summed := mean[..];
      calibCntr := calibCntr + 1;
      if calibCntr == Threshold() {
        DivideMean();
      }
      assert forall k :: 0 <= k < mean.Length ==> mean[k] == AveragedAt(summed[k], k, calibCntr);
    }

    /** OdsDemo_dcRangeSignatureCompensation for one chirp of parity
        chirpPingPongId. The mean is zeroed when the counter is 0. While the
        counter is below numAvgChirps * numTxAntennas the chirp's band is added
        into the parity's slot, the chirp is left as it is and the counter
        advances; the step that reaches the threshold divides the mean. From
        then on the counter stays put and every chirp has the mean subtracted
        from its band. */
    method Compensate(fftOut1D: array<Cplx>, chirpPingPongId: nat)
      requires Valid() && chirpPingPongId < 2 && FftFits(fftOut1D) && fftOut1D != mean
      modifies this, mean, fftOut1D
      ensures Valid()
      ensures old(calibCntr) < Threshold() ==> calibCntr == old(calibCntr) + 1
      ensures old(calibCntr) >= Threshold() ==> calibCntr == old(calibCntr)
      ensures old(calibCntr) < Threshold() ==> fftOut1D[..] == old(fftOut1D[..])
      ensures old(calibCntr) < Threshold() ==>
                forall a, j :: 0 <= a < numRxAntennas && 0 <= j < BandWidth() ==>
                  var k := MeanIndex(chirpPingPongId, a, j);
                  mean[k] == AveragedAt(Add(ClearedAt(old(mean[k]), k, old(calibCntr)),
                                            fftOut1D[FftIndex(chirpPingPongId, a, BandBin(j))]), k, calibCntr)
      ensures old(calibCntr) < Threshold() ==>
                forall k :: 0 <= k < mean.Length && !(SlotBase(chirpPingPongId) <= k < SlotBase(chirpPingPongId) + SlotSize()) ==>
                  mean[k] == AveragedAt(ClearedAt(old(mean[k]), k, old(calibCntr)), k, calibCntr)
      ensures old(calibCntr) >= Threshold() ==>
                forall k :: 0 <= k < mean.Length ==> mean[k] == ClearedAt(old(mean[k]), k, old(calibCntr))
      ensures old(calibCntr) >= Threshold() ==>
                forall a, j :: 0 <= a < numRxAntennas && 0 <= j < BandWidth() ==>
                  fftOut1D[FftIndex(chirpPingPongId, a, BandBin(j))]
                  == Sub16(old(fftOut1D[FftIndex(chirpPingPongId, a, BandBin(j))]), mean[MeanIndex(chirpPingPongId, a, j)])
      ensures old(calibCntr) >= Threshold() ==>
                forall a, b :: 0 <= a < numRxAntennas && 0 <= b < numRangeBins && !InBand(b) ==>
                  fftOut1D[FftIndex(chirpPingPongId, a, b)] == old(fftOut1D[FftIndex(chirpPingPongId, a, b)])
      ensures old(calibCntr) >= Threshold() ==>
                forall k :: 0 <= k < fftOut1D.Length
                            && !(ChirpBase(chirpPingPongId) <= k < ChirpBase(chirpPingPongId) + numRxAntennas * numRangeBins)
                  ==> fftOut1D[k] == old(fftOut1D[k])
    {
      ghost var cntr0 := calibCntr;
      ghost var mean0 := mean[..];
      if calibCntr == 0 {
        ClearMean();
      }
      assert forall k :: 0 <= k < mean.Length ==> mean[k] == ClearedAt(mean0[k], k, cntr0);
      if calibCntr < Threshold() {
        CalibrateChirp(fftOut1D, chirpPingPongId);
      } else {
        Subtract(fftOut1D, chirpPingPongId);
      }
    }
  }
}
