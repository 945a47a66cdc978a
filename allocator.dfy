/** The static overlay allocator of the data path buffers.

    Every buffer is carved out of one of three static arenas (L1, L2, L3) by an
    aligned bump allocation: its address is the start it is given rounded up
    to its alignment, and it ends `count * sizeof(element)` bytes later.
    Buffers used in the same processing phase are chained (each starts at the
    end of its predecessor), while buffers of different phases restart from
    the same point and so share memory. After each arena the footprint (the
    furthest end, less the arena start) is asserted to fit the arena. */
module Allocator {
  import opened Common

  /** 2^32: addresses are uint32_t. */
  const Word32: nat := 0x1_0000_0000

  lemma Word32IsPow2()
    ensures Word32 == Pow2(32)
  {
    assert Pow2(8) == 0x100;
    Pow2Add(8, 8);
    Pow2Add(16, 16);
  }

  /** Bitwise AND of two non-negative integers. */
  function And(x: nat, y: nat): (r: nat)
    ensures r <= x
    decreases x
  {
    if x == 0 || y == 0 then 0
    else 2 * And(x / 2, y / 2) + (if x % 2 == 1 && y % 2 == 1 then 1 else 0)
  }

  /** The k low bits of x as a number (x & (2^k - 1)). */
  function LowBits(x: nat, k: nat): (r: nat)
    ensures r < Pow2(k) && r <= x
  {
    if k == 0 then 0 else 2 * LowBits(x / 2, k - 1) + x % 2
  }

  /** x >> k */
  function HighBits(x: nat, k: nat): nat
  {
    if k == 0 then x else HighBits(x / 2, k - 1)
  }

  /** Shifting out and back the k low bits loses exactly those bits. */
  lemma {:induction false} SplitBits(x: nat, k: nat)
    ensures x == HighBits(x, k) * Pow2(k) + LowBits(x, k)
  {
    if k > 0 {
      SplitBits(x / 2, k - 1);
      var h := HighBits(x / 2, k - 1);
      assert h * Pow2(k) == 2 * (h * Pow2(k - 1));
    }
  }

  /** x is a multiple of 2^k: its k low bits are zero. */
  predicate AlignedTo(x: nat, k: nat)
  {
    LowBits(x, k) == 0
  }

  /** Clearing the k low bits leaves a number aligned to 2^k. */
  lemma {:induction false} ClearLowBitsAligned(x: nat, k: nat)
    ensures AlignedTo(x - LowBits(x, k), k)
  {
    if k > 0 {
      var l := LowBits(x / 2, k - 1);
      ClearLowBitsAligned(x / 2, k - 1);
      assert (x - LowBits(x, k)) / 2 == x / 2 - l;
    }
  }

  /** A mask whose bits k..n-1 are set (m + 2^k == 2^n) clears the k low bits
      of every number below 2^n. */
  lemma {:induction false} AndClearsLowBits(x: nat, n: nat, k: nat, m: nat)
    requires k <= n && m + Pow2(k) == Pow2(n) && x < Pow2(n)
    ensures And(x, m) == x - LowBits(x, k)
  {
    if x == 0 || m == 0 {
      if m == 0 && x > 0 {
        if k < n {
          Pow2Monotone(k + 1, n);
        }
        LowBitsBelow(x, k);
      }
    } else if k == 0 {
      assert m % 2 == 1 && m / 2 + 1 == Pow2(n - 1);
      AndClearsLowBits(x / 2, n - 1, 0, m / 2);
    } else {
      assert n > k;
      assert m % 2 == 0 && m / 2 + Pow2(k - 1) == Pow2(n - 1);
      AndClearsLowBits(x / 2, n - 1, k - 1, m / 2);
    }
  }

  /** A number below 2^k is its own k low bits. */
  lemma {:induction false} LowBitsBelow(x: nat, k: nat)
    requires x < Pow2(k)
    ensures LowBits(x, k) == x
  {
    if k > 0 {
      LowBitsBelow(x / 2, k - 1);
    }
  }

  /** ALIGN(x, 2^k): the smallest multiple of 2^k that is at least x, computed
      as (x + 2^k - 1) with its k low bits cleared. */
  function AlignUp(x: nat, k: nat): (r: nat)
    ensures AlignedTo(r, k) && x <= r < x + Pow2(k)
  {
    var y := x + Pow2(k) - 1;
    ClearLowBitsAligned(y, k);
    y - LowBits(y, k)
  }

  /** No aligned number lies in [x, AlignUp(x, k)). */
  lemma {:induction false} AlignUpIsSmallest(x: nat, k: nat, z: nat)
    requires AlignedTo(z, k) && x <= z
    ensures AlignUp(x, k) <= z
  {
    var r := AlignUp(x, k);
    var p := Pow2(k);
    SplitBits(z, k);
    SplitBits(r, k);
    var hz := HighBits(z, k);
    var hr := HighBits(r, k);
    assert z == hz * p && r == hr * p;
    if hz < hr {
      MulStep(hz, hr, p);
      assert false;
    } else {
      MulMonotone(hr, hz, p);
    }
  }

  lemma MulMonotone(a: nat, b: nat, p: nat)
    requires a <= b
    ensures a * p <= b * p
  {
    assert b * p == a * p + (b - a) * p;
  }

  lemma MulStep(a: nat, b: nat, p: nat)
    requires a < b
    ensures a * p + p <= b * p
  {
    assert b * p == a * p + p + (b - a - 1) * p;
  }

  lemma ModBelow(y: nat, m: nat)
    requires y < m
    ensures y % m == y
  {
    assert y / m == 0;
  }

  /** ALIGN(x, a) as the C computes it on uint32_t: (x + a - 1) & ~(a - 1). */
  function AlignMask(x: nat, a: nat): nat
    requires 1 <= a <= Word32
  {
    And((x + a - 1) % Word32, Word32 - a)
  }

  /** For a power-of-two alignment and no wrap-around, the C expression is
      the rounding up of AlignUp. */
  lemma {:induction false} AlignMaskRoundsUp(x: nat, k: nat)
    requires k <= 32 && x + Pow2(k) - 1 < Word32
    ensures Pow2(k) <= Word32
    ensures AlignMask(x, Pow2(k)) == AlignUp(x, k)
  {
    Word32IsPow2();
    Pow2Monotone(k, 32);
    var y := x + Pow2(k) - 1;
    ModBelow(y, Word32);
    AndClearsLowBits(y, 32, k, Word32 - Pow2(k));
  }

  /** A buffer: the bytes [addr, end). */
  datatype Buf = Buf(addr: nat, end: nat)
  {
    predicate Within(lo: nat, hi: nat)
    {
      lo <= addr <= end <= hi
    }
  }

  /** b comes after a without overlap. */
  predicate Precedes(a: Buf, b: Buf)
  {
    a.end <= b.addr
  }

  /** MMW_ALLOC_BUF: count elements of elemSize bytes at the first address
      from start on with the given alignment. */
  function AllocBuf(start: nat, alignLog2: nat, count: nat, elemSize: nat): (b: Buf)
    ensures start <= b.addr < start + Pow2(alignLog2) && AlignedTo(b.addr, alignLog2)
    ensures b.addr <= b.end && b.end - b.addr == count * elemSize
  {
    var addr := AlignUp(start, alignLog2);
    Buf(addr, addr + count * elemSize)
  }

  function Max(a: nat, b: nat): (m: nat)
    ensures m >= a && m >= b && (m == a || m == b)
  {
    if a >= b then a else b
  }

  /** The constants of the build: alignments (as powers of two), structure
      sizes, buffer capacities and arena sizes. */
  datatype Platform = Platform(
    doubleWordAlignLog2: nat, maxStructAlignLog2: nat,
    objRawSize: nat, detectedObjSize: nat,
    maxDetObjectsRaw: nat, maxObjOut: nat,
    maxTxAntennas: nat, maxRxAntennas: nat, dcMaxBinSize: nat,
    l1HeapSize: nat, l2HeapSize: nat, l3HeapSize: nat)
  {
    /** The entries of the DC calibration mean: a band of dcMaxBinSize bins
        for every transmit and receive antenna the device can have. */
    function DcMeanEntries(): nat
    {
      maxTxAntennas * maxRxAntennas * dcMaxBinSize
    }
  }

  /** The dimensions of the configured frame that size the buffers. */
  datatype Dims = Dims(
    numRangeBins: nat, numDopplerBins: nat, numRxAntennas: nat, numTxAntennas: nat,
    numAngleBins: nat, numVirtualAntAzim: nat, numAdcSamples: nat, bpmEnabled: bool)
  {
    /** One range bin of every virtual antenna: the samples of one chirp set. */
    function VirtualRangeBins(): nat
    {
      numRangeBins * numRxAntennas * numTxAntennas
    }

    /** The radar cube: every Doppler bin of every virtual antenna's range bins. */
    function CubeSamples(): nat
    {
      numRangeBins * numDopplerBins * numRxAntennas * numTxAntennas
    }

    /** The detection matrix: one cell per range and Doppler bin. */
    function MatrixCells(): nat
    {
      numRangeBins * numDopplerBins
    }

    /** The 2D FFT output of one range bin: twice the Doppler bins with BPM,
        where both decoded transmitters are kept. */
    function Fft2DSamples(): nat
    {
      if bpmEnabled then 2 * numDopplerBins else numDopplerBins
    }

    /** The 1D FFT output: a ping and a pong chirp of every receive antenna. */
    function Fft1DSamples(): nat
    {
      2 * numRxAntennas * numRangeBins
    }
  }

  /** Element sizes of the sample types. */
  const Cplx16Size: nat := 4
  const Cplx32Size: nat := 8
  const Uint16Size: nat := 2
  const FloatSize: nat := 4

  datatype L1Layout = L1Layout(
    adcDataIn: Buf, dstPingPong: Buf, fftOut2D: Buf, windowingBuf2D: Buf, log2Abs: Buf,
    sumAbs: Buf, detObj2DRaw: Buf, azimuthIn: Buf, azimuthOut: Buf, azimuthMagSqr: Buf)
  {
    predicate Within(lo: nat, hi: nat)
    {
      && adcDataIn.Within(lo, hi) && dstPingPong.Within(lo, hi) && fftOut2D.Within(lo, hi)
      && windowingBuf2D.Within(lo, hi) && log2Abs.Within(lo, hi) && sumAbs.Within(lo, hi)
      && detObj2DRaw.Within(lo, hi) && azimuthIn.Within(lo, hi) && azimuthOut.Within(lo, hi)
      && azimuthMagSqr.Within(lo, hi)
    }

    /** Every buffer as MMW_ALLOC_BUF places it in the L1 arena at base, from
        the end of the buffer it follows. */
    predicate Allocated(p: Platform, d: Dims, base: nat)
    {
      && adcDataIn == AllocBuf(base, p.doubleWordAlignLog2, 2 * d.numRangeBins, Cplx16Size)
      && dstPingPong == AllocBuf(base, p.doubleWordAlignLog2, 2 * d.numDopplerBins, Cplx16Size)
      && fftOut2D == AllocBuf(dstPingPong.end, p.doubleWordAlignLog2, d.Fft2DSamples(), Cplx32Size)
      && windowingBuf2D == AllocBuf(fftOut2D.end, p.doubleWordAlignLog2, d.numDopplerBins, Cplx32Size)
      && log2Abs == AllocBuf(fftOut2D.end, p.doubleWordAlignLog2, d.numDopplerBins, Uint16Size)
      && sumAbs == AllocBuf(Max(log2Abs.end, windowingBuf2D.end), p.doubleWordAlignLog2,
                               2 * d.numDopplerBins, Uint16Size)
      && detObj2DRaw == AllocBuf(base, p.maxStructAlignLog2, p.maxDetObjectsRaw, p.objRawSize)
      && azimuthIn == AllocBuf(dstPingPong.end, p.doubleWordAlignLog2,
                                  d.numAngleBins + d.numVirtualAntAzim, Cplx32Size)
      && azimuthOut == AllocBuf(azimuthIn.end, p.doubleWordAlignLog2, 2 * d.numAngleBins, Cplx32Size)
      && azimuthMagSqr == AllocBuf(azimuthOut.end, 2, d.numAngleBins * 2, FloatSize)
    }
  }

  /** The L1 part of OdsDemo_dataPathConfigBuffers (single-point DFT build,
      overlays on). The 1D input, the 2D chain, the CFAR list and the 3D
      chain all restart at the arena start. Within the 2D phase the ping/pong
      input, the 2D FFT output (twice as long with BPM), the window and log2
      buffers (which share memory) and the sum follow each other; within the
      3D phase the azimuth buffers follow each other after the ping/pong
      input. heapUsed reaches exactly to the furthest end. */
  method ConfigL1(p: Platform, d: Dims, base: nat) returns (l: L1Layout, heapUsed: nat)
    ensures l.Within(base, base + heapUsed)
    ensures base + heapUsed == l.sumAbs.end || base + heapUsed == l.adcDataIn.end
            || base + heapUsed == l.azimuthMagSqr.end || base + heapUsed == l.detObj2DRaw.end
    ensures l.adcDataIn.end - l.adcDataIn.addr == 2 * d.numRangeBins * Cplx16Size
    ensures l.dstPingPong.end - l.dstPingPong.addr == 2 * d.numDopplerBins * Cplx16Size
    ensures l.fftOut2D.end - l.fftOut2D.addr == d.Fft2DSamples() * Cplx32Size
    ensures l.detObj2DRaw.end - l.detObj2DRaw.addr == p.maxDetObjectsRaw * p.objRawSize
    ensures l.azimuthIn.end - l.azimuthIn.addr == (d.numAngleBins + d.numVirtualAntAzim) * Cplx32Size
    ensures l.azimuthOut.end - l.azimuthOut.addr == 2 * d.numAngleBins * Cplx32Size
    ensures l.azimuthMagSqr.end - l.azimuthMagSqr.addr == d.numAngleBins * 2 * FloatSize
    ensures Precedes(l.dstPingPong, l.fftOut2D) && Precedes(l.fftOut2D, l.windowingBuf2D)
    ensures Precedes(l.fftOut2D, l.log2Abs)
    ensures Precedes(l.windowingBuf2D, l.sumAbs) && Precedes(l.log2Abs, l.sumAbs)
    ensures Precedes(l.dstPingPong, l.azimuthIn) && Precedes(l.azimuthIn, l.azimuthOut)
    ensures Precedes(l.azimuthOut, l.azimuthMagSqr)
    ensures AlignedTo(l.dstPingPong.addr, p.doubleWordAlignLog2) && AlignedTo(l.fftOut2D.addr, p.doubleWordAlignLog2)
    ensures AlignedTo(l.detObj2DRaw.addr, p.maxStructAlignLog2) && AlignedTo(l.azimuthMagSqr.addr, 2)
    // the overlays: the 1D input, the 2D ping/pong input and the CFAR list all restart at the arena start
    ensures l.adcDataIn.addr == l.dstPingPong.addr == AlignUp(base, p.doubleWordAlignLog2)
    ensures l.detObj2DRaw.addr == AlignUp(base, p.maxStructAlignLog2)
    ensures l.Allocated(p, d, base)
  {
    var dw := p.doubleWordAlignLog2;
    var adcDataIn := AllocBuf(base, dw, 2 * d.numRangeBins, Cplx16Size);
    var dstPingPong := AllocBuf(base, dw, 2 * d.numDopplerBins, Cplx16Size);
    var fftOut2D := AllocBuf(dstPingPong.end, dw, d.Fft2DSamples(), Cplx32Size);
    var windowingBuf2D := AllocBuf(fftOut2D.end, dw, d.numDopplerBins, Cplx32Size);
    var log2Abs := AllocBuf(fftOut2D.end, dw, d.numDopplerBins, Uint16Size);
    var sumAbs := AllocBuf(Max(log2Abs.end, windowingBuf2D.end), dw, 2 * d.numDopplerBins, Uint16Size);
    var detObj2DRaw := AllocBuf(base, p.maxStructAlignLog2, p.maxDetObjectsRaw, p.objRawSize);
    var azimuthIn := AllocBuf(dstPingPong.end, dw, d.numAngleBins + d.numVirtualAntAzim, Cplx32Size);
    var azimuthOut := AllocBuf(azimuthIn.end, dw, 2 * d.numAngleBins, Cplx32Size);
    var azimuthMagSqr := AllocBuf(azimuthOut.end, 2, d.numAngleBins * 2, FloatSize);
    l := L1Layout(adcDataIn, dstPingPong, fftOut2D, windowingBuf2D, log2Abs, sumAbs,
                  detObj2DRaw, azimuthIn, azimuthOut, azimuthMagSqr);
    var hi := Max(Max(Max(sumAbs.end, adcDataIn.end), azimuthMagSqr.end), detObj2DRaw.end);
    L1Within(l, p, d, base, hi);
    heapUsed := hi - base;
    L1Sizes(l, p, d, base);
    L1Chains(l, p, d, base);
    L1Alignment(l, p, d, base);
  }

  lemma L1Sizes(l: L1Layout, p: Platform, d: Dims, base: nat)
    requires l.Allocated(p, d, base)
    ensures l.adcDataIn.end - l.adcDataIn.addr == 2 * d.numRangeBins * Cplx16Size
    ensures l.dstPingPong.end - l.dstPingPong.addr == 2 * d.numDopplerBins * Cplx16Size
    ensures l.fftOut2D.end - l.fftOut2D.addr == d.Fft2DSamples() * Cplx32Size
    ensures l.detObj2DRaw.end - l.detObj2DRaw.addr == p.maxDetObjectsRaw * p.objRawSize
    ensures l.azimuthIn.end - l.azimuthIn.addr == (d.numAngleBins + d.numVirtualAntAzim) * Cplx32Size
    ensures l.azimuthOut.end - l.azimuthOut.addr == 2 * d.numAngleBins * Cplx32Size
    ensures l.azimuthMagSqr.end - l.azimuthMagSqr.addr == d.numAngleBins * 2 * FloatSize
  {
  }

  lemma L1Chains(l: L1Layout, p: Platform, d: Dims, base: nat)
    requires l.Allocated(p, d, base)
    ensures Precedes(l.dstPingPong, l.fftOut2D) && Precedes(l.fftOut2D, l.windowingBuf2D)
    ensures Precedes(l.fftOut2D, l.log2Abs)
    ensures Precedes(l.windowingBuf2D, l.sumAbs) && Precedes(l.log2Abs, l.sumAbs)
    ensures Precedes(l.dstPingPong, l.azimuthIn) && Precedes(l.azimuthIn, l.azimuthOut)
    ensures Precedes(l.azimuthOut, l.azimuthMagSqr)
  {
  }

  lemma L1Alignment(l: L1Layout, p: Platform, d: Dims, base: nat)
    requires l.Allocated(p, d, base)
    ensures AlignedTo(l.dstPingPong.addr, p.doubleWordAlignLog2) && AlignedTo(l.fftOut2D.addr, p.doubleWordAlignLog2)
    ensures AlignedTo(l.detObj2DRaw.addr, p.maxStructAlignLog2) && AlignedTo(l.azimuthMagSqr.addr, 2)
    ensures l.adcDataIn.addr == l.dstPingPong.addr == AlignUp(base, p.doubleWordAlignLog2)
    ensures l.detObj2DRaw.addr == AlignUp(base, p.maxStructAlignLog2)
  {
  }

  lemma L1Within(l: L1Layout, p: Platform, d: Dims, base: nat, hi: nat)
    requires l.Allocated(p, d, base)
    requires hi == Max(Max(Max(l.sumAbs.end, l.adcDataIn.end), l.azimuthMagSqr.end), l.detObj2DRaw.end)
    ensures base <= hi && l.Within(base, hi)
    ensures hi == l.sumAbs.end || hi == l.adcDataIn.end || hi == l.azimuthMagSqr.end || hi == l.detObj2DRaw.end
  {
    L1Chains(l, p, d, base);
  }

  datatype L2Layout = L2Layout(
    fftOut1D: Buf, cfarDetObjIndexBuf: Buf, dopplerLineMask: Buf, dopplerLineMaskLen: nat,
    sumAbsRange: Buf, twiddle16x16_1D: Buf, window1D: Buf, twiddle32x32_2D: Buf, window2D: Buf,
    detObj2D: Buf, detObj2dAzimIdx: Buf, azimuthTwiddle32x32: Buf, azimuthModCoefs: Buf,
    dcRangeSigMean: Buf)
  {
    predicate Within(lo: nat, hi: nat)
    {
      && fftOut1D.Within(lo, hi) && cfarDetObjIndexBuf.Within(lo, hi) && dopplerLineMask.Within(lo, hi)
      && sumAbsRange.Within(lo, hi) && twiddle16x16_1D.Within(lo, hi) && window1D.Within(lo, hi)
      && twiddle32x32_2D.Within(lo, hi) && window2D.Within(lo, hi) && detObj2D.Within(lo, hi)
      && detObj2dAzimIdx.Within(lo, hi) && azimuthTwiddle32x32.Within(lo, hi)
      && azimuthModCoefs.Within(lo, hi) && dcRangeSigMean.Within(lo, hi)
    }

    /** Every buffer as MMW_ALLOC_BUF places it in the L2 arena at base, from
        the end of the buffer it follows. */
    predicate Allocated(p: Platform, d: Dims, base: nat)
    {
      && fftOut1D == AllocBuf(base, p.doubleWordAlignLog2, d.Fft1DSamples(), Cplx16Size)
      && cfarDetObjIndexBuf == AllocBuf(base, 1, Max(d.numRangeBins, d.numDopplerBins), Uint16Size)
      && dopplerLineMask == AllocBuf(cfarDetObjIndexBuf.end, p.maxStructAlignLog2, dopplerLineMaskLen, 4)
      && sumAbsRange == AllocBuf(dopplerLineMask.end, 1, 2 * d.numRangeBins, Uint16Size)
      && twiddle16x16_1D == AllocBuf(Max(fftOut1D.end, sumAbsRange.end), p.doubleWordAlignLog2,
                                        d.numRangeBins, Cplx16Size)
      && window1D == AllocBuf(twiddle16x16_1D.end, p.doubleWordAlignLog2, d.numAdcSamples / 2, 2)
      && twiddle32x32_2D == AllocBuf(window1D.end, p.doubleWordAlignLog2, d.numDopplerBins, Cplx32Size)
      && window2D == AllocBuf(twiddle32x32_2D.end, p.doubleWordAlignLog2, d.numDopplerBins / 2, 4)
      && detObj2D == AllocBuf(window2D.end, p.maxStructAlignLog2, p.maxObjOut, p.detectedObjSize)
      && detObj2dAzimIdx == AllocBuf(detObj2D.end, p.maxStructAlignLog2, p.maxObjOut, 1)
      && azimuthTwiddle32x32 == AllocBuf(detObj2dAzimIdx.end, p.doubleWordAlignLog2, d.numAngleBins, Cplx32Size)
      && azimuthModCoefs == AllocBuf(azimuthTwiddle32x32.end, p.doubleWordAlignLog2, d.numDopplerBins, Cplx16Size)
      && dcRangeSigMean == AllocBuf(azimuthModCoefs.end, p.doubleWordAlignLog2, p.DcMeanEntries(), Cplx32Size)
    }

    /** The buffers kept for the whole frame, in the order they follow each other. */
    predicate PermanentChain()
    {
      && Precedes(twiddle16x16_1D, window1D) && Precedes(window1D, twiddle32x32_2D)
      && Precedes(twiddle32x32_2D, window2D) && Precedes(window2D, detObj2D)
      && Precedes(detObj2D, detObj2dAzimIdx) && Precedes(detObj2dAzimIdx, azimuthTwiddle32x32)
      && Precedes(azimuthTwiddle32x32, azimuthModCoefs) && Precedes(azimuthModCoefs, dcRangeSigMean)
    }
  }

  /** The Doppler-line mask has one 32-bit word per 32 Doppler bins, and at
      least one word. */
  function MaskWords(numDopplerBins: nat): (w: nat)
    ensures w >= 1
  {
    Max(numDopplerBins / 32, 1)
  }

  /** With a power-of-two number of Doppler bins the mask has a bit for every bin. */
  lemma {:induction false} MaskWordsCoverDopplerBins(numDopplerBins: nat, k: nat)
    requires numDopplerBins == Pow2(k)
    ensures numDopplerBins <= 32 * MaskWords(numDopplerBins)
  {
    if k >= 5 {
      Pow2Add(5, k - 5);
      assert Pow2(5) == 32;
      assert numDopplerBins / 32 == Pow2(k - 5);
    } else {
      Pow2Monotone(k, 4);
      assert Pow2(4) == 16;
    }
  }

  /** The L2 part: the 1D output overlays the CFAR index buffer, the
      Doppler-line mask and the range sums (which follow each other); the
      tables and result buffers that live for the whole frame come after
      both, one after another, ending with the DC calibration mean of
      maxTx * maxRx * maxBin entries. The footprint ends with it. */
  method ConfigL2(p: Platform, d: Dims, base: nat) returns (l: L2Layout, heapUsed: nat)
    ensures l.Within(base, base + heapUsed)
    ensures base + heapUsed == l.dcRangeSigMean.end
    ensures l.fftOut1D.end - l.fftOut1D.addr == d.Fft1DSamples() * Cplx16Size
    ensures l.dopplerLineMaskLen == MaskWords(d.numDopplerBins)
    ensures l.dopplerLineMask.end - l.dopplerLineMask.addr == l.dopplerLineMaskLen * 4
    ensures l.dcRangeSigMean.end - l.dcRangeSigMean.addr == p.DcMeanEntries() * Cplx32Size
    ensures Precedes(l.cfarDetObjIndexBuf, l.dopplerLineMask) && Precedes(l.dopplerLineMask, l.sumAbsRange)
    ensures Precedes(l.fftOut1D, l.twiddle16x16_1D) && Precedes(l.sumAbsRange, l.twiddle16x16_1D)
    ensures l.PermanentChain()
    ensures AlignedTo(l.dopplerLineMask.addr, p.maxStructAlignLog2) && AlignedTo(l.dcRangeSigMean.addr, p.doubleWordAlignLog2)
    // the overlay: the 1D output and the CFAR index buffer share the arena start
    ensures l.fftOut1D.addr == AlignUp(base, p.doubleWordAlignLog2) && l.cfarDetObjIndexBuf.addr == AlignUp(base, 1)
    ensures l.Allocated(p, d, base)
  {
    var dw := p.doubleWordAlignLog2;
    var fftOut1D := AllocBuf(base, dw, d.Fft1DSamples(), Cplx16Size);
    var cfarDetObjIndexBuf := AllocBuf(base, 1, Max(d.numRangeBins, d.numDopplerBins), Uint16Size);
    var maskLen := MaskWords(d.numDopplerBins);
    var dopplerLineMask := AllocBuf(cfarDetObjIndexBuf.end, p.maxStructAlignLog2, maskLen, 4);
    var sumAbsRange := AllocBuf(dopplerLineMask.end, 1, 2 * d.numRangeBins, Uint16Size);
    var twiddle16x16_1D := AllocBuf(Max(fftOut1D.end, sumAbsRange.end), dw, d.numRangeBins, Cplx16Size);
    var window1D := AllocBuf(twiddle16x16_1D.end, dw, d.numAdcSamples / 2, 2);
    var twiddle32x32_2D := AllocBuf(window1D.end, dw, d.numDopplerBins, Cplx32Size);
    var window2D := AllocBuf(twiddle32x32_2D.end, dw, d.numDopplerBins / 2, 4);
    var detObj2D := AllocBuf(window2D.end, p.maxStructAlignLog2, p.maxObjOut, p.detectedObjSize);
    var detObj2dAzimIdx := AllocBuf(detObj2D.end, p.maxStructAlignLog2, p.maxObjOut, 1);
    var azimuthTwiddle32x32 := AllocBuf(detObj2dAzimIdx.end, dw, d.numAngleBins, Cplx32Size);
    var azimuthModCoefs := AllocBuf(azimuthTwiddle32x32.end, dw, d.numDopplerBins, Cplx16Size);
    var dcRangeSigMean := AllocBuf(azimuthModCoefs.end, dw, p.DcMeanEntries(), Cplx32Size);
    l := L2Layout(fftOut1D, cfarDetObjIndexBuf, dopplerLineMask, maskLen, sumAbsRange, twiddle16x16_1D,
                  window1D, twiddle32x32_2D, window2D, detObj2D, detObj2dAzimIdx, azimuthTwiddle32x32,
                  azimuthModCoefs, dcRangeSigMean);
    heapUsed := dcRangeSigMean.end - base;
  }

  /** The L3 layout; adcDataBuf is an address only, since an external ADC
      buffer may replace the one in the arena. */
  datatype L3Layout = L3Layout(adcDataBuf: nat, radarCube: Buf, azimuthStaticHeatMap: Buf, detMatrix: Buf)

  /** The L3 part: the ADC buffer (unless an external one is given, the
      address 0 standing for none, in which case the cube starts at the arena
      start), then the radar cube, the static azimuth heat map and the
      detection matrix one after another. */
  method ConfigL3(p: Platform, d: Dims, base: nat, adcBufAddress: nat) returns (l: L3Layout, heapUsed: nat)
    ensures base + heapUsed == l.detMatrix.end
    ensures l.radarCube.Within(base, base + heapUsed) && l.azimuthStaticHeatMap.Within(base, base + heapUsed)
    ensures l.detMatrix.Within(base, base + heapUsed)
    ensures adcBufAddress != 0 ==> l.adcDataBuf == adcBufAddress && l.radarCube.addr < base + Pow2(p.doubleWordAlignLog2)
    ensures adcBufAddress == 0 ==>
              var adc := Buf(l.adcDataBuf, l.adcDataBuf + d.VirtualRangeBins() * Cplx16Size);
              adc.Within(base, base + heapUsed) && Precedes(adc, l.radarCube)
    ensures l.radarCube.end - l.radarCube.addr
            == d.CubeSamples() * Cplx16Size
    ensures l.detMatrix.end - l.detMatrix.addr == d.MatrixCells() * Uint16Size
    ensures Precedes(l.radarCube, l.azimuthStaticHeatMap) && Precedes(l.azimuthStaticHeatMap, l.detMatrix)
  {
    var dw := p.doubleWordAlignLog2;
    var adc := AllocBuf(base, dw, d.VirtualRangeBins(), Cplx16Size);
    var adcDataBuf := adc.addr;
    var adcEnd := adc.end;
    if adcBufAddress != 0 {
      adcDataBuf := adcBufAddress;
      adcEnd := base;
    }
    var radarCube := AllocBuf(adcEnd, dw,
                              d.CubeSamples(), Cplx16Size);
    var azimuthStaticHeatMap := AllocBuf(radarCube.end, dw,
                                         d.VirtualRangeBins(), 4);
    var detMatrix := AllocBuf(azimuthStaticHeatMap.end, 1, d.MatrixCells(), Uint16Size);
    l := L3Layout(adcDataBuf, radarCube, azimuthStaticHeatMap, detMatrix);
    heapUsed := detMatrix.end - base;
  }

  datatype Layout = Layout(l1: L1Layout, l2: L2Layout, l3: L3Layout)

  /** OdsDemo_dataPathConfigBuffers: the three arenas in turn, each with its
      footprint. `fits` is the conjunction of the three footprint
      assertions; when it holds every buffer lies in its arena. */
  method ConfigBuffers(p: Platform, d: Dims, l1Base: nat, l2Base: nat, l3Base: nat, adcBufAddress: nat)
    returns (layout: Layout, used1: nat, used2: nat, used3: nat, fits: bool)
    ensures layout.l1.Within(l1Base, l1Base + used1) && layout.l2.Within(l2Base, l2Base + used2)
    ensures layout.l3.detMatrix.Within(l3Base, l3Base + used3)
    ensures fits <==> used1 <= p.l1HeapSize && used2 <= p.l2HeapSize && used3 <= p.l3HeapSize
    ensures fits ==> layout.l1.Within(l1Base, l1Base + p.l1HeapSize) && layout.l2.Within(l2Base, l2Base + p.l2HeapSize)
    ensures fits ==> layout.l3.radarCube.Within(l3Base, l3Base + p.l3HeapSize)
                     && layout.l3.azimuthStaticHeatMap.Within(l3Base, l3Base + p.l3HeapSize)
                     && layout.l3.detMatrix.Within(l3Base, l3Base + p.l3HeapSize)
    ensures layout.l2.dopplerLineMaskLen == MaskWords(d.numDopplerBins)
  {
    var l1, u1 := PlaceL1(p, d, l1Base);
    var l2, u2 := PlaceL2(p, d, l2Base);
    var l3, u3 := ConfigL3(p, d, l3Base, adcBufAddress);
    layout, used1, used2, used3 := Layout(l1, l2, l3), u1, u2, u3;
    fits := u1 <= p.l1HeapSize && u2 <= p.l2HeapSize && u3 <= p.l3HeapSize;
  }

  /** The L1 allocation as the arena check sees it: the footprint, and every
      buffer inside the arena whenever the footprint fits it. */
  method PlaceL1(p: Platform, d: Dims, base: nat) returns (l: L1Layout, used: nat)
    ensures l.Within(base, base + used)
    ensures used <= p.l1HeapSize ==> l.Within(base, base + p.l1HeapSize)
  {
    l, used := ConfigL1(p, d, base);
    if used <= p.l1HeapSize {
      WithinWidens1(l, base, base + used, base + p.l1HeapSize);
    }
  }

  /** The same for L2, which also fixes the Doppler-line mask length. */
  method PlaceL2(p: Platform, d: Dims, base: nat) returns (l: L2Layout, used: nat)
    ensures l.Within(base, base + used)
    ensures used <= p.l2HeapSize ==> l.Within(base, base + p.l2HeapSize)
    ensures l.dopplerLineMaskLen == MaskWords(d.numDopplerBins)
  {
    l, used := ConfigL2(p, d, base);
    if used <= p.l2HeapSize {
      WithinWidens2(l, base, base + used, base + p.l2HeapSize);
    }
  }

  lemma WithinWidens1(l: L1Layout, lo: nat, hi: nat, hi2: nat)
    requires l.Within(lo, hi) && hi <= hi2
    ensures l.Within(lo, hi2)
  {
  }

  lemma WithinWidens2(l: L2Layout, lo: nat, hi: nat, hi2: nat)
    requires l.Within(lo, hi) && hi <= hi2
    ensures l.Within(lo, hi2)
  {
  }
}
