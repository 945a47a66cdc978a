# DSS data path of the mmWave demo: a Dafny model

This project models the integer and index bookkeeping of the DSP-side data
path in `ods_16xx_dss/dss_data_path.c`. The data path turns chirps of ADC
samples into a list of detected objects with range, Doppler and angle. The
FFTs, the DMA transfers and the floating-point geometry around that
bookkeeping are outside the model. Inside it are:

- **1D processing.** The DC range-signature calibration is a counter-driven
  state machine over the mean buffer: it zeroes, accumulates, averages and
  then subtracts (`DcCalibration`). The chirp, transmit-antenna and
  Doppler-bin counters choose the ping or pong buffer (`ChirpCounters`).
- **2D processing.**
  - The rounded clutter-removal mean (`DopplerAccum.ClutterMean`).
  - The log2-magnitude sum over antennas, where the first antenna assigns
    and the others accumulate (`DopplerAccum.Log2AbsAccum`).
  - Doppler compensation and BPM (binary phase modulation) decoding of the
    two transmitters' symbols (`DopplerCompensation`).
  - The signed and wrapped index conventions they use (`DopplerIndex`).
- **Detection.** The Doppler-line bit mask is filled by the first CFAR pass
  and drained in ascending order by the second (`DopplerLines`). The two
  peak-grouping policies read a 3x3 neighbourhood from the detection matrix
  or from the detection list (`PeakGrouping`, with `Selection` for the
  order-preserving, capacity-bounded output).
- **Angle estimation.** The peak-index logic of the X/Y estimation
  (`AzimuthPeak`):
  - the peak search;
  - the alias correction under extended maximum velocity;
  - the circular shoulder walk;
  - the second-peak search and its admission.
- **Configuration.**
  - The static buffer allocator over the L1, L2 and L3 arenas, with `ALIGN`
    and `MMW_ALLOC_BUF` (`Allocator`).
  - `OdsDemo_pow2roundup`, the derived Doppler configuration and the checks
    on the dynamic configuration (`Config`).

State that the C code updates in place is a Dafny class or an array:
- the Doppler-line mask and its cursor;
- the DC calibration object with its mean buffer and counter;
- the chirp counters;
- the kernel and output buffers of the grouping loops;
- the FFT buffers that BPM decoding and compensation overwrite.

Macros, index conversions and predicates are functions. Each loop method is
proved against a specification function, and lemmas state the properties of
those functions.

Conventions:
- Integers are unbounded. Truncating C division is `Common.TruncDiv`, an
  arithmetic shift is `Common.ShiftRight`, and a store into an `int16_t` is
  `Common.Wrap16`.
- `x & (n - 1)` is modelled as the remainder modulo `n`. This equals the
  mask for a power-of-two `n`, which the data path asserts for the Doppler
  bins and assumes for the angle bins.
- The macros `DOPPLER_IDX_TO_SIGNED` and `DOPPLER_IDX_TO_UNSIGNED` come
  from a header that is not part of this model. They are modelled with the
  usual definition: an index in the upper half moves down by `n`.
- `OdsDemo_floorLog2` is not part of this model either. It is modelled as
  the largest `k` with `2^k <= n`.
- Header constants (`MMW_MAX_OBJ_OUT`, `MAX_DET_OBJECTS_RAW`, heap sizes,
  alignments, struct sizes) are parameters.
- A failing `OdsDemo_dssAssert` is modelled as a `false` verdict, or as a
  `None` result.

Points the contracts bring out (no correction needed):
- With a single transmit antenna, the pong slot of the DC mean is
  accumulated but never zeroed or divided. The zeroing and the division
  cover only `numTxAntennas` slots, but `pingPongId` alternates 0/1
  (`DcCalibration.DcRangeSigCalibration.SingleTxPongSlotNotAveraged`).
- `OdsDemo_pow2roundup` never ends for an input above 2^31, because the
  doubling overflows to 0. `Config.Pow2RoundUp` requires `x <= 2^31`.
- `OdsDemo_getDopplerLine` reads the current word before checking that it
  is inside the mask. The model returns `None` where the scan would run past
  the last word.
- When the range window is a single bin, the matrix-based grouping reads the
  row above that bin. It treats the bin as the window's first bin, not its
  last (`PeakGrouping.RowRead`).

## Model

| member | source | states |
|---|---|---|
| DopplerLines.SetBitEffect | ods_16xx_dss/dss_data_path.c:515-521 | or-ing `0x1 << b` into a word turns bit b on and leaves every other bit as it was |
| DopplerLines.BitOfIsShift | ods_16xx_dss/dss_data_path.c:556-562 | the bit predicate used by the model is the C test `(word >> bit) & 0x1` |
| DopplerLines.SetLineAddsExactlyIt | ods_16xx_dss/dss_data_path.c:515-521 | setting bit `index & 31` of word `index >> 5` adds line `index` to the set of lines, and no other line |
| DopplerLines.ZeroWordsNoLines | ods_16xx_dss/dss_data_path.c:502-506 | all-zero words hold no line |
| DopplerLines.DopplerLineMask.constructor | ods_16xx_dss/dss_data_path.c:3623-3639 | the mask has `MAX(numDopplerBins >> 5, 1)` words and the cursor starts at 0 |
| DopplerLines.DopplerLineMask.Reset | ods_16xx_dss/dss_data_path.c:502-506 | every mask word is zero, no line is set, and the cursor is 0 |
| DopplerLines.DopplerLineMask.SetLine | ods_16xx_dss/dss_data_path.c:515-521 | the set of lines becomes the old set plus `index`; words other than `index >> 5` are unchanged |
| DopplerLines.DopplerLineMask.IsSetLine | ods_16xx_dss/dss_data_path.c:531-546 | the status is 1 exactly when `index` is a set line |
| DopplerLines.DopplerLineMask.GetLine | ods_16xx_dss/dss_data_path.c:556-578 | returns the smallest set line at or after the cursor and moves the cursor just past it; when no such line exists (the assertion case), returns None and the cursor stays |
| DopplerLines.DopplerLineMask.MarkDetections | ods_16xx_dss/dss_data_path.c:2827-2837 | the lines become the old lines plus the detected bins; the count grows by the number of bins that were new |
| DopplerLines.DopplerLineMask.DrainLines | ods_16xx_dss/dss_data_path.c:2867-2925 | `numDetObj1D` successive reads return every set line exactly once, in strictly ascending order |
| DopplerIndex.ToSignedRange | ods_16xx_dss/dss_data_path.c:1835 | a signed Doppler index lies in `[n/2 - n, n/2)` and names the same bin |
| DopplerIndex.WrapToSigned | ods_16xx_dss/dss_data_path.c:1835 | wrapping a signed index gives back the FFT index (signing and wrapping are inverse) |
| DopplerIndex.ToSignedWrap | ods_16xx_dss/dss_data_path.c:1894 | signing a wrapped index from the signed range gives it back |
| DopplerIndex.AzimuthIsDopplerConvention | ods_16xx_dss/dss_data_path.c:665-672 | for 2 to 2^32 - 1 angle bins, the azimuth conversion of the X/Y estimation (bound `numAngleBins/2 - 1` in uint32) is the Doppler signing convention |
| DopplerIndex.AzimuthSingleBinUnmoved | ods_16xx_dss/dss_data_path.c:665-672 | for fewer than 2 angle bins the uint32 bound wraps to 0xFFFFFFFF, so no uint16 index is moved; with one bin this differs from the Doppler convention at index 0 |
| DopplerIndex.PeakToSignedRange | ods_16xx_dss/dss_data_path.c:4038-4046 | the 2D peak conversion lands in `(n/2 - n, n/2]` and names the same bin |
| DopplerIndex.PeakAndDopplerDifferOnlyAtHalf | ods_16xx_dss/dss_data_path.c:4038-4046 | the peak and Doppler conventions disagree exactly at index n/2 |
| DopplerIndex.Parity | ods_16xx_dss/dss_data_path.c:2323 | `idx & 0x1` is 0 or 1 and has the parity of idx |
| DopplerIndex.CompensationIndex | ods_16xx_dss/dss_data_path.c:2309-2317 | the table index as written: in `[0, n)`, and the truncated half of the signed index, plus n when that half is negative |
| DopplerIndex.CompensationPhaseAsWritten | ods_16xx_dss/dss_data_path.c:2309-2328 | as written, the applied phase (twice the table index plus the half-bin for odd indices) equals the signed Doppler index modulo 2n, except on negative odd indices, where it is one bin further |
| DopplerIndex.CompensationOffByOneBinExample | ods_16xx_dss/dss_data_path.c:2309-2328 | with 64 bins, bin 63 (Doppler -1) gets table index 0 and +1 half-bin instead of -1 |
| DopplerIndex.HalfBinIndex | ods_16xx_dss/dss_data_path.c:2309-2317 | corrected table index: in `[0, n)`, and the floor half of the signed index, plus n when negative |
| DopplerIndex.HalfBinIndexPhase | ods_16xx_dss/dss_data_path.c:2309-2328 | with the corrected index the applied phase equals the signed Doppler index modulo 2n for every bin |
| DopplerIndex.IndicesAgreeOffNegativeOdd | ods_16xx_dss/dss_data_path.c:2309-2317 | the written and corrected indices agree exactly on the bins whose signed index is not negative and odd |
| DopplerCompensation.AddDopplerCompensation | ods_16xx_dss/dss_data_path.c:2290-2340 | with `numAnt == 0` the buffer is unchanged; otherwise exactly the `numAnt` entries are rotated by the table entry at the code's truncating index `CompensationIndex`, combined with the half-bin coefficient for an odd bin, and nothing else changes |
| DopplerCompensation.CoefficientPhase | ods_16xx_dss/dss_data_path.c:2309-2328 | on the phase table, the coefficient the code applies is the signed Doppler index modulo 2n on every bin but the negative odd ones, where it is one bin further |
| DopplerCompensation.CorrectedCoefficientPhase | ods_16xx_dss/dss_data_path.c:2309-2328 | on the phase table, the corrected coefficient (floor index) is the signed Doppler index modulo 2n on every bin |
| DopplerCompensation.CoefficientIsCorrectedOffNegativeOdd | ods_16xx_dss/dss_data_path.c:2309-2328 | for any table, the code's coefficient equals the corrected one on every bin whose signed index is not negative and odd |
| DopplerCompensation.Decode | ods_16xx_dss/dss_data_path.c:2423-2427 | each decoded part is the sum or difference halved, within one half unit |
| DopplerCompensation.DecodeEncode | ods_16xx_dss/dss_data_path.c:2407-2429 | decoding a BPM-encoded pair `(S1+S2, S1-S2)` recovers `(S1, S2)` exactly |
| DopplerCompensation.EncodeDecode | ods_16xx_dss/dss_data_path.c:2407-2429 | re-encoding a decoded pair gives the received pair back iff ping and pong parts have equal parity |
| DopplerCompensation.DecodeBpm | ods_16xx_dss/dss_data_path.c:2407-2429 | A[i] and B[i] are replaced by the decoded pair of the original values for every `i < numRxAnt`; nothing beyond `2*numRxAnt` changes |
| DopplerCompensation.CompensateAndDecode | ods_16xx_dss/dss_data_path.c:2731-2753 | for every Doppler bin the pong symbol is rotated by that bin's coefficient as the code computes it (truncating index) and then the pair is decoded; the rest of the buffer is unchanged |
| Selection.KeptIndices | ods_16xx_dss/dss_data_path.c:1832-1843 | the kept positions are each flagged and no more than the candidates |
| Selection.KeptIndicesComplete | ods_16xx_dss/dss_data_path.c:1832-1843 | the kept positions ascend strictly, and every flagged position is among them |
| Selection.KeptIndicesPrefix | ods_16xx_dss/dss_data_path.c:1779-1844 | scanning further only appends to the output |
| Selection.TakeOfExtension | ods_16xx_dss/dss_data_path.c:1839-1842 | once the output buffer is full, later candidates do not change it |
| PeakGrouping.Report | ods_16xx_dss/dss_data_path.c:1834-1836 | an output record keeps range and peak, and its signed Doppler index wraps back to the raw one |
| PeakGrouping.PeakKeptMeaning | ods_16xx_dss/dss_data_path.c:1741-1761 | the strided comparison loop keeps the centre iff no entry of the mode's cells (0..8; 1,4,7; 3..5) exceeds entry 4 |
| PeakGrouping.PeakSurvives | ods_16xx_dss/dss_data_path.c:1824-1830 | the comparison loop leaves the flag set iff the kernel passes the keep rule |
| PeakGrouping.NeighbourDoppler | ods_16xx_dss/dss_data_path.c:1809-1817 | the neighbour Doppler index is `d + col - 1` wrapped into `[0, numDopplerBins)` |
| PeakGrouping.MatrixPeakKeptIffLocalPeak | ods_16xx_dss/dss_data_path.c:1789-1830 | a detection passes the matrix kernel test iff it is a local peak of the detection matrix among the rows read, Doppler wrapping |
| PeakGrouping.FillMatrixKernel | ods_16xx_dss/dss_data_path.c:1789-1821 | the kernel holds the 3x3 matrix neighbourhood, Doppler wrapping; the row below is zeroed when r is the first window bin, otherwise the row above is zeroed when r is the last |
| PeakGrouping.ScanLeftFromList | ods_16xx_dss/dss_data_path.c:1969-1993 | every non-zero left-column entry came from a list detection in that cell |
| PeakGrouping.ScanRightFromList | ods_16xx_dss/dss_data_path.c:1995-2019 | every non-zero right-column entry came from a list detection in that cell |
| PeakGrouping.ListKernelFromList | ods_16xx_dss/dss_data_path.c:1946-2019 | soundness, in any list order: the centre is the detection's value, and every other non-zero kernel entry is the peak of a listed detection in that neighbour cell |
| PeakGrouping.IsolatedPeakKept | ods_16xx_dss/dss_data_path.c:1946-2029 | in any list order, a detection with no listed detection at all in its compared neighbour cells is kept |
| PeakGrouping.DrainOrderedOnlyInCell | ods_16xx_dss/dss_data_path.c:2881-2924 | in drain order (Doppler lines ascending, range ascending within a line) each cell holds at most one detection |
| PeakGrouping.MiddleColumnComplete | ods_16xx_dss/dss_data_path.c:1951-1967 | in drain order, the detections one range bin below and above on the same Doppler bin are list neighbours i - 1 and i + 1, so the middle column holds their values |
| PeakGrouping.LeftColumnComplete | ods_16xx_dss/dss_data_path.c:1969-1993 | in drain order, the backward scan reaches every detection on Doppler bin d - 1 before any on d - 2, Doppler wrapping, so the left column holds their values |
| PeakGrouping.RightColumnComplete | ods_16xx_dss/dss_data_path.c:1995-2019 | in drain order, the forward scan reaches every detection on Doppler bin d + 1 before any on d + 2, Doppler wrapping, so the right column holds their values |
| PeakGrouping.ListKernelComplete | ods_16xx_dss/dss_data_path.c:1946-2019 | completeness, in drain order with at least 3 Doppler bins: every neighbour cell that a listed detection occupies holds that detection's value |
| PeakGrouping.ListPeakKeptIffNotExceeded | ods_16xx_dss/dss_data_path.c:1946-2029 | in drain order the list-based kernel keeps a detection iff no listed detection in a compared neighbour cell is larger |
| PeakGrouping.UnorderedListHidesLargerNeighbour | ods_16xx_dss/dss_data_path.c:1969-1993 | out of drain order the rule fails: a detection on bin d - 2 stops the backward scan before a larger neighbour on d - 1, and the smaller detection is kept |
| PeakGrouping.FillListKernel | ods_16xx_dss/dss_data_path.c:1946-1967 | the middle column is the detection and its list neighbours in range |
| PeakGrouping.FillLeftColumn | ods_16xx_dss/dss_data_path.c:1969-1993 | the backward list scan fills the left column as the scan function says |
| PeakGrouping.FillRightColumn | ods_16xx_dss/dss_data_path.c:1995-2019 | the forward list scan fills the right column as the scan function says |
| PeakGrouping.EmittedFacts | ods_16xx_dss/dss_data_path.c:1832-1843 | at most `maxObjOut` objects, each the record of a kept detection, in list order; if all fit, every kept detection is reported |
| PeakGrouping.CopyReportsWindow | ods_16xx_dss/dss_data_path.c:1763-1775 | with both flags 0, exactly the in-window detections among the first `MIN(n, MMW_MAX_OBJ_OUT)` are copied, in order |
| PeakGrouping.CopyInWindow | ods_16xx_dss/dss_data_path.c:1763-1775 | the copy loop writes exactly that output and returns its count |
| PeakGrouping.Append | ods_16xx_dss/dss_data_path.c:1834-1837 | writing one record at `numObjOut` extends the output by it |
| PeakGrouping.MatrixGroupedLocalPeaks | ods_16xx_dss/dss_data_path.c:1779-1846 | the matrix grouping emits at most `maxObjOut` in-window local peaks in list order, and all of them when they fit |
| PeakGrouping.MatrixCandidateKept | ods_16xx_dss/dss_data_path.c:1781-1831 | the per-detection flag is the specification's keep flag |
| PeakGrouping.CfarPeakGrouping | ods_16xx_dss/dss_data_path.c:1721-1847 | the output is the specified grouping of the list and the count is at most `maxObjOut` |
| PeakGrouping.ListGroupedIsolatedPeaks | ods_16xx_dss/dss_data_path.c:1936-2044 | in any list order, at most `maxObjOut` in-window objects are reported, and when all kept ones fit, every in-window detection with no listed detection at all in its compared neighbour cells is reported |
| PeakGrouping.ListGroupedNotExceeded | ods_16xx_dss/dss_data_path.c:1936-2044 | in drain order, a detection is flagged iff it is in the window and no compared listed neighbour is larger; every reported object is such a detection, and all of them are reported when they fit |
| PeakGrouping.ListCandidateKept | ods_16xx_dss/dss_data_path.c:1938-2030 | the per-detection flag is the list specification's keep flag |
| PeakGrouping.CfarPeakGroupingCfarQualified | ods_16xx_dss/dss_data_path.c:1876-2045 | the output is the specified list-based grouping (whose keep rule `ListGroupedNotExceeded` states) and the count is at most `maxObjOut` |
| DcCalibration.RowLayout | ods_16xx_dss/dss_data_path.c:2099-2104 | entry j of antenna row a lies before row a+1, and all rows fit in n rows |
| DcCalibration.DcRangeSigCalibration.BandBin | ods_16xx_dss/dss_data_path.c:2108-2129 | band entry j is bin j for `j <= positiveBinIdx`, and otherwise one of the last `-negativeBinIdx` bins |
| DcCalibration.DcRangeSigCalibration.BandBinInjective | ods_16xx_dss/dss_data_path.c:2108-2129 | distinct band entries address distinct bins |
| DcCalibration.DcRangeSigCalibration.BandBinCoversBand | ods_16xx_dss/dss_data_path.c:2108-2129 | a bin is in the calibrated band iff some band entry addresses it |
| DcCalibration.DcRangeSigCalibration.MeanIndex | ods_16xx_dss/dss_data_path.c:2101-2115 | a mean entry lies inside its ping/pong slot and inside the buffer |
| DcCalibration.DcRangeSigCalibration.FftIndexLayout | ods_16xx_dss/dss_data_path.c:2101-2102 | the 1D-output index is the chirp base plus the antenna row plus the bin, within the chirp |
| DcCalibration.DcRangeSigCalibration.PingSlotAveraged | ods_16xx_dss/dss_data_path.c:2087-2090 | the ping slot lies inside the zeroed and averaged region |
| DcCalibration.DcRangeSigCalibration.SingleTxPongSlotNotAveraged | ods_16xx_dss/dss_data_path.c:2087-2093 | with one transmit antenna the pong slot lies outside the zeroed and averaged region |
| DcCalibration.DcRangeSigCalibration.constructor | ods_16xx_dss/dss_data_path.c:2086 | a calibration object with the given configuration and counter 0 |
| DcCalibration.DcRangeSigCalibration.ClearMean | ods_16xx_dss/dss_data_path.c:2087-2090 | the first `numTxAntennas * chirpPingPongSize` entries become zero; the rest is unchanged |
| DcCalibration.DcRangeSigCalibration.DivideMean | ods_16xx_dss/dss_data_path.c:2133-2147 | each of those entries is arithmetically shifted right by `log2NumAvgChirps`; the rest is unchanged |
| DcCalibration.DcRangeSigCalibration.AccumulateBand | ods_16xx_dss/dss_data_path.c:2108-2129 | each band bin of one antenna is added to its mean entry; other entries are unchanged |
| DcCalibration.DcRangeSigCalibration.SubtractBand | ods_16xx_dss/dss_data_path.c:2162-2184 | each band bin of one antenna has its mean entry subtracted (stored as int16); other bins are unchanged |
| DcCalibration.DcRangeSigCalibration.AccumulateAntenna | ods_16xx_dss/dss_data_path.c:2099-2129 | one antenna's band bins are added into their slot entries; everything else is unchanged |
| DcCalibration.DcRangeSigCalibration.Accumulate | ods_16xx_dss/dss_data_path.c:2097-2130 | every antenna's band bins are added into the slot of this ping/pong id; other slots are unchanged |
| DcCalibration.DcRangeSigCalibration.SubtractAntenna | ods_16xx_dss/dss_data_path.c:2153-2185 | one antenna's band bins have the mean subtracted; its non-band bins and other antennas are unchanged |
| DcCalibration.DcRangeSigCalibration.Subtract | ods_16xx_dss/dss_data_path.c:2149-2186 | every antenna's band bins of this chirp have the mean subtracted; non-band bins and the other chirp are unchanged |
| DcCalibration.DcRangeSigCalibration.CalibrateChirp | ods_16xx_dss/dss_data_path.c:2095-2147 | below the threshold: accumulate, count, and on reaching the threshold shift every averaged entry |
| DcCalibration.DcRangeSigCalibration.Compensate | ods_16xx_dss/dss_data_path.c:2078-2187 | zeroes on counter 0; while below `numAvgChirps * numTxAntennas` accumulates and counts, leaving the FFT output alone; afterwards the counter stays and exactly the band bins have the mean subtracted |
| Allocator.AndClearsLowBits | ods_16xx_dss/dss_data_path.c:3439 | and-ing with `~(2^k - 1)` clears exactly the low k bits |
| Allocator.AlignUp | ods_16xx_dss/dss_data_path.c:3439 | the result is a multiple of `2^k` in `[x, x + 2^k)` |
| Allocator.AlignUpIsSmallest | ods_16xx_dss/dss_data_path.c:3439 | no multiple of `2^k` at or above x is below the result |
| Allocator.AlignMaskRoundsUp | ods_16xx_dss/dss_data_path.c:3439 | the 32-bit `ALIGN(x, 2^k)` equals the rounded-up value when it does not wrap |
| Allocator.AllocBuf | ods_16xx_dss/dss_data_path.c:3446-3448 | the buffer starts at the aligned start, within one alignment of it, and is `count * sizeof(T)` long |
| Allocator.MaskWordsCoverDopplerBins | ods_16xx_dss/dss_data_path.c:3639 | for a power-of-two number of Doppler bins the mask words hold one bit per bin |
| Allocator.ConfigL1 | ods_16xx_dss/dss_data_path.c:3484-3579 | every L1 buffer is the `MMW_ALLOC_BUF` of its start (`Allocated`: the aligned arena start for the 1D input, the ping/pong input and the CFAR list, which so overlay each other, otherwise the end of its predecessor), hence aligned and `count * size` long; all lie in `[base, base + heapUsed]` and heapUsed is the furthest group end |
| Allocator.ConfigL2 | ods_16xx_dss/dss_data_path.c:3580-3687 | every L2 buffer is the `MMW_ALLOC_BUF` of its start (`Allocated`: the 1D output and the CFAR index buffer both at the arena start, the permanent tables and results chained after both), hence aligned and `count * size` long; the mask has `MAX(n >> 5, 1)` words; all lie in the arena up to the DC mean's end |
| Allocator.ConfigL3 | ods_16xx_dss/dss_data_path.c:3689-3728 | L3 holds the radar cube, heat map and detection matrix in order; an external ADC buffer is used when its address is non-zero |
| Allocator.ConfigBuffers | ods_16xx_dss/dss_data_path.c:3433-3730 | the three capacity assertions pass iff every tier's footprint fits, and then every buffer lies inside its arena |
| ChirpCounters.PingPongId | ods_16xx_dss/dss_data_path.c:3153 | the ping/pong id is 0 or 1 |
| ChirpCounters.PingPongAlternates | ods_16xx_dss/dss_data_path.c:3177-3188 | with an even number of chirps per frame the ping/pong id alternates on every chirp, across frame ends too |
| ChirpCounters.ChirpCounter.constructor | ods_16xx_dss/dss_data_path.c:3312-3314 | all three counters start at 0 |
| ChirpCounters.ChirpCounter.Advance | ods_16xx_dss/dss_data_path.c:3177-3188 | the chirp count advances modulo the frame length, and the antenna and Doppler-bin counters stay consistent with it |
| Config.Pow2RoundUp | ods_16xx_dss/dss_data_path.c:586-594 | returns a power of two at least x and less than 2x (or 1) |
| Config.FloorLog2 | ods_16xx_dss/dss_data_path.c:3423 | `2^k <= n < 2^(k+1)` |
| Config.ComputeDerivedConfig | ods_16xx_dss/dss_data_path.c:3421-3431 | the assertion passes iff `2^log2NumDopplerBins` is the number of Doppler bins |
| Config.DerivedConfigAcceptsPowersOfTwo | ods_16xx_dss/dss_data_path.c:3421-3431 | the derived configuration is accepted exactly for powers of two |
| Config.DynamicConfigAccepted | ods_16xx_dss/dss_data_path.c:3888-3898 | the three assertions: extended maximum velocity excludes multi-object beam forming and the near-field correction and needs more than one transmit antenna |
| DopplerAccum.ClutterMean | ods_16xx_dss/dss_data_path.c:2662-2663 | the rounded mean m satisfies `m*2^k - 2^(k-1) <= sum < m*2^k + 2^(k-1)` |
| DopplerAccum.ClutterMeanOfConstant | ods_16xx_dss/dss_data_path.c:2662-2663 | the mean of a constant input is that constant |
| DopplerAccum.ClutterMeanFitsInt16 | ods_16xx_dss/dss_data_path.c:2662-2663 | the mean of int16 samples fits in the int16 it is stored into |
| DopplerAccum.Log2AbsAccum | ods_16xx_dss/dss_data_path.c:2450-2468 | the first antenna assigns its magnitudes to the sum, every other antenna accumulates; entries past the Doppler bins are unchanged |
| DopplerAccum.FirstAssignsIsFromZero | ods_16xx_dss/dss_data_path.c:2450-2468 | assigning for the first antenna equals accumulating every antenna from zero |
| Common.ShiftRight | ods_16xx_dss/dss_data_path.c:2143-2144 | an arithmetic right shift by k rounds toward minus infinity |
| Common.Wrap16Range | ods_16xx_dss/dss_data_path.c:2168 | an int16 store keeps the value modulo 2^16 in `[-2^15, 2^15)` |
| AzimuthPeak.FindPeak | ods_16xx_dss/dss_data_path.c:730-737 | returns the first index of the largest magnitude, or index 0 with 0 when no magnitude is positive |
| AzimuthPeak.CorrectAlias | ods_16xx_dss/dss_data_path.c:739-756 | a peak in the flipped half moves back by numAngleBins and the Doppler index moves by a whole period to the other sign |
| AzimuthPeak.Circ | ods_16xx_dss/dss_data_path.c:775-794 | the masked index is in `[0, n)` and differs from the raw one by at most one period |
| AzimuthPeak.WalkUp | ods_16xx_dss/dss_data_path.c:775-781 | t masked steps up land on `(a + t) & (n - 1)` |
| AzimuthPeak.WalkDown | ods_16xx_dss/dss_data_path.c:784-792 | t masked steps down land on `(a - t) & (n - 1)` |
| AzimuthPeak.WalkAround | ods_16xx_dss/dss_data_path.c:775-792 | a full round of n steps comes back to the start |
| AzimuthPeak.Edge | ods_16xx_dss/dss_data_path.c:773-792 | the shoulder walk returns the first bin past the peak's shoulder: magnitudes fall along the steps taken and rise at the next one unless it went all the way round |
| AzimuthPeak.SecondPeak | ods_16xx_dss/dss_data_path.c:794-806 | the second peak is the first largest magnitude of the circular window from the right edge |
| AzimuthPeak.XYestimation | ods_16xx_dss/dss_data_path.c:711-826 | the peak is the first occurrence of the maximum over the search bins; the Doppler index changes only under aliasing, and then by one period; a second object is added only when enabled, above threshold and with room, and the object count grows by one exactly then |

## Left out

- EDMA configuration, transfers, waits, completion and error callbacks, semaphores and the CQ monitor: hardware DMA and RTOS plumbing.
- The external kernels (`DSP_fft16x16`/`DSP_fft32x32`, `mmwavelib_*` windowing, log2Abs, CFAR, vecsum/vecsubc/accum16, single-bin DFT, range-bias measurement): their bodies are not visible. The accumulation kernel is a parameter of `DopplerAccum.Log2AbsAccum`. The CFAR detections are inputs of the Doppler-line and grouping models.
- The complex rotation in `OdsDemo_addDopplerCompensation` (`_cmpyr1`, `_mpyhir`, `_mpylir`, `_ssub`, `_sadd`): the semantics of these C674x intrinsics are not in the source. Rotation and coefficient combination are parameters, and only which coefficient reaches which entries is modelled.
- Floating-point geometry: `OdsDemo_XYcalc` and `OdsDemo_Yestimation` coordinates, the near-field correction, the asin/cos of the angle estimation, window generation, twiddle and sin/cos tables, and the magnitude squared.
- Integer widths: C integers are unbounded here. Overflow of the int32 sums (DC accumulation, BPM, clutter mean) and wrap-around of 32-bit addresses in the allocator are not modelled. The int16 store of the DC subtraction and the 32-bit `ALIGN` mask are modelled.
- The real/imaginary word swap of the 32-bit DC mean (`cmplx32ImRe_t`): the accumulation and the subtraction swap consistently, so the mean is kept as one complex value.
- Buffer contents that the allocator zeroes with memset, and the `NO_OVERLAY`/`NO_L1_ALLOC` debug layouts.
- Cycle profiling, heap statistics printing and `System_printf`.
- `dss_lvds_stream.h`: declarations of the LVDS streaming interface only.
- Config.Pow2RoundUp: requires `x <= 2^31`. Above that the C loop never ends, because the uint32 doubling reaches 0.
- DopplerLines.DopplerLineMask.GetLine: a scan past the last word returns `None` instead of calling `OdsDemo_dssAssert`. The read of a word past the mask before the check is not modelled.
- AzimuthPeak.XYestimation: when the second-peak feature is enabled and there is room, the contract does not say that a rejected second peak fell below the threshold. It states what an accepted one satisfies, and `AzimuthPeak.SecondPeak` states how the candidate is found. The Doppler correction is not truncated to int16. `& (numAngleBins - 1)` is the masked index only for a power-of-two number of angle bins.
- PeakGrouping.CfarPeakGrouping: requires every detection matrix row the kernel reads to exist (`AllMatrixReadable`). The C code takes `maxRangeIndex` from the configuration without clamping it, so a detection on the last range bin with `maxRangeIndex >= numRangeBins` makes the kernel fill at 1790-1820 read the row past the detection matrix; that out-of-bounds read is not modelled.
- PeakGrouping.ListGroupedNotExceeded: the keep-iff-not-exceeded rule is proved for lists in drain order and at least 3 Doppler bins. The Doppler order is what `DopplerLines.DopplerLineMask.DrainLines` gives; the ascending range order within a line is assumed of `mmwavelib_cfarCadB_SOGO`, whose body is not visible. Out of that order only `PeakGrouping.ListGroupedIsolatedPeaks` holds, and `PeakGrouping.UnorderedListHidesLargerNeighbour` shows the rule failing.
- Allocator.ConfigBuffers: the three capacity assertions are modelled as one `fits` verdict, computed after all three tiers are laid out. The C code stops at the first failing assertion.

## Findings

| source | as written | input that shows it | evidently intended | confidence | as-written member | corrected member |
|---|---|---|---|---|---|---|
| ods_16xx_dss/dss_data_path.c:2309-2328 | the signed Doppler index is halved with C division, which truncates toward zero, and the half-bin coefficient is added for odd indices; the compensation operations apply this coefficient (`DopplerCompensation.Coefficient`), and `DopplerCompensation.CorrectedCoefficient` is the intended one | 64 Doppler bins, `dopplerIdx = 63` (signed -1): table index 0 plus one half-bin, a rotation of +1 half-bin | a rotation of -1 half-bin, the signed index itself, which an arithmetic shift (floor halving) gives | medium, not executed | DopplerIndex.CompensationOffByOneBinExample | DopplerIndex.HalfBinIndexPhase |
