/** Peak grouping of the CFAR detections.

    The two-pass CFAR leaves a list of raw detections (range bin, Doppler bin,
    peak value), in the order the Doppler lines were visited. Peak grouping
    keeps a detection only when it lies inside the configured range window and
    no selected neighbour of its 3x3 range/Doppler neighbourhood is larger.
    The neighbourhood ("kernel", row-major, range r-1 .. r+1 by Doppler
    d-1 .. d+1, the detection itself at entry 4) is read either from the
    detection matrix or from the detection list itself. Kept detections are
    written, in list order, to an output buffer of `maxObjOut` entries, with
    their Doppler index made signed. */
module PeakGrouping {
  import opened Common
  import opened DopplerIndex
  import opened Selection

  /** A raw CFAR detection. */
  datatype ObjRaw = ObjRaw(rangeIdx: nat, dopplerIdx: nat, peakVal: nat)

  /** A grouped detection, its Doppler index signed. */
  datatype DetectedObj = DetectedObj(rangeIdx: nat, dopplerIdx: int, peakVal: nat)

  /** The output record of a kept detection. */
  function Report(o: ObjRaw, numDopplerBins: nat): (d: DetectedObj)
    ensures d.rangeIdx == o.rangeIdx && d.peakVal == o.peakVal
    ensures o.dopplerIdx < numDopplerBins ==> Wrap(d.dopplerIdx, numDopplerBins) == o.dopplerIdx
  {
    var d := DetectedObj(o.rangeIdx, ToSigned(o.dopplerIdx, numDopplerBins), o.peakVal);
    if o.dopplerIdx < numDopplerBins then WrapToSigned(o.dopplerIdx, numDopplerBins); d else d
  }

  predicate InWindow(o: ObjRaw, minRangeIdx: nat, maxRangeIdx: nat)
  {
    minRangeIdx <= o.rangeIdx <= maxRangeIdx
  }

  // ---------------------------------------------------------------------
  // Which kernel entries are compared

  /** The three grouping modes; with neither flag pair, detections are copied. */
  datatype Grouping = RangeAndDoppler | RangeOnly | DopplerOnly

  function GroupingOf(groupInDopplerDirection: nat, groupInRangeDirection: nat): Option<Grouping>
  {
    if groupInDopplerDirection == 1 && groupInRangeDirection == 1 then Some(RangeAndDoppler)
    else if groupInDopplerDirection == 0 && groupInRangeDirection == 1 then Some(RangeOnly)
    else if groupInDopplerDirection == 1 && groupInRangeDirection == 0 then Some(DopplerOnly)
    else None
  }

  /** The comparison loop runs k = start, start + step, ... while k <= end. */
  function StartInd(g: Grouping): nat
  {
    match g
    case RangeAndDoppler => 0
    case RangeOnly => 1
    case DopplerOnly => 3
  }

  function StepInd(g: Grouping): nat
  {
    match g
    case RangeAndDoppler => 1
    case RangeOnly => 3
    case DopplerOnly => 1
  }

  function EndInd(g: Grouping): nat
  {
    match g
    case RangeAndDoppler => 8
    case RangeOnly => 7
    case DopplerOnly => 5
  }

  /** No compared entry from k on exceeds the detection's own value. */
  predicate NoneAbove(kernel: seq<nat>, k: nat, step: nat, end: nat)
    requires |kernel| == 9 && step > 0 && end < 9
    decreases if k <= end then end + 1 - k else 0
  {
    k > end || (kernel[k] <= kernel[4] && NoneAbove(kernel, k + step, step, end))
  }

  predicate PeakKept(kernel: seq<nat>, g: Grouping)
    requires |kernel| == 9
  {
    NoneAbove(kernel, StartInd(g), StepInd(g), EndInd(g))
  }

  /** The neighbourhood each mode looks at: all eight neighbours, the two
      range neighbours on the same Doppler bin, or the two Doppler neighbours
      on the same range bin (the detection itself always compares equal). */
  function Cells(g: Grouping): set<nat>
  {
    match g
    case RangeAndDoppler => {0, 1, 2, 3, 4, 5, 6, 7, 8}
    case RangeOnly => {1, 4, 7}
    case DopplerOnly => {3, 4, 5}
  }

  lemma {:induction false} PeakKeptMeaning(kernel: seq<nat>, g: Grouping)
    requires |kernel| == 9
    ensures PeakKept(kernel, g) <==> forall p :: 0 <= p < 9 && p in Cells(g) ==> kernel[p] <= kernel[4]
  {
    match g
    case RangeAndDoppler =>
      assert PeakKept(kernel, g) <==> (kernel[0] <= kernel[4] && kernel[1] <= kernel[4] && kernel[2] <= kernel[4]
        && kernel[3] <= kernel[4] && kernel[5] <= kernel[4] && kernel[6] <= kernel[4]
        && kernel[7] <= kernel[4] && kernel[8] <= kernel[4]) by {
        assert NoneAbove(kernel, 8, 1, 8) <==> kernel[8] <= kernel[4];
        assert NoneAbove(kernel, 7, 1, 8) <==> kernel[7] <= kernel[4] && NoneAbove(kernel, 8, 1, 8);
        assert NoneAbove(kernel, 6, 1, 8) <==> kernel[6] <= kernel[4] && NoneAbove(kernel, 7, 1, 8);
        assert NoneAbove(kernel, 5, 1, 8) <==> kernel[5] <= kernel[4] && NoneAbove(kernel, 6, 1, 8);
        assert NoneAbove(kernel, 4, 1, 8) <==> NoneAbove(kernel, 5, 1, 8);
        assert NoneAbove(kernel, 3, 1, 8) <==> kernel[3] <= kernel[4] && NoneAbove(kernel, 4, 1, 8);
        assert NoneAbove(kernel, 2, 1, 8) <==> kernel[2] <= kernel[4] && NoneAbove(kernel, 3, 1, 8);
        assert NoneAbove(kernel, 1, 1, 8) <==> kernel[1] <= kernel[4] && NoneAbove(kernel, 2, 1, 8);
      }
    case RangeOnly =>
      assert NoneAbove(kernel, 7, 3, 7) <==> kernel[7] <= kernel[4];
      assert NoneAbove(kernel, 4, 3, 7) <==> NoneAbove(kernel, 7, 3, 7);
    case DopplerOnly =>
      assert NoneAbove(kernel, 5, 1, 5) <==> kernel[5] <= kernel[4];
      assert NoneAbove(kernel, 4, 1, 5) <==> NoneAbove(kernel, 5, 1, 5);
  }

  /** The comparison loop of both grouping functions: the flag stays set
      exactly when no compared entry exceeds the detection. */
  method PeakSurvives(kernel: array<nat>, g: Grouping) returns (detectedObjFlag: bool)
    requires kernel.Length == 9
    ensures detectedObjFlag <==> PeakKept(kernel[..], g)
  {
    detectedObjFlag := true;
    var k := StartInd(g);
    var step, end := StepInd(g), EndInd(g);
    while k <= end
      invariant (detectedObjFlag && NoneAbove(kernel[..], k, step, end)) == PeakKept(kernel[..], g)
      decreases end + 1 - k
    {
      if kernel[k] > kernel[4] {
        detectedObjFlag := false;
      }
      k := k + step;
    }
  }

  // ---------------------------------------------------------------------
  // Kernel read from the detection matrix (OdsDemo_cfarPeakGrouping)

  /** The Doppler bin of kernel column `col` (d - 1, d, d + 1), brought back
      into [0, N) by one addition or subtraction of N. */
  function NeighbourDoppler(d: nat, col: nat, numDopplerBins: nat): (l: nat)
    requires d < numDopplerBins && col < 3
    ensures l < numDopplerBins
    ensures l == Wrap(d + col - 1, numDopplerBins)
  {
    var l := d + col - 1;
    if l < 0 then l + numDopplerBins else if l >= numDopplerBins then l - numDopplerBins else l
  }

  /** Kernel row `row` holds range bin r + row - 1; the row below the window's
      first bin and the row above its last bin are not read but zeroed. When
      the first and last bin coincide, the row above is read. */
  predicate RowRead(r: nat, minRangeIdx: nat, maxRangeIdx: nat, row: nat)
  {
    !(row == 0 && r == minRangeIdx) && !(row == 2 && r != minRangeIdx && r == maxRangeIdx)
  }

  /** The detection matrix (one row of `numDopplerBins` values per range bin)
      holds every row the kernel of `o` reads. */
  predicate MatrixReadable(detMatrix: seq<seq<nat>>, numDopplerBins: nat, o: ObjRaw,
                           minRangeIdx: nat, maxRangeIdx: nat)
  {
    && o.dopplerIdx < numDopplerBins
    && minRangeIdx <= o.rangeIdx
    && (if RowRead(o.rangeIdx, minRangeIdx, maxRangeIdx, 2) then o.rangeIdx + 1 else o.rangeIdx) < |detMatrix|
    && forall row :: 0 <= row < |detMatrix| ==> |detMatrix[row]| == numDopplerBins
  }

  function MatrixCell(detMatrix: seq<seq<nat>>, numDopplerBins: nat, o: ObjRaw,
                      minRangeIdx: nat, maxRangeIdx: nat, p: nat): nat
    requires MatrixReadable(detMatrix, numDopplerBins, o, minRangeIdx, maxRangeIdx) && p < 9
  {
    if RowRead(o.rangeIdx, minRangeIdx, maxRangeIdx, p / 3)
    then detMatrix[o.rangeIdx + p / 3 - 1][NeighbourDoppler(o.dopplerIdx, p % 3, numDopplerBins)]
    else 0
  }

  /** The 3x3 kernel around `o`, its centre the detection's own matrix cell. */
  function MatrixKernel(detMatrix: seq<seq<nat>>, numDopplerBins: nat, o: ObjRaw,
                        minRangeIdx: nat, maxRangeIdx: nat): (kernel: seq<nat>)
    requires MatrixReadable(detMatrix, numDopplerBins, o, minRangeIdx, maxRangeIdx)
    ensures |kernel| == 9
    ensures kernel[4] == detMatrix[o.rangeIdx][o.dopplerIdx]
  {
    seq(9, p requires 0 <= p < 9 => MatrixCell(detMatrix, numDopplerBins, o, minRangeIdx, maxRangeIdx, p))
  }

  /** A local peak of the detection matrix: no neighbour the mode looks at,
      among the range bins that are read, holds a larger value. */
  predicate IsLocalPeak(detMatrix: seq<seq<nat>>, numDopplerBins: nat, o: ObjRaw,
                        minRangeIdx: nat, maxRangeIdx: nat, g: Grouping)
    requires MatrixReadable(detMatrix, numDopplerBins, o, minRangeIdx, maxRangeIdx)
  {
    forall p :: 0 <= p < 9 && p in Cells(g) && RowRead(o.rangeIdx, minRangeIdx, maxRangeIdx, p / 3) ==>
      detMatrix[o.rangeIdx + p / 3 - 1][Wrap(o.dopplerIdx + p % 3 - 1, numDopplerBins)]
      <= detMatrix[o.rangeIdx][o.dopplerIdx]
  }

  /** A detection survives matrix-based grouping exactly when it is a local peak. */
  lemma {:induction false} MatrixPeakKeptIffLocalPeak(detMatrix: seq<seq<nat>>, numDopplerBins: nat, o: ObjRaw,
                                                     minRangeIdx: nat, maxRangeIdx: nat, g: Grouping)
    requires MatrixReadable(detMatrix, numDopplerBins, o, minRangeIdx, maxRangeIdx)
    ensures PeakKept(MatrixKernel(detMatrix, numDopplerBins, o, minRangeIdx, maxRangeIdx), g)
            <==> IsLocalPeak(detMatrix, numDopplerBins, o, minRangeIdx, maxRangeIdx, g)
  {
    if PeakKept(MatrixKernel(detMatrix, numDopplerBins, o, minRangeIdx, maxRangeIdx), g) {
      MatrixPeakKeptIsLocalPeak(detMatrix, numDopplerBins, o, minRangeIdx, maxRangeIdx, g);
    }
    if IsLocalPeak(detMatrix, numDopplerBins, o, minRangeIdx, maxRangeIdx, g) {
      MatrixLocalPeakIsKept(detMatrix, numDopplerBins, o, minRangeIdx, maxRangeIdx, g);
    }
  }

  lemma {:induction false} MatrixPeakKeptIsLocalPeak(detMatrix: seq<seq<nat>>, numDopplerBins: nat, o: ObjRaw,
                                                     minRangeIdx: nat, maxRangeIdx: nat, g: Grouping)
    requires MatrixReadable(detMatrix, numDopplerBins, o, minRangeIdx, maxRangeIdx)
    requires PeakKept(MatrixKernel(detMatrix, numDopplerBins, o, minRangeIdx, maxRangeIdx), g)
    ensures IsLocalPeak(detMatrix, numDopplerBins, o, minRangeIdx, maxRangeIdx, g)
  {
    var kernel := MatrixKernel(detMatrix, numDopplerBins, o, minRangeIdx, maxRangeIdx);
    PeakKeptMeaning(kernel, g);
    forall p | 0 <= p < 9 && p in Cells(g) && RowRead(o.rangeIdx, minRangeIdx, maxRangeIdx, p / 3)
      ensures detMatrix[o.rangeIdx + p / 3 - 1][Wrap(o.dopplerIdx + p % 3 - 1, numDopplerBins)]
              <= detMatrix[o.rangeIdx][o.dopplerIdx]
    {
      MatrixCellRead(detMatrix, numDopplerBins, o, minRangeIdx, maxRangeIdx, p);
    }
  }

  lemma {:induction false} MatrixLocalPeakIsKept(detMatrix: seq<seq<nat>>, numDopplerBins: nat, o: ObjRaw,
                                                 minRangeIdx: nat, maxRangeIdx: nat, g: Grouping)
    requires MatrixReadable(detMatrix, numDopplerBins, o, minRangeIdx, maxRangeIdx)
    requires IsLocalPeak(detMatrix, numDopplerBins, o, minRangeIdx, maxRangeIdx, g)
    ensures PeakKept(MatrixKernel(detMatrix, numDopplerBins, o, minRangeIdx, maxRangeIdx), g)
  {
    var kernel := MatrixKernel(detMatrix, numDopplerBins, o, minRangeIdx, maxRangeIdx);
    PeakKeptMeaning(kernel, g);
    forall p | 0 <= p < 9 && p in Cells(g)
      ensures kernel[p] <= kernel[4]
    {
      MatrixCellRead(detMatrix, numDopplerBins, o, minRangeIdx, maxRangeIdx, p);
    }
  }

  lemma MatrixCellRead(detMatrix: seq<seq<nat>>, numDopplerBins: nat, o: ObjRaw,
                       minRangeIdx: nat, maxRangeIdx: nat, p: nat)
    requires MatrixReadable(detMatrix, numDopplerBins, o, minRangeIdx, maxRangeIdx) && p < 9
    ensures MatrixKernel(detMatrix, numDopplerBins, o, minRangeIdx, maxRangeIdx)[p]
            == if RowRead(o.rangeIdx, minRangeIdx, maxRangeIdx, p / 3)
               then detMatrix[o.rangeIdx + p / 3 - 1][Wrap(o.dopplerIdx + p % 3 - 1, numDopplerBins)]
               else 0
  {
    assert MatrixKernel(detMatrix, numDopplerBins, o, minRangeIdx, maxRangeIdx)[p]
        == MatrixCell(detMatrix, numDopplerBins, o, minRangeIdx, maxRangeIdx, p);
  }

  lemma MatrixKernelAt(detMatrix: seq<seq<nat>>, numDopplerBins: nat, o: ObjRaw,
                       minRangeIdx: nat, maxRangeIdx: nat, row: nat, col: nat)
    requires MatrixReadable(detMatrix, numDopplerBins, o, minRangeIdx, maxRangeIdx) && row < 3 && col < 3
    ensures MatrixKernel(detMatrix, numDopplerBins, o, minRangeIdx, maxRangeIdx)[3 * row + col]
            == if RowRead(o.rangeIdx, minRangeIdx, maxRangeIdx, row)
               then detMatrix[o.rangeIdx + row - 1][NeighbourDoppler(o.dopplerIdx, col, numDopplerBins)]
               else 0
  {
    assert (3 * row + col) / 3 == row && (3 * row + col) % 3 == col;
    assert MatrixKernel(detMatrix, numDopplerBins, o, minRangeIdx, maxRangeIdx)[3 * row + col]
        == MatrixCell(detMatrix, numDopplerBins, o, minRangeIdx, maxRangeIdx, 3 * row + col);
  }

  /** The kernel fill of OdsDemo_cfarPeakGrouping: rows rowStart..rowEnd are
      copied from consecutive matrix rows, the skipped row is zeroed. */
  method FillMatrixKernel(kernel: array<nat>, detMatrix: seq<seq<nat>>, numDopplerBins: nat, o: ObjRaw,
                          minRangeIdx: nat, maxRangeIdx: nat)
    requires kernel.Length == 9
    requires MatrixReadable(detMatrix, numDopplerBins, o, minRangeIdx, maxRangeIdx)
    modifies kernel
    ensures kernel[..] == MatrixKernel(detMatrix, numDopplerBins, o, minRangeIdx, maxRangeIdx)
  {
    var rangeIdx, dopplerIdx := o.rangeIdx, o.dopplerIdx;
    var rowStart, rowEnd := 0, 2;
    if rangeIdx == minRangeIdx {
      rowStart := 1;
      kernel[0], kernel[1], kernel[2] := 0, 0, 0;
    } else if rangeIdx == maxRangeIdx {
      rowEnd := 1;
      kernel[6], kernel[7], kernel[8] := 0, 0, 0;
    }
    ghost var spec := MatrixKernel(detMatrix, numDopplerBins, o, minRangeIdx, maxRangeIdx);
    assert forall p :: 0 <= p < 9 && !(3 * rowStart <= p < 3 * rowEnd + 3) ==> kernel[p] == spec[p];
    var j := rowStart;
    while j <= rowEnd
      invariant rowStart <= j <= rowEnd + 1
      invariant forall p :: 0 <= p < 9 && !(3 * j <= p < 3 * rowEnd + 3) ==> kernel[p] == spec[p]
    {
      FillMatrixKernelRow(kernel, detMatrix, numDopplerBins, o, minRangeIdx, maxRangeIdx, j);
      j := j + 1;
    }
    assert kernel[..] == spec;
  }

  /** One kernel row: the three Doppler neighbours of matrix row r + j - 1. */
  method FillMatrixKernelRow(kernel: array<nat>, detMatrix: seq<seq<nat>>, numDopplerBins: nat, o: ObjRaw,
                             minRangeIdx: nat, maxRangeIdx: nat, j: nat)
    requires kernel.Length == 9 && j < 3
    requires MatrixReadable(detMatrix, numDopplerBins, o, minRangeIdx, maxRangeIdx)
    requires RowRead(o.rangeIdx, minRangeIdx, maxRangeIdx, j)
    modifies kernel
    ensures forall p :: 0 <= p < 9 ==>
      kernel[p] == if 3 * j <= p < 3 * j + 3
                   then MatrixKernel(detMatrix, numDopplerBins, o, minRangeIdx, maxRangeIdx)[p]
                   else old(kernel[p])
  {
    ghost var spec := MatrixKernel(detMatrix, numDopplerBins, o, minRangeIdx, maxRangeIdx);
    var row := o.rangeIdx + j - 1;
    var k: int := 0;
    while k < 3
      invariant 0 <= k <= 3
      invariant forall p :: 0 <= p < 9 ==>
        kernel[p] == if 3 * j <= p < 3 * j + k then spec[p] else old(kernel[p])
    {
      var l := o.dopplerIdx + (k - 1);
      if l < 0 {
        l := l + numDopplerBins;
      } else if l >= numDopplerBins {
        l := l - numDopplerBins;
      }
      assert l == NeighbourDoppler(o.dopplerIdx, k, numDopplerBins);
      MatrixKernelAt(detMatrix, numDopplerBins, o, minRangeIdx, maxRangeIdx, j, k);
      kernel[3 * j + k] := detMatrix[row][l];
      k := k + 1;
    }
  }

  // ---------------------------------------------------------------------
  // Kernel read from the detection list (OdsDemo_cfarPeakGroupingCfarQualified)

  /** List position k - 1, wrapping from the first entry to the last. */
  function WrapUp(k: nat, n: nat): (r: nat)
    requires k < n
    ensures r < n
  {
    if k - 1 < 0 then k - 1 + n else k - 1
  }

  /** List position k + 1, wrapping from the last entry to the first. */
  function WrapDown(k: nat, n: nat): (r: nat)
    requires k < n
    ensures r < n
  {
    if k + 1 >= n then k + 1 - n else k + 1
  }

  /** The kernel after the middle column: the detection's value at the
      centre, and the values of the list neighbours i - 1 and i + 1 when they
      sit on the same Doppler bin one range bin below and above. A range
      index 0 has no bin below: its unsigned r - 1 matches no 16-bit index. */
  function MiddleColumn(objRaw: seq<ObjRaw>, i: nat): seq<nat>
    requires i < |objRaw|
  {
    var o := objRaw[i];
    var k0 := [0, 0, 0, 0, o.peakVal, 0, 0, 0, 0];
    var k1 := if i > 0 && objRaw[i - 1].rangeIdx + 1 == o.rangeIdx && objRaw[i - 1].dopplerIdx == o.dopplerIdx
              then k0[1 := objRaw[i - 1].peakVal] else k0;
    if i + 1 < |objRaw| && objRaw[i + 1].rangeIdx == o.rangeIdx + 1 && objRaw[i + 1].dopplerIdx == o.dopplerIdx
    then k1[7 := objRaw[i + 1].peakVal] else k1
  }

  /** One entry of the backward scan: a detection on Doppler bin d - 1 fills
      the left column at its range row. */
  function LeftStep(kernel: seq<nat>, e: ObjRaw, r: nat, d: nat, numDopplerBins: nat): seq<nat>
    requires |kernel| == 9 && numDopplerBins > 0
  {
    if e.dopplerIdx != Wrap(d - 1, numDopplerBins) then kernel
    else if e.rangeIdx == r + 1 then kernel[6 := e.peakVal]
    else if e.rangeIdx == r then kernel[3 := e.peakVal]
    else if e.rangeIdx + 1 == r then kernel[0 := e.peakVal]
    else kernel
  }

  /** One entry of the forward scan: a detection on Doppler bin d + 1 fills
      the right column at its range row. */
  function RightStep(kernel: seq<nat>, e: ObjRaw, r: nat, d: nat, numDopplerBins: nat): seq<nat>
    requires |kernel| == 9 && numDopplerBins > 0
  {
    if e.dopplerIdx != Wrap(d + 1, numDopplerBins) then kernel
    else if e.rangeIdx + 1 == r then kernel[2 := e.peakVal]
    else if e.rangeIdx == r then kernel[5 := e.peakVal]
    else if e.rangeIdx == r + 1 then kernel[8 := e.peakVal]
    else kernel
  }

  /** At most `steps` entries backward from list position k, stopping at the
      first detection on Doppler bin d - 2. */
  function ScanLeft(objRaw: seq<ObjRaw>, k: nat, steps: nat, r: nat, d: nat, numDopplerBins: nat,
                    kernel: seq<nat>): (out: seq<nat>)
    requires k < |objRaw| && |kernel| == 9 && numDopplerBins > 0
    ensures |out| == 9
    decreases steps
  {
    if steps == 0 || objRaw[k].dopplerIdx == Wrap(d - 2, numDopplerBins) then kernel
    else ScanLeft(objRaw, WrapUp(k, |objRaw|), steps - 1, r, d, numDopplerBins,
                  LeftStep(kernel, objRaw[k], r, d, numDopplerBins))
  }

  /** At most `steps` entries forward from list position k, stopping at the
      first detection on Doppler bin d + 2. */
  function ScanRight(objRaw: seq<ObjRaw>, k: nat, steps: nat, r: nat, d: nat, numDopplerBins: nat,
                     kernel: seq<nat>): (out: seq<nat>)
    requires k < |objRaw| && |kernel| == 9 && numDopplerBins > 0
    ensures |out| == 9
    decreases steps
  {
    if steps == 0 || objRaw[k].dopplerIdx == Wrap(d + 2, numDopplerBins) then kernel
    else ScanRight(objRaw, WrapDown(k, |objRaw|), steps - 1, r, d, numDopplerBins,
                   RightStep(kernel, objRaw[k], r, d, numDopplerBins))
  }

  /** The kernel of detection i, built from the detection list only. */
  function ListKernel(objRaw: seq<ObjRaw>, i: nat, numDopplerBins: nat): (kernel: seq<nat>)
    requires i < |objRaw| && numDopplerBins > 0
    ensures |kernel| == 9
  {
    var n := |objRaw|;
    var r, d := objRaw[i].rangeIdx, objRaw[i].dopplerIdx;
    var left := ScanLeft(objRaw, WrapUp(i, n), n, r, d, numDopplerBins, MiddleColumn(objRaw, i));
    ScanRight(objRaw, WrapDown(i, n), n, r, d, numDopplerBins, left)
  }

  /** Detection e sits in the neighbour cell of kernel entry p around range r
      and Doppler d: range r + row - 1 and, for the outer columns, Doppler
      d - 1 or d + 1 modulo N; the middle column needs Doppler d itself. */
  predicate InCell(e: ObjRaw, r: nat, d: nat, numDopplerBins: nat, p: nat)
    requires numDopplerBins > 0 && p < 9
  {
    && e.rangeIdx + 1 == r + p / 3
    && e.dopplerIdx == (if p % 3 == 1 then d else Wrap(d + p % 3 - 1, numDopplerBins))
  }

  /** Every entry but the centre is either zero or the value of some listed
      detection in that entry's neighbour cell. */
  predicate FromList(objRaw: seq<ObjRaw>, r: nat, d: nat, numDopplerBins: nat, kernel: seq<nat>)
    requires numDopplerBins > 0
  {
    && |kernel| == 9
    && forall p :: 0 <= p < 9 && p != 4 ==>
         kernel[p] == 0
         || exists q :: 0 <= q < |objRaw| && InCell(objRaw[q], r, d, numDopplerBins, p) && objRaw[q].peakVal == kernel[p]
  }

  lemma {:induction false} ScanLeftFromList(objRaw: seq<ObjRaw>, k: nat, steps: nat, r: nat, d: nat,
                                            numDopplerBins: nat, kernel: seq<nat>)
    requires k < |objRaw| && numDopplerBins > 0
    requires FromList(objRaw, r, d, numDopplerBins, kernel)
    ensures var out := ScanLeft(objRaw, k, steps, r, d, numDopplerBins, kernel);
            FromList(objRaw, r, d, numDopplerBins, out) && out[4] == kernel[4]
    decreases steps
  {
    if steps > 0 && objRaw[k].dopplerIdx != Wrap(d - 2, numDopplerBins) {
      var next := LeftStep(kernel, objRaw[k], r, d, numDopplerBins);
      forall p | 0 <= p < 9 && p != 4 && next[p] != kernel[p]
        ensures InCell(objRaw[k], r, d, numDopplerBins, p) && objRaw[k].peakVal == next[p]
      {
      }
      ScanLeftFromList(objRaw, WrapUp(k, |objRaw|), steps - 1, r, d, numDopplerBins, next);
    }
  }

  lemma {:induction false} ScanRightFromList(objRaw: seq<ObjRaw>, k: nat, steps: nat, r: nat, d: nat,
                                             numDopplerBins: nat, kernel: seq<nat>)
    requires k < |objRaw| && numDopplerBins > 0
    requires FromList(objRaw, r, d, numDopplerBins, kernel)
    ensures var out := ScanRight(objRaw, k, steps, r, d, numDopplerBins, kernel);
            FromList(objRaw, r, d, numDopplerBins, out) && out[4] == kernel[4]
    decreases steps
  {
    if steps > 0 && objRaw[k].dopplerIdx != Wrap(d + 2, numDopplerBins) {
      var next := RightStep(kernel, objRaw[k], r, d, numDopplerBins);
      forall p | 0 <= p < 9 && p != 4 && next[p] != kernel[p]
        ensures InCell(objRaw[k], r, d, numDopplerBins, p) && objRaw[k].peakVal == next[p]
      {
      }
      ScanRightFromList(objRaw, WrapDown(k, |objRaw|), steps - 1, r, d, numDopplerBins, next);
    }
  }

  /** The list-based kernel holds the detection's own value at its centre,
      and a neighbour cell that no listed detection occupies stays zero. */
  lemma {:induction false} ListKernelFromList(objRaw: seq<ObjRaw>, i: nat, numDopplerBins: nat)
    requires i < |objRaw| && numDopplerBins > 0
    ensures var kernel := ListKernel(objRaw, i, numDopplerBins);
            kernel[4] == objRaw[i].peakVal
            && FromList(objRaw, objRaw[i].rangeIdx, objRaw[i].dopplerIdx, numDopplerBins, kernel)
  {
    var n := |objRaw|;
    var r, d := objRaw[i].rangeIdx, objRaw[i].dopplerIdx;
    var mid := MiddleColumn(objRaw, i);
    forall p | 0 <= p < 9 && p != 4 && mid[p] != 0
      ensures exists q :: 0 <= q < n && InCell(objRaw[q], r, d, numDopplerBins, p) && objRaw[q].peakVal == mid[p]
    {
      if p == 1 {
        assert InCell(objRaw[i - 1], r, d, numDopplerBins, p);
      } else {
        assert InCell(objRaw[i + 1], r, d, numDopplerBins, p);
      }
    }
    assert FromList(objRaw, r, d, numDopplerBins, mid);
    ScanLeftFromList(objRaw, WrapUp(i, n), n, r, d, numDopplerBins, mid);
    var left := ScanLeft(objRaw, WrapUp(i, n), n, r, d, numDopplerBins, mid);
    ScanRightFromList(objRaw, WrapDown(i, n), n, r, d, numDopplerBins, left);
  }

  /** A detection none of whose compared neighbour cells is occupied by a
      listed detection survives list-based grouping. */
  lemma {:induction false} IsolatedPeakKept(objRaw: seq<ObjRaw>, i: nat, numDopplerBins: nat, g: Grouping)
    requires i < |objRaw| && numDopplerBins > 0
    requires forall q, p :: 0 <= q < |objRaw| && 0 <= p < 9 && p != 4 && p in Cells(g) ==>
               !InCell(objRaw[q], objRaw[i].rangeIdx, objRaw[i].dopplerIdx, numDopplerBins, p)
    ensures PeakKept(ListKernel(objRaw, i, numDopplerBins), g)
  {
    var kernel := ListKernel(objRaw, i, numDopplerBins);
    ListKernelFromList(objRaw, i, numDopplerBins);
    PeakKeptMeaning(kernel, g);
    forall p | 0 <= p < 9 && p in Cells(g)
      ensures kernel[p] <= kernel[4]
    {
      if p != 4 {
        assert kernel[p] == 0;
      }
    }
  }

  // ---------------------------------------------------------------------
  // Completeness of the list-based kernel under the drain order

  /** Detection a comes before detection b in the order the second CFAR pass
      writes the list: Doppler lines ascending (the drain of the Doppler-line
      mask), range bins ascending within a line. */
  predicate DrainBefore(a: ObjRaw, b: ObjRaw)
  {
    a.dopplerIdx < b.dopplerIdx || (a.dopplerIdx == b.dopplerIdx && a.rangeIdx < b.rangeIdx)
  }

  /** A detection list in drain order: every Doppler index is a bin, and the
      list strictly ascends, so no cell holds two detections. */
  predicate DrainOrdered(objRaw: seq<ObjRaw>, numDopplerBins: nat)
  {
    && (forall q :: 0 <= q < |objRaw| ==> objRaw[q].dopplerIdx < numDopplerBins)
    && (forall q, q' :: 0 <= q < q' < |objRaw| ==> DrainBefore(objRaw[q], objRaw[q']))
  }

  /** The list position t steps backward from k, wrapping as the left scan does. */
  function Back(k: nat, t: nat, n: nat): (j: nat)
    requires k < n
    ensures j < n
    decreases t
  {
    if t == 0 then k else Back(WrapUp(k, n), t - 1, n)
  }

  /** The list position t steps forward from k, wrapping as the right scan does. */
  function Fwd(k: nat, t: nat, n: nat): (j: nat)
    requires k < n
    ensures j < n
    decreases t
  {
    if t == 0 then k else Fwd(WrapDown(k, n), t - 1, n)
  }

  lemma {:induction false} BackValue(k: nat, t: nat, n: nat)
    requires k < n && t <= k + n
    ensures Back(k, t, n) == if t <= k then k - t else k + n - t
    decreases t
  {
    if t > 0 {
      BackValue(WrapUp(k, n), t - 1, n);
    }
  }

  lemma {:induction false} FwdValue(k: nat, t: nat, n: nat)
    requires k < n && t <= n
    ensures Fwd(k, t, n) == if k + t < n then k + t else k + t - n
    decreases t
  {
    if t > 0 {
      FwdValue(WrapDown(k, n), t - 1, n);
    }
  }

  /** Detection q is the only listed detection in neighbour cell p. */
  predicate OnlyInCell(objRaw: seq<ObjRaw>, q: nat, r: nat, d: nat, numDopplerBins: nat, p: nat)
    requires numDopplerBins > 0 && p < 9
  {
    forall j :: 0 <= j < |objRaw| && InCell(objRaw[j], r, d, numDopplerBins, p) ==> j == q
  }

  /** In drain order a cell holds at most one detection. */
  lemma DrainOrderedOnlyInCell(objRaw: seq<ObjRaw>, q: nat, r: nat, d: nat, numDopplerBins: nat, p: nat)
    requires DrainOrdered(objRaw, numDopplerBins) && numDopplerBins > 0 && p < 9 && q < |objRaw|
    requires InCell(objRaw[q], r, d, numDopplerBins, p)
    ensures OnlyInCell(objRaw, q, r, d, numDopplerBins, p)
  {
  }

  /** The backward scan writes only the left column. */
  lemma {:induction false} ScanLeftOther(objRaw: seq<ObjRaw>, k: nat, steps: nat, r: nat, d: nat,
                                         numDopplerBins: nat, kernel: seq<nat>, p: nat)
    requires k < |objRaw| && |kernel| == 9 && numDopplerBins > 0 && p < 9 && p % 3 != 0
    ensures ScanLeft(objRaw, k, steps, r, d, numDopplerBins, kernel)[p] == kernel[p]
    decreases steps
  {
    if steps > 0 && objRaw[k].dopplerIdx != Wrap(d - 2, numDopplerBins) {
      var next := LeftStep(kernel, objRaw[k], r, d, numDopplerBins);
      ScanLeftOther(objRaw, WrapUp(k, |objRaw|), steps - 1, r, d, numDopplerBins, next, p);
    }
  }

  /** The forward scan writes only the right column. */
  lemma {:induction false} ScanRightOther(objRaw: seq<ObjRaw>, k: nat, steps: nat, r: nat, d: nat,
                                          numDopplerBins: nat, kernel: seq<nat>, p: nat)
    requires k < |objRaw| && |kernel| == 9 && numDopplerBins > 0 && p < 9 && p % 3 != 2
    ensures ScanRight(objRaw, k, steps, r, d, numDopplerBins, kernel)[p] == kernel[p]
    decreases steps
  {
    if steps > 0 && objRaw[k].dopplerIdx != Wrap(d + 2, numDopplerBins) {
      var next := RightStep(kernel, objRaw[k], r, d, numDopplerBins);
      ScanRightOther(objRaw, WrapDown(k, |objRaw|), steps - 1, r, d, numDopplerBins, next, p);
    }
  }

  /** Once a left-column entry holds the value of the only detection in its
      cell, the rest of the backward scan keeps it. */
  lemma {:induction false} ScanLeftHolds(objRaw: seq<ObjRaw>, k: nat, steps: nat, r: nat, d: nat,
                                         numDopplerBins: nat, kernel: seq<nat>, p: nat, q: nat)
    requires k < |objRaw| && |kernel| == 9 && numDopplerBins > 0 && p < 9 && p % 3 == 0 && q < |objRaw|
    requires OnlyInCell(objRaw, q, r, d, numDopplerBins, p) && kernel[p] == objRaw[q].peakVal
    ensures ScanLeft(objRaw, k, steps, r, d, numDopplerBins, kernel)[p] == objRaw[q].peakVal
    decreases steps
  {
    if steps > 0 && objRaw[k].dopplerIdx != Wrap(d - 2, numDopplerBins) {
      var next := LeftStep(kernel, objRaw[k], r, d, numDopplerBins);
      if next[p] != kernel[p] {
        assert InCell(objRaw[k], r, d, numDopplerBins, p);
      }
      ScanLeftHolds(objRaw, WrapUp(k, |objRaw|), steps - 1, r, d, numDopplerBins, next, p, q);
    }
  }

  lemma {:induction false} ScanRightHolds(objRaw: seq<ObjRaw>, k: nat, steps: nat, r: nat, d: nat,
                                          numDopplerBins: nat, kernel: seq<nat>, p: nat, q: nat)
    requires k < |objRaw| && |kernel| == 9 && numDopplerBins > 0 && p < 9 && p % 3 == 2 && q < |objRaw|
    requires OnlyInCell(objRaw, q, r, d, numDopplerBins, p) && kernel[p] == objRaw[q].peakVal
    ensures ScanRight(objRaw, k, steps, r, d, numDopplerBins, kernel)[p] == objRaw[q].peakVal
    decreases steps
  {
    if steps > 0 && objRaw[k].dopplerIdx != Wrap(d + 2, numDopplerBins) {
      var next := RightStep(kernel, objRaw[k], r, d, numDopplerBins);
      if next[p] != kernel[p] {
        assert InCell(objRaw[k], r, d, numDopplerBins, p);
      }
      ScanRightHolds(objRaw, WrapDown(k, |objRaw|), steps - 1, r, d, numDopplerBins, next, p, q);
    }
  }

  /** A backward scan that reaches detection q, the only one in left-column
      cell p, before meeting Doppler bin d - 2 leaves q's value in entry p. */
  lemma {:induction false} ScanLeftReaches(objRaw: seq<ObjRaw>, k: nat, steps: nat, r: nat, d: nat,
                                           numDopplerBins: nat, kernel: seq<nat>, p: nat, q: nat, t: nat)
    requires k < |objRaw| && |kernel| == 9 && numDopplerBins > 0 && p < 9 && p % 3 == 0 && q < |objRaw|
    requires OnlyInCell(objRaw, q, r, d, numDopplerBins, p) && InCell(objRaw[q], r, d, numDopplerBins, p)
    requires t < steps && Back(k, t, |objRaw|) == q
    requires forall u :: 0 <= u <= t ==> objRaw[Back(k, u, |objRaw|)].dopplerIdx != Wrap(d - 2, numDopplerBins)
    ensures ScanLeft(objRaw, k, steps, r, d, numDopplerBins, kernel)[p] == objRaw[q].peakVal
    decreases t
  {
    var n := |objRaw|;
    assert objRaw[Back(k, 0, n)].dopplerIdx != Wrap(d - 2, numDopplerBins);
    var next := LeftStep(kernel, objRaw[k], r, d, numDopplerBins);
    if t == 0 {
      assert next[p] == objRaw[q].peakVal;
      ScanLeftHolds(objRaw, WrapUp(k, n), steps - 1, r, d, numDopplerBins, next, p, q);
    } else {
      forall u | 0 <= u <= t - 1
        ensures objRaw[Back(WrapUp(k, n), u, n)].dopplerIdx != Wrap(d - 2, numDopplerBins)
      {
        assert Back(k, u + 1, n) == Back(WrapUp(k, n), u, n);
      }
      ScanLeftReaches(objRaw, WrapUp(k, n), steps - 1, r, d, numDopplerBins, next, p, q, t - 1);
    }
  }

  lemma {:induction false} ScanRightReaches(objRaw: seq<ObjRaw>, k: nat, steps: nat, r: nat, d: nat,
                                            numDopplerBins: nat, kernel: seq<nat>, p: nat, q: nat, t: nat)
    requires k < |objRaw| && |kernel| == 9 && numDopplerBins > 0 && p < 9 && p % 3 == 2 && q < |objRaw|
    requires OnlyInCell(objRaw, q, r, d, numDopplerBins, p) && InCell(objRaw[q], r, d, numDopplerBins, p)
    requires t < steps && Fwd(k, t, |objRaw|) == q
    requires forall u :: 0 <= u <= t ==> objRaw[Fwd(k, u, |objRaw|)].dopplerIdx != Wrap(d + 2, numDopplerBins)
    ensures ScanRight(objRaw, k, steps, r, d, numDopplerBins, kernel)[p] == objRaw[q].peakVal
    decreases t
  {
    var n := |objRaw|;
    assert objRaw[Fwd(k, 0, n)].dopplerIdx != Wrap(d + 2, numDopplerBins);
    var next := RightStep(kernel, objRaw[k], r, d, numDopplerBins);
    if t == 0 {
      assert next[p] == objRaw[q].peakVal;
      ScanRightHolds(objRaw, WrapDown(k, n), steps - 1, r, d, numDopplerBins, next, p, q);
    } else {
      forall u | 0 <= u <= t - 1
        ensures objRaw[Fwd(WrapDown(k, n), u, n)].dopplerIdx != Wrap(d + 2, numDopplerBins)
      {
        assert Fwd(k, u + 1, n) == Fwd(WrapDown(k, n), u, n);
      }
      ScanRightReaches(objRaw, WrapDown(k, n), steps - 1, r, d, numDopplerBins, next, p, q, t - 1);
    }
  }

  /** In drain order, list position follows the order of the detections. */
  lemma DrainIndexOrder(objRaw: seq<ObjRaw>, numDopplerBins: nat, a: nat, b: nat)
    requires DrainOrdered(objRaw, numDopplerBins) && a < |objRaw| && b < |objRaw|
    requires DrainBefore(objRaw[a], objRaw[b])
    ensures a < b
  {
  }

  /** The middle column: the detections one range bin below and above on
      the same Doppler bin sit right before and after detection i. */
  lemma {:induction false} MiddleColumnComplete(objRaw: seq<ObjRaw>, i: nat, numDopplerBins: nat, q: nat, p: nat)
    requires DrainOrdered(objRaw, numDopplerBins) && numDopplerBins > 0 && i < |objRaw| && q < |objRaw|
    requires p == 1 || p == 7
    requires InCell(objRaw[q], objRaw[i].rangeIdx, objRaw[i].dopplerIdx, numDopplerBins, p)
    ensures MiddleColumn(objRaw, i)[p] == objRaw[q].peakVal
  {
    var r, d := objRaw[i].rangeIdx, objRaw[i].dopplerIdx;
    DrainOrderedOnlyInCell(objRaw, q, r, d, numDopplerBins, p);
    if p == 1 {
      assert DrainBefore(objRaw[q], objRaw[i]);
      DrainIndexOrder(objRaw, numDopplerBins, q, i);
      var j := i - 1;
      var oq, oj := objRaw[q], objRaw[j];
      assert q == j || DrainBefore(oq, oj);
      assert DrainBefore(objRaw[j], objRaw[i]);
      assert InCell(objRaw[j], r, d, numDopplerBins, p);
    } else {
      assert DrainBefore(objRaw[i], objRaw[q]);
      DrainIndexOrder(objRaw, numDopplerBins, i, q);
      var j := i + 1;
      var oq, oj := objRaw[q], objRaw[j];
      assert q == j || DrainBefore(oj, oq);
      assert DrainBefore(objRaw[i], objRaw[j]);
      assert InCell(objRaw[j], r, d, numDopplerBins, p);
    }
  }

  /** The left column: the backward scan meets every detection on Doppler
      bin d - 1 before any on d - 2. */
  lemma {:induction false} LeftColumnComplete(objRaw: seq<ObjRaw>, i: nat, numDopplerBins: nat, q: nat, p: nat,
                                              kernel: seq<nat>)
    requires DrainOrdered(objRaw, numDopplerBins) && numDopplerBins >= 3 && i < |objRaw| && q < |objRaw|
    requires p < 9 && p % 3 == 0 && |kernel| == 9
    requires InCell(objRaw[q], objRaw[i].rangeIdx, objRaw[i].dopplerIdx, numDopplerBins, p)
    ensures ScanLeft(objRaw, WrapUp(i, |objRaw|), |objRaw|, objRaw[i].rangeIdx, objRaw[i].dopplerIdx,
                     numDopplerBins, kernel)[p] == objRaw[q].peakVal
  {
    var n := |objRaw|;
    var r, d := objRaw[i].rangeIdx, objRaw[i].dopplerIdx;
    DrainOrderedOnlyInCell(objRaw, q, r, d, numDopplerBins, p);
    WrapNear(d as int - 1, numDopplerBins);
    WrapNear(d as int - 2, numDopplerBins);
    var t: nat;
    if d >= 1 {
      assert DrainBefore(objRaw[q], objRaw[i]);
      DrainIndexOrder(objRaw, numDopplerBins, q, i);
      t := i - 1 - q;
    } else {
      assert DrainBefore(objRaw[i], objRaw[q]);
      DrainIndexOrder(objRaw, numDopplerBins, i, q);
      t := i + n - 1 - q;
    }
    BackValue(i, t + 1, n);
    assert Back(WrapUp(i, n), t, n) == Back(i, t + 1, n);
    forall u | 0 <= u <= t
      ensures objRaw[Back(WrapUp(i, n), u, n)].dopplerIdx != Wrap(d as int - 2, numDopplerBins)
    {
      BackValue(i, u + 1, n);
      assert Back(WrapUp(i, n), u, n) == Back(i, u + 1, n);
      var j := Back(i, u + 1, n);
      if u + 1 <= i {
        assert DrainBefore(objRaw[j], objRaw[i]);
      }
      if q < j {
        assert DrainBefore(objRaw[q], objRaw[j]);
      }
    }
    ScanLeftReaches(objRaw, WrapUp(i, n), n, r, d, numDopplerBins, kernel, p, q, t);
  }

  /** The right column: the forward scan meets every detection on Doppler
      bin d + 1 before any on d + 2. */
  lemma {:induction false} RightColumnComplete(objRaw: seq<ObjRaw>, i: nat, numDopplerBins: nat, q: nat, p: nat,
                                               kernel: seq<nat>)
    requires DrainOrdered(objRaw, numDopplerBins) && numDopplerBins >= 3 && i < |objRaw| && q < |objRaw|
    requires p < 9 && p % 3 == 2 && |kernel| == 9
    requires InCell(objRaw[q], objRaw[i].rangeIdx, objRaw[i].dopplerIdx, numDopplerBins, p)
    ensures ScanRight(objRaw, WrapDown(i, |objRaw|), |objRaw|, objRaw[i].rangeIdx, objRaw[i].dopplerIdx,
                      numDopplerBins, kernel)[p] == objRaw[q].peakVal
  {
    var n := |objRaw|;
    var r, d := objRaw[i].rangeIdx, objRaw[i].dopplerIdx;
    DrainOrderedOnlyInCell(objRaw, q, r, d, numDopplerBins, p);
    WrapNear(d + 1, numDopplerBins);
    WrapNear(d + 2, numDopplerBins);
    var t: nat;
    if d + 1 < numDopplerBins {
      assert DrainBefore(objRaw[i], objRaw[q]);
      DrainIndexOrder(objRaw, numDopplerBins, i, q);
      t := q - i - 1;
    } else {
      assert DrainBefore(objRaw[q], objRaw[i]);
      DrainIndexOrder(objRaw, numDopplerBins, q, i);
      t := q + n - i - 1;
    }
    FwdValue(i, t + 1, n);
    assert Fwd(WrapDown(i, n), t, n) == Fwd(i, t + 1, n);
    forall u | 0 <= u <= t
      ensures objRaw[Fwd(WrapDown(i, n), u, n)].dopplerIdx != Wrap(d + 2, numDopplerBins)
    {
      FwdValue(i, u + 1, n);
      assert Fwd(WrapDown(i, n), u, n) == Fwd(i, u + 1, n);
      var j := Fwd(i, u + 1, n);
      if i + u + 1 < n {
        assert DrainBefore(objRaw[i], objRaw[j]);
      }
      if j < q {
        assert DrainBefore(objRaw[j], objRaw[q]);
      }
    }
    ScanRightReaches(objRaw, WrapDown(i, n), n, r, d, numDopplerBins, kernel, p, q, t);
  }

  /** In drain order the list-based kernel is complete: every compared
      neighbour cell that a listed detection occupies holds that detection's
      value. */
  lemma {:induction false} ListKernelComplete(objRaw: seq<ObjRaw>, i: nat, numDopplerBins: nat, q: nat, p: nat)
    requires DrainOrdered(objRaw, numDopplerBins) && numDopplerBins >= 3 && i < |objRaw| && q < |objRaw|
    requires p < 9 && p != 4
    requires InCell(objRaw[q], objRaw[i].rangeIdx, objRaw[i].dopplerIdx, numDopplerBins, p)
    ensures ListKernel(objRaw, i, numDopplerBins)[p] == objRaw[q].peakVal
  {
    var n := |objRaw|;
    var r, d := objRaw[i].rangeIdx, objRaw[i].dopplerIdx;
    var mid := MiddleColumn(objRaw, i);
    var left := ScanLeft(objRaw, WrapUp(i, n), n, r, d, numDopplerBins, mid);
    if p % 3 == 0 {
      LeftColumnComplete(objRaw, i, numDopplerBins, q, p, mid);
      ScanRightOther(objRaw, WrapDown(i, n), n, r, d, numDopplerBins, left, p);
    } else if p % 3 == 2 {
      RightColumnComplete(objRaw, i, numDopplerBins, q, p, left);
    } else {
      MiddleColumnComplete(objRaw, i, numDopplerBins, q, p);
      ScanLeftOther(objRaw, WrapUp(i, n), n, r, d, numDopplerBins, mid, p);
      ScanRightOther(objRaw, WrapDown(i, n), n, r, d, numDopplerBins, left, p);
    }
  }

  /** No listed detection in a compared neighbour cell of detection i is
      larger than it. */
  predicate NotExceeded(objRaw: seq<ObjRaw>, i: nat, numDopplerBins: nat, g: Grouping)
    requires i < |objRaw| && numDopplerBins > 0
  {
    forall q, p ::
      (0 <= q < |objRaw| && 0 <= p < 9 && p != 4 && p in Cells(g)
       && InCell(objRaw[q], objRaw[i].rangeIdx, objRaw[i].dopplerIdx, numDopplerBins, p)) ==>
        objRaw[q].peakVal <= objRaw[i].peakVal
  }

  /** In drain order the list-based kernel keeps a detection exactly when no
      listed detection in a compared neighbour cell is larger. */
  lemma {:induction false} ListPeakKeptIffNotExceeded(objRaw: seq<ObjRaw>, i: nat, numDopplerBins: nat, g: Grouping)
    requires DrainOrdered(objRaw, numDopplerBins) && numDopplerBins >= 3 && i < |objRaw|
    ensures PeakKept(ListKernel(objRaw, i, numDopplerBins), g) <==> NotExceeded(objRaw, i, numDopplerBins, g)
  {
    var kernel := ListKernel(objRaw, i, numDopplerBins);
    var r, d := objRaw[i].rangeIdx, objRaw[i].dopplerIdx;
    ListKernelFromList(objRaw, i, numDopplerBins);
    PeakKeptMeaning(kernel, g);
    if PeakKept(kernel, g) {
      forall q, p | 0 <= q < |objRaw| && 0 <= p < 9 && p != 4 && p in Cells(g)
        && InCell(objRaw[q], r, d, numDopplerBins, p)
        ensures objRaw[q].peakVal <= objRaw[i].peakVal
      {
        ListKernelComplete(objRaw, i, numDopplerBins, q, p);
      }
    }
    if NotExceeded(objRaw, i, numDopplerBins, g) {
      forall p | 0 <= p < 9 && p in Cells(g)
        ensures kernel[p] <= kernel[4]
      {
        if p != 4 && kernel[p] != 0 {
          var q :| 0 <= q < |objRaw| && InCell(objRaw[q], r, d, numDopplerBins, p) && objRaw[q].peakVal == kernel[p];
        }
      }
    }
  }

  /** The kernel fill of OdsDemo_cfarPeakGroupingCfarQualified: zero, centre
      and middle column, then the left column by a backward scan and the
      right column by a forward scan of the list. */
  method FillListKernel(kernel: array<nat>, objRaw: seq<ObjRaw>, i: nat, numDopplerBins: nat)
    requires kernel.Length == 9 && i < |objRaw| && numDopplerBins > 0
    modifies kernel
    ensures kernel[..] == ListKernel(objRaw, i, numDopplerBins)
  {
    var n := |objRaw|;
    var rangeIdx, dopplerIdx, peakVal := objRaw[i].rangeIdx, objRaw[i].dopplerIdx, objRaw[i].peakVal;
    forall p | 0 <= p < 9 {
      kernel[p] := 0;
    }
    kernel[4] := peakVal;
    if i > 0 {
      if objRaw[i - 1].rangeIdx + 1 == rangeIdx && objRaw[i - 1].dopplerIdx == dopplerIdx {
        kernel[1] := objRaw[i - 1].peakVal;
      }
    }
    if i + 1 < n {
      if objRaw[i + 1].rangeIdx == rangeIdx + 1 && objRaw[i + 1].dopplerIdx == dopplerIdx {
        kernel[7] := objRaw[i + 1].peakVal;
      }
    }
    assert kernel[..] == MiddleColumn(objRaw, i);
    FillLeftColumn(kernel, objRaw, WrapUp(i, n), rangeIdx, dopplerIdx, numDopplerBins);
    FillRightColumn(kernel, objRaw, WrapDown(i, n), rangeIdx, dopplerIdx, numDopplerBins);
  }

  /** The backward scan from list position `start`, one list length at most. */
  method FillLeftColumn(kernel: array<nat>, objRaw: seq<ObjRaw>, start: nat,
                        rangeIdx: nat, dopplerIdx: nat, numDopplerBins: nat)
    requires kernel.Length == 9 && start < |objRaw| && numDopplerBins > 0
    modifies kernel
    ensures kernel[..] == ScanLeft(objRaw, start, |objRaw|, rangeIdx, dopplerIdx, numDopplerBins, old(kernel[..]))
  {
    var n := |objRaw|;
    var k: nat := start;
    var l: nat := 0;
    while l < n
      invariant 0 <= l <= n && k < n
      invariant ScanLeft(objRaw, k, n - l, rangeIdx, dopplerIdx, numDopplerBins, kernel[..])
                == ScanLeft(objRaw, start, n, rangeIdx, dopplerIdx, numDopplerBins, old(kernel[..]))
    {
      if objRaw[k].dopplerIdx == Wrap(dopplerIdx as int - 2, numDopplerBins) {
        break;
      }
      ghost var before := kernel[..];
      if objRaw[k].rangeIdx == rangeIdx + 1 && objRaw[k].dopplerIdx == Wrap(dopplerIdx as int - 1, numDopplerBins) {
        kernel[6] := objRaw[k].peakVal;
      } else if objRaw[k].rangeIdx == rangeIdx && objRaw[k].dopplerIdx == Wrap(dopplerIdx as int - 1, numDopplerBins) {
        kernel[3] := objRaw[k].peakVal;
      } else if objRaw[k].rangeIdx + 1 == rangeIdx && objRaw[k].dopplerIdx == Wrap(dopplerIdx as int - 1, numDopplerBins) {
        kernel[0] := objRaw[k].peakVal;
      }
      assert kernel[..] == LeftStep(before, objRaw[k], rangeIdx, dopplerIdx, numDopplerBins);
      k := WrapUp(k, n);
      l := l + 1;
    }
  }

  /** The forward scan from list position `start`, one list length at most. */
  method FillRightColumn(kernel: array<nat>, objRaw: seq<ObjRaw>, start: nat,
                         rangeIdx: nat, dopplerIdx: nat, numDopplerBins: nat)
    requires kernel.Length == 9 && start < |objRaw| && numDopplerBins > 0
    modifies kernel
    ensures kernel[..] == ScanRight(objRaw, start, |objRaw|, rangeIdx, dopplerIdx, numDopplerBins, old(kernel[..]))
  {
    var n := |objRaw|;
    var k: nat := start;
    var l: nat := 0;
    while l < n
      invariant 0 <= l <= n && k < n
      invariant ScanRight(objRaw, k, n - l, rangeIdx, dopplerIdx, numDopplerBins, kernel[..])
                == ScanRight(objRaw, start, n, rangeIdx, dopplerIdx, numDopplerBins, old(kernel[..]))
    {
      if objRaw[k].dopplerIdx == Wrap(dopplerIdx + 2, numDopplerBins) {
        break;
      }
      ghost var before := kernel[..];
      if objRaw[k].rangeIdx + 1 == rangeIdx && objRaw[k].dopplerIdx == Wrap(dopplerIdx + 1, numDopplerBins) {
        kernel[2] := objRaw[k].peakVal;
      } else if objRaw[k].rangeIdx == rangeIdx && objRaw[k].dopplerIdx == Wrap(dopplerIdx + 1, numDopplerBins) {
        kernel[5] := objRaw[k].peakVal;
      } else if objRaw[k].rangeIdx == rangeIdx + 1 && objRaw[k].dopplerIdx == Wrap(dopplerIdx + 1, numDopplerBins) {
        kernel[8] := objRaw[k].peakVal;
      }
      assert kernel[..] == RightStep(before, objRaw[k], rangeIdx, dopplerIdx, numDopplerBins);
      k := WrapDown(k, n);
      l := l + 1;
    }
  }

  // ---------------------------------------------------------------------
  // The output list

  function ReportsAt(objRaw: seq<ObjRaw>, ks: seq<nat>, numDopplerBins: nat): seq<DetectedObj>
    requires forall t :: 0 <= t < |ks| ==> ks[t] < |objRaw|
  {
    seq(|ks|, t requires 0 <= t < |ks| => Report(objRaw[ks[t]], numDopplerBins))
  }

  /** What a scan writes that reports the flagged candidates in list order
      and stops once `maxObjOut` objects are written. */
  function Emitted(objRaw: seq<ObjRaw>, keep: seq<bool>, numDopplerBins: nat, maxObjOut: nat): seq<DetectedObj>
    requires |keep| <= |objRaw|
  {
    Take(ReportsAt(objRaw, KeptIndices(keep), numDopplerBins), maxObjOut)
  }

  /** The output holds at most `maxObjOut` objects, each the report of a
      flagged candidate; when no more than `maxObjOut` candidates are
      flagged, every one of them is reported. */
  lemma EmittedFacts(objRaw: seq<ObjRaw>, keep: seq<bool>, numDopplerBins: nat, maxObjOut: nat)
    requires |keep| <= |objRaw|
    ensures |Emitted(objRaw, keep, numDopplerBins, maxObjOut)| <= maxObjOut
    ensures forall t :: 0 <= t < |Emitted(objRaw, keep, numDopplerBins, maxObjOut)| ==>
              exists i :: 0 <= i < |keep| && keep[i]
                && Emitted(objRaw, keep, numDopplerBins, maxObjOut)[t] == Report(objRaw[i], numDopplerBins)
    ensures |KeptIndices(keep)| <= maxObjOut ==>
              forall i :: 0 <= i < |keep| && keep[i] ==>
                Report(objRaw[i], numDopplerBins) in Emitted(objRaw, keep, numDopplerBins, maxObjOut)
  {
    var ks := KeptIndices(keep);
    var all := ReportsAt(objRaw, ks, numDopplerBins);
    var out := Emitted(objRaw, keep, numDopplerBins, maxObjOut);
    assert out <= all;
    forall t | 0 <= t < |out|
      ensures exists i :: 0 <= i < |keep| && keep[i] && out[t] == Report(objRaw[i], numDopplerBins)
    {
      assert out[t] == all[t];
      assert keep[ks[t]] && out[t] == Report(objRaw[ks[t]], numDopplerBins);
    }
    if |ks| <= maxObjOut {
      KeptIndicesComplete(keep);
      assert out == all;
      forall i | 0 <= i < |keep| && keep[i]
        ensures Report(objRaw[i], numDopplerBins) in out
      {
        var t :| 0 <= t < |ks| && ks[t] == i;
        assert out[t] == Report(objRaw[i], numDopplerBins);
      }
    }
  }

  /** One more candidate scanned: its report is appended exactly when it is flagged. */
  lemma EmitStep(objRaw: seq<ObjRaw>, keep: seq<bool>, numDopplerBins: nat, i: nat)
    requires i < |keep| <= |objRaw|
    ensures ReportsAt(objRaw, KeptIndices(keep[..i + 1]), numDopplerBins)
            == ReportsAt(objRaw, KeptIndices(keep[..i]), numDopplerBins)
               + (if keep[i] then [Report(objRaw[i], numDopplerBins)] else [])
  {
    KeptIndicesSnoc(keep, i);
  }

  /** Once `maxObjOut` objects are written after the first j candidates, the
      output is final. */
  lemma EmitFull(objRaw: seq<ObjRaw>, keep: seq<bool>, numDopplerBins: nat, j: nat, maxObjOut: nat)
    requires j <= |keep| <= |objRaw|
    requires |KeptIndices(keep[..j])| == maxObjOut
    ensures ReportsAt(objRaw, KeptIndices(keep[..j]), numDopplerBins) == Emitted(objRaw, keep, numDopplerBins, maxObjOut)
  {
    var pre, all := KeptIndices(keep[..j]), KeptIndices(keep);
    KeptIndicesPrefix(keep, j);
    assert ReportsAt(objRaw, pre, numDopplerBins) <= ReportsAt(objRaw, all, numDopplerBins);
    TakeOfExtension(ReportsAt(objRaw, pre, numDopplerBins), ReportsAt(objRaw, all, numDopplerBins), maxObjOut);
  }

  /** No grouping: the in-window detections among the first `maxObjOut`
      candidates are flagged. */
  function CopyFlags(objRaw: seq<ObjRaw>, minRangeIdx: nat, maxRangeIdx: nat, maxObjOut: nat): (keep: seq<bool>)
    ensures |keep| <= |objRaw| && |keep| <= maxObjOut
  {
    var m := if |objRaw| < maxObjOut then |objRaw| else maxObjOut;
    seq(m, i requires 0 <= i < m => InWindow(objRaw[i], minRangeIdx, maxRangeIdx))
  }

  /** Without grouping nothing is cut off: every in-window detection among
      the first `maxObjOut` candidates is reported, and nothing else. */
  lemma CopyReportsWindow(objRaw: seq<ObjRaw>, numDopplerBins: nat, maxRangeIdx: nat, minRangeIdx: nat, maxObjOut: nat)
    ensures var out := Emitted(objRaw, CopyFlags(objRaw, minRangeIdx, maxRangeIdx, maxObjOut), numDopplerBins, maxObjOut);
            && (forall t :: 0 <= t < |out| ==> minRangeIdx <= out[t].rangeIdx <= maxRangeIdx)
            && (forall i :: 0 <= i < |objRaw| && i < maxObjOut && InWindow(objRaw[i], minRangeIdx, maxRangeIdx) ==>
                  Report(objRaw[i], numDopplerBins) in out)
  {
    var keep := CopyFlags(objRaw, minRangeIdx, maxRangeIdx, maxObjOut);
    EmittedFacts(objRaw, keep, numDopplerBins, maxObjOut);
  }

  /** The passthrough branch shared by both grouping functions. */
  method CopyInWindow(objOut: array<DetectedObj>, objRaw: seq<ObjRaw>, numDopplerBins: nat,
                      maxRangeIdx: nat, minRangeIdx: nat, maxObjOut: nat) returns (numObjOut: nat)
    requires maxObjOut <= objOut.Length
    modifies objOut
    ensures numObjOut <= maxObjOut
    ensures objOut[..numObjOut]
            == Emitted(objRaw, CopyFlags(objRaw, minRangeIdx, maxRangeIdx, maxObjOut), numDopplerBins, maxObjOut)
  {
    ghost var keep := CopyFlags(objRaw, minRangeIdx, maxRangeIdx, maxObjOut);
    var m := if |objRaw| < maxObjOut then |objRaw| else maxObjOut;
    numObjOut := 0;
    var i := 0;
    assert |keep| == m;
    while i < m
      invariant 0 <= i <= m && numObjOut <= i
      invariant objOut[..numObjOut] == ReportsAt(objRaw, KeptIndices(keep[..i]), numDopplerBins)
    {
      EmitStep(objRaw, keep, numDopplerBins, i);
      assert keep[i] == InWindow(objRaw[i], minRangeIdx, maxRangeIdx);
      if InWindow(objRaw[i], minRangeIdx, maxRangeIdx) {
        ghost var written := objOut[..numObjOut];
        objOut[numObjOut] := Report(objRaw[i], numDopplerBins);
        assert objOut[..numObjOut + 1] == written + [Report(objRaw[i], numDopplerBins)];
        numObjOut := numObjOut + 1;
      }
      i := i + 1;
    }
    assert keep[..m] == keep;
  }

  // ---------------------------------------------------------------------
  // OdsDemo_cfarPeakGrouping

  /** Every in-window detection has its kernel rows in the matrix. */
  predicate AllMatrixReadable(objRaw: seq<ObjRaw>, detMatrix: seq<seq<nat>>, numDopplerBins: nat,
                              minRangeIdx: nat, maxRangeIdx: nat)
  {
    forall i :: 0 <= i < |objRaw| && InWindow(objRaw[i], minRangeIdx, maxRangeIdx) ==>
      MatrixReadable(detMatrix, numDopplerBins, objRaw[i], minRangeIdx, maxRangeIdx)
  }

  function MatrixFlags(objRaw: seq<ObjRaw>, detMatrix: seq<seq<nat>>, numDopplerBins: nat,
                       minRangeIdx: nat, maxRangeIdx: nat, g: Grouping): (keep: seq<bool>)
    requires AllMatrixReadable(objRaw, detMatrix, numDopplerBins, minRangeIdx, maxRangeIdx)
    ensures |keep| == |objRaw|
  {
    seq(|objRaw|, i requires 0 <= i < |objRaw| =>
      InWindow(objRaw[i], minRangeIdx, maxRangeIdx)
      && PeakKept(MatrixKernel(detMatrix, numDopplerBins, objRaw[i], minRangeIdx, maxRangeIdx), g))
  }

  /** The objects OdsDemo_cfarPeakGrouping writes. */
  function MatrixGrouped(objRaw: seq<ObjRaw>, detMatrix: seq<seq<nat>>, numDopplerBins: nat,
                         maxRangeIdx: nat, minRangeIdx: nat,
                         groupInDopplerDirection: nat, groupInRangeDirection: nat, maxObjOut: nat): seq<DetectedObj>
    requires GroupingOf(groupInDopplerDirection, groupInRangeDirection).Some? ==>
               AllMatrixReadable(objRaw, detMatrix, numDopplerBins, minRangeIdx, maxRangeIdx)
  {
    match GroupingOf(groupInDopplerDirection, groupInRangeDirection)
    case None => Emitted(objRaw, CopyFlags(objRaw, minRangeIdx, maxRangeIdx, maxObjOut), numDopplerBins, maxObjOut)
    case Some(g) => MatrixGroupedWith(objRaw, detMatrix, numDopplerBins, maxRangeIdx, minRangeIdx, g, maxObjOut)
  }

  function MatrixGroupedWith(objRaw: seq<ObjRaw>, detMatrix: seq<seq<nat>>, numDopplerBins: nat,
                             maxRangeIdx: nat, minRangeIdx: nat, g: Grouping, maxObjOut: nat): seq<DetectedObj>
    requires AllMatrixReadable(objRaw, detMatrix, numDopplerBins, minRangeIdx, maxRangeIdx)
  {
    Emitted(objRaw, MatrixFlags(objRaw, detMatrix, numDopplerBins, minRangeIdx, maxRangeIdx, g), numDopplerBins, maxObjOut)
  }

  /** `x` is the report of an in-window detection that is a local peak. */
  predicate ReportsLocalPeak(objRaw: seq<ObjRaw>, detMatrix: seq<seq<nat>>, numDopplerBins: nat,
                             maxRangeIdx: nat, minRangeIdx: nat, g: Grouping, x: DetectedObj)
    requires AllMatrixReadable(objRaw, detMatrix, numDopplerBins, minRangeIdx, maxRangeIdx)
  {
    exists i :: 0 <= i < |objRaw| && InWindow(objRaw[i], minRangeIdx, maxRangeIdx)
      && IsLocalPeak(detMatrix, numDopplerBins, objRaw[i], minRangeIdx, maxRangeIdx, g)
      && x == Report(objRaw[i], numDopplerBins)
  }

  /** With grouping, every reported object is an in-window local peak of the
      detection matrix; when there is room for all of them, every in-window
      local peak is reported. */
  lemma MatrixGroupedLocalPeaks(objRaw: seq<ObjRaw>, detMatrix: seq<seq<nat>>, numDopplerBins: nat,
                                maxRangeIdx: nat, minRangeIdx: nat, g: Grouping, maxObjOut: nat)
    requires AllMatrixReadable(objRaw, detMatrix, numDopplerBins, minRangeIdx, maxRangeIdx)
    ensures |MatrixGroupedWith(objRaw, detMatrix, numDopplerBins, maxRangeIdx, minRangeIdx, g, maxObjOut)| <= maxObjOut
    ensures var out := MatrixGroupedWith(objRaw, detMatrix, numDopplerBins, maxRangeIdx, minRangeIdx, g, maxObjOut);
            forall t :: 0 <= t < |out| ==>
              ReportsLocalPeak(objRaw, detMatrix, numDopplerBins, maxRangeIdx, minRangeIdx, g, out[t])
    ensures |KeptIndices(MatrixFlags(objRaw, detMatrix, numDopplerBins, minRangeIdx, maxRangeIdx, g))| <= maxObjOut ==>
              forall i :: (0 <= i < |objRaw| && InWindow(objRaw[i], minRangeIdx, maxRangeIdx)
                           && IsLocalPeak(detMatrix, numDopplerBins, objRaw[i], minRangeIdx, maxRangeIdx, g)) ==>
                Report(objRaw[i], numDopplerBins)
                  in MatrixGroupedWith(objRaw, detMatrix, numDopplerBins, maxRangeIdx, minRangeIdx, g, maxObjOut)
  {
    var keep := MatrixFlags(objRaw, detMatrix, numDopplerBins, minRangeIdx, maxRangeIdx, g);
    var out := MatrixGroupedWith(objRaw, detMatrix, numDopplerBins, maxRangeIdx, minRangeIdx, g, maxObjOut);
    EmittedFacts(objRaw, keep, numDopplerBins, maxObjOut);
    assert out == Emitted(objRaw, keep, numDopplerBins, maxObjOut);
    forall i | 0 <= i < |objRaw| && InWindow(objRaw[i], minRangeIdx, maxRangeIdx)
      ensures keep[i] <==> IsLocalPeak(detMatrix, numDopplerBins, objRaw[i], minRangeIdx, maxRangeIdx, g)
    {
      MatrixPeakKeptIffLocalPeak(detMatrix, numDopplerBins, objRaw[i], minRangeIdx, maxRangeIdx, g);
    }
    forall t | 0 <= t < |out|
      ensures ReportsLocalPeak(objRaw, detMatrix, numDopplerBins, maxRangeIdx, minRangeIdx, g, out[t])
    {
      var i :| 0 <= i < |keep| && keep[i] && out[t] == Report(objRaw[i], numDopplerBins);
      assert InWindow(objRaw[i], minRangeIdx, maxRangeIdx);
      assert IsLocalPeak(detMatrix, numDopplerBins, objRaw[i], minRangeIdx, maxRangeIdx, g);
    }
    if |KeptIndices(keep)| <= maxObjOut {
      forall i | 0 <= i < |objRaw| && InWindow(objRaw[i], minRangeIdx, maxRangeIdx)
        && IsLocalPeak(detMatrix, numDopplerBins, objRaw[i], minRangeIdx, maxRangeIdx, g)
        ensures Report(objRaw[i], numDopplerBins) in out
      {
        assert keep[i];
      }
    }
  }

  /** One candidate of a grouping loop: its report is written after the
      current output exactly when it is flagged. */
  method EmitCandidate(objOut: array<DetectedObj>, objRaw: seq<ObjRaw>, ghost keep: seq<bool>,
                       numDopplerBins: nat, numObjOut: nat, i: nat, detectedObjFlag: bool)
    returns (count: nat)
    requires i < |keep| <= |objRaw| && detectedObjFlag == keep[i] && numObjOut < objOut.Length
    requires objOut[..numObjOut] == ReportsAt(objRaw, KeptIndices(keep[..i]), numDopplerBins)
    modifies objOut
    ensures count == if detectedObjFlag then numObjOut + 1 else numObjOut
    ensures objOut[..count] == ReportsAt(objRaw, KeptIndices(keep[..i + 1]), numDopplerBins)
  {
    EmitStep(objRaw, keep, numDopplerBins, i);
    count := numObjOut;
    if detectedObjFlag {
      count := Append(objOut, numObjOut, Report(objRaw[i], numDopplerBins));
    }
  }

  /** Writes `x` after the first `numObjOut` output objects. */
  method Append(objOut: array<DetectedObj>, numObjOut: nat, x: DetectedObj) returns (count: nat)
    requires numObjOut < objOut.Length
    modifies objOut
    ensures count == numObjOut + 1
    ensures objOut[..count] == old(objOut[..numObjOut]) + [x]
  {
    objOut[numObjOut] := x;
    count := numObjOut + 1;
    assert objOut[..count] == objOut[..numObjOut] + [x];
  }

  /** `x` is the report of an in-window detection that no compared listed
      neighbour exceeds. */
  predicate ReportsListPeak(objRaw: seq<ObjRaw>, numDopplerBins: nat, maxRangeIdx: nat, minRangeIdx: nat,
                            g: Grouping, x: DetectedObj)
    requires numDopplerBins > 0
  {
    exists i :: 0 <= i < |objRaw| && InWindow(objRaw[i], minRangeIdx, maxRangeIdx)
      && NotExceeded(objRaw, i, numDopplerBins, g) && x == Report(objRaw[i], numDopplerBins)
  }

  /** In drain order, list-based grouping flags a detection exactly when it
      is in the window and no compared listed neighbour is larger: every
      reported object is such a detection, and when there is room for all of
      them, every such detection is reported. */
  lemma {:induction false} ListGroupedNotExceeded(objRaw: seq<ObjRaw>, numDopplerBins: nat, maxRangeIdx: nat,
                                                  minRangeIdx: nat, g: Grouping, maxObjOut: nat)
    requires DrainOrdered(objRaw, numDopplerBins) && numDopplerBins >= 3
    ensures var keep := ListFlags(objRaw, numDopplerBins, minRangeIdx, maxRangeIdx, g);
            forall i :: 0 <= i < |objRaw| ==>
              (keep[i] <==> InWindow(objRaw[i], minRangeIdx, maxRangeIdx) && NotExceeded(objRaw, i, numDopplerBins, g))
    ensures var out := Emitted(objRaw, ListFlags(objRaw, numDopplerBins, minRangeIdx, maxRangeIdx, g),
                               numDopplerBins, maxObjOut);
            && |out| <= maxObjOut
            && forall t :: 0 <= t < |out| ==>
                 ReportsListPeak(objRaw, numDopplerBins, maxRangeIdx, minRangeIdx, g, out[t])
    ensures |KeptIndices(ListFlags(objRaw, numDopplerBins, minRangeIdx, maxRangeIdx, g))| <= maxObjOut ==>
              forall i :: (0 <= i < |objRaw| && InWindow(objRaw[i], minRangeIdx, maxRangeIdx)
                           && NotExceeded(objRaw, i, numDopplerBins, g)) ==>
                Report(objRaw[i], numDopplerBins)
                  in Emitted(objRaw, ListFlags(objRaw, numDopplerBins, minRangeIdx, maxRangeIdx, g),
                             numDopplerBins, maxObjOut)
  {
    var keep := ListFlags(objRaw, numDopplerBins, minRangeIdx, maxRangeIdx, g);
    var out := Emitted(objRaw, keep, numDopplerBins, maxObjOut);
    EmittedFacts(objRaw, keep, numDopplerBins, maxObjOut);
    forall i | 0 <= i < |objRaw|
      ensures keep[i] <==> InWindow(objRaw[i], minRangeIdx, maxRangeIdx) && NotExceeded(objRaw, i, numDopplerBins, g)
    {
      ListPeakKeptIffNotExceeded(objRaw, i, numDopplerBins, g);
    }
    forall t | 0 <= t < |out|
      ensures ReportsListPeak(objRaw, numDopplerBins, maxRangeIdx, minRangeIdx, g, out[t])
    {
      var i :| 0 <= i < |keep| && keep[i] && out[t] == Report(objRaw[i], numDopplerBins);
      assert InWindow(objRaw[i], minRangeIdx, maxRangeIdx) && NotExceeded(objRaw, i, numDopplerBins, g);
    }
    if |KeptIndices(keep)| <= maxObjOut {
      forall i | 0 <= i < |objRaw| && InWindow(objRaw[i], minRangeIdx, maxRangeIdx)
        && NotExceeded(objRaw, i, numDopplerBins, g)
        ensures Report(objRaw[i], numDopplerBins) in out
      {
        assert keep[i];
      }
    }
  }

  /** The drain order matters: in a list where a detection on Doppler bin
      d - 2 sits just before the wrap-around, the backward scan stops there
      and misses a larger neighbour on bin d - 1, so the smaller detection
      is kept. */
  lemma UnorderedListHidesLargerNeighbour()
    ensures var objRaw := [ObjRaw(5, 3, 1), ObjRaw(5, 2, 9), ObjRaw(9, 1, 1)];
            && !DrainOrdered(objRaw, 16)
            && InCell(objRaw[1], 5, 3, 16, 3) && objRaw[1].peakVal > objRaw[0].peakVal
            && PeakKept(ListKernel(objRaw, 0, 16), DopplerOnly)
  {
    var objRaw := [ObjRaw(5, 3, 1), ObjRaw(5, 2, 9), ObjRaw(9, 1, 1)];
    assert !DrainBefore(objRaw[0], objRaw[1]);
    var mid := MiddleColumn(objRaw, 0);
    assert mid == [0, 0, 0, 0, 1, 0, 0, 0, 0];
    assert Wrap(3 - 2, 16) == 1;
    assert ScanLeft(objRaw, 2, 3, 5, 3, 16, mid) == mid;
    assert Wrap(3 + 2, 16) == 5 && Wrap(3 + 1, 16) == 4;
    assert ScanRight(objRaw, 1, 3, 5, 3, 16, mid) == mid;
    assert ListKernel(objRaw, 0, 16) == mid;
    PeakKeptMeaning(mid, DopplerOnly);
  }

  /** The test of one candidate: inside the window and not exceeded by its
      compared matrix neighbours. */
  method MatrixCandidateKept(kernel: array<nat>, objRaw: seq<ObjRaw>, i: nat, detMatrix: seq<seq<nat>>,
                             numDopplerBins: nat, minRangeIdx: nat, maxRangeIdx: nat, g: Grouping)
    returns (detectedObjFlag: bool)
    requires kernel.Length == 9 && i < |objRaw|
    requires AllMatrixReadable(objRaw, detMatrix, numDopplerBins, minRangeIdx, maxRangeIdx)
    modifies kernel
    ensures detectedObjFlag == MatrixFlags(objRaw, detMatrix, numDopplerBins, minRangeIdx, maxRangeIdx, g)[i]
  {
    detectedObjFlag := false;
    if InWindow(objRaw[i], minRangeIdx, maxRangeIdx) {
      FillMatrixKernel(kernel, detMatrix, numDopplerBins, objRaw[i], minRangeIdx, maxRangeIdx);
      detectedObjFlag := PeakSurvives(kernel, g);
    }
  }

  /** OdsDemo_cfarPeakGrouping: scans the detections in list order, writes
      the reports of the kept ones to objOut and stops when it is full. */
  method CfarPeakGrouping(objOut: array<DetectedObj>, objRaw: seq<ObjRaw>, detMatrix: seq<seq<nat>>,
                          numDopplerBins: nat, maxRangeIdx: nat, minRangeIdx: nat,
                          groupInDopplerDirection: nat, groupInRangeDirection: nat, maxObjOut: nat)
    returns (numObjOut: nat)
    requires 0 < maxObjOut <= objOut.Length
    requires GroupingOf(groupInDopplerDirection, groupInRangeDirection).Some? ==>
               AllMatrixReadable(objRaw, detMatrix, numDopplerBins, minRangeIdx, maxRangeIdx)
    modifies objOut
    ensures numObjOut <= maxObjOut
    ensures objOut[..numObjOut] == MatrixGrouped(objRaw, detMatrix, numDopplerBins, maxRangeIdx, minRangeIdx,
                                                 groupInDopplerDirection, groupInRangeDirection, maxObjOut)
  {
    var grouping := GroupingOf(groupInDopplerDirection, groupInRangeDirection);
    if grouping.None? {
      numObjOut := CopyInWindow(objOut, objRaw, numDopplerBins, maxRangeIdx, minRangeIdx, maxObjOut);
      return;
    }
    var g := grouping.value;
    ghost var keep := MatrixFlags(objRaw, detMatrix, numDopplerBins, minRangeIdx, maxRangeIdx, g);
    var kernel := new nat[9];
    numObjOut := 0;
    var i := 0;
    while i < |objRaw|
      invariant 0 <= i <= |objRaw| && numObjOut < maxObjOut
      invariant objOut[..numObjOut] == ReportsAt(objRaw, KeptIndices(keep[..i]), numDopplerBins)
    {
      var detectedObjFlag := MatrixCandidateKept(kernel, objRaw, i, detMatrix, numDopplerBins,
                                                 minRangeIdx, maxRangeIdx, g);
      numObjOut := EmitCandidate(objOut, objRaw, keep, numDopplerBins, numObjOut, i, detectedObjFlag);
      if numObjOut >= maxObjOut {
        EmitFull(objRaw, keep, numDopplerBins, i + 1, maxObjOut);
        return;
      }
      i := i + 1;
    }
    assert keep[..i] == keep;
  }

  // ---------------------------------------------------------------------
  // OdsDemo_cfarPeakGroupingCfarQualified

  function ListFlags(objRaw: seq<ObjRaw>, numDopplerBins: nat, minRangeIdx: nat, maxRangeIdx: nat,
                     g: Grouping): (keep: seq<bool>)
    requires numDopplerBins > 0
    ensures |keep| == |objRaw|
  {
    seq(|objRaw|, i requires 0 <= i < |objRaw| =>
      InWindow(objRaw[i], minRangeIdx, maxRangeIdx) && PeakKept(ListKernel(objRaw, i, numDopplerBins), g))
  }

  /** The objects OdsDemo_cfarPeakGroupingCfarQualified writes. */
  function ListGrouped(objRaw: seq<ObjRaw>, numDopplerBins: nat, maxRangeIdx: nat, minRangeIdx: nat,
                       groupInDopplerDirection: nat, groupInRangeDirection: nat, maxObjOut: nat): seq<DetectedObj>
    requires GroupingOf(groupInDopplerDirection, groupInRangeDirection).Some? ==> numDopplerBins > 0
  {
    match GroupingOf(groupInDopplerDirection, groupInRangeDirection)
    case None => Emitted(objRaw, CopyFlags(objRaw, minRangeIdx, maxRangeIdx, maxObjOut), numDopplerBins, maxObjOut)
    case Some(g) => Emitted(objRaw, ListFlags(objRaw, numDopplerBins, minRangeIdx, maxRangeIdx, g),
                            numDopplerBins, maxObjOut)
  }

  /** With list-based grouping, every reported object is an in-window
      detection; when there is room for all kept ones, every in-window
      detection with no listed detection in its compared neighbour cells is
      reported. */
  lemma ListGroupedIsolatedPeaks(objRaw: seq<ObjRaw>, numDopplerBins: nat, maxRangeIdx: nat, minRangeIdx: nat,
                                 g: Grouping, maxObjOut: nat)
    requires numDopplerBins > 0
    ensures var keep := ListFlags(objRaw, numDopplerBins, minRangeIdx, maxRangeIdx, g);
            var out := Emitted(objRaw, keep, numDopplerBins, maxObjOut);
            && |out| <= maxObjOut
            && (forall t :: 0 <= t < |out| ==> minRangeIdx <= out[t].rangeIdx <= maxRangeIdx)
            && (|KeptIndices(keep)| <= maxObjOut ==>
                  forall i :: (0 <= i < |objRaw| && InWindow(objRaw[i], minRangeIdx, maxRangeIdx)
                               && (forall q, p :: 0 <= q < |objRaw| && 0 <= p < 9 && p != 4 && p in Cells(g) ==>
                                     !InCell(objRaw[q], objRaw[i].rangeIdx, objRaw[i].dopplerIdx, numDopplerBins, p))) ==>
                      Report(objRaw[i], numDopplerBins) in out)
  {
    var keep := ListFlags(objRaw, numDopplerBins, minRangeIdx, maxRangeIdx, g);
    EmittedFacts(objRaw, keep, numDopplerBins, maxObjOut);
    forall i | 0 <= i < |objRaw| && InWindow(objRaw[i], minRangeIdx, maxRangeIdx)
      && (forall q, p :: 0 <= q < |objRaw| && 0 <= p < 9 && p != 4 && p in Cells(g) ==>
            !InCell(objRaw[q], objRaw[i].rangeIdx, objRaw[i].dopplerIdx, numDopplerBins, p))
      ensures keep[i]
    {
      IsolatedPeakKept(objRaw, i, numDopplerBins, g);
    }
  }

  /** The test of one candidate: inside the window and not exceeded by its
      compared list neighbours. */
  method ListCandidateKept(kernel: array<nat>, objRaw: seq<ObjRaw>, i: nat, numDopplerBins: nat,
                           minRangeIdx: nat, maxRangeIdx: nat, g: Grouping)
    returns (detectedObjFlag: bool)
    requires kernel.Length == 9 && i < |objRaw| && numDopplerBins > 0
    modifies kernel
    ensures detectedObjFlag == ListFlags(objRaw, numDopplerBins, minRangeIdx, maxRangeIdx, g)[i]
  {
    detectedObjFlag := false;
    if InWindow(objRaw[i], minRangeIdx, maxRangeIdx) {
      FillListKernel(kernel, objRaw, i, numDopplerBins);
      detectedObjFlag := PeakSurvives(kernel, g);
    }
  }

  /** OdsDemo_cfarPeakGroupingCfarQualified: as OdsDemo_cfarPeakGrouping,
      with each kernel built from the detection list. */
  method CfarPeakGroupingCfarQualified(objOut: array<DetectedObj>, objRaw: seq<ObjRaw>,
                                       numDopplerBins: nat, maxRangeIdx: nat, minRangeIdx: nat,
                                       groupInDopplerDirection: nat, groupInRangeDirection: nat, maxObjOut: nat)
    returns (numObjOut: nat)
    requires 0 < maxObjOut <= objOut.Length
    requires GroupingOf(groupInDopplerDirection, groupInRangeDirection).Some? ==> numDopplerBins > 0
    modifies objOut
    ensures numObjOut <= maxObjOut
    ensures objOut[..numObjOut] == ListGrouped(objRaw, numDopplerBins, maxRangeIdx, minRangeIdx,
                                               groupInDopplerDirection, groupInRangeDirection, maxObjOut)
  {
    var grouping := GroupingOf(groupInDopplerDirection, groupInRangeDirection);
    if grouping.None? {
      numObjOut := CopyInWindow(objOut, objRaw, numDopplerBins, maxRangeIdx, minRangeIdx, maxObjOut);
      return;
    }
    var g := grouping.value;
    ghost var keep := ListFlags(objRaw, numDopplerBins, minRangeIdx, maxRangeIdx, g);
    var kernel := new nat[9];
    numObjOut := 0;
    var i := 0;
    while i < |objRaw|
      invariant 0 <= i <= |objRaw| && numObjOut < maxObjOut
      invariant objOut[..numObjOut] == ReportsAt(objRaw, KeptIndices(keep[..i]), numDopplerBins)
    {
      var detectedObjFlag := ListCandidateKept(kernel, objRaw, i, numDopplerBins, minRangeIdx, maxRangeIdx, g);
      numObjOut := EmitCandidate(objOut, objRaw, keep, numDopplerBins, numObjOut, i, detectedObjFlag);
      if numObjOut >= maxObjOut {
        EmitFull(objRaw, keep, numDopplerBins, i + 1, maxObjOut);
        return;
      }
      i := i + 1;
    }
    assert keep[..i] == keep;
  }
}
