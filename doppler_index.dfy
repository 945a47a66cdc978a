/** Index conventions of the data path. FFT outputs are indexed 0..n-1; the
    upper half of that range stands for negative frequencies. The Doppler
    macros, the azimuth conversion of the X/Y estimation and the peak
    conversion of the 2D angle search each map an FFT index to a signed one,
    and the Doppler compensation halves a signed Doppler index. */
module DopplerIndex {
  import opened Common

  /** DOPPLER_IDX_TO_SIGNED: the lower half stays, the upper half is moved
      down by n. */
  function ToSigned(idx: int, n: nat): int
  {
    if idx < n / 2 then idx else idx - n
  }

  /** DOPPLER_IDX_TO_UNSIGNED and WRAP_DOPPLER_IDX: `idx & (n - 1)`, which for
      a power-of-two n on a two's-complement index is the Euclidean remainder. */
  function Wrap(idx: int, n: nat): (r: int)
    requires n > 0
    ensures 0 <= r < n
  {
    idx % n
  }

  /** The signed index names the same bin, and lies in [n/2 - n, n/2). */
  lemma ToSignedRange(idx: int, n: nat)
    requires 0 <= idx < n
    ensures n / 2 - n <= ToSigned(idx, n) < n / 2
    ensures ToSigned(idx, n) == idx || ToSigned(idx, n) == idx - n
  {
  }

  /** Within one period of [0, n), wrapping adds or subtracts n at most once. */
  lemma WrapNear(x: int, n: nat)
    requires n > 0 && -(n as int) <= x < 2 * n
    ensures Wrap(x, n) == if x < 0 then x + n else if x < n then x else x - n
  {
    if x < 0 {
      ModUnique(x, n, -1, x + n);
    } else if x < n {
      ModUnique(x, n, 0, x);
    } else {
      ModUnique(x, n, 1, x - n);
    }
  }

  /** Signing and wrapping are inverse: in one direction on the FFT
      indices, in the other on the signed range. */
  lemma {:induction false} WrapToSigned(idx: int, n: nat)
    requires 0 <= idx < n
    ensures Wrap(ToSigned(idx, n), n) == idx
  {
    WrapNear(ToSigned(idx, n), n);
  }

  lemma {:induction false} ToSignedWrap(s: int, n: nat)
    requires n > 0 && n / 2 - n <= s < n / 2
    ensures ToSigned(Wrap(s, n), n) == s
  {
    WrapNear(s, n);
  }

  /** The azimuth index conversion of the X/Y estimation: an index above
      n/2 - 1 is moved down by n. The bound is computed in uint32, so for
      n < 2 it wraps to 0xFFFF_FFFF. */
  function AzimuthToSigned(azimIdx: nat, n: nat): int
  {
    if azimIdx > (n / 2 - 1) % 0x1_0000_0000 then azimIdx - n else azimIdx
  }

  /** For two angle bins or more it is the Doppler convention: both move
      exactly the indices from n/2 on. */
  lemma AzimuthIsDopplerConvention(azimIdx: nat, n: nat)
    requires 2 <= n < 0x1_0000_0000
    ensures AzimuthToSigned(azimIdx, n) == ToSigned(azimIdx, n)
  {
    assert (n / 2 - 1) % 0x1_0000_0000 == n / 2 - 1;
  }

  /** For fewer than two angle bins the wrapped bound exceeds every uint16
      index, so no index is moved, whereas the Doppler convention moves
      index 0 of a single bin to -1. */
  lemma AzimuthSingleBinUnmoved(azimIdx: nat, n: nat)
    requires n < 2 && azimIdx < 0x1_0000
    ensures AzimuthToSigned(azimIdx, n) == azimIdx
    ensures n == 1 && azimIdx == 0 ==> ToSigned(azimIdx, n) == -1
  {
    assert (n / 2 - 1) % 0x1_0000_0000 == 0xFFFF_FFFF;
  }

  /** The peak conversion of the 2D angle search: an index above n >> 1 is
      moved down by n, so n/2 itself stays positive. */
  function PeakToSigned(idx: int, n: nat): int
  {
    if idx > n / 2 then idx - n else idx
  }

  /** The peak conversion lands in (n/2 - n, n/2] and names the same bin. */
  lemma PeakToSignedRange(idx: int, n: nat)
    requires 0 <= idx < n
    ensures n / 2 - n < PeakToSigned(idx, n) <= n / 2
    ensures PeakToSigned(idx, n) == idx || PeakToSigned(idx, n) == idx - n
  {
  }

  /** The two conventions disagree on exactly one index, the Nyquist bin n/2. */
  lemma PeakAndDopplerDifferOnlyAtHalf(idx: int, n: nat)
    requires 0 <= idx < n
    ensures PeakToSigned(idx, n) != ToSigned(idx, n) <==> idx == n / 2
  {
  }

  /** 1 when `idx & 0x1` is set, for a non-negative index. */
  function Parity(idx: nat): (p: nat)
    ensures p < 2 && (idx - p) % 2 == 0
  {
    idx % 2
  }

  /** The table index of OdsDemo_addDopplerCompensation as written: the signed
      Doppler index halved by C division (truncating toward zero), moved back
      into [0, n) when negative. */
  function CompensationIndex(dopplerIdx: nat, n: nat): (k: int)
    requires dopplerIdx < n
    ensures 0 <= k < n
    ensures k == TruncDiv(ToSigned(dopplerIdx, n), 2) || k == TruncDiv(ToSigned(dopplerIdx, n), 2) + n
  {
    var h := TruncDiv(ToSigned(dopplerIdx, n), 2);
    if h < 0 then h + n else h
  }

  /** The phase the compensation applies, in units of half a Doppler bin:
      twice the table index, plus one half-bin rotation for an odd index.
      It is meant to equal the signed Doppler index modulo a full turn (2n). */
  function AppliedHalfBins(k: int, dopplerIdx: nat): int
  {
    2 * k + Parity(dopplerIdx)
  }

  /** The signed index has the parity of the FFT index when n is even. */
  lemma {:induction false} ParityOfSigned(dopplerIdx: nat, n: nat)
    requires dopplerIdx < n && n % 2 == 0
    ensures Parity(dopplerIdx) == ToSigned(dopplerIdx, n) % 2
  {
    if dopplerIdx >= n / 2 {
      var b := dopplerIdx % 2;
      ModUnique(ToSigned(dopplerIdx, n), 2, dopplerIdx / 2 - n / 2, b);
    }
  }

  /** Truncating halving: twice the half plus the remainder gives the value
      back, except for a negative odd value, which comes out two higher. */
  lemma {:induction false} TruncHalf(s: int)
    ensures 2 * TruncDiv(s, 2) + s % 2 == s + (if s < 0 && s % 2 == 1 then 2 else 0)
  {
    if s < 0 {
      ModUnique(-s, 2, (-s) / 2, (-s) % 2);
      if s % 2 == 1 {
        ModUnique(s, 2, s / 2, 1);
        ModUnique(-s, 2, -(s / 2) - 1, 1);
      } else {
        ModUnique(-s, 2, -(s / 2), 0);
      }
    }
  }

  /** As written, the applied phase is the signed index for every bin except
      the negative odd ones, where it is two half-bins too far (a whole bin). */
  lemma {:induction false} CompensationPhaseAsWritten(dopplerIdx: nat, n: nat)
    requires dopplerIdx < n && n % 2 == 0
    ensures var s := ToSigned(dopplerIdx, n);
            var err := if s < 0 && s % 2 == 1 then 2 else 0;
            var applied := AppliedHalfBins(CompensationIndex(dopplerIdx, n), dopplerIdx);
            applied == s + err || applied == s + err + 2 * n
  {
    ParityOfSigned(dopplerIdx, n);
    TruncHalf(ToSigned(dopplerIdx, n));
  }

  /** A concrete bin exposing it: with 64 Doppler bins, bin 63 is Doppler -1,
      yet the compensation applies +1 half-bin instead of -1. */
  lemma CompensationOffByOneBinExample()
    ensures ToSigned(63, 64) == -1
    ensures CompensationIndex(63, 64) == 0
    ensures AppliedHalfBins(CompensationIndex(63, 64), 63) == 1
  {
  }

  /** The corrected table index: the signed Doppler index halved rounding
      toward minus infinity (an arithmetic shift), moved back into [0, n). */
  function HalfBinIndex(dopplerIdx: nat, n: nat): (k: int)
    requires dopplerIdx < n
    ensures 0 <= k < n
    ensures k == ToSigned(dopplerIdx, n) / 2 || k == ToSigned(dopplerIdx, n) / 2 + n
  {
    var h := ToSigned(dopplerIdx, n) / 2;
    if h < 0 then h + n else h
  }

  /** With it the applied phase is the signed Doppler index for every bin. */
  lemma {:induction false} HalfBinIndexPhase(dopplerIdx: nat, n: nat)
    requires dopplerIdx < n && n % 2 == 0
    ensures var applied := AppliedHalfBins(HalfBinIndex(dopplerIdx, n), dopplerIdx);
            applied == ToSigned(dopplerIdx, n) || applied == ToSigned(dopplerIdx, n) + 2 * n
  {
    var s := ToSigned(dopplerIdx, n);
    var k := HalfBinIndex(dopplerIdx, n);
    var p := Parity(dopplerIdx);
    assert (s - dopplerIdx) % 2 == 0;
    assert p == s % 2;
    var h := s / 2;
    assert 2 * h + p == s;
    if h < 0 {
      assert 2 * k + p == s + 2 * n;
    }
  }

  /** Both rules pick the same table entry on every bin but the negative odd ones. */
  lemma {:induction false} IndicesAgreeOffNegativeOdd(dopplerIdx: nat, n: nat)
    requires dopplerIdx < n && n % 2 == 0
    ensures CompensationIndex(dopplerIdx, n) == HalfBinIndex(dopplerIdx, n)
            <==> !(ToSigned(dopplerIdx, n) < 0 && ToSigned(dopplerIdx, n) % 2 == 1)
  {
    var s := ToSigned(dopplerIdx, n);
    if s < 0 && s % 2 == 1 {
      assert TruncDiv(s, 2) == s / 2 + 1;
      if s / 2 + 1 < 0 {
        assert CompensationIndex(dopplerIdx, n) == s / 2 + 1 + n;
      } else {
        assert s == -1;
      }
    }
  }
}
