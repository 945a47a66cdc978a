/** Doppler compensation and BPM decoding of the virtual-antenna symbols.

    With BPM (binary phase modulation) both transmitters fire on every chirp:
    the ping chirp carries A = S1 + S2 and the pong chirp B = S1 - S2. The data
    path first rotates the pong symbols back by half the Doppler phase that
    accumulated between the two chirps, then recovers S1 = (A + B) / 2 and
    S2 = (A - B) / 2 in place. The complex rotation itself (the Q15 multiply of
    the C674x intrinsics) is a parameter: only which coefficient is applied to
    which entries is modelled. */
module DopplerCompensation {
  import opened Common
  import opened DopplerIndex

  /** The table entry at index k, combined with the half-bin coefficient
      when the Doppler index is odd. */
  function TableCoefficient<C>(k: nat, dopplerIdx: nat, coefs: seq<C>, halfBin: C, cmpy: (C, C) -> C): C
    requires k < |coefs|
  {
    if Parity(dopplerIdx) == 1 then cmpy(coefs[k], halfBin) else coefs[k]
  }

  /** The rotation coefficient OdsDemo_addDopplerCompensation applies to a
      Doppler bin: the table is read at the truncating half of the signed
      index (`CompensationIndex`), as the code is written. */
  function Coefficient<C>(dopplerIdx: nat, n: nat, coefs: seq<C>, halfBin: C, cmpy: (C, C) -> C): C
    requires dopplerIdx < n <= |coefs|
  {
    TableCoefficient(CompensationIndex(dopplerIdx, n), dopplerIdx, coefs, halfBin, cmpy)
  }

  /** The coefficient the compensation is meant to apply: the table read at
      the floor half of the signed index (`HalfBinIndex`). */
  function CorrectedCoefficient<C>(dopplerIdx: nat, n: nat, coefs: seq<C>, halfBin: C, cmpy: (C, C) -> C): C
    requires dopplerIdx < n <= |coefs|
  {
    TableCoefficient(HalfBinIndex(dopplerIdx, n), dopplerIdx, coefs, halfBin, cmpy)
  }

  /** The coefficient table as phases, in half Doppler bins modulo a full
      turn: entry k rotates by k bins, the half-bin entry by one half-bin, and
      combining two coefficients adds their phases. */
  function PhaseTable(n: nat): (t: seq<int>)
    ensures |t| == n
  {
    seq(n, k requires 0 <= k < n => 2 * k)
  }

  /** On the phase table, the coefficient the code applies is the signed
      Doppler index modulo a full turn on every bin except the negative odd
      ones, where it is one bin (two half-bins) further. */
  lemma {:induction false} CoefficientPhase(dopplerIdx: nat, n: nat)
    requires dopplerIdx < n && n % 2 == 0
    ensures var s := ToSigned(dopplerIdx, n);
            var err := if s < 0 && s % 2 == 1 then 2 else 0;
            var c := Coefficient(dopplerIdx, n, PhaseTable(n), 1, (a: int, b: int) => a + b);
            c == s + err || c == s + err + 2 * n
  {
    var k := CompensationIndex(dopplerIdx, n);
    assert PhaseTable(n)[k] == 2 * k;
    assert Coefficient(dopplerIdx, n, PhaseTable(n), 1, (a: int, b: int) => a + b) == AppliedHalfBins(k, dopplerIdx);
    CompensationPhaseAsWritten(dopplerIdx, n);
  }

  /** On the phase table, the corrected coefficient is the signed Doppler
      index modulo a full turn on every bin. */
  lemma {:induction false} CorrectedCoefficientPhase(dopplerIdx: nat, n: nat)
    requires dopplerIdx < n && n % 2 == 0
    ensures var c := CorrectedCoefficient(dopplerIdx, n, PhaseTable(n), 1, (a: int, b: int) => a + b);
            c == ToSigned(dopplerIdx, n) || c == ToSigned(dopplerIdx, n) + 2 * n
  {
    var k := HalfBinIndex(dopplerIdx, n);
    assert PhaseTable(n)[k] == 2 * k;
    assert CorrectedCoefficient(dopplerIdx, n, PhaseTable(n), 1, (a: int, b: int) => a + b) == AppliedHalfBins(k, dopplerIdx);
    HalfBinIndexPhase(dopplerIdx, n);
  }

  /** Whatever the table, the code's coefficient is the corrected one on
      every bin whose signed index is not negative and odd. */
  lemma {:induction false} CoefficientIsCorrectedOffNegativeOdd<C>(dopplerIdx: nat, n: nat, coefs: seq<C>,
                                                                    halfBin: C, cmpy: (C, C) -> C)
    requires dopplerIdx < n <= |coefs| && n % 2 == 0
    requires !(ToSigned(dopplerIdx, n) < 0 && ToSigned(dopplerIdx, n) % 2 == 1)
    ensures Coefficient(dopplerIdx, n, coefs, halfBin, cmpy) == CorrectedCoefficient(dopplerIdx, n, coefs, halfBin, cmpy)
  {
    IndicesAgreeOffNegativeOdd(dopplerIdx, n);
  }

  /** OdsDemo_addDopplerCompensation: with no antenna nothing happens;
      otherwise exactly the `numAnt` symbols from `start` on are rotated by the
      coefficient of `dopplerIdx`, and nothing else changes. */
  method AddDopplerCompensation<C>(dopplerIdx: nat, n: nat, coefs: seq<C>, halfBin: C,
                                   buf: array<Cplx>, start: nat, numAnt: nat,
                                   rotate: (C, Cplx) -> Cplx, cmpy: (C, C) -> C)
    requires numAnt > 0 ==> dopplerIdx < n <= |coefs|
    requires start + numAnt <= buf.Length
    modifies buf
    ensures numAnt == 0 ==> buf[..] == old(buf[..])
    ensures forall i :: 0 <= i < buf.Length && !(start <= i < start + numAnt) ==> buf[i] == old(buf[i])
    ensures forall i :: start <= i < start + numAnt ==>
              buf[i] == rotate(TableCoefficient(CompensationIndex(dopplerIdx, n), dopplerIdx, coefs, halfBin, cmpy),
                               old(buf[i]))
  {
    if numAnt == 0 {
      return;
    }
    var c := coefs[CompensationIndex(dopplerIdx, n)];
    if Parity(dopplerIdx) == 1 {
      c := cmpy(c, halfBin);
    }
    var a := 0;
    while a < numAnt
      invariant 0 <= a <= numAnt
      invariant forall i :: 0 <= i < buf.Length && !(start <= i < start + a) ==> buf[i] == old(buf[i])
      invariant forall i :: start <= i < start + a ==> buf[i] == rotate(c, old(buf[i]))
    {
      buf[start + a] := rotate(c, buf[start + a]);
      a := a + 1;
    }
  }

  /** The BPM code of a pair of transmit symbols: ping A = S1 + S2,
      pong B = S1 - S2. */
  function Encode(s1: Cplx, s2: Cplx): (Cplx, Cplx)
  {
    (Cplx(s1.re + s2.re, s1.im + s2.im), Cplx(s1.re - s2.re, s1.im - s2.im))
  }

  /** BPM decoding of one pair, part by part: S1 = (A + B) / 2 and
      S2 = (A - B) / 2 with C division. */
  function Decode(a: Cplx, b: Cplx): (r: (Cplx, Cplx))
    ensures -1 <= 2 * r.0.re - (a.re + b.re) <= 1 && -1 <= 2 * r.1.re - (a.re - b.re) <= 1
    ensures -1 <= 2 * r.0.im - (a.im + b.im) <= 1 && -1 <= 2 * r.1.im - (a.im - b.im) <= 1
  {
    (Cplx(TruncDiv(a.re + b.re, 2), TruncDiv(a.im + b.im, 2)),
     Cplx(TruncDiv(a.re - b.re, 2), TruncDiv(a.im - b.im, 2)))
  }

  /** Decoding recovers the transmitted pair exactly. */
  lemma DecodeEncode(s1: Cplx, s2: Cplx)
    ensures Decode(Encode(s1, s2).0, Encode(s1, s2).1) == (s1, s2)
  {
  }

  /** Re-encoding a decoded pair gives the received pair back exactly when
      ping and pong have parts of equal parity; otherwise the halving loses
      the odd half. */
  lemma EncodeDecode(a: Cplx, b: Cplx)
    ensures var d := Decode(a, b);
            Encode(d.0, d.1) == (a, b) <==> (a.re + b.re) % 2 == 0 && (a.im + b.im) % 2 == 0
  {
    var d := Decode(a, b);
    if (a.re + b.re) % 2 != 0 {
      assert Encode(d.0, d.1).0.re != a.re || Encode(d.0, d.1).1.re != b.re;
    }
    if (a.im + b.im) % 2 != 0 {
      assert Encode(d.0, d.1).0.im != a.im || Encode(d.0, d.1).1.im != b.im;
    }
  }

  /** The buffer after the first `count` pairs have been decoded in place. */
  ghost function DecodedUpTo(s: seq<Cplx>, numRxAnt: nat, count: nat): (r: seq<Cplx>)
    requires count <= numRxAnt && 2 * numRxAnt <= |s|
    ensures |r| == |s|
  {
    seq(|s|, k requires 0 <= k < |s| =>
      if k < count then Decode(s[k], s[numRxAnt + k]).0
      else if numRxAnt <= k < numRxAnt + count then Decode(s[k - numRxAnt], s[k]).1
      else s[k])
  }

  lemma DecodedAll(s: seq<Cplx>, numRxAnt: nat, i: nat)
    requires i < numRxAnt && 2 * numRxAnt <= |s|
    ensures (DecodedUpTo(s, numRxAnt, numRxAnt)[i], DecodedUpTo(s, numRxAnt, numRxAnt)[numRxAnt + i])
            == Decode(s[i], s[numRxAnt + i])
  {
  }

  lemma DecodedStep(s: seq<Cplx>, numRxAnt: nat, count: nat)
    requires count < numRxAnt && 2 * numRxAnt <= |s|
    ensures var d := Decode(s[count], s[numRxAnt + count]);
            DecodedUpTo(s, numRxAnt, count + 1)
            == DecodedUpTo(s, numRxAnt, count)[count := d.0][numRxAnt + count := d.1]
  {
    var d := Decode(s[count], s[numRxAnt + count]);
    var after := DecodedUpTo(s, numRxAnt, count + 1);
    var before := DecodedUpTo(s, numRxAnt, count);
    forall k | 0 <= k < |s|
      ensures after[k] == before[count := d.0][numRxAnt + count := d.1][k]
    {
      if k == numRxAnt + count {
        assert k - numRxAnt == count;
      }
    }
  }

  /** OdsDemo_decodeBPM: the ping symbols sit in the first numRxAnt entries,
      the pong symbols in the next numRxAnt; each pair is decoded in place and
      nothing beyond the 2 * numRxAnt entries is touched. */
  method DecodeBpm(buf: array<Cplx>, numRxAnt: nat)
    requires 2 * numRxAnt <= buf.Length
    modifies buf
    ensures forall i :: 0 <= i < numRxAnt ==>
              (buf[i], buf[numRxAnt + i]) == Decode(old(buf[i]), old(buf[numRxAnt + i]))
    ensures forall i :: 2 * numRxAnt <= i < buf.Length ==> buf[i] == old(buf[i])
  {
    ghost var orig := buf[..];
    var idx := 0;
    while idx < numRxAnt
      invariant 0 <= idx <= numRxAnt
      invariant buf[..] == DecodedUpTo(orig, numRxAnt, idx)
    {
      DecodedStep(orig, numRxAnt, idx);
      var d := Decode(buf[idx], buf[numRxAnt + idx]);
      buf[idx] := d.0;
      buf[numRxAnt + idx] := d.1;
      idx := idx + 1;
    }
    forall i | 0 <= i < numRxAnt
      ensures (buf[i], buf[numRxAnt + i]) == Decode(orig[i], orig[numRxAnt + i])
    {
      DecodedAll(orig, numRxAnt, i);
    }
    forall i | 2 * numRxAnt <= i < buf.Length
      ensures buf[i] == orig[i]
    {
      assert buf[i] == DecodedUpTo(orig, numRxAnt, numRxAnt)[i];
    }
  }

  /** The buffer after the first `count` Doppler bins have had their pong
      symbol compensated and their pair decoded in place. */
  ghost function CompensatedUpTo<C>(s: seq<Cplx>, n: nat, count: nat, coefs: seq<C>, halfBin: C,
                                    rotate: (C, Cplx) -> Cplx, cmpy: (C, C) -> C): (r: seq<Cplx>)
    requires count <= n && 2 * n <= |s| && n <= |coefs|
    ensures |r| == |s|
  {
    seq(|s|, k requires 0 <= k < |s| =>
      if k < count then Decode(s[k], rotate(Coefficient(k, n, coefs, halfBin, cmpy), s[n + k])).0
      else if n <= k < n + count then Decode(s[k - n], rotate(Coefficient(k - n, n, coefs, halfBin, cmpy), s[k])).1
      else s[k])
  }

  lemma CompensatedStep<C>(s: seq<Cplx>, n: nat, count: nat, coefs: seq<C>, halfBin: C,
                           rotate: (C, Cplx) -> Cplx, cmpy: (C, C) -> C)
    requires count < n && 2 * n <= |s| && n <= |coefs|
    ensures var d := Decode(s[count], rotate(Coefficient(count, n, coefs, halfBin, cmpy), s[n + count]));
            CompensatedUpTo(s, n, count + 1, coefs, halfBin, rotate, cmpy)
            == CompensatedUpTo(s, n, count, coefs, halfBin, rotate, cmpy)[count := d.0][n + count := d.1]
  {
    var d := Decode(s[count], rotate(Coefficient(count, n, coefs, halfBin, cmpy), s[n + count]));
    var after := CompensatedUpTo(s, n, count + 1, coefs, halfBin, rotate, cmpy);
    var before := CompensatedUpTo(s, n, count, coefs, halfBin, rotate, cmpy);
    forall k | 0 <= k < |s|
      ensures after[k] == before[count := d.0][n + count := d.1][k]
    {
      if k == n + count {
        assert k - n == count;
      }
    }
  }

  lemma CompensatedAll<C>(s: seq<Cplx>, n: nat, coefs: seq<C>, halfBin: C,
                          rotate: (C, Cplx) -> Cplx, cmpy: (C, C) -> C, i: nat)
    requires i < n && 2 * n <= |s| && n <= |coefs|
    ensures var r := CompensatedUpTo(s, n, n, coefs, halfBin, rotate, cmpy);
            (r[i], r[n + i]) == Decode(s[i], rotate(Coefficient(i, n, coefs, halfBin, cmpy), s[n + i]))
  {
  }

  /** One Doppler bin of the BPM branch: the pong symbol is compensated with
      the bin's coefficient, then the pair is decoded in place. */
  method CompensateAndDecodeBin<C>(fft: array<Cplx>, n: nat, idx: nat, coefs: seq<C>, halfBin: C,
                                   rotate: (C, Cplx) -> Cplx, cmpy: (C, C) -> C)
    requires idx < n && 2 * n <= fft.Length && n <= |coefs|
    modifies fft
    ensures var d := Decode(old(fft[idx]), rotate(Coefficient(idx, n, coefs, halfBin, cmpy), old(fft[n + idx])));
            fft[..] == old(fft[..])[idx := d.0][n + idx := d.1]
  {
    AddDopplerCompensation(idx, n, coefs, halfBin, fft, n + idx, 1, rotate, cmpy);
    var d := Decode(fft[idx], fft[n + idx]);
    fft[idx] := d.0;
    fft[n + idx] := d.1;
  }

  /** The BPM branch of the 2D processing: for every Doppler bin the pong
      symbol (at n + idx) is first Doppler-compensated with its own bin's
      coefficient, then the pair is decoded in place. */
  method CompensateAndDecode<C>(fft: array<Cplx>, n: nat, coefs: seq<C>, halfBin: C,
                                rotate: (C, Cplx) -> Cplx, cmpy: (C, C) -> C)
    requires 2 * n <= fft.Length && n <= |coefs|
    modifies fft
    ensures forall idx :: 0 <= idx < n ==>
              (fft[idx], fft[n + idx])
              == Decode(old(fft[idx]), rotate(Coefficient(idx, n, coefs, halfBin, cmpy), old(fft[n + idx])))
    ensures forall i :: 2 * n <= i < fft.Length ==> fft[i] == old(fft[i])
  {
    ghost var orig := fft[..];
    var idx := 0;
    while idx < n
      invariant 0 <= idx <= n
      invariant fft[..] == CompensatedUpTo(orig, n, idx, coefs, halfBin, rotate, cmpy)
    {
      CompensatedStep(orig, n, idx, coefs, halfBin, rotate, cmpy);
      CompensateAndDecodeBin(fft, n, idx, coefs, halfBin, rotate, cmpy);
      idx := idx + 1;
    }
    forall i | 0 <= i < n
      ensures (fft[i], fft[n + i])
              == Decode(orig[i], rotate(Coefficient(i, n, coefs, halfBin, cmpy), orig[n + i]))
    {
      CompensatedAll(orig, n, coefs, halfBin, rotate, cmpy, i);
    }
    forall i | 2 * n <= i < fft.Length
      ensures fft[i] == orig[i]
    {
      assert fft[i] == CompensatedUpTo(orig, n, n, coefs, halfBin, rotate, cmpy)[i];
    }
  }
}
