/** Accumulations of the 2D processing: the clutter-removal mean of a
    Doppler input, and the sum over antennas of the log2 magnitudes that
    feeds the detection matrix. */
module DopplerAccum {
  import opened Common

  /** The clutter-removal mean: (sum + 2^(k-1)) >> k, the sum of 2^k samples
      divided by their number and rounded half up. */
  function ClutterMean(sum: int, k: nat): (m: int)
    requires k >= 1
    ensures m * Pow2(k) - Pow2(k - 1) <= sum < m * Pow2(k) + Pow2(k - 1)
  {
    assert Pow2(k) == 2 * Pow2(k - 1);
    ShiftRight(sum + Pow2(k - 1), k)
  }

  /** A constant input is its own mean: the rounding adds nothing. */
  lemma {:induction false} ClutterMeanOfConstant(v: int, k: nat)
    requires k >= 1
    ensures ClutterMean(v * Pow2(k), k) == v
  {
    var p := Pow2(k);
    var m := ClutterMean(v * p, k);
    assert p == 2 * Pow2(k - 1);
    if m > v {
      MulStrict(v, m, p);
    } else if m < v {
      MulStrict(m, v, p);
    }
  }

  /** The mean of 2^k samples that fit in int16_t fits in the int16_t it is
      stored into, so the store keeps it. */
  lemma {:induction false} ClutterMeanFitsInt16(sum: int, k: nat)
    requires k >= 1 && -0x8000 * Pow2(k) <= sum <= 0x7FFF * Pow2(k)
    ensures -0x8000 <= ClutterMean(sum, k) <= 0x7FFF
    ensures Wrap16(ClutterMean(sum, k)) == ClutterMean(sum, k)
  {
    var p := Pow2(k);
    var m := ClutterMean(sum, k);
    assert p == 2 * Pow2(k - 1);
    if m > 0x7FFF {
      MulStrict(0x7FFF, m, p);
    }
    if m < -0x8000 {
      MulStrict(m, -0x8000, p);
    }
    assert (m - m) % 0x1_0000 == 0;
  }

  /** a < b scales to a * p + p <= b * p for p > 0. */
  lemma MulStrict(a: int, b: int, p: nat)
    requires a < b
    ensures a * p + p <= b * p
  {
    assert b * p == a * p + p + (b - a - 1) * p;
    assert (b - a - 1) * p >= 0;
  }

  /** OdsDemo_log2AbsAccum after the magnitudes are computed: the first
      antenna assigns its log2 magnitudes to the sum, every other antenna adds
      its own with the accumulation kernel (a parameter here). Only the
      first n entries change. */
  method Log2AbsAccum(rxAntIdx: nat, log2Abs: array<nat>, sumAbs: array<nat>, n: nat,
                      accum: (nat, nat) -> nat)
    requires n <= log2Abs.Length && n <= sumAbs.Length && log2Abs != sumAbs
    modifies sumAbs
    ensures rxAntIdx == 0 ==> forall i :: 0 <= i < n ==> sumAbs[i] == log2Abs[i]
    ensures rxAntIdx != 0 ==> forall i :: 0 <= i < n ==> sumAbs[i] == accum(old(sumAbs[i]), log2Abs[i])
    ensures forall i :: n <= i < sumAbs.Length ==> sumAbs[i] == old(sumAbs[i])
  {
    var idx := 0;
    while idx < n
      invariant idx <= n
      invariant rxAntIdx == 0 ==> forall i :: 0 <= i < idx ==> sumAbs[i] == log2Abs[i]
      invariant rxAntIdx != 0 ==> forall i :: 0 <= i < idx ==> sumAbs[i] == accum(old(sumAbs[i]), log2Abs[i])
      invariant forall i :: idx <= i < sumAbs.Length ==> sumAbs[i] == old(sumAbs[i])
    {
      if rxAntIdx == 0 {
        sumAbs[idx] := log2Abs[idx];
      } else {
        sumAbs[idx] := accum(sumAbs[idx], log2Abs[idx]);
      }
      idx := idx + 1;
    }
  }

  /** Entry i of the sum after the antennas `rows`, the first assigning. */
  function FirstAssigns(rows: seq<seq<nat>>, i: nat, accum: (nat, nat) -> nat): nat
    requires |rows| >= 1 && forall r :: r in rows ==> i < |r|
  {
    if |rows| == 1 then rows[0][i]
    else accum(FirstAssigns(rows[..|rows| - 1], i, accum), rows[|rows| - 1][i])
  }

  /** Entry i of the sum when it starts from 0 and every antenna accumulates. */
  function FromZero(rows: seq<seq<nat>>, i: nat, accum: (nat, nat) -> nat): nat
    requires forall r :: r in rows ==> i < |r|
  {
    if |rows| == 0 then 0
    else accum(FromZero(rows[..|rows| - 1], i, accum), rows[|rows| - 1][i])
  }

  /** Assigning for the first antenna saves clearing the sum: it gives what
      accumulating from zero gives, for a kernel that adds onto 0 without
      change. */
  lemma {:induction false} FirstAssignsIsFromZero(rows: seq<seq<nat>>, i: nat, accum: (nat, nat) -> nat)
    requires |rows| >= 1 && forall r :: r in rows ==> i < |r|
    requires forall x :: accum(0, x) == x
    ensures FirstAssigns(rows, i, accum) == FromZero(rows, i, accum)
  {
    var prefix := rows[..|rows| - 1];
    if |rows| == 1 {
      assert FromZero(prefix, i, accum) == 0;
    } else {
      FirstAssignsIsFromZero(prefix, i, accum);
    }
  }
}
