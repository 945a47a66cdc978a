/** Shared vocabulary of the data path: optional values, complex samples and
    the C integer operations that the data path relies on. */
module Common {

  datatype Option<+T> = None | Some(value: T)

  /** A complex fixed-point sample; the width of the parts is decided by the
      buffer that holds it (16-bit in the radar cube, 32-bit after the 2D FFT). */
  datatype Cplx = Cplx(re: int, im: int)

  /** 2^k */
  function Pow2(k: nat): (r: nat)
    ensures r >= 1
  {
    if k == 0 then 1 else 2 * Pow2(k - 1)
  }

  ghost predicate IsPow2(n: int)
  {
    exists k: nat :: Pow2(k) == n
  }

  /** C's `/` on signed integers: the quotient is truncated toward zero. */
  function TruncDiv(x: int, d: int): (q: int)
    requires d > 0
    ensures x >= 0 ==> q == x / d
    ensures x < 0 ==> q == -((-x) / d)
  {
    if x >= 0 then x / d else -((-x) / d)
  }

  /** Storing an integer into an `int16_t` keeps its low 16 bits (two's complement). */
  function Wrap16(x: int): int
  {
    var m := x % 0x1_0000;
    if m >= 0x8000 then m - 0x1_0000 else m
  }

  /** The stored value is an int16 and differs from the integer by a multiple of 2^16. */
  lemma Wrap16Range(x: int)
    ensures -0x8000 <= Wrap16(x) < 0x8000
    ensures (Wrap16(x) - x) % 0x1_0000 == 0
  {
  }

  /** An arithmetic right shift by k bits rounds toward minus infinity. */
  function ShiftRight(x: int, k: nat): (r: int)
    ensures r * Pow2(k) <= x < r * Pow2(k) + Pow2(k)
  {
    x / Pow2(k)
  }

  lemma {:induction false} Pow2Add(a: nat, b: nat)
    ensures Pow2(a + b) == Pow2(a) * Pow2(b)
  {
    if a > 0 {
      Pow2Add(a - 1, b);
    }
  }

  lemma {:induction false} Pow2Monotone(a: nat, b: nat)
    requires a <= b
    ensures Pow2(a) <= Pow2(b)
  {
    if a < b {
      Pow2Monotone(a, b - 1);
    }
  }
  /** d copies of n, d at least one, add up to at least n. */
  lemma {:induction false} MulAtLeast(d: int, n: nat)
    requires d >= 1
    ensures d * n >= n
    decreases d
  {
    if d > 1 {
      MulAtLeast(d - 1, n);
      assert d * n == (d - 1) * n + n;
    }
  }

  /** Euclidean division is determined by a quotient and a remainder in [0, n). */
  lemma ModUnique(x: int, n: nat, q: int, r: int)
    requires n > 0 && x == q * n + r && 0 <= r < n
    ensures x / n == q && x % n == r
  {
    var q', r' := x / n, x % n;
    assert x == q' * n + r';
    if q' < q {
      assert q * n == q' * n + (q - q') * n;
      MulAtLeast(q - q', n);
    } else if q < q' {
      assert q' * n == q * n + (q' - q) * n;
      MulAtLeast(q' - q, n);
    }
  }
}
