/** 32-bit serial-number and clock arithmetic, with an unbounded counterpart.
    Every protocol function takes its arithmetic from here: with `wrap` it computes on
    `IUINT32` values exactly as the C code does, without it on plain integers. */
module Serial {

  const M32: int := 0x1_0000_0000
  const HALF: int := 0x8000_0000

  /** Conversion to IUINT32. */
  function U32(x: int): (r: int)
    ensures 0 <= r < M32
    ensures 0 <= x < M32 ==> r == x
  {
    x % M32
  }

  /** Conversion to IINT32 (two's complement). */
  function I32(x: int): (r: int)
    ensures -HALF <= r < HALF
    ensures -HALF <= x < HALF ==> r == x
  {
    var u := U32(x);
    if u < HALF then u else u - M32
  }

  /** `_itimediff`: the signed distance from `earlier` to `later` on the 32-bit circle. */
  function TimeDiff(later: int, earlier: int): (r: int)
    ensures -HALF <= r < HALF
    ensures -HALF <= later - earlier < HALF ==> r == later - earlier
  {
    I32(later - earlier)
  }

  /** Serial comparison in the chosen arithmetic. */
  function Diff(wrap: bool, later: int, earlier: int): int {
    if wrap then TimeDiff(later, earlier) else later - earlier
  }

  /** Serial increment in the chosen arithmetic. */
  function Plus(wrap: bool, x: int, n: int): int {
    if wrap then U32(x + n) else x + n
  }

  ghost predicate InRange(wrap: bool, x: int) {
    0 <= x && (wrap ==> x < M32)
  }

  /** How far `x` lies ahead of `base`, going forward only. */
  function Off(wrap: bool, x: int, base: int): int {
    if wrap then U32(x - base) else x - base
  }

  function Min(x: int, y: int): int { if x <= y then x else y }

  function Max(x: int, y: int): int { if x >= y then x else y }

  /** Comparing two wrapped numbers answers as comparing the originals does, exactly
      when the originals are less than half the circle apart. */
  lemma WrappedDiff(x: int, y: int)
    ensures TimeDiff(U32(x), U32(y)) == x - y <==> -HALF <= x - y < HALF
  {
    U32Sub(x, y);
  }

  lemma U32Sub(x: int, y: int)
    ensures U32(U32(x) - U32(y)) == U32(x - y)
  {
    var qx, qy := x / M32, y / M32;
    assert x == qx * M32 + U32(x) && y == qy * M32 + U32(y);
    U32Shift(x - y, qx - qy);
    assert U32(x) - U32(y) == x - y - (qx - qy) * M32;
  }

  lemma U32Shift(x: int, n: int)
    ensures U32(x - n * M32) == U32(x)
  {
  }

  lemma U32Add(x: int, n: int)
    ensures U32(U32(x) + n) == U32(x + n)
  {
    U32Shift(x + n, x / M32);
  }

  lemma U32Small(x: int)
    requires 0 <= x < M32
    ensures U32(x) == x
  {
  }

  lemma I32Same(x: int, y: int)
    requires U32(x) == U32(y)
    ensures I32(x) == I32(y)
  {
  }

  /** Two numbers less than a full circle apart wrap to the same value only if equal. */
  lemma U32Injective(x: int, y: int)
    requires -M32 < x - y < M32
    ensures U32(x) == U32(y) <==> x == y
  {
  }

  /** Inside a window of at most half the circle, `Diff` is subtraction of offsets. */
  lemma DiffIsOffset(wrap: bool, x: int, y: int, base: int)
    requires -HALF <= Off(wrap, x, base) - Off(wrap, y, base) < HALF
    ensures Diff(wrap, x, y) == Off(wrap, x, base) - Off(wrap, y, base)
  {
    if wrap {
      U32Sub(x - base, y - base);
    }
  }

  /** Moving the base forward to `b2` shortens every offset beyond it by the same amount. */
  lemma Rebase(wrap: bool, x: int, base: int, b2: int)
    requires Off(wrap, b2, base) <= Off(wrap, x, base)
    ensures Off(wrap, x, b2) == Off(wrap, x, base) - Off(wrap, b2, base)
  {
    if wrap {
      U32Sub(x - base, b2 - base);
    }
  }

  lemma OffPlus(wrap: bool, x: int, n: int, base: int)
    requires 0 <= Off(wrap, x, base) + n < M32
    ensures Off(wrap, Plus(wrap, x, n), base) == Off(wrap, x, base) + n
  {
    if wrap {
      U32Sub(x + n, base);
      U32Sub(U32(x + n), base);
      U32Add(x - base, n);
    }
  }

  lemma OffZero(wrap: bool, x: int, y: int)
    requires InRange(wrap, x) && InRange(wrap, y)
    ensures Off(wrap, x, y) == 0 <==> x == y
  {
  }
}
