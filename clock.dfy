/** How long the tick loop sleeps: from the current instant to the start of the next
    whole second, computed from the clock's second count and nanosecond count in
    64-bit signed arithmetic. */
module Clock {

  const NanosPerSecond: int := 1_000_000_000

  const TwoTo63: int := 0x8000_0000_0000_0000
  const TwoTo64: int := 0x1_0000_0000_0000_0000

  predicate InInt64(x: int) {
    -TwoTo63 <= x < TwoTo63
  }

  /** Two's-complement wrap-around of a 64-bit signed integer. */
  function Wrap64(x: int): (r: int)
    ensures InInt64(r) && (r - x) % TwoTo64 == 0
    ensures InInt64(x) ==> r == x
  {
    (x + TwoTo63) % TwoTo64 - TwoTo63
  }

  /** The sleep duration, evaluated step by step as the 64-bit operations do:
      (unix + 1) * 1000 * 1000 * 1000 - unixNano, each result wrapped. */
  function WaitDuration(unix: int, unixNano: int): int {
    Wrap64(Wrap64(Wrap64(Wrap64(Wrap64(unix + 1) * 1000) * 1000) * 1000) - unixNano)
  }

  /** The instant at the start of second q, in nanoseconds. */
  function SecondStart(q: int): int {
    q * NanosPerSecond
  }

  /** Values that differ by a multiple of 2^64 wrap to the same 64-bit value. */
  lemma WrapCongruent(x: int, y: int)
    requires (x - y) % TwoTo64 == 0
    ensures Wrap64(x) == Wrap64(y)
  {
    var k := (x - y) / TwoTo64;
    assert x + TwoTo63 == (y + TwoTo63) + k * TwoTo64;
    ModShift(y + TwoTo63, k);
  }

  lemma ModShift(a: int, k: int)
    ensures (a + k * TwoTo64) % TwoTo64 == a % TwoTo64
  {
  }

  /** Wrapping after every step gives the wrap of the exact value. */
  lemma {:induction false} WaitDurationIsWrappedExact(unix: int, unixNano: int)
    ensures WaitDuration(unix, unixNano) == Wrap64(SecondStart(unix + 1) - unixNano)
  {
    var a := unix + 1;
    var a1 := Wrap64(a);
    MulCongruent(a1, a);
    var b1 := Wrap64(a1 * 1000);
    MulCongruent(b1, a * 1000);
    var c1 := Wrap64(b1 * 1000);
    MulCongruent(c1, a * 1000 * 1000);
    var d1 := Wrap64(c1 * 1000);
    assert (d1 - unixNano) - (a * 1000 * 1000 * 1000 - unixNano) == d1 - a * 1000 * 1000 * 1000;
    WrapCongruent(d1 - unixNano, a * 1000 * 1000 * 1000 - unixNano);
  }

  /** If x is congruent to y modulo 2^64, the wrap of x * 1000 is congruent to y * 1000. */
  lemma MulCongruent(x: int, y: int)
    requires (x - y) % TwoTo64 == 0
    ensures (Wrap64(x * 1000) - y * 1000) % TwoTo64 == 0
  {
    var k := (x - y) / TwoTo64;
    assert x - y == k * TwoTo64;
    var r := Wrap64(x * 1000);
    var m := (r - x * 1000) / TwoTo64;
    assert r - x * 1000 == m * TwoTo64;
    ModShift(0, m + k * 1000);
    assert r - y * 1000 == 0 + (m + k * 1000) * TwoTo64;
  }

  /** No second boundary lies strictly between the current instant and the start of
      the next second. */
  lemma NoBoundaryBefore(unix: int, unixNano: int)
    requires SecondStart(unix) <= unixNano
    ensures forall q :: SecondStart(q) > unixNano ==> SecondStart(q) >= SecondStart(unix + 1)
  {
  }

  /** When the second count and the nanosecond count describe the same instant, the
      loop sleeps for more than zero and at most one second and wakes exactly at the
      start of the next second, the first second boundary after the current instant.
      The intermediate products may overflow; the result is still exact. */
  lemma WaitReachesNextSecond(unix: int, unixNano: int)
    requires SecondStart(unix) <= unixNano < SecondStart(unix + 1)
    ensures 0 < WaitDuration(unix, unixNano) <= NanosPerSecond
    ensures unixNano + WaitDuration(unix, unixNano) == SecondStart(unix + 1)
    ensures forall q :: SecondStart(q) > unixNano ==> SecondStart(q) >= SecondStart(unix + 1)
  {
    WaitDurationIsWrappedExact(unix, unixNano);
    var exact := SecondStart(unix + 1) - unixNano;
    assert SecondStart(unix + 1) == SecondStart(unix) + NanosPerSecond;
    assert 0 < exact <= NanosPerSecond;
    assert InInt64(exact);
    NoBoundaryBefore(unix, unixNano);
  }
}
