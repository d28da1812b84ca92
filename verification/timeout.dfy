/** The conversion of `w32_select`'s `struct timeval` argument into the DWORD
    millisecond count handed to `Sleep` and `WaitForMultipleObjects`. */
module Timeout {
  import opened Win32

  /** `struct timeval` as Winsock declares it: both fields are 32-bit `long`. */
  datatype Timeval = Timeval(sec: Long, usec: Long)

  const DWORD_RANGE: int := 0x1_0000_0000

  /** C's `/` on integers, which truncates toward zero: the remainder
      `a - q * b` has the sign of `a` and is smaller than `b` in magnitude. */
  function TruncDiv(a: int, b: int): (q: int)
    requires b > 0
    ensures a >= 0 ==> 0 <= a - q * b < b
    ensures a < 0 ==> -b < a - q * b <= 0
  {
    if a >= 0 then a / b else -((-a) / b)
  }

  /** Storing an integer into a DWORD keeps its residue modulo 2^32. */
  function Wrap(x: int): (r: Dword)
    ensures (x - r) % DWORD_RANGE == 0
  {
    x % DWORD_RANGE
  }

  /** The millisecond count, computed as the source does: start at 0, add
      `tv_sec * 1000`, then add `tv_usec / 100`, every sum stored into a
      DWORD.  A NULL `tv` means wait forever.  The closed form in the
      postcondition is what the three DWORD stores amount to. */
  function Milliseconds(tv: Option<Timeval>): (ms: Dword)
    ensures tv.None? ==> ms == INFINITE
    ensures tv.Some? ==> ms == (tv.value.sec * 1000 + TruncDiv(tv.value.usec, 100)) % DWORD_RANGE
  {
    match tv
    case None => INFINITE
    case Some(t) =>
      var ms0: Dword := 0;
      var ms1 := Wrap(ms0 + t.sec * 1000);
      WrapSum(ms0 + t.sec * 1000, TruncDiv(t.usec, 100));
      Wrap(ms1 + TruncDiv(t.usec, 100))
  }

  /** Wrapping an intermediate sum does not change the wrapped total. */
  lemma WrapSum(a: int, b: int)
    ensures Wrap(Wrap(a) + b) == Wrap(a + b)
  {
    var q := a / DWORD_RANGE;
    assert a == q * DWORD_RANGE + Wrap(a);
    assert a + b == q * DWORD_RANGE + (Wrap(a) + b);
    ModShift(Wrap(a) + b, q);
  }

  lemma ModShift(x: int, q: int)
    ensures (q * DWORD_RANGE + x) % DWORD_RANGE == x % DWORD_RANGE
  {
  }

  /** What a microseconds-to-milliseconds conversion would compute. */
  function IntendedMilliseconds(t: Timeval): int {
    t.sec * 1000 + t.usec / 1000
  }

  /** Within range and with a normalised `tv_usec`, the microsecond part
      contributes ten times the milliseconds it stands for (give or take the
      sub-millisecond digit), so the wait is longer than asked by nine times
      that part. */
  lemma MicrosecondsTenfold(t: Timeval)
    requires t.sec >= 0 && 0 <= t.usec < 1_000_000
    requires t.sec * 1000 + t.usec / 100 < DWORD_RANGE
    ensures Milliseconds(Some(t)) == t.sec * 1000 + t.usec / 100
    ensures 10 * (t.usec / 1000) <= Milliseconds(Some(t)) - t.sec * 1000 <= 10 * (t.usec / 1000) + 9
    ensures Milliseconds(Some(t)) - IntendedMilliseconds(t) == 9 * (t.usec / 1000) + (t.usec % 1000) / 100
  {
    var k := t.usec / 1000;
    var d := t.usec % 1000;
    assert t.usec == 1000 * k + d;
    assert t.usec / 100 == 10 * k + d / 100 by {
      assert t.usec == 100 * (10 * k + d / 100) + d % 100;
    }
  }

  /** Half a second becomes a five-second wait. */
  lemma HalfSecond()
    ensures IntendedMilliseconds(Timeval(0, 500_000)) == 500
    ensures Milliseconds(Some(Timeval(0, 500_000))) == 5000
  {
  }

  /** A zero timeval polls. */
  lemma ZeroPolls()
    ensures Milliseconds(Some(Timeval(0, 0))) == 0
  {
  }

  /** A finite timeval can wrap onto `INFINITE` and so wait forever. */
  lemma FiniteCanBeInfinite()
    ensures Milliseconds(Some(Timeval(4294967, 29500))) == INFINITE
    ensures Milliseconds(Some(Timeval(0, -100))) == INFINITE
  {
  }

  /** The division truncates: a negative `tv_usec` above -100 counts as 0,
      where Euclidean division would give -1 and so `INFINITE`. */
  lemma SmallNegativeMicroseconds()
    ensures Milliseconds(Some(Timeval(0, -50))) == 0
    ensures (-50) / 100 == -1
  {
  }
}
