/** Go's 64-bit integers, seen from the unbounded ones. */
module Int64 {
  const MIN_INT64 := -0x8000_0000_0000_0000
  const MAX_INT64 := 0x7FFF_FFFF_FFFF_FFFF
  const TWO_64 := 0x1_0000_0000_0000_0000

  /** What int64 arithmetic makes of a value: the value modulo 2^64. */
  function Wrap(x: int): (w: int)
    ensures MIN_INT64 <= w <= MAX_INT64
    ensures MIN_INT64 <= x <= MAX_INT64 ==> w == x
  {
    (x - MIN_INT64) % TWO_64 + MIN_INT64
  }

  /** The int64 that is nearest to a value. */
  function Clamp(x: int): (c: int)
    ensures MIN_INT64 <= c <= MAX_INT64
    ensures MIN_INT64 <= x <= MAX_INT64 ==> c == x
  {
    if x < MIN_INT64 then MIN_INT64 else if x > MAX_INT64 then MAX_INT64 else x
  }

  lemma WrapTwice(x: int, c: int)
    requires MIN_INT64 <= x <= MAX_INT64
    ensures Wrap(Wrap(x + c) - c) == x && Wrap(Wrap(x - c) + c) == x
  {
    WrapShift(x + c, -c);
    WrapShift(x - c, c);
  }

  lemma WrapShift(x: int, c: int)
    ensures Wrap(Wrap(x) + c) == Wrap(x + c)
  {
    var a, b := Wrap(x) + c - MIN_INT64, x + c - MIN_INT64;
    var k := (x - MIN_INT64) / TWO_64;
    assert b == a + k * TWO_64;
    ModShift(a, k);
  }

  lemma ModShift(a: int, k: int)
    ensures (a + k * TWO_64) % TWO_64 == a % TWO_64
  {
    var q, r := a / TWO_64, a % TWO_64;
    assert a + k * TWO_64 == (q + k) * TWO_64 + r;
  }
}
