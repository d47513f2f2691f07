/** The two pieces of JavaScript number semantics the score relies on:
    the ToInt32 coercion applied by the bitwise operators, and the
    remainder operator `%`, which truncates toward zero. */
module JsInt32 {

  const Two31: int := 0x8000_0000
  const Two32: int := 0x1_0000_0000

  /** A value in the range of a signed 32-bit integer. */
  predicate IsInt32(x: int) {
    -Two31 <= x < Two31
  }

  /** ECMAScript ToInt32 on an integral number: reduce modulo 2^32 and read
      the result as two's complement. `x << n` and `x & y` both coerce their
      operands this way, and `x & x` is exactly ToInt32(x). */
  function ToInt32(x: int): (r: int)
    ensures IsInt32(r)
    ensures (x - r) % Two32 == 0
  {
    var m := x % Two32;
    if m >= Two31 then m - Two32 else m
  }

  /** Two signed 32-bit values that agree modulo 2^32 are equal: ToInt32
      has exactly one candidate result. */
  lemma Int32Unique(a: int, b: int)
    requires IsInt32(a) && IsInt32(b)
    requires (a - b) % Two32 == 0
    ensures a == b
  {
  }

  /** ToInt32 only depends on its argument modulo 2^32. */
  lemma ToInt32Congruent(x: int, y: int)
    requires (x - y) % Two32 == 0
    ensures ToInt32(x) == ToInt32(y)
  {
    var rx, ry := ToInt32(x), ToInt32(y);
    var kx, ky, k := (x - rx) / Two32, (y - ry) / Two32, (x - y) / Two32;
    assert x - rx == kx * Two32;
    assert y - ry == ky * Two32;
    assert x - y == k * Two32;
    assert rx - ry == (k - kx + ky) * Two32;
    ModMultiple(k - kx + ky);
    Int32Unique(rx, ry);
  }

  lemma ModMultiple(k: int)
    ensures (k * Two32) % Two32 == 0
  {
  }

  /** Math.abs on an integral number. */
  function Abs(x: int): (r: int)
    ensures r >= 0
    ensures r == x || r == -x
  {
    if x < 0 then -x else x
  }

  /** JavaScript `a % b` for b > 0: the remainder takes the sign of the
      dividend (truncated division), unlike Dafny's Euclidean `%`. */
  function TruncRem(a: int, b: int): (r: int)
    requires b > 0
    ensures -b < r < b
    ensures a >= 0 ==> r >= 0
    ensures a <= 0 ==> r <= 0
    ensures Abs(r) == Abs(a) % b
  {
    if a >= 0 then a % b else -((-a) % b)
  }
}
