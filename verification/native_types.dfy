/** The C++ integer semantics the algorithms rely on.

    An integer type is unbounded (an unbounded `cpp_int`) or a fixed-width unsigned or
    signed two's-complement type.  `Cast` is the conversion `static_cast<T>(v)`: the
    value itself when it fits, otherwise the representative of `v` modulo `2^width`.
    `TruncDiv` and `TruncMod` are C++'s `/` and `%`, which truncate toward zero (Dafny's
    own `/` and `%` are Euclidean).
 */
module NativeTypes {
  import opened Bits

  datatype IntType = Unbounded | Unsigned(width: nat) | Signed(width: nat)

  /** A signed type needs a sign bit. */
  predicate ValidType(t: IntType) {
    t.Signed? ==> t.width >= 1
  }

  predicate InRange(t: IntType, v: int)
    requires ValidType(t)
  {
    match t
    case Unbounded => true
    case Unsigned(n) => 0 <= v < Pow2(n)
    case Signed(n) => -(Pow2(n - 1) as int) <= v < Pow2(n - 1)
  }

  /** `u` and `v` are the same value of type `t`: equal, or equal modulo `2^width`. */
  predicate Congruent(t: IntType, u: int, v: int) {
    if t.Unbounded? then u == v else (u - v) % Pow2(t.width) == 0
  }

  lemma ModOfMultiple(k: int, m: int)
    requires m > 0
    ensures (k * m) % m == 0
  {
    ModUnique(k * m, m, k, 0);
  }

  lemma {:induction false} MulAtLeast(k: int, m: int)
    requires k >= 1 && m > 0
    ensures k * m >= m
    decreases k
  {
    if k > 1 {
      MulAtLeast(k - 1, m);
      assert k * m == (k - 1) * m + m;
    }
  }

  /** Euclidean division is determined by its defining equation and bound. */
  lemma ModUnique(x: int, m: int, q: int, r: int)
    requires m > 0 && x == q * m + r && 0 <= r < m
    ensures x % m == r && x / m == q
  {
    var q', r' := x / m, x % m;
    assert x == q' * m + r';
    var d := q - q';
    assert d * m == q * m - q' * m;
    assert d * m == r' - r;
    if d > 0 {
      MulAtLeast(d, m);
    } else if d < 0 {
      MulAtLeast(-d, m);
    }
  }

  /** Reduction modulo `m` differs from the value by a multiple of `m`. */
  lemma ModDifference(v: int, m: int)
    requires m > 0
    ensures (v % m - v) % m == 0
  {
    assert v % m - v == -(v / m) * m;
    ModOfMultiple(-(v / m), m);
  }

  /** `static_cast<T>(v)`: the value of type `t` that is congruent to `v`. */
  function Cast(t: IntType, v: int): (r: int)
    requires ValidType(t)
    ensures InRange(t, r)
    ensures Congruent(t, r, v)
    ensures InRange(t, v) ==> r == v
  {
    match t
    case Unbounded => v
    case Unsigned(n) =>
      ModDifference(v, Pow2(n));
      if InRange(t, v) then ModUnique(v, Pow2(n), 0, v); v % Pow2(n) else v % Pow2(n)
    case Signed(n) =>
      var h := Pow2(n - 1);
      assert Pow2(n) == 2 * h;
      ModDifference(v + h, Pow2(n));
      if InRange(t, v) then ModUnique(v + h, Pow2(n), 0, v + h); (v + h) % Pow2(n) - h
      else (v + h) % Pow2(n) - h
  }

  function Abs(x: int): nat {
    if x < 0 then -x else x
  }

  /** C++ `x / y`: the quotient truncated toward zero. */
  function TruncDiv(x: int, y: int): int
    requires y != 0
  {
    var q := Abs(x) / Abs(y);
    if (x < 0) == (y < 0) then q else -q
  }

  /** C++ `x % y`: the remainder takes the sign of the dividend. */
  function TruncMod(x: int, y: int): int
    requires y != 0
  {
    var m := Abs(x) % Abs(y);
    if x < 0 then -m else m
  }

  /** Truncating division and remainder satisfy the division identity, the remainder is
      smaller than the divisor in magnitude and is zero or has the dividend's sign. */
  lemma TruncDivMod(x: int, y: int)
    requires y != 0
    ensures TruncDiv(x, y) * y + TruncMod(x, y) == x
    ensures Abs(TruncMod(x, y)) < Abs(y)
    ensures TruncMod(x, y) == 0 || (TruncMod(x, y) < 0) == (x < 0)
  {
    var q, m := Abs(x) / Abs(y), Abs(x) % Abs(y);
    assert Abs(x) == q * Abs(y) + m;
    if y < 0 {
      assert q * y == -(q * Abs(y));
      assert (-q) * y == q * Abs(y);
    }
  }

  const UNSIGNED_MODULUS: int := 0x1_0000_0000

  /** A value of C++ type `unsigned` (32 bits). */
  type CUnsigned = i: int | 0 <= i < UNSIGNED_MODULUS

  /** The conversion of an `int` to `unsigned`: reduction modulo `2^32`, so that a
      negative value becomes a huge index. */
  function ToUnsigned(i: int): (r: CUnsigned)
    ensures 0 <= i < UNSIGNED_MODULUS ==> r == i
    ensures -UNSIGNED_MODULUS <= i < 0 ==> r == UNSIGNED_MODULUS + i
  {
    i % UNSIGNED_MODULUS
  }
}
