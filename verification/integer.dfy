/** The generic integer algorithms: cast-and-apply arithmetic wrappers, combined
    division, modular exponentiation, lowest and highest set bit, single-bit
    operations on a `W`-bit integer and the bit-by-bit integer square root.

    Values are mathematical integers; the C++ integer types they live in are described
    by `NativeTypes.IntType`, and every narrowing the source performs is an explicit
    `Cast`.  Exceptions become the `Err` case of `Result`.
 */
module Integer {
  import opened Bits
  import opened NativeTypes

  /** The exceptions the algorithms throw. */
  datatype Error =
    | NoBitsSet         // std::domain_error: lsb or msb of zero
    | NegativeValue     // std::domain_error: testing bits of a negative value
    | NegativeExponent  // std::runtime_error: powm with a negative exponent

  datatype Result<T> = Ok(value: T) | Err(error: Error)

  // ---------------------------------------------------------------------------
  // Cast-and-apply wrappers: `result = static_cast<Integer>(a) op static_cast<Integer>(b)`

  /** `multiply(result, a, b)`: the product of the operands converted to type `t`,
      held in `t` (exact when it fits, otherwise reduced modulo `2^width`). */
  method Multiply(t: IntType, a: int, b: int) returns (result: int)
    requires ValidType(t)
    ensures InRange(t, result)
    ensures Congruent(t, result, Cast(t, a) * Cast(t, b))
    ensures InRange(t, Cast(t, a) * Cast(t, b)) ==> result == Cast(t, a) * Cast(t, b)
  {
    result := Cast(t, Cast(t, a) * Cast(t, b));
  }

  /** `add(result, a, b)`. */
  method Add(t: IntType, a: int, b: int) returns (result: int)
    requires ValidType(t)
    ensures InRange(t, result)
    ensures Congruent(t, result, Cast(t, a) + Cast(t, b))
    ensures InRange(t, Cast(t, a) + Cast(t, b)) ==> result == Cast(t, a) + Cast(t, b)
  {
    result := Cast(t, Cast(t, a) + Cast(t, b));
  }

  /** `subtract(result, a, b)`. */
  method Subtract(t: IntType, a: int, b: int) returns (result: int)
    requires ValidType(t)
    ensures InRange(t, result)
    ensures Congruent(t, result, Cast(t, a) - Cast(t, b))
    ensures InRange(t, Cast(t, a) - Cast(t, b)) ==> result == Cast(t, a) - Cast(t, b)
  {
    result := Cast(t, Cast(t, a) - Cast(t, b));
  }

  // ---------------------------------------------------------------------------
  // Division

  /** `divide_qr(x, y, q, r)`: quotient and remainder of one truncating division. */
  method DivideQr(x: int, y: int) returns (q: int, r: int)
    requires y != 0
    ensures q * y + r == x
    ensures Abs(r) < Abs(y)
    ensures r == 0 || (r < 0) == (x < 0)
  {
    q := TruncDiv(x, y);
    r := TruncMod(x, y);
    TruncDivMod(x, y);
  }

  /** The three facts `DivideQr` promises pin the quotient and the remainder down:
      no other pair satisfies them. */
  lemma DivideQrDetermined(x: int, y: int, q1: int, r1: int, q2: int, r2: int)
    requires y != 0
    requires q1 * y + r1 == x && Abs(r1) < Abs(y) && (r1 == 0 || (r1 < 0) == (x < 0))
    requires q2 * y + r2 == x && Abs(r2) < Abs(y) && (r2 == 0 || (r2 < 0) == (x < 0))
    ensures q1 == q2 && r1 == r2
  {
    var d := q1 - q2;
    MulSub(q1, q2, y);
    assert d * y == r2 - r1;
    assert Abs(r2 - r1) < Abs(y);
    if d != 0 {
      MulAbs(d, y);
      MulAtLeast(Abs(d), Abs(y));
      assert false;
    }
  }

  lemma MulSub(a: int, b: int, y: int)
    ensures (a - b) * y == a * y - b * y
  {
  }

  lemma MulAbs(a: int, b: int)
    ensures Abs(a * b) == Abs(a) * Abs(b)
  {
    if a < 0 && b >= 0 {
      assert a * b == -(Abs(a) * b);
    } else if a >= 0 && b < 0 {
      assert a * b == -(a * Abs(b));
    } else if a < 0 && b < 0 {
      assert a * b == Abs(a) * Abs(b);
    }
  }

  /** `integer_modulus(x, val)`: `x % val` narrowed to the type `t` of `val`.  The
      remainder is smaller than `val`, so the narrowing never changes it. */
  function IntegerModulus(t: IntType, x: int, val: int): (r: int)
    requires ValidType(t) && InRange(t, val)
    requires x >= 0 && val > 0
    ensures InRange(t, r)
    ensures r == x % val
  {
    assert InRange(t, TruncMod(x, val));
    Cast(t, TruncMod(x, val))
  }

  // ---------------------------------------------------------------------------
  // Modular exponentiation

  /** `a` to the power `b`: the reference that `Powm` is measured against. */
  function Pow(a: nat, b: nat): nat
    decreases b
  {
    if b == 0 then 1 else a * Pow(a, b - 1)
  }

  lemma {:induction false} PowSquare(y: nat, k: nat)
    ensures Pow(y * y, k) == Pow(y, 2 * k)
    decreases k
  {
    if k > 0 {
      PowSquare(y, k - 1);
      calc {
        Pow(y, 2 * k);
        y * Pow(y, 2 * k - 1);
        y * (y * Pow(y, 2 * (k - 1)));
        (y * y) * Pow(y * y, k - 1);
      }
    }
  }

  /** `(k*m + z) % m == z % m`. */
  lemma ModAddMultiple(k: int, z: int, m: int)
    requires m > 0
    ensures (k * m + z) % m == z % m
  {
    var qz, rz := z / m, z % m;
    assert k * m + z == (k + qz) * m + rz;
    ModUnique(k * m + z, m, k + qz, rz);
  }

  /** Multiplying congruent values by the same factor keeps them congruent. */
  lemma MulCongruent(a: int, u: int, v: int, m: int)
    requires m > 0 && u % m == v % m
    ensures (a * u) % m == (a * v) % m
  {
    var qu, qv, r := u / m, v / m, u % m;
    assert u == qu * m + r;
    assert v == qv * m + r;
    MulDistributes(a, qu, m, r);
    MulDistributes(a, qv, m, r);
    assert a * u == (a * qu) * m + a * r;
    assert a * v == (a * qv) * m + a * r;
    ModAddMultiple(a * qu, a * r, m);
    ModAddMultiple(a * qv, a * r, m);
  }

  lemma MulDistributes(a: int, q: int, m: int, r: int)
    ensures a * (q * m + r) == (a * q) * m + a * r
  {
  }

  lemma ModAtMost(u: nat, m: int)
    requires m > 0
    ensures u % m <= u
  {
    if u < m {
      ModUnique(u, m, 0, u);
    } else {
      assert u % m < m;
    }
  }

  lemma ModMod(u: int, m: int)
    requires m > 0
    ensures (u % m) % m == u % m
  {
    ModUnique(u % m, m, 0, u % m);
  }

  lemma {:induction false} PowModBase(a: nat, k: nat, m: nat)
    requires m > 0
    ensures Pow(a % m, k) % m == Pow(a, k) % m
    decreases k
  {
    if k > 0 {
      PowModBase(a, k - 1, m);
      var p', p := Pow(a % m, k - 1), Pow(a, k - 1);
      MulCongruent(a % m, p', p, m);
      ModMod(a, m);
      MulCongruent(p, a % m, a, m);
      assert Pow(a % m, k) == (a % m) * p';
      assert Pow(a, k) == p * a;
    }
  }

  /** The loop of `powm` as a function of its state `(x, y, b)`: one step squares `y`
      and, when the low bit of `b` is set, multiplies it into `x`; each residue is
      assigned back into the `w`-bit type of `a`. */
  function PowmLoop(w: nat, x: nat, y: nat, b: nat, c: nat): nat
    requires c > 0
    decreases b
  {
    if b == 0 then x
    else
      var x' := if b % 2 == 1 then Cast(Unsigned(w), (x * y) % c) else x;
      PowmLoop(w, x', Cast(Unsigned(w), (y * y) % c), b / 2, c)
  }

  /** The loop invariant of `powm`: `x * y^b` stays congruent modulo `c`, provided the
      residues fit the `w`-bit type they are assigned to. */
  lemma {:induction false} PowmLoopCorrect(w: nat, x: nat, y: nat, b: nat, c: nat)
    requires 0 < c <= Pow2(w)
    ensures PowmLoop(w, x, y, b, c) % c == (x * Pow(y, b)) % c
    decreases b
  {
    if b > 0 {
      var k := b / 2;
      var y' := (y * y) % c;
      assert Cast(Unsigned(w), y') == y';
      var x' := if b % 2 == 1 then (x * y) % c else x;
      assert Cast(Unsigned(w), (x * y) % c) == (x * y) % c;
      PowmLoopCorrect(w, x', y', k, c);
      // Pow(y', k) and Pow(y, 2k) are congruent
      PowModBase(y * y, k, c);
      PowSquare(y, k);
      var p := Pow(y, 2 * k);
      MulCongruent(x', Pow(y', k), p, c);
      if b % 2 == 1 {
        ModMod(x * y, c);
        MulCongruent(p, x', x * y, c);
        assert Pow(y, b) == y * p;
        MulRearrange(x, y, p);
        assert (x' * p) % c == (p * x') % c;
      } else {
        assert b == 2 * k;
      }
    }
  }

  lemma {:induction false} MulLeft(k: nat, a: nat, b: nat)
    requires a <= b
    ensures k * a <= k * b
    decreases k
  {
    if k > 0 {
      MulLeft(k - 1, a, b);
      assert k * a == (k - 1) * a + a;
      assert k * b == (k - 1) * b + b;
    }
  }

  lemma ProductBelowSquare(x: nat, y: nat, p: nat)
    requires x < p && y < p
    ensures x * y < p * p
  {
    MulLeft(x, y, p);
    MulLeft(p, x, p - 1);
    assert p * (p - 1) == p * p - p;
    assert x * p == p * x;
  }

  lemma MulRearrange(x: int, y: int, p: int)
    ensures x * (y * p) == p * (x * y)
  {
  }

  /** Two values below `2^w` multiply to a value below `2^(2w)`: the product always fits
      the double-width type `double_integer<I1>`. */
  lemma ProductFitsDoubleWidth(x: nat, y: nat, w: nat)
    requires x < Pow2(w) && y < Pow2(w)
    ensures Cast(Unsigned(2 * w), x) == x && Cast(Unsigned(2 * w), y) == y
    ensures InRange(Unsigned(2 * w), x * y)
  {
    ProductBelowDoubleWidth(x, y, w);
  }

  lemma ProductBelowDoubleWidth(x: nat, y: nat, w: nat)
    requires x < Pow2(w) && y < Pow2(w)
    ensures x < Pow2(2 * w) && y < Pow2(2 * w) && x * y < Pow2(2 * w)
  {
    var p := Pow2(w);
    assert Pow2(2 * w) == p * p by {
      Pow2Add(w, w);
    }
    assert x * y < p * p by {
      ProductBelowSquare(x, y, p);
    }
    Pow2Monotone(w, 2 * w);
  }

  /** Unsigned `powm(a, b, c)`: `a^b mod c` by square-and-multiply over the bits of `b`,
      from the lowest up.  `a` and the running values `x`, `y` have the `w`-bit unsigned
      type of `a`; each product is formed in the double-width type; `c` has type `t3`. */
  method Powm(w: nat, a: nat, b: nat, c: nat, t3: IntType) returns (r: nat)
    requires w > 0 && a < Pow2(w)
    requires ValidType(t3) && InRange(t3, c) && c > 0
    ensures r == PowmLoop(w, 1, a, b, c) % c
    ensures r < c && r < Pow2(w)
    ensures b == 0 ==> r == 1 % c
    ensures c <= Pow2(w) ==> r == Pow(a, b) % c
  {
    var i1, wide := Unsigned(w), Unsigned(2 * w);
    Pow2Strict(0, w);
    var x: nat, y: nat := 1, a;
    var result := 0;
    var e := b;
    while e > 0
      invariant x < Pow2(w) && y < Pow2(w)
      invariant PowmLoop(w, x, y, e, c) == PowmLoop(w, 1, a, b, c)
      decreases e
    {
      ghost var x0, y0 := x, y;
      if e % 2 == 1 {
        ProductFitsDoubleWidth(x, y, w);
        result := Multiply(wide, x, y);
        assert result == x * y;  // no bit of the product is lost
        x := Cast(i1, IntegerModulus(t3, result, c));
      }
      assert x == if e % 2 == 1 then Cast(i1, (x0 * y0) % c) else x0;
      ProductFitsDoubleWidth(y, y, w);
      result := Multiply(wide, y, y);
      assert result == y * y;
      y := Cast(i1, IntegerModulus(t3, result, c));
      assert PowmLoop(w, x0, y0, e, c) == PowmLoop(w, x, y, e / 2, c);
      e := e / 2;
    }
    ModAtMost(x, c);
    r := Cast(i1, TruncMod(x, c));
    assert r == x % c;
    if c <= Pow2(w) {
      PowmLoopCorrect(w, 1, a, b, c);
      assert 1 * Pow(a, b) == Pow(a, b);
    }
  }

  /** Signed `powm(a, b, c)`: a negative exponent is an error; otherwise the result is
      that of the unsigned overload for the same arguments. */
  method PowmSigned(w: nat, a: nat, b: int, c: nat, t3: IntType) returns (r: Result<nat>)
    requires w > 0 && a < Pow2(w)
    requires ValidType(t3) && InRange(t3, c) && c > 0
    ensures b < 0 ==> r == Err(NegativeExponent)
    ensures b >= 0 ==> r == Ok(PowmLoop(w, 1, a, b, c) % c)
    ensures b >= 0 && c <= Pow2(w) ==> r == Ok(Pow(a, b) % c)
  {
    if b < 0 {
      return Err(NegativeExponent);
    }
    var v := Powm(w, a, b, c, t3);
    return Ok(v);
  }

  // ---------------------------------------------------------------------------
  // Lowest and highest set bit

  function LowestSetBit(v: nat): (i: nat)
    requires v > 0
    ensures Bit(v, i)
    ensures forall j: nat :: j < i ==> !Bit(v, j)
    decreases v
  {
    if v % 2 == 1 then 0 else 1 + LowestSetBit(v / 2)
  }

  function HighestSetBit(v: nat): (i: nat)
    requires v > 0
    ensures Pow2(i) <= v < Pow2(i + 1)
    decreases v
  {
    if v == 1 then 0 else 1 + HighestSetBit(v / 2)
  }

  /** `lsb(val)`: the index of the lowest set bit. */
  function Lsb(val: int): (r: Result<nat>)
    ensures val == 0 ==> r == Err(NoBitsSet)
    ensures val < 0 ==> r == Err(NegativeValue)
    ensures val > 0 ==> r.Ok? && Bit(val, r.value) && forall j: nat :: j < r.value ==> !Bit(val, j)
  {
    if val <= 0 then
      if val == 0 then Err(NoBitsSet) else Err(NegativeValue)
    else
      Ok(LowestSetBit(val))
  }

  /** `msb(val)`: the index of the highest set bit. */
  function Msb(val: int): (r: Result<nat>)
    ensures val == 0 ==> r == Err(NoBitsSet)
    ensures val < 0 ==> r == Err(NegativeValue)
    ensures val > 0 ==> r.Ok? && Pow2(r.value) <= val < Pow2(r.value + 1)
  {
    if val <= 0 then
      if val == 0 then Err(NoBitsSet) else Err(NegativeValue)
    else
      Ok(HighestSetBit(val))
  }

  /** The index `msb` returns is a set bit, and no bit above it is set. */
  lemma MsbIsHighestSetBit(val: int)
    requires val > 0
    ensures Msb(val).Ok? && Bit(val, Msb(val).value)
    ensures forall j: nat :: j > Msb(val).value ==> !Bit(val, j)
  {
    var m := Msb(val).value;
    BitOfTop(val, m);
    forall j: nat | j > m
      ensures !Bit(val, j)
    {
      BitAbove(val, m + 1, j);
    }
  }

  lemma LsbAtMostMsb(val: int)
    requires val > 0
    ensures Lsb(val).Ok? && Msb(val).Ok? && Lsb(val).value <= Msb(val).value
  {
    var l, m := Lsb(val).value, Msb(val).value;
    if l > m {
      BitAbove(val, m + 1, l);
    }
  }

  // ---------------------------------------------------------------------------
  // Single-bit operations on a `w`-bit unsigned integer

  /** `v << n` on a `w`-bit unsigned integer: the `w`-bit value congruent to the
      shifted value, which is the shifted value itself when no set bit leaves the type. */
  function ShiftLeft(v: nat, n: nat, w: nat): (r: nat)
    requires n < w
    ensures r < Pow2(w)
    ensures Congruent(Unsigned(w), r, v * Pow2(n))
    ensures v * Pow2(n) < Pow2(w) ==> r == v * Pow2(n)
  {
    ModDifference(v * Pow2(n), Pow2(w));
    if v * Pow2(n) < Pow2(w) then
      ModUnique(v * Pow2(n), Pow2(w), 0, v * Pow2(n));
      (v * Pow2(n)) % Pow2(w)
    else
      (v * Pow2(n)) % Pow2(w)
  }

  /** The mask `1 << index` that every bit operation builds (the shift is skipped
      for index 0). */
  function Mask(index: nat, w: nat): (m: nat)
    requires index < w
    ensures m == Pow2(index)
  {
    Pow2Strict(index, w);
    if index != 0 then ShiftLeft(1, index, w) else 1
  }

  /** `bit_test(val, index)`. */
  function BitTest(val: nat, index: CUnsigned, w: nat): (r: bool)
    requires val < Pow2(w)
    ensures r <==> index < w && Bit(val, index)
  {
    if index >= w then false
    else
      AndPow2(val, index);
      And(val, Mask(index, w)) != 0
  }

  /** `bit_set(val, index)`: the new value of `val`. */
  function BitSet(val: nat, index: CUnsigned, w: nat): (r: nat)
    requires val < Pow2(w)
    ensures r < Pow2(w)
    ensures index >= w ==> r == val
    ensures forall j: nat :: Bit(r, j) == (Bit(val, j) || (index < w && j == index))
  {
    if index >= w then val
    else
      SetBitBits(val, index, w);
      Or(val, Mask(index, w))
  }

  /** `bit_unset(val, index)`: the new value of `val`. */
  function BitUnset(val: nat, index: CUnsigned, w: nat): (r: nat)
    requires val < Pow2(w)
    ensures r < Pow2(w)
    ensures index >= w ==> r == val
    ensures forall j: nat :: Bit(r, j) == (Bit(val, j) && !(index < w && j == index))
  {
    if index >= w then val
    else
      ClearBitBits(val, index, w);
      And(val, Complement(Mask(index, w), w))
  }

  /** `bit_flip(val, index)`: the new value of `val`. */
  function BitFlip(val: nat, index: CUnsigned, w: nat): (r: nat)
    requires val < Pow2(w)
    ensures r < Pow2(w)
    ensures index >= w ==> r == val
    ensures forall j: nat :: Bit(r, j) == (Bit(val, j) != (index < w && j == index))
  {
    if index >= w then val
    else
      FlipBitBits(val, index, w);
      Xor(val, Mask(index, w))
  }

  lemma BitSetIdempotent(val: nat, index: CUnsigned, w: nat)
    requires val < Pow2(w)
    ensures BitSet(BitSet(val, index, w), index, w) == BitSet(val, index, w)
  {
    var once := BitSet(val, index, w);
    BitsDetermine(BitSet(once, index, w), once);
  }

  lemma BitUnsetIdempotent(val: nat, index: CUnsigned, w: nat)
    requires val < Pow2(w)
    ensures BitUnset(BitUnset(val, index, w), index, w) == BitUnset(val, index, w)
  {
    var once := BitUnset(val, index, w);
    BitsDetermine(BitUnset(once, index, w), once);
  }

  lemma BitFlipInvolution(val: nat, index: CUnsigned, w: nat)
    requires val < Pow2(w)
    ensures BitFlip(BitFlip(val, index, w), index, w) == val
  {
    BitsDetermine(BitFlip(BitFlip(val, index, w), index, w), val);
  }

  /** Testing a bit reports what setting, clearing or toggling it left behind. */
  lemma BitTestAfterUpdate(val: nat, index: CUnsigned, w: nat)
    requires val < Pow2(w)
    ensures BitTest(BitSet(val, index, w), index, w) == (index < w)
    ensures !BitTest(BitUnset(val, index, w), index, w)
    ensures BitTest(BitFlip(val, index, w), index, w) == (index < w && !BitTest(val, index, w))
  {
    assert Bit(BitSet(val, index, w), index) == (Bit(val, index) || index < w);
    if index >= w {
      assert BitFlip(val, index, w) == val;
    }
  }

  /** Setting a bit that is clear adds its weight. */
  lemma BitSetClearBit(val: nat, index: CUnsigned, w: nat)
    requires val < Pow2(w) && index < w && !Bit(val, index)
    ensures BitSet(val, index, w) == val + Pow2(index)
  {
    OrClearBit(val, index);
  }

  // ---------------------------------------------------------------------------
  // Integer square root

  /** A builtin C++ integer type (`is_integral`): signed or unsigned, and no wider than
      the widest builtin type, `unsigned __int128`. */
  predicate IsBuiltinIntegral(t: IntType) {
    (t.Unsigned? || t.Signed?) && 1 <= t.width <= 128
  }

  /** The bits of a builtin type that hold the magnitude of a non-negative value. */
  function ValueBits(t: IntType): nat
    requires IsBuiltinIntegral(t)
  {
    if t.Signed? then t.width - 1 else t.width
  }

  /** A non-negative value fits a builtin type exactly when it is below `2^ValueBits`. */
  lemma NonNegativeInRange(t: IntType, v: int)
    requires IsBuiltinIntegral(t) && v >= 0
    ensures InRange(t, v) <==> v < Pow2(ValueBits(t))
    ensures Pow2(ValueBits(t)) <= Pow2(t.width)
  {
    Pow2Monotone(ValueBits(t), t.width);
  }

  /** The index of the highest set bit of a value below `2^n` is below `n`. */
  lemma TopBitBelow(x: nat, m: nat, n: nat)
    requires Pow2(m) <= x < Pow2(n)
    ensures m < n && Pow2(m + 1) <= Pow2(n)
  {
    if n <= m {
      Pow2Monotone(n, m);
    }
    Pow2Monotone(m + 1, n);
  }

  /** The result of `sqrt(x, r)`: the root `s` it returns and the remainder `r` it
      stores. */
  datatype Root = Root(s: nat, r: nat)

  /** `s` is the integer square root of `x` and `r` the remainder: `s*s + r == x` and
      `r <= 2*s`. */
  predicate IsIntegerRoot(x: int, root: Root) {
    root.s * root.s + root.r == x && root.r <= 2 * root.s
  }

  lemma SquareOfSum(a: int, b: int)
    ensures (a + b) * (a + b) == a * a + 2 * (a * b) + b * b
  {
  }

  lemma SquareMonotone(a: nat, b: nat)
    requires a <= b
    ensures a * a <= b * b
  {
    MulLeft(a, a, b);
    MulLeft(b, a, b);
  }

  /** The root and remainder pair is the floor of the square root and what is left. */
  lemma IntegerRootIsFloor(x: int, root: Root)
    ensures IsIntegerRoot(x, root) <==>
      root.r == x - root.s * root.s && root.s * root.s <= x < (root.s + 1) * (root.s + 1)
  {
    SquareOfSum(root.s, 1);
  }

  /** At most one root and remainder pair fits a value. */
  lemma IntegerRootUnique(x: int, a: Root, b: Root)
    requires IsIntegerRoot(x, a) && IsIntegerRoot(x, b)
    ensures a == b
  {
    IntegerRootIsFloor(x, a);
    IntegerRootIsFloor(x, b);
    if a.s < b.s {
      SquareMonotone(a.s + 1, b.s);
    } else if b.s < a.s {
      SquareMonotone(b.s + 1, a.s);
    }
  }

  /** The state of the `sqrt` loop before it tries bit `g` of the root: `s` holds the
      root's bits above `g`, so it is a multiple of `2^(g+1)` and at least `2^(g+1)`;
      `r` is what `s*s` leaves of `x`; the root lies below `s + 2^(g+1)`, and that
      bound stays within `top`. */
  predicate SqrtInv(x: int, s: nat, r: int, g: int, top: nat) {
    g >= -1 &&
    var p := Pow2((g + 1) as nat);
    s * s + r == x && r >= 0 && s % p == 0 && p <= s && s + p <= top && x < (s + p) * (s + p)
  }

  /** The state `sqrt` starts its loop in: the root's top bit is bit `m/2`, where `m` is
      the highest set bit of `x`, and `x < 4` exactly when that is bit 0. */
  lemma SqrtInit(x: int, m: nat, s: nat, r: int, g: int, top: nat)
    requires Pow2(m) <= x < Pow2(m + 1)
    requires s == Pow2(m / 2) && r == x - Pow2(2 * (m / 2)) && g == m / 2 - 1
    requires top == Pow2(m / 2 + 1)
    ensures 2 * (m / 2) <= m
    ensures SqrtInv(x, s, r, g, top)
    ensures (m / 2 == 0) == (x < 4)
  {
    var g0 := m / 2;
    Pow2Add(g0, g0);
    Pow2Monotone(2 * g0, m);
    Pow2Add(g0 + 1, g0 + 1);
    Pow2Monotone(m + 1, 2 * g0 + 2);
    ModOfMultiple(1, s);
    if m >= 2 {
      Pow2Monotone(2, m);
    } else {
      Pow2Monotone(m + 1, 2);
    }
  }

  /** `bit_set` on a zero value gives the single bit. */
  lemma BitSetZero(i: nat, w: nat)
    requires i < w <= 128
    ensures BitSet(0, ToUnsigned(i), w) == Pow2(i)
  {
    Pow2Strict(0, w);
    BitZero(i);
    BitSetClearBit(0, i, w);
  }

  /** The pass the loop makes with `g == -1` (only for `x` of 2 or 3, whose root is 1):
      the shift is by nothing, and the indices `-2` and `-1` convert to unsigned values
      beyond every width, so neither `bit_set` changes anything. */
  lemma SqrtPassBelowZero(w: nat)
    requires 1 <= w <= 128
    ensures ShiftLeft(1, 0, w) == 1
    ensures BitSet(1, ToUnsigned(2 * -1), w) == 1 && BitSet(1, ToUnsigned(-1), w) == 1
  {
    Pow2Strict(0, w);
  }

  /** The state after the loop: the root and the remainder. */
  lemma SqrtFinal(x: int, s: nat, r: int, g: int, top: nat)
    requires g == -1 && SqrtInv(x, s, r, g, top)
    ensures r >= 0 && IsIntegerRoot(x, Root(s, r))
  {
    IntegerRootIsFloor(x, Root(s, r));
  }

  /** The trial value `(s << (g+1)) | 2^(2g)` that the loop compares with the remainder:
      the two parts share no bit, the sum is `(s + 2^g)^2 - s^2`, and it stays below
      `2^(m+1)` when `2^(g0+1)` bounds the root and `m` is at least `2*g0`. */
  lemma SqrtTrial(x: int, s: nat, r: int, g: nat, g0: nat, m: nat)
    requires SqrtInv(x, s, r, g, Pow2(g0 + 1)) && g < g0 && 2 * g0 <= m
    ensures !Bit(s, g) && !Bit(s * Pow2(g + 1), 2 * g)
    ensures s * Pow2(g + 1) + Pow2(2 * g) == (s + Pow2(g)) * (s + Pow2(g)) - s * s
    ensures s * Pow2(g + 1) + Pow2(2 * g) < Pow2(m + 1)
  {
    SqrtTrialBits(s, g);
    SqrtTrialSum(s, g);
    Pow2Add(g, g);
    Pow2Strict(g, g + 1);
    SqrtTrialBound(s, Pow2(g + 1), Pow2(g), Pow2(g0 + 1));
    Pow2Add(g0 + 1, g + 1);
    Pow2Monotone(g0 + 1 + (g + 1), m + 1);
  }

  /** A multiple of `2^(g+1)` has neither bit `g` nor, shifted up by `g + 1`, bit `2g`. */
  lemma SqrtTrialBits(s: nat, g: nat)
    requires s % Pow2(g + 1) == 0
    ensures !Bit(s, g) && !Bit(s * Pow2(g + 1), 2 * g)
  {
    var p := Pow2(g + 1);
    var k := s / p;
    assert s == k * p;
    BitShift(k, g + 1, g);
    BitShift(s, g + 1, 2 * g);
    if g > 0 {
      BitShift(k, g + 1, g - 1);
    }
  }

  lemma SqrtTrialSum(s: nat, g: nat)
    ensures s * Pow2(g + 1) + Pow2(2 * g) == (s + Pow2(g)) * (s + Pow2(g)) - s * s
  {
    var h := Pow2(g);
    Pow2Add(g, g);
    SquareOfSum(s, h);
    assert s * Pow2(g + 1) == 2 * (s * h);
  }

  /** Before the loop body tries bit `g`: the values it shifts and sets fit the type,
      and so does the trial value. */
  lemma SqrtTrialFits(x: int, s: nat, r: int, g: nat, g0: nat, m: nat, w: nat)
    requires SqrtInv(x, s, r, g, Pow2(g0 + 1)) && g < g0 && 2 * g0 <= m
    requires Pow2(m + 1) <= Pow2(w) && m < w <= 128
    ensures s < Pow2(w) && g + 1 < w && ShiftLeft(s, g + 1, w) < Pow2(w)
    ensures BitSet(ShiftLeft(s, g + 1, w), ToUnsigned(2 * g), w) < Pow2(m + 1)
  {
    SqrtTrial(x, s, r, g, g0, m);
    var p := Pow2(g + 1);
    assert s <= s * p by {
      MulLeft(s, 1, p);
    }
    BitSetClearBit(s * p, 2 * g, w);
  }

  /** After the loop body has tried bit `i`: whether or not the bit joined the root,
      the invariant holds for the next bit `g == i - 1`. */
  lemma SqrtIteration(x: int, s0: nat, r0: int, i: nat, g0: nat, m: nat, w: nat,
                      s: nat, r: int, g: int)
    requires SqrtInv(x, s0, r0, i, Pow2(g0 + 1)) && i < g0 && 2 * g0 <= m
    requires Pow2(m + 1) <= Pow2(w) && m < w <= 128
    requires s0 < Pow2(w) && i + 1 < w
    requires var trial := BitSet(ShiftLeft(s0, i + 1, w), ToUnsigned(2 * i), w);
      if trial <= r0 then s == BitSet(s0, ToUnsigned(i), w) && r == r0 - trial
      else s == s0 && r == r0
    requires g == i - 1
    ensures SqrtInv(x, s, r, g, Pow2(g0 + 1))
  {
    SqrtTrial(x, s0, r0, i, g0, m);
    var p := Pow2(i + 1);
    assert s0 <= s0 * p by {
      MulLeft(s0, 1, p);
    }
    BitSetClearBit(s0 * p, 2 * i, w);
    BitSetClearBit(s0, i, w);
    SqrtStep(x, s0, r0, i, Pow2(g0 + 1));
  }

  lemma SqrtTrialBound(s: nat, p: nat, h: nat, top: nat)
    requires h < p && s + p <= top
    ensures s * p + h * h < top * p
  {
    ProductBelowSquare(h, h, p);
    MulLeft(p, s + p, top);
    assert p * (s + p) == s * p + p * p;
  }

  /** One step of the loop: bit `g` joins the root exactly when the trial value fits in
      the remainder, and either way the invariant holds for bit `g - 1`. */
  lemma SqrtStep(x: int, s: nat, r: int, g: nat, top: nat)
    requires SqrtInv(x, s, r, g, top)
    ensures var t := (s + Pow2(g)) * (s + Pow2(g)) - s * s;
      if t <= r then SqrtInv(x, s + Pow2(g), r - t, g - 1, top)
      else SqrtInv(x, s, r, g - 1, top)
  {
    var p, h := Pow2(g + 1), Pow2(g);
    var k := s / p;
    assert s == (2 * k) * h;
    var t := (s + h) * (s + h) - s * s;
    if t <= r {
      assert s + h == (2 * k + 1) * h;
      ModOfMultiple(2 * k + 1, h);
      assert s + h + h == s + p;
    } else {
      ModOfMultiple(2 * k, h);
    }
  }

  /** `sqrt(x, r)` as written: the root by the bit-by-bit method, and the remainder.
      For `x` from 1 to 3 it does not return the integer root (see `SqrtCorrected`). */
  method Sqrt(x: int, t: IntType) returns (res: Result<Root>)
    requires IsBuiltinIntegral(t) && InRange(t, x)
    ensures x < 0 ==> res == Err(NegativeValue)
    ensures x == 0 ==> res == Ok(Root(0, 0))
    ensures x == 1 ==> res == Ok(Root(0, 1))
    ensures 2 <= x <= 3 ==> res == Ok(Root(1, x - 2))
    ensures 1 <= x <= 3 ==> res.Ok? && !IsIntegerRoot(x, res.value)
    ensures x >= 4 ==> res.Ok? && IsIntegerRoot(x, res.value)
  {
    var w := t.width;
    var s: nat := 0;
    if x == 0 {
      return Ok(Root(s, 0));
    }
    var top := Msb(x);
    if top.Err? {
      return Err(top.error);
    }
    var g: int := top.value;
    if g == 0 {
      return Ok(Root(s, 1));
    }
    ghost var m: nat := g;
    NonNegativeInRange(t, x);
    TopBitBelow(x, m, ValueBits(t));
    Pow2Monotone(m + 1, w);
    var trial: nat := 0;
    var r: int := x;
    g := g / 2;
    ghost var g0: nat := g;
    BitSetZero(g0, w);
    BitSetZero(2 * g0, w);
    s := BitSet(s, ToUnsigned(g), w);
    trial := BitSet(trial, ToUnsigned(2 * g), w);
    r := x - trial;
    g := g - 1;
    ghost var bound := Pow2(g0 + 1);
    SqrtInit(x, m, s, r, g, bound);
    while true
      invariant -1 <= g < g0
      invariant SqrtInv(x, s, r, g, bound)
      invariant g == -1 ==> x < 4 && s == 1 && r == x - 1
      decreases g + 1
    {
      ghost var s0, r0, i := s, r, g;
      if g >= 0 {
        SqrtTrialFits(x, s, r, g, g0, m, w);
      } else {
        SqrtPassBelowZero(w);
      }
      trial := ShiftLeft(s, g + 1, w);
      trial := BitSet(trial, ToUnsigned(2 * g), w);
      assert g >= 0 ==> trial < Pow2(m + 1);  // the trial value never overflows
      if trial <= r {
        s := BitSet(s, ToUnsigned(g), w);
        r := r - trial;
      }
      g := g - 1;
      if i >= 0 {
        SqrtIteration(x, s0, r0, i, g0, m, w, s, r, g);
      } else {
        assert s == 1 && r == x - 2;
      }
      if g < 0 {
        break;
      }
    }
    if x >= 4 {
      SqrtFinal(x, s, r, g, bound);
    }
    return Ok(Root(s, r));
  }

  /** `sqrt(x, r)` as evidently intended: without the early return for a highest set
      bit of 0 and with the loop tested before each pass, every non-negative value gets
      its integer root and remainder. */
  method SqrtCorrected(x: int, t: IntType) returns (res: Result<Root>)
    requires IsBuiltinIntegral(t) && InRange(t, x)
    ensures x < 0 ==> res == Err(NegativeValue)
    ensures x >= 0 ==> res.Ok? && IsIntegerRoot(x, res.value)
  {
    var w := t.width;
    var s: nat := 0;
    if x == 0 {
      return Ok(Root(s, 0));
    }
    var top := Msb(x);
    if top.Err? {
      return Err(top.error);
    }
    var g: int := top.value;
    ghost var m: nat := g;
    NonNegativeInRange(t, x);
    TopBitBelow(x, m, ValueBits(t));
    Pow2Monotone(m + 1, w);
    var trial: nat := 0;
    var r: int := x;
    g := g / 2;
    ghost var g0: nat := g;
    BitSetZero(g0, w);
    BitSetZero(2 * g0, w);
    s := BitSet(s, ToUnsigned(g), w);
    trial := BitSet(trial, ToUnsigned(2 * g), w);
    r := x - trial;
    g := g - 1;
    ghost var bound := Pow2(g0 + 1);
    SqrtInit(x, m, s, r, g, bound);
    while g >= 0
      invariant -1 <= g < g0
      invariant SqrtInv(x, s, r, g, bound)
      decreases g + 1
    {
      ghost var s0, r0, i := s, r, g;
      SqrtTrialFits(x, s, r, g, g0, m, w);
      trial := ShiftLeft(s, g + 1, w);
      trial := BitSet(trial, ToUnsigned(2 * g), w);
      if trial <= r {
        s := BitSet(s, ToUnsigned(g), w);
        r := r - trial;
      }
      g := g - 1;
      SqrtIteration(x, s0, r0, i, g0, m, w, s, r, g);
    }
    SqrtFinal(x, s, r, g, bound);
    return Ok(Root(s, r));
  }

  /** `sqrt(x)` as written: the root that `sqrt(x, r)` returns, which is the floor of
      the square root except at 1. */
  method SqrtRoot(x: int, t: IntType) returns (res: Result<nat>)
    requires IsBuiltinIntegral(t) && InRange(t, x)
    ensures x < 0 ==> res == Err(NegativeValue)
    ensures x == 1 ==> res == Ok(0)
    ensures x >= 0 && x != 1 ==>
      res.Ok? && res.value * res.value <= x < (res.value + 1) * (res.value + 1)
  {
    var root := Sqrt(x, t);
    if root.Err? {
      return Err(root.error);
    }
    if x >= 4 {
      IntegerRootIsFloor(x, root.value);
    }
    return Ok(root.value.s);
  }

  /** `sqrt(x)` over the corrected `sqrt(x, r)`: the floor of the square root. */
  method SqrtRootCorrected(x: int, t: IntType) returns (res: Result<nat>)
    requires IsBuiltinIntegral(t) && InRange(t, x)
    ensures x < 0 ==> res == Err(NegativeValue)
    ensures x >= 0 ==>
      res.Ok? && res.value * res.value <= x < (res.value + 1) * (res.value + 1)
  {
    var root := SqrtCorrected(x, t);
    if root.Err? {
      return Err(root.error);
    }
    IntegerRootIsFloor(x, root.value);
    return Ok(root.value.s);
  }
}
