/** Bit-level view of non-negative integers.

    A value is read as an unbounded little-endian string of bits: `Bit(v, i)` is bit `i`
    of `v`.  The C++ operators `|`, `&`, `^` and `~` that the integer algorithms apply
    to native unsigned integers are defined here on `nat`, bit by bit, and each is
    characterised by a lemma saying what it does to every bit.
 */
module Bits {

  /** 2 to the power `n`. */
  function Pow2(n: nat): (r: nat)
    ensures r >= 1
  {
    if n == 0 then 1 else 2 * Pow2(n - 1)
  }

  lemma {:induction false} Pow2Add(m: nat, n: nat)
    ensures Pow2(m + n) == Pow2(m) * Pow2(n)
    decreases m
  {
    if m > 0 {
      Pow2Add(m - 1, n);
      calc {
        Pow2(m + n);
        2 * Pow2(m - 1 + n);
        2 * (Pow2(m - 1) * Pow2(n));
        (2 * Pow2(m - 1)) * Pow2(n);
      }
    }
  }

  lemma {:induction false} Pow2Strict(m: nat, n: nat)
    requires m < n
    ensures Pow2(m) < Pow2(n)
    decreases n
  {
    if m < n - 1 {
      Pow2Strict(m, n - 1);
    }
  }

  lemma Pow2Monotone(m: nat, n: nat)
    requires m <= n
    ensures Pow2(m) <= Pow2(n)
  {
    if m < n {
      Pow2Strict(m, n);
    }
  }

  /** Bit `i` of `v`. */
  predicate Bit(v: nat, i: nat)
    decreases i
  {
    if i == 0 then v % 2 == 1 else Bit(v / 2, i - 1)
  }

  /** Bitwise or (C++ `|` on unsigned operands). */
  function Or(a: nat, b: nat): nat
    decreases a + b
  {
    if a == 0 && b == 0 then 0
    else 2 * Or(a / 2, b / 2) + (if a % 2 == 1 || b % 2 == 1 then 1 else 0)
  }

  /** Bitwise and (C++ `&` on unsigned operands). */
  function And(a: nat, b: nat): nat
    decreases a
  {
    if a == 0 || b == 0 then 0
    else 2 * And(a / 2, b / 2) + (if a % 2 == 1 && b % 2 == 1 then 1 else 0)
  }

  /** Bitwise exclusive or (C++ `^` on unsigned operands). */
  function Xor(a: nat, b: nat): nat
    decreases a + b
  {
    if a == 0 && b == 0 then 0
    else 2 * Xor(a / 2, b / 2) + (if a % 2 != b % 2 then 1 else 0)
  }

  /** Bitwise complement of an `n`-bit unsigned value (C++ `~`). */
  function Complement(m: nat, n: nat): nat
    requires m < Pow2(n)
  {
    Pow2(n) - 1 - m
  }

  lemma {:induction false} BitZero(i: nat)
    ensures !Bit(0, i)
    decreases i
  {
    if i > 0 {
      BitZero(i - 1);
    }
  }

  /** A value below `2^n` has no bit set at or above `n`. */
  lemma {:induction false} BitAbove(v: nat, n: nat, i: nat)
    requires v < Pow2(n) && n <= i
    ensures !Bit(v, i)
    decreases n
  {
    if n == 0 {
      BitZero(i);
    } else {
      BitAbove(v / 2, n - 1, i - 1);
    }
  }

  /** Two values with the same bits are equal. */
  lemma {:induction false} BitsDetermine(a: nat, b: nat)
    requires forall i: nat :: Bit(a, i) == Bit(b, i)
    ensures a == b
    decreases a + b
  {
    if a + b > 0 {
      assert Bit(a, 0) == Bit(b, 0);
      forall i: nat
        ensures Bit(a / 2, i) == Bit(b / 2, i)
      {
        assert Bit(a, i + 1) == Bit(b, i + 1);
      }
      BitsDetermine(a / 2, b / 2);
    }
  }

  lemma {:induction false} BitPow2(n: nat, i: nat)
    ensures Bit(Pow2(n), i) == (i == n)
    decreases n
  {
    if n == 0 {
      if i > 0 {
        BitZero(i - 1);
      }
    } else if i > 0 {
      BitPow2(n - 1, i - 1);
    }
  }

  lemma {:induction false} BitOr(a: nat, b: nat, i: nat)
    ensures Bit(Or(a, b), i) == (Bit(a, i) || Bit(b, i))
    decreases i
  {
    if a == 0 && b == 0 {
      BitZero(i);
    } else if i > 0 {
      BitOr(a / 2, b / 2, i - 1);
    }
  }

  lemma {:induction false} BitAnd(a: nat, b: nat, i: nat)
    ensures Bit(And(a, b), i) == (Bit(a, i) && Bit(b, i))
    decreases i
  {
    if a == 0 || b == 0 {
      BitZero(i);
    } else if i > 0 {
      BitAnd(a / 2, b / 2, i - 1);
    }
  }

  lemma {:induction false} BitXor(a: nat, b: nat, i: nat)
    ensures Bit(Xor(a, b), i) == (Bit(a, i) != Bit(b, i))
    decreases i
  {
    if a == 0 && b == 0 {
      BitZero(i);
    } else if i > 0 {
      BitXor(a / 2, b / 2, i - 1);
    }
  }

  lemma {:induction false} BitComplement(m: nat, n: nat, i: nat)
    requires m < Pow2(n)
    ensures Bit(Complement(m, n), i) == (i < n && !Bit(m, i))
    decreases n
  {
    if n == 0 {
      BitZero(i);
    } else {
      var c := Complement(m, n);
      assert c == 2 * (Pow2(n - 1) - 1 - m / 2) + (1 - m % 2);
      assert c / 2 == Complement(m / 2, n - 1);
      if i > 0 {
        BitComplement(m / 2, n - 1, i - 1);
      }
    }
  }

  /** Bitwise or with operands below `2^n` stays below `2^n`. */
  lemma {:induction false} OrBelow(a: nat, b: nat, n: nat)
    requires a < Pow2(n) && b < Pow2(n)
    ensures Or(a, b) < Pow2(n)
    decreases n
  {
    if n > 0 && !(a == 0 && b == 0) {
      OrBelow(a / 2, b / 2, n - 1);
    }
  }

  lemma {:induction false} XorBelow(a: nat, b: nat, n: nat)
    requires a < Pow2(n) && b < Pow2(n)
    ensures Xor(a, b) < Pow2(n)
    decreases n
  {
    if n > 0 && !(a == 0 && b == 0) {
      XorBelow(a / 2, b / 2, n - 1);
    }
  }

  lemma {:induction false} AndAtMost(a: nat, b: nat)
    ensures And(a, b) <= a
    decreases a
  {
    if a != 0 && b != 0 {
      AndAtMost(a / 2, b / 2);
    }
  }

  lemma {:induction false} OrZero(a: nat)
    ensures Or(a, 0) == a
    decreases a
  {
    if a > 0 {
      OrZero(a / 2);
    }
  }

  /** Or-ing in a bit that is clear adds its weight. */
  lemma {:induction false} OrClearBit(v: nat, i: nat)
    requires !Bit(v, i)
    ensures Or(v, Pow2(i)) == v + Pow2(i)
    decreases i
  {
    if i == 0 {
      OrZero(v / 2);
    } else {
      OrClearBit(v / 2, i - 1);
    }
  }

  /** Bits of a multiple of `2^n`: the multiplier's bits moved up by `n` places. */
  lemma {:induction false} BitShift(k: nat, n: nat, i: nat)
    ensures Bit(k * Pow2(n), i) == (n <= i && Bit(k, i - n))
    decreases n
  {
    if n > 0 {
      var x := k * Pow2(n - 1);
      assert k * Pow2(n) == 2 * x;
      if i > 0 {
        assert (2 * x) / 2 == x;
        BitShift(k, n - 1, i - 1);
      }
    }
  }

  /** Masking with a single bit keeps that bit and nothing else. */
  lemma AndPow2(v: nat, i: nat)
    ensures And(v, Pow2(i)) == if Bit(v, i) then Pow2(i) else 0
  {
    var lhs, rhs := And(v, Pow2(i)), if Bit(v, i) then Pow2(i) else 0;
    forall j: nat
      ensures Bit(lhs, j) == Bit(rhs, j)
    {
      BitAnd(v, Pow2(i), j);
      BitPow2(i, j);
      BitZero(j);
    }
    BitsDetermine(lhs, rhs);
  }

  /** `v | 2^i` on an `n`-bit value: bit `i` set, every other bit unchanged. */
  lemma SetBitBits(v: nat, i: nat, n: nat)
    requires v < Pow2(n) && i < n
    ensures Or(v, Pow2(i)) < Pow2(n)
    ensures forall j: nat :: Bit(Or(v, Pow2(i)), j) == (Bit(v, j) || j == i)
  {
    Pow2Strict(i, n);
    OrBelow(v, Pow2(i), n);
    forall j: nat
      ensures Bit(Or(v, Pow2(i)), j) == (Bit(v, j) || j == i)
    {
      BitOr(v, Pow2(i), j);
      BitPow2(i, j);
    }
  }

  /** `v & ~2^i` on an `n`-bit value: bit `i` clear, every other bit unchanged. */
  lemma ClearBitBits(v: nat, i: nat, n: nat)
    requires v < Pow2(n) && i < n
    ensures Pow2(i) < Pow2(n)
    ensures And(v, Complement(Pow2(i), n)) <= v
    ensures forall j: nat :: Bit(And(v, Complement(Pow2(i), n)), j) == (Bit(v, j) && j != i)
  {
    Pow2Strict(i, n);
    AndAtMost(v, Complement(Pow2(i), n));
    forall j: nat
      ensures Bit(And(v, Complement(Pow2(i), n)), j) == (Bit(v, j) && j != i)
    {
      BitAnd(v, Complement(Pow2(i), n), j);
      BitComplement(Pow2(i), n, j);
      BitPow2(i, j);
      if j >= n {
        BitAbove(v, n, j);
      }
    }
  }

  /** `v ^ 2^i` on an `n`-bit value: bit `i` toggled, every other bit unchanged. */
  lemma FlipBitBits(v: nat, i: nat, n: nat)
    requires v < Pow2(n) && i < n
    ensures Xor(v, Pow2(i)) < Pow2(n)
    ensures forall j: nat :: Bit(Xor(v, Pow2(i)), j) == (Bit(v, j) != (j == i))
  {
    Pow2Strict(i, n);
    XorBelow(v, Pow2(i), n);
    forall j: nat
      ensures Bit(Xor(v, Pow2(i)), j) == (Bit(v, j) != (j == i))
    {
      BitXor(v, Pow2(i), j);
      BitPow2(i, j);
    }
  }

  /** A value in `[2^m, 2^(m+1))` has bit `m` set. */
  lemma {:induction false} BitOfTop(v: nat, m: nat)
    requires Pow2(m) <= v < Pow2(m + 1)
    ensures Bit(v, m)
    decreases m
  {
    if m > 0 {
      BitOfTop(v / 2, m - 1);
    }
  }
}
