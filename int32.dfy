/**
 * Java's fixed-width integers. `int` arithmetic and the `(int)` cast of a
 * `long` keep the low 32 bits and read them as two's complement; `&` and `|`
 * act on those 32 bits.
 */
module Int32 {
  import opened Binary

  const TWO_31: int := 0x8000_0000
  const TWO_32: int := 0x1_0000_0000
  const TWO_63: int := 0x8000_0000_0000_0000
  const TWO_64: int := 0x1_0000_0000_0000_0000

  lemma Pow2ThirtyTwo()
    ensures Pow2(31) == TWO_31 && Pow2(32) == TWO_32
  {
    Pow2Values();
  }

  /** Java `int`. */
  type int32 = x: int | -0x8000_0000 <= x < 0x8000_0000

  /** Java `long`. */
  type int64 = x: int | -0x8000_0000_0000_0000 <= x < 0x8000_0000_0000_0000

  /** The `int` with the same low 32 bits as `x`: `(int) x`, or an overflowing `int` sum. */
  function Wrap32(x: int): (r: int32)
    ensures (x - r) % TWO_32 == 0
    ensures -TWO_31 <= x < TWO_31 ==> r == x
  {
    var m := x % TWO_32;
    if m < TWO_31 then m else m - TWO_32
  }

  /** There is only one `int` with a given low 32 bits, so `Wrap32` is that one. */
  lemma Wrap32Unique(x: int, y: int32)
    requires (x - y) % TWO_32 == 0
    ensures y == Wrap32(x)
  {
    var r := Wrap32(x);
    assert (y - r) % TWO_32 == 0 by {
      assert y - r == (x - r) - (x - y);
    }
    assert -TWO_32 < y - r < TWO_32;
  }

  /** Sums that differ by multiples of 2^32 wrap to the same `int`. */
  lemma Wrap32Congruent(x: int, y: int)
    requires (x - y) % TWO_32 == 0
    ensures Wrap32(x) == Wrap32(y)
  {
    var r := Wrap32(y);
    assert x - r == (x - y) + (y - r);
    Wrap32Unique(x, r);
  }

  /** `x & 0xffffffffL`: the 32 bits of an `int` read as an unsigned number. */
  function Unsigned32(x: int32): (r: nat)
    ensures r < TWO_32
    ensures (r - x) % TWO_32 == 0
    ensures x >= 0 <==> r == x
  {
    if x < 0 then x + TWO_32 else x
  }

  /** On the range of unsigned 32-bit values, wrapping only moves the upper half down. */
  lemma Wrap32Unsigned(u: int)
    requires 0 <= u < TWO_32
    ensures Wrap32(u) == if u < TWO_31 then u else u - TWO_32
  {
    assert u % TWO_32 == u;
  }

  /** Reading the low 32 bits of an unsigned value as an `int` and back is the identity. */
  lemma Unsigned32Wrap32(u: nat)
    requires u < TWO_32
    ensures Unsigned32(Wrap32(u)) == u
  {
    assert u % TWO_32 == u;
  }

  /** Bit `k` of `u`, counting from the least significant bit. */
  function BitAt(u: nat, k: nat): bool
  {
    if k == 0 then u % 2 == 1 else BitAt(u / 2, k - 1)
  }

  /** For a `w`-bit value, the top bit is set exactly when the value reaches 2^(w-1). */
  lemma {:induction false} TopBit(u: nat, w: nat)
    requires 1 <= w && u < Pow2(w)
    ensures BitAt(u, w - 1) <==> u >= Pow2(w - 1)
  {
    if w > 1 {
      TopBit(u / 2, w - 1);
    }
  }

  /** The two bitwise operators the simulator uses. */
  datatype BitOp = AndOp | OrOp

  function ApplyBit(op: BitOp, x: bool, y: bool): bool
  {
    match op
    case AndOp => x && y
    case OrOp => x || y
  }

  /** `op` applied to each of the low `w` bits of `a` and `b`. */
  function Bitwise(op: BitOp, a: nat, b: nat, w: nat): (r: nat)
    ensures r < Pow2(w)
  {
    if w == 0 then 0
    else (if ApplyBit(op, a % 2 == 1, b % 2 == 1) then 1 else 0) + 2 * Bitwise(op, a / 2, b / 2, w - 1)
  }

  /** Each bit of the result is `op` of the same bit of the operands. */
  lemma {:induction false} BitwiseBits(op: BitOp, a: nat, b: nat, w: nat, k: nat)
    requires k < w
    ensures BitAt(Bitwise(op, a, b, w), k) == ApplyBit(op, BitAt(a, k), BitAt(b, k))
  {
    var r := Bitwise(op, a, b, w);
    if k > 0 {
      assert r / 2 == Bitwise(op, a / 2, b / 2, w - 1);
      BitwiseBits(op, a / 2, b / 2, w - 1, k - 1);
    }
  }

  /** Java's `op` on two `int`s: `op` on their 32-bit patterns, read back as an `int`. */
  function Bitwise32(op: BitOp, a: int32, b: int32): int32
  {
    Wrap32(Bitwise(op, Unsigned32(a), Unsigned32(b), 32))
  }

  /** The 32 bits of the result are `op` of the operands' bits, and so is its sign bit. */
  lemma Bitwise32Pattern(op: BitOp, a: int32, b: int32)
    ensures Unsigned32(Bitwise32(op, a, b)) == Bitwise(op, Unsigned32(a), Unsigned32(b), 32)
    ensures Bitwise32(op, a, b) < 0 <==> ApplyBit(op, a < 0, b < 0)
  {
    Pow2Values();
    var ua, ub := Unsigned32(a), Unsigned32(b);
    var u := Bitwise(op, ua, ub, 32);
    Unsigned32Wrap32(u);
    TopBit(ua, 32);
    TopBit(ub, 32);
    TopBit(u, 32);
    BitwiseBits(op, ua, ub, 32, 31);
  }

  /** Java's `a & b` on `int`s. */
  function And32(a: int32, b: int32): int32
  {
    Bitwise32(AndOp, a, b)
  }

  /** Java's `a | b` on `int`s. */
  function Or32(a: int32, b: int32): int32
  {
    Bitwise32(OrOp, a, b)
  }

  /**
   * Each of the 32 bits of `a & b` is set exactly when it is set in both
   * operands; in particular the result is negative exactly when both are.
   */
  lemma And32Bits(a: int32, b: int32)
    ensures forall k :: 0 <= k < 32 ==>
      BitAt(Unsigned32(And32(a, b)), k) == (BitAt(Unsigned32(a), k) && BitAt(Unsigned32(b), k))
    ensures And32(a, b) < 0 <==> a < 0 && b < 0
  {
    Bitwise32Pattern(AndOp, a, b);
    forall k | 0 <= k < 32
      ensures BitAt(Unsigned32(And32(a, b)), k) == (BitAt(Unsigned32(a), k) && BitAt(Unsigned32(b), k))
    {
      BitwiseBits(AndOp, Unsigned32(a), Unsigned32(b), 32, k);
    }
  }

  /**
   * Each of the 32 bits of `a | b` is set exactly when it is set in either
   * operand; in particular the result is negative exactly when either is.
   */
  lemma Or32Bits(a: int32, b: int32)
    ensures forall k :: 0 <= k < 32 ==>
      BitAt(Unsigned32(Or32(a, b)), k) == (BitAt(Unsigned32(a), k) || BitAt(Unsigned32(b), k))
    ensures Or32(a, b) < 0 <==> a < 0 || b < 0
  {
    Bitwise32Pattern(OrOp, a, b);
    forall k | 0 <= k < 32
      ensures BitAt(Unsigned32(Or32(a, b)), k) == (BitAt(Unsigned32(a), k) || BitAt(Unsigned32(b), k))
    {
      BitwiseBits(OrOp, Unsigned32(a), Unsigned32(b), 32, k);
    }
  }

  lemma MulAtLeast(d: int, k: int)
    requires d > 0 && k >= 1
    ensures d * k >= d
  {
    assert d * k == d + d * (k - 1);
  }

  /** A quotient and remainder that rebuild `a` are the Euclidean ones. */
  lemma DivModUnique(a: int, d: int, q: int, r: int)
    requires d > 0 && a == d * q + r && 0 <= r < d
    ensures a / d == q && a % d == r
  {
    var q0, r0 := a / d, a % d;
    assert d * q0 + r0 == a;
    assert d * (q - q0) == r0 - r;
    if q > q0 {
      MulAtLeast(d, q - q0);
    } else if q < q0 {
      MulAtLeast(d, q0 - q);
    }
  }

  /** Splitting off the lowest bit of a remainder modulo 2^w. */
  lemma ModSplit(a: nat, p: nat)
    requires p >= 1
    ensures a % (2 * p) == a % 2 + 2 * ((a / 2) % p)
  {
    var r, q := a % 2, a / 2;
    var t, s := q / p, q % p;
    assert q == p * t + s;
    assert a == 2 * q + r;
    assert a == (2 * p) * t + (2 * s + r);
    DivModUnique(a, 2 * p, t, 2 * s + r);
  }

  /** A zero operand: `and` clears every bit, `or` keeps the other operand's low `w` bits. */
  lemma {:induction false} BitwiseZero(op: BitOp, a: nat, w: nat)
    ensures Bitwise(op, a, 0, w) == if op == AndOp then 0 else a % Pow2(w)
  {
    if w > 0 {
      BitwiseZero(op, a / 2, w - 1);
      if op == OrOp {
        ModSplit(a, Pow2(w - 1));
      }
    }
  }

  /** Or-ing in bit 1 of a value whose bit 1 is clear adds 2. */
  lemma OrSecondBit(a: nat, w: nat)
    requires 2 <= w && a < Pow2(w) && (a / 2) % 2 == 0
    ensures Bitwise(OrOp, a, 2, w) == a + 2
  {
    var h := a / 2;
    var q := h / 2;
    assert h == 2 * q;
    assert a == 4 * q + a % 2;
    var p := Pow2(w - 2);
    assert Pow2(w) == 4 * p;
    assert q < p;
    DivModUnique(q, p, 0, q);
    BitwiseZero(OrOp, q, w - 2);
    var b1 := Bitwise(OrOp, h, 1, w - 1);
    assert b1 == 1 + 2 * Bitwise(OrOp, q, 0, w - 2);
    assert b1 == 1 + 2 * q;
  }

  /** Two `int`s with the same 32 bits are the same `int`. */
  lemma Unsigned32Injective(x: int32, y: int32)
    requires Unsigned32(x) == Unsigned32(y)
    ensures x == y
  {
  }

  /** `x & 0 == 0`. */
  lemma AndZero(a: int32)
    ensures And32(a, 0) == 0
  {
    Pow2ThirtyTwo();
    Bitwise32Pattern(AndOp, a, 0);
    BitwiseZero(AndOp, Unsigned32(a), 32);
    Unsigned32Injective(And32(a, 0), 0);
  }

  /** `x | 0 == x`. */
  lemma OrZero(a: int32)
    ensures Or32(a, 0) == a
  {
    var u := Unsigned32(a);
    Pow2ThirtyTwo();
    Bitwise32Pattern(OrOp, a, 0);
    BitwiseZero(OrOp, u, 32);
    DivModUnique(u, TWO_32, 0, u);
    assert Unsigned32(Or32(a, 0)) == u;
    Unsigned32Injective(Or32(a, 0), a);
  }

  /** Or-ing 2 into a non-negative `int` whose bit 1 is clear adds 2. */
  lemma OrTwo(a: int32)
    requires 0 <= a && (a / 2) % 2 == 0
    ensures Or32(a, 2) == a + 2
  {
    Pow2ThirtyTwo();
    Bitwise32Pattern(OrOp, a, 2);
    OrSecondBit(a, 32);
    Unsigned32Injective(Or32(a, 2), a + 2);
  }

  /** The value the simulator's `ori` test expects: 65533 | 2 == 65535. */
  lemma OrExample()
    ensures Or32(65533, 2) == 65535
  {
    OrTwo(65533);
  }

  /** `Long.toUnsignedString(x, 2)`: the 64 bits of `x` in binary, without leading zeros. */
  function ToUnsignedString(x: int64): (s: string)
    ensures IsBinary(s) && 1 <= |s|
    ensures Unsigned(s) < TWO_64
    ensures Unsigned(s) == if x < 0 then x + TWO_64 else x
    ensures s[0] == '1' || s == "0"
  {
    MinimalBits(if x < 0 then x + TWO_64 else x)
  }

  /** `Long.parseUnsignedLong(s, 2)`: an unsigned 64-bit binary value, held in a `long`. */
  function ParseUnsignedLong(s: string): (x: int64)
    requires IsBinary(s) && 1 <= |s| && Unsigned(s) < TWO_64
    ensures (Unsigned(s) - x) % TWO_64 == 0
  {
    var u := Unsigned(s);
    if u < TWO_63 then u else u - TWO_64
  }

  /** Printing a `long` unsigned in binary and parsing it back gives the same `long`. */
  lemma UnsignedStringRoundTrip(x: int64)
    ensures ParseUnsignedLong(ToUnsignedString(x)) == x
  {
  }
}
