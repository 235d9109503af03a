/**
 * The C# `int` and `byte` operations the identifier relies on, written out over
 * Dafny's unbounded integers: unchecked (wrapping) 32-bit arithmetic, the shift
 * operators, the narrowing `(byte)` cast and bitwise exclusive or.
 */
module TwosComplement {

  const TWO31: int := 0x8000_0000
  const TWO32: int := 0x1_0000_0000

  /** A C# `int`: a signed 32-bit two's-complement value. */
  type int32 = x: int | -0x8000_0000 <= x < 0x8000_0000

  /** A C# `byte`: an unsigned 8-bit value. */
  type byte = b: int | 0 <= b < 256

  /** The `int` that unchecked C# arithmetic produces for the exact result `x`. */
  function Wrap32(x: int): (r: int32)
    ensures -TWO31 <= x < TWO31 ==> r == x
    ensures TWO31 <= x < TWO31 + TWO32 ==> r == x - TWO32
    ensures (x - r) % TWO32 == 0
  {
    (x + TWO31) % TWO32 - TWO31
  }

  /** The 32-bit pattern of `x`, read as an unsigned number. */
  function Bits(x: int32): (u: nat)
    ensures u < TWO32
    ensures u % TWO32 == x % TWO32
  {
    if x < 0 then x + TWO32 else x
  }

  /** The `int` whose 32-bit pattern is `u`. */
  function Signed(u: nat): (x: int32)
    requires u < TWO32
    ensures Bits(x) == u
  {
    if u < TWO31 then u else u - TWO32
  }

  lemma SignedOfBits(x: int32)
    ensures Signed(Bits(x)) == x
  {
  }

  function Pow2(n: nat): (p: nat)
    ensures p > 0
  {
    if n == 0 then 1 else 2 * Pow2(n - 1)
  }

  lemma Pow2Values()
    ensures Pow2(0) == 1 && Pow2(8) == 0x100 && Pow2(16) == 0x1_0000 && Pow2(24) == 0x100_0000
    ensures Pow2(32) == TWO32
  {
    assert Pow2(4) == 0x10;
    assert Pow2(8) == 0x100;
    assert Pow2(12) == 0x1000;
    assert Pow2(16) == 0x1_0000;
    assert Pow2(20) == 0x10_0000;
    assert Pow2(24) == 0x100_0000;
    assert Pow2(28) == 0x1000_0000;
  }

  /** `x << n` on an `int`: the bits moved past bit 31 are lost. */
  function ShiftLeft(x: int32, n: nat): int32
    requires n < 32
  {
    Wrap32(x * Pow2(n))
  }

  /** `x >> n` on an `int`: an arithmetic shift, which rounds toward minus infinity. */
  function ShiftRight(x: int32, n: nat): int
    requires n < 32
  {
    x / Pow2(n)
  }

  /** The unchecked cast `(byte)x`: the low eight bits of `x`. */
  function ToByte(x: int): byte
  {
    x % 256
  }

  /** Unchecked `a * b` on two `int`s. */
  function Mul32(a: int32, b: int32): int32
  {
    Wrap32(a * b)
  }

  /** `x + 1` on an `int`, as `Interlocked.Increment` computes it: `int.MaxValue` goes to `int.MinValue`. */
  function Inc32(x: int32): (r: int32)
    ensures x < TWO31 - 1 ==> r == x + 1
    ensures x == TWO31 - 1 ==> r == -TWO31
  {
    Wrap32(x + 1)
  }

  /** Exclusive or of the low `width` bits of `a` and `b`, one bit at a time from the lowest. */
  function XorBits(a: nat, b: nat, width: nat): (r: nat)
    ensures r < Pow2(width)
  {
    if width == 0 then 0
    else (if a % 2 == b % 2 then 0 else 1) + 2 * XorBits(a / 2, b / 2, width - 1)
  }

  /** `a ^ b` on two `int`s: exclusive or of their 32-bit patterns. */
  function Xor32(a: int32, b: int32): int32
  {
    Pow2Values();
    Signed(XorBits(Bits(a), Bits(b), 32))
  }

  lemma {:induction false} XorBitsCommutes(a: nat, b: nat, width: nat)
    ensures XorBits(a, b, width) == XorBits(b, a, width)
  {
    if width > 0 {
      XorBitsCommutes(a / 2, b / 2, width - 1);
    }
  }

  lemma XorCommutes(a: int32, b: int32)
    ensures Xor32(a, b) == Xor32(b, a)
  {
    XorBitsCommutes(Bits(a), Bits(b), 32);
  }

  /** Exclusive or with a fixed key undoes itself. */
  lemma {:induction false} XorBitsCancel(k: nat, a: nat, width: nat)
    requires a < Pow2(width)
    ensures XorBits(k, XorBits(k, a, width), width) == a
  {
    if width > 0 {
      var m := XorBits(k, a, width);
      assert m % 2 == (if k % 2 == a % 2 then 0 else 1);
      assert m / 2 == XorBits(k / 2, a / 2, width - 1);
      XorBitsCancel(k / 2, a / 2, width - 1);
    }
  }

  lemma Xor32Cancel(k: int32, a: int32)
    ensures Xor32(k, Xor32(k, a)) == a
  {
    Pow2Values();
    var m := XorBits(Bits(k), Bits(a), 32);
    assert Bits(Xor32(k, a)) == m;
    XorBitsCancel(Bits(k), Bits(a), 32);
    SignedOfBits(a);
  }

  /** For a fixed left operand, `^` never maps two different `int`s to the same result. */
  lemma Xor32Injective(k: int32, a: int32, b: int32)
    requires a != b
    ensures Xor32(k, a) != Xor32(k, b)
  {
    Xor32Cancel(k, a);
    Xor32Cancel(k, b);
  }

  /** Wrapping an operand first does not change the wrapped result of a product. */
  lemma Wrap32Mul(y: int, c: int)
    ensures Wrap32(Wrap32(y) * c) == Wrap32(y * c)
  {
    var n := (y - Wrap32(y)) / TWO32;
    assert Wrap32(y) == y - n * TWO32;
    assert Wrap32(y) * c == y * c - (n * c) * TWO32;
    Wrap32Shift(y * c, n * c);
  }

  lemma Wrap32Shift(z: int, n: int)
    ensures Wrap32(z - n * TWO32) == Wrap32(z)
  {
    assert (z - n * TWO32 + TWO31) % TWO32 == (z + TWO31) % TWO32;
  }

  /** -0x6EB3E453 (the pattern 0x914C1BAD) is the inverse of 37 under unchecked multiplication. */
  const INV37: int32 := -0x6EB3E453

  lemma Mul37Inverse(x: int32)
    ensures Mul32(Mul32(x, 37), INV37) == x
  {
    assert 37 * INV37 == 1 - 16 * TWO32;
    Wrap32Mul(x * 37, INV37);
    assert x * 37 * INV37 == x - (16 * x) * TWO32;
    Wrap32Shift(x, 16 * x);
  }

  /**
   * Unchecked multiplication by 37 never maps two different `int`s to the same
   * result, because 37 is odd.
   */
  lemma Mul37Injective(a: int32, b: int32)
    requires a != b
    ensures Mul32(a, 37) != Mul32(b, 37)
  {
    Mul37Inverse(a);
    Mul37Inverse(b);
  }

  /**
   * A counter advanced one step at a time takes 2^32 steps to return to a value:
   * the wrapped values of two numbers less than 2^32 apart differ.
   */
  lemma Wrap32Distinct(a: int, b: int)
    requires a < b < a + TWO32
    ensures Wrap32(a) != Wrap32(b)
  {
  }
}
