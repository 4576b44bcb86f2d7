/** Java's 32-bit `int`: its range, two's-complement wrap-around and bitwise complement. */
module JavaInt {
  const TWO_31: int := 0x8000_0000
  const TWO_32: int := 0x1_0000_0000
  /** Integer.MAX_VALUE. */
  const MAX_INT: int := 0x7FFF_FFFF

  predicate IsInt32(x: int)
  {
    -TWO_31 <= x < TWO_31
  }

  /** The int a Java `int` expression yields for the exact value `x` (wrap-around). */
  function Wrap32(x: int): (r: int)
    ensures IsInt32(r)
    ensures (r - x) % TWO_32 == 0
    ensures IsInt32(x) ==> r == x
  {
    (x + TWO_31) % TWO_32 - TWO_31
  }

  function Pow2(w: nat): (r: nat)
    ensures r >= 1
  {
    if w == 0 then 1 else 2 * Pow2(w - 1)
  }

  lemma {:induction false} Pow2Add(a: nat, b: nat)
    ensures Pow2(a + b) == Pow2(a) * Pow2(b)
  {
    if a > 0 {
      Pow2Add(a - 1, b);
    }
  }

  lemma Pow2Is32()
    ensures Pow2(32) == TWO_32
  {
    assert Pow2(4) == 16;
    Pow2Add(4, 4);
    Pow2Add(8, 8);
    Pow2Add(16, 16);
  }

  /** The low `w` bits of `u`, each one flipped, read back as a number. */
  function FlipBits(u: nat, w: nat): nat
  {
    if w == 0 then 0 else (1 - u % 2) + 2 * FlipBits(u / 2, w - 1)
  }

  lemma {:induction false} FlipBitsComplement(u: nat, w: nat)
    requires u < Pow2(w)
    ensures FlipBits(u, w) == Pow2(w) - 1 - u
  {
    if w > 0 {
      FlipBitsComplement(u / 2, w - 1);
    }
  }

  /** The unsigned reading of a Java int's two's-complement bit pattern. */
  function ToUnsigned(x: int): (u: nat)
    requires IsInt32(x)
    ensures u < TWO_32
  {
    if x < 0 then x + TWO_32 else x
  }

  /** The Java int a 32-bit unsigned pattern stands for. */
  function FromUnsigned(u: nat): (r: int)
    requires u < TWO_32
    ensures IsInt32(r)
  {
    if u >= TWO_31 then u - TWO_32 else u
  }

  /** Java's `~x`: every bit of the two's-complement pattern flipped. */
  function BitNot32(x: int): int
    requires IsInt32(x)
  {
    Pow2Is32();
    FlipBitsComplement(ToUnsigned(x), 32);
    FromUnsigned(FlipBits(ToUnsigned(x), 32))
  }

  /** Flipping every bit of a two's-complement int is `-x - 1`. */
  lemma BitNot32IsNegMinusOne(x: int)
    requires IsInt32(x)
    ensures BitNot32(x) == -x - 1
  {
    Pow2Is32();
    FlipBitsComplement(ToUnsigned(x), 32);
  }
}
