/** Java's 32-bit two's-complement `int`: the element type of the matrices
    and the type of the running `sum`. Every `+` and `*` on it wraps. */
module JavaInt {

  const Modulus: int := 0x1_0000_0000
  const HalfModulus: int := 0x8000_0000

  newtype Int32 = x: int | -0x8000_0000 <= x < 0x8000_0000

  /** Two integers that Java's `int` cannot tell apart. */
  predicate Congruent(x: int, y: int) {
    (x - y) % Modulus == 0
  }

  /** The `int` a Java computation lands on when its exact value is `x`. */
  function Wrap(x: int): (r: Int32)
    ensures Congruent(r as int, x)
    ensures -HalfModulus <= x < HalfModulus ==> r as int == x
  {
    var m := (x + HalfModulus) % Modulus;
    (m - HalfModulus) as Int32
  }

  /** Java `a + b` on `int`. */
  function Add(a: Int32, b: Int32): (r: Int32)
    ensures Congruent(r as int, a as int + b as int)
    ensures -HalfModulus <= a as int + b as int < HalfModulus ==> r as int == a as int + b as int
  {
    Wrap(a as int + b as int)
  }

  /** Java `a * b` on `int`. */
  function Mul(a: Int32, b: Int32): (r: Int32)
    ensures Congruent(r as int, a as int * b as int)
    ensures -HalfModulus <= a as int * b as int < HalfModulus ==> r as int == a as int * b as int
  {
    Wrap(a as int * b as int)
  }

  /** Wrapping depends only on the residue modulo 2^32. */
  lemma WrapCongruent(x: int, y: int)
    requires Congruent(x, y)
    ensures Wrap(x) == Wrap(y)
  {
  }

  /** Wrapping each intermediate result of a sum gives the same `int` as
      wrapping only the exact total: the order in which Java wraps does not
      matter. */
  lemma WrapAdd(x: int, y: int)
    ensures Wrap(Wrap(x) as int + Wrap(y) as int) == Wrap(x + y)
  {
    var wx, wy := Wrap(x) as int, Wrap(y) as int;
    assert Congruent(wx + wy, x + y) by {
      var dx, dy := (wx - x) / Modulus, (wy - y) / Modulus;
      assert wx - x == dx * Modulus;
      assert wy - y == dy * Modulus;
      assert (wx + wy) - (x + y) == (dx + dy) * Modulus;
    }
    WrapCongruent(wx + wy, x + y);
  }
}
