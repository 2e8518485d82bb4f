/** Java's 32-bit `int`: values are reduced to [-2^31, 2^31) by two's
    complement wrap-around after every addition and multiplication. */
module JavaInt {

  const IntMin: int := -0x8000_0000
  const IntMax: int := 0x7FFF_FFFF
  /** 2^32, the modulus of the wrap-around. */
  const Modulus: int := 0x1_0000_0000

  predicate InRange(x: int) { IntMin <= x <= IntMax }

  /** A mathematical integer as the Java int it wraps to. */
  function Wrap32(x: int): (r: int)
    ensures InRange(r)
    ensures InRange(x) ==> r == x
  {
    (x - IntMin) % Modulus + IntMin
  }

  /** The unsigned 32-bit reading of an int (what Integer.toBinaryString
      prints): negative values are read as their two's complement. */
  function Unsigned(x: int): (u: nat)
    requires InRange(x)
    ensures u < Modulus
    ensures (u - x) % Modulus == 0
  {
    if x < 0 then x + Modulus else x
  }

  /** Division by a positive number has a single quotient and remainder. */
  lemma DivModUnique(a: int, d: int, q: int, r: int)
    requires d > 0 && a == d * q + r && 0 <= r < d
    ensures a / d == q && a % d == r
  {
    var q0, r0 := a / d, a % d;
    assert a == d * q0 + r0 && 0 <= r0 < d;
    if q0 > q {
      MulAtLeast(d, q0 - q);
    } else if q0 < q {
      MulAtLeast(d, q - q0);
    }
  }

  lemma {:induction false} MulAtLeast(d: nat, x: int)
    requires x >= 1
    ensures d * x >= d
  {
    if x > 1 {
      MulAtLeast(d, x - 1);
      assert d * x == d * (x - 1) + d;
    }
  }

  /** Adding a multiple of 2^32 does not change the int a value wraps to. */
  lemma Wrap32Shift(x: int, k: int)
    ensures Wrap32(x + Modulus * k) == Wrap32(x)
  {
    var a := x - IntMin;
    var q, r := a / Modulus, a % Modulus;
    assert a == Modulus * q + r;
    assert a + Modulus * k == Modulus * (q + k) + r;
    DivModUnique(a + Modulus * k, Modulus, q + k, r);
  }

  /** Wrapping an intermediate result does not change the final one: Java's
      int arithmetic agrees with exact arithmetic modulo 2^32. */
  lemma Wrap32Inner(x: int, y: int)
    ensures Wrap32(Wrap32(x) + y) == Wrap32(x + y)
  {
    var a := x - IntMin;
    var q := a / Modulus;
    assert Wrap32(x) == x - Modulus * q;
    Wrap32Shift(x + y - Modulus * q, q);
  }

  /** The unsigned reading of a wrapped value is the value modulo 2^32. */
  lemma UnsignedWrap32(x: int)
    ensures Unsigned(Wrap32(x)) == x % Modulus
  {
    var w := Wrap32(x);
    var a := x - IntMin;
    var q := a / Modulus;
    assert w == x - Modulus * q;
    var u := Unsigned(w);
    if w < 0 {
      assert x == Modulus * (q - 1) + u;
      DivModUnique(x, Modulus, q - 1, u);
    } else {
      assert x == Modulus * q + u;
      DivModUnique(x, Modulus, q, u);
    }
  }
}
