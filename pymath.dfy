/** Python's arithmetic on floats, read exactly on the reals: floor division
    `x // m`, the remainder `x % m` (which takes the sign of the divisor) and
    `int(x)` (which truncates toward zero). */
module PyMath {

  /** `x // m` for a positive divisor: the floor of the quotient. */
  function FloorDiv(x: real, m: real): int
    requires m > 0.0
  {
    (x / m).Floor
  }

  /** `x % m` for a positive divisor: what is left after taking away
      `m * (x // m)`; it lies in `[0, m)` whatever the sign of `x`. */
  function Mod(x: real, m: real): (r: real)
    requires m > 0.0
    ensures 0.0 <= r < m
    ensures x == m * (FloorDiv(x, m) as real) + r
  {
    var q := FloorDiv(x, m);
    var z := x / m;
    FloorBounds(z);
    DivMul(x, m);
    RemainderBounds(x, m, q as real, z);
    x - m * (q as real)
  }

  /** The multiple of `m` below `x` when `x / m` lies in `[a, a + 1)`. */
  lemma RemainderBounds(x: real, m: real, a: real, z: real)
    requires m > 0.0 && a <= z < a + 1.0 && z * m == x
    ensures m * a <= x
    ensures x < m * a + m
  {
    var f := z - a;
    MulMonotone(0.0, f, m);
    MulStrict(f, 1.0, m);
    assert f * m == z * m - a * m;
    assert 0.0 <= f * m < m;
    assert 0.0 <= x - a * m < m;
    MulCommutes(a, m);
  }

  lemma MulCommutes(a: real, m: real)
    ensures a * m == m * a
  {
  }

  lemma DivMul(x: real, m: real)
    requires m > 0.0
    ensures (x / m) * m == x
  {
  }

  /** `int(x)`: drops the fractional part, rounding toward zero. */
  function Trunc(x: real): (n: int)
    ensures x >= 0.0 ==> n == x.Floor && 0.0 <= x - n as real < 1.0
    ensures x < 0.0 ==> n <= 0 && 0.0 <= n as real - x < 1.0
  {
    if x >= 0.0 then x.Floor else -((-x).Floor)
  }

  lemma FloorBounds(z: real)
    ensures z.Floor as real <= z < z.Floor as real + 1.0
  {
  }

  /** The floor is the one integer whose unit interval holds `z`. */
  lemma FloorUnique(z: real, n: int)
    requires n as real <= z < n as real + 1.0
    ensures z.Floor == n
  {
  }

  /** An integer slides out of a floor. */
  lemma FloorShift(n: int, y: real)
    ensures (n as real + y).Floor == n + y.Floor
  {
    FloorUnique(n as real + y, n + y.Floor);
  }

  lemma MulMonotone(a: real, b: real, m: real)
    requires a <= b && m > 0.0
    ensures a * m <= b * m
  {
  }

  lemma MulStrict(a: real, b: real, m: real)
    requires a < b && m > 0.0
    ensures a * m < b * m
  {
  }

  /** The integer quotient of two stacked remainders: `x // b` regained from
      `x // (a * b)` and `(x % (a * b)) // b`. */
  lemma FloorDivNested(x: real, a: int, b: real)
    requires a >= 1 && b > 0.0
    ensures FloorDiv(x, b) == a * FloorDiv(x, (a as real) * b) + FloorDiv(Mod(x, (a as real) * b), b)
  {
    var ab := (a as real) * b;
    var q := FloorDiv(x, ab);
    var r := Mod(x, ab);
    var m := FloorDiv(r, b);
    var r2 := Mod(r, b);
    assert x == b * ((a * q + m) as real) + r2 by {
      assert x == ab * (q as real) + r;
      assert r == b * (m as real) + r2;
      assert ab * (q as real) == b * ((a * q) as real);
    }
    DivOfSum(x, b, a * q + m, r2);
  }

  /** When `x = b*n + r` with `0 <= r < b`, the floor of `x / b` is `n`. */
  lemma DivOfSum(x: real, b: real, n: int, r: real)
    requires b > 0.0 && 0.0 <= r < b && x == b * (n as real) + r
    ensures FloorDiv(x, b) == n
    ensures Mod(x, b) == r
  {
    assert x / b == n as real + r / b;
    assert 0.0 <= r / b < 1.0 by {
      assert (r / b) * b == r;
      if r / b >= 1.0 { MulMonotone(1.0, r / b, b); }
    }
    FloorUnique(x / b, n);
  }
}
