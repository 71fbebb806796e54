/** Division with remainder, as the other modules use it. */
module Arith {

  lemma MulAtLeast(k: int, d: int)
    requires k >= 1 && d > 0
    ensures k * d >= d
  {
  }

  lemma MulMonotone(a: int, b: int, c: int)
    requires a <= b && c >= 0
    ensures a * c <= b * c
  {
  }

  lemma MulBelow(a: int, b: int, c: int)
    requires a < b && c >= 0
    ensures a * c <= b * c - c
  {
    MulMonotone(a + 1, b, c);
  }

  lemma DivMod(a: int, d: int)
    requires d > 0
    ensures a == (a / d) * d + a % d && 0 <= a % d < d
  {
  }

  lemma DivModUnique(a: int, d: int, q: int, r: int)
    requires d > 0 && 0 <= r < d && a == q * d + r
    ensures a / d == q && a % d == r
  {
    var q' := a / d;
    DivMod(a, d);
    if q > q' {
      MulAtLeast(q - q', d);
    } else if q < q' {
      MulAtLeast(q' - q, d);
    }
  }

  lemma MultipleMod(q: int, d: int)
    requires d > 0
    ensures (q * d) % d == 0
  {
    DivModUnique(q * d, d, q, 0);
  }

  lemma ModTwice(a: int, p: int)
    requires p > 0
    ensures a % (2 * p) == a % 2 + 2 * ((a / 2) % p)
  {
    var q := (a / 2) / p;
    DivMod(a / 2, p);
    assert a == q * (2 * p) + (a % 2 + 2 * ((a / 2) % p));
    DivModUnique(a, 2 * p, q, a % 2 + 2 * ((a / 2) % p));
  }

  lemma DivTwice(a: int, p: int)
    requires p > 0
    ensures a / (2 * p) == (a / 2) / p
  {
    var q, r := (a / 2) / p, (a / 2) % p;
    DivMod(a / 2, p);
    assert a == q * (2 * p) + (2 * r + a % 2);
    DivModUnique(a, 2 * p, q, 2 * r + a % 2);
  }

  // ------------------------------------------------- greatest common divisors

  function Gcd(a: nat, b: nat): (g: nat)
    ensures a + b > 0 ==> g > 0
    decreases b
  {
    if b == 0 then a else Gcd(b, a % b)
  }

  lemma MulSub(a: int, b: int, c: int)
    ensures (a - b) * c == a * c - b * c
  {
  }

  lemma ModShift(a: int, q: int, d: int)
    requires d > 0
    ensures (a + q * d) % d == a % d
  {
    DivMod(a, d);
    assert (a / d + q) * d == (a / d) * d + q * d;
    DivModUnique(a + q * d, d, a / d + q, a % d);
  }

  /** Congruent numbers differ by a multiple. */
  lemma ModDifference(a: int, b: int, d: int)
    requires d > 0
    ensures a % d == b % d <==> (a - b) % d == 0
  {
    DivMod(a, d);
    DivMod(b, d);
    DivMod(a - b, d);
    if a % d == b % d {
      MulSub(a / d, b / d, d);
      MultipleMod(a / d - b / d, d);
    }
    if (a - b) % d == 0 {
      ModShift(b, (a - b) / d, d);
    }
  }

  lemma Reorder(x: int, y: int, b: int, q: int, r: int)
    ensures b * x + r * y == (q * b + r) * y + b * (x - q * y)
  {
    assert (q * b + r) * y == q * b * y + r * y;
    assert b * (x - q * y) == b * x - b * (q * y);
    assert b * (q * y) == q * b * y;
  }

  /** The greatest common divisor is a combination of the two numbers. */
  lemma {:induction false} Bezout(a: nat, b: nat) returns (x: int, y: int)
    ensures a * x + b * y == Gcd(a, b)
    decreases b
  {
    if b == 0 {
      x, y := 1, 0;
    } else {
      var x', y' := Bezout(b, a % b);
      x, y := y', x' - (a / b) * y';
      DivMod(a, b);
      Reorder(x', y', b, a / b, a % b);
    }
  }

  lemma {:induction false} GcdDivides(a: nat, b: nat)
    requires a + b > 0
    ensures a % Gcd(a, b) == 0 && b % Gcd(a, b) == 0
    decreases b
  {
    if b == 0 {
      MultipleMod(1, a);
    } else {
      var g := Gcd(a, b);
      GcdDivides(b, a % b);
      DivMod(b, g);
      DivMod(a % b, g);
      DivMod(a, b);
      assert a == (a / b) * ((b / g) * g) + ((a % b) / g) * g;
      assert (a / b) * ((b / g) * g) == ((a / b) * (b / g)) * g;
      assert a == ((a / b) * (b / g) + (a % b) / g) * g;
      MultipleMod((a / b) * (b / g) + (a % b) / g, g);
    }
  }

  lemma Cancel(x: int, y: int, g: int)
    requires g > 0 && x * g == y * g
    ensures x == y
  {
    if x < y {
      MulAtLeast(y - x, g);
      MulSub(y, x, g);
    } else if x > y {
      MulAtLeast(x - y, g);
      MulSub(x, y, g);
    }
  }
}
