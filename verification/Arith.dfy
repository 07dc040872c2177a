/** Division with remainder, as far as the other modules need it. */
module Arith {

  lemma {:induction false} MulLe(x: int, y: int, z: int)
    requires x <= y && 0 <= z
    ensures x * z <= y * z
  {
    assert (y - x) * z >= 0;
  }

  lemma {:induction false} DivUnique(x: int, m: int, q: int, r: int)
    requires m > 0 && x == m * q + r && 0 <= r < m
    ensures x / m == q && x % m == r
  {
    var q', r' := x / m, x % m;
    assert m * (q' - q) == r - r';
    if q' > q {
      MulLe(1, q' - q, m);
    } else if q' < q {
      MulLe(1, q - q', m);
    }
  }

  lemma {:induction false} Divided(x: int, m: int)
    requires m > 0 && x % m == 0
    ensures m * (x / m) == x
  {
  }

  lemma {:induction false} ModShift(x: int, k: int, m: int)
    requires m > 0
    ensures (x + m * k) % m == x % m
  {
    var q, r := x / m, x % m;
    assert x + m * k == m * (q + k) + r;
    DivUnique(x + m * k, m, q + k, r);
  }

  lemma {:induction false} SumMod(a: int, x: int, y: int, m: int)
    requires m > 0 && x % m == y % m
    ensures (a + x) % m == (a + y) % m
  {
    var k := x / m - y / m;
    assert a + x == a + y + m * k;
    ModShift(a + y, k, m);
  }

  lemma {:induction false} ModMul(x: int, y: int, m: int)
    requires m > 0
    ensures ((x % m) * y) % m == (x * y) % m
  {
    var k := x / m;
    assert x == m * k + x % m;
    assert x * y == (x % m) * y + m * (k * y) by {
      assert (m * k) * y == m * (k * y);
    }
    ModShift((x % m) * y, k * y, m);
  }

  lemma {:induction false} DivAtLeastOne(x: nat, m: nat)
    requires 0 < m <= x
    ensures x / m >= 1
  {
    if x / m < 1 {
      DivUnique(x, m, 0, x);
    }
  }
}
