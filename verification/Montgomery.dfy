/** Montgomery arithmetic on integers: what utils/rsa.c computes, word by word, stated without words.

  Throughout, `W` is 2^32 and a number of `len` words is less than `Pow(len)`, written R in the
  source.  Congruences are stated with their multiple spelled out: x == y + k * n.
 */
module Montgomery {
  import opened Arith

  const W: nat := 0x1_0000_0000

  ghost function Pow(i: nat): nat
    ensures Pow(i) > 0
  {
    if i == 0 then 1 else W * Pow(i - 1)
  }

  /** The public key: `n0inv` is -1/n modulo 2^32. */
  ghost predicate KeyOk(n: nat, n0inv: nat) {
    n > 0 && (n * n0inv + 1) % W == 0
  }

  // ----- One multiply-accumulate step

  /** The multiple of `n` that clears the low word of `x`. */
  ghost function Clearer(n0inv: nat, x: nat): (q: nat)
    ensures q < W
  {
    ((x % W) * n0inv) % W
  }

  lemma {:induction false} ClearerClears(n: nat, n0inv: nat, x: nat)
    requires KeyOk(n, n0inv)
    ensures (x + Clearer(n0inv, x) * n) % W == 0
  {
    var q, u := Clearer(n0inv, x), (x % W) * n0inv;
    ModMul(u, n, W);
    ModMul(x, n0inv * n, W);
    assert u * n == (x % W) * (n0inv * n);
    assert (q * n) % W == (x * (n0inv * n)) % W;
    var k := (n * n0inv + 1) / W;
    assert n * n0inv + 1 == W * k;
    assert x + x * (n0inv * n) == W * (x * k) by {
      assert x + x * (n0inv * n) == x * (1 + n * n0inv);
      assert x * (W * k) == W * (x * k);
    }
    SumMod(x, q * n, x * (n0inv * n), W);
    DivUnique(W * (x * k), W, x * k, 0);
  }

  /** c + a * b divided by 2^32 modulo n, brought below R once if need be. */
  ghost function MontStep(n: nat, n0inv: nat, R: nat, c: nat, a: nat, b: nat): int {
    var q := Clearer(n0inv, c + a * b);
    var t := (c + a * b + q * n) / W;
    if t >= R then t - n else t
  }

  lemma {:induction false} StepBound(c: nat, a: nat, b: nat, q: nat, n: nat, t: nat)
    requires c < b + n && a < W && q < W && W * t == c + a * b + q * n
    ensures t < b + n
  {
    MulLe(a, W - 1, b);
    MulLe(q, W - 1, n);
    assert W * t < W * b + W * n;
  }

  /** The quotient of a step is exact. */
  lemma {:induction false} StepDivides(n: nat, n0inv: nat, R: nat, c: nat, a: nat, b: nat) returns (q: nat, t: nat)
    requires KeyOk(n, n0inv)
    ensures q < W && W * t == c + a * b + q * n
    ensures MontStep(n, n0inv, R, c, a, b) == if t >= R then t - n else t
  {
    var s := c + a * b;
    q := Clearer(n0inv, s);
    t := (s + q * n) / W;
    ClearerClears(n, n0inv, s);
    Divided(s + q * n, W);
  }

  /** Each step keeps the accumulator below R and below b + n, and divides by 2^32 modulo n. */
  lemma {:induction false} MontStepKeeps(n: nat, n0inv: nat, R: nat, c: nat, a: nat, b: nat) returns (k: int)
    requires KeyOk(n, n0inv) && a < W && n <= R && b < R && c < b + n
    ensures var d := MontStep(n, n0inv, R, c, a, b); 0 <= d < R && d < b + n && W * d == c + a * b + k * n
  {
    var q, t := StepDivides(n, n0inv, R, c, a, b);
    k := BroughtBelow(n, R, c, a, b, q, t, MontStep(n, n0inv, R, c, a, b));
  }

  lemma {:induction false} BroughtBelow(n: nat, R: nat, c: nat, a: nat, b: nat, q: nat, t: nat, d: int) returns (k: int)
    requires a < W && q < W && n <= R && b < R && c < b + n && W * t == c + a * b + q * n
    requires d == if t >= R then t - n else t
    ensures 0 <= d < R && d < b + n && W * d == c + a * b + k * n
  {
    StepBound(c, a, b, q, n, t);
    k := Brought(n, R, c + a * b, q, t);
  }

  /** Taking n off once, if need be, changes the quotient by 2^32. */
  lemma {:induction false} Brought(n: nat, R: nat, s: nat, q: nat, t: nat) returns (k: int)
    requires n <= R && W * t == s + q * n
    ensures W * (if t >= R then t - n else t) == s + k * n
  {
    k := if t >= R then q - W else q;
    if t >= R {
      assert W * (t - n) == W * t - W * n;
      assert (q - W) * n == q * n - W * n;
    }
  }

  // ----- A whole product

  /** The accumulator after the multiplier words `a`, least significant first. */
  ghost function MontMul(n: nat, n0inv: nat, R: nat, a: seq<nat>, b: nat): int {
    if a == [] then 0
    else
      var c := MontMul(n, n0inv, R, a[..|a| - 1], b);
      if c < 0 then c else MontStep(n, n0inv, R, c, a[|a| - 1], b)
  }

  /** The number whose words are `s`, least significant first. */
  ghost function Val(s: seq<nat>): nat {
    if s == [] then 0 else Val(s[..|s| - 1]) + s[|s| - 1] * Pow(|s| - 1)
  }

  ghost predicate Words(s: seq<nat>) {
    forall i :: 0 <= i < |s| ==> s[i] < W
  }

  lemma {:induction false} ValBound(s: seq<nat>)
    requires Words(s)
    ensures Val(s) < Pow(|s|)
  {
    if s != [] {
      ValBound(s[..|s| - 1]);
      var p := Pow(|s| - 1);
      MulLe(s[|s| - 1], W - 1, p);
      assert (W - 1) * p + p == W * p;
    }
  }

  lemma {:induction false} Mul3(x: int, y: int, z: int)
    ensures x * y * z == x * (y * z)
  {
  }

  /** The product divided by R, modulo n: below R, and below b + n. */
  lemma {:induction false} MontMulKeeps(n: nat, n0inv: nat, R: nat, a: seq<nat>, b: nat) returns (k: int)
    requires KeyOk(n, n0inv) && Words(a) && n <= R && b < R
    ensures var c := MontMul(n, n0inv, R, a, b);
            0 <= c < R && c < b + n && Pow(|a|) * c == Val(a) * b + k * n
  {
    if a == [] {
      k := 0;
    } else {
      var m, x := |a| - 1, a[|a| - 1];
      var k0 := MontMulKeeps(n, n0inv, R, a[..m], b);
      var c := MontMul(n, n0inv, R, a[..m], b);
      var k1 := MontStepKeeps(n, n0inv, R, c, x, b);
      var d, p := MontStep(n, n0inv, R, c, x, b), Pow(m);
      k := k0 + p * k1;
      MulStep(p, c, d, x, b, Val(a[..m]), k0, k1, n);
    }
  }

  lemma {:induction false} MulStep(p: int, c: int, d: int, x: int, b: int, v: int, k0: int, k1: int, n: int)
    requires p * c == v * b + k0 * n && W * d == c + x * b + k1 * n
    ensures (W * p) * d == (v + x * p) * b + (k0 + p * k1) * n
  {
    calc {
      (W * p) * d;
      p * (W * d);
      p * (c + x * b + k1 * n);
      p * c + p * (x * b) + p * (k1 * n);
      { Mul3(p, k1, n); assert p * (x * b) == (x * p) * b; }
      v * b + k0 * n + (x * p) * b + (p * k1) * n;
      (v + x * p) * b + (k0 + p * k1) * n;
    }
  }

  // ----- Products in which no step subtracts

  /** A step that cannot reach R. */
  ghost predicate Gentle(n: nat, R: nat, a: nat, b: nat) {
    b + n <= R || (a <= 1 && 2 * n < R)
  }

  lemma {:induction false} GentleStep(n: nat, R: nat, c: nat, a: nat, b: nat, q: nat, t: nat)
    requires Gentle(n, R, a, b) && a < W && q < W && c < R && b < R && c < b + n && W * t == c + a * b + q * n
    ensures t < R
  {
    StepBound(c, a, b, q, n, t);
    if b + n > R {
      MulLe(a, 1, b);
      MulLe(q, W - 1, n);
      assert 2 * ((W - 1) * n) <= (W - 1) * R;
      if t >= R {
        MulLe(R, t, W);
      }
    }
  }

  /** Then the product divided by R is reached with multiples of n that are only added. */
  lemma {:induction false} MontMulUp(n: nat, n0inv: nat, R: nat, a: seq<nat>, b: nat) returns (k: nat)
    requires KeyOk(n, n0inv) && Words(a) && n <= R && b < R
    requires forall i :: 0 <= i < |a| ==> Gentle(n, R, a[i], b)
    ensures var c := MontMul(n, n0inv, R, a, b);
            0 <= c < R && c < b + n && Pow(|a|) * c == Val(a) * b + k * n
  {
    var _ := MontMulKeeps(n, n0inv, R, a, b);
    if a == [] {
      k := 0;
    } else {
      var m, x := |a| - 1, a[|a| - 1];
      var k0 := MontMulUp(n, n0inv, R, a[..m], b);
      var c := MontMul(n, n0inv, R, a[..m], b);
      var q, t := StepDivides(n, n0inv, R, c, x, b);
      GentleStep(n, R, c, x, b, q, t);
      k := k0 + Pow(m) * q;
      MulStep(Pow(m), c, t, x, b, Val(a[..m]), k0, q, n);
    }
  }

  /** The last step before its subtraction, when only that step may subtract. */
  lemma {:induction false} LastUp(n: nat, n0inv: nat, R: nat, a: seq<nat>, b: nat) returns (k: nat, t: nat)
    requires KeyOk(n, n0inv) && Words(a) && n <= R && b < R && a != []
    requires forall i :: 0 <= i < |a| - 1 ==> Gentle(n, R, a[i], b)
    ensures t < b + n && Pow(|a|) * t == Val(a) * b + k * n
    ensures MontMul(n, n0inv, R, a, b) == if t >= R then t - n else t
  {
    var m, x := |a| - 1, a[|a| - 1];
    var k0 := MontMulUp(n, n0inv, R, a[..m], b);
    var c := MontMul(n, n0inv, R, a[..m], b);
    var q;
    q, t := StepDivides(n, n0inv, R, c, x, b);
    StepBound(c, x, b, q, n, t);
    k := k0 + Pow(m) * q;
    MulStep(Pow(m), c, t, x, b, Val(a[..m]), k0, q, n);
  }

  // ----- How small a product can be

  /** A product is not much below the factor it is made from: no step subtracts unless it leaves at least R - n. */
  lemma {:induction false} MontMulAtLeast(n: nat, n0inv: nat, R: nat, a: seq<nat>, b: nat, low: nat)
    requires KeyOk(n, n0inv) && Words(a) && n <= R && low <= b < R && low + n <= R
    ensures Pow(|a|) * MontMul(n, n0inv, R, a, b) >= Val(a) * low
  {
    if a != [] {
      var m, x := |a| - 1, a[|a| - 1];
      MontMulAtLeast(n, n0inv, R, a[..m], b, low);
      var _ := MontMulKeeps(n, n0inv, R, a[..m], b);
      var c := MontMul(n, n0inv, R, a[..m], b);
      var q, t := StepDivides(n, n0inv, R, c, x, b);
      ValBound(a);
      AtLeastStep(n, R, Pow(m), Val(a[..m]), c, x, b, q, t, low);
    }
  }

  lemma {:induction false} AtLeastStep(n: nat, R: nat, p: nat, v: nat, c: nat, x: nat, b: nat, q: nat, t: nat, low: nat)
    requires p * c >= v * low && W * t == c + x * b + q * n && low <= b && low + n <= R && v + x * p < W * p
    ensures (W * p) * (if t >= R then t - n else t) >= (v + x * p) * low
  {
    if t >= R {
      MulLe(v + x * p, W * p, low);
      MulLe(low, t - n, W * p);
    } else {
      MulLe(low, b, x);
      MulLe(0, q, n);
      GrownBy(p, v, c, x, t, low);
    }
  }

  lemma {:induction false} GrownBy(p: nat, v: nat, c: nat, x: nat, t: nat, low: nat)
    requires p * c >= v * low && W * t >= c + x * low
    ensures (W * p) * t >= (v + x * p) * low
  {
    MulLe(c + x * low, W * t, p);
    assert (W * p) * t == (W * t) * p;
    assert (c + x * low) * p == p * c + (x * p) * low;
  }

  // ----- 2^32 is invertible modulo n

  /** An inverse of 2^(32 i) modulo n: Pow(i) * v == 1 + k * n. */
  lemma {:induction false} PowInverse(n: nat, n0inv: nat, i: nat) returns (v: int, k: int)
    requires KeyOk(n, n0inv)
    ensures Pow(i) * v == 1 + k * n
  {
    if i == 0 {
      v, k := 1, 0;
    } else {
      var v0, k0 := PowInverse(n, n0inv, i - 1);
      var w := (n * n0inv + 1) / W;
      assert W * w == 1 + n0inv * n;
      v, k := w * v0, k0 + n0inv + n0inv * k0 * n;
      InverseStep(Pow(i - 1), v0, k0, w, n0inv, n);
    }
  }

  lemma {:induction false} InverseStep(p: int, v0: int, k0: int, w: int, j: int, n: int)
    requires p * v0 == 1 + k0 * n && W * w == 1 + j * n
    ensures (W * p) * (w * v0) == 1 + (k0 + j + j * k0 * n) * n
  {
    calc {
      (W * p) * (w * v0);
      (W * w) * (p * v0);
      (1 + j * n) * (1 + k0 * n);
      1 + k0 * n + j * n + (j * n) * (k0 * n);
      { assert (j * n) * (k0 * n) == (j * k0 * n) * n; }
      1 + (k0 + j + j * k0 * n) * n;
    }
  }

  /** Cancelling an invertible factor. */
  lemma {:induction false} Cancel(R: int, v: int, j: int, n: int, x: int, k: int) returns (m: int)
    requires R * v == 1 + j * n && R * x == k * n
    ensures x == m * n
  {
    m := v * k - j * x;
    calc {
      m * n;
      (v * k) * n - (j * x) * n;
      { Mul3(v, k, n); }
      v * (R * x) - (j * x) * n;
      { assert v * (R * x) == (R * v) * x; }
      (1 + j * n) * x - (j * x) * n;
      x;
    }
  }

  lemma {:induction false} Residue(x: int, n: int, k: int, r: int)
    requires n > 0 && r == x + k * n && 0 <= r < n
    ensures r == x % n
  {
    assert x == n * (-k) + r;
    DivUnique(x, n, -k, r);
  }

  lemma {:induction false} RestOf(x: int, n: int, k: int, r: int)
    requires n > 0 && r + k * n == x && 0 <= r < n
    ensures r == x % n
  {
    assert n * k == k * n;
    DivUnique(x, n, k, r);
  }
}
