/** utils/rsa.c: the word-array algorithms behind RSA_verify, each computing the integer function
  of module Montgomery, and the public operation a^3 mod n.
 */
module Rsa {
  import opened Arith
  import opened Montgomery

  type Word = x: nat | x < W

  /** `n` and `rr` are little-endian word arrays of length `len`. */
  datatype Key = Key(len: nat, n0inv: Word, n: seq<Word>, rr: seq<Word>) {
    ghost predicate Valid() {
      && len > 0 && |n| == len && |rr| == len
      && (n[0] * n0inv + 1) % W == 0
    }

    ghost function N(): nat { Val(n) }

    ghost function R(): nat { Pow(len) }
  }

  // ----- Words and the numbers they make up

  lemma {:induction false} ValPrefix(s: seq<nat>, i: nat)
    requires i < |s|
    ensures Val(s[..i + 1]) == Val(s[..i]) + s[i] * Pow(i)
  {
    assert s[..i + 1][..i] == s[..i];
  }

  lemma {:induction false} WholePrefix(s: seq<nat>)
    ensures Val(s[..|s|]) == Val(s)
  {
    assert s[..|s|] == s;
  }

  lemma {:induction false} LowWord(s: seq<nat>) returns (k: nat)
    requires |s| > 0
    ensures Val(s) == s[0] + W * k
  {
    if |s| == 1 {
      k := 0;
      assert s[..0] == [] && Pow(0) == 1;
    } else {
      var m := |s| - 1;
      var k0 := LowWord(s[..m]);
      k := k0 + s[m] * Pow(m - 1);
      assert s[m] * (W * Pow(m - 1)) == W * (s[m] * Pow(m - 1));
    }
  }

  lemma {:induction false} KeyMeansOk(key: Key)
    requires key.Valid()
    ensures KeyOk(key.N(), key.n0inv) && key.N() < key.R()
  {
    var k := LowWord(key.n);
    ValBound(key.n);
    var n0, v := key.n[0], key.n0inv;
    assert key.N() * v + 1 == n0 * v + 1 + W * (k * v) by {
      assert (W * k) * v == W * (k * v);
    }
    ModShift(n0 * v + 1, k * v, W);
    assert n0 != 0 || n0 * v + 1 == 1;
  }

  // ----- subM

  lemma {:induction false} BorrowStep(x: int, y: int, v: int, u: int, a: int, n: int, A: int, A': int, d: int, p: int)
    requires v + A * p == x - y && A' == A + a - n && A' == W * u + d
    ensures (v + d * p) + u * (W * p) == (x + a * p) - (y + n * p)
  {
    calc {
      (v + d * p) + u * (W * p);
      { assert u * (W * p) == (W * u) * p; }
      v + (W * u + d) * p;
      v + A * p + (a - n) * p;
    }
  }

  /** `v` is the difference of the low words of `a` and `n`, up to the borrow `A`. */
  ghost predicate SubtractedFacts(a: seq<nat>, n: seq<nat>, v: seq<nat>, A: int) {
    |v| <= |a| == |n| && Val(v) + A * Pow(|v|) == Val(a[..|v|]) - Val(n[..|v|])
  }

  /** The same, kept folded. */
  ghost predicate Subtracted(a: seq<nat>, n: seq<nat>, v: seq<nat>, A: int) {
    forall w {:trigger SubtractedFacts(a, n, w, A)} :: w == v ==> SubtractedFacts(a, n, w, A)
  }

  /** One more word of a difference. */
  lemma {:induction false} Borrowed(a: seq<nat>, n: seq<nat>, v: seq<nat>, i: nat, B: int, A: int, d: nat)
    requires i < |a| == |n| && |v| == i && Subtracted(a, n, v, B) && B + a[i] - n[i] == W * A + d
    ensures Subtracted(a, n, v + [d], A)
  {
    assert SubtractedFacts(a, n, v, B);
    BorrowStep(Val(a[..i]), Val(n[..i]), Val(v), A, a[i], n[i], B, W * A + d, d, Pow(i));
    ValPrefix(v + [d], i);
    assert (v + [d])[..i] == v && (v + [d])[..i + 1] == v + [d];
    ValPrefix(a, i);
    ValPrefix(n, i);
  }

  lemma {:induction false} WholeDifference(a: seq<Word>, n: seq<Word>, v: seq<Word>, A: int)
    requires |a| == |n| == |v| && Subtracted(a, n, v, A)
    ensures Val(v) == (Val(a) - Val(n)) % Pow(|v|)
  {
    assert SubtractedFacts(a, n, v, A);
    WholePrefix(a);
    WholePrefix(n);
    ValBound(v);
    RestOf(Val(a) - Val(n), Pow(|v|), A, Val(v));
  }

  /** Subtracts the modulus, dropping a borrow out of the top word. */
  method SubM(key: Key, a: array<Word>)
    requires key.Valid() && a.Length == key.len
    modifies a
    ensures Val(a[..]) == (old(Val(a[..])) - key.N()) % key.R()
  {
    ghost var a0: seq<Word> := a[..];
    var A: int := 0;
    for i := 0 to key.len
      invariant -1 <= A <= 0 && Subtracted(a0, key.n, a[..i], A)
      invariant a[i..] == a0[i..]
    {
      ghost var v, B := a[..i], A;
      assert a[i] == a0[i];
      A := A + a[i] - key.n[i];
      ghost var A' := A;
      a[i] := A % W;
      A := A / W;
      assert A' == W * A + a[i] && a[..i + 1] == v + [a[i]];
      Borrowed(a0, key.n, v, i, B, A, a[i]);
    }
    assert a[..key.len] == a[..];
    WholeDifference(a0, key.n, a[..], A);
  }

  // ----- geM

  lemma {:induction false} SameTail(a: seq<nat>, b: seq<nat>, i: nat)
    requires |a| == |b| && i < |a| && a[i..] == b[i..]
    ensures a[|a| - 1] == b[|a| - 1] && a[..|a| - 1][i..] == b[..|a| - 1][i..]
  {
    var m := |a| - 1;
    assert a[m] == a[i..][m - i] && b[m] == b[i..][m - i];
    assert a[..m][i..] == a[i..][..m - i] && b[..m][i..] == b[i..][..m - i];
  }

  lemma {:induction false} TopWordDecides(a: seq<nat>, b: seq<nat>, i: nat)
    requires Words(a) && Words(b) && |a| == |b| && i < |a| && a[i] < b[i] && a[i + 1..] == b[i + 1..]
    ensures Val(a) < Val(b)
  {
    var m := |a| - 1;
    if i == m {
      ValBound(a[..m]);
      MulLe(a[m] + 1, b[m], Pow(m));
      assert Val(a) < (a[m] + 1) * Pow(m);
    } else {
      SameTail(a, b, i + 1);
      TopWordDecides(a[..m], b[..m], i);
    }
  }

  method GeM(key: Key, a: seq<Word>) returns (ge: bool)
    requires key.Valid() && |a| == key.len
    ensures ge <==> Val(a) >= key.N()
  {
    var i := key.len;
    while i != 0
      invariant 0 <= i <= key.len && a[i..] == key.n[i..]
    {
      i := i - 1;
      if a[i] < key.n[i] {
        TopWordDecides(a, key.n, i);
        return false;
      }
      if a[i] > key.n[i] {
        TopWordDecides(key.n, a, i);
        return true;
      }
    }
    assert a == a[0..] == key.n[0..] == key.n;
    return true;
  }

  // ----- montMulAdd

  /** A 64-bit accumulator holds a carry, a product of two words and one more word. */
  lemma {:induction false} Fits64(carry: nat, x: Word, y: Word, z: Word)
    requires carry < W
    ensures carry + x * y + z < W * W
  {
    MulLe(x, W - 1, y);
  }

  lemma {:induction false} HighWord(A: nat)
    requires A < W * W
    ensures A / W < W && A == W * (A / W) + A % W
  {
  }

  /** One position: `A` takes in c + a * b, `B` takes in d0 * n and the low word of `A`. */
  lemma {:induction false} CarryStep(total: int, v: int, A: int, B: int, p: int, a: int, b: int, c: int, d0: int,
                                     n: int,
                                     A': int, B': int, hiA: int, loA: int, hiB: int, loB: int)
    requires total == W * v + (A + B) * (W * p)
    requires A' == A + a * b + c && A' == W * hiA + loA
    requires B' == B + d0 * n + loA && B' == W * hiB + loB
    ensures total + (c + a * b + d0 * n) * (W * p) == W * (v + loB * p) + (hiA + hiB) * (W * (W * p))
  {
    var q := W * p;
    calc {
      total + (c + a * b + d0 * n) * q;
      W * v + (A + B) * q + (c + a * b + d0 * n) * q;
      { assert (A + B) * q + (c + a * b + d0 * n) * q == (A' + B + d0 * n) * q; }
      W * v + (W * hiA + B') * q;
      W * v + (W * hiA + W * hiB + loB) * q;
      { assert (W * hiA + W * hiB + loB) * q == (hiA + hiB) * (W * q) + loB * q; }
      W * v + (hiA + hiB) * (W * q) + loB * (W * p);
    }
  }

  /** Splitting the sums that make up the total at word `i`. */
  ghost function Total(c: seq<nat>, a: nat, b: seq<nat>, d0: nat, n: seq<nat>, i: nat): nat
    requires i <= |c| && i <= |b| && i <= |n|
  {
    Val(c[..i]) + a * Val(b[..i]) + d0 * Val(n[..i])
  }

  lemma {:induction false} TotalStep(c: seq<nat>, a: nat, b: seq<nat>, d0: nat, n: seq<nat>, i: nat)
    requires i < |c| && i < |b| && i < |n|
    ensures Total(c, a, b, d0, n, i + 1) == Total(c, a, b, d0, n, i) + (c[i] + a * b[i] + d0 * n[i]) * Pow(i)
  {
    ValPrefix(c, i);
    ValPrefix(b, i);
    ValPrefix(n, i);
    Distribute(c[i], a, b[i], d0, n[i], Val(b[..i]), Val(n[..i]), Pow(i));
  }

  lemma {:induction false} Distribute(c: int, a: int, b: int, d: int, n: int, vb: int, vn: int, p: int)
    ensures c * p + a * (vb + b * p) + d * (vn + n * p) == a * vb + d * vn + (c + a * b + d * n) * p
  {
    assert a * (vb + b * p) == a * vb + (a * b) * p;
    assert d * (vn + n * p) == d * vn + (d * n) * p;
  }

  /** The first position: its low word is cleared. */
  lemma {:induction false} FirstStep(c: seq<Word>, a: Word, b: seq<Word>, key: Key, A: nat, B: nat, d0: nat)
    requires key.Valid() && |c| == |b| == key.len
    requires A == a * b[0] + c[0] && d0 == ((A % W) * key.n0inv) % W && B == d0 * key.n[0] + A % W
    ensures d0 == Clearer(key.n0inv, Val(c) + a * Val(b))
    ensures A < W * W && B < W * W && B % W == 0
    ensures Total(c, a, b, d0, key.n, 1) == (A / W + B / W) * W
  {
    Fits64(0, a, b[0], c[0]);
    Fits64(0, d0, key.n[0], A % W);
    var kc := LowWord(c);
    var kb := LowWord(b);
    assert Val(c) + a * Val(b) == A + W * (kc + a * kb) by {
      assert a * (b[0] + W * kb) == a * b[0] + W * (a * kb);
    }
    ModShift(A, kc + a * kb, W);
    FirstClears(A, key.n0inv, key.n[0], d0);
    assert c[..0] == [] && b[..0] == [] && key.n[..0] == [];
    TotalStep(c, a, b, d0, key.n, 0);
    HighWord(A);
    HighWord(B);
  }

  lemma {:induction false} FirstClears(A: nat, n0inv: nat, n0: nat, d0: nat)
    requires (n0 * n0inv + 1) % W == 0 && d0 == ((A % W) * n0inv) % W
    ensures (d0 * n0 + A % W) % W == 0
  {
    var x := A % W;
    assert x % W == x;
    ClearerClears(n0, n0inv, x);
    assert Clearer(n0inv, x) == d0;
  }

  /** The carry loop: the sum divided by 2^32, with what exceeds `len` words in the result. */
  method MulAddWords(key: Key, c: array<Word>, a: Word, b: seq<Word>) returns (over: nat)
    requires key.Valid() && c.Length == key.len && |b| == key.len
    modifies c
    ensures var x := old(Val(c[..])) + a * Val(b);
            x + Clearer(key.n0inv, x) * key.N() == W * (Val(c[..]) + over * key.R())
  {
    ghost var c0: seq<Word> := c[..];
    var A: nat := a * b[0] + c[0];
    var d0: Word := ((A % W) * key.n0inv) % W;
    var B: nat := d0 * key.n[0] + A % W;
    FirstStep(c0, a, b, key, A, B, d0);
    A, B := CarryLoop(key, c, a, b, d0, A, B);
    ghost var m := key.len - 1;
    A := A / W + B / W;
    ghost var v := Val(c[..m]);
    c[key.len - 1] := A % W;
    over := A / W;
    assert c[..m] == c[..][..m];
    TopWord(c[..], v, A, m);
    WholeTotal(c0, a, b, d0, key.n, key.len);
  }

  /** The loop over the words from the second on, each result going one place down. */
  method CarryLoop(key: Key, c: array<Word>, a: Word, b: seq<Word>, d0: Word, A0: nat, B0: nat) returns (A: nat, B: nat)
    requires key.Valid() && c.Length == key.len && |b| == key.len && A0 < W * W && B0 < W * W
    requires Total(c[..], a, b, d0, key.n, 1) == (A0 / W + B0 / W) * W
    modifies c
    ensures A < W * W && B < W * W
    ensures Total(old(c[..]), a, b, d0, key.n, key.len) == W * Val(c[..key.len - 1]) + (A / W + B / W) * Pow(key.len)
  {
    ghost var c0: seq<Word> := c[..];
    A, B := A0, B0;
    var i := 1;
    assert c[..0] == [] && Pow(1) == W;
    while i < key.len
      invariant 1 <= i <= key.len && A < W * W && B < W * W
      invariant Total(c0, a, b, d0, key.n, i) == W * Val(c[..i - 1]) + (A / W + B / W) * Pow(i)
      invariant c[i..] == c0[i..]
    {
      assert c[i] == c0[i];
      ghost var v, hA, hB := Val(c[..i - 1]), A / W, B / W;
      A, B := Position(A, B, a, b[i], c[i], d0, key.n[i]);
      c[i - 1] := B % W;
      PositionAdds(c0, a, b, d0, key.n, i, v, hA, hB, A, B);
      ValPrefix(c[..], i - 1);
      assert c[..][..i] == c[..i] && c[..][..i - 1] == c[..i - 1];
      i := i + 1;
    }
  }

  /** Storing the low word of the last sum at the top. */
  lemma {:induction false} TopWord(c: seq<Word>, v: nat, A: nat, i: nat)
    requires |c| == i + 1 && c[i] == A % W && v == Val(c[..i])
    ensures W * v + A * Pow(i + 1) == W * (Val(c) + (A / W) * Pow(i + 1))
  {
    assert c[..i + 1] == c;
    ValPrefix(c, i);
    LastStep(v, A, Pow(i));
  }

  lemma {:induction false} WholeTotal(c: seq<nat>, a: nat, b: seq<nat>, d0: nat, n: seq<nat>, i: nat)
    requires |c| == |b| == |n| == i
    ensures Total(c, a, b, d0, n, i) == Val(c) + a * Val(b) + d0 * Val(n)
  {
    WholePrefix(c);
    WholePrefix(b);
    WholePrefix(n);
  }

  /** One turn of the carry loop; both accumulators stay below 2^64. */
  method Position(A: nat, B: nat, a: Word, b: Word, c: Word, d0: Word, n: Word) returns (A': nat, B': nat)
    requires A < W * W && B < W * W
    ensures A' == A / W + a * b + c && B' == B / W + d0 * n + A' % W
    ensures A' < W * W && B' < W * W
  {
    HighWord(A);
    HighWord(B);
    Fits64(A / W, a, b, c);
    A' := A / W + a * b + c;
    Fits64(B / W, d0, n, A' % W);
    B' := B / W + d0 * n + A' % W;
  }

  lemma {:induction false} PositionAdds(c0: seq<nat>, a: nat, b: seq<nat>, d0: nat, n: seq<nat>, i: nat,
                                        v: nat, hA: nat, hB: nat, A: nat, B: nat)
    requires 1 <= i < |c0| && i < |b| && i < |n|
    requires Total(c0, a, b, d0, n, i) == W * v + (hA + hB) * Pow(i)
    requires A == hA + a * b[i] + c0[i] && B == hB + d0 * n[i] + A % W
    ensures Total(c0, a, b, d0, n, i + 1) == W * (v + (B % W) * Pow(i - 1)) + (A / W + B / W) * Pow(i + 1)
  {
    TotalStep(c0, a, b, d0, n, i);
    CarryStep(Total(c0, a, b, d0, n, i), v, hA, hB, Pow(i - 1), a, b[i], c0[i], d0, n[i],
              A, B, A / W, A % W, B / W, B % W);
  }

  lemma {:induction false} LastStep(v: nat, A: nat, p: nat)
    ensures W * v + A * (W * p) == W * (v + (A % W) * p + (A / W) * (W * p))
  {
    assert A * (W * p) == W * (A * p);
    assert A * p == (A % W) * p + (A / W) * (W * p) by {
      assert (W * (A / W) + A % W) * p == (A % W) * p + (A / W) * (W * p);
    }
  }

  method MontMulAdd(key: Key, c: array<Word>, a: Word, b: seq<Word>)
    requires key.Valid() && c.Length == key.len && |b| == key.len
    requires Val(c[..]) < Val(b) + key.N()
    modifies c
    ensures Val(c[..]) == MontStep(key.N(), key.n0inv, key.R(), old(Val(c[..])), a, Val(b))
  {
    ghost var n, R, vb, vc := key.N(), key.R(), Val(b), Val(c[..]);
    MulLe(0, a, vb);
    ghost var q := Clearer(key.n0inv, vc + a * vb);
    KeyMeansOk(key);
    ValBound(b);
    var over := MulAddWords(key, c, a, b);
    ValBound(c[..]);
    StepValue(n, R, vc, a, vb, q, Val(c[..]), over);
    if over != 0 {
      Residue(Val(c[..]) - n, R, 1, Val(c[..]) + R - n);
      SubM(key, c);
    }
  }

  /** The sum before the last subtraction: one bit above `len` words. */
  lemma {:induction false} StepValue(n: nat, R: nat, c: nat, a: nat, b: nat, q: nat, v: nat, over: nat)
    requires c < b + n && a < W && q < W && v < R && b < R && n <= R
    requires c + a * b + q * n == W * (v + over * R)
    ensures over <= 1 && v + over * R < b + n && (c + a * b + q * n) / W == v + over * R
    ensures over == 1 ==> over * R == R && v < n
  {
    var t := v + over * R;
    StepBound(c, a, b, q, n, t);
    DivUnique(W * t, W, t, 0);
    OverIsBit(v, over, R, b + n);
  }

  lemma {:induction false} OverIsBit(v: nat, over: nat, R: nat, bound: nat)
    requires v < R && v + over * R < bound && bound <= 2 * R
    ensures over <= 1
  {
    if over >= 2 {
      MulLe(2, over, R);
    }
  }

  // ----- montMul

  method MulMod(key: Key, c: array<Word>, a: seq<Word>, b: seq<Word>)
    requires key.Valid() && c.Length == key.len && |a| == |b| == key.len
    modifies c
    ensures Val(c[..]) == MontMul(key.N(), key.n0inv, key.R(), a, Val(b))
  {
    KeyMeansOk(key);
    ValBound(b);
    for i := 0 to key.len
      invariant forall j :: 0 <= j < i ==> c[j] == 0
    {
      c[i] := 0;
    }
    ZeroVal(c[..]);
    for i := 0 to key.len
      invariant Val(c[..]) == MontMul(key.N(), key.n0inv, key.R(), a[..i], Val(b))
    {
      ghost var _ := MontMulKeeps(key.N(), key.n0inv, key.R(), a[..i], Val(b));
      assert a[..i + 1][..i] == a[..i];
      MontMulAdd(key, c, a[i], b);
    }
    assert a[..key.len] == a;
  }

  lemma {:induction false} ZeroVal(s: seq<nat>)
    requires forall i :: 0 <= i < |s| ==> s[i] == 0
    ensures Val(s) == 0
  {
    if s != [] {
      ZeroVal(s[..|s| - 1]);
    }
  }

  // ----- modpow3

  type Byte = x: nat | x < 256

  ghost function Pow256(i: nat): nat {
    if i == 0 then 1 else 256 * Pow256(i - 1)
  }

  /** A big-endian byte string as a number. */
  ghost function BigEndian(s: seq<nat>): nat {
    if s == [] then 0 else s[0] * Pow256(|s| - 1) + BigEndian(s[1..])
  }

  function Word4(s: seq<nat>, k: nat): nat
    requires k + 4 <= |s|
  {
    0x100_0000 * s[k] + 0x1_0000 * s[k + 1] + 0x100 * s[k + 2] + s[k + 3]
  }

  lemma {:induction false} WordPower(i: nat)
    ensures Pow256(4 * i) == Pow(i)
  {
    if i > 0 {
      WordPower(i - 1);
      var p := Pow256(4 * i - 4);
      assert Pow256(4 * i - 3) == 256 * p;
      assert Pow256(4 * i - 2) == 256 * (256 * p);
      assert Pow256(4 * i - 1) == 256 * (256 * (256 * p));
    }
  }

  lemma {:induction false} FirstWord(s: seq<nat>)
    requires |s| >= 4
    ensures BigEndian(s) == Word4(s, 0) * Pow256(|s| - 4) + BigEndian(s[4..])
  {
    var p := Pow256(|s| - 4);
    var s1, s2, s3 := s[1..], s[2..], s[3..];
    assert s1[1..] == s2 && s2[1..] == s3 && s3[1..] == s[4..];
    assert Pow256(|s| - 3) == 256 * p;
    assert Pow256(|s| - 2) == 0x1_0000 * p;
    assert Pow256(|s| - 1) == 0x100_0000 * p;
    assert BigEndian(s) == s[0] * (0x100_0000 * p) + BigEndian(s1);
    assert BigEndian(s1) == s[1] * (0x1_0000 * p) + BigEndian(s2);
    assert BigEndian(s2) == s[2] * (0x100 * p) + BigEndian(s3);
    assert BigEndian(s3) == s[3] * p + BigEndian(s[4..]);
    FourTerms(s[0], s[1], s[2], s[3], p);
  }

  lemma {:induction false} FourTerms(a: nat, b: nat, c: nat, d: nat, p: nat)
    ensures (0x100_0000 * a + 0x1_0000 * b + 0x100 * c + d) * p
         == a * (0x100_0000 * p) + b * (0x1_0000 * p) + c * (0x100 * p) + d * p
  {
  }

  /** Word `i` of `w`, least significant first, is the `i`-th group of four bytes from the end. */
  ghost predicate SameNumber(s: seq<nat>, w: seq<nat>) {
    |s| == 4 * |w| && forall i :: 0 <= i < |w| ==> Word4(s, 4 * (|w| - 1 - i)) == w[i]
  }

  lemma {:induction false} SameValue(s: seq<nat>, w: seq<nat>)
    requires SameNumber(s, w)
    ensures BigEndian(s) == Val(w)
    decreases |w|
  {
    if w != [] {
      var m := |w| - 1;
      FirstWord(s);
      WordPower(m);
      assert Word4(s, 4 * (|w| - 1 - m)) == w[m];
      var s', w' := s[4..], w[..m];
      forall i | 0 <= i < m ensures Word4(s', 4 * (m - 1 - i)) == w'[i] {
        assert Word4(s, 4 * (|w| - 1 - i)) == w[i];
      }
      SameValue(s', w');
    }
  }

  ghost predicate RrOk(key: Key)
    requires key.Valid()
  {
    key.N() > 0 && (Val(key.rr) - key.R() * key.R()) % key.N() == 0
  }

  lemma {:induction false} RrMultiple(key: Key) returns (k: int)
    requires key.Valid() && RrOk(key)
    ensures Val(key.rr) == key.R() * key.R() + k * key.N()
  {
    var x := Val(key.rr) - key.R() * key.R();
    k := x / key.N();
    Divided(x, key.N());
  }

  /** Three Montgomery products make the cube: the factors R cancel modulo n. */
  lemma {:induction false} CubeOfProducts(n: int, R: int, v: int, j: int, a: int, rr: int, aR: int, aaR: int, aaa: int,
                                          k: int, k1: int, k2: int, k3: int) returns (m: int)
    requires R * v == 1 + j * n && rr == R * R + k * n
    requires R * aR == a * rr + k1 * n && R * aaR == aR * aR + k2 * n && R * aaa == aaR * a + k3 * n
    ensures aaa == a * a * a + m * n
  {
    assert R * (aR - a * R) == (a * k + k1) * n by {
      assert a * (R * R + k * n) == a * (R * R) + (a * k) * n;
      assert R * (a * R) == a * (R * R);
    }
    var m1 := Cancel(R, v, j, n, aR - a * R, a * k + k1);
    var m2 := SquareStep(n, R, v, j, a, aR, aaR, k2, m1);
    assert R * (aaa - a * a * a) == (a * m2 + k3) * n by {
      assert (a * a * R + m2 * n) * a == R * (a * a * a) + (a * m2) * n;
    }
    m := Cancel(R, v, j, n, aaa - a * a * a, a * m2 + k3);
  }

  lemma {:induction false} SquareStep(n: int, R: int, v: int, j: int, a: int, aR: int, aaR: int, k2: int, m1: int)
      returns (m2: int)
    requires R * v == 1 + j * n && aR == a * R + m1 * n && R * aaR == aR * aR + k2 * n
    ensures aaR == a * a * R + m2 * n
  {
    var x := a * R;
    var q := 2 * (x * m1) + m1 * m1 * n + k2;
    assert aR * aR == x * x + (2 * (x * m1) + m1 * m1 * n) * n;
    assert x * x == R * (a * a * R);
    assert R * (aaR - a * a * R) == q * n;
    m2 := Cancel(R, v, j, n, aaR - a * a * R, q);
  }

  /** The number modpow3 works on before its last step: a cube modulo n, within a + n and within R. */
  lemma {:induction false} CubeModN(key: Key, a: seq<Word>, aR: seq<Word>, aaR: seq<Word>, aaa: nat) returns (m: int)
    requires key.Valid() && RrOk(key) && |a| == |aR| == |aaR| == key.len
    requires Val(aR) == MontMul(key.N(), key.n0inv, key.R(), a, Val(key.rr))
    requires Val(aaR) == MontMul(key.N(), key.n0inv, key.R(), aR, Val(aR))
    requires aaa == MontMul(key.N(), key.n0inv, key.R(), aaR, Val(a))
    ensures CubeOf(aaa, Val(a), key.N(), m)
    ensures aaa < key.R() && aaa < Val(a) + key.N()
  {
    KeyMeansOk(key);
    ValBound(a);
    ValBound(aR);
    ValBound(key.rr);
    var n, R := key.N(), key.R();
    var k1 := MontMulKeeps(n, key.n0inv, R, a, Val(key.rr));
    var k2 := MontMulKeeps(n, key.n0inv, R, aR, Val(aR));
    var k3 := MontMulKeeps(n, key.n0inv, R, aaR, Val(a));
    var v, j := PowInverse(n, key.n0inv, key.len);
    var k := RrMultiple(key);
    m := CubeOfProducts(n, R, v, j, Val(a), Val(key.rr), Val(aR), Val(aaR), aaa, k, k1, k2, k3);
  }

  /** What one conditional subtraction makes of `v`. */
  ghost function Once(v: int, n: nat): int {
    if v >= n then v - n else v
  }

  /** The three products of modpow3 on the words `a`, and the last one brought down once. */
  ghost predicate Products(key: Key, a: seq<Word>, aR: seq<Word>, aaR: seq<Word>, r: nat) {
    && |a| == |aR| == |aaR| == key.len
    && Val(aR) == MontMul(key.N(), key.n0inv, key.R(), a, Val(key.rr))
    && Val(aaR) == MontMul(key.N(), key.n0inv, key.R(), aR, Val(aR))
    && r == Once(MontMul(key.N(), key.n0inv, key.R(), aaR, Val(a)), key.N())
  }

  /** modpow3 makes `r` of the number `x`. */
  ghost predicate Leaves(key: Key, x: nat, r: nat) {
    exists a: seq<Word>, aR: seq<Word>, aaR: seq<Word> :: Val(a) == x && Products(key, a, aR, aaR, r)
  }

  lemma {:induction false} Highest(s: seq<Word>)
    requires s != []
    ensures var m := |s| - 1; s[m] == Val(s) / Pow(m) && Val(s[..m]) == Val(s) % Pow(m)
  {
    var m := |s| - 1;
    ValBound(s[..m]);
    DivUnique(Val(s), Pow(m), s[m], Val(s[..m]));
  }

  lemma {:induction false} ValUnique(s: seq<Word>, t: seq<Word>)
    requires |s| == |t| && Val(s) == Val(t)
    ensures s == t
  {
    if s != [] {
      var m := |s| - 1;
      Highest(s);
      Highest(t);
      ValUnique(s[..m], t[..m]);
      assert s == s[..m] + [s[m]] && t == t[..m] + [t[m]];
    }
  }

  /** It makes one number only. */
  lemma {:induction false} LeavesOne(key: Key, x: nat, r: nat, r': nat)
    requires Leaves(key, x, r) && Leaves(key, x, r')
    ensures r == r'
  {
    var a: seq<Word>, aR: seq<Word>, aaR: seq<Word> :| Val(a) == x && Products(key, a, aR, aaR, r);
    var b: seq<Word>, bR: seq<Word>, bbR: seq<Word> :| Val(b) == x && Products(key, b, bR, bbR, r');
    ValUnique(a, b);
    ValUnique(aR, bR);
    ValUnique(aaR, bbR);
  }

  /** The public operation, in place on a big-endian byte string: always a number congruent to the
      cube, the cube modulo n itself exactly if the result is below n, and that whenever the input is
      below n or n fills its words. */
  method ModPow3(key: Key, inout: array<Byte>) returns (ghost w: seq<Word>, ghost wR: seq<Word>, ghost wwR: seq<Word>)
    requires key.Valid() && RrOk(key) && inout.Length == 4 * key.len
    modifies inout
    ensures Val(w) == old(BigEndian(inout[..])) && Products(key, w, wR, wwR, BigEndian(inout[..]))
    ensures var a, r := old(BigEndian(inout[..])), BigEndian(inout[..]);
            && (exists m :: CubeOf(r, a, key.N(), m))
            && (r < key.N() || r < a)
            && (r == (a * a * a) % key.N() <==> r < key.N())
            && (a < key.N() || 2 * key.N() >= key.R() ==> r == (a * a * a) % key.N())
  {
    var a := new Word[key.len];
    var aR := new Word[key.len];
    var aaR := new Word[key.len];
    FromBytes(key.len, inout[..], a);
    SameValue(inout[..], a[..]);
    MulMod(key, aR, a[..], key.rr);
    MulMod(key, aaR, aR[..], aR[..]);
    w, wR, wwR := a[..], aR[..], aaR[..];
    var aaa := aR;
    MulMod(key, aaa, aaR[..], a[..]);
    ghost var m := CubeModN(key, a[..], wR, aaR[..], Val(aaa[..]));
    ghost var before := Val(aaa[..]);
    Reduce(key, aaa);
    CubeReduced(Val(a[..]), key.N(), key.R(), before, m, Val(aaa[..]));
    ToBytes(key.len, aaa[..], inout);
    SameValue(inout[..], aaa[..]);
  }

  /** One conditional subtraction. */
  method Reduce(key: Key, a: array<Word>)
    requires key.Valid() && a.Length == key.len
    modifies a
    ensures Val(a[..]) == Once(old(Val(a[..])), key.N())
  {
    var ge := GeM(key, a[..]);
    if ge {
      ValBound(a[..]);
      Residue(Val(a[..]) - key.N(), key.R(), 0, Val(a[..]) - key.N());
      SubM(key, a);
    }
  }

  ghost predicate CubeOf(r: int, a: int, n: int, m: int) {
    r == a * a * a + m * n
  }

  lemma {:induction false} CubeReduced(a: nat, n: nat, R: nat, x: nat, m: int, r: nat)
    requires n > 0 && CubeOf(x, a, n, m) && x < R && x < a + n && r == if x >= n then x - n else x
    ensures r < n || r < a
    ensures exists k :: CubeOf(r, a, n, k)
    ensures r == (a * a * a) % n <==> r < n
    ensures a < n || 2 * n >= R ==> r < n
  {
    var k := if x >= n then m - 1 else m;
    var c := a * a * a;
    assert (m - 1) * n == m * n - n;
    assert CubeOf(r, a, n, k);
    if r < n {
      Residue(c, n, k, r);
    }
  }

  method FromBytes(len: nat, s: seq<Byte>, a: array<Word>)
    requires |s| == 4 * len && a.Length == len
    modifies a
    ensures SameNumber(s, a[..])
  {
    for i := 0 to len
      invariant forall j :: 0 <= j < i ==> a[j] == Word4(s, 4 * (len - 1 - j))
    {
      a[i] := Word4(s, 4 * (len - 1 - i));
    }
  }

  method PutWord(out: array<Byte>, k: nat, tmp: Word)
    requires k + 4 <= out.Length
    modifies out
    ensures Word4(out[..], k) == tmp
    ensures forall p :: 0 <= p < out.Length && (p < k || p >= k + 4) ==> out[p] == old(out[p])
  {
    out[k] := tmp / 0x100_0000;
    out[k + 1] := (tmp / 0x1_0000) % 256;
    out[k + 2] := (tmp / 0x100) % 256;
    out[k + 3] := tmp % 256;
    FourBytes(tmp);
  }

  lemma {:induction false} FourBytes(x: nat)
    ensures x == (x / 0x100_0000) * 0x100_0000 + (x / 0x1_0000) % 256 * 0x1_0000 + (x / 0x100) % 256 * 0x100 + x % 256
  {
    var a := x / 256;
    var b := a / 256;
    assert x == 256 * a + x % 256 && a == 256 * b + a % 256 && b == 256 * (b / 256) + b % 256;
    DivUnique(x, 0x1_0000, b, 256 * (a % 256) + x % 256);
    DivUnique(x, 0x100_0000, b / 256, 0x1_0000 * (b % 256) + 256 * (a % 256) + x % 256);
  }

  method ToBytes(len: nat, w: seq<Word>, out: array<Byte>)
    requires |w| == len && out.Length == 4 * len
    modifies out
    ensures SameNumber(out[..], w)
  {
    var i, k := len - 1, 0;
    while i >= 0
      invariant -1 <= i < len && k == 4 * (len - 1 - i)
      invariant forall j :: i < j < len ==> Word4(out[..], 4 * (len - 1 - j)) == w[j]
    {
      PutWord(out, k, w[i]);
      i, k := i - 1, k + 4;
    }
  }

  // ----- RSA_verify

  /** The padding of a PKCS#1 v1.5 signature over a SHA-1 digest (section 9.2 of RFC 8017). */
  function Padding(): (p: seq<Byte>)
    ensures |p| == 236
  {
    [0x00, 0x01] + seq(218, _ => 0xff) + [0x00]
    + [0x30, 0x21, 0x30, 0x09, 0x06, 0x05, 0x2b, 0x0e, 0x03, 0x02, 0x1a, 0x05, 0x00, 0x04, 0x14]
  }

  /** Where the value that starts at `at` with a tag and a length byte ends. */
  function ValueEnd(s: seq<Byte>, at: nat): int
    requires at + 1 < |s|
  {
    at + 2 + s[at + 1]
  }

  /** The padded digest is the block of section 9.2 of RFC 8017: 00 01, then ff up to one 00, then a sequence that ends
      with the block.  In it come a sequence of the identifier of SHA-1 and a null, both ending where the next value
      starts, and an octet string that is the digest. */
  lemma {:induction false} PaddingIs(sha: seq<Byte>)
    requires |sha| == 20
    ensures var b := Padding() + sha;
            && |b| == 256 && b[0] == 0x00 && b[1] == 0x01 && (forall i :: 2 <= i < 220 ==> b[i] == 0xff)
            && b[220] == 0x00
            && b[221] == 0x30 && ValueEnd(b, 221) == 256
            && b[223] == 0x30 && ValueEnd(b, 223) == 234
            && b[225] == 0x06 && b[227..232] == [0x2b, 0x0e, 0x03, 0x02, 0x1a] && ValueEnd(b, 225) == 232
            && b[232] == 0x05 && ValueEnd(b, 232) == 234
            && b[234] == 0x04 && ValueEnd(b, 234) == 256 && b[236..] == sha
  {
    var tail: seq<Byte> := [0x30, 0x21, 0x30, 0x09, 0x06, 0x05, 0x2b, 0x0e, 0x03, 0x02, 0x1a, 0x05, 0x00, 0x04, 0x14];
    var p := Padding();
    assert p[221..] == tail;
    assert forall i :: 0 <= i < 15 ==> p[221 + i] == tail[i];
    var b := p + sha;
    assert forall i {:trigger b[i]} :: 221 <= i < 236 ==> b[i] == p[221..][i - 221];
    assert b[227] == 0x2b && b[228] == 0x0e && b[229] == 0x03 && b[230] == 0x02 && b[231] == 0x1a;
    assert b[227..232] == [0x2b, 0x0e, 0x03, 0x02, 0x1a];
  }

  /** Accepts exactly the 256-byte signatures of which modpow3 makes the padded digest.  Their cube is congruent to
      it; when the cube is known to be reduced, they are those whose cube modulo n is the padded digest. */
  method Verify(key: Key, signature: seq<Byte>, sha: seq<Byte>) returns (ok: bool)
    requires key.Valid() && RrOk(key) && |sha| == 20
    ensures var s, d := BigEndian(signature), BigEndian(Padding() + sha);
            && (ok <==> key.len == 64 && |signature| == 256 && Leaves(key, s, d))
            && (ok ==> exists m :: CubeOf(d, s, key.N(), m))
            && (ok && d < key.N() ==> d == (s * s * s) % key.N())
            && (s < key.N() || 2 * key.N() >= key.R() ==>
                  (ok <==> key.len == 64 && |signature| == 256 && d == (s * s * s) % key.N()))
  {
    if key.len != 64 {
      return false;
    }
    var buf := new Byte[256];
    if |signature| != buf.Length {
      return false;
    }
    for i := 0 to 256
      invariant buf[..i] == signature[..i]
    {
      buf[i] := signature[i];
      assert buf[..i + 1] == signature[..i + 1];
    }
    assert buf[..] == buf[..256] == signature[..256] == signature;
    ghost var w, wR, wwR := ModPow3(key, buf);
    ghost var expected := Padding() + sha;
    Judged(key, BigEndian(signature), w, wR, wwR, BigEndian(buf[..]), BigEndian(expected));
    var padding := Padding();
    var i := 0;
    while i < |padding|
      invariant 0 <= i <= 236 && buf[..i] == expected[..i]
    {
      if buf[i] != padding[i] {
        Differs(buf[..], expected, i);
        return false;
      }
      assert buf[..i + 1] == expected[..i + 1];
      i := i + 1;
    }
    while i < |signature|
      invariant 236 <= i <= 256 && buf[..i] == expected[..i]
    {
      if buf[i] != sha[i - 236] {
        Differs(buf[..], expected, i);
        return false;
      }
      assert buf[..i + 1] == expected[..i + 1];
      i := i + 1;
    }
    assert buf[..] == buf[..256] == expected[..256] == expected;
    return true;
  }

  lemma {:induction false} Judged(key: Key, x: nat, w: seq<Word>, wR: seq<Word>, wwR: seq<Word>, r: nat, d: nat)
    requires Val(w) == x && Products(key, w, wR, wwR, r)
    ensures Leaves(key, x, d) <==> r == d
  {
    assert Leaves(key, x, r);
    if Leaves(key, x, d) {
      LeavesOne(key, x, r, d);
    }
  }

  lemma {:induction false} Differs(s: seq<Byte>, t: seq<Byte>, i: nat)
    requires |s| == |t| && i < |s| && s[i] != t[i]
    ensures BigEndian(s) != BigEndian(t)
  {
    if BigEndian(s) == BigEndian(t) {
      SameBytes(s, t);
    }
  }

  lemma {:induction false} BigEndianBound(s: seq<Byte>)
    ensures BigEndian(s) < Pow256(|s|)
  {
    if s != [] {
      BigEndianBound(s[1..]);
      MulLe(s[0], 255, Pow256(|s| - 1));
    }
  }

  lemma {:induction false} Leading(s: seq<Byte>)
    requires s != []
    ensures Pow256(|s| - 1) > 0 && BigEndian(s) / Pow256(|s| - 1) == s[0]
    ensures BigEndian(s) % Pow256(|s| - 1) == BigEndian(s[1..])
  {
    BigEndianBound(s[1..]);
    DivUnique(BigEndian(s), Pow256(|s| - 1), s[0], BigEndian(s[1..]));
  }

  lemma {:induction false} SameBytes(s: seq<Byte>, t: seq<Byte>)
    requires |s| == |t| && BigEndian(s) == BigEndian(t)
    ensures s == t
  {
    if s != [] {
      Leading(s);
      Leading(t);
      SameBytes(s[1..], t[1..]);
      assert s == [s[0]] + s[1..] && t == [t[0]] + t[1..];
    }
  }
}
