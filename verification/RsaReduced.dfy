/** utils/rsa.c: for which moduli the one subtraction at the end of modpow3 is always enough, and what becomes of
  signatures where it is not.

  Only the top representatives matter: numbers in [R - n, R).  A Montgomery product of two of them is hardly smaller,
  so under a modulus that leaves room below R the last product is far above n.
 */
module RsaReduced {
  import opened Arith
  import opened Montgomery
  import opened Rsa

  // ----- Words of a number

  lemma {:induction false} WordsOf(v: nat, len: nat) returns (s: seq<Word>)
    requires v < Pow(len)
    ensures |s| == len && Val(s) == v
  {
    if len == 0 {
      s := [];
    } else {
      var p := Pow(len - 1);
      TopBelow(v, p, W);
      var top := v / p;
      var low := WordsOf(v % p, len - 1);
      s := low + [top];
      assert s[..len - 1] == low;
    }
  }

  lemma {:induction false} TopBelow(v: nat, p: nat, base: nat)
    requires p > 0 && v < base * p
    ensures 0 <= v / p < base && 0 <= v % p < p && v == v % p + (v / p) * p
  {
    var q, r := v / p, v % p;
    assert v == p * q + r;
    QuotientBelow(v, p, base, q, r);
  }

  lemma {:induction false} QuotientBelow(v: nat, p: nat, base: nat, q: int, r: nat)
    requires v == p * q + r && r < p && v < base * p
    ensures 0 <= q < base && v == r + q * p
  {
    if q >= base {
      MulLe(base, q, p);
    } else if q < 0 {
      MulLe(q, -1, p);
    }
  }

  /** The largest number below `R` that is congruent to `x` modulo `n`. */
  ghost function Top(x: int, n: nat, R: nat): (v: int)
    requires n > 0
    ensures R - n <= v < R
  {
    R - n + (x - R) % n
  }

  lemma {:induction false} TopIs(x: int, n: nat, R: nat) returns (k: int)
    requires n > 0
    ensures Top(x, n, R) == x + k * n
  {
    k := -1 - (x - R) / n;
    assert x - R == n * ((x - R) / n) + (x - R) % n;
  }

  // ----- Where one subtraction is always enough

  /** With this modulus modpow3 leaves a number below it, whatever the input and the form of R^2 modulo n. */
  ghost predicate AlwaysReduced(len: nat, n0inv: Word, n: seq<Word>) {
    forall rr: seq<Word>, x: nat, r: nat {:trigger Leaves(Key(len, n0inv, n, rr), x, r)} ::
      Key(len, n0inv, n, rr).Valid() && RrOk(Key(len, n0inv, n, rr)) && Leaves(Key(len, n0inv, n, rr), x, r) ==>
        r < Val(n)
  }

  /** With this modulus modpow3 leaves the cube modulo n, whatever the input and the form of R^2 modulo n. */
  ghost predicate AlwaysCube(len: nat, n0inv: Word, n: seq<Word>) {
    forall rr: seq<Word>, x: nat, r: nat {:trigger Leaves(Key(len, n0inv, n, rr), x, r)} ::
      Key(len, n0inv, n, rr).Valid() && RrOk(Key(len, n0inv, n, rr)) && Leaves(Key(len, n0inv, n, rr), x, r) ==>
        Val(n) > 0 && r == (x * x * x) % Val(n)
  }

  /** A product of two top multiples of n is the top multiple. */
  lemma {:induction false} TopMultiple(n: nat, n0inv: nat, a: seq<nat>, b: nat, R: nat, j: nat)
    requires KeyOk(n, n0inv) && Words(a) && R == Pow(|a|) && n <= R && R - n <= b < R
    requires Val(a) == j * n && R - n <= j * n < R
    ensures MontMul(n, n0inv, R, a, b) == j * n
  {
    var k := MontMulKeeps(n, n0inv, R, a, b);
    MontMulAtLeast(n, n0inv, R, a, b, R - n);
    var v, i := PowInverse(n, n0inv, |a|);
    var m := Multiple(n, R, v, i, j, b, k, MontMul(n, n0inv, R, a, b));
    Near(n, R, MontMul(n, n0inv, R, a, b), Val(a));
    OnlyMultiple(n, MontMul(n, n0inv, R, a, b), m, j);
  }

  lemma {:induction false} Multiple(n: nat, R: nat, v: int, i: int, j: nat, b: nat, k: int, c: int) returns (m: int)
    requires R * v == 1 + i * n && R * c == (j * n) * b + k * n
    ensures c == m * n
  {
    assert (j * n) * b == (j * b) * n;
    m := Cancel(R, v, i, n, c, j * b + k);
  }

  lemma {:induction false} Near(n: nat, R: nat, c: int, v: nat)
    requires 0 < n <= R && v < R && R * c >= v * (R - n)
    ensures v - n < c
  {
    assert v * (R - n) == (v - n) * R + n * (R - v);
    MulLe(1, n, R - v);
    if c <= v - n {
      MulLe(c, v - n, R);
    }
  }

  lemma {:induction false} OnlyMultiple(n: nat, c: int, m: int, j: nat)
    requires c == m * n && j * n - n < c < j * n + n
    ensures c == j * n
  {
    if m > j {
      MulLe(j + 1, m, n);
    } else if m < j {
      MulLe(m, j - 1, n);
    }
  }

  /** The input that is left unreduced by every key with a short modulus: the largest multiple of n. */
  lemma {:induction false} LeftHigh(len: nat, n0inv: Word, n: seq<Word>) returns (key: Key, x: nat, r: nat)
    requires len > 0 && |n| == len && (n[0] * n0inv + 1) % W == 0 && 2 * Val(n) < Pow(len)
    ensures key == Key(len, n0inv, n, key.rr) && key.Valid() && RrOk(key)
    ensures Leaves(key, x, r) && r >= Val(n) && x % Val(n) == 0
  {
    var N, R := Val(n), Pow(len);
    key := TopKey(len, n0inv, n);
    KeyMeansOk(key);
    ValBound(key.rr);
    var j;
    x, j := TopOfZero(N, R);
    var a := WordsOf(x, len);
    TopMultiple(N, n0inv, a, Val(key.rr), R, j);
    TopMultiple(N, n0inv, a, x, R, j);
    r := x - N;
    assert Products(key, a, a, a, r);
  }

  /** The key in which R^2 modulo n is in its top form. */
  lemma {:induction false} TopKey(len: nat, n0inv: Word, n: seq<Word>) returns (key: Key)
    requires len > 0 && |n| == len && (n[0] * n0inv + 1) % W == 0
    ensures key == Key(len, n0inv, n, key.rr) && key.Valid() && RrOk(key) && key.R() - key.N() <= Val(key.rr)
  {
    var N, R := Val(n), Pow(len);
    KeyMeansOk(Key(len, n0inv, n, n));
    var k, v := TopOfSquare(N, R);
    var rr := WordsOf(v, len);
    key := Key(len, n0inv, n, rr);
    assert Val(rr) - R * R == N * k;
    DivUnique(N * k, N, k, 0);
  }

  lemma {:induction false} TopOfSquare(n: nat, R: nat) returns (k: int, v: nat)
    requires 0 < n <= R
    ensures R - n <= v < R && v - R * R == n * k
  {
    v := Top(R * R, n, R);
    k := TopIs(R * R, n, R);
  }

  lemma {:induction false} TopOfZero(n: nat, R: nat) returns (x: nat, j: nat)
    requires n > 0 && 2 * n < R
    ensures x == j * n && R - n <= x < R && x >= 2 * n && x % n == 0
  {
    x := Top(0, n, R);
    var k := TopIs(0, n, R);
    if k < 2 {
      MulLe(k, 1, n);
    }
    j := k;
    DivUnique(x, n, j, 0);
  }

  lemma {:induction false} LeftCube(key: Key, x: nat, r: nat)
    requires key.Valid() && RrOk(key) && Leaves(key, x, r) && 2 * key.N() >= key.R()
    ensures r < key.N() && r == (x * x * x) % key.N()
  {
    var a: seq<Word>, aR: seq<Word>, aaR: seq<Word> :| Val(a) == x && Products(key, a, aR, aaR, r);
    ValBound(a);
    KeyMeansOk(key);
    var _ := MontMulKeeps(key.N(), key.n0inv, key.R(), aaR, x);
    var aaa: nat := MontMul(key.N(), key.n0inv, key.R(), aaR, x);
    var m := CubeModN(key, a, aR, aaR, aaa);
    CubeReduced(x, key.N(), key.R(), aaa, m, r);
  }

  /** One subtraction is enough for every input and every form of R^2, and then gives the cube modulo n, exactly if n
      fills its words. */
  lemma {:induction false} AlwaysReducedIff(len: nat, n0inv: Word, n: seq<Word>)
    requires len > 0 && |n| == len && (n[0] * n0inv + 1) % W == 0
    ensures AlwaysReduced(len, n0inv, n) <==> 2 * Val(n) >= Pow(len)
    ensures AlwaysCube(len, n0inv, n) <==> 2 * Val(n) >= Pow(len)
  {
    if 2 * Val(n) >= Pow(len) {
      forall rr: seq<Word>, x: nat, r: nat {:trigger Leaves(Key(len, n0inv, n, rr), x, r)} |
        Key(len, n0inv, n, rr).Valid() && RrOk(Key(len, n0inv, n, rr)) && Leaves(Key(len, n0inv, n, rr), x, r)
        ensures 0 <= r < Val(n) && r == (x * x * x) % Val(n)
      {
        LeftCube(Key(len, n0inv, n, rr), x, r);
      }
    } else {
      var key, x, r := LeftHigh(len, n0inv, n);
      assert Leaves(Key(len, n0inv, n, key.rr), x, r);
    }
  }

  // ----- Signatures that are refused though their cube is right

  /** A product loses no more below R than its two factors together. */
  lemma {:induction false} Loses(n: nat, n0inv: nat, R: nat, a: seq<nat>, b: nat, i: nat, j: nat)
    requires KeyOk(n, n0inv) && Words(a) && R == Pow(|a|) && n <= j <= R && R - j <= b < R && R - i <= Val(a) && i <= R
    ensures R - i - j <= MontMul(n, n0inv, R, a, b)
  {
    MontMulAtLeast(n, n0inv, R, a, b, R - j);
    LosesSum(R, MontMul(n, n0inv, R, a, b), Val(a), i, j);
  }

  lemma {:induction false} LosesSum(R: nat, c: int, v: nat, i: nat, j: nat)
    requires R > 0 && i <= R && j <= R && R - i <= v && R * c >= v * (R - j)
    ensures R - i - j <= c
  {
    MulLe(R - i, v, R - j);
    assert (R - i) * (R - j) == R * (R - i - j) + i * j;
    MulLe(0, i, j);
    if c < R - i - j {
      MulLe(c + 1, R - i - j, R);
    }
  }

  /** Under a modulus of at most a seventh of R, with R^2 in its top form, no input from R - n on is reduced. */
  lemma {:induction false} HighStaysHigh(key: Key, x: nat, r: nat)
    requires key.Valid() && RrOk(key) && 7 * key.N() <= key.R() && key.R() - key.N() <= Val(key.rr)
    requires Leaves(key, x, r) && key.R() - key.N() <= x
    ensures r >= key.N()
  {
    var a: seq<Word>, aR: seq<Word>, aaR: seq<Word> :| Val(a) == x && Products(key, a, aR, aaR, r);
    var n, R, v := key.N(), key.R(), key.n0inv;
    KeyMeansOk(key);
    ValBound(key.rr);
    ValBound(a);
    ValBound(aR);
    HighProducts(n, v, R, a, aR, aaR, Val(key.rr));
  }

  lemma {:induction false} HighProducts(n: nat, n0inv: nat, R: nat, a: seq<Word>, aR: seq<Word>, aaR: seq<Word>,
                                        rr: nat)
    requires KeyOk(n, n0inv) && R == Pow(|a|) && |a| == |aR| == |aaR| && 7 * n <= R && R - n <= rr < R
    requires R - n <= Val(a) < R && Val(aR) == MontMul(n, n0inv, R, a, rr) && Val(aR) < R
    requires Val(aaR) == MontMul(n, n0inv, R, aR, Val(aR))
    ensures MontMul(n, n0inv, R, aaR, Val(a)) >= 2 * n
  {
    Loses(n, n0inv, R, a, rr, n, n);
    Loses(n, n0inv, R, aR, Val(aR), 2 * n, 2 * n);
    Loses(n, n0inv, R, aaR, Val(a), 4 * n, n);
  }

  lemma {:induction false} PowerSum(i: nat, j: nat)
    ensures Pow256(i + j) == Pow256(i) * Pow256(j)
  {
    if i > 0 {
      PowerSum(i - 1, j);
      Mul3(256, Pow256(i - 1), Pow256(j));
    }
  }

  /** A number congruent to x has a cube congruent to that of x. */
  lemma {:induction false} CubeShift(x: int, k: int, n: nat)
    requires n > 0
    ensures var s := x + k * n; (s * s * s) % n == (x * x * x) % n
  {
    var s, y := x + k * n, k * n;
    var q := k * (3 * (x * x) + 3 * (x * y) + y * y);
    assert s * s == x * x + 2 * (x * y) + y * y;
    assert s * s * s == x * x * x + y * (3 * (x * x) + 3 * (x * y) + y * y);
    assert y * (3 * (x * x) + 3 * (x * y) + y * y) == n * q;
    ModShift(x * x * x, q, n);
  }

  lemma {:induction false} BytesOf(v: nat, len: nat) returns (s: seq<Byte>)
    requires v < Pow256(len)
    ensures |s| == len && BigEndian(s) == v
  {
    if len == 0 {
      s := [];
    } else {
      var p := Pow256(len - 1);
      BigEndianBound(seq(len - 1, _ => 0));
      TopBelow(v, p, 256);
      var top := v / p;
      var low := BytesOf(v % p, len - 1);
      s := [top] + low;
      assert s[1..] == low;
    }
  }

  /** A padded digest begins with the bytes 0 and 1. */
  lemma {:induction false} PaddedBound(e: seq<Byte>, m: nat)
    requires |e| == m + 2 && e[0] == 0 && e[1] == 1
    ensures BigEndian(e) < 2 * Pow256(m)
  {
    BigEndianBound(e[2..]);
    assert e[1..][1..] == e[2..];
    assert BigEndian(e) == BigEndian(e[1..]);
  }

  lemma {:induction false} LastWord(e: seq<Byte>, len: nat) returns (k: nat)
    requires len > 0 && |e| == 4 * len
    ensures BigEndian(e) == Word4(e, 4 * len - 4) + W * k
  {
    var w: seq<Word> := seq(len, i requires 0 <= i < len => WordAt(e, len - 1 - i));
    assert SameNumber(e, w) by {
      forall i | 0 <= i < |w| ensures Word4(e, 4 * (|w| - 1 - i)) == w[i] {
      }
    }
    SameValue(e, w);
    k := LowWord(w);
  }

  function WordAt(e: seq<Byte>, k: nat): Word
    requires 4 * k + 4 <= |e|
  {
    Word4(e, 4 * k)
  }

  /** A key whose modulus is `d` short of a power. */
  lemma {:induction false} KeyBelow(d: nat, i: nat, len: nat) returns (key: Key)
    requires len > 1 && d < 2 * Pow256(4 * len - 2) && d == 1 + W * i
    ensures key.Valid() && RrOk(key) && key.len == len && key.N() == Pow256(4 * len - 1) - d
    ensures d < key.N() && 7 * key.N() <= key.R() && key.R() - key.N() <= Val(key.rr)
  {
    WordPower(len);
    var p := Pow256(4 * len - 2);
    assert Pow256(4 * len - 1) == 256 * p && Pow256(4 * len) == 256 * Pow256(4 * len - 1);
    var n := WordsOf(256 * p - d, len);
    LowIsOnes(n, d, i, 4 * len - 1);
    key := TopKey(len, 1, n);
  }

  lemma {:induction false} LowIsOnes(n: seq<Word>, d: nat, i: nat, m: nat)
    requires n != [] && m >= 4 && Val(n) == Pow256(m) - d && d == 1 + W * i
    ensures n[0] == W - 1
  {
    var k := LowWord(n);
    var p := Pow256(m - 4);
    assert Pow256(m - 3) == 256 * p && Pow256(m - 2) == 0x1_0000 * p && Pow256(m - 1) == 0x100_0000 * p;
    var low: nat := n[0];
    OneMultiple(low + 1, p - i - k);
  }

  lemma {:induction false} OneMultiple(x: int, k: int)
    requires 0 < x <= W && x == W * k
    ensures x == W
  {
  }

  /** In `len` words with 4 len == 3 t + 1, the number 256^t has the cube `e` modulo n, and so has its top form. */
  lemma {:induction false} RootRefused(e: seq<Byte>, len: nat, t: nat) returns (key: Key, signature: seq<Byte>)
    requires len > 1 && 4 * len == 3 * t + 1
    requires |e| == 4 * len && e[0] == 0 && e[1] == 1 && Word4(e, 4 * len - 4) == 1
    ensures key.Valid() && RrOk(key) && key.len == len && |signature| == 4 * len
    ensures var s, d := BigEndian(signature), BigEndian(e); d == (s * s * s) % key.N() && !Leaves(key, s, d)
  {
    var d := BigEndian(e);
    PaddedBound(e, 4 * len - 2);
    var i := LastWord(e, len);
    key := KeyBelow(d, i, len);
    var s := Top(Pow256(t), key.N(), key.R());
    WordPower(len);
    signature := BytesOf(s, 4 * len);
    RootCube(t, d, key.N(), key.R());
    if Leaves(key, s, d) {
      HighStaysHigh(key, s, d);
    }
  }

  lemma {:induction false} RootCube(t: nat, d: nat, n: nat, R: nat)
    requires d < n && n == Pow256(3 * t) - d
    ensures var s := Top(Pow256(t), n, R); (s * s * s) % n == d
  {
    var x := Pow256(t);
    var k := TopIs(x, n, R);
    CubeShift(x, k, n);
    PowerSum(t, t);
    PowerSum(2 * t, t);
    DivUnique(x * x * x, n, 1, d);
  }

  /** For every digest that ends in the word 1 there are a key and a signature whose cube modulo n is the padded
      digest and of which modpow3 makes another number, so RSA_verify refuses it. */
  lemma {:induction false} RightSignatureCanBeRefused(sha: seq<Byte>) returns (key: Key, signature: seq<Byte>)
    requires |sha| == 20 && sha[16] == 0 && sha[17] == 0 && sha[18] == 0 && sha[19] == 1
    ensures key.Valid() && RrOk(key) && key.len == 64 && |signature| == 256
    ensures var s, d := BigEndian(signature), BigEndian(Padding() + sha);
            d == (s * s * s) % key.N() && !Leaves(key, s, d)
  {
    key, signature := RootRefused(Padding() + sha, 64, 85);
  }
}
