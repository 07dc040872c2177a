/** utils/rsa.c: for keys of every length there is an input on which the one subtraction at the end of modpow3 is not
  enough.  The modulus is R/2 - 1, which leaves the top bit of its words clear, and the input is R - 1.
 */
module RsaLimit {
  import opened Arith
  import opened Montgomery
  import opened Rsa

  // ----- The values of the three products

  /** An odd number that divides twice `d` divides `d`. */
  lemma {:induction false} Halved(n: int, d: int, j: int) returns (i: int)
    requires n % 2 == 1 && 2 * d == n * j
    ensures j == 2 * i && d == n * i
  {
    i := j / 2;
    assert n * j == 2 * (n * i) + n * (j % 2);
  }

  /** a rr / R for a = R - 1 and rr = 4. */
  lemma {:induction false} FirstProduct(n: nat, c: nat, k: nat)
    requires n % 2 == 1 && n > 4 && (2 * n + 2) * c == (2 * n + 1) * 4 + k * n && c < n + 4
    ensures c == n + 2
  {
    assert 2 * (c - 2) == n * (8 + k - 2 * c);
    var i := Halved(n, c - 2, 8 + k - 2 * c);
    if i >= 2 {
      MulLe(2, i, n);
    } else if i <= -1 {
      MulLe(i, -1, n);
    }
  }

  /** The square of n + 2, divided by R. */
  lemma {:induction false} SecondProduct(n: nat, c: nat, k: nat)
    requires n % 2 == 1 && n > 4 && (2 * n + 2) * c == (n + 2) * (n + 2) + k * n && c < 2 * n + 2
    ensures c == n + 2
  {
    assert 2 * (c - 2) == n * (n + 4 + k - 2 * c);
    var i := Halved(n, c - 2, n + 4 + k - 2 * c);
    if i >= 2 {
      MulLe(2, i, n);
    } else if i <= -1 {
      MulLe(i, -1, n);
    }
  }

  /** n + 2 times R - 1, divided by R. */
  lemma {:induction false} ThirdProduct(n: nat, t: nat, k: nat)
    requires n % 2 == 1 && n > 4 && (2 * n + 2) * t == (n + 2) * (2 * n + 1) + k * n && t < 3 * n + 1
    ensures t == 2 * n + 1
  {
    assert 2 * (t - 1) == n * (2 * n + 5 + k - 2 * t);
    var i := Halved(n, t - 1, 2 * n + 5 + k - 2 * t);
    if i >= 3 {
      MulLe(3, i, n);
    } else if i <= -1 {
      MulLe(i, -1, n);
    }
  }

  /** The cube of R - 1 modulo n. */
  lemma {:induction false} CubeIsOne(n: nat, a: nat)
    requires n > 4 && a == 2 * n + 1
    ensures (a * a * a) % n == 1
  {
    assert a * a == n * (4 * n + 4) + 1;
    var q := (4 * n + 4) * a + 2;
    assert a * a * a == n * ((4 * n + 4) * a) + a;
    DivUnique(a * a * a, n, q, 1);
  }

  // ----- Words

  lemma {:induction false} OnesVal(s: seq<nat>)
    requires forall i :: 0 <= i < |s| ==> s[i] == W - 1
    ensures Val(s) == Pow(|s|) - 1
  {
    if s != [] {
      OnesVal(s[..|s| - 1]);
    }
  }

  lemma {:induction false} LowOnly(s: seq<nat>)
    requires s != [] && forall i :: 1 <= i < |s| ==> s[i] == 0
    ensures Val(s) == s[0]
  {
    if |s| == 1 {
      assert s[..0] == [];
    } else {
      LowOnly(s[..|s| - 1]);
    }
  }

  /** The words of a number that is at most one. */
  lemma {:induction false} TinyWords(s: seq<nat>)
    requires Val(s) <= 1
    ensures forall i :: 0 <= i < |s| ==> s[i] <= 1
  {
    if s != [] {
      var m := |s| - 1;
      MulLe(1, Pow(m), s[m]);
      TinyWords(s[..m]);
      assert forall i :: 0 <= i < m ==> s[i] == s[..m][i];
    }
  }

  /** In the words of R/2 + 1 only the top one exceeds one. */
  lemma {:induction false} HalfPlusOne(s: seq<nat>)
    requires s != [] && Words(s) && Val(s) == W / 2 * Pow(|s| - 1) + 1
    ensures forall i :: 0 <= i < |s| - 1 ==> s[i] <= 1
  {
    var m := |s| - 1;
    if m > 0 {
      ValBound(s[..m]);
      var p := Pow(m);
      assert p == W * Pow(m - 1) && p > 1;
      DivUnique(Val(s), p, s[m], Val(s[..m]));
      DivUnique(Val(s), p, W / 2, 1);
      TinyWords(s[..m]);
      assert forall i :: 0 <= i < m ==> s[i] == s[..m][i];
    }
  }

  lemma {:induction false} FullBytes(s: seq<nat>)
    requires forall i :: 0 <= i < |s| ==> s[i] == 255
    ensures BigEndian(s) == Pow256(|s|) - 1
  {
    if s != [] {
      FullBytes(s[1..]);
    }
  }

  // ----- The key

  /** n = R/2 - 1 in `len` words, and rr = 4. */
  ghost predicate ShortKey(key: Key, len: nat) {
    && len > 0 && key.len == len && key.Valid() && RrOk(key)
    && key.R() == 2 * key.N() + 2 && key.N() > 4 && key.N() % 2 == 1 && Val(key.rr) == 4
  }

  method MakeKey(len: nat) returns (key: Key)
    requires len > 0
    ensures ShortKey(key, len)
  {
    var n: seq<Word> := seq(len, i => if i == len - 1 then 0x7fff_ffff else 0xffff_ffff);
    var rr: seq<Word> := seq(len, i => if i == 0 then 4 else 0);
    key := Key(len, if len == 1 then 0x8000_0001 else 1, n, rr);
    LowOnly(rr);
    OnesVal(n[..len - 1]);
    HalfMinusOne(Pow(len - 1), Val(n));
    assert (n[0] * key.n0inv + 1) % W == 0;
    RrIsFour(key.N(), key.R());
  }

  lemma {:induction false} HalfMinusOne(p: nat, v: nat)
    requires p > 0 && v == (p - 1) + 0x7fff_ffff * p
    ensures W * p == 2 * v + 2 && v > 4 && v % 2 == 1
  {
  }

  lemma {:induction false} RrIsFour(n: nat, R: nat)
    requires n > 0 && R == 2 * n + 2
    ensures (4 - R * R) % n == 0
  {
    assert 4 - R * R == n * (-(4 * n + 8));
    DivUnique(4 - R * R, n, -(4 * n + 8), 0);
  }

  // ----- The result

  lemma {:induction false} FirstTwo(key: Key, a: seq<Word>, aR: seq<Word>, aaR: seq<Word>, r: nat)
    requires ShortKey(key, key.len) && Products(key, a, aR, aaR, r) && Val(a) == key.R() - 1
    ensures Val(aR) == key.N() + 2 && Val(aaR) == key.N() + 2
  {
    var n, R := key.N(), key.R();
    KeyMeansOk(key);
    var k := MontMulUp(n, key.n0inv, R, a, 4);
    FirstProduct(n, Val(aR), k);
    var k' := MontMulUp(n, key.n0inv, R, aR, n + 2);
    SecondProduct(n, Val(aaR), k');
  }

  lemma {:induction false} LastIsHigh(key: Key, a: seq<Word>, aaR: seq<Word>)
    requires ShortKey(key, key.len) && |a| == |aaR| == key.len && Val(a) == key.R() - 1 && Val(aaR) == key.N() + 2
    ensures MontMul(key.N(), key.n0inv, key.R(), aaR, Val(a)) == 2 * key.N() + 1
  {
    var n, R := key.N(), key.R();
    KeyMeansOk(key);
    HalfPlusOne(aaR);
    var k, t := LastUp(n, key.n0inv, R, aaR, Val(a));
    ThirdProduct(n, t, k);
  }

  /** For every length of key, modpow3 leaves n + 1 of an input whose cube modulo n is 1. */
  method OneSubtractionCanBeTooFew(len: nat) returns (key: Key, inout: array<Byte>, ghost a: nat)
    requires len > 0
    ensures key.Valid() && RrOk(key) && key.len == len && inout.Length == 4 * len && a == key.R() - 1
    ensures BigEndian(inout[..]) == key.N() + 1 && (a * a * a) % key.N() == 1
  {
    key := MakeKey(len);
    inout := new Byte[4 * len](_ => 255);
    FullBytes(inout[..]);
    WordPower(len);
    a := BigEndian(inout[..]);
    ghost var w, wR, wwR := ModPow3(key, inout);
    FirstTwo(key, w, wR, wwR, BigEndian(inout[..]));
    LastIsHigh(key, w, wwR);
    CubeIsOne(key.N(), a);
  }
}
