/** Arithmetic in GF(2^8) as AES uses it (sections 4.1 and 4.2 of FIPS 197), and the mixing of one column.

  Exclusive or goes by a name of its own, so that sums are rearranged by the laws of module Octets.
 */
module AesField {
  import opened Octets

  /** Multiplication by x modulo x^8 + x^4 + x^3 + x + 1, branch-free. */
  function Xtime(b: bv8): bv8 {
    var t := b >> 7;
    (b << 1) ^ t ^ (t << 1) ^ (t << 3) ^ (t << 4)
  }

  /** Sums of four. */
  function Sum(a: bv8, b: bv8, c: bv8, d: bv8): bv8 {
    Xor(Xor(a, b), Xor(c, d))
  }

  lemma {:induction false} SumOfXors(a: bv8, b: bv8, c: bv8, d: bv8, e: bv8, f: bv8, g: bv8, h: bv8)
    ensures Sum(Xor(a, e), Xor(b, f), Xor(c, g), Xor(d, h)) == Xor(Sum(a, b, c, d), Sum(e, f, g, h))
  {
    XorSwap(a, e, b, f);
    XorSwap(c, g, d, h);
    XorSwap(Xor(a, b), Xor(e, f), Xor(c, d), Xor(g, h));
  }

  /** A four by four array of bytes sums to the same by rows as by columns. */
  lemma {:induction false} SumOfSums(a0: bv8, a1: bv8, a2: bv8, a3: bv8, b0: bv8, b1: bv8, b2: bv8, b3: bv8,
                                     c0: bv8, c1: bv8, c2: bv8, c3: bv8, d0: bv8, d1: bv8, d2: bv8, d3: bv8)
    ensures Sum(Sum(a0, b0, c0, d0), Sum(a1, b1, c1, d1), Sum(a2, b2, c2, d2), Sum(a3, b3, c3, d3))
         == Sum(Sum(a0, a1, a2, a3), Sum(b0, b1, b2, b3), Sum(c0, c1, c2, c3), Sum(d0, d1, d2, d3))
  {
    SumOfXors(Xor(a0, b0), Xor(a1, b1), Xor(a2, b2), Xor(a3, b3), Xor(c0, d0), Xor(c1, d1), Xor(c2, d2), Xor(c3, d3));
    SumOfXors(a0, a1, a2, a3, b0, b1, b2, b3);
    SumOfXors(c0, c1, c2, c3, d0, d1, d2, d3);
  }

  // ----- The multiples used by the tables, and that they distribute over sums

  function X3(b: bv8): bv8 {
    Xtime(Xtime(Xtime(b)))
  }

  function Mul2(b: bv8): bv8 { Xtime(b) }
  function Mul3(b: bv8): bv8 { Xor(Xtime(b), b) }
  function Mul9(b: bv8): bv8 { Xor(X3(b), b) }
  function MulB(b: bv8): bv8 { Xor(Xor(X3(b), Xtime(b)), b) }
  function MulD(b: bv8): bv8 { Xor(Xor(X3(b), Xtime(Xtime(b))), b) }
  function MulE(b: bv8): bv8 { Xor(Xor(X3(b), Xtime(Xtime(b))), Xtime(b)) }

  lemma {:induction false} XtimeAdds(a: bv8, b: bv8)
    ensures Xtime(Xor(a, b)) == Xor(Xtime(a), Xtime(b))
  {
  }

  lemma {:induction false} XtimesAdd(a: bv8, b: bv8)
    ensures Xtime(Xor(a, b)) == Xor(Xtime(a), Xtime(b))
    ensures Xtime(Xtime(Xor(a, b))) == Xor(Xtime(Xtime(a)), Xtime(Xtime(b)))
    ensures X3(Xor(a, b)) == Xor(X3(a), X3(b))
  {
    XtimeAdds(a, b);
    XtimeAdds(Xtime(a), Xtime(b));
    XtimeAdds(Xtime(Xtime(a)), Xtime(Xtime(b)));
  }

  lemma {:induction false} Mul9Adds(a: bv8, b: bv8)
    ensures Mul9(Xor(a, b)) == Xor(Mul9(a), Mul9(b))
  {
    XtimesAdd(a, b);
    XorSwap(X3(a), X3(b), a, b);
  }

  lemma {:induction false} MulBAdds(a: bv8, b: bv8)
    ensures MulB(Xor(a, b)) == Xor(MulB(a), MulB(b))
  {
    XtimesAdd(a, b);
    XorSwap(X3(a), X3(b), Xtime(a), Xtime(b));
    XorSwap(Xor(X3(a), Xtime(a)), Xor(X3(b), Xtime(b)), a, b);
  }

  lemma {:induction false} MulDAdds(a: bv8, b: bv8)
    ensures MulD(Xor(a, b)) == Xor(MulD(a), MulD(b))
  {
    XtimesAdd(a, b);
    XorSwap(X3(a), X3(b), Xtime(Xtime(a)), Xtime(Xtime(b)));
    XorSwap(Xor(X3(a), Xtime(Xtime(a))), Xor(X3(b), Xtime(Xtime(b))), a, b);
  }

  lemma {:induction false} MulEAdds(a: bv8, b: bv8)
    ensures MulE(Xor(a, b)) == Xor(MulE(a), MulE(b))
  {
    XtimesAdd(a, b);
    XorSwap(X3(a), X3(b), Xtime(Xtime(a)), Xtime(Xtime(b)));
    XorSwap(Xor(X3(a), Xtime(Xtime(a))), Xor(X3(b), Xtime(Xtime(b))), Xtime(a), Xtime(b));
  }

  lemma {:induction false} Mul9OfSum(a: bv8, b: bv8, c: bv8, d: bv8)
    ensures Mul9(Sum(a, b, c, d)) == Sum(Mul9(a), Mul9(b), Mul9(c), Mul9(d))
  {
    Mul9Adds(a, b);
    Mul9Adds(c, d);
    Mul9Adds(Xor(a, b), Xor(c, d));
  }

  lemma {:induction false} MulBOfSum(a: bv8, b: bv8, c: bv8, d: bv8)
    ensures MulB(Sum(a, b, c, d)) == Sum(MulB(a), MulB(b), MulB(c), MulB(d))
  {
    MulBAdds(a, b);
    MulBAdds(c, d);
    MulBAdds(Xor(a, b), Xor(c, d));
  }

  lemma {:induction false} MulDOfSum(a: bv8, b: bv8, c: bv8, d: bv8)
    ensures MulD(Sum(a, b, c, d)) == Sum(MulD(a), MulD(b), MulD(c), MulD(d))
  {
    MulDAdds(a, b);
    MulDAdds(c, d);
    MulDAdds(Xor(a, b), Xor(c, d));
  }

  lemma {:induction false} MulEOfSum(a: bv8, b: bv8, c: bv8, d: bv8)
    ensures MulE(Sum(a, b, c, d)) == Sum(MulE(a), MulE(b), MulE(c), MulE(d))
  {
    MulEAdds(a, b);
    MulEAdds(c, d);
    MulEAdds(Xor(a, b), Xor(c, d));
  }

  // ----- The product of the two circulant matrices is the identity

  /** The multiples of a tripled byte in terms of those of the byte. */
  lemma {:induction false} OfTriple(a: bv8)
    ensures X3(Mul3(a)) == Xor(Xtime(X3(a)), X3(a))
    ensures Xtime(Xtime(Mul3(a))) == Xor(X3(a), Xtime(Xtime(a)))
    ensures Xtime(Mul3(a)) == Xor(Xtime(Xtime(a)), Xtime(a))
  {
    XtimesAdd(Xtime(a), a);
  }

  lemma {:induction false} Diagonal(a: bv8)
    ensures Sum(MulE(Mul2(a)), MulB(a), MulD(a), Mul9(Mul3(a))) == a
  {
    OfTriple(a);
    DiagonalCancels(Xtime(X3(a)), X3(a), Xtime(Xtime(a)), Xtime(a), a);
  }

  lemma {:induction false} OffOne(a: bv8)
    ensures Sum(MulE(Mul3(a)), MulB(Mul2(a)), MulD(a), Mul9(a)) == 0
  {
    OfTriple(a);
    OffOneCancels(Xtime(X3(a)), X3(a), Xtime(Xtime(a)), Xtime(a), a);
  }

  lemma {:induction false} OffTwo(a: bv8)
    ensures Sum(MulE(a), MulB(Mul3(a)), MulD(Mul2(a)), Mul9(a)) == 0
  {
    OfTriple(a);
    OffTwoCancels(Xtime(X3(a)), X3(a), Xtime(Xtime(a)), Xtime(a), a);
  }

  lemma {:induction false} OffThree(a: bv8)
    ensures Sum(MulE(a), MulB(a), MulD(Mul3(a)), Mul9(Mul2(a))) == 0
  {
    OfTriple(a);
    OffThreeCancels(Xtime(X3(a)), X3(a), Xtime(Xtime(a)), Xtime(a), a);
  }

  // In the next four lemmas p, q, r, s, a stand for the byte times 16, 8, 4, 2 and 1.

  lemma {:induction false} DiagonalCancels(p: bv8, q: bv8, r: bv8, s: bv8, a: bv8)
    ensures Sum(Xor(Xor(p, q), r), Xor(Xor(q, s), a), Xor(Xor(q, r), a), Xor(Xor(p, q), Xor(s, a))) == a
  {
    var u := Xor(p, q);
    var e, b, d, n := Xor(u, r), Xor(Xor(q, s), a), Xor(Xor(q, r), a), Xor(u, Xor(s, a));
    XorComm(d, n);
    XorSwap(e, b, n, d);
    XorMeet(u, r, Xor(s, a));
    XorMeet(Xor(q, s), Xor(q, r), a);
    XorMeet(q, s, r);
    XorAssoc(r, s, a);
    XorComm(s, r);
    XorBack(Xor(r, s), a);
  }

  lemma {:induction false} OffOneCancels(p: bv8, q: bv8, r: bv8, s: bv8, a: bv8)
    ensures Sum(Xor(Xor(Xor(p, q), Xor(q, r)), Xor(r, s)), Xor(Xor(p, r), s), Xor(Xor(q, r), a), Xor(q, a)) == 0
  {
    XorMeet(p, q, r);
    XorMeet(p, r, s);
    XorMeet(p, Xor(p, r), s);
    XorBack(p, r);
    XorMeet(Xor(q, r), q, a);
    XorBack(q, r);
    XorSelf(r);
  }

  lemma {:induction false} OffTwoCancels(p: bv8, q: bv8, r: bv8, s: bv8, a: bv8)
    ensures Sum(Xor(Xor(q, r), s), Xor(Xor(Xor(p, q), Xor(r, s)), Xor(s, a)), Xor(Xor(p, q), s), Xor(q, a)) == 0
  {
    var u, v, w := Xor(p, q), Xor(r, s), Xor(s, a);
    XorAssoc(q, r, s);
    XorAssoc(Xor(q, v), Xor(u, v), w);
    XorMeet(q, u, v);
    XorComm(q, u);
    XorUndo(p, q);
    XorSwap(u, s, q, a);
    XorSelf(Xor(p, w));
  }

  lemma {:induction false} OffThreeCancels(p: bv8, q: bv8, r: bv8, s: bv8, a: bv8)
    ensures Sum(Xor(Xor(q, r), s), Xor(Xor(q, s), a), Xor(Xor(Xor(p, q), Xor(q, r)), Xor(s, a)), Xor(p, s)) == 0
  {
    XorSwap(Xor(q, r), s, Xor(q, s), a);
    XorMeet(q, r, s);
    XorMeet(r, s, a);
    XorMeet(p, q, r);
    XorSwap(Xor(p, r), Xor(s, a), p, s);
    XorBack(p, r);
    XorBack(s, a);
    XorSelf(Xor(r, a));
  }

  /** One byte of the inverse mix of a mixed column. */
  lemma {:induction false} RowUndone(a: bv8, b: bv8, c: bv8, d: bv8)
    ensures Sum(MulE(Sum(Mul2(a), Mul3(b), c, d)), MulB(Sum(a, Mul2(b), Mul3(c), d)),
                MulD(Sum(a, b, Mul2(c), Mul3(d))), Mul9(Sum(Mul3(a), b, c, Mul2(d)))) == a
  {
    MulEOfSum(Mul2(a), Mul3(b), c, d);
    MulBOfSum(a, Mul2(b), Mul3(c), d);
    MulDOfSum(a, b, Mul2(c), Mul3(d));
    Mul9OfSum(Mul3(a), b, c, Mul2(d));
    SumOfSums(MulE(Mul2(a)), MulB(a), MulD(a), Mul9(Mul3(a)),
              MulE(Mul3(b)), MulB(Mul2(b)), MulD(b), Mul9(b),
              MulE(c), MulB(Mul3(c)), MulD(Mul2(c)), Mul9(c),
              MulE(d), MulB(d), MulD(Mul3(d)), Mul9(Mul2(d)));
    Diagonal(a);
    OffOne(b);
    OffTwo(c);
    OffThree(d);
    SumZero(a);
  }

  lemma {:induction false} SumZero(a: bv8)
    ensures Sum(a, 0, 0, 0) == a
  {
    XorZero(a);
    XorZero(0);
  }

  lemma {:induction false} SumRotate(a: bv8, b: bv8, c: bv8, d: bv8)
    ensures Sum(a, b, c, d) == Sum(b, c, d, a)
  {
    XorComm(a, b);
    XorComm(c, d);
    XorSwap(b, a, d, c);
    XorComm(a, c);
    XorSwap(b, d, c, a);
  }
}
