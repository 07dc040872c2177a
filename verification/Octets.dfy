/** Bytes and the laws of their exclusive or.  Proofs elsewhere use these laws and leave the bits alone. */
module Octets {

  type Byte = bv8

  function Xor(a: Byte, b: Byte): Byte {
    a ^ b
  }

  lemma {:induction false} XorComm(a: Byte, b: Byte)
    ensures Xor(a, b) == Xor(b, a)
  {
  }

  lemma {:induction false} XorAssoc(a: Byte, b: Byte, c: Byte)
    ensures Xor(Xor(a, b), c) == Xor(a, Xor(b, c))
  {
    assert (a ^ b) ^ c == a ^ (b ^ c);
  }

  lemma {:induction false} XorZero(a: Byte)
    ensures Xor(a, 0) == a && Xor(0, a) == a
  {
  }

  lemma {:induction false} XorSelf(a: Byte)
    ensures Xor(a, a) == 0
  {
  }

  lemma {:induction false} XorUndo(a: Byte, b: Byte)
    ensures Xor(Xor(a, b), b) == a
  {
    XorAssoc(a, b, b);
    XorSelf(b);
    XorZero(a);
  }

  lemma {:induction false} XorBack(a: Byte, b: Byte)
    ensures Xor(Xor(a, b), a) == b && Xor(a, Xor(a, b)) == b
  {
    XorComm(a, b);
    XorUndo(b, a);
    XorComm(Xor(a, b), a);
  }

  lemma {:induction false} XorSwap(a: Byte, b: Byte, c: Byte, d: Byte)
    ensures Xor(Xor(a, b), Xor(c, d)) == Xor(Xor(a, c), Xor(b, d))
  {
    calc {
      Xor(Xor(a, b), Xor(c, d));
      { XorAssoc(a, b, Xor(c, d)); }
      Xor(a, Xor(b, Xor(c, d)));
      { XorAssoc(b, c, d); }
      Xor(a, Xor(Xor(b, c), d));
      { XorComm(b, c); }
      Xor(a, Xor(Xor(c, b), d));
      { XorAssoc(c, b, d); }
      Xor(a, Xor(c, Xor(b, d)));
      { XorAssoc(a, c, Xor(b, d)); }
      Xor(Xor(a, c), Xor(b, d));
    }
  }

  /** Equal inner parts cancel. */
  lemma {:induction false} XorMeet(a: Byte, b: Byte, c: Byte)
    ensures Xor(Xor(a, b), Xor(b, c)) == Xor(a, c)
    ensures Xor(Xor(a, b), Xor(a, c)) == Xor(b, c)
    ensures Xor(Xor(a, c), Xor(b, c)) == Xor(a, b)
  {
    XorSwap(a, b, a, c);
    XorSwap(a, c, b, c);
    XorSelf(a);
    XorSelf(c);
    XorZero(Xor(b, c));
    XorZero(Xor(a, b));
    XorComm(a, b);
    XorSwap(b, a, b, c);
    XorSelf(b);
    XorZero(Xor(a, c));
  }
}
