/** The table-driven rounds of utils/aes.c and how they undo each other.

  A 32-bit word is kept as its four bytes, most significant first: everything aes.c does to a
  word is exclusive or, picking a byte by shift and mask, and masking all bytes but one.
 */
module AesRound {
  import opened Octets
  import opened AesField

  datatype Word = Word(b3: bv8, b2: bv8, b1: bv8, b0: bv8)

  function XorW(v: Word, w: Word): Word {
    Word(Xor(v.b3, w.b3), Xor(v.b2, w.b2), Xor(v.b1, w.b1), Xor(v.b0, w.b0))
  }

  /** The substitution box and its inverse, read off the tables Te4 and Td4. */
  datatype Box = Box(S: bv8 -> bv8, Si: bv8 -> bv8)

  ghost predicate Inverse(box: Box) {
    forall x: bv8 :: box.Si(box.S(x)) == x
  }

  // ----- The tables, by the definitions stated above them

  function Te0(box: Box, x: bv8): Word { var s := box.S(x); Word(Mul2(s), s, s, Mul3(s)) }
  function Te1(box: Box, x: bv8): Word { var s := box.S(x); Word(Mul3(s), Mul2(s), s, s) }
  function Te2(box: Box, x: bv8): Word { var s := box.S(x); Word(s, Mul3(s), Mul2(s), s) }
  function Te3(box: Box, x: bv8): Word { var s := box.S(x); Word(s, s, Mul3(s), Mul2(s)) }
  function Te4(box: Box, x: bv8): Word { var s := box.S(x); Word(s, s, s, s) }

  function Td0(box: Box, x: bv8): Word { var s := box.Si(x); Word(MulE(s), Mul9(s), MulD(s), MulB(s)) }
  function Td1(box: Box, x: bv8): Word { var s := box.Si(x); Word(MulB(s), MulE(s), Mul9(s), MulD(s)) }
  function Td2(box: Box, x: bv8): Word { var s := box.Si(x); Word(MulD(s), MulB(s), MulE(s), Mul9(s)) }
  function Td3(box: Box, x: bv8): Word { var s := box.Si(x); Word(Mul9(s), MulD(s), MulB(s), MulE(s)) }
  function Td4(box: Box, x: bv8): Word { var s := box.Si(x); Word(s, s, s, s) }

  // ----- Columns

  /** MixColumns on one column (section 5.1.3 of FIPS 197). */
  function Mix(w: Word): Word {
    Word(Sum(Mul2(w.b3), Mul3(w.b2), w.b1, w.b0), Sum(w.b3, Mul2(w.b2), Mul3(w.b1), w.b0),
         Sum(w.b3, w.b2, Mul2(w.b1), Mul3(w.b0)), Sum(Mul3(w.b3), w.b2, w.b1, Mul2(w.b0)))
  }

  /** InvMixColumns on one column (section 5.3.3 of FIPS 197). */
  function InvMix(w: Word): Word {
    Word(Sum(MulE(w.b3), MulB(w.b2), MulD(w.b1), Mul9(w.b0)), Sum(Mul9(w.b3), MulE(w.b2), MulB(w.b1), MulD(w.b0)),
         Sum(MulD(w.b3), Mul9(w.b2), MulE(w.b1), MulB(w.b0)), Sum(MulB(w.b3), MulD(w.b2), Mul9(w.b1), MulE(w.b0)))
  }

  /** The column with its bytes moved up by one place. */
  function Turned(w: Word): Word {
    Word(w.b2, w.b1, w.b0, w.b3)
  }

  lemma {:induction false} TurnedMix(w: Word)
    ensures Turned(Mix(w)) == Mix(Turned(w))
  {
    SumRotate(w.b3, Mul2(w.b2), Mul3(w.b1), w.b0);
    SumRotate(w.b3, w.b2, Mul2(w.b1), Mul3(w.b0));
    SumRotate(Mul3(w.b3), w.b2, w.b1, Mul2(w.b0));
    SumRotate(Mul2(w.b3), Mul3(w.b2), w.b1, w.b0);
  }

  lemma {:induction false} TurnedInvMix(w: Word)
    ensures Turned(InvMix(w)) == InvMix(Turned(w))
  {
    SumRotate(MulE(w.b3), MulB(w.b2), MulD(w.b1), Mul9(w.b0));
    SumRotate(Mul9(w.b3), MulE(w.b2), MulB(w.b1), MulD(w.b0));
    SumRotate(MulD(w.b3), Mul9(w.b2), MulE(w.b1), MulB(w.b0));
    SumRotate(MulB(w.b3), MulD(w.b2), Mul9(w.b1), MulE(w.b0));
  }

  lemma {:induction false} TurnUndone(w: Word)
    ensures Turned(InvMix(Mix(w))) == InvMix(Mix(Turned(w)))
  {
    TurnedMix(w);
    TurnedInvMix(Mix(w));
  }

  lemma {:induction false} InvMixUndoesMix(w: Word)
    ensures InvMix(Mix(w)) == w
  {
    var w1 := Turned(w);
    var w2 := Turned(w1);
    var w3 := Turned(w2);
    TurnUndone(w);
    TurnUndone(w1);
    TurnUndone(w2);
    RowUndone(w.b3, w.b2, w.b1, w.b0);
    RowUndone(w1.b3, w1.b2, w1.b1, w1.b0);
    RowUndone(w2.b3, w2.b2, w2.b1, w2.b0);
    RowUndone(w3.b3, w3.b2, w3.b1, w3.b0);
  }

  lemma {:induction false} InvMixAdds(v: Word, w: Word)
    ensures InvMix(XorW(v, w)) == XorW(InvMix(v), InvMix(w))
  {
    MulsAdd(v.b3, w.b3);
    MulsAdd(v.b2, w.b2);
    MulsAdd(v.b1, w.b1);
    MulsAdd(v.b0, w.b0);
    SumOfXors(MulE(v.b3), MulB(v.b2), MulD(v.b1), Mul9(v.b0), MulE(w.b3), MulB(w.b2), MulD(w.b1), Mul9(w.b0));
    SumOfXors(Mul9(v.b3), MulE(v.b2), MulB(v.b1), MulD(v.b0), Mul9(w.b3), MulE(w.b2), MulB(w.b1), MulD(w.b0));
    SumOfXors(MulD(v.b3), Mul9(v.b2), MulE(v.b1), MulB(v.b0), MulD(w.b3), Mul9(w.b2), MulE(w.b1), MulB(w.b0));
    SumOfXors(MulB(v.b3), MulD(v.b2), Mul9(v.b1), MulE(v.b0), MulB(w.b3), MulD(w.b2), Mul9(w.b1), MulE(w.b0));
  }

  lemma {:induction false} MulsAdd(a: bv8, b: bv8)
    ensures Mul9(Xor(a, b)) == Xor(Mul9(a), Mul9(b)) && MulB(Xor(a, b)) == Xor(MulB(a), MulB(b))
    ensures MulD(Xor(a, b)) == Xor(MulD(a), MulD(b)) && MulE(Xor(a, b)) == Xor(MulE(a), MulE(b))
  {
    Mul9Adds(a, b);
    MulBAdds(a, b);
    MulDAdds(a, b);
    MulEAdds(a, b);
  }

  // ----- One word of a round, as the source writes it

  function Xor5(p: Word, q: Word, r: Word, s: Word, k: Word): Word {
    XorW(XorW(XorW(XorW(p, q), r), s), k)
  }

  lemma {:induction false} Xor5IsSum(p: Word, q: Word, r: Word, s: Word, k: Word)
    ensures Xor5(p, q, r, s, k)
         == XorW(Word(Sum(p.b3, q.b3, r.b3, s.b3), Sum(p.b2, q.b2, r.b2, s.b2),
                      Sum(p.b1, q.b1, r.b1, s.b1), Sum(p.b0, q.b0, r.b0, s.b0)), k)
  {
    Leftward(p.b3, q.b3, r.b3, s.b3);
    Leftward(p.b2, q.b2, r.b2, s.b2);
    Leftward(p.b1, q.b1, r.b1, s.b1);
    Leftward(p.b0, q.b0, r.b0, s.b0);
  }

  lemma {:induction false} Leftward(a: bv8, b: bv8, c: bv8, d: bv8)
    ensures Xor(Xor(Xor(a, b), c), d) == Sum(a, b, c, d)
  {
    XorAssoc(Xor(a, b), c, d);
  }

  function EncWord(box: Box, p: Word, q: Word, r: Word, s: Word, k: Word): Word {
    Xor5(Te0(box, p.b3), Te1(box, q.b2), Te2(box, r.b1), Te3(box, s.b0), k)
  }

  function DecWord(box: Box, p: Word, q: Word, r: Word, s: Word, k: Word): Word {
    Xor5(Td0(box, p.b3), Td1(box, q.b2), Td2(box, r.b1), Td3(box, s.b0), k)
  }

  /** `w & 0xff000000` and so on. */
  function Keep3(w: Word): Word { Word(w.b3, 0, 0, 0) }
  function Keep2(w: Word): Word { Word(0, w.b2, 0, 0) }
  function Keep1(w: Word): Word { Word(0, 0, w.b1, 0) }
  function Keep0(w: Word): Word { Word(0, 0, 0, w.b0) }

  function LastEncWord(box: Box, p: Word, q: Word, r: Word, s: Word, k: Word): Word {
    Xor5(Keep3(Te4(box, p.b3)), Keep2(Te4(box, q.b2)), Keep1(Te4(box, r.b1)), Keep0(Te4(box, s.b0)), k)
  }

  function LastDecWord(box: Box, p: Word, q: Word, r: Word, s: Word, k: Word): Word {
    Xor5(Keep3(Td4(box, p.b3)), Keep2(Td4(box, q.b2)), Keep1(Td4(box, r.b1)), Keep0(Td4(box, s.b0)), k)
  }

  /** The round-key transform of the decryption schedule: Td0[Te4[...] & 0xff] ^ ... */
  function KeyWordMixed(box: Box, w: Word): Word {
    XorW(XorW(XorW(Td0(box, Te4(box, w.b3).b0), Td1(box, Te4(box, w.b2).b0)),
              Td2(box, Te4(box, w.b1).b0)), Td3(box, Te4(box, w.b0).b0))
  }

  /** Substitution of a byte from each of four words. */
  function Subbed(f: bv8 -> bv8, p: Word, q: Word, r: Word, s: Word): Word {
    Word(f(p.b3), f(q.b2), f(r.b1), f(s.b0))
  }

  lemma {:induction false} EncWordMixes(box: Box, p: Word, q: Word, r: Word, s: Word, k: Word)
    ensures EncWord(box, p, q, r, s, k) == XorW(Mix(Subbed(box.S, p, q, r, s)), k)
  {
    Xor5IsSum(Te0(box, p.b3), Te1(box, q.b2), Te2(box, r.b1), Te3(box, s.b0), k);
  }

  lemma {:induction false} DecWordMixes(box: Box, p: Word, q: Word, r: Word, s: Word, k: Word)
    ensures DecWord(box, p, q, r, s, k) == XorW(InvMix(Subbed(box.Si, p, q, r, s)), k)
  {
    Xor5IsSum(Td0(box, p.b3), Td1(box, q.b2), Td2(box, r.b1), Td3(box, s.b0), k);
  }

  lemma {:induction false} SumPicks(a: bv8)
    ensures Sum(a, 0, 0, 0) == a && Sum(0, a, 0, 0) == a && Sum(0, 0, a, 0) == a && Sum(0, 0, 0, a) == a
  {
    SumZero(a);
    SumRotate(0, 0, 0, a);
    SumRotate(0, 0, a, 0);
    SumRotate(0, a, 0, 0);
    SumRotate(a, 0, 0, 0);
  }

  lemma {:induction false} KeptSum(p: Word, q: Word, r: Word, s: Word, k: Word)
    ensures Xor5(Keep3(p), Keep2(q), Keep1(r), Keep0(s), k) == XorW(Word(p.b3, q.b2, r.b1, s.b0), k)
  {
    Xor5IsSum(Keep3(p), Keep2(q), Keep1(r), Keep0(s), k);
    SumPicks(p.b3);
    SumPicks(q.b2);
    SumPicks(r.b1);
    SumPicks(s.b0);
  }

  lemma {:induction false} KeyWordIsInvMix(box: Box, w: Word)
    requires Inverse(box)
    ensures KeyWordMixed(box, w) == InvMix(w)
  {
    assert box.Si(box.S(w.b3)) == w.b3 && box.Si(box.S(w.b2)) == w.b2;
    assert box.Si(box.S(w.b1)) == w.b1 && box.Si(box.S(w.b0)) == w.b0;
    var p, q, r, s := Td0(box, Te4(box, w.b3).b0), Td1(box, Te4(box, w.b2).b0),
                      Td2(box, Te4(box, w.b1).b0), Td3(box, Te4(box, w.b0).b0);
    Leftward(p.b3, q.b3, r.b3, s.b3);
    Leftward(p.b2, q.b2, r.b2, s.b2);
    Leftward(p.b1, q.b1, r.b1, s.b1);
    Leftward(p.b0, q.b0, r.b0, s.b0);
  }

  // ----- Whole rounds

  datatype State = State(s0: Word, s1: Word, s2: Word, s3: Word)

  function XorS(x: State, y: State): State {
    State(XorW(x.s0, y.s0), XorW(x.s1, y.s1), XorW(x.s2, y.s2), XorW(x.s3, y.s3))
  }

  function EncRound(box: Box, x: State, k: State): State {
    State(EncWord(box, x.s0, x.s1, x.s2, x.s3, k.s0), EncWord(box, x.s1, x.s2, x.s3, x.s0, k.s1),
          EncWord(box, x.s2, x.s3, x.s0, x.s1, k.s2), EncWord(box, x.s3, x.s0, x.s1, x.s2, k.s3))
  }

  function EncLast(box: Box, x: State, k: State): State {
    State(LastEncWord(box, x.s0, x.s1, x.s2, x.s3, k.s0), LastEncWord(box, x.s1, x.s2, x.s3, x.s0, k.s1),
          LastEncWord(box, x.s2, x.s3, x.s0, x.s1, k.s2), LastEncWord(box, x.s3, x.s0, x.s1, x.s2, k.s3))
  }

  function DecRound(box: Box, x: State, k: State): State {
    State(DecWord(box, x.s0, x.s3, x.s2, x.s1, k.s0), DecWord(box, x.s1, x.s0, x.s3, x.s2, k.s1),
          DecWord(box, x.s2, x.s1, x.s0, x.s3, k.s2), DecWord(box, x.s3, x.s2, x.s1, x.s0, k.s3))
  }

  function DecLast(box: Box, x: State, k: State): State {
    State(LastDecWord(box, x.s0, x.s3, x.s2, x.s1, k.s0), LastDecWord(box, x.s1, x.s0, x.s3, x.s2, k.s1),
          LastDecWord(box, x.s2, x.s1, x.s0, x.s3, k.s2), LastDecWord(box, x.s3, x.s2, x.s1, x.s0, k.s3))
  }

  /** SubBytes followed by ShiftRows, and the inverse of both. */
  function SubShift(box: Box, x: State): State {
    State(Subbed(box.S, x.s0, x.s1, x.s2, x.s3), Subbed(box.S, x.s1, x.s2, x.s3, x.s0),
          Subbed(box.S, x.s2, x.s3, x.s0, x.s1), Subbed(box.S, x.s3, x.s0, x.s1, x.s2))
  }

  function InvSubShift(box: Box, x: State): State {
    State(Subbed(box.Si, x.s0, x.s3, x.s2, x.s1), Subbed(box.Si, x.s1, x.s0, x.s3, x.s2),
          Subbed(box.Si, x.s2, x.s1, x.s0, x.s3), Subbed(box.Si, x.s3, x.s2, x.s1, x.s0))
  }

  function MixS(x: State): State {
    State(Mix(x.s0), Mix(x.s1), Mix(x.s2), Mix(x.s3))
  }

  function InvMixS(x: State): State {
    State(InvMix(x.s0), InvMix(x.s1), InvMix(x.s2), InvMix(x.s3))
  }

  lemma {:induction false} InvSubShiftUndoes(box: Box, x: State)
    requires Inverse(box)
    ensures InvSubShift(box, SubShift(box, x)) == x
  {
    WordUndone(box, x.s0);
    WordUndone(box, x.s1);
    WordUndone(box, x.s2);
    WordUndone(box, x.s3);
  }

  lemma {:induction false} WordUndone(box: Box, w: Word)
    requires Inverse(box)
    ensures box.Si(box.S(w.b3)) == w.b3 && box.Si(box.S(w.b2)) == w.b2
    ensures box.Si(box.S(w.b1)) == w.b1 && box.Si(box.S(w.b0)) == w.b0
  {
  }

  lemma {:induction false} EncRoundParts(box: Box, x: State, k: State)
    ensures EncRound(box, x, k) == XorS(MixS(SubShift(box, x)), k)
    ensures EncLast(box, x, k) == XorS(SubShift(box, x), k)
  {
    EncWordMixes(box, x.s0, x.s1, x.s2, x.s3, k.s0);
    EncWordMixes(box, x.s1, x.s2, x.s3, x.s0, k.s1);
    EncWordMixes(box, x.s2, x.s3, x.s0, x.s1, k.s2);
    EncWordMixes(box, x.s3, x.s0, x.s1, x.s2, k.s3);
    KeptSum(Te4(box, x.s0.b3), Te4(box, x.s1.b2), Te4(box, x.s2.b1), Te4(box, x.s3.b0), k.s0);
    KeptSum(Te4(box, x.s1.b3), Te4(box, x.s2.b2), Te4(box, x.s3.b1), Te4(box, x.s0.b0), k.s1);
    KeptSum(Te4(box, x.s2.b3), Te4(box, x.s3.b2), Te4(box, x.s0.b1), Te4(box, x.s1.b0), k.s2);
    KeptSum(Te4(box, x.s3.b3), Te4(box, x.s0.b2), Te4(box, x.s1.b1), Te4(box, x.s2.b0), k.s3);
  }

  lemma {:induction false} DecRoundParts(box: Box, x: State, k: State)
    ensures DecRound(box, x, k) == XorS(InvMixS(InvSubShift(box, x)), k)
    ensures DecLast(box, x, k) == XorS(InvSubShift(box, x), k)
  {
    DecWordMixes(box, x.s0, x.s3, x.s2, x.s1, k.s0);
    DecWordMixes(box, x.s1, x.s0, x.s3, x.s2, k.s1);
    DecWordMixes(box, x.s2, x.s1, x.s0, x.s3, k.s2);
    DecWordMixes(box, x.s3, x.s2, x.s1, x.s0, k.s3);
    KeptSum(Td4(box, x.s0.b3), Td4(box, x.s3.b2), Td4(box, x.s2.b1), Td4(box, x.s1.b0), k.s0);
    KeptSum(Td4(box, x.s1.b3), Td4(box, x.s0.b2), Td4(box, x.s3.b1), Td4(box, x.s2.b0), k.s1);
    KeptSum(Td4(box, x.s2.b3), Td4(box, x.s1.b2), Td4(box, x.s0.b1), Td4(box, x.s3.b0), k.s2);
    KeptSum(Td4(box, x.s3.b3), Td4(box, x.s2.b2), Td4(box, x.s1.b1), Td4(box, x.s0.b0), k.s3);
  }

  lemma {:induction false} XorSUndo(x: State, k: State)
    ensures XorS(XorS(x, k), k) == x
  {
    XorWUndo(x.s0, k.s0);
    XorWUndo(x.s1, k.s1);
    XorWUndo(x.s2, k.s2);
    XorWUndo(x.s3, k.s3);
  }

  lemma {:induction false} XorWUndo(w: Word, k: Word)
    ensures XorW(XorW(w, k), k) == w
  {
    XorUndo(w.b3, k.b3);
    XorUndo(w.b2, k.b2);
    XorUndo(w.b1, k.b1);
    XorUndo(w.b0, k.b0);
  }

  /** A decryption round with the mixed round key steps one encryption round back. */
  lemma {:induction false} RoundUndone(box: Box, x: State, k: State)
    requires Inverse(box)
    ensures DecRound(box, SubShift(box, EncRound(box, x, k)), InvMixS(k)) == SubShift(box, x)
  {
    var y := EncRound(box, x, k);
    EncRoundParts(box, x, k);
    DecRoundParts(box, SubShift(box, y), InvMixS(k));
    InvSubShiftUndoes(box, y);
    MixedUndone(SubShift(box, x), k);
  }

  lemma {:induction false} MixedUndone(z: State, k: State)
    ensures XorS(InvMixS(XorS(MixS(z), k)), InvMixS(k)) == z
  {
    ColumnUndone(z.s0, k.s0);
    ColumnUndone(z.s1, k.s1);
    ColumnUndone(z.s2, k.s2);
    ColumnUndone(z.s3, k.s3);
  }

  lemma {:induction false} ColumnUndone(w: Word, k: Word)
    ensures XorW(InvMix(XorW(Mix(w), k)), InvMix(k)) == w
  {
    InvMixAdds(Mix(w), k);
    InvMixUndoesMix(w);
    XorWUndo(w, InvMix(k));
  }
}
