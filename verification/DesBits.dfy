/** The permutations around the rounds of utils/d3des.c, on two 32-bit words.

  Kept apart from the rest of the cipher: what is said here is about single bits.
 */
module DesBits {
  import opened Words

  function Flip(p: Pair): Pair {
    Pair(p.r, p.l)
  }

  // ----- Bit swaps

  function Swap4(p: Pair): Pair {
    var work := ((p.l >> 4) ^ p.r) & 0x0f0f0f0f;
    Pair(p.l ^ (work << 4), p.r ^ work)
  }

  function Swap16(p: Pair): Pair {
    var work := ((p.l >> 16) ^ p.r) & 0x0000ffff;
    Pair(p.l ^ (work << 16), p.r ^ work)
  }

  function Swap2(p: Pair): Pair {
    var work := ((p.r >> 2) ^ p.l) & 0x33333333;
    Pair(p.l ^ work, p.r ^ (work << 2))
  }

  function Swap8(p: Pair): Pair {
    var work := ((p.r >> 8) ^ p.l) & 0x00ff00ff;
    Pair(p.l ^ work, p.r ^ (work << 8))
  }

  function SwapOdd(p: Pair): Pair {
    var work := (p.l ^ p.r) & 0xaaaaaaaa;
    Pair(p.l ^ work, p.r ^ work)
  }

  function TurnLeft(x: bv32): bv32 {
    ((x << 1) | ((x >> 31) & 1)) & 0xffffffff
  }

  function TurnRight(x: bv32): bv32 {
    (x << 31) | (x >> 1)
  }

  lemma {:induction false} Swap4Twice(p: Pair)
    ensures Swap4(Swap4(p)) == p
  {
  }

  lemma {:induction false} Swap16Twice(p: Pair)
    ensures Swap16(Swap16(p)) == p
  {
  }

  lemma {:induction false} Swap2Twice(p: Pair)
    ensures Swap2(Swap2(p)) == p
  {
  }

  lemma {:induction false} Swap8Twice(p: Pair)
    ensures Swap8(Swap8(p)) == p
  {
  }

  lemma {:induction false} SwapOddTwice(p: Pair)
    ensures SwapOdd(SwapOdd(p)) == p
  {
  }

  lemma {:induction false} TurnBack(x: bv32)
    ensures TurnRight(TurnLeft(x)) == x
  {
  }

  lemma {:induction false} TurnForth(x: bv32)
    ensures TurnLeft(TurnRight(x)) == x
  {
  }

  function LeftTurned(p: Pair): Pair {
    Pair(TurnLeft(p.l), p.r)
  }

  function RightTurned(p: Pair): Pair {
    Pair(p.l, TurnLeft(p.r))
  }

  function LeftTurnedBack(p: Pair): Pair {
    Pair(TurnRight(p.l), p.r)
  }

  function RightTurnedBack(p: Pair): Pair {
    Pair(p.l, TurnRight(p.r))
  }

  lemma {:induction false} TurnsUndone(p: Pair)
    ensures LeftTurned(LeftTurnedBack(p)) == p && RightTurned(RightTurnedBack(p)) == p
    ensures LeftTurnedBack(LeftTurned(p)) == p && RightTurnedBack(RightTurned(p)) == p
  {
    TurnBack(p.l);
    TurnBack(p.r);
    TurnForth(p.l);
    TurnForth(p.r);
  }

  /** The swaps before the rounds. */
  function Initial(p: Pair): Pair {
    LeftTurned(SwapOdd(RightTurned(Swap8(Swap2(Swap16(Swap4(p)))))))
  }

  /** The swaps after the rounds, which also exchange the halves. */
  function Final(p: Pair): Pair {
    Swap4(Swap16(Swap2(Swap8(RightTurnedBack(SwapOdd(LeftTurnedBack(Flip(p))))))))
  }

  lemma {:induction false} FinalUndoesInitial(p: Pair)
    ensures Final(Flip(Initial(p))) == p
  {
    var a := Swap4(p);
    var b := Swap16(a);
    var c := Swap2(b);
    var d := Swap8(c);
    var e := RightTurned(d);
    var f := SwapOdd(e);
    TurnsUndone(f);
    SwapOddTwice(e);
    TurnsUndone(d);
    Swap8Twice(c);
    Swap2Twice(b);
    Swap16Twice(a);
    Swap4Twice(p);
  }

  lemma {:induction false} InitialUndoesFinal(p: Pair)
    ensures Initial(Final(p)) == Flip(p)
  {
    var a := LeftTurnedBack(Flip(p));
    var b := SwapOdd(a);
    var c := RightTurnedBack(b);
    var d := Swap8(c);
    var e := Swap2(d);
    var f := Swap16(e);
    Swap4Twice(f);
    Swap16Twice(e);
    Swap2Twice(d);
    Swap8Twice(c);
    TurnsUndone(b);
    SwapOddTwice(a);
    TurnsUndone(Flip(p));
  }

  // ----- The initial permutation of the standard

  /** A column of the block as eight bytes; the bit of the last byte comes first.  The column is the lowest bit of each
      byte of the two words. */
  function Column(l: bv32, r: bv32): bv32 {
    ((r & 1) << 7) | (((r >> 8) & 1) << 6) | (((r >> 16) & 1) << 5) | (((r >> 24) & 1) << 4)
    | ((l & 1) << 3) | (((l >> 8) & 1) << 2) | (((l >> 16) & 1) << 1) | ((l >> 24) & 1)
  }

  /** The initial permutation IP: columns 2, 4, 6 and 8 make the left half, columns 1, 3, 5 and 7 the right half. */
  function Permuted(p: Pair): Pair {
    Pair((Column(p.l >> 6, p.r >> 6) << 24) | (Column(p.l >> 4, p.r >> 4) << 16)
         | (Column(p.l >> 2, p.r >> 2) << 8) | Column(p.l, p.r),
         (Column(p.l >> 7, p.r >> 7) << 24) | (Column(p.l >> 5, p.r >> 5) << 16)
         | (Column(p.l >> 3, p.r >> 3) << 8) | Column(p.l >> 1, p.r >> 1))
  }

  function BothTurned(p: Pair): Pair {
    Pair(TurnLeft(p.l), TurnLeft(p.r))
  }

  function Traded4(p: Pair): Pair {
    Pair((p.l & 0x0f0f0f0f) | ((p.r & 0x0f0f0f0f) << 4),
         (p.r & 0xf0f0f0f0) | ((p.l & 0xf0f0f0f0) >> 4))
  }

  lemma {:induction false} Exchange4(p: Pair)
    ensures Swap4(p) == Traded4(p)
  {
  }

  function Traded16(p: Pair): Pair {
    Pair((p.l & 0x0000ffff) | ((p.r & 0x0000ffff) << 16),
         (p.r & 0xffff0000) | ((p.l & 0xffff0000) >> 16))
  }

  lemma {:induction false} Exchange16(p: Pair)
    ensures Swap16(p) == Traded16(p)
  {
  }

  function Traded2(p: Pair): Pair {
    Pair((p.l & 0xcccccccc) | ((p.r & 0xcccccccc) >> 2),
         (p.r & 0x33333333) | ((p.l & 0x33333333) << 2))
  }

  lemma {:induction false} Exchange2(p: Pair)
    ensures Swap2(p) == Traded2(p)
  {
  }

  function Traded8(p: Pair): Pair {
    Pair((p.l & 0xff00ff00) | ((p.r & 0xff00ff00) >> 8),
         (p.r & 0x00ff00ff) | ((p.l & 0x00ff00ff) << 8))
  }

  lemma {:induction false} Exchange8(p: Pair)
    ensures Swap8(p) == Traded8(p)
  {
  }

  function TradedOdd(p: Pair): Pair {
    Pair((p.l & 0x55555555) | (p.r & 0xaaaaaaaa),
         (p.r & 0x55555555) | (p.l & 0xaaaaaaaa))
  }

  lemma {:induction false} ExchangeOdd(p: Pair)
    ensures SwapOdd(p) == TradedOdd(p)
  {
  }

  /** The exchanges of desfunc make the initial permutation, and turn both halves. */
  lemma {:induction false} InitialIsPermuted(p: Pair)
    ensures Initial(p) == BothTurned(Permuted(p))
  {
    var a := Swap4(p);
    var b := Swap16(a);
    var c := Swap2(b);
    var d := Swap8(c);
    Exchange4(p);
    Exchange16(a);
    Exchange2(b);
    Exchange8(c);
    ExchangeOdd(RightTurned(d));
  }

  lemma {:induction false} TurnedBack(p: Pair, q: Pair)
    requires BothTurned(p) == BothTurned(q)
    ensures p == q
  {
    TurnBack(p.l);
    TurnBack(q.l);
    TurnBack(p.r);
    TurnBack(q.r);
  }

  lemma {:induction false} PermutedOnce(p: Pair, q: Pair)
    requires Permuted(p) == Permuted(q)
    ensures p == q
  {
    hide *;
    InitialIsPermuted(p);
    InitialIsPermuted(q);
    FinalUndoesInitial(p);
    FinalUndoesInitial(q);
  }

  // ----- Complements

  function Not(x: bv32): bv32 {
    !x
  }

  function NotBoth(p: Pair): Pair {
    Pair(Not(p.l), Not(p.r))
  }

  lemma {:induction false} Opposite4(p: Pair)
    ensures Swap4(NotBoth(p)) == NotBoth(Swap4(p))
  {
    assert Swap4(NotBoth(p)).l == Not(Swap4(p).l);
    assert Swap4(NotBoth(p)).r == Not(Swap4(p).r);
  }

  lemma {:induction false} Opposite16(p: Pair)
    ensures Swap16(NotBoth(p)) == NotBoth(Swap16(p))
  {
    assert Swap16(NotBoth(p)).l == Not(Swap16(p).l);
    assert Swap16(NotBoth(p)).r == Not(Swap16(p).r);
  }

  lemma {:induction false} Opposite2(p: Pair)
    ensures Swap2(NotBoth(p)) == NotBoth(Swap2(p))
  {
    assert Swap2(NotBoth(p)).l == Not(Swap2(p).l);
    assert Swap2(NotBoth(p)).r == Not(Swap2(p).r);
  }

  lemma {:induction false} Opposite8(p: Pair)
    ensures Swap8(NotBoth(p)) == NotBoth(Swap8(p))
  {
    assert Swap8(NotBoth(p)).l == Not(Swap8(p).l);
    assert Swap8(NotBoth(p)).r == Not(Swap8(p).r);
  }

  lemma {:induction false} OppositeOdd(p: Pair)
    ensures SwapOdd(NotBoth(p)) == NotBoth(SwapOdd(p))
  {
    assert SwapOdd(NotBoth(p)).l == Not(SwapOdd(p).l);
    assert SwapOdd(NotBoth(p)).r == Not(SwapOdd(p).r);
  }

  lemma {:induction false} TurnOpposite(x: bv32)
    ensures TurnLeft(Not(x)) == Not(TurnLeft(x))
  {
    assert TurnLeft(x) == (x << 1) | (x >> 31);
    assert TurnLeft(Not(x)) == (Not(x) << 1) | (Not(x) >> 31);
    assert (Not(x) << 1) | (Not(x) >> 31) == Not((x << 1) | (x >> 31));
  }

  lemma {:induction false} InitialOpposite(p: Pair)
    ensures Initial(NotBoth(p)) == NotBoth(Initial(p))
  {
    hide Not, Swap4, Swap16, Swap2, Swap8, SwapOdd, TurnLeft;
    var a := Swap4(p);
    var b := Swap16(a);
    var c := Swap2(b);
    var d := Swap8(c);
    var e := RightTurned(d);
    Opposite4(p);
    Opposite16(a);
    Opposite2(b);
    Opposite8(c);
    TurnOpposite(d.r);
    OppositeOdd(e);
    TurnOpposite(SwapOdd(e).l);
  }

  lemma {:induction false} PermutedOpposite(p: Pair)
    ensures Permuted(NotBoth(p)) == NotBoth(Permuted(p))
  {
    hide Not, TurnLeft, Permuted, Initial;
    InitialOpposite(p);
    InitialIsPermuted(p);
    InitialIsPermuted(NotBoth(p));
    TurnOpposite(Permuted(p).l);
    TurnOpposite(Permuted(p).r);
    TurnedBack(Permuted(NotBoth(p)), NotBoth(Permuted(p)));
  }
}
