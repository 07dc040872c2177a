/** The round function of utils/d3des.c, for any contents of the S-boxes, and that of FIPS 46-3.

  `sp(b, x)` is entry `x` of table SPb.
 */
module DesRound {
  import opened Words
  import opened DesBits

  type Box = (int, bv32) -> bv32

  function XorWord(x: bv32, y: bv32): bv32 {
    x ^ y
  }

  lemma {:induction false} XorWordTwice(x: bv32, y: bv32)
    ensures XorWord(XorWord(x, y), y) == x
  {
  }

  /** Four fields of six bits, the last one first. */
  datatype Fields = Fields(a: bv32, b: bv32, c: bv32, d: bv32)

  function FieldsOf(w: bv32): Fields {
    Fields(w & 0x3f, (w >> 8) & 0x3f, (w >> 16) & 0x3f, (w >> 24) & 0x3f)
  }

  function Entry(sp: Box, b: int, x: bv32): bv32 {
    sp(b, x)
  }

  /** Eight table entries, the odd tables entered by one word and the even ones by the other. */
  function Looked(sp: Box, u: Fields, v: Fields): bv32 {
    Entry(sp, 7, u.a) | Entry(sp, 5, u.b) | Entry(sp, 3, u.c) | Entry(sp, 1, u.d)
    | Entry(sp, 8, v.a) | Entry(sp, 6, v.b) | Entry(sp, 4, v.c) | Entry(sp, 2, v.d)
  }

  /** The round function, of a half and two key words. */
  function Chosen(sp: Box, x: bv32, k: Pair): bv32 {
    Looked(sp, FieldsOf(((x << 28) | (x >> 4)) ^ k.l), FieldsOf(x ^ k.r))
  }

  // ----- The round function of the standard

  /** Row `b` of the bit selection table E: bits 4b - 4 to 4b + 1, bit 0 being bit 32 and bit 33 being bit 1. */
  function Expanded(h: bv32, b: int): bv32 {
    match b
    case 1 => ((h & 1) << 5) | (h >> 27)
    case 2 => (h >> 23) & 0x3f
    case 3 => (h >> 19) & 0x3f
    case 4 => (h >> 15) & 0x3f
    case 5 => (h >> 11) & 0x3f
    case 6 => (h >> 7) & 0x3f
    case 7 => (h >> 3) & 0x3f
    case _ => ((h & 0x1f) << 1) | (h >> 31)
  }

  /** Six bits for each of the eight boxes, the first box first. */
  type Eight = s: seq<bv32> | |s| == 8 witness [0, 0, 0, 0, 0, 0, 0, 0]

  /** The bits of a round key for each box, from where desfunc takes them. */
  function KeySixes(k: Pair): Eight {
    [(k.l >> 24) & 0x3f, (k.r >> 24) & 0x3f, (k.l >> 16) & 0x3f, (k.r >> 16) & 0x3f,
     (k.l >> 8) & 0x3f, (k.r >> 8) & 0x3f, k.l & 0x3f, k.r & 0x3f]
  }

  /** What goes into the boxes: the expanded half, exclusive or with the key. */
  function Inputs(h: bv32, six: Eight): Eight {
    [XorWord(Expanded(h, 1), six[0]), XorWord(Expanded(h, 2), six[1]),
     XorWord(Expanded(h, 3), six[2]), XorWord(Expanded(h, 4), six[3]),
     XorWord(Expanded(h, 5), six[4]), XorWord(Expanded(h, 6), six[5]),
     XorWord(Expanded(h, 7), six[6]), XorWord(Expanded(h, 8), six[7])]
  }

  /** The entries of the eight boxes, put together. */
  function Entries(sp: Box, at: Eight): bv32 {
    Entry(sp, 7, at[6]) | Entry(sp, 5, at[4]) | Entry(sp, 3, at[2]) | Entry(sp, 1, at[0])
    | Entry(sp, 8, at[7]) | Entry(sp, 6, at[5]) | Entry(sp, 4, at[3]) | Entry(sp, 2, at[1])
  }

  lemma {:induction false} OddBits(h: bv32, k: bv32)
    ensures var x := ((h << 1) | ((h >> 31) & 1)) & 0xffffffff;
            var u := ((x << 28) | (x >> 4)) ^ k;
            && u & 0x3f == ((h >> 3) & 0x3f) ^ (k & 0x3f)
            && (u >> 8) & 0x3f == ((h >> 11) & 0x3f) ^ ((k >> 8) & 0x3f)
            && (u >> 16) & 0x3f == ((h >> 19) & 0x3f) ^ ((k >> 16) & 0x3f)
            && (u >> 24) & 0x3f == (((h & 1) << 5) | (h >> 27)) ^ ((k >> 24) & 0x3f)
  {
  }

  lemma {:induction false} EvenBits(h: bv32, k: bv32)
    ensures var v := (((h << 1) | ((h >> 31) & 1)) & 0xffffffff) ^ k;
            && v & 0x3f == (((h & 0x1f) << 1) | (h >> 31)) ^ (k & 0x3f)
            && (v >> 8) & 0x3f == ((h >> 7) & 0x3f) ^ ((k >> 8) & 0x3f)
            && (v >> 16) & 0x3f == ((h >> 15) & 0x3f) ^ ((k >> 16) & 0x3f)
            && (v >> 24) & 0x3f == ((h >> 23) & 0x3f) ^ ((k >> 24) & 0x3f)
  {
  }

  lemma {:induction false} OddFields(h: bv32, k: Pair)
    ensures var x, at := TurnLeft(h), Inputs(h, KeySixes(k));
            FieldsOf(((x << 28) | (x >> 4)) ^ k.l) == Fields(at[6], at[4], at[2], at[0])
  {
    OddBits(h, k.l);
  }

  lemma {:induction false} EvenFields(h: bv32, k: Pair)
    ensures var x, at := TurnLeft(h), Inputs(h, KeySixes(k));
            FieldsOf(x ^ k.r) == Fields(at[7], at[5], at[3], at[1])
  {
    EvenBits(h, k.r);
  }

  lemma {:induction false} LookedIs(sp: Box, at: Eight)
    ensures Looked(sp, Fields(at[6], at[4], at[2], at[0]), Fields(at[7], at[5], at[3], at[1])) == Entries(sp, at)
  {
    hide Entry;
  }

  /** The round function of desfunc on halves turned left is the standard's: each box is entered with its row of the
      expanded half, exclusive or with its six bits of the key. */
  lemma {:induction false} ChosenIsEntries(sp: Box, h: bv32, k: Pair)
    ensures Chosen(sp, TurnLeft(h), k) == Entries(sp, Inputs(h, KeySixes(k)))
  {
    hide TurnLeft, Inputs, KeySixes, FieldsOf, Looked, Entries;
    OddFields(h, k);
    EvenFields(h, k);
    LookedIs(sp, Inputs(h, KeySixes(k)));
  }

  // ----- Complements

  lemma {:induction false} FirstRowsFlip(h: bv32)
    ensures Expanded(Not(h), 1) == XorWord(Expanded(h, 1), 0x3f)
    ensures Expanded(Not(h), 2) == XorWord(Expanded(h, 2), 0x3f)
    ensures Expanded(Not(h), 3) == XorWord(Expanded(h, 3), 0x3f)
    ensures Expanded(Not(h), 4) == XorWord(Expanded(h, 4), 0x3f)
  {
  }

  lemma {:induction false} LastRowsFlip(h: bv32)
    ensures Expanded(Not(h), 5) == XorWord(Expanded(h, 5), 0x3f)
    ensures Expanded(Not(h), 6) == XorWord(Expanded(h, 6), 0x3f)
    ensures Expanded(Not(h), 7) == XorWord(Expanded(h, 7), 0x3f)
    ensures Expanded(Not(h), 8) == XorWord(Expanded(h, 8), 0x3f)
  {
  }

  lemma {:induction false} ExpandedFlips(h: bv32, b: int)
    requires 1 <= b <= 8
    ensures Expanded(Not(h), b) == XorWord(Expanded(h, b), 0x3f)
  {
    hide *;
    FirstRowsFlip(h);
    LastRowsFlip(h);
    assert b == 1 || b == 2 || b == 3 || b == 4 || b == 5 || b == 6 || b == 7 || b == 8;
  }

  lemma {:induction false} FlipsMeet(x: bv32, y: bv32)
    ensures XorWord(XorWord(x, 0x3f), XorWord(y, 0x3f)) == XorWord(x, y)
  {
    assert (x ^ 0x3f) ^ (y ^ 0x3f) == x ^ y;
  }

  // ----- One box at a time

  ghost predicate Empty(sp: Box, c: int) {
    forall x {:trigger Entry(sp, c, x)} :: Entry(sp, c, x) == 0
  }

  /** With all other boxes empty, the round gives the entry of box `b` at its row of the expanded half, exclusive or
      with its six bits of the key. */
  lemma {:induction false} OneBox(sp: Box, h: bv32, k: Pair, b: int)
    requires 1 <= b <= 8 && forall c {:trigger Empty(sp, c)} :: c != b ==> Empty(sp, c)
    ensures Chosen(sp, TurnLeft(h), k) == Entry(sp, b, XorWord(Expanded(h, b), KeySixes(k)[b - 1]))
  {
    hide Entry, Expanded, XorWord, Chosen, TurnLeft, Entries, KeySixes, Inputs;
    ChosenIsEntries(sp, h, k);
    EntriesOfOne(sp, Inputs(h, KeySixes(k)), b);
    InputAt(h, KeySixes(k), b);
  }

  lemma {:induction false} InputAt(h: bv32, six: Eight, b: int)
    requires 1 <= b <= 8
    ensures Inputs(h, six)[b - 1] == XorWord(Expanded(h, b), six[b - 1])
  {
    hide XorWord, Expanded;
  }

  lemma {:induction false} EntriesOfOne(sp: Box, at: Eight, b: int)
    requires 1 <= b <= 8 && forall c {:trigger Empty(sp, c)} :: c != b ==> Empty(sp, c)
    ensures Entries(sp, at) == Entry(sp, b, at[b - 1])
  {
    hide Entry;
    assert b == 1 || Empty(sp, 1);
    assert b == 2 || Empty(sp, 2);
    assert b == 3 || Empty(sp, 3);
    assert b == 4 || Empty(sp, 4);
    assert b == 5 || Empty(sp, 5);
    assert b == 6 || Empty(sp, 6);
    assert b == 7 || Empty(sp, 7);
    assert b == 8 || Empty(sp, 8);
  }
}
