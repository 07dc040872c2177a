/** The cipher of utils/d3des.c against the steps of FIPS 46-3, for any contents of the S-boxes.

  The code keeps both halves turned left by one bit.
 */
module DesStandard {
  import opened Octets
  import opened Words
  import opened DesBits
  import opened DesRound
  import opened Des
  import opened DesKeys
  import opened DesCipher

  // ----- The cipher

  /** Sixteen rounds of the standard.  A box holds its entries turned left by one bit. */
  function Standard(sp: Box, p: Pair, key: KeyBytes, n: nat): Pair
    requires n <= 16
    decreases n
  {
    if n == 0 then p
    else
      var q := Standard(sp, p, key, n - 1);
      Pair(q.r, XorWord(q.l, TurnRight(Entries(sp, Inputs(q.r, SixesFor(key, n - 1))))))
  }

  lemma {:induction false} ChosenFor(sp: Box, h: bv32, key: KeyBytes, i: nat)
    requires i < 16
    ensures Chosen(sp, TurnLeft(h), RoundKey(key, i)) == Entries(sp, Inputs(h, SixesFor(key, i)))
  {
    ChosenIsEntries(sp, h, RoundKey(key, i));
    RoundKeyIs(key, i);
  }

  lemma {:induction false} TurnedXor(x: bv32, y: bv32)
    ensures XorWord(TurnLeft(x), y) == TurnLeft(XorWord(x, TurnRight(y)))
  {
  }

  /** The rounds of desfunc are the standard's, on halves turned left. */
  lemma {:induction false} RoundsAreStandard(sp: Box, p: Pair, key: KeyBytes, keys: Keys, n: nat)
    requires Scheduled(key, false, keys) && n <= 16
    ensures Rounds(MixBy(sp), BothTurned(p), keys, n) == BothTurned(Standard(sp, p, key, n))
    decreases n
  {
    hide Entries, Inputs, SixesFor, TurnLeft, TurnRight, XorWord, Chosen, RoundKey;
    if n > 0 {
      RoundsAreStandard(sp, p, key, keys, n - 1);
      var q := Standard(sp, p, key, n - 1);
      assert KeyAt(keys, n - 1) == RoundKey(key, n - 1);
      ChosenFor(sp, q.r, key, n - 1);
      TurnedXor(q.l, Entries(sp, Inputs(q.r, SixesFor(key, n - 1))));
    }
  }

  /** The cipher is that of FIPS 46-3: what comes out is, once permuted, the halves after sixteen rounds exchanged. */
  lemma {:induction false} FollowsStandard(sp: Box, key: KeyBytes, block: Block, keys: Keys)
    requires Scheduled(key, false, keys)
    ensures Permuted(Load(Enciphered(sp, block, keys))) == Flip(Standard(sp, Permuted(Load(block)), key, 16))
  {
    var p, r := Load(block), Rounds(MixBy(sp), Initial(Load(block)), keys, 16);
    InitialIsPermuted(p);
    RoundsAreStandard(sp, Permuted(p), key, keys, 16);
    LoadStore(Final(r));
    InitialUndoesFinal(r);
    InitialIsPermuted(Final(r));
    TurnedBack(Permuted(Final(r)), Flip(Standard(sp, Permuted(p), key, 16)));
  }

  // ----- Complements

  /** What a complemented half and complemented bits of a key put into a box. */
  lemma {:induction false} BothFlip(h: bv32, a: Bits, b: Bits, o: nat, box: int)
    requires Flipped(a, b) && o <= 42 && 1 <= box <= 8
    ensures XorWord(Expanded(Not(h), box), SixAt(a, o)) == XorWord(Expanded(h, box), SixAt(b, o))
  {
    hide *;
    SixAtFlips(a, b, o);
    ExpandedFlips(h, box);
    FlipsMeet(Expanded(h, box), SixAt(b, o));
  }

  /** The boxes do not see that both the half and the key are complemented. */
  lemma {:induction false} InputsOfOpposites(h: bv32, a: Bits, b: Bits)
    requires Flipped(a, b)
    ensures Inputs(Not(h), SixesOf(a)) == Inputs(h, SixesOf(b))
  {
    hide Not, Expanded, XorWord, SixAt, Flipped;
    BothFlip(h, a, b, 0, 1);
    BothFlip(h, a, b, 6, 2);
    BothFlip(h, a, b, 12, 3);
    BothFlip(h, a, b, 18, 4);
    BothFlip(h, a, b, 24, 5);
    BothFlip(h, a, b, 30, 6);
    BothFlip(h, a, b, 36, 7);
    BothFlip(h, a, b, 42, 8);
  }

  lemma {:induction false} EntriesOfOpposites(sp: Box, h: bv32, key: KeyBytes, i: nat)
    requires i < 16
    ensures Entries(sp, Inputs(Not(h), SixesFor(Opposite(key), i))) == Entries(sp, Inputs(h, SixesFor(key, i)))
  {
    hide Not, Entries, Inputs, SixesOf, Halves, Kept, Flipped;
    KeptFlips(key);
    HalvesFlip(Kept(Opposite(key)), Kept(key), i + 1);
    InputsOfOpposites(h, Halves(Kept(Opposite(key)), i + 1), Halves(Kept(key), i + 1));
  }

  lemma {:induction false} NotXor(x: bv32, y: bv32)
    ensures XorWord(Not(x), y) == Not(XorWord(x, y))
  {
  }

  lemma {:induction false} StandardOfOpposites(sp: Box, p: Pair, key: KeyBytes, n: nat)
    requires n <= 16
    ensures Standard(sp, NotBoth(p), Opposite(key), n) == NotBoth(Standard(sp, p, key, n))
    decreases n
  {
    hide Not, Entries, Inputs, SixesFor, Opposite, XorWord, TurnRight;
    if n > 0 {
      StandardOfOpposites(sp, p, key, n - 1);
      var q := Standard(sp, p, key, n - 1);
      EntriesOfOpposites(sp, q.r, key, n - 1);
      NotXor(q.l, TurnRight(Entries(sp, Inputs(q.r, SixesFor(key, n - 1)))));
    }
  }

  lemma {:induction false} WordFlips(a: Byte, b: Byte, c: Byte, d: Byte)
    ensures Word(!a, !b, !c, !d) == Not(Word(a, b, c, d))
  {
  }

  lemma {:induction false} LoadOpposite(b: Block)
    ensures Load(Opposite(b)) == NotBoth(Load(b))
  {
    hide Not, Word;
    WordFlips(b[0], b[1], b[2], b[3]);
    WordFlips(b[4], b[5], b[6], b[7]);
  }

  /** The complementation property: the opposite block under the opposite key enciphers to the opposite. */
  lemma {:induction false} Complementation(sp: Box, key: KeyBytes, block: Block, keys: Keys, other: Keys)
    requires Scheduled(key, false, keys) && Scheduled(Opposite(key), false, other)
    ensures Enciphered(sp, Opposite(block), other) == Opposite(Enciphered(sp, block, keys))
  {
    hide Permuted, Enciphered, Not, Load, Store, Standard, Opposite, Scheduled;
    var out, opp := Enciphered(sp, block, keys), Enciphered(sp, Opposite(block), other);
    FollowsStandard(sp, key, block, keys);
    FollowsStandard(sp, Opposite(key), Opposite(block), other);
    LoadOpposite(block);
    PermutedOpposite(Load(block));
    StandardOfOpposites(sp, Permuted(Load(block)), key, 16);
    PermutedOpposite(Load(out));
    LoadOpposite(out);
    PermutedOnce(Load(opp), Load(Opposite(out)));
    StoreLoad(opp);
    StoreLoad(Opposite(out));
  }
}
