/** utils/d3des.c: the Data Encryption Standard on 32-bit halves, for any contents of the S-boxes.

  `sp(b, x)` is entry `x` of table SPb.
 */
module Des {
  import opened Octets
  import opened Words
  import opened DesBits
  import opened DesRound

  // ----- Rounds

  const ROUNDS: nat := 16

  type Keys = k: seq<bv32> | |k| == 32 witness [0, 0, 0, 0, 0, 0, 0, 0, 0, 0, 0, 0, 0, 0, 0, 0, 0, 0, 0, 0, 0, 0, 0,
                                                0, 0, 0, 0, 0, 0, 0, 0, 0]

  /** A round function of a half and two key words. */
  type Mix = (bv32, Pair) -> bv32

  /** One round; the halves trade places. */
  function Round(f: Mix, p: Pair, k: Pair): Pair {
    Pair(p.r, XorWord(p.l, f(p.r, k)))
  }

  lemma {:induction false} RoundUndone(f: Mix, p: Pair, k: Pair)
    ensures Round(f, Flip(Round(f, p, k)), k) == Flip(p)
  {
    XorWordTwice(p.l, f(p.r, k));
  }

  function KeyAt(keys: Keys, j: nat): Pair
    requires j < ROUNDS
  {
    Pair(keys[2 * j], keys[2 * j + 1])
  }

  function Rounds(f: Mix, p: Pair, keys: Keys, n: nat): Pair
    requires n <= ROUNDS
    decreases n
  {
    if n == 0 then p else Round(f, Rounds(f, p, keys, n - 1), KeyAt(keys, n - 1))
  }

  /** The keys of the rounds in the opposite order. */
  ghost predicate Reversed(keys: Keys, other: Keys) {
    forall j: nat {:trigger KeyAt(other, j)} :: j < ROUNDS ==> KeyAt(other, j) == KeyAt(keys, ROUNDS - 1 - j)
  }

  lemma {:induction false} RoundsUndone(f: Mix, p: Pair, keys: Keys, other: Keys, n: nat)
    requires n <= ROUNDS && Reversed(keys, other)
    ensures Rounds(f, Flip(Rounds(f, p, keys, ROUNDS)), other, n) == Flip(Rounds(f, p, keys, ROUNDS - n))
    decreases n
  {
    if n > 0 {
      RoundsUndone(f, p, keys, other, n - 1);
      RoundUndone(f, Rounds(f, p, keys, ROUNDS - n), KeyAt(other, n - 1));
    }
  }

  /** The cipher with the round keys reversed inverts the cipher, whatever the round function. */
  lemma {:induction false} ReversedKeysInvert(f: Mix, p: Pair, keys: Keys, other: Keys)
    requires Reversed(keys, other)
    ensures Ciphered(f, Ciphered(f, p, keys), other) == p
  {
    var q := Initial(p);
    InitialUndoesFinal(Rounds(f, q, keys, ROUNDS));
    RoundsUndone(f, q, keys, other, ROUNDS);
    FinalUndoesInitial(p);
  }

  function Ciphered(f: Mix, p: Pair, keys: Keys): Pair {
    Final(Rounds(f, Initial(p), keys, ROUNDS))
  }

  function MixBy(sp: Box): Mix {
    (x: bv32, k: Pair) => Chosen(sp, x, k)
  }

  lemma {:induction false} TwoRounds(f: Mix, p: Pair, keys: Keys, n: nat)
    requires n + 2 <= ROUNDS
    ensures var q := Rounds(f, p, keys, n);
            var l := XorWord(q.l, f(q.r, KeyAt(keys, n)));
            Rounds(f, p, keys, n + 2) == Pair(l, XorWord(q.r, f(l, KeyAt(keys, n + 1))))
  {
    assert Rounds(f, p, keys, n + 1) == Round(f, Rounds(f, p, keys, n), KeyAt(keys, n));
  }

  /** desfunc: two rounds in each of eight turns, the halves staying in place. */
  method DesFunc(sp: Box, block: Pair, keys: Keys) returns (out: Pair)
    ensures out == Ciphered(MixBy(sp), block, keys)
  {
    var p := RunRounds(MixBy(sp), Initial(block), keys);
    out := Final(p);
  }

  /** One turn of the loop. */
  method DoubleRound(f: Mix, l: bv32, r: bv32, keys: Keys, n: nat) returns (leftt: bv32, right: bv32)
    requires n + 2 <= ROUNDS
    ensures leftt == XorWord(l, f(r, KeyAt(keys, n))) && right == XorWord(r, f(leftt, KeyAt(keys, n + 1)))
  {
    leftt := XorWord(l, f(r, KeyAt(keys, n)));
    right := XorWord(r, f(leftt, KeyAt(keys, n + 1)));
  }

  method RunRounds(f: Mix, p: Pair, keys: Keys) returns (q: Pair)
    ensures q == Rounds(f, p, keys, ROUNDS)
  {
    var leftt, right := p.l, p.r;
    for round := 0 to 8
      invariant Pair(leftt, right) == Rounds(f, p, keys, 2 * round)
    {
      TwoRounds(f, p, keys, 2 * round);
      leftt, right := DoubleRound(f, leftt, right, keys, 2 * round);
    }
    q := Pair(leftt, right);
  }

  // ----- Key schedule

  type KeyBytes = k: seq<Byte> | |k| == 8 witness [0, 0, 0, 0, 0, 0, 0, 0]

  type KeyBit = x: nat | x < 64

  type KeptBit = x: nat | x < 56

  type Turn = x: nat | x <= 28

  const PC1: seq<KeyBit> := [
    56, 48, 40, 32, 24, 16, 8, 0, 57, 49, 41, 33, 25, 17,
    9, 1, 58, 50, 42, 34, 26, 18, 10, 2, 59, 51, 43, 35,
    62, 54, 46, 38, 30, 22, 14, 6, 61, 53, 45, 37, 29, 21,
    13, 5, 60, 52, 44, 36, 28, 20, 12, 4, 27, 19, 11, 3]

  const TOTROT: seq<Turn> := [1, 2, 4, 6, 8, 10, 12, 14, 15, 17, 19, 21, 23, 25, 27, 28]

  const PC2: seq<KeptBit> := [
    13, 16, 10, 23, 0, 4, 2, 27, 14, 5, 20, 9,
    22, 18, 11, 3, 25, 7, 15, 6, 26, 19, 12, 1,
    40, 51, 30, 36, 46, 54, 29, 39, 50, 44, 32, 47,
    43, 48, 38, 55, 33, 52, 45, 41, 49, 35, 28, 31]

  const BYTEBIT: seq<bv8> := [0x01, 0x02, 0x04, 0x08, 0x10, 0x20, 0x40, 0x80]

  /** bigbyte */
  function BigByte(j: nat): bv32
    requires j < 24
  {
    match j
    case 0 => 0x800000
    case 1 => 0x400000
    case 2 => 0x200000
    case 3 => 0x100000
    case 4 => 0x80000
    case 5 => 0x40000
    case 6 => 0x20000
    case 7 => 0x10000
    case 8 => 0x8000
    case 9 => 0x4000
    case 10 => 0x2000
    case 11 => 0x1000
    case 12 => 0x800
    case 13 => 0x400
    case 14 => 0x200
    case 15 => 0x100
    case 16 => 0x80
    case 17 => 0x40
    case 18 => 0x20
    case 19 => 0x10
    case 20 => 0x8
    case 21 => 0x4
    case 22 => 0x2
    case _ => 0x1
  }

  type Bits = b: seq<bool> | |b| == 56 witness seq(56, i => false)

  /** The bits of the key that are kept, in the order of the first permuted choice. */
  function Kept(key: KeyBytes): Bits {
    seq(56, j requires 0 <= j < 56 => key[PC1[j] / 8] & BYTEBIT[PC1[j] % 8] != 0)
  }

  /** Both halves turned left for round `i`. */
  function Turned(bits: Bits, i: nat): Bits
    requires i < 16
  {
    seq(56, j requires 0 <= j < 56 =>
      var l := j + TOTROT[i];
      if j < 28 then (if l < 28 then bits[l] else bits[l - 28]) else if l < 56 then bits[l] else bits[l - 28])
  }

  function Or(x: bv32, y: bv32): bv32 {
    x | y
  }

  /** A raw key word: the second permuted choice from place `o` on. */
  function Gathered(bits: Bits, o: nat, n: nat): bv32
    requires o <= 24 && n <= 24
  {
    if n == 0 then 0
    else if bits[PC2[o + n - 1]] then Or(Gathered(bits, o, n - 1), BigByte(n - 1)) else Gathered(bits, o, n - 1)
  }

  function Raw(key: KeyBytes, i: nat): Pair
    requires i < 16
  {
    Pair(Gathered(Turned(Kept(key), i), 0, 24), Gathered(Turned(Kept(key), i), 24, 24))
  }

  /** cookey, for one round */
  function Cooked(raw: Pair): Pair {
    Pair(((raw.l & 0x00fc0000) << 6) | ((raw.l & 0x00000fc0) << 10)
         | ((raw.r & 0x00fc0000) >> 10) | ((raw.r & 0x00000fc0) >> 6),
         ((raw.l & 0x0003f000) << 12) | ((raw.l & 0x0000003f) << 16)
         | ((raw.r & 0x0003f000) >> 4) | (raw.r & 0x0000003f))
  }

  /** The key of round `i`, as desfunc takes it. */
  function RoundKey(key: KeyBytes, i: nat): Pair
    requires i < 16
  {
    Cooked(Raw(key, i))
  }

  /** The register after deskey: round `i` has its key in place, or counted from the end for decryption. */
  ghost predicate Scheduled(key: KeyBytes, decrypt: bool, keys: Keys) {
    forall j: nat {:trigger KeyAt(keys, j)} ::
      j < ROUNDS ==> KeyAt(keys, j) == RoundKey(key, if decrypt then 15 - j else j)
  }

  lemma {:induction false} SchedulesReversed(key: KeyBytes, keys: Keys, other: Keys)
    requires Scheduled(key, false, keys) && Scheduled(key, true, other)
    ensures Reversed(keys, other) && Reversed(other, keys)
  {
    forall j: nat {:trigger KeyAt(other, j)} | j < ROUNDS ensures KeyAt(other, j) == KeyAt(keys, ROUNDS - 1 - j) {
      assert KeyAt(other, j) == RoundKey(key, 15 - j) && KeyAt(keys, 15 - j) == RoundKey(key, 15 - j);
    }
    forall j: nat {:trigger KeyAt(keys, j)} | j < ROUNDS ensures KeyAt(keys, j) == KeyAt(other, ROUNDS - 1 - j) {
      assert KeyAt(keys, j) == RoundKey(key, j) && KeyAt(other, 15 - j) == RoundKey(key, 15 - (15 - j));
    }
  }
}
