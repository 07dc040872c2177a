/** The key schedule of utils/d3des.c against the one of FIPS 46-3.

  The code numbers the bits of a key byte from the least significant end, turns the kept bits all the way for each
  round, and takes the bits for the boxes in two words.
 */
module DesKeys {
  import opened Octets
  import opened Words
  import opened DesRound
  import opened Des

  /** Six bits, the first one on top. */
  function Six(a: bool, b: bool, c: bool, d: bool, e: bool, f: bool): bv32 {
    (if a then 32 else 0) | (if b then 16 else 0) | (if c then 8 else 0)
    | (if d then 4 else 0) | (if e then 2 else 0) | (if f then 1 else 0)
  }

  /** How far both halves of the key turn before each round. */
  const SHIFTS: seq<nat> := [1, 1, 2, 2, 2, 2, 2, 2, 1, 2, 2, 2, 2, 2, 2, 1]

  /** Both halves of 28 bits turned left. */
  function TurnHalves(bits: Bits, t: nat): Bits {
    seq(56, j requires 0 <= j < 56 => if j < 28 then bits[(j + t) % 28] else bits[28 + (j - 28 + t) % 28])
  }

  /** C and D after `n` shifts of the bits that are kept of a key. */
  function Halves(bits: Bits, n: nat): Bits
    requires n <= 16
  {
    if n == 0 then bits else TurnHalves(Halves(bits, n - 1), SHIFTS[n - 1])
  }

  /** Six bits of the second permuted choice, from place `o` on. */
  function SixAt(bits: Bits, o: nat): bv32
    requires o <= 42
  {
    Six(bits[PC2[o]], bits[PC2[o + 1]], bits[PC2[o + 2]], bits[PC2[o + 3]], bits[PC2[o + 4]], bits[PC2[o + 5]])
  }

  function SixesOf(bits: Bits): Eight {
    seq(8, i requires 0 <= i < 8 => SixAt(bits, 6 * i))
  }

  /** The round key of round `i`, for each box. */
  function SixesFor(key: KeyBytes, i: nat): Eight
    requires i < 16
  {
    SixesOf(Halves(Kept(key), i + 1))
  }

  /** The turns of the rounds add up to the table of the code. */
  lemma {:induction false} TurnsAddUp(i: nat)
    requires 0 < i < 16
    ensures TOTROT[0] == SHIFTS[0] && TOTROT[i] == TOTROT[i - 1] + SHIFTS[i]
  {
  }

  lemma {:induction false} TurnedOnce(bits: Bits, i: nat)
    requires i < 16
    ensures Turned(bits, i) == TurnHalves(bits, TOTROT[i])
  {
    var t: nat := TOTROT[i];
    forall j | 0 <= j < 56 ensures Turned(bits, i)[j] == TurnHalves(bits, t)[j] {
      Around(if j < 28 then j + t else j - 28 + t);
    }
  }

  lemma {:induction false} Around(x: nat)
    requires x < 56
    ensures x % 28 == if x < 28 then x else x - 28
  {
  }

  lemma {:induction false} HalvesAre(bits: Bits, i: nat)
    requires i < 16
    ensures Halves(bits, i + 1) == TurnHalves(bits, TOTROT[i])
  {
    if i == 0 {
      assert Halves(bits, 1) == TurnHalves(Halves(bits, 0), SHIFTS[0]);
      assert SHIFTS[0] == TOTROT[0];
    } else {
      TurnsAddUp(i);
      HalvesAre(bits, i - 1);
      TurnTwice(bits, TOTROT[i - 1], SHIFTS[i]);
    }
  }

  lemma {:induction false} TurnedIsHalves(bits: Bits, i: nat)
    requires i < 16
    ensures Turned(bits, i) == Halves(bits, i + 1)
  {
    TurnedOnce(bits, i);
    HalvesAre(bits, i);
  }

  lemma {:induction false} AroundTwice(x: nat, t: nat)
    ensures (x % 28 + t) % 28 == (x + t) % 28
  {
  }

  lemma {:induction false} TurnTwice(bits: Bits, t: nat, u: nat)
    ensures TurnHalves(TurnHalves(bits, t), u) == TurnHalves(bits, t + u)
  {
    forall j | 0 <= j < 56 ensures TurnHalves(TurnHalves(bits, t), u)[j] == TurnHalves(bits, t + u)[j] {
      TurnTwiceAt(bits, t, u, j);
    }
  }

  lemma {:induction false} TurnTwiceAt(bits: Bits, t: nat, u: nat, j: nat)
    requires j < 56
    ensures TurnHalves(TurnHalves(bits, t), u)[j] == TurnHalves(bits, t + u)[j]
  {
    var once := TurnHalves(bits, t);
    if j < 28 {
      AroundTwice(j + u, t);
      assert TurnHalves(once, u)[j] == once[(j + u) % 28];
    } else {
      AroundTwice(j - 28 + u, t);
      assert TurnHalves(once, u)[j] == once[28 + (j - 28 + u) % 28];
    }
  }

  // ----- Words of the key

  function Gate(b: bool, w: bv32): bv32 {
    if b then w else 0
  }

  lemma {:induction false} OrZero(x: bv32)
    ensures Or(x, 0) == x
  {
  }

  lemma {:induction false} OrAssoc(x: bv32, y: bv32, z: bv32)
    ensures Or(Or(x, y), z) == Or(x, Or(y, z))
  {
  }

  lemma {:induction false} ZeroOr(x: bv32)
    ensures Or(0, x) == x
  {
  }

  function Up18(x: bv32): bv32 {
    x << 18
  }

  function Up12(x: bv32): bv32 {
    x << 12
  }

  function Up6(x: bv32): bv32 {
    x << 6
  }

  lemma {:induction false} Gates18(a: bool, b: bool, c: bool, d: bool, e: bool, f: bool)
    ensures Or(Or(Or(Or(Or(Gate(a, 0x800000), Gate(b, 0x400000)), Gate(c, 0x200000)),
                  Gate(d, 0x100000)), Gate(e, 0x80000)), Gate(f, 0x40000))
            == Up18(Six(a, b, c, d, e, f))
  {
  }

  lemma {:induction false} Gates12(a: bool, b: bool, c: bool, d: bool, e: bool, f: bool)
    ensures Or(Or(Or(Or(Or(Gate(a, 0x20000), Gate(b, 0x10000)), Gate(c, 0x8000)),
                  Gate(d, 0x4000)), Gate(e, 0x2000)), Gate(f, 0x1000))
            == Up12(Six(a, b, c, d, e, f))
  {
  }

  lemma {:induction false} Gates6(a: bool, b: bool, c: bool, d: bool, e: bool, f: bool)
    ensures Or(Or(Or(Or(Or(Gate(a, 0x800), Gate(b, 0x400)), Gate(c, 0x200)),
                  Gate(d, 0x100)), Gate(e, 0x80)), Gate(f, 0x40))
            == Up6(Six(a, b, c, d, e, f))
  {
  }

  lemma {:induction false} Gates0(a: bool, b: bool, c: bool, d: bool, e: bool, f: bool)
    ensures Or(Or(Or(Or(Or(Gate(a, 0x20), Gate(b, 0x10)), Gate(c, 0x8)),
                  Gate(d, 0x4)), Gate(e, 0x2)), Gate(f, 0x1))
            == Six(a, b, c, d, e, f)
  {
  }

  /** A bit of the second permuted choice at its place in a key word. */
  function GateAt(bits: Bits, o: nat, n: nat): bv32
    requires o <= 24 && n < 24
  {
    Gate(bits[PC2[o + n]], BigByte(n))
  }

  /** Six gates in a row. */
  function SixGates(bits: Bits, o: nat, n: nat): bv32
    requires o <= 24 && n <= 18
  {
    Or(Or(Or(Or(Or(GateAt(bits, o, n), GateAt(bits, o, n + 1)), GateAt(bits, o, n + 2)), GateAt(bits, o, n + 3)),
          GateAt(bits, o, n + 4)), GateAt(bits, o, n + 5))
  }

  lemma {:induction false} OneGathered(bits: Bits, o: nat, n: nat)
    requires o <= 24 && n < 24
    ensures Gathered(bits, o, n + 1) == Or(Gathered(bits, o, n), GateAt(bits, o, n))
  {
    hide Or;
    OrZero(Gathered(bits, o, n));
  }

  lemma {:induction false} SixMore(bits: Bits, o: nat, n: nat)
    requires o <= 24 && n <= 18
    ensures Gathered(bits, o, n + 6) == Or(Gathered(bits, o, n), SixGates(bits, o, n))
  {
    hide Or, GateAt, Gathered;
    OneGathered(bits, o, n);
    OneGathered(bits, o, n + 1);
    OneGathered(bits, o, n + 2);
    OneGathered(bits, o, n + 3);
    OneGathered(bits, o, n + 4);
    OneGathered(bits, o, n + 5);
    SixInOne(Gathered(bits, o, n), GateAt(bits, o, n), GateAt(bits, o, n + 1), GateAt(bits, o, n + 2),
             GateAt(bits, o, n + 3), GateAt(bits, o, n + 4), GateAt(bits, o, n + 5));
  }

  lemma {:induction false} SixInOne(x: bv32, a: bv32, b: bv32, c: bv32, d: bv32, e: bv32, f: bv32)
    ensures Or(Or(Or(Or(Or(Or(x, a), b), c), d), e), f) == Or(x, Or(Or(Or(Or(Or(a, b), c), d), e), f))
  {
    OrAssoc(x, a, b);
    OrAssoc(x, Or(a, b), c);
    OrAssoc(x, Or(Or(a, b), c), d);
    OrAssoc(x, Or(Or(Or(a, b), c), d), e);
    OrAssoc(x, Or(Or(Or(Or(a, b), c), d), e), f);
  }

  /** The four groups of six of a key word. */
  lemma {:induction false} GatesAt0(bits: Bits, o: nat)
    requires o <= 24
    ensures GateAt(bits, o, 0) == Gate(bits[PC2[o]], 0x800000)
    ensures GateAt(bits, o, 1) == Gate(bits[PC2[o + 1]], 0x400000)
    ensures GateAt(bits, o, 2) == Gate(bits[PC2[o + 2]], 0x200000)
    ensures GateAt(bits, o, 3) == Gate(bits[PC2[o + 3]], 0x100000)
    ensures GateAt(bits, o, 4) == Gate(bits[PC2[o + 4]], 0x80000)
    ensures GateAt(bits, o, 5) == Gate(bits[PC2[o + 5]], 0x40000)
  {
    hide Gate;
  }

  lemma {:induction false} Group1(bits: Bits, o: nat)
    requires o <= 24
    ensures SixGates(bits, o, 0) == Up18(SixAt(bits, o))
  {
    hide Or, Gate, GateAt, Six, Up18, Up12, Up6;
    GatesAt0(bits, o);
    Gates18(bits[PC2[o]], bits[PC2[o + 1]], bits[PC2[o + 2]], bits[PC2[o + 3]], bits[PC2[o + 4]], bits[PC2[o + 5]]);
  }

  lemma {:induction false} GatesAt6(bits: Bits, o: nat)
    requires o <= 24
    ensures GateAt(bits, o, 6) == Gate(bits[PC2[o + 6]], 0x20000)
    ensures GateAt(bits, o, 7) == Gate(bits[PC2[o + 7]], 0x10000)
    ensures GateAt(bits, o, 8) == Gate(bits[PC2[o + 8]], 0x8000)
    ensures GateAt(bits, o, 9) == Gate(bits[PC2[o + 9]], 0x4000)
    ensures GateAt(bits, o, 10) == Gate(bits[PC2[o + 10]], 0x2000)
    ensures GateAt(bits, o, 11) == Gate(bits[PC2[o + 11]], 0x1000)
  {
    hide Gate;
  }

  lemma {:induction false} Group2(bits: Bits, o: nat)
    requires o <= 24
    ensures SixGates(bits, o, 6) == Up12(SixAt(bits, o + 6))
  {
    hide Or, Gate, GateAt, Six, Up18, Up12, Up6;
    GatesAt6(bits, o);
    Gates12(bits[PC2[o + 6]], bits[PC2[o + 7]], bits[PC2[o + 8]], bits[PC2[o + 9]], bits[PC2[o + 10]],
            bits[PC2[o + 11]]);
  }

  lemma {:induction false} GatesAt12(bits: Bits, o: nat)
    requires o <= 24
    ensures GateAt(bits, o, 12) == Gate(bits[PC2[o + 12]], 0x800)
    ensures GateAt(bits, o, 13) == Gate(bits[PC2[o + 13]], 0x400)
    ensures GateAt(bits, o, 14) == Gate(bits[PC2[o + 14]], 0x200)
    ensures GateAt(bits, o, 15) == Gate(bits[PC2[o + 15]], 0x100)
    ensures GateAt(bits, o, 16) == Gate(bits[PC2[o + 16]], 0x80)
    ensures GateAt(bits, o, 17) == Gate(bits[PC2[o + 17]], 0x40)
  {
    hide Gate;
  }

  lemma {:induction false} Group3(bits: Bits, o: nat)
    requires o <= 24
    ensures SixGates(bits, o, 12) == Up6(SixAt(bits, o + 12))
  {
    hide Or, Gate, GateAt, Six, Up18, Up12, Up6;
    GatesAt12(bits, o);
    Gates6(bits[PC2[o + 12]], bits[PC2[o + 13]], bits[PC2[o + 14]], bits[PC2[o + 15]], bits[PC2[o + 16]],
           bits[PC2[o + 17]]);
  }

  lemma {:induction false} GatesAt18(bits: Bits, o: nat)
    requires o <= 24
    ensures GateAt(bits, o, 18) == Gate(bits[PC2[o + 18]], 0x20)
    ensures GateAt(bits, o, 19) == Gate(bits[PC2[o + 19]], 0x10)
    ensures GateAt(bits, o, 20) == Gate(bits[PC2[o + 20]], 0x8)
    ensures GateAt(bits, o, 21) == Gate(bits[PC2[o + 21]], 0x4)
    ensures GateAt(bits, o, 22) == Gate(bits[PC2[o + 22]], 0x2)
    ensures GateAt(bits, o, 23) == Gate(bits[PC2[o + 23]], 0x1)
  {
    hide Gate;
  }

  lemma {:induction false} Group4(bits: Bits, o: nat)
    requires o <= 24
    ensures SixGates(bits, o, 18) == SixAt(bits, o + 18)
  {
    hide Or, Gate, GateAt, Six, Up18, Up12, Up6;
    GatesAt18(bits, o);
    Gates0(bits[PC2[o + 18]], bits[PC2[o + 19]], bits[PC2[o + 20]], bits[PC2[o + 21]], bits[PC2[o + 22]],
           bits[PC2[o + 23]]);
  }

  /** Four groups of six bits in a word. */
  function FourSixes(a: bv32, b: bv32, c: bv32, d: bv32): bv32 {
    Or(Or(Or(Up18(a), Up12(b)), Up6(c)), d)
  }

  lemma {:induction false} NoneGathered(bits: Bits, o: nat)
    requires o <= 24
    ensures Gathered(bits, o, 0) == 0
  {
  }

  lemma {:induction false} FourGathered(bits: Bits, o: nat)
    requires o <= 24
    ensures Gathered(bits, o, 24) == Or(Or(Or(SixGates(bits, o, 0), SixGates(bits, o, 6)), SixGates(bits, o, 12)),
                                        SixGates(bits, o, 18))
  {
    hide Or, SixGates, Gathered;
    SixMore(bits, o, 0);
    SixMore(bits, o, 6);
    SixMore(bits, o, 12);
    SixMore(bits, o, 18);
    NoneGathered(bits, o);
    ZeroOr(SixGates(bits, o, 0));
  }

  lemma {:induction false} GatheredIs(bits: Bits, o: nat)
    requires o <= 24
    ensures Gathered(bits, o, 24) == FourSixes(SixAt(bits, o), SixAt(bits, o + 6), SixAt(bits, o + 12),
                                               SixAt(bits, o + 18))
  {
    hide SixGates, SixAt, Or, Gathered, Up18, Up12, Up6;
    FourGathered(bits, o);
    Group1(bits, o);
    Group2(bits, o);
    Group3(bits, o);
    Group4(bits, o);
  }

  lemma {:induction false} SixSmall(a: bool, b: bool, c: bool, d: bool, e: bool, f: bool)
    ensures Six(a, b, c, d, e, f) <= 0x3f
  {
  }

  lemma {:induction false} SixAtSmall(bits: Bits, o: nat)
    requires o <= 42
    ensures SixAt(bits, o) <= 0x3f
  {
    SixSmall(bits[PC2[o]], bits[PC2[o + 1]], bits[PC2[o + 2]], bits[PC2[o + 3]], bits[PC2[o + 4]], bits[PC2[o + 5]]);
  }

  lemma {:induction false} CookedBits(a: bv32, b: bv32, c: bv32, d: bv32, e: bv32, f: bv32, g: bv32, h: bv32)
    requires a <= 0x3f && b <= 0x3f && c <= 0x3f && d <= 0x3f && e <= 0x3f && f <= 0x3f && g <= 0x3f && h <= 0x3f
    ensures var x, y := (((a << 18) | (b << 12)) | (c << 6)) | d, (((e << 18) | (f << 12)) | (g << 6)) | h;
            var l := ((x & 0x00fc0000) << 6) | ((x & 0x00000fc0) << 10)
                     | ((y & 0x00fc0000) >> 10) | ((y & 0x00000fc0) >> 6);
            var r := ((x & 0x0003f000) << 12) | ((x & 0x0000003f) << 16)
                     | ((y & 0x0003f000) >> 4) | (y & 0x0000003f);
            && (l >> 24) & 0x3f == a && (r >> 24) & 0x3f == b && (l >> 16) & 0x3f == c && (r >> 16) & 0x3f == d
            && (l >> 8) & 0x3f == e && (r >> 8) & 0x3f == f && l & 0x3f == g && r & 0x3f == h
  {
  }

  /** cookey puts the sixes where desfunc takes them from. */
  lemma {:induction false} CookedSixes(a: bv32, b: bv32, c: bv32, d: bv32, e: bv32, f: bv32, g: bv32, h: bv32)
    requires a <= 0x3f && b <= 0x3f && c <= 0x3f && d <= 0x3f && e <= 0x3f && f <= 0x3f && g <= 0x3f && h <= 0x3f
    ensures KeySixes(Cooked(Pair(FourSixes(a, b, c, d), FourSixes(e, f, g, h)))) == [a, b, c, d, e, f, g, h]
  {
    CookedBits(a, b, c, d, e, f, g, h);
  }

  lemma {:induction false} SixesCooked(bits: Bits)
    ensures KeySixes(Cooked(Pair(Gathered(bits, 0, 24), Gathered(bits, 24, 24)))) == SixesOf(bits)
  {
    hide SixAt, Gathered, Cooked, KeySixes, FourSixes;
    GatheredIs(bits, 0);
    GatheredIs(bits, 24);
    SixAtSmall(bits, 0);
    SixAtSmall(bits, 6);
    SixAtSmall(bits, 12);
    SixAtSmall(bits, 18);
    SixAtSmall(bits, 24);
    SixAtSmall(bits, 30);
    SixAtSmall(bits, 36);
    SixAtSmall(bits, 42);
    CookedSixes(SixAt(bits, 0), SixAt(bits, 6), SixAt(bits, 12), SixAt(bits, 18),
                SixAt(bits, 24), SixAt(bits, 30), SixAt(bits, 36), SixAt(bits, 42));
  }

  /** The round keys of the code hold, for each box, the six bits of the standard's key schedule. */
  lemma {:induction false} RoundKeyIs(key: KeyBytes, i: nat)
    requires i < 16
    ensures KeySixes(RoundKey(key, i)) == SixesFor(key, i)
  {
    TurnedIsHalves(Kept(key), i);
    SixesCooked(Halves(Kept(key), i + 1));
  }

  // ----- The bits of a key

  /** Bit `i` of a byte, counted from the least significant end. */
  function BitAt(x: Byte, i: nat): bool
    requires i < 8
  {
    match i
    case 0 => x & 1 != 0
    case 1 => (x >> 1) & 1 != 0
    case 2 => (x >> 2) & 1 != 0
    case 3 => (x >> 3) & 1 != 0
    case 4 => (x >> 4) & 1 != 0
    case 5 => (x >> 5) & 1 != 0
    case 6 => (x >> 6) & 1 != 0
    case _ => (x >> 7) & 1 != 0
  }

  lemma {:induction false} BitAtIs(x: Byte, i: nat)
    requires i < 8
    ensures x & BYTEBIT[i] != 0 <==> BitAt(x, i)
  {
    match i
    case 0 => assert x & 0x01 != 0 <==> x & 1 != 0;
    case 1 => assert x & 0x02 != 0 <==> (x >> 1) & 1 != 0;
    case 2 => assert x & 0x04 != 0 <==> (x >> 2) & 1 != 0;
    case 3 => assert x & 0x08 != 0 <==> (x >> 3) & 1 != 0;
    case 4 => assert x & 0x10 != 0 <==> (x >> 4) & 1 != 0;
    case 5 => assert x & 0x20 != 0 <==> (x >> 5) & 1 != 0;
    case 6 => assert x & 0x40 != 0 <==> (x >> 6) & 1 != 0;
    case _ => assert x & 0x80 != 0 <==> (x >> 7) & 1 != 0;
  }

  /** The bits that are kept of a key, eight to a byte, the least significant one first. */
  lemma {:induction false} KeptIs(key: KeyBytes, j: nat)
    requires j < 56
    ensures Kept(key)[j] == BitAt(key[PC1[j] / 8], PC1[j] % 8)
  {
    BitAtIs(key[PC1[j] / 8], PC1[j] % 8);
  }

  // ----- Complements

  function Opposite(k: Block): Block {
    seq(8, i requires 0 <= i < 8 => !k[i])
  }

  ghost predicate Flipped(a: Bits, b: Bits) {
    forall j {:trigger a[j]} {:trigger b[j]} :: 0 <= j < 56 ==> a[j] == !b[j]
  }

  lemma {:induction false} BitFlips(x: Byte, i: nat)
    requires i < 8
    ensures !x & BYTEBIT[i] != 0 <==> x & BYTEBIT[i] == 0
  {
    assert i == 0 || i == 1 || i == 2 || i == 3 || i == 4 || i == 5 || i == 6 || i == 7;
  }

  lemma {:induction false} KeptFlips(key: KeyBytes)
    ensures Flipped(Kept(Opposite(key)), Kept(key))
  {
    forall j | 0 <= j < 56 ensures Kept(Opposite(key))[j] == !Kept(key)[j] {
      BitFlips(key[PC1[j] / 8], PC1[j] % 8);
    }
  }

  lemma {:induction false} TurnFlips(a: Bits, b: Bits, t: nat)
    requires Flipped(a, b)
    ensures Flipped(TurnHalves(a, t), TurnHalves(b, t))
  {
    forall j | 0 <= j < 56 ensures TurnHalves(a, t)[j] == !TurnHalves(b, t)[j] {
      var h := if j < 28 then (j + t) % 28 else 28 + (j - 28 + t) % 28;
      assert a[h] == !b[h];
    }
  }

  lemma {:induction false} HalvesFlip(a: Bits, b: Bits, n: nat)
    requires Flipped(a, b) && n <= 16
    ensures Flipped(Halves(a, n), Halves(b, n))
  {
    if n > 0 {
      HalvesFlip(a, b, n - 1);
      TurnFlips(Halves(a, n - 1), Halves(b, n - 1), SHIFTS[n - 1]);
    }
  }

  lemma {:induction false} SixFlips(a: bool, b: bool, c: bool, d: bool, e: bool, f: bool)
    ensures Six(!a, !b, !c, !d, !e, !f) == XorWord(Six(a, b, c, d, e, f), 0x3f)
  {
  }

  lemma {:induction false} SixAtFlips(a: Bits, b: Bits, o: nat)
    requires Flipped(a, b) && o <= 42
    ensures SixAt(a, o) == XorWord(SixAt(b, o), 0x3f)
  {
    hide Six, XorWord;
    SixFlips(b[PC2[o]], b[PC2[o + 1]], b[PC2[o + 2]], b[PC2[o + 3]], b[PC2[o + 4]], b[PC2[o + 5]]);
  }
}
