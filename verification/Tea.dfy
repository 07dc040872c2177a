/** utils/tea.c: the TEA block cipher with sixteen rounds.

  A block is eight bytes and a key sixteen, each read as 32-bit words, most significant byte first.
 */
module Tea {
  import opened Octets
  import opened Words

  type Key = k: seq<Byte> | |k| == 16 witness [0, 0, 0, 0, 0, 0, 0, 0, 0, 0, 0, 0, 0, 0, 0, 0]

  const DELTA: bv32 := 0x9E3779B9

  const ROUNDS: nat := 16

  // ----- Rounds

  function Mix(x: bv32, sum: bv32, p: bv32, q: bv32): bv32 {
    ((x << 4) + p) ^ (x + sum) ^ ((x >> 5) + q)
  }

  /** What is mixed in, as arithmetic modulo 2^32. */
  lemma {:induction false} MixIs(x: bv32, sum: bv32, p: bv32, q: bv32)
    ensures Mix(x, sum, p, q) == (16 * x + p) ^ (x + sum) ^ (x / 32 + q)
  {
    assert x << 4 == 16 * x;
    assert x >> 5 == x / 32;
    assert (x << 4) + p == 16 * x + p;
    assert (x >> 5) + q == x / 32 + q;
  }

  /** The value of `sum` in round `n`. */
  function Sum(n: nat): bv32 {
    if n == 0 then 0 else Plus(Sum(n - 1), DELTA)
  }

  function Plus(x: bv32, y: bv32): bv32 {
    x + y
  }

  function Minus(x: bv32, y: bv32): bv32 {
    x - y
  }

  lemma {:induction false} AddedTakenOff(x: bv32, y: bv32)
    ensures Minus(x + y, y) == x
  {
    assert (x + y) - y == x;
  }

  lemma {:induction false} TakenOffAdded(x: bv32, y: bv32)
    ensures Plus(x - y, y) == x
  {
    assert (x - y) + y == x;
  }

  lemma {:induction false} PlusMinus(x: bv32, y: bv32)
    ensures Minus(Plus(x, y), y) == x
  {
    AddedTakenOff(x, y);
    assert Plus(x, y) == x + y;
  }

  lemma {:induction false} MinusPlus(x: bv32, y: bv32)
    ensures Plus(Minus(x, y), y) == x
  {
    TakenOffAdded(x, y);
    assert Minus(x, y) == x - y;
  }

  function Step(v: Pair, k: Key, sum: bv32): Pair {
    var y := Plus(v.l, Mix(v.r, sum, WordAt(k, 0), WordAt(k, 4)));
    Pair(y, Plus(v.r, Mix(y, sum, WordAt(k, 8), WordAt(k, 12))))
  }

  function StepBack(v: Pair, k: Key, sum: bv32): Pair {
    var z := Minus(v.r, Mix(v.l, sum, WordAt(k, 8), WordAt(k, 12)));
    Pair(Minus(v.l, Mix(z, sum, WordAt(k, 0), WordAt(k, 4))), z)
  }

  lemma {:induction false} StepInverts(v: Pair, k: Key, sum: bv32)
    ensures StepBack(Step(v, k, sum), k, sum) == v
    ensures Step(StepBack(v, k, sum), k, sum) == v
  {
    var y := Plus(v.l, Mix(v.r, sum, WordAt(k, 0), WordAt(k, 4)));
    PlusMinus(v.r, Mix(y, sum, WordAt(k, 8), WordAt(k, 12)));
    PlusMinus(v.l, Mix(v.r, sum, WordAt(k, 0), WordAt(k, 4)));
    var z := Minus(v.r, Mix(v.l, sum, WordAt(k, 8), WordAt(k, 12)));
    MinusPlus(v.l, Mix(z, sum, WordAt(k, 0), WordAt(k, 4)));
    MinusPlus(v.r, Mix(v.l, sum, WordAt(k, 8), WordAt(k, 12)));
  }

  /** The first `n` rounds; the rounds from `n` back to the first. */
  function Rounds(v: Pair, k: Key, n: nat): Pair
    decreases n
  {
    if n == 0 then v else Step(Rounds(v, k, n - 1), k, Sum(n))
  }

  function RoundsBack(v: Pair, k: Key, n: nat): Pair
    decreases n
  {
    if n == 0 then v else RoundsBack(StepBack(v, k, Sum(n)), k, n - 1)
  }

  lemma {:induction false} RoundsInvert(v: Pair, k: Key, n: nat)
    ensures RoundsBack(Rounds(v, k, n), k, n) == v
    decreases n
  {
    if n > 0 {
      StepInverts(Rounds(v, k, n - 1), k, Sum(n));
      RoundsInvert(v, k, n - 1);
    }
  }

  function Enciphered(v: Block, k: Key): Block {
    Store(Rounds(Load(v), k, ROUNDS))
  }

  function Deciphered(v: Block, k: Key): Block {
    Store(RoundsBack(Load(v), k, ROUNDS))
  }

  /** Sixteen rounds and back, for every block and key. */
  lemma {:induction false} DecipherInverts(v: Block, k: Key)
    ensures Deciphered(Enciphered(v, k), k) == v
  {
    LoadStore(Rounds(Load(v), k, ROUNDS));
    RoundsInvert(Load(v), k, ROUNDS);
    StoreLoad(v);
  }

  /** The constant that decryption starts from is what `sum` comes to after sixteen rounds. */
  lemma {:induction false} FinalSum()
    ensures Sum(ROUNDS) == 0xE3779B90
  {
    assert Sum(4) == 0x78dde6e4;
    assert Sum(8) == 0xf1bbcdc8;
    assert Sum(12) == 0x6a99b4ac;
  }

  /** qq_encipher */
  method Encipher(v: Block, k: Key) returns (w: Block)
    ensures w == Enciphered(v, k)
  {
    var y, z := WordAt(v, 0), WordAt(v, 4);
    var a, b, c, d := WordAt(k, 0), WordAt(k, 4), WordAt(k, 8), WordAt(k, 12);
    var n, sum := ROUNDS, 0;
    while n > 0
      invariant 0 <= n <= ROUNDS && sum == Sum(ROUNDS - n) && Pair(y, z) == Rounds(Load(v), k, ROUNDS - n)
    {
      n := n - 1;
      sum := Plus(sum, DELTA);
      y := Plus(y, Mix(z, sum, a, b));
      z := Plus(z, Mix(y, sum, c, d));
    }
    w := Store(Pair(y, z));
  }

  /** qq_decipher */
  method Decipher(v: Block, k: Key) returns (w: Block)
    ensures w == Deciphered(v, k)
  {
    var y, z := WordAt(v, 0), WordAt(v, 4);
    var a, b, c, d := WordAt(k, 0), WordAt(k, 4), WordAt(k, 8), WordAt(k, 12);
    var n, sum := ROUNDS, 0xE3779B90;
    FinalSum();
    while n > 0
      invariant 0 <= n <= ROUNDS && sum == Sum(n) && RoundsBack(Pair(y, z), k, n) == RoundsBack(Load(v), k, ROUNDS)
    {
      PlusMinus(Sum(n - 1), DELTA);
      n := n - 1;
      z := Minus(z, Mix(y, sum, c, d));
      y := Minus(y, Mix(z, sum, a, b));
      sum := Minus(sum, DELTA);
    }
    w := Store(Pair(y, z));
  }
}
