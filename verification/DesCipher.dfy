/** utils/d3des.c, deskey and des: filling the key register and running the cipher with it. */
module DesCipher {
  import opened Words
  import opened DesRound
  import opened Des

  const BLANK: Keys := [0, 0, 0, 0, 0, 0, 0, 0, 0, 0, 0, 0, 0, 0, 0, 0, 0, 0, 0, 0, 0, 0, 0, 0, 0, 0, 0, 0, 0, 0, 0, 0]

  /** Where the raw key of round `i` goes. */
  function Slot(decrypt: bool, i: nat): (s: nat)
    requires i < ROUNDS
    ensures s < ROUNDS
  {
    if decrypt then 15 - i else i
  }

  lemma {:induction false} PlacedKey(keys: Keys, s: nat, k: Pair, j: nat)
    requires s < ROUNDS && j < ROUNDS
    ensures KeyAt(keys[2 * s := k.l][2 * s + 1 := k.r], j) == if j == s then k else KeyAt(keys, j)
  {
  }

  method KeepBits(key: KeyBytes) returns (pc1m: Bits)
    ensures pc1m == Kept(key)
  {
    pc1m := seq(56, i => false);
    for j := 0 to 56
      invariant forall i :: 0 <= i < j ==> pc1m[i] == Kept(key)[i]
    {
      var l := PC1[j];
      pc1m := pc1m[j := key[l / 8] & BYTEBIT[l % 8] != 0];
    }
  }

  method TurnBits(pc1m: Bits, i: nat) returns (pcr: Bits)
    requires i < 16
    ensures pcr == Turned(pc1m, i)
  {
    pcr := pc1m;
    for j := 0 to 28
      invariant forall h :: 0 <= h < j ==> pcr[h] == Turned(pc1m, i)[h]
    {
      var t: nat := TOTROT[i];
      var l := j + t;
      pcr := pcr[j := if l < 28 then pc1m[l] else pc1m[l - 28]];
    }
    for j := 28 to 56
      invariant forall h :: 0 <= h < j ==> pcr[h] == Turned(pc1m, i)[h]
    {
      var t: nat := TOTROT[i];
      var l := j + t;
      pcr := pcr[j := if l < 56 then pc1m[l] else pc1m[l - 28]];
    }
  }

  method Gather(pcr: Bits) returns (a: bv32, b: bv32)
    ensures a == Gathered(pcr, 0, 24) && b == Gathered(pcr, 24, 24)
  {
    a, b := 0, 0;
    for j := 0 to 24
      invariant a == Gathered(pcr, 0, j) && b == Gathered(pcr, 24, j)
    {
      if pcr[PC2[j]] {
        a := Or(a, BigByte(j));
      }
      if pcr[PC2[j + 24]] {
        b := Or(b, BigByte(j));
      }
    }
  }

  /** cookey */
  method CookKey(raw: Keys) returns (dough: Keys)
    ensures forall j: nat {:trigger KeyAt(dough, j)} :: j < ROUNDS ==> KeyAt(dough, j) == Cooked(KeyAt(raw, j))
  {
    dough := BLANK;
    for i := 0 to ROUNDS
      invariant forall j: nat {:trigger KeyAt(dough, j)} :: j < i ==> KeyAt(dough, j) == Cooked(KeyAt(raw, j))
    {
      var k := Cooked(KeyAt(raw, i));
      ghost var before := dough;
      dough := dough[2 * i := k.l][2 * i + 1 := k.r];
      forall j: nat {:trigger KeyAt(dough, j)} | j <= i ensures KeyAt(dough, j) == Cooked(KeyAt(raw, j)) {
        PlacedKey(before, i, k, j);
      }
    }
  }

  /** The key words of deskey before they are put into the order desfunc takes them in. */
  method RawKeys(key: KeyBytes, decrypt: bool) returns (kn: Keys)
    ensures forall i: nat {:trigger Slot(decrypt, i)} :: i < ROUNDS ==> KeyAt(kn, Slot(decrypt, i)) == Raw(key, i)
  {
    var pc1m := KeepBits(key);
    kn := BLANK;
    for i := 0 to ROUNDS
      invariant forall j: nat {:trigger Slot(decrypt, j)} :: j < i ==> KeyAt(kn, Slot(decrypt, j)) == Raw(key, j)
    {
      var m := Slot(decrypt, i);
      var pcr := TurnBits(pc1m, i);
      var a, b := Gather(pcr);
      ghost var before := kn;
      kn := kn[2 * m := a][2 * m + 1 := b];
      forall j: nat {:trigger Slot(decrypt, j)} | j <= i ensures KeyAt(kn, Slot(decrypt, j)) == Raw(key, j) {
        PlacedKey(before, m, Raw(key, i), Slot(decrypt, j));
      }
    }
  }

  /** The static key register. */
  class Register {
    var knl: Keys

    constructor ()
      ensures knl == BLANK
    {
      knl := BLANK;
    }

    /** deskey */
    method DesKey(key: KeyBytes, decrypt: bool)
      modifies this
      ensures Scheduled(key, decrypt, knl)
    {
      var kn := RawKeys(key, decrypt);
      var dough := CookKey(kn);
      forall j: nat {:trigger KeyAt(dough, j)} | j < ROUNDS
        ensures KeyAt(dough, j) == RoundKey(key, if decrypt then 15 - j else j)
      {
        assert Slot(decrypt, Slot(decrypt, j)) == j;
      }
      knl := dough;
    }

    /** des: scrunch, desfunc, unscrun */
    method Run(sp: Box, inblock: Block) returns (outblock: Block)
      ensures outblock == Enciphered(sp, inblock, knl)
    {
      var work := Load(inblock);
      work := DesFunc(sp, work, knl);
      outblock := Store(work);
    }
  }

  function Enciphered(sp: Box, block: Block, keys: Keys): Block {
    Store(Ciphered(MixBy(sp), Load(block), keys))
  }

  /** For every key, block and S-box contents, the cipher set up to decrypt undoes the cipher set up to encrypt, and
      the other way round. */
  lemma {:induction false} DecryptUndoesEncrypt(sp: Box, key: KeyBytes, block: Block, keys: Keys, other: Keys)
    requires Scheduled(key, false, keys) && Scheduled(key, true, other)
    ensures Enciphered(sp, Enciphered(sp, block, keys), other) == block
    ensures Enciphered(sp, Enciphered(sp, block, other), keys) == block
  {
    SchedulesReversed(key, keys, other);
    var p, f := Load(block), MixBy(sp);
    ReversedKeysInvert(f, p, keys, other);
    ReversedKeysInvert(f, p, other, keys);
    LoadStore(Ciphered(f, p, keys));
    LoadStore(Ciphered(f, p, other));
    StoreLoad(block);
  }

  /** A register set up with a key and mode enciphers and, set up again, deciphers. */
  method EncryptThenDecrypt(reg: Register, sp: Box, key: KeyBytes, block: Block) returns (mid: Block, out: Block)
    modifies reg
    ensures out == block
  {
    reg.DesKey(key, false);
    ghost var keys := reg.knl;
    mid := reg.Run(sp, block);
    reg.DesKey(key, true);
    out := reg.Run(sp, mid);
    DecryptUndoesEncrypt(sp, key, block, keys, reg.knl);
  }
}
