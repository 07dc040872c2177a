/** utils/aes.c: key schedules, and encryption and decryption of one block.

  The schedules are proved to be the key expansion of section 5.2 of FIPS 197 and its equivalent
  for the inverse cipher; decryption under the one then undoes encryption under the other.
 */
module Aes {
  import opened Arith
  import opened Octets
  import opened AesField
  import opened AesRound

  // ----- Key expansion

  function SubWord(box: Box, w: Word): Word {
    Word(box.S(w.b3), box.S(w.b2), box.S(w.b1), box.S(w.b0))
  }

  function RotWord(w: Word): Word {
    Word(w.b2, w.b1, w.b0, w.b3)
  }

  /** Rcon[j] holds x^(j-1) in its first byte. */
  function RconByte(j: nat): bv8 {
    if j <= 1 then 1 else Xtime(RconByte(j - 1))
  }

  function Rcon(j: nat): Word {
    Word(RconByte(j), 0, 0, 0)
  }

  /** Word `i` of the expansion of a key of 4, 6 or 8 words. */
  function KeyWord(box: Box, key: seq<Word>, i: nat): Word
    requires |key| > 0
  {
    if i < |key| then key[i]
    else
      var t, n := KeyWord(box, key, i - 1), |key|;
      XorW(KeyWord(box, key, i - n),
           if i % n == 0 then XorW(SubWord(box, RotWord(t)), Rcon(i / n))
           else if n > 6 && i % n == 4 then SubWord(box, t)
           else t)
  }

  const RCON: seq<bv8> := [0x01, 0x02, 0x04, 0x08, 0x10, 0x20, 0x40, 0x80, 0x1b, 0x36]

  lemma {:induction false} RconTable(i: nat)
    requires i < 10
    ensures RCON[i] == RconByte(i + 1)
  {
    if i > 0 {
      RconTable(i - 1);
      assert RconByte(i + 1) == Xtime(RconByte(i));
      assert RCON[i] == Xtime(RCON[i - 1]);
    }
  }

  /** The first word of a group: rk[0] ^ rotated and substituted `temp` ^ rcon. */
  function GroupWord(box: Box, first: Word, temp: Word, rcon: bv8): Word {
    XorW(XorW(XorW(XorW(XorW(first, Keep3(Te4(box, temp.b2))), Keep2(Te4(box, temp.b1))),
                   Keep1(Te4(box, temp.b0))), Keep0(Te4(box, temp.b3))), Word(rcon, 0, 0, 0))
  }

  /** The middle word of a group of eight: substituted, not rotated. */
  function MiddleWord(box: Box, first: Word, temp: Word): Word {
    XorW(XorW(XorW(XorW(first, Keep3(Te4(box, temp.b3))), Keep2(Te4(box, temp.b2))),
              Keep1(Te4(box, temp.b1))), Keep0(Te4(box, temp.b0)))
  }

  lemma {:induction false} KeptOneByOne(f: Word, p: Word, q: Word, r: Word, s: Word)
    ensures XorW(XorW(XorW(XorW(f, Keep3(p)), Keep2(q)), Keep1(r)), Keep0(s)) == XorW(f, Word(p.b3, q.b2, r.b1, s.b0))
  {
    XorZero(f.b2); XorZero(f.b1); XorZero(f.b0);
    XorZero(Xor(f.b3, p.b3)); XorZero(Xor(f.b2, q.b2)); XorZero(Xor(f.b1, r.b1));
  }

  lemma {:induction false} GroupWordIs(box: Box, first: Word, temp: Word, rcon: bv8)
    ensures GroupWord(box, first, temp, rcon) == XorW(first, XorW(SubWord(box, RotWord(temp)), Word(rcon, 0, 0, 0)))
  {
    var u := SubWord(box, RotWord(temp));
    KeptOneByOne(first, Te4(box, temp.b2), Te4(box, temp.b1), Te4(box, temp.b0), Te4(box, temp.b3));
    XorAssoc(first.b3, u.b3, rcon);
    XorAssoc(first.b2, u.b2, 0);
    XorAssoc(first.b1, u.b1, 0);
    XorAssoc(first.b0, u.b0, 0);
  }

  lemma {:induction false} MiddleWordIs(box: Box, first: Word, temp: Word)
    ensures MiddleWord(box, first, temp) == XorW(first, SubWord(box, temp))
  {
    KeptOneByOne(first, Te4(box, temp.b3), Te4(box, temp.b2), Te4(box, temp.b1), Te4(box, temp.b0));
  }

  /** GETU32 and PUTU32. */
  function GetWord(s: seq<bv8>, i: nat): Word
    requires i + 4 <= |s|
  {
    Word(s[i], s[i + 1], s[i + 2], s[i + 3])
  }

  function Bytes(w: Word): seq<bv8> {
    [w.b3, w.b2, w.b1, w.b0]
  }

  function UserWords(userKey: seq<bv8>, n: nat): (w: seq<Word>)
    requires 4 * n <= |userKey|
    ensures |w| == n
  {
    seq(n, i requires 0 <= i < n => GetWord(userKey, 4 * i))
  }

  ghost predicate Expanded(box: Box, key: seq<Word>, rk: seq<Word>, n: nat)
    requires |key| > 0
  {
    n <= |rk| && forall j :: 0 <= j < n ==> rk[j] == KeyWord(box, key, j)
  }

  /** The whole encryption schedule for a key of 4, 6 or 8 words: 10, 12 or 14 rounds. */
  ghost function EncSchedule(box: Box, key: seq<Word>): (ek: seq<Word>)
    requires |key| > 0
    ensures |ek| == 4 * |key| + 28 && Expanded(box, key, ek, |ek|)
  {
    seq(4 * |key| + 28, i requires 0 <= i => KeyWord(box, key, i))
  }

  class AesKey {
    const rk: array<Word>
    var rounds: int

    constructor ()
      ensures rk.Length == 60 && fresh(rk)
    {
      rk := new Word[60](_ => Word(0, 0, 0, 0));
      rounds := 0;
    }

    /** The part of the array that is in use. */
    ghost function Words(): seq<Word>
      reads this, rk
      requires rk.Length == 60 && 0 <= rounds <= 14
    {
      rk[..4 * rounds + 4]
    }

    method Put(box: Box, ghost key: seq<Word>, b: nat, w: Word)
      requires |key| > 0 && b < rk.Length && Expanded(box, key, rk[..], b) && w == KeyWord(box, key, b)
      modifies rk
      ensures Expanded(box, key, rk[..], b + 1)
    {
      ghost var before := rk[..];
      rk[b] := w;
      assert rk[..] == before[b := w];
    }

    /** Four words: the first from the last one before, the others by chaining. */
    method Group(box: Box, ghost key: seq<Word>, i: nat, n: nat)
      requires rk.Length == 60 && |key| == n && 4 <= n <= 8 && i < 10 && n * i + n + 4 <= 60
      requires Expanded(box, key, rk[..], n * i + n)
      modifies rk
      ensures Expanded(box, key, rk[..], n * i + n + 4)
    {
      var o := n * i;
      GroupIndex(n, i, 0);
      GroupIndex(n, i, 1);
      GroupIndex(n, i, 2);
      GroupIndex(n, i, 3);
      First(box, key, o + n, i, n);
      Chain(box, key, o + n + 1, n);
      Chain(box, key, o + n + 2, n);
      Chain(box, key, o + n + 3, n);
    }

    /** The first word of a group, with the round constant. */
    method First(box: Box, ghost key: seq<Word>, b: nat, i: nat, n: nat)
      requires |key| == n && 0 < n <= b < rk.Length && Expanded(box, key, rk[..], b)
      requires i < 10 && b % n == 0 && b / n == i + 1
      modifies rk
      ensures Expanded(box, key, rk[..], b + 1)
    {
      FirstOfGroup(box, key, b, i);
      Put(box, key, b, GroupWord(box, rk[b - n], rk[b - 1], RCON[i]));
    }

    method Chain(box: Box, ghost key: seq<Word>, b: nat, n: nat)
      requires |key| == n && 0 < n <= b < rk.Length && Expanded(box, key, rk[..], b)
      requires b % n != 0 && (n > 6 ==> b % n != 4)
      modifies rk
      ensures Expanded(box, key, rk[..], b + 1)
    {
      Put(box, key, b, XorW(rk[b - n], rk[b - 1]));
    }

    /** AES_set_encrypt_key. */
    method SetEncryptKey(box: Box, userKey: seq<bv8>, bits: int) returns (status: int)
      requires rk.Length == 60
      requires bits in {128, 192, 256} ==> 8 * |userKey| >= bits
      modifies this, rk
      ensures bits !in {128, 192, 256} ==> status == -2 && rk[..] == old(rk[..]) && rounds == old(rounds)
      ensures bits in {128, 192, 256} ==>
                && status == 0 && rounds == bits / 32 + 6
                && Words() == EncSchedule(box, UserWords(userKey, bits / 32))
    {
      if bits != 128 && bits != 192 && bits != 256 {
        return -2;
      }
      if bits == 128 {
        rounds := 10;
      } else if bits == 192 {
        rounds := 12;
      } else {
        rounds := 14;
      }
      var n := bits / 32;
      ghost var key := UserWords(userKey, n);
      var j := 0;
      while j < n
        invariant 0 <= j <= n && Expanded(box, key, rk[..], j)
        invariant rounds == n + 6
        modifies rk
      {
        Put(box, key, j, GetWord(userKey, 4 * j));
        j := j + 1;
      }
      if bits == 128 {
        Expand128(box, key);
      } else if bits == 192 {
        Expand192(box, key);
      } else {
        Expand256(box, key);
      }
      assert Words() == EncSchedule(box, key);
      return 0;
    }

    method Expand128(box: Box, ghost key: seq<Word>)
      requires rk.Length == 60 && |key| == 4 && Expanded(box, key, rk[..], 4)
      modifies rk
      ensures Expanded(box, key, rk[..], 44)
    {
      var i := 0;
      while i < 10
        invariant 0 <= i <= 10 && Expanded(box, key, rk[..], 4 * i + 4)
      {
        Group(box, key, i, 4);
        i := i + 1;
      }
    }

    method Expand192(box: Box, ghost key: seq<Word>)
      requires rk.Length == 60 && |key| == 6 && Expanded(box, key, rk[..], 6)
      modifies rk
      ensures Expanded(box, key, rk[..], 52)
    {
      var i := 0;
      while true
        invariant 0 <= i < 8 && Expanded(box, key, rk[..], 6 * i + 6)
        decreases 8 - i
      {
        Group(box, key, i, 6);
        if i + 1 == 8 {
          return;
        }
        GroupIndex(6, i, 4);
        GroupIndex(6, i, 5);
        Chain(box, key, 6 * i + 10, 6);
        Chain(box, key, 6 * i + 11, 6);
        i := i + 1;
      }
    }

    method Expand256(box: Box, ghost key: seq<Word>)
      requires rk.Length == 60 && |key| == 8 && Expanded(box, key, rk[..], 8)
      modifies rk
      ensures Expanded(box, key, rk[..], 60)
    {
      var i := 0;
      while true
        invariant 0 <= i < 7 && Expanded(box, key, rk[..], 8 * i + 8)
        decreases 7 - i
      {
        Group(box, key, i, 8);
        if i + 1 == 7 {
          return;
        }
        GroupIndex(8, i, 4);
        GroupIndex(8, i, 5);
        GroupIndex(8, i, 6);
        GroupIndex(8, i, 7);
        MiddleWordIs(box, rk[8 * i + 4], rk[8 * i + 11]);
        Put(box, key, 8 * i + 12, MiddleWord(box, rk[8 * i + 4], rk[8 * i + 11]));
        Chain(box, key, 8 * i + 13, 8);
        Chain(box, key, 8 * i + 14, 8);
        Chain(box, key, 8 * i + 15, 8);
        i := i + 1;
      }
    }

    /** Exchanges two round keys, word by word. */
    method SwapRounds(p: nat, q: nat)
      requires rk.Length == 60 && p < q < 15
      modifies rk
      ensures Round(rk[..], p) == old(Round(rk[..], q)) && Round(rk[..], q) == old(Round(rk[..], p))
      ensures forall r: nat :: r < 15 && r != p && r != q ==> Round(rk[..], r) == old(Round(rk[..], r))
    {
      ghost var b := rk[..];
      for c := 0 to 4
        invariant Exchanging(b, rk[..], p, q, c)
      {
        var temp := rk[4 * p + c];
        rk[4 * p + c] := rk[4 * q + c];
        rk[4 * q + c] := temp;
      }
      Exchanged(b, rk[..], p, q);
    }

    /** Inverts the order of the round keys. */
    method ReverseRounds()
      requires rk.Length == 60 && 0 <= rounds <= 14
      modifies rk
      ensures forall r: nat :: r <= rounds ==> Round(rk[..], r) == old(Round(rk[..], rounds - r))
    {
      var i, j := 0, rounds;
      while i < j
        invariant 0 <= i <= j + 1 && i + j == rounds
        invariant forall r: nat :: r <= rounds && (r < i || r > j) ==>
                    Round(rk[..], r) == old(Round(rk[..], rounds - r))
        invariant forall r: nat :: i <= r <= j ==> Round(rk[..], r) == old(Round(rk[..], r))
      {
        SwapRounds(i, j);
        i, j := i + 1, j - 1;
      }
    }

    method MixRound(box: Box, r: nat, ghost mix: State -> State)
      requires rk.Length == 60 && r < 15 && Inverse(box) && IsInvMix(mix)
      modifies rk
      ensures Round(rk[..], r) == mix(old(Round(rk[..], r)))
      ensures forall q: nat :: q < 15 && q != r ==> Round(rk[..], q) == old(Round(rk[..], q))
    {
      ghost var b := rk[..];
      for c := 0 to 4
        invariant forall k :: 0 <= k < 60 && !(4 * r <= k < 4 * r + c) ==> rk[k] == b[k]
        invariant forall k :: 4 * r <= k < 4 * r + c ==> rk[k] == InvMix(b[k])
      {
        KeyWordIsInvMix(box, rk[4 * r + c]);
        rk[4 * r + c] := KeyWordMixed(box, rk[4 * r + c]);
      }
      assert Round(rk[..], r) == InvMixS(Round(b, r));
      forall q: nat | q < 15 && q != r ensures Round(rk[..], q) == Round(b, q) {
        assert rk[4 * q] == b[4 * q] && rk[4 * q + 1] == b[4 * q + 1];
        assert rk[4 * q + 2] == b[4 * q + 2] && rk[4 * q + 3] == b[4 * q + 3];
      }
    }

    /** AES_set_decrypt_key: the encryption schedule backwards, its inner round keys unmixed. */
    method SetDecryptKey(box: Box, userKey: seq<bv8>, bits: int) returns (status: int)
      requires rk.Length == 60 && Inverse(box)
      requires bits in {128, 192, 256} ==> 8 * |userKey| >= bits
      modifies this, rk
      ensures bits !in {128, 192, 256} ==> status == -2 && rk[..] == old(rk[..]) && rounds == old(rounds)
      ensures bits in {128, 192, 256} ==>
                && status == 0 && rounds == bits / 32 + 6
                && Unmixed(k => InvMixS(k), EncSchedule(box, UserWords(userKey, bits / 32)), Words(), rounds)
    {
      status := SetEncryptKey(box, userKey, bits);
      if status < 0 {
        return;
      }
      Invert(box, k => InvMixS(k));
    }

    method Invert(box: Box, ghost mix: State -> State)
      requires rk.Length == 60 && 1 <= rounds <= 14 && Inverse(box) && IsInvMix(mix)
      modifies rk
      ensures Unmixed(mix, old(Words()), Words(), rounds)
    {
      ghost var ek, before := Words(), rk[..];
      assert forall r: nat :: r <= rounds ==> Round(ek, r) == Round(before, r);
      ReverseRounds();
      UnmixInner(box, mix, ek);
      assert forall r: nat :: r <= rounds ==> Round(Words(), r) == Round(rk[..], r);
    }

    /** The inverse MixColumn transform on all round keys but the first and the last. */
    method UnmixInner(box: Box, ghost mix: State -> State, ghost ek: seq<Word>)
      requires rk.Length == 60 && 1 <= rounds <= 14 && Inverse(box) && IsInvMix(mix) && |ek| == 4 * rounds + 4
      requires forall r: nat :: r <= rounds ==> Round(rk[..], r) == Round(ek, rounds - r)
      modifies rk
      ensures forall r: nat :: r <= rounds ==>
                Round(rk[..], r) == if 0 < r < rounds then mix(Round(ek, rounds - r)) else Round(ek, rounds - r)
    {
      var i := 1;
      while i < rounds
        invariant 1 <= i <= rounds
        invariant forall r: nat :: r <= rounds ==>
                    Round(rk[..], r) == if 0 < r < i then mix(Round(ek, rounds - r)) else Round(ek, rounds - r)
      {
        MixRound(box, i, mix);
        i := i + 1;
      }
    }

    // ----- Blocks

    /** The rounds `f` on one block; `input` and `out` may be the same array. */
    method RunBlock(f: Rounds, input: array<bv8>, out: array<bv8>)
      requires rk.Length == 60 && 2 <= rounds <= 14 && rounds % 2 == 0
      requires input.Length == 16 && out.Length == 16
      modifies out
      ensures out[..] == OnBlock(f, Words(), rounds, old(input[..]))
    {
      var x := StateOf(input[..]);
      var y := RunRounds(f, rk[..4 * rounds + 4], rounds, x);
      PutState(out, y);
    }

    /** AES_encrypt */
    method Encrypt(box: Box, input: array<bv8>, out: array<bv8>)
      requires rk.Length == 60 && 2 <= rounds <= 14 && rounds % 2 == 0
      requires input.Length == 16 && out.Length == 16
      modifies out
      ensures out[..] == OnBlock(EncRounds(box), Words(), rounds, old(input[..]))
    {
      RunBlock(EncRounds(box), input, out);
    }

    /** AES_decrypt */
    method Decrypt(box: Box, input: array<bv8>, out: array<bv8>)
      requires rk.Length == 60 && 2 <= rounds <= 14 && rounds % 2 == 0
      requires input.Length == 16 && out.Length == 16
      modifies out
      ensures out[..] == OnBlock(DecRounds(box), Words(), rounds, old(input[..]))
    {
      RunBlock(DecRounds(box), input, out);
    }
  }

  /** The first `c` words of two round keys have changed places. */
  ghost predicate Exchanging(b: seq<Word>, w: seq<Word>, p: nat, q: nat, c: nat) {
    && |b| == |w| == 60
    && (forall k :: 0 <= k < 60 && !(4 * p <= k < 4 * p + c) && !(4 * q <= k < 4 * q + c) ==> w[k] == b[k])
    && (forall k :: 4 * p <= k < 4 * p + c && 0 <= k + 4 * (q - p) < 60 && k < 60 ==> w[k] == b[k + 4 * (q - p)])
    && (forall k :: 4 * q <= k < 4 * q + c && 0 <= k - 4 * (q - p) < 60 && k < 60 ==> w[k] == b[k - 4 * (q - p)])
  }

  lemma {:induction false} Exchanged(b: seq<Word>, w: seq<Word>, p: nat, q: nat)
    requires p < q < 15 && Exchanging(b, w, p, q, 4)
    ensures Round(w, p) == Round(b, q) && Round(w, q) == Round(b, p)
    ensures forall r: nat :: r < 15 && r != p && r != q ==> Round(w, r) == Round(b, r)
  {
    forall r: nat | r < 15 && r != p && r != q ensures Round(w, r) == Round(b, r) {
      assert w[4 * r] == b[4 * r] && w[4 * r + 1] == b[4 * r + 1];
      assert w[4 * r + 2] == b[4 * r + 2] && w[4 * r + 3] == b[4 * r + 3];
    }
  }

  lemma {:induction false} GroupIndex(n: nat, i: nat, r: nat)
    requires r < n
    ensures (n * i + n + r) % n == r && (n * i + n + r) / n == i + 1
  {
    assert n * i + n == n * (i + 1);
    DivUnique(n * i + n + r, n, i + 1, r);
  }

  lemma {:induction false} FirstOfGroup(box: Box, key: seq<Word>, b: nat, i: nat)
    requires 0 < |key| <= b && i < 10 && b % |key| == 0 && b / |key| == i + 1
    ensures KeyWord(box, key, b)
         == GroupWord(box, KeyWord(box, key, b - |key|), KeyWord(box, key, b - 1), RCON[i])
  {
    RconTable(i);
    GroupWordIs(box, KeyWord(box, key, b - |key|), KeyWord(box, key, b - 1), RCON[i]);
  }

  // ----- The cipher

  function Round(rk: seq<Word>, r: nat): State
    requires 4 * r + 4 <= |rk|
  {
    State(rk[4 * r], rk[4 * r + 1], rk[4 * r + 2], rk[4 * r + 3])
  }

  function StateOf(s: seq<bv8>): State
    requires |s| == 16
  {
    State(GetWord(s, 0), GetWord(s, 4), GetWord(s, 8), GetWord(s, 12))
  }

  function StateBytes(x: State): (s: seq<bv8>)
    ensures |s| == 16 && StateOf(s) == x
  {
    Bytes(x.s0) + Bytes(x.s1) + Bytes(x.s2) + Bytes(x.s3)
  }

  method PutState(out: array<bv8>, x: State)
    requires out.Length == 16
    modifies out
    ensures out[..] == StateBytes(x)
  {
    var s := StateBytes(x);
    for i := 0 to 16
      invariant forall j :: 0 <= j < i ==> out[j] == s[j]
    {
      out[i] := s[i];
    }
  }

  /** What a full round and the last round do to a state, given a round key. */
  datatype Rounds = Rounds(full: (State, State) -> State, last: (State, State) -> State)

  function EncRounds(box: Box): Rounds {
    Rounds((x, k) => EncRound(box, x, k), (x, k) => EncLast(box, x, k))
  }

  function DecRounds(box: Box): Rounds {
    Rounds((x, k) => DecRound(box, x, k), (x, k) => DecLast(box, x, k))
  }

  /** The state after the initial key addition and `r` full rounds. */
  function After(f: Rounds, rk: seq<Word>, x: State, r: nat): State
    requires 4 * r + 4 <= |rk|
  {
    if r == 0 then XorS(x, Round(rk, 0)) else f.full(After(f, rk, x, r - 1), Round(rk, r))
  }

  function Cipher(f: Rounds, rk: seq<Word>, rounds: nat, x: State): State
    requires rounds > 0 && 4 * rounds + 4 <= |rk|
  {
    f.last(After(f, rk, x, rounds - 1), Round(rk, rounds))
  }

  /** The round loop that AES_encrypt and AES_decrypt share: two rounds to a turn. */
  method RunRounds(f: Rounds, rk: seq<Word>, rounds: nat, x: State) returns (y: State)
    requires 2 <= rounds && rounds % 2 == 0 && 4 * rounds + 4 <= |rk|
    ensures y == Cipher(f, rk, rounds, x)
  {
    var s := XorS(x, Round(rk, 0));
    var t, o, r := s, 0, rounds / 2;
    while true
      invariant 1 <= r && o + 2 * r == rounds && 0 <= o && s == After(f, rk, x, o)
      decreases r
    {
      t := f.full(s, Round(rk, o + 1));
      o, r := o + 2, r - 1;
      if r == 0 {
        break;
      }
      s := f.full(t, Round(rk, o));
    }
    y := f.last(t, Round(rk, o));
  }

  ghost predicate IsInvMix(mix: State -> State) {
    forall k {:trigger InvMixS(k)} :: mix(k) == InvMixS(k)
  }

  /** The schedule of the equivalent inverse cipher (section 5.3.5 of FIPS 197). */
  ghost predicate Unmixed(mix: State -> State, ek: seq<Word>, dk: seq<Word>, rounds: nat)
    requires 4 * rounds + 4 <= |ek| && 4 * rounds + 4 <= |dk|
  {
    forall r: nat :: r <= rounds ==>
      Round(dk, r) == if 0 < r < rounds then mix(Round(ek, rounds - r)) else Round(ek, rounds - r)
  }

  /** What makes one set of rounds undo another: `sub` is the state between two key additions. */
  ghost predicate Undo(enc: Rounds, dec: Rounds, sub: State -> State, mix: State -> State) {
    && (forall x, k :: dec.full(sub(enc.full(x, k)), mix(k)) == sub(x))
    && (forall x, k :: XorS(enc.last(x, k), k) == sub(x))
    && (forall x, k :: dec.last(sub(x), k) == XorS(x, k))
  }

  /** After `j` decryption rounds the state is where encryption stood `j` rounds before the end. */
  lemma {:induction false} Backwards(enc: Rounds, dec: Rounds, sub: State -> State, mix: State -> State,
                                     ek: seq<Word>, dk: seq<Word>, rounds: nat, x: State, j: nat)
    requires Undo(enc, dec, sub, mix) && j < rounds
    requires 4 * rounds + 4 <= |ek| && 4 * rounds + 4 <= |dk| && Unmixed(mix, ek, dk, rounds)
    ensures After(dec, dk, Cipher(enc, ek, rounds, x), j) == sub(After(enc, ek, x, rounds - 1 - j))
  {
    if j == 0 {
      assert Round(dk, 0) == Round(ek, rounds);
    } else {
      Backwards(enc, dec, sub, mix, ek, dk, rounds, x, j - 1);
      assert Round(dk, j) == mix(Round(ek, rounds - j));
    }
  }

  lemma {:induction false} CipherUndone(enc: Rounds, dec: Rounds, sub: State -> State, mix: State -> State,
                                        ek: seq<Word>, dk: seq<Word>, rounds: nat, x: State)
    requires Undo(enc, dec, sub, mix) && rounds > 0
    requires 4 * rounds + 4 <= |ek| && 4 * rounds + 4 <= |dk| && Unmixed(mix, ek, dk, rounds)
    ensures Cipher(dec, dk, rounds, Cipher(enc, ek, rounds, x)) == x
  {
    Backwards(enc, dec, sub, mix, ek, dk, rounds, x, rounds - 1);
    assert Round(dk, rounds) == Round(ek, 0);
    XorSUndo(x, Round(ek, 0));
  }

  lemma {:induction false} RoundsUndo(box: Box)
    requires Inverse(box)
    ensures Undo(EncRounds(box), DecRounds(box), x => SubShift(box, x), k => InvMixS(k))
  {
    forall x, k ensures DecRound(box, SubShift(box, EncRound(box, x, k)), InvMixS(k)) == SubShift(box, x) {
      RoundUndone(box, x, k);
    }
    forall x, k ensures XorS(EncLast(box, x, k), k) == SubShift(box, x) {
      EncRoundParts(box, x, k);
      XorSUndo(SubShift(box, x), k);
    }
    forall x, k ensures DecLast(box, SubShift(box, x), k) == XorS(x, k) {
      DecRoundParts(box, SubShift(box, x), k);
      InvSubShiftUndoes(box, x);
    }
  }

  lemma {:induction false} BytesOfState(block: seq<bv8>)
    requires |block| == 16
    ensures StateBytes(StateOf(block)) == block
  {
    var s := StateBytes(StateOf(block));
    assert s[..4] == block[..4] && s[4..8] == block[4..8] && s[8..12] == block[8..12] && s[12..] == block[12..];
    assert s == s[..4] + s[4..8] + s[8..12] + s[12..] && block == block[..4] + block[4..8] + block[8..12] + block[12..];
  }

  /** Encrypting or decrypting one block of sixteen bytes. */
  function OnBlock(f: Rounds, rk: seq<Word>, rounds: nat, block: seq<bv8>): (out: seq<bv8>)
    requires rounds > 0 && 4 * rounds + 4 <= |rk| && |block| == 16
    ensures |out| == 16
  {
    StateBytes(Cipher(f, rk, rounds, StateOf(block)))
  }

  lemma {:induction false} BlockUndone(enc: Rounds, dec: Rounds, sub: State -> State, mix: State -> State,
                                       ek: seq<Word>, dk: seq<Word>, rounds: nat, block: seq<bv8>)
    requires Undo(enc, dec, sub, mix) && rounds > 0 && |block| == 16
    requires 4 * rounds + 4 <= |ek| && 4 * rounds + 4 <= |dk| && Unmixed(mix, ek, dk, rounds)
    ensures OnBlock(dec, dk, rounds, OnBlock(enc, ek, rounds, block)) == block
  {
    CipherUndone(enc, dec, sub, mix, ek, dk, rounds, StateOf(block));
    BytesOfState(block);
  }

  /** Under the two schedules of one key of any size, decryption undoes encryption of every block. */
  lemma {:induction false} DecryptUndoesEncrypt(box: Box, key: seq<Word>, dk: seq<Word>, block: seq<bv8>)
    requires Inverse(box) && |key| in {4, 6, 8} && |block| == 16
    requires |dk| == 4 * |key| + 28 && Unmixed(k => InvMixS(k), EncSchedule(box, key), dk, |key| + 6)
    ensures var ek, rounds := EncSchedule(box, key), |key| + 6;
            OnBlock(DecRounds(box), dk, rounds, OnBlock(EncRounds(box), ek, rounds, block)) == block
  {
    var ek, rounds := EncSchedule(box, key), |key| + 6;
    RoundsUndo(box);
    BlockUndone(EncRounds(box), DecRounds(box), x => SubShift(box, x), k => InvMixS(k), ek, dk, rounds, block);
  }
}
