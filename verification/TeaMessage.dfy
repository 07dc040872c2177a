/** utils/tea.c, qq_encrypt and qq_decrypt: messages of any length, chained both ways and padded at both ends.

  Block i of the padded text is combined with ciphertext block i - 1 before it is enciphered, and with the
  combined block i - 1 afterwards.  The bytes that the source draws from rand() are parameters.
 */
module TeaMessage {
  import opened Octets
  import opened Words
  import opened Tea

  const ZERO: Block := [0, 0, 0, 0, 0, 0, 0, 0]

  function Xor8(a: Block, b: Block): (r: Block) {
    seq(8, i requires 0 <= i < 8 => Xor(a[i], b[i]))
  }

  lemma {:induction false} Xor8Twice(a: Block, b: Block)
    ensures Xor8(Xor8(a, b), b) == a && Xor8(a, b) == Xor8(b, a) && Xor8(a, ZERO) == a
  {
    forall i | 0 <= i < 8
      ensures Xor(Xor(a[i], b[i]), b[i]) == a[i] && Xor(a[i], b[i]) == Xor(b[i], a[i]) && Xor(a[i], 0) == a[i]
    {
      XorUndo(a[i], b[i]);
      XorComm(a[i], b[i]);
      XorZero(a[i]);
    }
  }

  function Part(p: seq<Byte>, i: nat): Block
    requires 8 * i + 8 <= |p|
  {
    p[8 * i..8 * i + 8]
  }

  // ----- Chaining, for any block cipher `f` with inverse `g`

  function Mixed(p: seq<Byte>, f: Block -> Block, i: nat): Block
    requires 8 * i + 8 <= |p|
    decreases i, 1
  {
    Xor8(Part(p, i), CryptBefore(p, f, i))
  }

  function Crypt(p: seq<Byte>, f: Block -> Block, i: nat): Block
    requires 8 * i + 8 <= |p|
    decreases i, 2
  {
    Xor8(f(Mixed(p, f, i)), MixedBefore(p, f, i))
  }

  function CryptBefore(p: seq<Byte>, f: Block -> Block, i: nat): Block
    requires 8 * i <= |p|
    decreases i, 0
  {
    if i == 0 then ZERO else Crypt(p, f, i - 1)
  }

  function MixedBefore(p: seq<Byte>, f: Block -> Block, i: nat): Block
    requires 8 * i <= |p|
    decreases i, 0
  {
    if i == 0 then ZERO else Mixed(p, f, i - 1)
  }

  /** Blocks put together. */
  function Joined(b: nat -> Block, n: nat): (s: seq<Byte>)
    ensures |s| == 8 * n
  {
    if n == 0 then [] else Joined(b, n - 1) + b(n - 1)
  }

  lemma {:induction false} JoinedPart(b: nat -> Block, n: nat, i: nat)
    requires i < n
    ensures Part(Joined(b, n), i) == b(i)
    decreases n
  {
    var s := Joined(b, n - 1);
    if i == n - 1 {
      assert (s + b(i))[8 * i..8 * i + 8] == b(i);
    } else {
      JoinedPart(b, n - 1, i);
      assert (s + b(n - 1))[8 * i..8 * i + 8] == s[8 * i..8 * i + 8];
    }
  }

  lemma {:induction false} JoinedParts(p: seq<Byte>, b: nat -> Block, n: nat)
    requires 8 * n <= |p| && forall i: nat {:trigger b(i)} :: i < n ==> b(i) == Part(p, i)
    ensures Joined(b, n) == p[..8 * n]
  {
    if n > 0 {
      JoinedParts(p, b, n - 1);
      assert b(n - 1) == Part(p, n - 1);
      assert p[..8 * n] == p[..8 * (n - 1)] + p[8 * (n - 1)..8 * n];
    }
  }

  /** Block `i` of the ciphertext, if the text reaches that far. */
  function CryptAt(p: seq<Byte>, f: Block -> Block, i: nat): Block {
    if 8 * i + 8 <= |p| then Crypt(p, f, i) else ZERO
  }

  /** The first `n` blocks of ciphertext. */
  function Cipher(p: seq<Byte>, f: Block -> Block, n: nat): (c: seq<Byte>)
    ensures |c| == 8 * n
  {
    Joined((i: nat) => CryptAt(p, f, i), n)
  }

  lemma {:induction false} CipherPart(p: seq<Byte>, f: Block -> Block, n: nat, i: nat)
    requires 8 * n <= |p| && i < n
    ensures Part(Cipher(p, f, n), i) == Crypt(p, f, i)
  {
    JoinedPart((i: nat) => CryptAt(p, f, i), n, i);
  }

  function Unmixed(c: seq<Byte>, g: Block -> Block, i: nat): Block
    requires 8 * i + 8 <= |c|
  {
    if i == 0 then g(Part(c, 0)) else g(Xor8(Unmixed(c, g, i - 1), Part(c, i)))
  }

  function PartBefore(c: seq<Byte>, i: nat): Block
    requires 8 * i <= |c|
  {
    if i == 0 then ZERO else Part(c, i - 1)
  }

  function PlainPart(c: seq<Byte>, g: Block -> Block, i: nat): Block
    requires 8 * i + 8 <= |c|
  {
    Xor8(PartBefore(c, i), Unmixed(c, g, i))
  }

  function PlainAt(c: seq<Byte>, g: Block -> Block, i: nat): Block {
    if 8 * i + 8 <= |c| then PlainPart(c, g, i) else ZERO
  }

  /** The first `n` blocks of text. */
  function Plain(c: seq<Byte>, g: Block -> Block, n: nat): (p: seq<Byte>)
    ensures |p| == 8 * n
  {
    Joined((i: nat) => PlainAt(c, g, i), n)
  }

  ghost predicate Undoes(g: Block -> Block, f: Block -> Block) {
    forall x {:trigger f(x)} :: g(f(x)) == x
  }

  lemma {:induction false} UnmixedCipher(p: seq<Byte>, f: Block -> Block, g: Block -> Block, n: nat, i: nat)
    requires 8 * n <= |p| && i < n && Undoes(g, f)
    ensures Unmixed(Cipher(p, f, n), g, i) == Mixed(p, f, i)
    decreases i
  {
    var x := Mixed(p, f, i);
    CipherPart(p, f, n, i);
    Xor8Twice(f(x), MixedBefore(p, f, i));
    if i > 0 {
      UnmixedCipher(p, f, g, n, i - 1);
      Xor8Twice(Mixed(p, f, i - 1), Crypt(p, f, i));
    }
  }

  /** Undoing the chain block by block. */
  lemma {:induction false} PlainCipherPart(p: seq<Byte>, f: Block -> Block, g: Block -> Block, n: nat, i: nat)
    requires 8 * n <= |p| && i < n && Undoes(g, f)
    ensures PlainPart(Cipher(p, f, n), g, i) == Part(p, i)
  {
    var c := Cipher(p, f, n);
    UnmixedCipher(p, f, g, n, i);
    if i > 0 {
      CipherPart(p, f, n, i - 1);
    }
    assert PartBefore(c, i) == CryptBefore(p, f, i);
    Xor8Twice(Part(p, i), CryptBefore(p, f, i));
    Xor8Twice(CryptBefore(p, f, i), Mixed(p, f, i));
  }

  /** The chain is undone, whatever the text. */
  lemma {:induction false} PlainCipher(p: seq<Byte>, f: Block -> Block, g: Block -> Block, n: nat)
    requires |p| == 8 * n && Undoes(g, f)
    ensures Plain(Cipher(p, f, n), g, n) == p
  {
    var c := Cipher(p, f, n);
    var b := (i: nat) => PlainAt(c, g, i);
    forall i: nat {:trigger b(i)} | i < n ensures b(i) == Part(p, i) {
      PlainCipherPart(p, f, g, n, i);
    }
    JoinedParts(p, b, n);
    assert p[..8 * n] == p;
  }

  function Enc(k: Key): Block -> Block {
    (x: Block) => Enciphered(x, k)
  }

  function Dec(k: Key): Block -> Block {
    (x: Block) => Deciphered(x, k)
  }

  lemma {:induction false} DecUndoesEnc(k: Key)
    ensures Undoes(Dec(k), Enc(k))
  {
    forall x {:trigger Enc(k)(x)} ensures Dec(k)(Enc(k)(x)) == x {
      DecipherInverts(x, k);
    }
  }

  // ----- Padding

  function PadLength(n: nat): (p: nat)
    ensures p < 8 && (n + 10 + p) % 8 == 0
  {
    if (n + 10) % 8 == 0 then 0 else 8 - (n + 10) % 8
  }

  function Bits(p: nat): Byte
    requires p < 8
  {
    if p == 0 then 0 else if p == 1 then 1 else if p == 2 then 2 else if p == 3 then 3
    else if p == 4 then 4 else if p == 5 then 5 else if p == 6 then 6 else 7
  }

  function Low3(b: Byte): (p: nat)
    ensures p < 8
  {
    var x := b & 7;
    if x == 0 then 0 else if x == 1 then 1 else if x == 2 then 2 else if x == 3 then 3
    else if x == 4 then 4 else if x == 5 then 5 else if x == 6 then 6 else 7
  }

  function Header(r: Byte, p: nat): Byte
    requires p < 8
  {
    (r & 0xf8) | Bits(p)
  }

  lemma {:induction false} LowBits(r: Byte, x: Byte)
    requires x & 7 == x
    ensures ((r & 0xf8) | x) & 7 == x
  {
  }

  lemma {:induction false} HeaderKeepsPad(r: Byte, p: nat)
    requires p < 8
    ensures Low3(Header(r, p)) == p
  {
    LowBits(r, Bits(p));
  }

  function Fill(b: Byte, n: nat): (s: seq<Byte>)
    ensures |s| == n && forall i :: 0 <= i < n ==> s[i] == b
  {
    if n == 0 then [] else Fill(b, n - 1) + [b]
  }

  /** Header byte, padding, two more bytes, the message, seven zeros. */
  function Padded(msg: seq<Byte>, r0: Byte, r1: Byte, r2: Byte, r3: Byte): (s: seq<Byte>)
  {
    [Header(r0, PadLength(|msg|))] + Fill(r1, PadLength(|msg|)) + [r2, r3] + msg + Fill(0, 7)
  }

  lemma {:induction false} PaddedLength(msg: seq<Byte>, r0: Byte, r1: Byte, r2: Byte, r3: Byte)
    ensures |Padded(msg, r0, r1, r2, r3)| == |msg| + 10 + PadLength(|msg|)
  {
  }

  lemma {:induction false} BlockCount(n: nat)
    ensures n + 10 + PadLength(n) == 8 * ((n + 10 + PadLength(n)) / 8) == 8 * ((n + 17) / 8)
  {
  }

  /** The ciphertext of a message, given the bytes drawn. */
  function Sealed(msg: seq<Byte>, k: Key, r0: Byte, r1: Byte, r2: Byte, r3: Byte): (c: seq<Byte>)
    ensures |c| == 8 * ((|msg| + 17) / 8)
  {
    Cipher(Padded(msg, r0, r1, r2, r3), Enc(k), (|msg| + 17) / 8)
  }

  // ----- qq_encrypt

  method XorBlocks(a: Block, b: Block) returns (r: Block)
    ensures r == Xor8(a, b)
  {
    r := a;
    for pos := 0 to 8
      invariant forall i :: 0 <= i < 8 ==> r[i] == if i < pos then Xor(a[i], b[i]) else a[i]
    {
      r := r[pos := Xor(r[pos], b[pos])];
    }
  }

  /** `i` blocks of the padded text `p` are out, and `pos` bytes of the next one are in `plain`. */
  ghost predicate SendingFacts(p: seq<Byte>, f: Block -> Block, i: nat, plain: Block, pos: nat, plainPre: Block,
                               crypted: seq<Byte>) {
    && pos <= 8 && 8 * i + pos <= |p| && plain[..pos] == p[8 * i..8 * i + pos]
    && crypted == Cipher(p, f, i) && plainPre == MixedBefore(p, f, i)
  }

  /** The same, kept folded: the facts are drawn only where `SendingFacts` is named. */
  ghost predicate Sending(p: seq<Byte>, f: Block -> Block, i: nat, plain: Block, pos: nat, plainPre: Block,
                          crypted: seq<Byte>) {
    forall q {:trigger SendingFacts(q, f, i, plain, pos, plainPre, crypted)} :: q == p ==>
      SendingFacts(q, f, i, plain, pos, plainPre, crypted)
  }

  /** One more byte of the text in the block. */
  lemma {:induction false} SentByte(p: seq<Byte>, f: Block -> Block, i: nat, plain: Block, pos: nat, plainPre: Block,
                                    crypted: seq<Byte>)
    requires Sending(p, f, i, plain, pos, plainPre, crypted) && pos < 8 && 8 * i + pos < |p|
    ensures Sending(p, f, i, plain[pos := p[8 * i + pos]], pos + 1, plainPre, crypted)
  {
    assert SendingFacts(p, f, i, plain, pos, plainPre, crypted);
    var o, x := 8 * i, p[8 * i + pos];
    assert plain[pos := x][..pos + 1] == plain[..pos] + [x];
    assert p[o..o + pos + 1] == p[o..o + pos] + [x];
  }

  /** One more block out. */
  lemma {:induction false} SentBlock(p: seq<Byte>, f: Block -> Block, i: nat, plain: Block, plainPre: Block,
                                     crypted: seq<Byte>, x: Block)
    requires Sending(p, f, i, plain, 8, plainPre, crypted) && 8 * i <= |p| && x == Xor8(plain, CryptBefore(p, f, i))
    ensures Sending(p, f, i + 1, x, 0, x, crypted + Xor8(f(x), plainPre))
  {
    assert SendingFacts(p, f, i, plain, 8, plainPre, crypted);
    assert plain == Part(p, i);
    assert x == Mixed(p, f, i);
    assert Xor8(f(x), plainPre) == CryptAt(p, f, i);
  }

  lemma {:induction false} BlockBefore(p: seq<Byte>, f: Block -> Block, i: nat, crypted: seq<Byte>)
    requires crypted == Cipher(p, f, i) && crypted != [] && 8 * i <= |p|
    ensures crypted[|crypted| - 8..] == CryptBefore(p, f, i)
  {
    CipherPart(p, f, i, i - 1);
    assert crypted[|crypted| - 8..] == Part(crypted, i - 1);
  }

  /** encrypt_every_8_byte */
  method EncryptBlock(plain: Block, plainPre: Block, crypted: seq<Byte>, k: Key, ghost p: seq<Byte>, ghost i: nat)
      returns (x: Block, out: seq<Byte>)
    requires Sending(p, Enc(k), i, plain, 8, plainPre, crypted)
    ensures Sending(p, Enc(k), i + 1, x, 0, x, out)
  {
    assert SendingFacts(p, Enc(k), i, plain, 8, plainPre, crypted);
    if |crypted| == 0 {
      x := XorBlocks(plain, plainPre);
    } else {
      BlockBefore(p, Enc(k), i, crypted);
      x := XorBlocks(plain, crypted[|crypted| - 8..]);
    }
    SentBlock(p, Enc(k), i, plain, plainPre, crypted, x);
    var w := Encipher(x, k);
    w := XorBlocks(w, plainPre);
    out := crypted + w;
  }

  /** The loops that put two random bytes, the message or seven zeros into the text: a full block goes out. */
  method Feed(bytes: seq<Byte>, from: Block, at: nat, before: Block, done: seq<Byte>, k: Key, ghost p: seq<Byte>,
              ghost blocks: nat)
      returns (plain: Block, pos: nat, plainPre: Block, crypted: seq<Byte>, ghost i: nat)
    requires Sending(p, Enc(k), blocks, from, at, before, done) && at <= 8
    requires 8 * blocks + at + |bytes| <= |p| && bytes == p[8 * blocks + at..8 * blocks + at + |bytes|]
    ensures Sending(p, Enc(k), i, plain, pos, plainPre, crypted) && pos <= 8 && 8 * i + pos == 8 * blocks + at + |bytes|
    ensures bytes != [] ==> pos < 8
  {
    plain, pos, plainPre, crypted, i := from, at, before, done, blocks;
    var inp := 0;
    while inp < |bytes|
      invariant 0 <= inp <= |bytes| && Sending(p, Enc(k), i, plain, pos, plainPre, crypted)
      invariant 8 * i + pos == 8 * blocks + at + inp
      invariant pos <= 8 && (inp > 0 ==> pos < 8)
      decreases |bytes| - inp, pos
    {
      if pos < 8 {
        SentByte(p, Enc(k), i, plain, pos, plainPre, crypted);
        plain, pos, inp := plain[pos := bytes[inp]], pos + 1, inp + 1;
      }
      if pos == 8 {
        plainPre, crypted := EncryptBlock(plain, plainPre, crypted, k, p, i);
        plain, pos, i := plainPre, 0, i + 1;
      }
    }
  }

  method PadFor(n: nat) returns (pos: nat)
    ensures pos == PadLength(n) && pos < 8
  {
    pos := (n + 10) % 8;
    if pos != 0 {
      pos := 8 - pos;
    }
  }

  /** qq_encrypt */
  method Encrypt(msg: seq<Byte>, k: Key, r0: Byte, r1: Byte, r2: Byte, r3: Byte) returns (crypted: seq<Byte>)
    ensures crypted == Sealed(msg, k, r0, r1, r2, r3)
  {
    ghost var p := Padded(msg, r0, r1, r2, r3);
    var pos := PadFor(|msg|);
    var plain: Block := [Header(r0, pos)] + Fill(r1, pos) + Fill(0, 7 - pos);
    Start(msg, k, r0, r1, r2, r3, plain);
    BlockCount(|msg|);
    assert |p| == 8 * ((|msg| + 17) / 8);
    crypted := FeedRest([r2, r3], msg, plain, pos + 1, k, p, (|msg| + 17) / 8);
  }

  method FeedRest(pad: seq<Byte>, msg: seq<Byte>, from: Block, at: nat, k: Key, ghost p: seq<Byte>, ghost n: nat)
      returns (crypted: seq<Byte>)
    requires Sending(p, Enc(k), 0, from, at, ZERO, []) && at <= 8 && |p| == 8 * n && |p| == at + |pad| + |msg| + 7
    requires p[at..at + |pad|] == pad && p[at + |pad|..at + |pad| + |msg|] == msg
    requires p[at + |pad| + |msg|..at + |pad| + |msg| + 7] == Fill(0, 7)
    ensures crypted == Cipher(p, Enc(k), n)
  {
    var plain, pos, plainPre;
    ghost var i;
    plain, pos, plainPre, crypted, i := Feed(pad, from, at, ZERO, [], k, p, 0);
    plain, pos, plainPre, crypted, i := Feed(msg, plain, pos, plainPre, crypted, k, p, i);
    plain, pos, plainPre, crypted, i := Feed(Fill(0, 7), plain, pos, plainPre, crypted, k, p, i);
    AllSent(p, Enc(k), n, i, plain, pos, plainPre, crypted);
  }

  lemma {:induction false} AllSent(p: seq<Byte>, f: Block -> Block, n: nat, i: nat, plain: Block, pos: nat,
                                   plainPre: Block, crypted: seq<Byte>)
    requires Sending(p, f, i, plain, pos, plainPre, crypted) && pos < 8 && 8 * i + pos == |p| == 8 * n
    ensures crypted == Cipher(p, f, n)
  {
    assert SendingFacts(p, f, i, plain, pos, plainPre, crypted);
  }

  lemma {:induction false} Slices(a: seq<Byte>, b: seq<Byte>, c: seq<Byte>, d: seq<Byte>)
    ensures var p := a + b + c + d;
            && p[..|a|] == a && p[|a|..|a| + |b|] == b && p[|a| + |b|..|a| + |b| + |c|] == c
            && p[|a| + |b| + |c|..|a| + |b| + |c| + |d|] == d && |p| == |a| + |b| + |c| + |d|
  {
  }

  /** The header and its padding are the first bytes; what follows them in the text. */
  lemma {:induction false} Start(msg: seq<Byte>, k: Key, r0: Byte, r1: Byte, r2: Byte, r3: Byte, plain: Block)
    requires var n := PadLength(|msg|); plain == [Header(r0, n)] + Fill(r1, n) + Fill(0, 7 - n)
    ensures var n, p := PadLength(|msg|), Padded(msg, r0, r1, r2, r3);
            && Sending(p, Enc(k), 0, plain, n + 1, ZERO, [])
            && |p| == n + 10 + |msg| && p[n + 1..n + 3] == [r2, r3]
            && p[n + 3..n + 3 + |msg|] == msg && p[n + 3 + |msg|..n + 10 + |msg|] == Fill(0, 7)
  {
    var n := PadLength(|msg|);
    var head := [Header(r0, n)] + Fill(r1, n);
    Slices(head, [r2, r3], msg, Fill(0, 7));
    StartSending(head + [r2, r3] + msg + Fill(0, 7), Enc(k), head, plain);
  }

  lemma {:induction false} StartSending(p: seq<Byte>, f: Block -> Block, head: seq<Byte>, plain: Block)
    requires |head| <= 8 && |head| <= |p| && p[..|head|] == head && plain[..|head|] == head
    ensures Sending(p, f, 0, plain, |head|, ZERO, [])
  {
    assert SendingFacts(p, f, 0, plain, |head|, ZERO, []);
  }

  // ----- qq_decrypt

  /** The length of the padding according to the first block. */
  function PadOf(c: seq<Byte>, k: Key): (p: nat)
    requires |c| >= 8
    ensures p < 8
  {
    Low3(Deciphered(Part(c, 0), k)[0])
  }

  /** The length of the message according to the first block; it may be negative. */
  function MessageLength(c: seq<Byte>, k: Key): int
    requires |c| >= 8
  {
    |c| - PadOf(c, k) - 10
  }

  predicate Acceptable(c: seq<Byte>, k: Key, capacity: int) {
    |c| % 8 == 0 && |c| >= 16 && 0 <= MessageLength(c, k) <= capacity
  }

  /** The text under the chain. */
  function Opened(c: seq<Byte>, k: Key): (p: seq<Byte>)
    requires |c| % 8 == 0
    ensures |p| == |c|
  {
    Plain(c, Dec(k), |c| / 8)
  }

  function Message(c: seq<Byte>, k: Key): (m: seq<Byte>)
    requires |c| % 8 == 0 && |c| >= 16 && 0 <= MessageLength(c, k)
    ensures |m| == MessageLength(c, k)
  {
    Opened(c, k)[PadOf(c, k) + 3..|c| - 7]
  }

  /** The seven bytes behind the message are zero. */
  predicate TailOk(c: seq<Byte>, k: Key)
    requires |c| % 8 == 0 && |c| >= 16
  {
    forall j :: |c| - 7 <= j < |c| ==> Opened(c, k)[j] == 0
  }

  /** Block `i` of the ciphertext is deciphered, and `pre` is the block before it. */
  ghost predicate ReceivingFacts(c: seq<Byte>, k: Key, i: nat, decrypted: Block, pre: Block) {
    8 * i + 8 <= |c| && decrypted == Unmixed(c, Dec(k), i) && pre == PartBefore(c, i)
  }

  /** The same, kept folded. */
  ghost predicate Receiving(c: seq<Byte>, k: Key, i: nat, decrypted: Block, pre: Block) {
    forall d {:trigger ReceivingFacts(d, k, i, decrypted, pre)} :: d == c ==> ReceivingFacts(d, k, i, decrypted, pre)
  }

  lemma {:induction false} PlainHasPart(c: seq<Byte>, g: Block -> Block, n: nat, i: nat)
    requires |c| == 8 * n && i < n
    ensures Part(Plain(c, g, n), i) == PlainPart(c, g, i)
  {
    JoinedPart((i: nat) => PlainAt(c, g, i), n, i);
  }

  /** `p` is the text under `c`; kept folded. */
  ghost predicate IsText(p: seq<Byte>, c: seq<Byte>, k: Key, n: nat) {
    |p| == |c| == 8 * n && forall d {:trigger Plain(d, Dec(k), n)} :: d == c ==> p == Plain(d, Dec(k), n)
  }

  lemma {:induction false} ReceivedByte(c: seq<Byte>, k: Key, n: nat, p: seq<Byte>, i: nat, decrypted: Block,
                                        pre: Block, pos: nat)
    requires IsText(p, c, k, n) && Receiving(c, k, i, decrypted, pre) && pos < 8
    ensures i < n && p[8 * i + pos] == Xor(pre[pos], decrypted[pos])
  {
    assert p == Plain(c, Dec(k), n) && ReceivingFacts(c, k, i, decrypted, pre);
    PlainHasPart(c, Dec(k), n, i);
    assert p[8 * i + pos] == Part(p, i)[pos];
  }

  lemma {:induction false} OneMore(p: seq<Byte>, a: nat, t: nat)
    requires a + t < |p|
    ensures p[a..a + t] + [p[a + t]] == p[a..a + t + 1]
  {
  }

  lemma {:induction false} ReceivedBlock(c: seq<Byte>, k: Key, i: nat, block: Block, pre: Block, x: Block)
    requires Receiving(c, k, i, block, pre) && 8 * i + 16 <= |c|
    requires x == Deciphered(Xor8(block, c[8 * i + 8..8 * i + 16]), k)
    ensures Receiving(c, k, i + 1, x, c[8 * i..8 * i + 8])
  {
    assert ReceivingFacts(c, k, i, block, pre);
    assert c[8 * i + 8..8 * i + 16] == Part(c, i + 1);
    assert c[8 * i..8 * i + 8] == PartBefore(c, i + 1);
    assert x == Unmixed(c, Dec(k), i + 1);
  }

  /** decrypt_every_8_byte, with a further block to decrypt */
  method DecryptBlock(c: seq<Byte>, k: Key, contextStart: nat, block: Block, ghost pre: Block, ghost i: nat)
      returns (decrypted: Block)
    requires Receiving(c, k, i, block, pre) && contextStart == 8 * (i + 1) && contextStart + 8 <= |c|
    ensures Receiving(c, k, i + 1, decrypted, c[contextStart - 8..contextStart])
  {
    decrypted := XorBlocks(block, c[contextStart..contextStart + 8]);
    decrypted := Decipher(decrypted, k);
    ReceivedBlock(c, k, i, block, pre, decrypted);
  }

  /** The next block, and the one before it. */
  method NextBlock(c: seq<Byte>, k: Key, contextStart: nat, block: Block, before: Block, ghost i: nat)
      returns (decrypted: Block, pre: Block)
    requires Receiving(c, k, i, block, before) && contextStart == 8 * (i + 1) && contextStart + 8 <= |c|
    ensures Receiving(c, k, i + 1, decrypted, pre)
  {
    decrypted := DecryptBlock(c, k, contextStart, block, before, i);
    pre := c[contextStart - 8..contextStart];
  }

  /** Skips the two bytes in front of the message. */
  method SkipHeader(c: seq<Byte>, k: Key, block: Block, start: nat)
      returns (decrypted: Block, pre: Block, contextStart: nat, pos: nat, ghost i: nat)
    requires |c| >= 16 && Receiving(c, k, 0, block, ZERO) && start <= 8
    ensures Receiving(c, k, i, decrypted, pre) && contextStart == 8 * (i + 1) && pos < 8 && 8 * i + pos == start + 2
  {
    decrypted, pre, contextStart, pos, i := block, ZERO, 8, start, 0;
    var padding := 1;
    while padding <= 2
      invariant 1 <= padding <= 3 && Receiving(c, k, i, decrypted, pre) && contextStart == 8 * (i + 1)
      invariant pos <= 8 && 8 * i + pos == start + padding - 1 && (padding > 1 ==> pos < 8) && i <= 1
      decreases 3 - padding, pos
    {
      if pos < 8 {
        pos, padding := pos + 1, padding + 1;
      }
      if pos == 8 {
        assert i == 0;
        decrypted, pre := NextBlock(c, k, contextStart, decrypted, pre, i);
        contextStart, pos, i := contextStart + 8, 0, i + 1;
      }
    }
  }

  /** The place behind a byte that was read, in the next block if this one is used up. */
  method Advance(c: seq<Byte>, k: Key, context: nat, block: Block, before: Block, at: nat, ghost blocks: nat,
                 ghost n: nat)
      returns (decrypted: Block, pre: Block, contextStart: nat, pos: nat, ghost i: nat)
    requires Receiving(c, k, blocks, block, before) && context == 8 * (blocks + 1) && at <= 8
    requires |c| == 8 * n && 8 * blocks + at < |c|
    ensures Receiving(c, k, i, decrypted, pre) && contextStart == 8 * (i + 1) && pos < 8
    ensures 8 * i + pos == 8 * blocks + at
  {
    decrypted, pre, contextStart, pos, i := block, before, context, at, blocks;
    if pos == 8 {
      assert i + 1 < n;
      decrypted, pre := NextBlock(c, k, contextStart, decrypted, pre, i);
      contextStart, pos, i := contextStart + 8, 0, i + 1;
    }
  }

  /** Reads `count` bytes of the message. */
  method ReadMessage(c: seq<Byte>, k: Key, count: nat, block: Block, before: Block, context: nat, at: nat,
                     ghost blocks: nat, ghost n: nat, ghost p: seq<Byte>)
      returns (out: seq<Byte>, decrypted: Block, pre: Block, contextStart: nat, pos: nat, ghost i: nat)
    requires Receiving(c, k, blocks, block, before) && context == 8 * (blocks + 1) && at < 8
    requires IsText(p, c, k, n) && 8 * blocks + at + count < |c|
    ensures Receiving(c, k, i, decrypted, pre) && contextStart == 8 * (i + 1) && pos < 8
    ensures 8 * i + pos == 8 * blocks + at + count
    ensures |out| == count && out == p[8 * blocks + at..8 * blocks + at + count]
  {
    out, decrypted, pre, contextStart, pos, i := [], block, before, context, at, blocks;
    ghost var start := 8 * blocks + at;
    while |out| != count
      invariant |out| <= count && Receiving(c, k, i, decrypted, pre) && contextStart == 8 * (i + 1)
      invariant pos < 8 && 8 * i + pos == start + |out| && out == p[start..start + |out|]
      decreases count - |out|
    {
      ReceivedByte(c, k, n, p, i, decrypted, pre, pos);
      OneMore(p, start, |out|);
      out := out + [Xor(pre[pos], decrypted[pos])];
      decrypted, pre, contextStart, pos, i := Advance(c, k, contextStart, decrypted, pre, pos + 1, i, n);
    }
  }

  /** The seven bytes behind the message; they always end the last block. */
  method CheckTail(decrypted: Block, pre: Block, at: nat, ghost c: seq<Byte>, ghost k: Key, ghost i: nat,
                   ghost n: nat, ghost p: seq<Byte>)
      returns (ok: bool)
    requires IsText(p, c, k, n) && Receiving(c, k, i, decrypted, pre)
    requires at < 8 && 8 * i + at == |c| - 7
    ensures ok == forall j :: |c| - 7 <= j < |c| ==> p[j] == 0
  {
    var pos := at;
    assert at == 1 && i + 1 == n;
    for padding := 1 to 8
      invariant pos == padding && forall j :: |c| - 7 <= j < |c| - 8 + pos ==> p[j] == 0
    {
      ReceivedByte(c, k, n, p, i, decrypted, pre, pos);
      if Xor(pre[pos], decrypted[pos]) != 0 {
        return false;
      }
      pos := pos + 1;
    }
    return true;
  }

  /** qq_decrypt: what it writes and the length it stores, and when it reports success. */
  method Decrypt(c: seq<Byte>, k: Key, capacity: int) returns (ok: bool, out: seq<Byte>, length: int)
    ensures ok <==> Acceptable(c, k, capacity) && TailOk(c, k)
    ensures Acceptable(c, k, capacity) ==> out == Message(c, k) && length == MessageLength(c, k)
    ensures !Acceptable(c, k, capacity) ==> out == [] && length == capacity
  {
    ok, out, length := false, [], capacity;
    if |c| % 8 != 0 || |c| < 16 {
      return;
    }
    var decrypted := Decipher(c[..8], k);
    assert c[..8] == Part(c, 0);
    var pos := Low3(decrypted[0]);
    var count := |c| - pos - 10;
    if capacity < count || count < 0 {
      return;
    }
    length := count;
    assert ReceivingFacts(c, k, 0, decrypted, ZERO);
    ok, out := OpenRest(c, k, decrypted, pos, count, |c| / 8, Opened(c, k));
  }

  /** The text behind the header byte and its padding: two bytes, the message and the tail. */
  method OpenRest(c: seq<Byte>, k: Key, block: Block, pad: nat, count: nat, ghost n: nat, ghost p: seq<Byte>)
      returns (ok: bool, out: seq<Byte>)
    requires IsText(p, c, k, n) && n >= 2 && Receiving(c, k, 0, block, ZERO) && pad < 8 && count == |c| - pad - 10
    ensures out == p[pad + 3..|c| - 7] && ok == forall j :: |c| - 7 <= j < |c| ==> p[j] == 0
  {
    var decrypted, pre, contextStart, pos;
    ghost var i;
    decrypted, pre, contextStart, pos, i := SkipHeader(c, k, block, pad + 1);
    out, decrypted, pre, contextStart, pos, i := ReadMessage(c, k, count, decrypted, pre, contextStart, pos, i, n, p);
    ok := CheckTail(decrypted, pre, pos, c, k, i, n, p);
  }

  // ----- The round trip

  lemma {:induction false} SealedOpens(msg: seq<Byte>, k: Key, r0: Byte, r1: Byte, r2: Byte, r3: Byte, n: nat)
    requires n == (|msg| + 17) / 8
    ensures |Sealed(msg, k, r0, r1, r2, r3)| == 8 * n
    ensures Plain(Sealed(msg, k, r0, r1, r2, r3), Dec(k), n) == Padded(msg, r0, r1, r2, r3)
  {
    var p := Padded(msg, r0, r1, r2, r3);
    PaddedLength(msg, r0, r1, r2, r3);
    BlockCount(|msg|);
    DecUndoesEnc(k);
    PlainCipher(p, Enc(k), Dec(k), n);
  }

  lemma {:induction false} FirstByteOpens(c: seq<Byte>, k: Key, n: nat, p: seq<Byte>)
    requires |c| == 8 * n && n > 0 && p == Plain(c, Dec(k), n)
    ensures PadOf(c, k) == Low3(p[0])
  {
    var d := Deciphered(Part(c, 0), k);
    PlainHasPart(c, Dec(k), n, 0);
    Xor8Twice(ZERO, d);
    Xor8Twice(d, ZERO);
    assert p[0] == Part(p, 0)[0];
  }

  lemma {:induction false} PaddedParts(msg: seq<Byte>, r0: Byte, r1: Byte, r2: Byte, r3: Byte)
    ensures var p, n := Padded(msg, r0, r1, r2, r3), PadLength(|msg|);
            && |p| == |msg| + 10 + n && Low3(p[0]) == n && p[n + 3..|p| - 7] == msg
            && forall j :: |p| - 7 <= j < |p| ==> p[j] == 0
  {
    HeaderKeepsPad(r0, PadLength(|msg|));
  }

  /** Every message, of any length, comes back from its ciphertext, whatever the key and the random bytes, into
      every buffer that can hold it. */
  lemma {:induction false} DecryptUndoesEncrypt(msg: seq<Byte>, k: Key, r0: Byte, r1: Byte, r2: Byte, r3: Byte)
    ensures var c := Sealed(msg, k, r0, r1, r2, r3);
            && |c| == 8 * ((|msg| + 17) / 8) && |c| % 8 == 0 && |c| >= 16
            && (forall capacity :: Acceptable(c, k, capacity) <==> capacity >= |msg|)
            && MessageLength(c, k) == |msg| && Message(c, k) == msg && TailOk(c, k)
  {
    var c, n := Sealed(msg, k, r0, r1, r2, r3), (|msg| + 17) / 8;
    SealedOpens(msg, k, r0, r1, r2, r3, n);
    PaddedParts(msg, r0, r1, r2, r3);
    FirstByteOpens(c, k, n, Plain(c, Dec(k), n));
    Reads(c, k, msg, n, Padded(msg, r0, r1, r2, r3));
  }

  lemma {:induction false} Reads(c: seq<Byte>, k: Key, msg: seq<Byte>, n: nat, p: seq<Byte>)
    requires |c| == 8 * n && n >= 2 && |c| % 8 == 0 && p == Plain(c, Dec(k), n) && |p| == |msg| + 10 + PadOf(c, k)
    requires p[PadOf(c, k) + 3..|p| - 7] == msg && forall j :: |p| - 7 <= j < |p| ==> p[j] == 0
    ensures MessageLength(c, k) == |msg| && Message(c, k) == msg && TailOk(c, k)
  {
    assert |c| / 8 == n;
  }
}
