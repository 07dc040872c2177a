/** 32-bit words and blocks of two words; the most significant byte of a word comes first. */
module Words {
  import opened Octets

  type Block = b: seq<Byte> | |b| == 8 witness [0, 0, 0, 0, 0, 0, 0, 0]

  datatype Pair = Pair(l: bv32, r: bv32)

  /** Four bytes as a word, most significant first. */
  function Word(a: Byte, b: Byte, c: Byte, d: Byte): bv32 {
    (a as bv32 << 24) | (b as bv32 << 16) | (c as bv32 << 8) | d as bv32
  }

  function WordAt(s: seq<Byte>, o: nat): bv32
    requires o + 4 <= |s|
  {
    Word(s[o], s[o + 1], s[o + 2], s[o + 3])
  }

  function Bytes(w: bv32): (s: seq<Byte>)
    ensures |s| == 4
  {
    [((w >> 24) & 0xff) as bv8, ((w >> 16) & 0xff) as bv8, ((w >> 8) & 0xff) as bv8, (w & 0xff) as bv8]
  }

  lemma {:induction false} WordOfBytes(w: bv32)
    ensures WordAt(Bytes(w), 0) == w
  {
  }

  lemma {:induction false} BytesOfWord(a: Byte, b: Byte, c: Byte, d: Byte)
    ensures Bytes(Word(a, b, c, d)) == [a, b, c, d]
  {
    var s := Bytes(Word(a, b, c, d));
    assert s[0] == a;
    assert s[1] == b;
    assert s[2] == c;
    assert s[3] == d;
  }

  function Load(b: Block): Pair {
    Pair(WordAt(b, 0), WordAt(b, 4))
  }

  function Store(v: Pair): Block {
    Bytes(v.l) + Bytes(v.r)
  }

  lemma {:induction false} LoadStore(v: Pair)
    ensures Load(Store(v)) == v
  {
    WordOfBytes(v.l);
    WordOfBytes(v.r);
    var s := Store(v);
    assert s[0] == Bytes(v.l)[0] && s[1] == Bytes(v.l)[1] && s[2] == Bytes(v.l)[2] && s[3] == Bytes(v.l)[3];
    assert s[4] == Bytes(v.r)[0] && s[5] == Bytes(v.r)[1] && s[6] == Bytes(v.r)[2] && s[7] == Bytes(v.r)[3];
  }

  lemma {:induction false} StoreLoad(b: Block)
    ensures Store(Load(b)) == b
  {
    BytesOfWord(b[0], b[1], b[2], b[3]);
    BytesOfWord(b[4], b[5], b[6], b[7]);
  }
}
