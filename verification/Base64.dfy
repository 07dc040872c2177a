/** utils/baes64.c: Base64 with line feeds.  Bytes are numbers below 256; shifts and masks of the source appear as
  division, remainder and sums of parts that do not overlap.
 */
module Base64 {
  import opened Basics

  type Byte = x: nat | x < 256

  type Sextet = x: nat | x < 64

  const LF: Byte := 10
  const PAD: Byte := 61
  const NONE: Byte := 128

  /** base64_table: letters, small letters, digits, plus and slash. */
  function Sym(v: Sextet): (c: Byte)
    ensures c != PAD && c != LF && Val(c) == v
  {
    if v < 26 then v + 65 else if v < 52 then v + 71 else if v < 62 then v - 4 else if v == 62 then 43 else 47
  }

  /** What the decoding table holds for a character. */
  function Val(c: Byte): Byte {
    if 65 <= c <= 90 then c - 65 else if 97 <= c <= 122 then c - 71 else if 48 <= c <= 57 then c + 4
    else if c == 43 then 62 else if c == 47 then 63 else if c == PAD then 0 else NONE
  }

  // ----- Encoding

  /** The values of the four characters for three, one or two bytes. */
  function Three(a: Byte, b: Byte, c: Byte): (s: seq<Sextet>)
    ensures |s| == 4
  {
    [a / 4, a % 4 * 16 + b / 16, b % 16 * 4 + c / 64, c % 64]
  }

  function Full(a: Byte, b: Byte, c: Byte): (s: seq<Byte>)
    ensures |s| == 4
  {
    var v := Three(a, b, c);
    [Sym(v[0]), Sym(v[1]), Sym(v[2]), Sym(v[3])]
  }

  function One(a: Byte): (s: seq<Byte>)
    ensures |s| == 4
  {
    var v := Three(a, 0, 0);
    [Sym(v[0]), Sym(v[1]), PAD, PAD]
  }

  function Two(a: Byte, b: Byte): (s: seq<Byte>)
    ensures |s| == 4
  {
    var v := Three(a, b, 0);
    [Sym(v[0]), Sym(v[1]), Sym(v[2]), PAD]
  }

  /** The groups of four without line feeds. */
  function Packed(src: seq<Byte>): seq<Byte> {
    if |src| == 0 then [] else if |src| == 1 then One(src[0]) else if |src| == 2 then Two(src[0], src[1])
    else Full(src[0], src[1], src[2]) + Packed(src[3..])
  }

  /** The text from `src` on, when `line` characters are on the current line. */
  function Encoded(src: seq<Byte>, line: nat): seq<Byte> {
    if |src| == 0 then (if line != 0 then [LF] else [])
    else if |src| < 3 then Packed(src) + [LF]
    else if line + 4 >= 72 then Full(src[0], src[1], src[2]) + [LF] + Encoded(src[3..], 0)
    else Full(src[0], src[1], src[2]) + Encoded(src[3..], line + 4)
  }

  function Allocated(len: nat): nat {
    var olen := len * 4 / 3 + 4;
    olen + olen / 72 + 1
  }

  /** The lines that `g` groups of four take, eighteen to a line. */
  function Lines(g: nat): nat {
    (g + 17) / 18
  }

  lemma {:induction false} LineFull(g: nat)
    ensures Lines(18 + g) == 1 + Lines(g)
  {
  }

  /** How many characters and line feeds the `g` groups come to, after `groups` on the current line. */
  lemma {:induction false} EncodedLength(src: seq<Byte>, line: nat, groups: nat, g: nat)
    requires line == 4 * groups && groups < 18 && g == (|src| + 2) / 3
    ensures |Encoded(src, line)| == 4 * g + Lines(groups + g)
    decreases |src|
  {
    if |src| >= 3 {
      assert g - 1 == (|src[3..]| + 2) / 3;
      if line + 4 >= 72 {
        EncodedLength(src[3..], 0, 0, g - 1);
        LineFull(g - 1);
      } else {
        EncodedLength(src[3..], line + 4, groups + 1, g - 1);
      }
    }
  }

  /** The text and the terminating zero never exceed the allocation. */
  lemma {:induction false} EncodedFits(src: seq<Byte>)
    ensures |Encoded(src, 0)| + 1 <= Allocated(|src|)
  {
    EncodedLength(src, 0, 0, (|src| + 2) / 3);
    var g, q := (|src| + 2) / 3, |src| * 4 / 3 + 4;
    assert q >= 4 * g + 1;
    assert q / 72 >= g / 18;
  }

  /** `done` is the text for the first `i` bytes. */
  ghost predicate Progress(done: seq<Byte>, src: seq<Byte>, i: nat, line: nat) {
    i <= |src| && done + Encoded(src[i..], line) == Encoded(src, 0)
  }

  lemma {:induction false} Room(done: seq<Byte>, src: seq<Byte>, i: nat, line: nat)
    requires Progress(done, src, i, line)
    ensures |done| + |Encoded(src[i..], line)| < Allocated(|src|)
    ensures |src| - i >= 3 ==> |Encoded(src[i..], line)| >= if line + 4 >= 72 then 5 else 4
    ensures 0 < |src| - i < 3 ==> |Encoded(src[i..], line)| == 5
    ensures |src| == i && line != 0 ==> |Encoded(src[i..], line)| == 1
  {
    EncodedFits(src);
    assert |done + Encoded(src[i..], line)| == |done| + |Encoded(src[i..], line)|;
  }

  lemma {:induction false} GroupDone(done: seq<Byte>, src: seq<Byte>, i: nat, line: nat)
    requires Progress(done, src, i, line) && |src| - i >= 3
    ensures var full := Full(src[i], src[i + 1], src[i + 2]);
            if line + 4 >= 72 then Progress(done + full + [LF], src, i + 3, 0)
            else Progress(done + full, src, i + 3, line + 4)
  {
    var rest, full := src[i..], Full(src[i], src[i + 1], src[i + 2]);
    assert rest[3..] == src[i + 3..];
    Joined(done, full, [LF], Encoded(rest[3..], 0));
    Joined(done, full, [], Encoded(rest[3..], line + 4));
    assert done + full + [] == done + full && full + [] == full;
  }

  lemma {:induction false} Joined(a: seq<Byte>, b: seq<Byte>, c: seq<Byte>, d: seq<Byte>)
    ensures a + (b + c + d) == (a + b + c) + d
  {
  }

  /** A group of three bytes, and the line feed if the line is full. */
  method EncodeGroup(src: seq<Byte>, i: nat, out: array<Byte>, at: nat, col: nat) returns (pos: nat, line: nat)
    requires out.Length == Allocated(|src|) && at <= out.Length && Progress(out[..at], src, i, col) && |src| - i >= 3
    requires col < 72
    modifies out
    ensures pos <= out.Length && Progress(out[..pos], src, i + 3, line) && line < 72
  {
    Room(out[..at], src, i, col);
    GroupDone(out[..at], src, i, col);
    Write4(out, at, Full(src[i], src[i + 1], src[i + 2]));
    pos, line := at + 4, col + 4;
    if line >= 72 {
      Write1(out, pos, LF);
      pos, line := pos + 1, 0;
    }
  }

  /** The last one or two bytes, the last line feed and the terminating zero. */
  method EncodeEnd(src: seq<Byte>, i: nat, out: array<Byte>, at: nat, col: nat) returns (pos: nat)
    requires out.Length == Allocated(|src|) && at <= out.Length && Progress(out[..at], src, i, col) && |src| - i < 3
    modifies out
    ensures pos < out.Length && out[..pos] == Encoded(src, 0) && out[pos] == 0
  {
    Room(out[..at], src, i, col);
    pos := at;
    var line := col;
    if |src| - i > 0 {
      Write4(out, pos, if |src| - i == 1 then One(src[i]) else Two(src[i], src[i + 1]));
      pos, line := pos + 4, line + 4;
    }
    if line != 0 {
      Write1(out, pos, LF);
      pos := pos + 1;
    }
    out[pos] := 0;
  }

  /** base64_encode; every write stays within the allocation. */
  method Encode(src: seq<Byte>) returns (out: array<Byte>, length: nat)
    ensures fresh(out) && out.Length == Allocated(|src|) && length < out.Length
    ensures out[..length] == Encoded(src, 0) && out[length] == 0
  {
    out := new Byte[Allocated(|src|)];
    var i, pos, line := 0, 0, 0;
    assert out[..0] == [] && src[0..] == src;
    while |src| - i >= 3
      invariant 0 <= i <= |src| && 0 <= pos <= out.Length && line < 72 && Progress(out[..pos], src, i, line)
      decreases |src| - i
    {
      pos, line := EncodeGroup(src, i, out, pos, line);
      i := i + 3;
    }
    length := EncodeEnd(src, i, out, pos, line);
  }

  method Write1(out: array<Byte>, pos: nat, c: Byte)
    requires pos < out.Length
    modifies out
    ensures out[..pos + 1] == old(out[..pos]) + [c]
  {
    out[pos] := c;
  }

  method Write4(out: array<Byte>, pos: nat, s: seq<Byte>)
    requires |s| == 4 && pos + 4 <= out.Length
    modifies out
    ensures out[..pos + 4] == old(out[..pos]) + s
  {
    out[pos], out[pos + 1], out[pos + 2], out[pos + 3] := s[0], s[1], s[2], s[3];
  }

  // ----- Decoding

  /** The characters that mean something. */
  function Kept(src: seq<Byte>): (k: seq<Byte>)
    ensures forall i :: 0 <= i < |k| ==> Val(k[i]) != NONE
  {
    if src == [] then []
    else if Val(src[|src| - 1]) == NONE then Kept(src[..|src| - 1])
    else Kept(src[..|src| - 1]) + [src[|src| - 1]]
  }

  predicate Means(c: Byte) {
    Val(c) != NONE
  }

  function Value(c: Byte): Sextet {
    if Means(c) then Val(c) else 0
  }

  function Values(k: seq<Byte>): (v: seq<Sextet>)
    ensures |v| == |k|
  {
    seq(|k|, i requires 0 <= i < |k| => Value(k[i]))
  }

  /** Three bytes of four values. */
  function Group(a: Sextet, b: Sextet, c: Sextet, d: Sextet): (s: seq<Byte>)
    ensures |s| == 3
  {
    [a * 4 + b / 16, b % 16 * 16 + c / 4, c % 4 * 64 + d]
  }

  /** The bytes of the first `n` groups. */
  function Unpacked(v: seq<Sextet>, n: nat): (s: seq<Byte>)
    requires 4 * n <= |v|
    ensures |s| == 3 * n
  {
    if n == 0 then [] else Unpacked(v, n - 1) + GroupAt(v, n - 1)
  }

  function GroupAt(v: seq<Sextet>, i: nat): (s: seq<Byte>)
    requires 4 * i + 4 <= |v|
    ensures |s| == 3
  {
    Group(v[4 * i], v[4 * i + 1], v[4 * i + 2], v[4 * i + 3])
  }

  /** How many of the last three bytes the padding takes away. */
  function Cut(k: seq<Byte>): (n: nat)
    ensures n <= 2
  {
    if |k| < 4 then 0 else if k[|k| - 2] == PAD then 2 else if k[|k| - 1] == PAD then 1 else 0
  }

  /** The bytes of a text; none if the characters do not come in fours. */
  function Decoded(src: seq<Byte>): Option<seq<Byte>> {
    Meant(Kept(src))
  }

  function Meant(k: seq<Byte>): Option<seq<Byte>> {
    if |k| % 4 != 0 then None else Some(Unpacked(Values(k), |k| / 4)[..|k| / 4 * 3 - Cut(k)])
  }

  ghost predicate IsTable(dtable: seq<Byte>) {
    |dtable| == 256 && forall c: Byte :: dtable[c] == Val(c)
  }

  /** The decoding table, filled from the encoding table. */
  method DecodeTable() returns (dtable: seq<Byte>)
    ensures IsTable(dtable)
  {
    dtable := seq(256, _ => NONE);
    for i := 0 to 64
      invariant |dtable| == 256
      invariant forall c: Byte :: dtable[c] == if c != PAD && Val(c) < i then Val(c) else NONE
    {
      dtable := dtable[Sym(i) := i];
    }
    dtable := dtable[PAD := 0];
  }

  method Lookup(dtable: seq<Byte>, c: Byte) returns (v: Byte)
    requires IsTable(dtable)
    ensures v == NONE <==> !Means(c)
    ensures Means(c) ==> v == Value(c)
  {
    v := dtable[c];
  }

  lemma {:induction false} KeptNext(src: seq<Byte>, i: nat)
    requires i < |src|
    ensures Kept(src[..i + 1]) == if Means(src[i]) then Kept(src[..i]) + [src[i]] else Kept(src[..i])
  {
    assert src[..i + 1][..i] == src[..i];
  }

  method CountKept(src: seq<Byte>, dtable: seq<Byte>) returns (count: nat)
    requires IsTable(dtable)
    ensures count == |Kept(src)|
  {
    count := 0;
    for i := 0 to |src|
      invariant count == |Kept(src[..i])|
    {
      KeptNext(src, i);
      var v := Lookup(dtable, src[i]);
      if v != NONE {
        count := count + 1;
      }
    }
    assert src[..|src|] == src;
  }

  /** `ins` holds the characters of the current group, or of the last one if none has come in since. */
  ghost predicate Reading(k: seq<Byte>, n: nat, count: nat, ins: seq<Byte>, block: seq<Sextet>, out: seq<Byte>) {
    && |ins| == |block| == 4 && count < 4 && |k| == 4 * n + count && out == Unpacked(Values(k), n)
    && (forall j :: 0 <= j < count ==> block[j] == Values(k)[4 * n + j])
    && (count > 2 ==> ins[2] == k[4 * n + 2])
    && (n > 0 && count == 0 ==> ins[2] == k[|k| - 2] && ins[3] == k[|k| - 1])
  }

  /** A character comes in. */
  lemma {:induction false} OneIn(k: seq<Byte>, n: nat, count: nat, ins: seq<Byte>, block: seq<Sextet>, out: seq<Byte>,
                                 c: Byte)
    requires Reading(k, n, count, ins, block, out) && count < 3
    ensures Reading(k + [c], n, count + 1, ins[count := c], block[count := Value(c)], out)
  {
    ValuesPush(k, c);
    UnpackedPrefix(Values(k), Values(k) + [Value(c)], n);
  }

  lemma {:induction false} LastIn(k: seq<Byte>, n: nat, ins: seq<Byte>, block: seq<Sextet>, out: seq<Byte>, c: Byte)
    requires Reading(k, n, 3, ins, block, out)
    ensures Reading(k + [c], n + 1, 0, ins[3 := c], block[3 := Value(c)],
                    out + Group(block[0], block[1], block[2], Value(c)))
  {
    var v := Values(k);
    assert block[0] == v[4 * n + 0] && block[1] == v[4 * n + 1] && block[2] == v[4 * n + 2];
    ValuesPush(k, c);
    GroupClosed(v, n, block, Value(c));
    LastOf(k, n, c);
  }

  lemma {:induction false} LastOf(k: seq<Byte>, n: nat, c: Byte)
    requires |k| == 4 * n + 3
    ensures (k + [c])[|k + [c]| - 2] == k[4 * n + 2] && (k + [c])[|k + [c]| - 1] == c
  {
  }

  lemma {:induction false} ValuesPush(k: seq<Byte>, c: Byte)
    ensures Values(k + [c]) == Values(k) + [Value(c)]
  {
  }

  lemma {:induction false} GroupClosed(v: seq<Sextet>, n: nat, block: seq<Sextet>, x: Sextet)
    requires |v| == 4 * n + 3 && |block| == 4 && block[0] == v[4 * n] && block[1] == v[4 * n + 1]
    requires block[2] == v[4 * n + 2]
    ensures Unpacked(v + [x], n + 1) == Unpacked(v, n) + Group(block[0], block[1], block[2], x)
  {
    var w := v + [x];
    UnpackedPrefix(v, w, n);
    assert GroupAt(w, n) == Group(w[4 * n], w[4 * n + 1], w[4 * n + 2], w[4 * n + 3]);
    assert Unpacked(w, n + 1) == Unpacked(w, n) + GroupAt(w, n);
  }

  lemma {:induction false} UnpackedPrefix(v: seq<Sextet>, w: seq<Sextet>, n: nat)
    requires 4 * n <= |v| <= |w| && forall i :: 0 <= i < |v| ==> w[i] == v[i]
    ensures Unpacked(w, n) == Unpacked(v, n)
  {
    if n > 0 {
      UnpackedPrefix(v, w, n - 1);
    }
  }

  /** A character put into its group; a full group gives three bytes. */
  method TakeIn(c: Byte, tmp: Sextet, n: nat, count: nat, ins: seq<Byte>, block: seq<Sextet>, out: seq<Byte>,
                ghost k: seq<Byte>)
      returns (n1: nat, count1: nat, ins1: seq<Byte>, block1: seq<Sextet>, out1: seq<Byte>)
    requires Reading(k, n, count, ins, block, out) && tmp == Value(c)
    ensures Reading(k + [c], n1, count1, ins1, block1, out1)
  {
    n1, out1 := n, out;
    ins1, block1, count1 := ins[count := c], block[count := tmp], count + 1;
    if count1 == 4 {
      LastIn(k, n, ins, block, out, c);
      out1 := out + Group(block1[0], block1[1], block1[2], block1[3]);
      count1, n1 := 0, n + 1;
    } else {
      OneIn(k, n, count, ins, block, out, c);
    }
  }

  lemma {:induction false} NoneIn()
    ensures Reading([], 0, 0, [0, 0, 0, 0], [0, 0, 0, 0], [])
  {
  }

  /** The loop that collects groups of four characters. */
  method ReadGroups(src: seq<Byte>, dtable: seq<Byte>)
      returns (n: nat, count: nat, ins: seq<Byte>, block: seq<Sextet>, out: seq<Byte>)
    requires IsTable(dtable)
    ensures Reading(Kept(src), n, count, ins, block, out)
  {
    n, count, ins, block, out := 0, 0, [0, 0, 0, 0], [0, 0, 0, 0], [];
    NoneIn();
    assert Kept(src[..0]) == [];
    for i := 0 to |src|
      invariant Reading(Kept(src[..i]), n, count, ins, block, out)
    {
      KeptNext(src, i);
      var tmp := Lookup(dtable, src[i]);
      if tmp != NONE {
        n, count, ins, block, out := TakeIn(src[i], tmp, n, count, ins, block, out, Kept(src[..i]));
      }
    }
    assert src[..|src|] == src;
  }

  lemma {:induction false} Fours(x: nat, n: nat, count: nat)
    requires x == 4 * n + count && count < 4 && x % 4 == 0
    ensures count == 0 && n == x / 4
  {
  }

  /** base64_decode */
  method Decode(src: seq<Byte>) returns (r: Option<seq<Byte>>)
    ensures r == Decoded(src)
  {
    var dtable := DecodeTable();
    var total := CountKept(src, dtable);
    if total % 4 != 0 {
      return None;
    }
    var n, count, ins, block, out := ReadGroups(src, dtable);
    Fours(total, n, count);
    var size := |out|;
    if size > 0 {
      if ins[2] == PAD {
        size := size - 2;
      } else if ins[3] == PAD {
        size := size - 1;
      }
    }
    return Some(out[..size]);
  }

  // ----- The round trip

  lemma {:induction false} KeptJoined(a: seq<Byte>, b: seq<Byte>)
    ensures Kept(a + b) == Kept(a) + Kept(b)
    decreases |b|
  {
    if b == [] {
      assert a + b == a;
    } else {
      var c := b[..|b| - 1];
      assert (a + b)[..|a + b| - 1] == a + c;
      KeptJoined(a, c);
    }
  }

  lemma {:induction false} AllKept(s: seq<Byte>)
    requires forall i :: 0 <= i < |s| ==> Val(s[i]) != NONE
    ensures Kept(s) == s
  {
    if s != [] {
      AllKept(s[..|s| - 1]);
    }
  }

  lemma {:induction false} LineFeedDropped()
    ensures Kept([LF]) == []
  {
    assert [LF][..0] == [];
  }

  lemma {:induction false} GroupKept(a: Byte, b: Byte, c: Byte)
    ensures Kept(Full(a, b, c)) == Full(a, b, c) && Kept(One(a)) == One(a) && Kept(Two(a, b)) == Two(a, b)
  {
    AllKept(Full(a, b, c));
    AllKept(One(a));
    AllKept(Two(a, b));
  }

  lemma {:induction false} KeptLine(a: seq<Byte>, b: seq<Byte>)
    requires Kept(a) == a
    ensures Kept(a + b) == a + Kept(b) && Kept(a + [LF]) == a && Kept(a + [LF] + b) == a + Kept(b)
  {
    LineFeedDropped();
    KeptJoined(a, b);
    KeptJoined(a, [LF]);
    KeptJoined(a + [LF], b);
  }

  /** Line feeds do not count. */
  lemma {:induction false} EncodedKept(src: seq<Byte>, line: nat)
    ensures Kept(Encoded(src, line)) == Packed(src)
    decreases |src|
  {
    LineFeedDropped();
    if |src| >= 3 {
      GroupKept(src[0], src[1], src[2]);
      EncodedKept(src[3..], if line + 4 >= 72 then 0 else line + 4);
      KeptLine(Full(src[0], src[1], src[2]), Encoded(src[3..], if line + 4 >= 72 then 0 else line + 4));
    } else if |src| > 0 {
      GroupKept(src[0], src[|src| - 1], 0);
      KeptLine(Packed(src), []);
    }
  }

  lemma {:induction false} GroupShifted(g: seq<Sextet>, v: seq<Sextet>, i: nat)
    requires |g| == 4 && 4 * i + 4 <= |v|
    ensures GroupAt(g + v, i + 1) == GroupAt(v, i)
  {
    var w, j := g + v, 4 * i;
    assert w[j + 4] == v[j] && w[j + 5] == v[j + 1] && w[j + 6] == v[j + 2] && w[j + 7] == v[j + 3];
  }

  lemma {:induction false} UnpackedJoined(g: seq<Sextet>, v: seq<Sextet>, n: nat)
    requires |g| == 4 && 4 * n <= |v|
    ensures Unpacked(g + v, n + 1) == Unpacked(g, 1) + Unpacked(v, n)
    decreases n
  {
    if n == 0 {
      UnpackedPrefix(g, g + v, 1);
      assert Unpacked(v, 0) == [] && Unpacked(g, 1) + [] == Unpacked(g, 1);
    } else {
      UnpackedJoined(g, v, n - 1);
      GroupShifted(g, v, n - 1);
      var a, b, c := Unpacked(g, 1), Unpacked(v, n - 1), GroupAt(v, n - 1);
      assert (a + b) + c == a + (b + c);
    }
  }

  lemma {:induction false} FirstByte(a: Byte, b: Byte)
    ensures a / 4 * 4 + (a % 4 * 16 + b / 16) / 16 == a
  {
    assert b / 16 < 16;
  }

  lemma {:induction false} SecondByte(a: Byte, b: Byte, c: Byte)
    ensures (a % 4 * 16 + b / 16) % 16 * 16 + (b % 16 * 4 + c / 64) / 4 == b
  {
    assert b / 16 < 16 && c / 64 < 4;
    assert (a % 4 * 16 + b / 16) % 16 == b / 16;
    assert (b % 16 * 4 + c / 64) / 4 == b % 16;
  }

  lemma {:induction false} ThirdByte(b: Byte, c: Byte)
    ensures (b % 16 * 4 + c / 64) % 4 * 64 + c % 64 == c
  {
    assert (b % 16 * 4 + c / 64) % 4 == c / 64;
  }

  lemma {:induction false} GroupBack(a: Byte, b: Byte, c: Byte)
    ensures Unpacked(Three(a, b, c), 1) == [a, b, c]
  {
    var v := Three(a, b, c);
    FirstByte(a, b);
    SecondByte(a, b, c);
    ThirdByte(b, c);
    assert Unpacked(v, 0) == [] && GroupAt(v, 0) == [a, b, c];
  }

  lemma {:induction false} GroupValues(a: Byte, b: Byte, c: Byte)
    ensures Values(Full(a, b, c)) == Three(a, b, c) && Values(One(a)) == Three(a, 0, 0)
    ensures Values(Two(a, b)) == Three(a, b, 0)
    ensures Cut(Full(a, b, c)) == 0 && Cut(One(a)) == 2 && Cut(Two(a, b)) == 1
  {
  }

  lemma {:induction false} ValuesJoined(k: seq<Byte>, l: seq<Byte>)
    ensures Values(k + l) == Values(k) + Values(l)
  {
  }

  lemma {:induction false} BytesJoined(full: seq<Byte>, rest: seq<Byte>, n: nat, head: seq<Byte>, tail: seq<Byte>)
    requires |full| == 4 && |rest| == 4 * n && |head| == 3 && |tail| <= 3 * n
    requires Unpacked(Values(full), 1) == head && Unpacked(Values(rest), n)[..|tail|] == tail
    ensures Unpacked(Values(full + rest), n + 1)[..3 + |tail|] == head + tail
  {
    ValuesJoined(full, rest);
    UnpackedJoined(Values(full), Values(rest), n);
    var b := Unpacked(Values(rest), n);
    assert (head + b)[..3 + |tail|] == head + b[..|tail|];
  }

  lemma {:induction false} CutJoined(full: seq<Byte>, rest: seq<Byte>)
    requires |full| == 4 && (rest == [] || |rest| >= 4)
    ensures Cut(full + rest) == if rest == [] then Cut(full) else Cut(rest)
  {
    if rest == [] {
      assert full + rest == full;
    }
  }

  /** `k` is the text of `src` in `n` groups. */
  ghost predicate HoldsFacts(k: seq<Byte>, src: seq<Byte>, n: nat) {
    && |k| == 4 * n && |src| <= 3 * n && Cut(k) == 3 * n - |src| && Unpacked(Values(k), n)[..|src|] == src
  }

  /** The same, kept folded. */
  ghost predicate Holds(k: seq<Byte>, src: seq<Byte>, n: nat) {
    forall l {:trigger HoldsFacts(l, src, n)} :: l == k ==> HoldsFacts(l, src, n)
  }

  lemma {:induction false} FewHold(src: seq<Byte>)
    requires |src| < 3
    ensures Holds(Packed(src), src, (|src| + 2) / 3)
  {
    if |src| == 1 {
      assert src == [src[0]];
      OneHolds(src[0]);
    } else if |src| == 2 {
      assert src == [src[0], src[1]];
      TwoHold(src[0], src[1]);
    }
  }

  lemma {:induction false} OneHolds(a: Byte)
    ensures Holds(Packed([a]), [a], 1)
  {
    GroupValues(a, 0, 0);
    GroupBack(a, 0, 0);
  }

  lemma {:induction false} TwoHold(a: Byte, b: Byte)
    ensures Holds(Packed([a, b]), [a, b], 1)
  {
    GroupValues(a, b, 0);
    GroupBack(a, b, 0);
  }

  lemma {:induction false} MoreHold(a: Byte, b: Byte, c: Byte, k: seq<Byte>, src: seq<Byte>, n: nat)
    requires Holds(k, src, n) && (n == 0 ==> src == [])
    ensures Holds(Full(a, b, c) + k, [a, b, c] + src, n + 1)
  {
    assert HoldsFacts(k, src, n);
    GroupValues(a, b, c);
    GroupBack(a, b, c);
    BytesJoined(Full(a, b, c), k, n, [a, b, c], src);
    CutJoined(Full(a, b, c), k);
  }

  lemma {:induction false} PackedMore(src: seq<Byte>, tail: seq<Byte>, n: nat)
    requires |src| >= 3 && tail == src[3..] && n > 0 && Holds(Packed(tail), tail, n - 1) && (n == 1 ==> tail == [])
    ensures Holds(Packed(src), src, n)
  {
    var a, b, c := src[0], src[1], src[2];
    MoreHold(a, b, c, Packed(tail), tail, n - 1);
    assert src == [a, b, c] + tail && Packed(src) == Full(a, b, c) + Packed(tail);
  }

  /** The groups give the bytes back, and the padding tells how many of the last are not part of them. */
  lemma {:induction false} PackedBack(src: seq<Byte>, n: nat)
    requires n == (|src| + 2) / 3
    ensures Holds(Packed(src), src, n)
    decreases |src|
  {
    if |src| < 3 {
      FewHold(src);
    } else {
      var tail := src[3..];
      assert n - 1 == (|tail| + 2) / 3;
      PackedBack(tail, n - 1);
      PackedMore(src, tail, n);
    }
  }

  lemma {:induction false} HeldMeans(k: seq<Byte>, src: seq<Byte>, n: nat)
    requires Holds(k, src, n)
    ensures Meant(k) == Some(src)
  {
    assert HoldsFacts(k, src, n);
    assert |k| / 4 == n;
  }

  /** Decoding what was encoded gives it back, for every string of bytes, the empty one included. */
  lemma {:induction false} DecodeUndoesEncode(src: seq<Byte>)
    ensures Decoded(Encoded(src, 0)) == Some(src)
  {
    EncodedKept(src, 0);
    PackedBack(src, (|src| + 2) / 3);
    HeldMeans(Packed(src), src, (|src| + 2) / 3);
  }
}
