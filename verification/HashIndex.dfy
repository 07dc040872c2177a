/** The parts of utils/hashmap.c as values: keys and their hash, chains of entries, and searching them. */
module HashIndex {
  import opened Arith
  import opened Basics

  type Char = x: nat | 0 < x < 256 witness 1

  /** A key without its terminator. */
  type Key = seq<Char>

  class Entry {
    const key: Key
    const data: seq<nat>
    var prev: Entry?
    var next: Entry?

    constructor (k: Key, d: seq<nat>)
      ensures key == k && data == d
    {
      key, data, prev, next := k, d, null, null;
    }
  }

  // ----- Keys

  function Lower(c: Char): Char {
    if 65 <= c <= 90 then c + 32 else c
  }

  function Folded(k: Key): (f: Key)
    ensures |f| == |k|
  {
    seq(|k|, i requires 0 <= i < |k| => Lower(k[i]))
  }

  /** stricmp(a, b) == 0 */
  predicate Same(a: Key, b: Key) {
    Folded(a) == Folded(b)
  }

  /** One of the 26 letters, by its number, in its upper and its lower form. */
  ghost predicate Cases(upper: Char, lower: Char) {
    65 <= upper < 65 + 26 && lower - 97 == upper - 65
  }

  /** Keys match exactly if they are as long as each other and differ only in the case of letters. */
  lemma {:induction false} SameIff(a: Key, b: Key)
    ensures Same(a, b) <==>
              |a| == |b| && forall i :: 0 <= i < |a| ==> a[i] == b[i] || Cases(a[i], b[i]) || Cases(b[i], a[i])
  {
    if Same(a, b) {
      assert |Folded(a)| == |Folded(b)|;
      forall i | 0 <= i < |a| ensures a[i] == b[i] || Cases(a[i], b[i]) || Cases(b[i], a[i]) {
        assert Folded(a)[i] == Folded(b)[i];
        LowerIff(a[i], b[i]);
      }
    }
    if |a| == |b| && forall i :: 0 <= i < |a| ==> a[i] == b[i] || Cases(a[i], b[i]) || Cases(b[i], a[i]) {
      forall i | 0 <= i < |a| ensures Folded(a)[i] == Folded(b)[i] {
        LowerIff(a[i], b[i]);
      }
    }
  }

  lemma {:induction false} LowerIff(c: Char, d: Char)
    ensures Lower(c) == Lower(d) <==> c == d || Cases(c, d) || Cases(d, c)
  {
  }

  const WORD: nat := 0x1_0000_0000
  const HALF: nat := 0x8000_0000

  /** What tolower gives for a character, as an unsigned word: `char` is signed, so a character from 128 on
      arrives as a negative number, and comes back as it is. */
  function Code(c: Char): (w: nat)
    ensures w < WORD
  {
    if c < 128 then Lower(c) else c + WORD - 256
  }

  /** The hash of the first `n` characters, modulo 2^32. */
  function HashOf(k: Key, n: nat): (h: nat)
    requires 0 < n <= |k|
    ensures h < WORD
  {
    if n == 1 then Code(k[0]) else NextHash(HashOf(k, n - 1), k[n - 1])
  }

  function NextHash(h: nat, c: Char): (r: nat)
    ensures r < WORD
  {
    (h / 2 + Code(c) + if h % 2 == 1 then 8 else 0) % WORD
  }

  function Bucket(k: Key, size: nat): (b: nat)
    requires k != [] && size > 0
    ensures b < size
  {
    Within(HashOf(k, |k|), size)
  }

  /** The remainder of `h` by `size`, by subtraction. */
  function Within(h: nat, size: nat): (r: nat)
    requires size > 0
    ensures r < size && r <= h
  {
    if h < size then h else Within(h - size, size)
  }

  lemma {:induction false} WithinIs(h: nat, size: nat)
    requires size > 0
    ensures Within(h, size) == h % size
  {
    if h < size {
      DivUnique(h, size, 0, h);
    } else {
      WithinIs(h - size, size);
      ModShift(h - size, 1, size);
    }
  }

  /** An unsigned word as an int. */
  function Signed(w: nat): int {
    if w >= HALF then w - WORD else w
  }

  /** The bucket as an int is negative: such keys are refused.  It takes more than 2^31 buckets. */
  predicate Refused(k: Key, size: nat)
    requires k != [] && size > 0
  {
    Bucket(k, size) >= HALF
  }

  lemma {:induction false} NextSmall(h: nat, c: Char)
    requires h <= 525 && c < 128
    ensures NextHash(h, c) <= 525
  {
  }

  /** Hashes of plain ASCII keys stay small: the sum never wraps around and no bucket beyond the 526th is used. */
  lemma {:induction false} HashSmall(k: Key, n: nat)
    requires 0 < n <= |k| && forall i :: 0 <= i < n ==> k[i] < 128
    ensures HashOf(k, n) <= 525
  {
    if n > 1 {
      HashSmall(k, n - 1);
      NextSmall(HashOf(k, n - 1), k[n - 1]);
    }
  }

  /** Plain ASCII keys are never refused; no key is in a table of at most 2^31 buckets. */
  lemma {:induction false} NotRefused(k: Key, size: nat)
    requires k != [] && size > 0 && (size <= HALF || forall i :: 0 <= i < |k| ==> k[i] < 128)
    ensures !Refused(k, size)
  {
    if size > HALF {
      HashSmall(k, |k|);
    }
  }

  /** Exactly the tables of more than 2^31 buckets refuse a key. */
  lemma {:induction false} RefusedIff(size: nat)
    requires size > 0
    ensures size > HALF <==> exists k: Key :: k != [] && Refused(k, size)
  {
    if size > HALF {
      var k: Key := [128, 64];
      assert HashOf(k, 1) == WORD - 128;
      assert HashOf(k, 2) == HALF;
      DivUnique(HALF, size, 0, HALF);
      assert Refused(k, size);
    } else {
      forall k: Key | k != [] ensures !Refused(k, size) {
        NotRefused(k, size);
      }
    }
  }

  /** The hash does not see the case of letters. */
  lemma {:induction false} HashFolds(a: Key, b: Key, n: nat)
    requires Same(a, b) && 0 < n <= |a|
    ensures |a| == |b| && HashOf(a, n) == HashOf(b, n)
  {
    assert |Folded(a)| == |Folded(b)|;
    assert Folded(a)[n - 1] == Folded(b)[n - 1];
    if n > 1 {
      HashFolds(a, b, n - 1);
    }
  }

  lemma {:induction false} SameBucket(a: Key, b: Key, size: nat)
    requires Same(a, b) && a != [] && size > 0
    ensures b != [] && Bucket(a, size) == Bucket(b, size)
  {
    HashFolds(a, b, |a|);
  }

  /** hashfunc */
  method HashFunc(key: Key, size: nat) returns (h: int)
    requires key != [] && size > 0
    ensures h == Signed(Bucket(key, size))
  {
    var hash, i := Code(key[0]), 1;
    while i < |key|
      invariant 1 <= i <= |key| && hash == HashOf(key, i)
    {
      var bit := if hash % 2 == 1 then 8 else 0;
      hash := hash / 2;
      hash := (hash + Code(key[i]) + bit) % WORD;
      i := i + 1;
    }
    WithinIs(hash, size);
    h := Signed(hash % size);
  }

  // ----- Searching a list of entries

  function First(s: seq<Entry>, key: Key): (n: nat)
    ensures n <= |s|
  {
    if s == [] then 0 else if Same(s[0].key, key) then 0 else 1 + First(s[1..], key)
  }

  function Count(s: seq<Entry>, key: Key): nat {
    if s == [] then 0 else (if Same(s[0].key, key) then 1 else 0) + Count(s[1..], key)
  }

  /** The entries with other keys, in order. */
  function Others(s: seq<Entry>, key: Key): seq<Entry> {
    if s == [] then [] else if Same(s[0].key, key) then Others(s[1..], key) else [s[0]] + Others(s[1..], key)
  }

  lemma {:induction false} FirstIs(s: seq<Entry>, key: Key)
    ensures First(s, key) < |s| ==> Same(s[First(s, key)].key, key)
    ensures forall i :: 0 <= i < First(s, key) ==> !Same(s[i].key, key)
  {
    if s != [] && !Same(s[0].key, key) {
      FirstIs(s[1..], key);
      forall i | 0 <= i < First(s, key) ensures !Same(s[i].key, key) {
        if i > 0 {
          assert s[i] == s[1..][i - 1];
        }
      }
    }
  }

  /** Exactly the entries without a match are left, in their order; the count is that of all the others. */
  lemma {:induction false} OthersAre(s: seq<Entry>, key: Key) returns (ix: seq<nat>)
    ensures Picked(s, Others(s, key), ix) && |ix| == |s| - Count(s, key)
    ensures forall i: nat :: i < |s| ==> (i in ix <==> !Same(s[i].key, key))
  {
    hide Same, Picked;
    ix := [];
    if s == [] {
      PickedNone<Entry>();
    } else {
      var rest := OthersAre(s[1..], key);
      assert s == [s[0]] + s[1..];
      PickedBehind(s[0], s[1..], Others(s[1..], key), rest);
      OthersLater(s, key, rest);
      ix := if Same(s[0].key, key) then Later(rest) else [0] + Later(rest);
    }
  }

  lemma {:induction false} OthersLater(s: seq<Entry>, key: Key, rest: seq<nat>)
    requires s != [] && forall i: nat :: i < |s[1..]| ==> (i in rest <==> !Same(s[1..][i].key, key))
    ensures forall i: nat :: 0 < i < |s| ==> (i in Later(rest) <==> !Same(s[i].key, key))
  {
    hide Same;
    forall i: nat | 0 < i < |s| ensures i in Later(rest) <==> !Same(s[i].key, key) {
      assert i - 1 in rest <==> i - 1 + 1 in Later(rest);
      assert s[i] == s[1..][i - 1];
    }
  }

  lemma {:induction false} FirstAt(s: seq<Entry>, key: Key, k: nat)
    requires k <= |s| && (forall i :: 0 <= i < k ==> !Same(s[i].key, key)) && (k < |s| ==> Same(s[k].key, key))
    ensures First(s, key) == k
  {
    if k > 0 {
      FirstAt(s[1..], key, k - 1);
    }
  }

  lemma {:induction false} CountJoined(a: seq<Entry>, b: seq<Entry>, key: Key)
    ensures Count(a + b, key) == Count(a, key) + Count(b, key)
  {
    if a == [] {
      assert a + b == b;
    } else {
      assert (a + b)[1..] == a[1..] + b;
      CountJoined(a[1..], b, key);
    }
  }

  lemma {:induction false} OthersJoined(a: seq<Entry>, b: seq<Entry>, key: Key)
    ensures Others(a + b, key) == Others(a, key) + Others(b, key)
  {
    if a == [] {
      assert a + b == b;
    } else {
      assert (a + b)[1..] == a[1..] + b;
      OthersJoined(a[1..], b, key);
    }
  }

  lemma {:induction false} FirstJoined(a: seq<Entry>, b: seq<Entry>, key: Key)
    ensures First(a + b, key) == if First(a, key) < |a| then First(a, key) else |a| + First(b, key)
  {
    if a == [] {
      assert a + b == b;
    } else {
      assert (a + b)[1..] == a[1..] + b;
      FirstJoined(a[1..], b, key);
    }
  }

  lemma {:induction false} Joined(a: seq<Entry>, b: seq<Entry>, key: Key)
    ensures Count(a + b, key) == Count(a, key) + Count(b, key)
    ensures Others(a + b, key) == Others(a, key) + Others(b, key)
    ensures First(a + b, key) == if First(a, key) < |a| then First(a, key) else |a| + First(b, key)
  {
    CountJoined(a, b, key);
    OthersJoined(a, b, key);
    FirstJoined(a, b, key);
  }

  lemma {:induction false} OthersLength(s: seq<Entry>, key: Key)
    ensures |Others(s, key)| == |s| - Count(s, key)
  {
    if s != [] {
      OthersLength(s[1..], key);
    }
  }

  lemma {:induction false} NoneHere(s: seq<Entry>, key: Key)
    requires forall i :: 0 <= i < |s| ==> !Same(s[i].key, key)
    ensures Count(s, key) == 0 && Others(s, key) == s && First(s, key) == |s|
  {
    if s != [] {
      NoneHere(s[1..], key);
    }
  }

  // ----- All buckets one after the other

  function Flat(chains: seq<seq<Entry>>): seq<Entry> {
    if chains == [] then [] else chains[0] + Flat(chains[1..])
  }

  ghost predicate Foreign(s: seq<Entry>, key: Key) {
    forall i :: 0 <= i < |s| ==> !Same(s[i].key, key)
  }

  lemma {:induction false} AllForeign(chains: seq<seq<Entry>>, key: Key)
    requires forall c :: 0 <= c < |chains| ==> Foreign(chains[c], key)
    ensures Count(Flat(chains), key) == 0 && Others(Flat(chains), key) == Flat(chains)
    ensures First(Flat(chains), key) == |Flat(chains)|
  {
    if chains != [] {
      AllForeign(chains[1..], key);
      assert Foreign(chains[0], key);
      NoneHere(chains[0], key);
      Joined(chains[0], Flat(chains[1..]), key);
    }
  }

  /** If only bucket `b` can have a key, the search of that bucket agrees with the search of all. */
  lemma {:induction false} OneBucket(chains: seq<seq<Entry>>, key: Key, b: nat)
    requires b < |chains| && forall c :: 0 <= c < |chains| && c != b ==> Foreign(chains[c], key)
    ensures Count(Flat(chains), key) == Count(chains[b], key)
    ensures Others(Flat(chains), key) == Flat(chains[b := Others(chains[b], key)])
    ensures First(Flat(chains), key) < |Flat(chains)| <==> First(chains[b], key) < |chains[b]|
    ensures First(chains[b], key) < |chains[b]| ==>
              Flat(chains)[First(Flat(chains), key)] == chains[b][First(chains[b], key)]
    decreases |chains|
  {
    Joined(chains[0], Flat(chains[1..]), key);
    if b == 0 {
      forall c | 0 <= c < |chains[1..]| ensures Foreign(chains[1..][c], key) {
        assert chains[1..][c] == chains[c + 1];
      }
      AllForeign(chains[1..], key);
      assert chains[0 := Others(chains[0], key)][1..] == chains[1..];
    } else {
      forall c | 0 <= c < |chains[1..]| && c != b - 1 ensures Foreign(chains[1..][c], key) {
        assert chains[1..][c] == chains[c + 1];
      }
      OneBucket(chains[1..], key, b - 1);
      assert Foreign(chains[0], key);
      NoneHere(chains[0], key);
      assert chains[b := Others(chains[b], key)][1..] == chains[1..][b - 1 := Others(chains[1..][b - 1], key)];
    }
  }
}
