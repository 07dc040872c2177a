/** utils/hashmap.c: a table of doubly linked chains. */
module HashMap {
  import opened Arith
  import opened Basics
  import opened HashIndex

  // ----- Links of a chain

  datatype Cell = Cell(prev: Entry?, next: Entry?)

  type Mem = map<Entry, Cell>

  ghost function Snap(s: set<Entry>): Mem
    reads s
  {
    map e | e in s :: Cell(e.prev, e.next)
  }

  function Nth(s: seq<Entry>, i: int): Entry? {
    if 0 <= i < |s| then s[i] else null
  }

  ghost predicate LinkedAt(m: Mem, s: seq<Entry>, i: int) {
    0 <= i < |s| ==> s[i] in m && m[s[i]] == Cell(Nth(s, i - 1), Nth(s, i + 1))
  }

  ghost predicate Chain(m: Mem, s: seq<Entry>) {
    NoDup(s) && forall i {:trigger LinkedAt(m, s, i)} :: LinkedAt(m, s, i)
  }

  lemma {:induction false} ChainElsewhere(m: Mem, w: Mem, s: seq<Entry>)
    requires Chain(m, s) && forall e :: e in s && e in m ==> e in w && w[e] == m[e]
    ensures Chain(w, s)
  {
    forall i {:trigger LinkedAt(w, s, i)} ensures LinkedAt(w, s, i) {
      assert LinkedAt(m, s, i);
    }
  }

  function Appended(m: Mem, tail: Entry?, e: Entry): Mem
    requires tail != null ==> tail in m
  {
    if tail == null then m[e := Cell(null, null)] else m[tail := m[tail].(next := e)][e := Cell(tail, null)]
  }

  lemma {:induction false} AppendOk(m: Mem, s: seq<Entry>, e: Entry)
    requires Chain(m, s) && e !in s
    ensures s != [] ==> s[|s| - 1] in m
    ensures Chain(Appended(m, Nth(s, |s| - 1), e), s + [e])
  {
    assert LinkedAt(m, s, |s| - 1);
    var w, t := Appended(m, Nth(s, |s| - 1), e), s + [e];
    forall i {:trigger LinkedAt(w, t, i)} ensures LinkedAt(w, t, i) {
      assert LinkedAt(m, s, i);
      assert 0 <= i < |s| - 1 ==> s[i] != s[|s| - 1];
    }
  }

  function Unlinked(m: Mem, e: Entry): Mem
    requires e in m && (m[e].prev != null ==> m[e].prev in m) && (m[e].next != null ==> m[e].next in m)
  {
    var b, a := m[e].prev, m[e].next;
    var w := if b != null then m[b := m[b].(next := a)] else m;
    if a != null then w[a := w[a].(prev := b)] else w
  }

  lemma {:induction false} UnlinkOk(m: Mem, s: seq<Entry>, k: nat)
    requires Chain(m, s) && k < |s|
    ensures s[k] in m && m[s[k]].prev == Nth(s, k - 1) && m[s[k]].next == Nth(s, k + 1)
    ensures (m[s[k]].prev != null ==> m[s[k]].prev in m) && (m[s[k]].next != null ==> m[s[k]].next in m)
    ensures Chain(Unlinked(m, s[k]), s[..k] + s[k + 1..])
  {
    assert LinkedAt(m, s, k) && LinkedAt(m, s, k - 1) && LinkedAt(m, s, k + 1);
    var w, t := Unlinked(m, s[k]), s[..k] + s[k + 1..];
    forall i {:trigger LinkedAt(w, t, i)} ensures LinkedAt(w, t, i) {
      if 0 <= i < |t| {
        var j := if i < k then i else i + 1;
        assert t[i] == s[j] && LinkedAt(m, s, j);
        assert k + 1 < |s| && j != k + 1 ==> s[j] != s[k + 1];
        assert k > 0 && j != k - 1 ==> s[j] != s[k - 1];
      }
    }
  }

  // ----- The table

  datatype Ends = Ends(head: Entry?, tail: Entry?)

  ghost predicate EntryOk(nodes: set<Entry>, size: nat, b: nat, e: Entry) {
    e in nodes && e.key != [] && size > 0 && Bucket(e.key, size) == b < HALF
  }

  /** The chain of bucket `b`: linked, reached from both ends, of entries whose keys hash to `b`. */
  ghost predicate BucketOk(m: Mem, nodes: set<Entry>, size: nat, b: nat, ends: Ends, s: seq<Entry>) {
    && Chain(m, s) && ends == Ends(Nth(s, 0), Nth(s, |s| - 1))
    && forall i :: 0 <= i < |s| ==> EntryOk(nodes, size, b, s[i])
  }

  ghost predicate BucketsOk(m: Mem, nodes: set<Entry>, size: nat, ends: seq<Ends>, chains: seq<seq<Entry>>) {
    && |chains| == |ends| == size
    && forall b: nat {:trigger BucketOk(m, nodes, size, b, ends[b], chains[b])} ::
         b < size ==> BucketOk(m, nodes, size, b, ends[b], chains[b])
  }

  /** Keys that match are only in the bucket of the key. */
  lemma {:induction false} OthersForeign(m: Mem, nodes: set<Entry>, size: nat, ends: seq<Ends>,
                                         chains: seq<seq<Entry>>, key: Key, c: nat)
    requires BucketsOk(m, nodes, size, ends, chains) && key != [] && c < size && c != Bucket(key, size)
    ensures Foreign(chains[c], key)
  {
    assert BucketOk(m, nodes, size, c, ends[c], chains[c]);
    forall i | 0 <= i < |chains[c]| ensures !Same(chains[c][i].key, key) {
      assert EntryOk(nodes, size, c, chains[c][i]);
      if Same(chains[c][i].key, key) {
        SameBucket(chains[c][i].key, key, size);
      }
    }
  }

  /** A change to one bucket, with entries of that bucket joining or leaving. */
  lemma {:induction false} OneChanged(m: Mem, nodes: set<Entry>, w: Mem, rest: set<Entry>, size: nat,
                                      ends: seq<Ends>, chains: seq<seq<Entry>>, b: nat, e: Ends, s: seq<Entry>)
    requires BucketsOk(m, nodes, size, ends, chains) && b < size && BucketOk(w, rest, size, b, e, s)
    requires forall x :: x in nodes && x.key != [] && size > 0 && Bucket(x.key, size) != b ==>
               x in rest && (x in m ==> x in w && w[x] == m[x])
    ensures BucketsOk(w, rest, size, ends[b := e], chains[b := s])
  {
    var ends', chains' := ends[b := e], chains[b := s];
    forall c: nat {:trigger BucketOk(w, rest, size, c, ends'[c], chains'[c])} | c < size
      ensures BucketOk(w, rest, size, c, ends'[c], chains'[c])
    {
      if c != b {
        assert BucketOk(m, nodes, size, c, ends[c], chains[c]);
        forall x | x in chains[c]
          ensures x in rest && (x in m ==> x in w && w[x] == m[x]) && EntryOk(rest, size, c, x)
        {
          var i :| 0 <= i < |chains[c]| && chains[c][i] == x;
          assert EntryOk(nodes, size, c, chains[c][i]);
        }
        ChainElsewhere(m, w, chains[c]);
      }
    }
  }

  class Table {
    const size: nat
    const buckets: array<Ends>
    var endIterator: int
    ghost var chains: seq<seq<Entry>>
    ghost var nodes: set<Entry>

    ghost predicate Valid()
      reads this, buckets, nodes
    {
      && size > 0 && buckets.Length == size && BucketsOk(Snap(nodes), nodes, size, buckets[..], chains)
      && endIterator == |Flat(chains)|
    }

    constructor (nbuckets: nat)
      requires 0 < nbuckets < WORD
      ensures Valid() && nodes == {} && Flat(chains) == [] && size == nbuckets && fresh(buckets)
    {
      size := nbuckets;
      buckets := new Ends[nbuckets](_ => Ends(null, null));
      endIterator, nodes := 0, {};
      chains := seq(nbuckets, _ => []);
      new;
      FlatEmpty(chains);
      assert |chains| == size;
      forall b: nat {:trigger BucketOk(Snap(nodes), nodes, size, b, buckets[..][b], chains[b])} | b < size
        ensures BucketOk(Snap(nodes), nodes, size, b, buckets[..][b], chains[b])
      {
      }
    }

    /** A step along a chain. */
    lemma {:induction false} Along(b: nat, i: nat)
      requires Valid() && b < size && i < |chains[b]|
      ensures chains[b][i] in nodes && chains[b][i].next == Nth(chains[b], i + 1)
      ensures chains[b][i].prev == Nth(chains[b], i - 1)
      ensures buckets[b] == Ends(Nth(chains[b], 0), Nth(chains[b], |chains[b]| - 1))
    {
      assert BucketOk(Snap(nodes), nodes, size, b, buckets[..][b], chains[b]);
      assert LinkedAt(Snap(nodes), chains[b], i);
    }

    lemma {:induction false} HeadOf(b: nat)
      requires Valid() && b < size
      ensures buckets[b] == Ends(Nth(chains[b], 0), Nth(chains[b], |chains[b]| - 1))
    {
      assert BucketOk(Snap(nodes), nodes, size, b, buckets[..][b], chains[b]);
    }

    /** Only the bucket of a key can hold it, so its search agrees with the search of the whole table. */
    lemma {:induction false} BucketAgrees(key: Key)
      requires Valid() && key != []
      ensures var s := chains[Bucket(key, size)];
              && Count(Flat(chains), key) == Count(s, key)
              && Others(Flat(chains), key) == Flat(chains[Bucket(key, size) := Others(s, key)])
              && (First(Flat(chains), key) < |Flat(chains)| <==> First(s, key) < |s|)
              && (First(s, key) < |s| ==> Flat(chains)[First(Flat(chains), key)] == s[First(s, key)])
    {
      forall c | 0 <= c < |chains| && c != Bucket(key, size) ensures Foreign(chains[c], key) {
        OthersForeign(Snap(nodes), nodes, size, buckets[..], chains, key, c);
      }
      OneBucket(chains, key, Bucket(key, size));
    }

    /** A key that is refused is nowhere in the table. */
    lemma {:induction false} RefusedAbsent(key: Key)
      requires Valid() && key != [] && Refused(key, size)
      ensures Count(Flat(chains), key) == 0 && Others(Flat(chains), key) == Flat(chains)
      ensures First(Flat(chains), key) == |Flat(chains)|
    {
      var b := Bucket(key, size);
      assert BucketOk(Snap(nodes), nodes, size, b, buckets[..][b], chains[b]);
      assert forall i :: 0 <= i < |chains[b]| ==> EntryOk(nodes, size, b, chains[b][i]);
      BucketAgrees(key);
      assert chains[b := Others(chains[b], key)] == chains;
    }

    /** hashmap_search: the number of entries with the key; the error, as an unsigned int, if the key is refused. */
    method Search(key: Key) returns (count: nat)
      requires Valid() && key != []
      ensures count == if Refused(key, size) then Bucket(key, size) else Count(Flat(chains), key)
    {
      BucketAgrees(key);
      var hash := HashFunc(key, size);
      if hash < 0 {
        return hash + WORD;
      }
      count := CountIn(hash, key);
    }

    method CountIn(b: nat, key: Key) returns (count: nat)
      requires Valid() && b < size
      ensures count == Count(chains[b], key)
    {
      HeadOf(b);
      ghost var s := chains[b];
      var ptr := buckets[b].head;
      count := 0;
      ghost var i := 0;
      while ptr != null
        invariant 0 <= i <= |s| && ptr == Nth(s, i) && count + Count(s[i..], key) == Count(s, key)
        decreases |s| - i
      {
        Along(b, i);
        assert s[i..][1..] == s[i + 1..];
        if Same(ptr.key, key) {
          count := count + 1;
        }
        ptr := ptr.next;
        i := i + 1;
      }
    }

    /** hashmap_entry_by_key: the first entry with the key, in the order of the whole table, and the length of its
        data; null and zero if there is none, null and the bucket as an unsigned number if that is negative. */
    method EntryByKey(key: Key) returns (r: Entry?, len: nat)
      requires Valid() && key != []
      ensures var n := First(Flat(chains), key); r == if n < |Flat(chains)| then Flat(chains)[n] else null
      ensures len == if Refused(key, size) then Bucket(key, size) else if r != null then |r.data| else 0
    {
      var hash := HashFunc(key, size);
      if hash < 0 {
        RefusedAbsent(key);
        return null, hash + WORD;
      }
      BucketAgrees(key);
      r := FirstIn(hash, key);
      len := if r != null then |r.data| else 0;
    }

    method FirstIn(b: nat, key: Key) returns (r: Entry?)
      requires Valid() && b < size
      ensures r == Nth(chains[b], First(chains[b], key))
    {
      HeadOf(b);
      ghost var s := chains[b];
      var ptr := buckets[b].head;
      ghost var i := 0;
      while ptr != null
        invariant 0 <= i <= |s| && ptr == Nth(s, i) && forall j :: 0 <= j < i ==> !Same(s[j].key, key)
        decreases |s| - i
      {
        Along(b, i);
        if Same(ptr.key, key) {
          FirstAt(s, key, i);
          return ptr;
        }
        ptr := ptr.next;
        i := i + 1;
      }
      FirstAt(s, key, |s|);
      return null;
    }

    /** hashmap_find: the place of the first entry with the key among all entries, or the end. */
    method Find(key: Key) returns (iter: nat)
      requires Valid()
      ensures iter == First(Flat(chains), key) && (iter == endIterator <==> Count(Flat(chains), key) == 0)
    {
      ghost var all := Flat(chains);
      iter := 0;
      for i := 0 to size
        invariant iter == |Flat(chains[..i])| <= |all| && forall j :: 0 <= j < iter ==> !Same(all[j].key, key)
      {
        FlatParts(chains, i);
        HeadOf(i);
        ghost var k := 0;
        var ptr := buckets[i].head;
        while ptr != null
          invariant 0 <= k <= |chains[i]| && ptr == Nth(chains[i], k) && iter == |Flat(chains[..i])| + k
          invariant iter <= |all| && forall j :: 0 <= j < iter ==> !Same(all[j].key, key)
          decreases |chains[i]| - k
        {
          Along(i, k);
          if Same(ptr.key, key) {
            FirstAt(all, key, iter);
            FoundIff(all, key);
            return;
          }
          iter := iter + 1;
          k := k + 1;
          ptr := ptr.next;
        }
      }
      assert chains[..size] == chains;
      FirstAt(all, key, iter);
      FoundIff(all, key);
    }

    /** hashmap_return_entry: the entry at a place; null past the end. */
    method ReturnEntry(iter: nat) returns (r: Entry?)
      requires Valid()
      ensures r == if iter < |Flat(chains)| then Flat(chains)[iter] else null
    {
      var count := 0;
      for i := 0 to size
        invariant count == |Flat(chains[..i])| <= iter
      {
        FlatParts(chains, i);
        HeadOf(i);
        ghost var k := 0;
        var ptr := buckets[i].head;
        while ptr != null
          invariant 0 <= k <= |chains[i]| && ptr == Nth(chains[i], k) && count == |Flat(chains[..i])| + k <= iter
          decreases |chains[i]| - k
        {
          Along(i, k);
          if count == iter {
            return ptr;
          }
          ptr := ptr.next;
          k := k + 1;
          count := count + 1;
        }
      }
      assert chains[..size] == chains;
      return null;
    }

    /** The entry that hashmap_find and hashmap_return_entry give together is the one hashmap_entry_by_key gives. */
    method FindThenReturn(key: Key) returns (found: Entry?, direct: Entry?)
      requires Valid() && key != []
      ensures found == direct
    {
      var iter := Find(key);
      found := ReturnEntry(iter);
      var first, _ := EntryByKey(key);
      direct := first;
    }

    /** hashmap_insert: a new entry at the end of its chain. */
    method Insert(key: Key, data: seq<nat>) returns (r: int)
      requires Valid() && key != []
      modifies this, buckets, nodes
      ensures Valid() && (r == 0 <==> data != [] && !Refused(key, size))
      ensures r != 0 ==> r == (if data == [] then -34 else Bucket(key, size) - WORD)
      ensures r != 0 ==> chains == old(chains) && nodes == old(nodes)
      ensures r == 0 ==> |nodes - old(nodes)| == 1
      ensures forall e :: e in nodes - old(nodes) ==>
                fresh(e) && e.key == key && e.data == data
                && chains == old(chains)[Bucket(key, size) := old(chains)[Bucket(key, size)] + [e]]
    {
      if |data| < 1 {
        return -34;
      }
      var hash := HashFunc(key, size);
      if hash < 0 {
        return hash;
      }
      HeadOf(hash);
      var e := new Entry(key, data);
      Attach(hash, e);
      assert nodes - old(nodes) == {e};
      return 0;
    }

    /** An entry just inserted is counted by a search for any spelling of its key, and found by it if there was none. */
    method InsertThenSearch(key: Key, other: Key, data: seq<nat>) returns (r: int, count: nat, first: Entry?)
      requires Valid() && key != [] && |other| == |key|
      requires forall i :: 0 <= i < |key| ==> key[i] == other[i] || Cases(key[i], other[i]) || Cases(other[i], key[i])
      modifies this, buckets, nodes
      ensures Valid() && (r == 0 <==> data != [] && !Refused(key, size))
      ensures r == 0 ==> count == old(Count(Flat(chains), other)) + 1
      ensures r == 0 && old(Count(Flat(chains), other)) == 0 ==>
                first != null && fresh(first) && first.key == key && first.data == data
      ensures r == 0 && old(First(Flat(chains), other) < |Flat(chains)|) ==>
                first == old(Flat(chains)[First(Flat(chains), other)])
    {
      SameIff(key, other);
      SameBucket(key, other, size);
      ghost var was := chains;
      BucketAgrees(other);
      FoundIff(Flat(was), other);
      r := Insert(key, data);
      if r != 0 {
        return r, 0, null;
      }
      ghost var e :| e in nodes - old(nodes);
      ghost var b := Bucket(key, size);
      AppendedSearch(was[b], e, other);
      BucketAgrees(other);
      FoundIff(was[b], other);
      FoundIff(chains[b], other);
      FoundIff(Flat(chains), other);
      count := Search(other);
      var found, _ := EntryByKey(other);
      first := found;
    }

    /** Links an entry behind the tail of a chain. */
    method Attach(hash: nat, e: Entry)
      requires Valid() && e !in nodes && e.key != [] && hash == Bucket(e.key, size) < HALF
      modifies this, buckets, nodes, e
      ensures Valid() && nodes == old(nodes) + {e} && chains == old(chains)[hash := old(chains)[hash] + [e]]
    {
      ghost var s, ends := chains[hash], buckets[..];
      HeadOf(hash);
      Attached(Snap(nodes), nodes, size, ends, chains, hash, e);
      LinkTail(buckets[hash].tail, e);
      var was := buckets[hash];
      buckets[hash] := Ends(if was.head == null then e else was.head, e);
      nodes := nodes + {e};
      assert buckets[..] == ends[hash := buckets[hash]];
      FlatSet(chains, hash, s + [e]);
      chains := chains[hash := s + [e]];
      endIterator := endIterator + 1;
    }

    method LinkTail(tail: Entry?, e: Entry)
      requires tail != null ==> tail in nodes
      requires e !in nodes
      modifies e, tail
      ensures Snap(nodes + {e}) == Appended(old(Snap(nodes)), tail, e)
    {
      e.next := null;
      e.prev := tail;
      if tail != null {
        tail.next := e;
      }
    }

    /** Unlinks the entry at place `i` of a chain. */
    method Detach(hash: nat, ptr: Entry, ghost i: nat)
      requires Valid() && hash < size && i < |chains[hash]| && ptr == chains[hash][i]
      modifies this, buckets, nodes
      ensures Valid() && nodes == old(nodes) - {ptr}
      ensures chains == old(chains)[hash := old(chains)[hash][..i] + old(chains)[hash][i + 1..]]
    {
      ghost var m, s, ends := Snap(nodes), chains[hash], buckets[..];
      ghost var t := s[..i] + s[i + 1..];
      Along(hash, i);
      assert BucketOk(m, nodes, size, hash, ends[hash], s);
      UnlinkOk(m, s, i);
      EndsAfter(s, i);
      Unhook(hash, ptr);
      Detached(m, Snap(nodes), nodes, size, ends, chains, hash, i, buckets[..][hash]);
      FlatSet(chains, hash, t);
      Forget(ptr, chains[hash := t]);
    }

    method Forget(ghost ptr: Entry, ghost next: seq<seq<Entry>>)
      modifies this
      ensures nodes == old(nodes) - {ptr} && chains == next && endIterator == old(endIterator) - 1
      ensures Snap(nodes) == old(Snap(nodes)) - {ptr}
    {
      nodes, chains := nodes - {ptr}, next;
      endIterator := endIterator - 1;
    }

    /** The statements that unlink an entry and move the ends of its chain. */
    method Unhook(hash: nat, ptr: Entry)
      requires hash < buckets.Length && ptr in nodes
      requires (ptr.prev != null ==> ptr.prev in nodes && ptr.prev != ptr)
      requires (ptr.next != null ==> ptr.next in nodes && ptr.next != ptr)
      modifies buckets, nodes
      ensures Snap(nodes) == Unlinked(old(Snap(nodes)), ptr)
      ensures var was := old(buckets[hash]);
              var ends := Ends(if was.head == ptr then old(ptr.next) else was.head,
                               if was.tail == ptr then old(ptr.prev) else was.tail);
              buckets[..] == old(buckets[..])[hash := ends]
    {
      LinkAround(ptr);
      var was := buckets[hash];
      buckets[hash] := Ends(if was.head == ptr then ptr.next else was.head,
                            if was.tail == ptr then ptr.prev else was.tail);
    }

    method LinkAround(ptr: Entry)
      requires ptr in nodes && (ptr.prev != null ==> ptr.prev in nodes && ptr.prev != ptr)
      requires (ptr.next != null ==> ptr.next in nodes && ptr.next != ptr)
      modifies nodes
      ensures ptr.prev == old(ptr.prev) && ptr.next == old(ptr.next)
      ensures Snap(nodes) == Unlinked(old(Snap(nodes)), ptr)
    {
      if ptr.prev != null {
        ptr.prev.next := ptr.next;
      }
      if ptr.next != null {
        ptr.next.prev := ptr.prev;
      }
    }

    /** hashmap_remove: the entries with the key go, the others keep their order; the count is kept in a short. */
    method Remove(key: Key) returns (r: int)
      requires Valid() && key != []
      modifies this, buckets, nodes
      ensures Valid() && nodes <= old(nodes)
      ensures Flat(chains) == Others(old(Flat(chains)), key)
      ensures endIterator == old(endIterator) - Count(old(Flat(chains)), key)
      ensures r == if Refused(key, size) then Bucket(key, size) else Reported(Count(old(Flat(chains)), key))
    {
      OthersLength(Flat(chains), key);
      var hash := HashFunc(key, size);
      if hash < 0 {
        RefusedAbsent(key);
        return hash + WORD;
      }
      BucketAgrees(key);
      r := RemoveAll(hash, key);
    }

    method RemoveAll(hash: nat, key: Key) returns (r: int)
      requires Valid() && hash < size
      modifies this, buckets, nodes
      ensures Valid() && nodes <= old(nodes) && chains == old(chains)[hash := Others(old(chains)[hash], key)]
      ensures r == Reported(Count(old(chains)[hash], key))
    {
      var deleted := RemoveFrom(hash, key);
      r := if deleted < 0 then deleted + WORD else deleted;
    }

    method RemoveFrom(hash: nat, key: Key) returns (deleted: int)
      requires Valid() && hash < size
      modifies this, buckets, nodes
      ensures Valid() && nodes <= old(nodes) && chains == old(chains)[hash := Others(old(chains)[hash], key)]
      ensures deleted == Short(Count(old(chains)[hash], key))
    {
      HeadOf(hash);
      ghost var s := chains[hash];
      var ptr := buckets[hash].head;
      deleted := 0;
      ghost var i, n := 0, 0;
      while ptr != null
        invariant Valid() && nodes <= old(nodes) && chains == old(chains)[hash := chains[hash]]
        invariant ptr == Nth(chains[hash], i) && Left(chains[hash], s, key, i, n) && deleted == Short(n)
        decreases |chains[hash]| - i
      {
        Along(hash, i);
        if Same(ptr.key, key) {
          var next := ptr.next;
          TakenOut(chains[hash], s, key, i, n);
          ShortNext(n);
          Detach(hash, ptr, i);
          deleted := Short(deleted + 1);
          n := n + 1;
          ptr := next;
        } else {
          ptr := ptr.next;
          i := i + 1;
        }
      }
      NoneHere(chains[hash], key);
    }
  }

  /** Searching a chain with one more matching entry behind it. */
  lemma {:induction false} AppendedSearch(s: seq<Entry>, e: Entry, key: Key)
    requires Same(e.key, key)
    ensures Count(s + [e], key) == Count(s, key) + 1
    ensures First(s + [e], key) == First(s, key)
    ensures First(s, key) == |s| ==> (s + [e])[First(s + [e], key)] == e
    ensures First(s, key) < |s| ==> (s + [e])[First(s + [e], key)] == s[First(s, key)]
  {
    Joined(s, [e], key);
  }

  /** Of the chain `s`, `c` is left after `n` removals, with no match among the first `i`. */
  ghost predicate Left(c: seq<Entry>, s: seq<Entry>, key: Key, i: nat, n: nat) {
    && i <= |c| && (forall j :: 0 <= j < i ==> !Same(c[j].key, key))
    && Others(c, key) == Others(s, key) && Count(c, key) + n == Count(s, key)
  }

  lemma {:induction false} TakenOut(c: seq<Entry>, s: seq<Entry>, key: Key, i: nat, n: nat)
    requires Left(c, s, key, i, n) && i < |c| && Same(c[i].key, key)
    ensures Left(c[..i] + c[i + 1..], s, key, i, n + 1) && Nth(c[..i] + c[i + 1..], i) == Nth(c, i + 1)
  {
    WithoutOne(c, i, key);
  }

  lemma {:induction false} EndsAfter(s: seq<Entry>, i: nat)
    requires NoDup(s) && i < |s|
    ensures Nth(s, 0) == s[i] <==> i == 0
    ensures Nth(s, |s| - 1) == s[i] <==> i == |s| - 1
    ensures Nth(s, i - 1) != s[i] && Nth(s, i + 1) != s[i]
  {
  }

  lemma {:induction false} Attached(m: Mem, nodes: set<Entry>, size: nat, ends: seq<Ends>,
                                    chains: seq<seq<Entry>>, b: nat, e: Entry)
    requires BucketsOk(m, nodes, size, ends, chains) && m.Keys == nodes && e !in nodes
    requires e.key != [] && b < size && b == Bucket(e.key, size) < HALF
    ensures ends[b].tail != null ==> ends[b].tail in m
    ensures BucketsOk(Appended(m, ends[b].tail, e), nodes + {e}, size,
                      ends[b := Ends(if ends[b].head == null then e else ends[b].head, e)],
                      chains[b := chains[b] + [e]])
  {
    var s := chains[b];
    assert BucketOk(m, nodes, size, b, ends[b], s);
    forall i | 0 <= i < |s| ensures s[i] != e && EntryOk(nodes + {e}, size, b, s[i]) {
      assert EntryOk(nodes, size, b, s[i]);
    }
    AppendOk(m, s, e);
    assert s != [] ==> EntryOk(nodes, size, b, s[|s| - 1]);
    OneChanged(m, nodes, Appended(m, ends[b].tail, e), nodes + {e}, size, ends, chains, b,
               Ends(if ends[b].head == null then e else ends[b].head, e), s + [e]);
  }

  lemma {:induction false} Detached(m: Mem, w: Mem, nodes: set<Entry>, size: nat, ends: seq<Ends>,
                                    chains: seq<seq<Entry>>, b: nat, i: nat, e: Ends)
    requires BucketsOk(m, nodes, size, ends, chains) && b < size && i < |chains[b]|
    requires BucketOk(m, nodes, size, b, ends[b], chains[b])
    requires Chain(w, chains[b][..i] + chains[b][i + 1..]) && m.Keys == nodes
    requires chains[b][i] in m && m[chains[b][i]].prev == Nth(chains[b], i - 1)
    requires m[chains[b][i]].next == Nth(chains[b], i + 1)
    requires (m[chains[b][i]].prev != null ==> m[chains[b][i]].prev in m)
    requires (m[chains[b][i]].next != null ==> m[chains[b][i]].next in m)
    requires w == Unlinked(m, chains[b][i])
    requires e == Ends(if i == 0 then Nth(chains[b], 1) else Nth(chains[b], 0),
                       if i == |chains[b]| - 1 then Nth(chains[b], i - 1) else Nth(chains[b], |chains[b]| - 1))
    ensures BucketsOk(w - {chains[b][i]}, nodes - {chains[b][i]}, size, ends[b := e],
                      chains[b := chains[b][..i] + chains[b][i + 1..]])
  {
    var s, x := chains[b], chains[b][i];
    var t, v := s[..i] + s[i + 1..], w - {x};
    forall j | 0 <= j < |t| ensures t[j] != x && EntryOk(nodes - {x}, size, b, t[j]) {
      var h := if j < i then j else j + 1;
      assert t[j] == s[h] && EntryOk(nodes, size, b, s[h]);
    }
    ChainElsewhere(w, v, t);
    assert EntryOk(nodes, size, b, s[i]);
    assert i > 0 ==> EntryOk(nodes, size, b, s[i - 1]);
    assert i + 1 < |s| ==> EntryOk(nodes, size, b, s[i + 1]);
    OneChanged(m, nodes, v, nodes - {x}, size, ends, chains, b, e, t);
  }

  /** A signed 16-bit count. */
  function Short(n: int): int {
    (n + 32768) % 65536 - 32768
  }

  /** The count as hashmap_remove returns it, an unsigned int made from a short. */
  function Reported(n: nat): int {
    if Short(n) < 0 then Short(n) + WORD else Short(n)
  }

  lemma {:induction false} ShortNext(n: nat)
    ensures Short(Short(n) + 1) == Short(n + 1)
  {
    var q, x := (n + 32768) / 65536, (n + 32768) % 65536;
    assert n + 32768 == 65536 * q + x && Short(n) + 1 + 32768 == x + 1;
    if x + 1 == 65536 {
      DivUnique(n + 1 + 32768, 65536, q + 1, 0);
      DivUnique(x + 1, 65536, 1, 0);
    } else {
      DivUnique(n + 1 + 32768, 65536, q, x + 1);
      DivUnique(x + 1, 65536, 0, x + 1);
    }
  }

  /** The count that is returned is right exactly for fewer than 32768 entries. */
  lemma {:induction false} ReportedRight(n: nat)
    requires n < 0x8000_0000
    ensures Reported(n) == n <==> n < 32768
  {
  }

  lemma {:induction false} WithoutOne(s: seq<Entry>, i: nat, key: Key)
    requires i < |s| && Same(s[i].key, key)
    ensures Others(s[..i] + s[i + 1..], key) == Others(s, key) && Count(s[..i] + s[i + 1..], key) + 1 == Count(s, key)
  {
    assert s == s[..i] + ([s[i]] + s[i + 1..]);
    Joined(s[..i], s[i + 1..], key);
    Joined(s[..i], [s[i]] + s[i + 1..], key);
    assert ([s[i]] + s[i + 1..])[1..] == s[i + 1..];
  }

  /** The buckets up to `b`, bucket `b`, and the rest. */
  lemma {:induction false} FlatParts(chains: seq<seq<Entry>>, b: nat)
    requires b < |chains|
    ensures Flat(chains[..b + 1]) == Flat(chains[..b]) + chains[b]
    ensures Flat(chains) == Flat(chains[..b]) + chains[b] + Flat(chains[b + 1..])
    decreases |chains|
  {
    if b == 0 {
      assert chains[..1][1..] == [] && chains[..0] == [];
    } else {
      var c := chains[1..];
      FlatParts(c, b - 1);
      assert chains[..b + 1][1..] == c[..b] && chains[..b][1..] == c[..b - 1] && c[b..] == chains[b + 1..];
    }
  }

  lemma {:induction false} FlatSet(chains: seq<seq<Entry>>, b: nat, s: seq<Entry>)
    requires b < |chains|
    ensures |Flat(chains[b := s])| == |Flat(chains)| - |chains[b]| + |s|
    decreases |chains|
  {
    if b == 0 {
      assert chains[0 := s][1..] == chains[1..];
    } else {
      FlatSet(chains[1..], b - 1, s);
      assert chains[b := s][1..] == chains[1..][b - 1 := s];
    }
  }

  lemma {:induction false} FoundIff(s: seq<Entry>, key: Key)
    ensures First(s, key) == |s| <==> Count(s, key) == 0
  {
    if s != [] {
      FoundIff(s[1..], key);
    }
  }

  lemma {:induction false} FlatEmpty(chains: seq<seq<Entry>>)
    requires forall b :: 0 <= b < |chains| ==> chains[b] == []
    ensures Flat(chains) == []
  {
    if chains != [] {
      FlatEmpty(chains[1..]);
    }
  }
}
