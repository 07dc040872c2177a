/** Doubly linked lists of indices, kept in two arrays of links, as the node pool of
  common/xmalloc/imembase.c keeps them: -1 ends a list in either direction.
 */
module NodeList {
  import opened Basics

  /** The links and the other columns of the pool. */
  datatype Table = Table(prev: seq<int>, next: seq<int>, mode: seq<int>, data: seq<int>)

  function Nth(s: seq<int>, i: int): int {
    if 0 <= i < |s| then s[i] else -1
  }

  ghost predicate Joined(prev: seq<int>, next: seq<int>, s: seq<int>, i: int) {
    0 <= i < |s| ==> (
      && 0 <= s[i] < |prev| && s[i] < |next|
      && next[s[i]] == Nth(s, i + 1) && prev[s[i]] == Nth(s, i - 1))
  }

  /** The links run through `s`, from front to back and from back to front. */
  ghost predicate DList(prev: seq<int>, next: seq<int>, s: seq<int>) {
    NoDup(s) && forall i {:trigger Joined(prev, next, s, i)} :: Joined(prev, next, s, i)
  }

  /** Links elsewhere do not matter. */
  lemma {:induction false} Elsewhere(prev: seq<int>, next: seq<int>, p: seq<int>, n: seq<int>, s: seq<int>)
    requires DList(prev, next, s) && |p| >= |prev| && |n| >= |next|
    requires forall x :: x in s && 0 <= x < |prev| ==> p[x] == prev[x]
    requires forall x :: x in s && 0 <= x < |next| ==> n[x] == next[x]
    ensures DList(p, n, s)
  {
    forall i {:trigger Joined(p, n, s, i)} ensures Joined(p, n, s, i) {
      assert Joined(prev, next, s, i);
    }
  }

  function PushedPrev(prev: seq<int>, head: int, x: int): seq<int>
    requires 0 <= x < |prev| && head < |prev|
  {
    var p := prev[x := -1];
    if head >= 0 then p[head := x] else p
  }

  lemma {:induction false} PushFront(prev: seq<int>, next: seq<int>, s: seq<int>, x: int)
    requires DList(prev, next, s) && x !in s && 0 <= x < |prev| && x < |next|
    ensures Nth(s, 0) < |prev| && DList(PushedPrev(prev, Nth(s, 0), x), next[x := Nth(s, 0)], [x] + s)
  {
    assert Joined(prev, next, s, 0);
    var p, n, t := PushedPrev(prev, Nth(s, 0), x), next[x := Nth(s, 0)], [x] + s;
    forall i {:trigger Joined(p, n, t, i)} ensures Joined(p, n, t, i) {
      assert Joined(prev, next, s, i - 1);
      assert i - 1 >= 1 && i <= |s| ==> s[i - 1] != s[0];
    }
  }

  lemma {:induction false} PopFront(prev: seq<int>, next: seq<int>, s: seq<int>)
    requires DList(prev, next, s) && s != []
    ensures 0 <= s[0] < |next| && next[s[0]] == Nth(s[1..], 0) < |prev|
    ensures DList(if next[s[0]] >= 0 then prev[next[s[0]] := -1] else prev, next, s[1..])
  {
    assert Joined(prev, next, s, 0) && Joined(prev, next, s, 1);
    var t := s[1..];
    var p := if next[s[0]] >= 0 then prev[next[s[0]] := -1] else prev;
    forall i {:trigger Joined(p, next, t, i)} ensures Joined(p, next, t, i) {
      assert Joined(prev, next, s, i + 1);
    }
  }

  /** Unlinking an element from anywhere in the list. */
  lemma {:induction false} Unlink(prev: seq<int>, next: seq<int>, s: seq<int>, k: nat)
    requires DList(prev, next, s) && k < |s|
    ensures 0 <= s[k] < |prev| && s[k] < |next| && prev[s[k]] == Nth(s, k - 1) < |next|
    ensures next[s[k]] == Nth(s, k + 1) < |prev|
    ensures var b, a := prev[s[k]], next[s[k]];
            DList(if a >= 0 then prev[a := b] else prev, if b >= 0 then next[b := a] else next, s[..k] + s[k + 1..])
  {
    assert Joined(prev, next, s, k) && Joined(prev, next, s, k - 1) && Joined(prev, next, s, k + 1);
    var b, a, t := prev[s[k]], next[s[k]], s[..k] + s[k + 1..];
    var p, n := if a >= 0 then prev[a := b] else prev, if b >= 0 then next[b := a] else next;
    forall i {:trigger Joined(p, n, t, i)} ensures Joined(p, n, t, i) {
      assert Joined(prev, next, s, i) && Joined(prev, next, s, i + 1);
      if 0 <= i < |t| {
        UnlinkOne(prev, next, p, n, s, k, i);
      }
    }
  }

  lemma {:induction false} UnlinkOne(prev: seq<int>, next: seq<int>, p: seq<int>, n: seq<int>, s: seq<int>, k: nat,
                                     i: nat)
    requires NoDup(s) && k < |s| && i < |s| - 1 && Joined(prev, next, s, k)
    requires Joined(prev, next, s, i) && Joined(prev, next, s, i + 1)
    requires Nth(s, k + 1) < |prev| && Nth(s, k - 1) < |next|
    requires p == if Nth(s, k + 1) >= 0 then prev[Nth(s, k + 1) := Nth(s, k - 1)] else prev
    requires n == if Nth(s, k - 1) >= 0 then next[Nth(s, k - 1) := Nth(s, k + 1)] else next
    ensures Joined(p, n, s[..k] + s[k + 1..], i)
  {
    var t, j := s[..k] + s[k + 1..], if i < k then i else i + 1;
    assert t[i] == s[j];
    assert k + 1 < |s| && j != k + 1 ==> s[j] != s[k + 1];
    assert k > 0 && j != k - 1 ==> s[j] != s[k - 1];
  }

  // ----- The two lists of a pool

  ghost predicate Listed(t: Table, open: seq<int>, close: seq<int>, i: int) {
    0 <= i < |t.mode| ==>
      (t.mode[i] == 1 <==> i in close) && (t.mode[i] == 0 <==> i in open) && (i in open <==> i !in close)
  }

  /** Two lists that share the indices out between them, with the mode to tell them apart. */
  ghost predicate TwoLists(t: Table, open: seq<int>, close: seq<int>) {
    && |t.prev| == |t.next| == |t.mode| == |t.data|
    && DList(t.prev, t.next, open) && DList(t.prev, t.next, close)
    && forall i {:trigger Listed(t, open, close, i)} :: Listed(t, open, close, i)
  }

  lemma {:induction false} OnlyInFront(s: seq<int>, x: int, k: nat)
    requires x !in s && k <= |s| && ([x] + s)[k] == x
    ensures ([x] + s)[..k] + ([x] + s)[k + 1..] == s
  {
    var t := [x] + s;
    assert t[1..] == s;
  }

  /** An element of a list is an index. */
  lemma {:induction false} InRange(prev: seq<int>, next: seq<int>, s: seq<int>, x: int)
    requires DList(prev, next, s) && x in s
    ensures 0 <= x < |prev| && x < |next|
  {
    var i :| 0 <= i < |s| && s[i] == x;
    assert Joined(prev, next, s, i);
  }

  /** The statements that take the first open node and put it in front of the close list. */
  function Moved(t: Table, node: int, close: int): Table
    requires 0 <= node < |t.next| && node < |t.prev| && node < |t.mode| && t.next[node] < |t.prev| && close < |t.prev|
  {
    var after := t.next[node];
    var p := if after >= 0 then t.prev[after := -1] else t.prev;
    Table(PushedPrev(p, close, node), t.next[node := close], t.mode[node := 1], t.data)
  }

  lemma {:induction false} MoveOk(t: Table, open: seq<int>, close: seq<int>)
    requires TwoLists(t, open, close) && open != []
    ensures 0 <= open[0] < |t.next| && open[0] !in close && t.next[open[0]] == Nth(open[1..], 0) < |t.prev|
    ensures Nth(close, 0) < |t.prev|
    ensures TwoLists(Moved(t, open[0], Nth(close, 0)), open[1..], [open[0]] + close)
  {
    var x, c := open[0], Nth(close, 0);
    InRange(t.prev, t.next, open, x);
    assert Listed(t, open, close, x);
    PopFront(t.prev, t.next, open);
    var after := t.next[x];
    var p := if after >= 0 then t.prev[after := -1] else t.prev;
    assert after >= 0 ==> after == open[1] && Listed(t, open, close, after);
    Elsewhere(t.prev, t.next, p, t.next, close);
    PushFront(p, t.next, close, x);
    var u := Moved(t, x, c);
    assert close != [] ==> Listed(t, open, close, c);
    assert c >= 0 ==> c in close;
    Elsewhere(p, t.next, u.prev, u.next, open[1..]);
    MovedModes(t, open, close);
  }

  lemma {:induction false} MovedModes(t: Table, open: seq<int>, close: seq<int>)
    requires TwoLists(t, open, close) && open != [] && 0 <= open[0] < |t.mode|
    requires t.next[open[0]] < |t.prev| && Nth(close, 0) < |t.prev|
    ensures var u := Moved(t, open[0], Nth(close, 0));
            forall i {:trigger Listed(u, open[1..], [open[0]] + close, i)} :: Listed(u, open[1..], [open[0]] + close, i)
  {
    var u := Moved(t, open[0], Nth(close, 0));
    assert open == [open[0]] + open[1..];
    forall i {:trigger Listed(u, open[1..], [open[0]] + close, i)} ensures Listed(u, open[1..], [open[0]] + close, i) {
      assert Listed(t, open, close, i);
      if i == open[0] {
        assert i !in open[1..];
      }
    }
  }

  /** The statements that unlink a node from the close list and put it in front of the open list. */
  function Freed(t: Table, node: int, open: int): Table
    requires 0 <= node < |t.next| == |t.prev| && node < |t.mode| && t.next[node] < |t.prev| && t.prev[node] < |t.next|
    requires open < |t.prev|
  {
    var b, a := t.prev[node], t.next[node];
    var p := if a >= 0 then t.prev[a := b] else t.prev;
    var n := if b >= 0 then t.next[b := a] else t.next;
    Table(PushedPrev(p, open, node), n[node := open], t.mode[node := 0], t.data)
  }

  lemma {:induction false} WithoutKth(s: seq<int>, k: nat, x: int)
    requires NoDup(s) && k < |s|
    ensures x in s[..k] + s[k + 1..] <==> x in s && x != s[k]
  {
    assert s == s[..k] + [s[k]] + s[k + 1..];
  }

  lemma {:induction false} FreeOk(t: Table, open: seq<int>, close: seq<int>, k: nat)
    requires TwoLists(t, open, close) && k < |close|
    ensures 0 <= close[k] < |t.next| && t.next[close[k]] == Nth(close, k + 1) < |t.prev|
    ensures t.prev[close[k]] == Nth(close, k - 1) < |t.next|
    ensures Nth(open, 0) < |t.prev| && (k > 0 ==> Nth(close, k - 1) >= 0)
    ensures TwoLists(Freed(t, close[k], Nth(open, 0)), [close[k]] + open, close[..k] + close[k + 1..])
  {
    var x, c := close[k], close[..k] + close[k + 1..];
    Unlink(t.prev, t.next, close, k);
    if k > 0 {
      InRange(t.prev, t.next, close, close[k - 1]);
    }
    assert Listed(t, open, close, x) && x in close;
    var b, a := t.prev[x], t.next[x];
    var p := if a >= 0 then t.prev[a := b] else t.prev;
    var n := if b >= 0 then t.next[b := a] else t.next;
    FreedOpen(t, open, close, k, p, n);
    var u := Freed(t, x, Nth(open, 0));
    FreedClose(t, open, close, k, p, n);
    FreedModes(t, open, close, k);
  }

  lemma {:induction false} FreedOpen(t: Table, open: seq<int>, close: seq<int>, k: nat, p: seq<int>, n: seq<int>)
    requires TwoLists(t, open, close) && k < |close| && 0 <= close[k] < |t.next|
    requires p == if 0 <= Nth(close, k + 1) < |t.prev| then t.prev[Nth(close, k + 1) := Nth(close, k - 1)] else t.prev
    requires n == if 0 <= Nth(close, k - 1) < |t.next| then t.next[Nth(close, k - 1) := Nth(close, k + 1)] else t.next
    ensures Nth(open, 0) < |p|
    ensures DList(PushedPrev(p, Nth(open, 0), close[k]), n[close[k] := Nth(open, 0)], [close[k]] + open)
  {
    assert Listed(t, open, close, close[k]) && close[k] in close;
    assert Listed(t, open, close, Nth(close, k + 1)) && Listed(t, open, close, Nth(close, k - 1));
    Elsewhere(t.prev, t.next, p, n, open);
    PushFront(p, n, open, close[k]);
  }

  lemma {:induction false} FreedClose(t: Table, open: seq<int>, close: seq<int>, k: nat, p: seq<int>, n: seq<int>)
    requires TwoLists(t, open, close) && k < |close| && 0 <= close[k] < |t.next| && |p| == |t.prev| && |n| == |t.next|
    requires Nth(open, 0) < |p| && DList(p, n, close[..k] + close[k + 1..])
    ensures DList(PushedPrev(p, Nth(open, 0), close[k]), n[close[k] := Nth(open, 0)], close[..k] + close[k + 1..])
  {
    WithoutKth(close, k, close[k]);
    WithoutKth(close, k, Nth(open, 0));
    assert Listed(t, open, close, Nth(open, 0));
    Elsewhere(p, n, PushedPrev(p, Nth(open, 0), close[k]), n[close[k] := Nth(open, 0)], close[..k] + close[k + 1..]);
  }

  lemma {:induction false} FreedModes(t: Table, open: seq<int>, close: seq<int>, k: nat)
    requires TwoLists(t, open, close) && k < |close| && 0 <= close[k] < |t.next|
    requires t.next[close[k]] < |t.prev| && t.prev[close[k]] < |t.next| && Nth(open, 0) < |t.prev|
    ensures var u, o, c := Freed(t, close[k], Nth(open, 0)), [close[k]] + open, close[..k] + close[k + 1..];
            forall i {:trigger Listed(u, o, c, i)} :: Listed(u, o, c, i)
  {
    var u, o, c := Freed(t, close[k], Nth(open, 0)), [close[k]] + open, close[..k] + close[k + 1..];
    forall i {:trigger Listed(u, o, c, i)} ensures Listed(u, o, c, i) {
      assert Listed(t, open, close, i);
      WithoutKth(close, k, i);
    }
  }

  // ----- Growth

  ghost predicate Unlisted(open: seq<int>, close: seq<int>, i: int) {
    i !in open && i !in close
  }

  /** Two lists over all indices but those from `lo` up to `hi`, which are in neither. */
  ghost predicate Growing(t: Table, open: seq<int>, close: seq<int>, lo: int, hi: int) {
    && |t.prev| == |t.next| == |t.mode| == |t.data|
    && DList(t.prev, t.next, open) && DList(t.prev, t.next, close)
    && (forall i {:trigger Listed(t, open, close, i)} :: i < lo || i >= hi ==> Listed(t, open, close, i))
    && (forall i {:trigger Unlisted(open, close, i)} :: lo <= i < hi ==> Unlisted(open, close, i))
  }

  ghost predicate Extends(t: Table, u: Table) {
    && |u.prev| == |u.next| == |u.mode| == |u.data| >= |t.prev|
    && u.prev[..|t.prev|] == t.prev && u.next[..|t.prev|] == t.next
    && u.mode[..|t.prev|] == t.mode && u.data[..|t.prev|] == t.data
  }

  /** Longer columns, whatever the new places hold. */
  lemma {:induction false} Lengthened(t: Table, u: Table, open: seq<int>, close: seq<int>)
    requires TwoLists(t, open, close) && |u.prev| >= |t.prev| && Extends(t, u)
    ensures Growing(u, open, close, |t.prev|, |u.prev|)
  {
    Elsewhere(t.prev, t.next, u.prev, u.next, open);
    Elsewhere(t.prev, t.next, u.prev, u.next, close);
    forall i {:trigger Listed(u, open, close, i)} | i < |t.prev| || i >= |u.prev| ensures Listed(u, open, close, i) {
      assert Listed(t, open, close, i);
    }
    forall i {:trigger Unlisted(open, close, i)} | |t.prev| <= i < |u.prev| ensures Unlisted(open, close, i) {
      if i in open {
        InRange(t.prev, t.next, open, i);
      }
      if i in close {
        InRange(t.prev, t.next, close, i);
      }
    }
  }

  function Added(t: Table, node: int, head: int, p: int): Table
    requires 0 <= node < |t.next| == |t.prev| == |t.mode| == |t.data| && head < |t.prev|
  {
    Table(PushedPrev(t.prev, head, node), t.next[node := head], t.mode[node := 0], t.data[node := p])
  }

  lemma {:induction false} AddOk(t: Table, open: seq<int>, close: seq<int>, lo: int, hi: int, p: int)
    requires Growing(t, open, close, lo, hi) && 0 <= lo < hi <= |t.prev|
    ensures Nth(open, 0) < |t.prev| && Growing(Added(t, hi - 1, Nth(open, 0), p), [hi - 1] + open, close, lo, hi - 1)
  {
    var x := hi - 1;
    assert Unlisted(open, close, x);
    PushFront(t.prev, t.next, open, x);
    var u, o := Added(t, x, Nth(open, 0), p), [x] + open;
    if open != [] {
      InRange(t.prev, t.next, open, open[0]);
      assert !Unlisted(open, close, open[0]);
      assert Listed(t, open, close, open[0]);
    }
    Elsewhere(t.prev, t.next, u.prev, u.next, close);
    forall i {:trigger Listed(u, o, close, i)} | i < lo || i >= x ensures Listed(u, o, close, i) {
      if i != x {
        assert Listed(t, open, close, i);
      }
    }
    forall i {:trigger Unlisted(o, close, i)} | lo <= i < x ensures Unlisted(o, close, i) {
      assert Unlisted(open, close, i);
    }
  }

  lemma {:induction false} Grown(t: Table, open: seq<int>, close: seq<int>, lo: int)
    requires Growing(t, open, close, lo, lo)
    ensures TwoLists(t, open, close)
  {
  }

  /** The lists hold every index, once. */
  lemma {:induction false} Shares(t: Table, open: seq<int>, close: seq<int>)
    requires TwoLists(t, open, close)
    ensures |open| + |close| == |t.prev|
  {
    var a, b := set x | x in open, set x | x in close;
    SetSize(open);
    SetSize(close);
    forall x ensures x in a + b <==> 0 <= x < |t.prev| {
      assert Listed(t, open, close, x);
      if x in open {
        InRange(t.prev, t.next, open, x);
      }
      if x in close {
        InRange(t.prev, t.next, close, x);
      }
    }
    forall x | x in open ensures x !in close {
      InRange(t.prev, t.next, open, x);
      assert Listed(t, open, close, x);
    }
    IndicesAre(|t.prev|);
    assert a + b == Indices(|t.prev|);
    assert |a + b| == |a| + |b|;
  }

  lemma {:induction false} SetSize(s: seq<int>)
    requires NoDup(s)
    ensures |set x | x in s| == |s|
  {
    if s != [] {
      SetSize(s[1..]);
      assert (set x | x in s) == {s[0]} + (set x | x in s[1..]);
    }
  }

  ghost function Indices(n: nat): set<int> {
    if n == 0 then {} else Indices(n - 1) + {n - 1}
  }

  lemma {:induction false} IndicesAre(n: nat)
    ensures |Indices(n)| == n && forall x :: x in Indices(n) <==> 0 <= x < n
  {
    if n > 0 {
      IndicesAre(n - 1);
    }
  }

  // ----- Data blocks

  ghost predicate ApartAt(data: seq<int>, size: int, lo: int, hi: int, i: int, j: int) {
    0 <= i < j < |data| && !(lo <= i < hi) && !(lo <= j < hi) ==> data[i] + size <= data[j] || data[j] + size <= data[i]
  }

  /** The blocks of all nodes but those from `lo` up to `hi` do not overlap. */
  ghost predicate BlocksApart(data: seq<int>, size: int, lo: int, hi: int) {
    forall i, j {:trigger ApartAt(data, size, lo, hi, i, j)} :: ApartAt(data, size, lo, hi, i, j)
  }

  ghost predicate FilledAt(data: seq<int>, size: int, lo: int, hi: int, base: int, p: int, end: int, i: int) {
    && (0 <= i < lo && i < |data| ==> data[i] + size <= base || end <= data[i])
    && (0 <= i && hi <= i < |data| ==> base <= data[i] && data[i] + size <= p)
  }

  /** The blocks below `lo` lie outside a piece of memory, those from `hi` on fill its beginning up to `p`. */
  ghost predicate Filled(data: seq<int>, size: int, lo: int, hi: int, base: int, p: int, end: int) {
    forall i {:trigger FilledAt(data, size, lo, hi, base, p, end, i)} :: FilledAt(data, size, lo, hi, base, p, end, i)
  }

  lemma {:induction false} BlockAdded(data: seq<int>, size: int, lo: int, hi: int, base: int, p: int, end: int)
    requires BlocksApart(data, size, lo, hi) && Filled(data, size, lo, hi, base, p, end)
    requires 0 <= lo < hi <= |data| && size >= 0 && base <= p && p + size <= end
    ensures var d := data[hi - 1 := p];
            BlocksApart(d, size, lo, hi - 1) && Filled(d, size, lo, hi - 1, base, p + size, end)
  {
    var d := data[hi - 1 := p];
    forall i, j {:trigger ApartAt(d, size, lo, hi - 1, i, j)} ensures ApartAt(d, size, lo, hi - 1, i, j) {
      assert ApartAt(data, size, lo, hi, i, j);
      assert FilledAt(data, size, lo, hi, base, p, end, i) && FilledAt(data, size, lo, hi, base, p, end, j);
    }
    forall i {:trigger FilledAt(d, size, lo, hi - 1, base, p + size, end, i)}
      ensures FilledAt(d, size, lo, hi - 1, base, p + size, end, i)
    {
      assert FilledAt(data, size, lo, hi, base, p, end, i);
    }
  }
}
