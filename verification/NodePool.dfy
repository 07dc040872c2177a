/** common/xmalloc/imembase.c: vectors that grow by reallocation, and the node pool that keeps its links in them. */
module NodePool {
  import opened NodeList

  /** The first of `b`, twice `b`, and so on that is not below `n`. */
  function Doubled(b: nat, n: nat): (r: nat)
    requires b > 0
    ensures r >= n && r >= b && (r == b || r < 2 * n)
    decreases n - b
  {
    if b < n then Doubled(2 * b, n) else b
  }

  function NewBlock(size: nat, block: nat, newsize: nat): nat {
    if size <= newsize <= block then block else if newsize == 0 then 0 else Doubled(1, newsize)
  }

  /** `b` has `size` words, and those of `a` as far as they fit. */
  ghost predicate KeptFacts(a: seq<int>, b: seq<int>, size: nat) {
    |b| == size && (|a| <= size ==> b[..|a|] == a) && (size <= |a| ==> b == a[..size])
  }

  /** The same, kept folded. */
  ghost predicate Kept(a: seq<int>, b: seq<int>, size: nat) {
    forall m: nat {:trigger KeptFacts(a, b, m)} :: m == size ==> KeptFacts(a, b, m)
  }

  /** IVECTOR, counted in words. */
  class Vector {
    var data: array?<int>
    var size: nat
    var block: nat

    ghost predicate Valid()
      reads this
    {
      && size <= block && (data == null <==> block == 0) && (data != null ==> data.Length == block)
    }

    ghost function Contents(): (s: seq<int>)
      reads this, data
      ensures Valid() ==> |s| == size
    {
      if data == null || size > data.Length then [] else data[..size]
    }

    constructor ()
      ensures Valid() && Contents() == [] && data == null
    {
      data, size, block := null, 0, 0;
    }

    /** iv_resize: keeps the words that fit, in place or in a new block whose size is a power of two; the words
        added hold anything.  `memory` says whether the allocator has a block to give. */
    method Resize(newsize: nat, memory: bool) returns (r: int)
      requires Valid()
      modifies this
      ensures Valid() && (r == 0 || r == -1) && (data == old(data) || data == null || fresh(data))
      ensures memory ==> r == 0
      ensures r == 0 ==> block == NewBlock(old(size), old(block), newsize)
      ensures !memory ==> r == if NewBlock(old(size), old(block), newsize) in {0, old(block)} then 0 else -1
      ensures r != 0 ==> data == old(data) && size == old(size) && block == old(block)
      ensures r == 0 ==> size == newsize && Kept(old(Contents()), Contents(), newsize)
    {
      if newsize >= size && newsize <= block {
        size := newsize;
        return 0;
      }
      if newsize == 0 {
        data, block, size := null, 0, 0;
        return 0;
      }
      var nblock := 1;
      while nblock < newsize
        invariant 1 <= nblock && Doubled(nblock, newsize) == Doubled(1, newsize)
        decreases newsize - nblock
      {
        nblock := nblock * 2;
      }
      if nblock == block {
        size := newsize;
        return 0;
      }
      if !memory {
        return -1;
      }
      var lptr := new int[nblock];
      if data != null {
        var min := if size <= newsize then size else newsize;
        CopyWords(data, lptr, min);
      }
      data, size, block := lptr, newsize, nblock;
      return 0;
    }
  }

  /** Two vectors alike, resized one after the other: both change, or neither. */
  method ResizeTwo(v: Vector, w: Vector, size: nat, memory: bool) returns (ok: bool)
    requires v != w && v.Valid() && w.Valid() && v.size == w.size && v.block == w.block
    requires v.data != null ==> v.data != w.data
    modifies v, w
    ensures v.Valid() && w.Valid() && (v.data != null ==> v.data != w.data)
    ensures v.data == old(v.data) || v.data == null || fresh(v.data)
    ensures w.data == old(w.data) || w.data == null || fresh(w.data)
    ensures ok == (memory || NewBlock(old(v.size), old(v.block), size) in {0, old(v.block)})
    ensures !ok ==> v.data == old(v.data) && v.size == old(v.size) && v.block == old(v.block)
    ensures !ok ==> w.data == old(w.data) && w.size == old(w.size) && w.block == old(w.block)
    ensures ok ==> v.size == size && w.size == size && v.block == w.block == NewBlock(old(v.size), old(v.block), size)
    ensures ok ==> Kept(old(v.Contents()), v.Contents(), size) && Kept(old(w.Contents()), w.Contents(), size)
  {
    var r := v.Resize(size, memory);
    if r != 0 {
      return false;
    }
    r := w.Resize(size, memory);
    return true;
  }

  /** memcpy */
  method CopyWords(from: array<int>, to: array<int>, n: nat)
    requires n <= from.Length && n <= to.Length && from != to
    modifies to
    ensures to[..n] == from[..n]
  {
    for i := 0 to n
      invariant to[..i] == from[..i]
    {
      to[i] := from[i];
    }
  }

  /** As many nodes again, eight at first, at most `limit` if that is positive. */
  function Growth(n: nat, limit: int): (g: nat)
    ensures g > 0
  {
    var count := if n == 0 then 8 else n;
    if 0 < limit < count then limit else count
  }

  class Pool {
    const vprev: Vector
    const vnext: Vector
    const vmode: Vector
    const vdata: Vector
    const nodeSize: nat
    const growLimit: int
    var nodeFree: int
    var nodeUsed: int
    var nodeMax: nat
    var listOpen: int
    var listClose: int

    /** What the columns hold. */
    ghost var t: Table

    /** The nodes of the two lists, head first. */
    ghost var open: seq<int>
    ghost var close: seq<int>

    ghost predicate Column(v: Vector, n: nat)
      reads v
    {
      v.Valid() && v.size == n
    }

    /** The columns hold `t`, and lie apart from each other. */
    ghost predicate ColumnFacts(n: nat)
      reads `t, vprev, vnext, vmode, vdata, vprev.data, vnext.data, vmode.data, vdata.data
    {
      && Apart(n) && vprev.Contents() == t.prev && vnext.Contents() == t.next
      && vmode.Contents() == t.mode && vdata.Contents() == t.data
    }

    /** The columns are of one length, with blocks of one size and of their own. */
    ghost predicate Apart(n: nat)
      reads vprev, vnext, vmode, vdata
    {
      && Column(vprev, n) && Column(vnext, n) && Column(vmode, n) && Column(vdata, n)
      && vprev.block == vnext.block == vmode.block == vdata.block
      && vprev != vnext && vprev != vmode && vprev != vdata && vnext != vmode && vnext != vdata && vmode != vdata
      && (vprev.data != null ==> vprev.data != vnext.data && vprev.data != vmode.data && vprev.data != vdata.data)
      && (vnext.data != null ==> vnext.data != vmode.data && vnext.data != vdata.data)
      && (vmode.data != null ==> vmode.data != vdata.data)
    }

    /** The same, kept folded but for the lengths. */
    ghost predicate Columns(n: nat)
      reads `t, vprev, vnext, vmode, vdata, vprev.data, vnext.data, vmode.data, vdata.data
    {
      && |t.prev| == |t.next| == |t.mode| == |t.data| == n
      && forall m: nat {:trigger ColumnFacts(m)} :: m == n ==> ColumnFacts(m)
    }

    ghost predicate Counted()
      reads this
    {
      nodeFree == |open| && nodeUsed == |close| && listOpen == Nth(open, 0) && listClose == Nth(close, 0)
    }

    ghost predicate Valid()
      reads this, vprev, vnext, vmode, vdata, vprev.data, vnext.data, vmode.data, vdata.data
    {
      && Columns(nodeMax) && Counted()
      && TwoLists(t, open, close) && BlocksApart(t.data, nodeSize, 0, 0)
    }

    constructor (nodeSize: nat, growLimit: int)
      ensures Valid() && nodeMax == 0 && open == [] && close == []
      ensures this.nodeSize == nodeSize && this.growLimit == growLimit
      ensures fresh(vprev) && fresh(vnext) && fresh(vmode) && fresh(vdata)
      ensures vprev.data == vnext.data == vmode.data == vdata.data == null
    {
      this.nodeSize, this.growLimit := nodeSize, growLimit;
      vprev := new Vector();
      vnext := new Vector();
      vmode := new Vector();
      vdata := new Vector();
      nodeFree, nodeUsed, nodeMax, listOpen, listClose := 0, 0, 0, -1, -1;
      open, close, t := [], [], Table([], [], [], []);
    }

    method SetPrev(i: nat, x: int, ghost n: nat)
      requires Columns(n) && i < n
      modifies `t, vprev.data
      ensures Columns(n) && t == old(t).(prev := old(t).prev[i := x])
    {
      assert ColumnFacts(n);
      vprev.data[i] := x;
      t := t.(prev := t.prev[i := x]);
    }

    method SetNext(i: nat, x: int, ghost n: nat)
      requires Columns(n) && i < n
      modifies `t, vnext.data
      ensures Columns(n) && t == old(t).(next := old(t).next[i := x])
    {
      assert ColumnFacts(n);
      vnext.data[i] := x;
      t := t.(next := t.next[i := x]);
    }

    method SetMode(i: nat, x: int, ghost n: nat)
      requires Columns(n) && i < n
      modifies `t, vmode.data
      ensures Columns(n) && t == old(t).(mode := old(t).mode[i := x])
    {
      assert ColumnFacts(n);
      vmode.data[i] := x;
      t := t.(mode := t.mode[i := x]);
    }

    method SetData(i: nat, x: int, ghost n: nat)
      requires Columns(n) && i < n
      modifies `t, vdata.data
      ensures Columns(n) && t == old(t).(data := old(t).data[i := x])
    {
      assert ColumnFacts(n);
      vdata.data[i] := x;
      t := t.(data := t.data[i := x]);
    }

    // ----- imnode_new and imnode_del

    /** The links of a node moved from the front of one list to the front of the other. */
    method Relink(node: nat, head: int, ghost n: nat) returns (after: int)
      requires Columns(n) && node < n && head < n && t.next[node] < n
      modifies `t, vprev.data, vnext.data, vmode.data
      ensures Columns(n) && after == old(t).next[node] && t == Moved(old(t), node, head)
    {
      assert ColumnFacts(n);
      after := vnext.data[node];
      if after >= 0 {
        SetPrev(after, -1, n);
      }
      SetPrev(node, -1, n);
      SetNext(node, head, n);
      if head >= 0 {
        SetPrev(head, node, n);
      }
      SetMode(node, 1, n);
    }

    /** The first open node goes to the front of the close list. */
    method MoveFirst() returns (node: nat)
      requires Valid() && open != []
      modifies this, vprev.data, vnext.data, vmode.data
      ensures Valid() && nodeMax == old(nodeMax) && node == old(open)[0]
      ensures open == old(open)[1..] && close == [node] + old(close)
      ensures t.data == old(t).data
    {
      MoveOk(t, open, close);
      node := listOpen;
      listOpen := Relink(node, listClose, nodeMax);
      listClose := node;
      nodeFree, nodeUsed := nodeFree - 1, nodeUsed + 1;
      open, close := open[1..], [node] + close;
    }

    /** The links of a node moved from anywhere in the close list to the front of the open list. */
    method Unlink(node: nat, ghost n: nat) returns (before: int, after: int)
      requires Columns(n) && node < n && listOpen < n && t.next[node] < n && t.prev[node] < n
      modifies `t, vprev.data, vnext.data, vmode.data
      ensures Columns(n) && before == old(t).prev[node] && after == old(t).next[node]
      ensures t == Freed(old(t), node, listOpen)
    {
      assert ColumnFacts(n);
      after := vnext.data[node];
      before := vprev.data[node];
      if after >= 0 {
        SetPrev(after, before, n);
      }
      if before >= 0 {
        SetNext(before, after, n);
      }
      SetPrev(node, -1, n);
      SetNext(node, listOpen, n);
      if listOpen >= 0 {
        SetPrev(listOpen, node, n);
      }
      SetMode(node, 0, n);
    }

    /** A node that was handed out is marked as used. */
    lemma {:induction false} ClosedUsed(node: nat)
      requires Valid() && node in close
      ensures node < nodeMax && |t.mode| == nodeMax && t.mode[node] == 1
    {
      assert ColumnFacts(nodeMax);
      InRange(t.prev, t.next, close, node);
      assert Listed(t, open, close, node);
    }

    /** imnode_del: a used node becomes the first open one; the order of the others stays. */
    method Del(node: nat) returns (ghost k: nat)
      requires Valid() && node < nodeMax && t.mode[node] != 0
      modifies this, vprev.data, vnext.data, vmode.data
      ensures Valid() && nodeMax == old(nodeMax) && k < |old(close)| && old(close)[k] == node
      ensures open == [node] + old(open) && close == old(close)[..k] + old(close)[k + 1..]
      ensures t.data == old(t).data
    {
      assert Listed(t, open, close, node);
      k :| k < |close| && close[k] == node;
      Release(node, k);
    }

    method Release(node: nat, ghost k: nat)
      requires Valid() && k < |close| && close[k] == node
      modifies this, vprev.data, vnext.data, vmode.data
      ensures Valid() && nodeMax == old(nodeMax)
      ensures open == [node] + old(open) && close == old(close)[..k] + old(close)[k + 1..]
      ensures t.data == old(t).data
    {
      FreeOk(t, open, close, k);
      HeadAfter(close, k);
      var before, after := Unlink(node, nodeMax);
      if before < 0 {
        listClose := after;
      }
      listOpen := node;
      nodeFree, nodeUsed := nodeFree + 1, nodeUsed - 1;
      open, close := [node] + open, close[..k] + close[k + 1..];
    }

    // ----- imnode_grow

    /** imnode_node_resize */
    method ResizeColumns(n: nat, size: nat, memory: bool) returns (ok: bool)
      requires Columns(n)
      modifies `t, vprev, vnext, vmode, vdata
      ensures memory ==> ok
      ensures ok ==> Columns(size) && KeptRows(old(t), t, size)
      ensures !ok ==> Columns(n) && t == old(t)
      ensures FreshColumns(old(vprev.data), old(vnext.data), old(vmode.data), old(vdata.data))
    {
      assert ColumnFacts(n);
      ok := ResizeTwo(vprev, vnext, size, memory);
      if !ok {
        return;
      }
      ok := ResizeTwo(vmode, vdata, size, memory);
      Reread(size);
    }

    ghost method Reread(n: nat)
      requires Apart(n)
      modifies `t
      ensures Columns(n) && t == Table(vprev.Contents(), vnext.Contents(), vmode.Contents(), vdata.Contents())
    {
      t := Table(vprev.Contents(), vnext.Contents(), vmode.Contents(), vdata.Contents());
    }

    twostate predicate FreshColumns(p: array?<int>, n: array?<int>, m: array?<int>, d: array?<int>)
      reads vprev, vnext, vmode, vdata
    {
      && (vprev.data == p || vprev.data == null || fresh(vprev.data))
      && (vnext.data == n || vnext.data == null || fresh(vnext.data))
      && (vmode.data == m || vmode.data == null || fresh(vmode.data))
      && (vdata.data == d || vdata.data == null || fresh(vdata.data))
    }

    /** Any piece of memory for `count` nodes that no block in use reaches into, its start rounded up; or null, which
        only an allocator without `memory` gives. */
    method NewMemory(lo: nat, n: nat, count: nat, memory: bool) returns (base: int)
      requires Columns(n) && lo <= n
      ensures memory ==> base != 0
      ensures base == 0 || (base > 0 && base % 8 == 0
                && Filled(t.data, nodeSize, lo, n, base, base, base + Span(count, nodeSize)))
    {
      assert ColumnFacts(n);
      var fails: bool, length := *, count * nodeSize + 8;
      SpanIs(count, nodeSize);
      if fails && !memory {
        return 0;
      }
      var blocks := if lo == 0 then [] else vdata.data[..lo];
      ghost var above := AboveAll(blocks, nodeSize);
      assert Unused(blocks, nodeSize, above, length);
      var m :| Unused(blocks, nodeSize, m, length);
      assert Unused(blocks, nodeSize, m, length);
      base := (m + 7) / 8 * 8;
      ghost var d := t.data;
      forall i {:trigger FilledAt(d, nodeSize, lo, n, base, base, base + Span(count, nodeSize), i)}
        ensures FilledAt(d, nodeSize, lo, n, base, base, base + Span(count, nodeSize), i)
      {
        assert 0 <= i < lo ==> d[i] == vdata.data[i] == blocks[i];
      }
    }

    method Link(i: nat, p: int, ghost n: nat)
      requires Columns(n) && i < n && listOpen < n
      modifies `t, vprev.data, vnext.data, vmode.data, vdata.data
      ensures Columns(n) && t == Added(old(t), i, listOpen, p)
    {
      SetMode(i, 0, n);
      SetData(i, p, n);
      SetPrev(i, -1, n);
      SetNext(i, listOpen, n);
      if listOpen >= 0 {
        SetPrev(listOpen, i, n);
      }
    }

    ghost predicate Adding(lo: nat, hi: nat, n: nat, base: int, p: int, end: int)
      reads this, vprev, vnext, vmode, vdata, vprev.data, vnext.data, vmode.data, vdata.data
    {
      && Columns(n) && lo <= hi <= n && Counted() && Growing(t, open, close, lo, hi)
      && BlocksApart(t.data, nodeSize, lo, hi) && Filled(t.data, nodeSize, lo, hi, base, p, end)
    }

    /** One turn of the loop that links the new nodes, the last one first. */
    method AddNode(lo: nat, i: nat, p: int, ghost n: nat, ghost base: int, ghost end: int)
      requires Adding(lo, i + 1, n, base, p, end) && lo <= i && base <= p && p + nodeSize <= end
      modifies `t, `listOpen, `nodeFree, `open, vprev.data, vnext.data, vmode.data, vdata.data
      ensures Adding(lo, i, n, base, p + nodeSize, end) && open == [i] + old(open)
      ensures t.data == old(t).data[i := p]
    {
      AddOk(t, open, close, lo, i + 1, p);
      BlockAdded(t.data, nodeSize, lo, i + 1, base, p, end);
      Link(i, p, n);
      listOpen := i;
      nodeFree := nodeFree + 1;
      open := [i] + open;
    }

    method AddNodes(lo: nat, count: nat, base: int)
      requires Adding(lo, lo + count, lo + count, base, base, base + Span(count, nodeSize))
      modifies `t, `listOpen, `nodeFree, `open, vprev.data, vnext.data, vmode.data, vdata.data
      ensures Adding(lo, lo, lo + count, base, base + Span(count, nodeSize), base + Span(count, nodeSize))
      ensures |open| == |old(open)| + count && t.data[..lo] == old(t).data[..lo]
    {
      ghost var n, end := lo + count, base + Span(count, nodeSize);
      var j, p := 0, base;
      while j < count
        invariant 0 <= j <= count && p == base + Span(j, nodeSize) && Adding(lo, n - j, n, base, p, end)
        invariant |open| == |old(open)| + j && t.data[..lo] == old(t).data[..lo]
      {
        SpanGrows(j + 1, count, nodeSize);
        AddNode(lo, lo + count - 1 - j, p, n, base, end);
        p := p + nodeSize;
        j := j + 1;
      }
    }

    /** imnode_grow: as many nodes again as there are, eight at first, at most `growLimit` if that is positive.  It
        works whenever the allocator has `memory`; without, it may or may not. */
    method Grow(memory: bool) returns (ok: bool)
      requires Valid()
      modifies this, vprev, vnext, vmode, vdata, vprev.data, vnext.data, vmode.data, vdata.data
      ensures Valid() && close == old(close)
      ensures memory ==> ok
      ensures !ok ==> open == old(open) && nodeMax == old(nodeMax) && t == old(t)
      ensures ok ==> nodeMax == old(nodeMax) + Growth(old(nodeMax), growLimit)
      ensures ok ==> |open| == |old(open)| + nodeMax - old(nodeMax)
      ensures ok ==> t.data[..old(nodeMax)] == old(t).data
      ensures FreshColumns(old(vprev.data), old(vnext.data), old(vmode.data), old(vdata.data))
    {
      var count: nat := if nodeMax <= 0 then 8 else nodeMax;
      if growLimit > 0 && count > growLimit {
        count := growLimit;
      }
      ghost var was := t;
      var base;
      ok, base := Enlarge(nodeMax, count, memory);
      if ok {
        Populate(count, base, was);
      }
    }

    /** Longer columns and memory for the new nodes, or neither. */
    method Enlarge(n: nat, count: nat, memory: bool) returns (ok: bool, base: int)
      requires Columns(n)
      modifies `t, vprev, vnext, vmode, vdata
      ensures memory ==> ok
      ensures ok ==> Columns(n + count) && Extends(old(t), t)
      ensures ok ==> Filled(t.data, nodeSize, n, n + count, base, base, base + Span(count, nodeSize))
      ensures !ok ==> Columns(n) && t == old(t)
      ensures FreshColumns(old(vprev.data), old(vnext.data), old(vmode.data), old(vdata.data))
    {
      var luck: bool := *;
      ghost var was := t;
      base := 0;
      ok := ResizeColumns(n, n + count, memory || luck);
      if !ok {
        return;
      }
      ghost var u := t;
      KeptExtends(was, u, n, n + count);
      base := NewMemory(n, n + count, count, memory);
      if base == 0 {
        ok := ResizeColumns(n + count, n, true);
        Restored(was, u, t, n + count, n);
        ok := false;
      }
    }

    method Populate(count: nat, base: int, ghost was: Table)
      requires Columns(nodeMax + count) && Counted() && count > 0
      requires TwoLists(was, open, close) && |was.prev| == nodeMax && BlocksApart(was.data, nodeSize, 0, 0)
      requires Extends(was, t)
      requires Filled(t.data, nodeSize, nodeMax, nodeMax + count, base, base, base + Span(count, nodeSize))
      modifies this, vprev.data, vnext.data, vmode.data, vdata.data
      ensures Valid() && close == old(close) && nodeMax == old(nodeMax) + count && |open| == |old(open)| + count
      ensures t.data[..old(nodeMax)] == was.data
    {
      Lengthened(was, t, open, close);
      StillApart(was.data, t.data, nodeSize);
      AddNodes(nodeMax, count, base);
      Grown(t, open, close, nodeMax);
      AllApart(t.data, nodeSize, nodeMax);
      nodeMax := nodeMax + count;
    }

    /** A node just handed out is given back, and the same nodes are in use as before. */
    method NewThenDel(memory: bool) returns (node: int)
      requires Valid()
      modifies this, vprev, vnext, vmode, vdata, vprev.data, vnext.data, vmode.data, vdata.data
      ensures Valid() && close == old(close) && (node >= 0 ==> open != [] && open[0] == node) && (memory ==> node >= 0)
    {
      node := New(memory);
      if node >= 0 {
        ClosedUsed(node);
        ghost var k := Del(node);
        OnlyInFront(old(close), node, k);
      }
    }

    /** imnode_new: the first open node, handed out; the pool grows when there is none, and -2 reports that it
        cannot, which does not happen while the allocator has `memory`. */
    method New(memory: bool) returns (node: int)
      requires Valid()
      modifies this, vprev, vnext, vmode, vdata, vprev.data, vnext.data, vmode.data, vdata.data
      ensures Valid() && nodeMax >= old(nodeMax) && t.data[..old(nodeMax)] == old(t).data
      ensures node == -2 || 0 <= node < nodeMax
      ensures node == -2 ==> !memory && old(open) == [] && open == [] && close == old(close) && nodeMax == old(nodeMax)
      ensures node != -2 ==> node !in old(close) && close == [node] + old(close)
      ensures node != -2 && old(open) != [] ==> node == old(open)[0]
      ensures FreshColumns(old(vprev.data), old(vnext.data), old(vmode.data), old(vdata.data))
    {
      HeadIs(t, open);
      if listOpen < 0 {
        var ok := Grow(memory);
        if !ok {
          return -2;
        }
      }
      assert open != [];
      MoveOk(t, open, close);
      node := MoveFirst();
    }
  }

  /** No block reaches into `length` bytes at `m`. */
  predicate Unused(blocks: seq<int>, nodeSize: nat, m: int, length: nat) {
    m > 0 && forall i :: 0 <= i < |blocks| ==> blocks[i] + nodeSize <= m || m + length <= blocks[i]
  }

  /** An address above all of some blocks. */
  lemma {:induction false} AboveAll(d: seq<int>, nodeSize: nat) returns (m: int)
    ensures m > 0 && forall i :: 0 <= i < |d| ==> d[i] + nodeSize <= m
  {
    m := 1;
    if d != [] {
      var last := d[|d| - 1] + nodeSize;
      m := AboveAll(d[..|d| - 1], nodeSize);
      m := if m < last then last else m;
    }
  }

  ghost predicate KeptRows(a: Table, b: Table, size: nat) {
    && Kept(a.prev, b.prev, size) && Kept(a.next, b.next, size)
    && Kept(a.mode, b.mode, size) && Kept(a.data, b.data, size)
  }

  lemma {:induction false} KeptExtends(a: Table, b: Table, n: nat, size: nat)
    requires |a.prev| == |a.next| == |a.mode| == |a.data| == n <= size && KeptRows(a, b, size)
    ensures Extends(a, b)
  {
    assert KeptFacts(a.prev, b.prev, size) && KeptFacts(a.next, b.next, size);
    assert KeptFacts(a.mode, b.mode, size) && KeptFacts(a.data, b.data, size);
  }

  lemma {:induction false} Restored(a: Table, b: Table, c: Table, more: nat, n: nat)
    requires |a.prev| == |a.next| == |a.mode| == |a.data| == n <= more && KeptRows(a, b, more) && KeptRows(b, c, n)
    ensures c == a
  {
    assert KeptFacts(a.prev, b.prev, more) && KeptFacts(b.prev, c.prev, n);
    assert KeptFacts(a.next, b.next, more) && KeptFacts(b.next, c.next, n);
    assert KeptFacts(a.mode, b.mode, more) && KeptFacts(b.mode, c.mode, n);
    assert KeptFacts(a.data, b.data, more) && KeptFacts(b.data, c.data, n);
  }

  lemma {:induction false} HeadIs(t: Table, open: seq<int>)
    requires DList(t.prev, t.next, open)
    ensures Nth(open, 0) < 0 <==> open == []
  {
    if open != [] {
      InRange(t.prev, t.next, open, open[0]);
    }
  }

  /** The memory that `k` nodes take. */
  ghost function Span(k: nat, size: nat): nat {
    if k == 0 then 0 else Span(k - 1, size) + size
  }

  lemma {:induction false} SpanIs(k: nat, size: nat)
    ensures Span(k, size) == k * size
  {
    if k > 0 {
      SpanIs(k - 1, size);
    }
  }

  lemma {:induction false} SpanGrows(j: nat, k: nat, size: nat)
    requires j <= k
    ensures Span(j, size) <= Span(k, size)
    decreases k
  {
    if j < k {
      SpanGrows(j, k - 1, size);
    }
  }

  lemma {:induction false} StillApart(data: seq<int>, d: seq<int>, size: int)
    requires BlocksApart(data, size, 0, 0) && |d| >= |data| && d[..|data|] == data
    ensures BlocksApart(d, size, |data|, |d|)
  {
    forall i, j {:trigger ApartAt(d, size, |data|, |d|, i, j)} ensures ApartAt(d, size, |data|, |d|, i, j) {
      assert ApartAt(data, size, 0, 0, i, j);
      assert 0 <= i < |data| ==> d[..|data|][i] == d[i];
      assert 0 <= j < |data| ==> d[..|data|][j] == d[j];
    }
  }

  lemma {:induction false} AllApart(data: seq<int>, size: int, lo: int)
    requires BlocksApart(data, size, lo, lo)
    ensures BlocksApart(data, size, 0, 0)
  {
    forall i, j {:trigger ApartAt(data, size, 0, 0, i, j)} ensures ApartAt(data, size, 0, 0, i, j) {
      assert ApartAt(data, size, lo, lo, i, j);
    }
  }

  lemma {:induction false} HeadAfter(s: seq<int>, k: nat)
    requires k < |s|
    ensures Nth(s[..k] + s[k + 1..], 0) == if k == 0 then Nth(s, 1) else Nth(s, 0)
  {
  }
}
