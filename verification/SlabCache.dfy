/** common/xmalloc/imembase.c: a cache of slabs in three queues, with a magazine of ready units in front.

  The queues are sequences of slab addresses, head first.  Pages come from a supplier that may fail
  and otherwise returns any aligned page that overlaps no page in use.
 */
module SlabCache {
  import opened Basics
  import opened Arith
  import opened SlabLayout
  import opened SlabUnits
  import opened SlabQueues

  // ----- imslab_init

  /** Linking a unit behind the last one of a chain. */
  lemma {:induction false} Appended(mem: map<int, int>, p: int, ch: seq<int>, a: int, w: map<int, int>)
    requires Chain(mem, p, ch) && NoDup(ch) && a != 0 && a !in ch
    requires w == if ch == [] then mem[a := 0] else mem[a := 0][ch[|ch| - 1] := a]
    ensures Chain(w, if ch == [] then a else p, ch + [a])
    decreases ch
  {
    if ch == [] {
      assert [a][1..] == [];
    } else if |ch| == 1 {
      assert (ch + [a])[1..] == [a] && [a][1..] == [];
    } else {
      var rest := ch[1..];
      assert (ch + [a])[1..] == rest + [a];
      assert p == ch[0] && p !in rest && rest[|rest| - 1] == ch[|ch| - 1];
      Appended(mem, mem[p], rest, a, w);
    }
  }

  ghost predicate Gap(ch: seq<int>, unit: int) {
    forall a, b :: a in ch && b in ch && a < b ==> a + unit <= b
  }

  /** Where the loop of imslab_init stands: `ch` lists the units linked so far, `tail` is the last one. */
  ghost predicate Linking(lo: int, start: int, unit: int, ch: seq<int>, links: map<int, int>, bufctl: int, tail: int) {
    && start % 8 == 0 && start >= lo && links.Keys == Elems(ch)
    && (forall a :: a in ch ==> a % 8 == 0 && lo <= a && a + unit <= start)
    && NoDup(ch) && Gap(ch, unit) && Chain(links, bufctl, ch)
    && tail == (if ch == [] then 0 else ch[|ch| - 1])
  }

  lemma {:induction false} LinkOne(lo: int, start: int, unit: int, ch: seq<int>, links: map<int, int>, bufctl: int,
                                   tail: int)
    requires Linking(lo, start, unit, ch, links, bufctl, tail) && lo > 0 && unit > 0 && unit % 8 == 0
    ensures tail == 0 <==> ch == []
    ensures Linking(lo, start + unit, unit, ch + [start],
                    if tail == 0 then links[start := 0] else links[start := 0][tail := start],
                    if tail == 0 then start else bufctl, start)
  {
    assert ch != [] ==> tail in ch && tail in Elems(ch);
    assert start !in ch;
    Appended(links, bufctl, ch, start, if tail == 0 then links[start := 0] else links[start := 0][tail := start]);
    ConsElems(start, ch);
    Aligned(start, unit);
  }

  /** The units of a page, linked in order of address from `bufctl` on. */
  ghost predicate Linked(page: int, first: int, unit: int, pageSize: int, ch: seq<int>, links: map<int, int>,
                         bufctl: int) {
    && Chain(links, bufctl, ch) && NoDup(ch) && links.Keys == Elems(ch) && Gap(ch, unit)
    && forall a :: a in ch ==> a % 8 == 0 && page + first <= a && a + unit <= page + pageSize
  }

  /** imslab_init: links the units of a page, in order of address. */
  method InitChain(page: int, first: nat, unit: nat, pageSize: nat)
      returns (bufctl: int, count: nat, links: map<int, int>, ghost ch: seq<int>)
    requires unit > 0 && unit % 8 == 0 && page > 0 && page % 8 == 0 && first % 8 == 0
    ensures Linked(page, first, unit, pageSize, ch, links, bufctl)
    ensures count == |ch| && (first <= pageSize ==> count == UnitCount(pageSize, unit, first))
  {
    var start, endup, tail := page + first, page + pageSize - unit, 0;
    bufctl, count, links, ch := 0, 0, map[], [];
    Aligned(page, first);
    while start <= endup
      invariant Linking(page + first, start, unit, ch, links, bufctl, tail)
      invariant count == |ch| && start == page + first + count * unit
      invariant count > 0 ==> start <= page + pageSize
      decreases endup - start
    {
      LinkOne(page + first, start, unit, ch, links, bufctl, tail);
      NextMultiple(count, unit);
      links := links[start := 0];
      if tail == 0 {
        bufctl := start;
      } else {
        links := links[tail := start];
      }
      ch := ch + [start];
      tail := start;
      count := count + 1;
      start := start + unit;
    }
    AllLinked(page, first, unit, pageSize, count, start, ch, links, bufctl, tail);
  }

  lemma {:induction false} AllLinked(page: int, first: nat, unit: nat, pageSize: nat, count: nat, start: int,
                                     ch: seq<int>, links: map<int, int>, bufctl: int, tail: int)
    requires Linking(page + first, start, unit, ch, links, bufctl, tail) && unit > 0
    requires count == |ch| && start == page + first + count * unit && start > page + pageSize - unit
    requires count > 0 ==> start <= page + pageSize
    ensures Linked(page, first, unit, pageSize, ch, links, bufctl)
    ensures first <= pageSize ==> count == UnitCount(pageSize, unit, first)
  {
    if first <= pageSize {
      DivUnique(pageSize - first, unit, count, page + pageSize - start);
    }
  }

  lemma {:induction false} NextMultiple(k: int, m: int)
    ensures (k + 1) * m == k * m + m
  {
  }

  lemma {:induction false} Aligned(x: int, y: int)
    requires x % 8 == 0 && y % 8 == 0
    ensures (x + y) % 8 == 0
  {
  }

  // ----- A new slab

  /** The units of `v` are those of `u` and `num` new ones, all free, of a slab at `s`. */
  ghost predicate Grew(u: Units, v: Units, s: int, num: nat) {
    && s > 0 && s !in u.slabs && s in v.slabs && v.slabs[s].inuse == 0 && v.slabs == u.slabs[s := v.slabs[s]]
    && s in v.chains && v.chains[s] != [] && v.chains == u.chains[s := v.chains[s]]
    && v.loose == u.loose && v.held == u.held && |v.chained| == |u.chained| + num
  }

  /** Units of a page that overlaps no page in use are new. */
  lemma {:induction false} FreshPage(u: Units, pageSize: int, unit: int, s: int, rec: Slab, first: nat, ch: seq<int>,
                                     links: map<int, int>)
    requires UnitsOk(u, pageSize - unit + 1) && s !in u.slabs && s > 0 && s % 8 == 0 && rec.inuse == 0
    requires rec.membase > 0
    requires PageIsNew(u.slabs, pageSize, rec.membase) && unit > 0 && ch != []
    requires Linked(rec.membase, first, unit, pageSize, ch, links, rec.bufctl)
    ensures Fresh(u, pageSize - unit + 1, s, rec, ch, links)
  {
    assert Facts(u, pageSize - unit + 1);
    forall a | a in u.owner ensures a !in ch {
      if a in ch {
        NewUnitApart(u, pageSize, unit, rec.membase, a, a);
      }
    }
  }

  /** `v` is `u` with the new slab; kept folded. */
  ghost predicate Added(v: Units, u: Units, s: int, rec: Slab, ch: seq<int>, links: map<int, int>) {
    forall w {:trigger Add(w, s, rec, ch, links)} :: w == u ==> v == Add(w, s, rec, ch, links)
  }

  lemma {:induction false} AddSlab(u: Units, s: int, rec: Slab, ch: seq<int>, links: map<int, int>) returns (v: Units)
    ensures Added(v, u, s, rec, ch, links) && v.slabs == u.slabs[s := rec] && v.mem == u.mem + links
  {
    v := Add(u, s, rec, ch, links);
  }

  lemma {:induction false} AddedOk(v: Units, u: Units, span: int, s: int, rec: Slab, ch: seq<int>, links: map<int, int>)
    requires UnitsOk(u, span) && Fresh(u, span, s, rec, ch, links) && Added(v, u, s, rec, ch, links)
    ensures UnitsOk(v, span)
  {
    assert v == Add(u, s, rec, ch, links);
    AddOk(u, span, s, rec, ch, links);
  }

  lemma {:induction false} AddedStable(v: Units, u: Units, span: int, s: int, rec: Slab, ch: seq<int>,
                                       links: map<int, int>)
    requires UnitsOk(u, span) && Fresh(u, span, s, rec, ch, links) && Added(v, u, s, rec, ch, links)
    ensures Stable(u, v)
  {
    assert v == Add(u, s, rec, ch, links);
    StableAdd(u, span, s, rec, ch, links);
  }

  lemma {:induction false} AddedGrows(v: Units, u: Units, span: int, s: int, rec: Slab, ch: seq<int>,
                                      links: map<int, int>)
    requires UnitsOk(u, span) && Fresh(u, span, s, rec, ch, links) && Added(v, u, s, rec, ch, links)
    ensures Grew(u, v, s, |ch|)
  {
    assert v == Add(u, s, rec, ch, links);
    assert FreshFacts(u, span, s, rec, ch, links);
    NewUnitsCounted(u, span, s, rec, ch, links);
  }

  lemma {:induction false} AddedSpread(v: Units, u: Units, pageSize: int, unit: int, header: int, offSlab: bool,
                                       s: int, rec: Slab, first: nat, ch: seq<int>, links: map<int, int>)
    requires UnitsOk(u, pageSize - unit + 1) && PageIsNew(u.slabs, pageSize, rec.membase)
    requires Linked(rec.membase, first, unit, pageSize, ch, links, rec.bufctl) && Added(v, u, s, rec, ch, links)
    requires Spread(u.owner, unit, header, offSlab) && (!offSlab ==> s + header <= rec.membase + first)
    ensures Spread(v.owner, unit, header, offSlab)
  {
    assert v == Add(u, s, rec, ch, links);
    SpreadMore(u, v.owner, pageSize, unit, header, offSlab, rec.membase, s, ch);
  }

  lemma {:induction false} NewUnitsCounted(u: Units, span: int, s: int, rec: Slab, ch: seq<int>, links: map<int, int>)
    requires UnitsOk(u, span) && Fresh(u, span, s, rec, ch, links)
    ensures |u.chained + Elems(ch)| == |u.chained| + |ch|
  {
    assert FreshFacts(u, span, s, rec, ch, links);
    assert Facts(u, span);
    assert u.chained !! Elems(ch);
    ElemsSize(ch);
  }

  // ----- The cache

  /** The bitwise or of a word with the mark. */
  function WithMark(w: int): int {
    w - w % 8 + if w % 8 in {0, 1, 4, 5} then 5 else 7
  }

  class Cache {
    const ptr: nat
    const pageSize: nat
    const objSize: nat
    const unit: nat
    const layout: Layout
    const limit: nat
    const batchCount: nat
    const freeLimit: nat
    const noDrain: bool

    var slabs: map<int, Slab>
    var mem: map<int, int>
    var partial: seq<int>
    var full: seq<int>
    var free: seq<int>
    var countPartial: int
    var countFull: int
    var countFree: int
    var freeObjects: int
    var colorNext: nat
    var entry: seq<int>
    var pagesNew: int
    var pagesDel: int
    var pagesInuse: int
    var pagesHiwater: int

    /** Which unit is where; it follows `slabs` and `mem`. */
    ghost var st: Units

    ghost predicate Roomy(c: nat)
      requires unit > 0
    {
      var first := FirstUnit(ptr, layout, c);
      first % 8 == 0 && first <= pageSize && UnitCount(pageSize, unit, first) >= layout.num
    }

    /** Every colour leaves room for the planned number of units. */
    ghost predicate Sized() {
      && unit > 0 && unit % 8 == 0 && objSize + ptr <= unit && ptr in {4, 8}
      && layout.num >= 1 && 0 < batchCount <= limit <= 64
      && forall c: nat {:trigger ColorOk(layout, c)} :: ColorOk(layout, c) ==> Roomy(c)
    }

    ghost predicate Counted()
      reads this
    {
      && countPartial == |partial| && countFull == |full| && countFree == |free|
      && freeObjects == |st.chained|
    }

    ghost predicate PagesCounted()
      reads this
    {
      pagesNew - pagesDel == pagesInuse == |slabs| && pagesDel >= 0
    }

    /** Units, pages and colours. */
    ghost predicate SlabsOk()
      reads this
    {
      && Sized() && st.slabs == slabs && st.mem == mem && UnitsOk(st, pageSize - unit + 1)
      && PagesOk(slabs, pageSize, layout.offSlab) && Spread(st.owner, unit, HeaderSize(ptr), layout.offSlab)
      && ColorOk(layout, colorNext) && PagesCounted()
    }

    /** The slab layer: everything but the contents of the magazine. */
    ghost predicate ListsOk()
      reads this
    {
      SlabsOk() && Placed(st, partial, full, free) && Counted()
    }

    /** Every unit is on a free chain, in the magazine or in a caller's hands; every slab is in the queue for
        its state; every counter is right; no two pages or units overlap. */
    ghost predicate Valid()
      reads this
    {
      ListsOk() && Magazine(st.loose, entry, ptr) && |entry| <= limit
    }

    constructor (ptr: nat, pageSize: nat, objSize: nat, noDrain: bool)
      requires SizesOk(ptr, pageSize, objSize)
      ensures Valid() && st.held == {} && slabs == map[] && layout == Calculate(ptr, pageSize, objSize)
      ensures this.ptr == ptr && this.pageSize == pageSize && this.objSize == objSize && this.noDrain == noDrain
    {
      var l := Calculate(ptr, pageSize, objSize);
      var lim := l.batchCount + l.num;
      this.ptr, this.pageSize, this.objSize, this.noDrain := ptr, pageSize, objSize, noDrain;
      unit, layout, freeLimit := UnitSize(ptr, objSize), l, lim;
      limit := if lim >= 64 then 64 else lim;
      batchCount := (if lim >= 64 then 64 else lim) / 2;
      slabs, mem, partial, full, free := map[], map[], [], [], [];
      countPartial, countFull, countFree, freeObjects, colorNext := 0, 0, 0, 0, 0;
      entry, pagesNew, pagesDel, pagesInuse, pagesHiwater := [], 0, 0, 0, 0;
      st := Units(map[], map[], map[], map[], map[], {}, {}, {});
      new;
      HeaderLeavesRoom(ptr, pageSize, objSize);
      BatchAtLeast(ptr, pageSize, objSize);
      forall c: nat | ColorOk(layout, c) ensures Roomy(c) {
        EnoughUnits(ptr, pageSize, objSize, c);
        FirstAligned(ptr, layout, c);
      }
    }

    // ----- imemcache_slab_create

    /** Any page from the supplier, or null, which only a supplier without `memory` gives. */
    method NewPage(memory: bool) returns (page: int)
      ensures page == 0 || (page > 0 && page % 8 == 0 && PageIsNew(slabs, pageSize, page))
      ensures memory ==> page != 0
    {
      var fails: bool := *;
      if fails && !memory {
        return 0;
      }
      ghost var above := RoomAbove(slabs, pageSize);
      assert forall s :: s in slabs ==> PageApart(slabs, pageSize, above, s);
      page :| page > 0 && page % 8 == 0 && forall s :: s in slabs ==>
                page + pageSize <= slabs[s].membase || slabs[s].membase + pageSize <= page;
    }

    /** Any descriptor from the set of off-slab headers, or null, which only a set without `memory` gives. */
    method NewDescriptor(memory: bool) returns (slab: int)
      ensures slab == 0 || (slab > 0 && slab % 8 == 0 && slab !in slabs)
      ensures memory ==> slab != 0
    {
      var fails: bool := *;
      if fails && !memory {
        return 0;
      }
      ghost var above := RoomAbove(slabs, pageSize);
      slab :| slab > 0 && slab % 8 == 0 && slab !in slabs;
    }

    /** A page, where the slab's header goes, and the offset of the first unit. */
    method PickPlace(memory: bool) returns (page: int, slab: int, first: nat)
      requires Sized() && ColorOk(layout, colorNext) && PagesOk(slabs, pageSize, layout.offSlab)
      ensures page == 0 ==> slab == 0 && !memory
      ensures page != 0 ==> page > 0 && page % 8 == 0 && slab > 0 && slab % 8 == 0 && slab !in slabs
      ensures page != 0 ==> first == FirstUnit(ptr, layout, colorNext) && Roomy(colorNext)
      ensures page != 0 ==> PageIsNew(slabs, pageSize, page)
      ensures page != 0 && !layout.offSlab ==> page <= slab < page + pageSize && slab + HeaderSize(ptr) == page + first
    {
      slab, first := 0, colorNext;
      page := NewPage(memory);
      if page == 0 {
        return;
      }
      assert Roomy(colorNext);
      if layout.offSlab {
        slab := NewDescriptor(memory);
        if slab == 0 {
          page := 0;
        }
      } else {
        slab := page + colorNext;
        Aligned(page, colorNext);
        first := first + HeaderSize(ptr);
        HeaderIsNew(slabs, pageSize, page, slab);
      }
    }

    /** imemcache_slab_create: a slab of free units in a new page, not yet in any queue.  It is made whenever the
        suppliers have `memory`; those without may give a page or descriptor or not. */
    method SlabCreate(memory: bool) returns (slab: int, num: nat)
      requires SlabsOk()
      modifies `slabs, `mem, `st, `colorNext, `pagesNew, `pagesInuse
      ensures SlabsOk() && Stable(old(st), st)
      ensures slab == 0 ==> !memory && st == old(st) && pagesNew == old(pagesNew)
      ensures slab != 0 ==> Grew(old(st), st, slab, num) && num >= layout.num && pagesNew == old(pagesNew) + 1
    {
      num := 0;
      var page, first;
      page, slab, first := PickPlace(memory);
      if page == 0 {
        StableStep(st, st);
        return;
      }
      var bufctl, links;
      ghost var ch;
      bufctl, num, links, ch := InitChain(page, first, unit, pageSize);
      var rec := Slab(page, bufctl, 0);
      ghost var next := NewUnits(slab, rec, first, ch, links);
      PageAdded(slabs, pageSize, layout.offSlab, slab, rec);
      ColorsStayOk(layout, colorNext);
      Install(slab, rec, links, next);
    }

    /** The units with those of a new slab. */
    lemma {:induction false} NewUnits(s: int, rec: Slab, first: nat, ch: seq<int>, links: map<int, int>)
        returns (v: Units)
      requires UnitsOk(st, pageSize - unit + 1) && PageIsNew(st.slabs, pageSize, rec.membase) && unit > 0 && ch != []
      requires s !in st.slabs && s > 0 && s % 8 == 0 && rec.inuse == 0 && rec.membase > 0
      requires Linked(rec.membase, first, unit, pageSize, ch, links, rec.bufctl)
      requires Spread(st.owner, unit, HeaderSize(ptr), layout.offSlab)
      requires !layout.offSlab ==> s + HeaderSize(ptr) <= rec.membase + first
      ensures v.slabs == st.slabs[s := rec] && v.mem == st.mem + links
      ensures UnitsOk(v, pageSize - unit + 1) && Grew(st, v, s, |ch|) && Stable(st, v)
      ensures Spread(v.owner, unit, HeaderSize(ptr), layout.offSlab)
    {
      v := AddSlab(st, s, rec, ch, links);
      FreshPage(st, pageSize, unit, s, rec, first, ch, links);
      AddedOk(v, st, pageSize - unit + 1, s, rec, ch, links);
      AddedStable(v, st, pageSize - unit + 1, s, rec, ch, links);
      AddedGrows(v, st, pageSize - unit + 1, s, rec, ch, links);
      AddedSpread(v, st, pageSize, unit, HeaderSize(ptr), layout.offSlab, s, rec, first, ch, links);
    }

    method Install(slab: int, rec: Slab, links: map<int, int>, ghost next: Units)
      requires slab !in slabs && PagesCounted()
      modifies `slabs, `mem, `st, `colorNext, `pagesNew, `pagesInuse
      ensures slabs == old(slabs)[slab := rec] && mem == old(mem) + links && st == next
      ensures colorNext == NextColor(layout, old(colorNext)) && PagesCounted() && pagesNew == old(pagesNew) + 1
    {
      slabs, mem, st := slabs[slab := rec], mem + links, next;
      colorNext := NextColor(layout, colorNext);
      pagesNew, pagesInuse := pagesNew + 1, pagesInuse + 1;
    }

    // ----- imemcache_list_alloc

    /** A new slab at the head of the partial queue. */
    method CreatePartial(memory: bool) returns (slab: int)
      requires ListsOk()
      modifies `slabs, `mem, `st, `colorNext, `pagesNew, `pagesInuse, `freeObjects, `partial, `countPartial
      ensures SlabsOk() && Counted() && Stable(old(st), st) && st.loose == old(st.loose) && st.held == old(st.held)
      ensures slab == 0 ==> !memory && st == old(st) && partial == old(partial) && pagesNew == old(pagesNew)
      ensures slab != 0 ==> pagesNew == old(pagesNew) + 1 && slab !in old(slabs)
      ensures slab != 0 ==> partial == [slab] + old(partial) && PlacedBut(st, partial, full, free, slab)
      ensures slab != 0 ==> st.chains[slab] != []
    {
      var num;
      slab, num := SlabCreate(memory);
      if slab != 0 {
        NewToPartial(old(st), st, partial, full, free, slab);
        freeObjects := freeObjects + num;
        partial, countPartial := [slab] + partial, countPartial + 1;
      }
    }

    /** The first free slab, moved to the head of the partial queue. */
    method MoveToPartial() returns (slab: int)
      requires Counted() && Placed(st, partial, full, free) && |free| > 0
      modifies `free, `countFree, `partial, `countPartial
      ensures Counted() && partial == [slab] + old(partial) && PlacedBut(st, partial, full, free, slab)
      ensures slab == old(free)[0] && st.chains[slab] != []
    {
      slab := free[0];
      FreeToPartial(st, partial, full, free);
      free, countFree := free[1..], countFree - 1;
      partial, countPartial := [slab] + partial, countPartial + 1;
    }

    /** The slab to take a unit from, brought to the head of the partial queue. */
    method PickSlab(memory: bool) returns (slab: int)
      requires ListsOk()
      modifies `slabs, `mem, `st, `colorNext, `pagesNew, `pagesInuse, `freeObjects
      modifies `partial, `free, `countPartial, `countFree
      ensures SlabsOk() && Counted() && Stable(old(st), st) && st.loose == old(st.loose) && st.held == old(st.held)
      ensures slab == 0 ==> !memory && ListsOk() && st == old(st) && partial == [] && free == []
      ensures pagesNew == old(pagesNew) + if old(partial) == [] && old(free) == [] && slab != 0 then 1 else 0
      ensures old(partial) != [] ==> slab == old(partial)[0] && slabs == old(slabs)
      ensures old(partial) == [] && old(free) != [] ==> slab == old(free)[0] && slabs == old(slabs)
      ensures old(partial) == [] && old(free) == [] && slab != 0 ==> slab !in old(slabs)
      ensures slab == 0 ==> old(partial) == [] && old(free) == []
      ensures slab != 0 ==> |partial| > 0 && slab == partial[0] && PlacedBut(st, partial, full, free, slab)
      ensures slab != 0 ==> st.chains[slab] != []
    {
      if |partial| == 0 {
        if |free| == 0 {
          slab := CreatePartial(memory);
        } else {
          StableStep(st, st);
          slab := MoveToPartial();
          ChainEnds(st, pageSize - unit + 1, slab);
        }
      } else {
        StableStep(st, st);
        PartialHead(st, partial, full, free);
        slab := partial[0];
        ChainEnds(st, pageSize - unit + 1, slab);
      }
    }

    /** imslab_alloc, with the slab's address left in the unit. */
    method TakeUnit(slab: int) returns (a: int)
      requires SlabsOk() && slab in slabs && slab in st.chains && st.chains[slab] != []
      modifies `slabs, `mem, `st
      ensures SlabsOk() && Stable(old(st), st) && a == old(slabs)[slab].bufctl && a > 0
      ensures slab in slabs && slab in st.slabs && slab in st.chains
      ensures st.slabs == old(st.slabs)[slab := st.slabs[slab]]
      ensures st.chains == old(st.chains)[slab := st.chains[slab]] && st.chained == old(st.chained) - {a}
      ensures st.loose == old(st.loose) + {a} && st.held == old(st.held)
      ensures slabs[slab].inuse > 0 && (slabs[slab].bufctl == 0 <==> st.chains[slab] == [])
      ensures a in old(st.chained) && a in st.owner && a !in old(st.loose) && a !in old(st.held)
      ensures st.owner[a] == slab
    {
      a := slabs[slab].bufctl;
      TakeOk(st, pageSize - unit + 1, slab);
      PlacesDiffer(st, pageSize - unit + 1, a);
      slabs := slabs[slab := Slab(slabs[slab].membase, mem[a], slabs[slab].inuse + 1)];
      mem := mem[a := slab];
      ghost var next := Take(st, slab);
      SamePages(st.slabs, next.slabs, pageSize, layout.offSlab);
      StableStep(st, next);
      ChainEnds(st, pageSize - unit + 1, slab);
      ChainEnds(next, pageSize - unit + 1, slab);
      st := next;
    }

    /** A unit taken from the head of the partial queue. */
    method TakeFromHead(slab: int) returns (a: int)
      requires SlabsOk() && Counted() && |partial| > 0 && slab == partial[0]
      requires PlacedBut(st, partial, full, free, slab) && st.chains[slab] != []
      modifies `slabs, `mem, `st, `freeObjects, `partial, `full, `countPartial, `countFull
      ensures ListsOk() && st.held == old(st.held) && Stable(old(st), st) && a > 0
      ensures slab in old(slabs) && a == old(slabs)[slab].bufctl && a in st.owner && st.owner[a] == slab
      ensures a !in old(st.loose) && a !in old(st.held) && st.loose == old(st.loose) + {a}
    {
      a := TakeCounted(slab);
      Settle(slab);
    }

    /** A unit taken and counted, before its slab is moved. */
    method TakeCounted(slab: int) returns (a: int)
      requires SlabsOk() && Counted() && PlacedBut(st, partial, full, free, slab)
      requires slab in slabs && slab in st.chains && st.chains[slab] != []
      modifies `slabs, `mem, `st, `freeObjects
      ensures SlabsOk() && Counted() && Stable(old(st), st) && PlacedBut(st, partial, full, free, slab)
      ensures slab in slabs && slab in st.chains && slabs[slab].inuse > 0
      ensures a == old(slabs)[slab].bufctl && a in st.owner && st.owner[a] == slab
      ensures slabs[slab].bufctl == 0 <==> st.chains[slab] == []
      ensures st.held == old(st.held) && st.loose == old(st.loose) + {a}
      ensures a > 0 && a !in old(st.loose) && a !in old(st.held)
    {
      a := TakeUnit(slab);
      StillPlacedBut(old(st), st, partial, full, free, slab);
      TakenCounted(old(st), a);
      if freeObjects != 0 {
        freeObjects := freeObjects - 1;
      }
    }

    /** `p` is the object of the first unit on the chain of slab `s`. */
    ghost predicate FirstOf(slabs: map<int, Slab>, s: int, p: int) {
      s in slabs && p == slabs[s].bufctl + ptr
    }

    /** imemcache_list_alloc: the object of the first unit of the first partial slab, else of the first free one,
        else of a new one; null only if a new one is not to be had. */
    method ListAlloc(memory: bool) returns (p: int)
      requires ListsOk()
      modifies this
      ensures ListsOk() && st.held == old(st.held) && Stable(old(st), st)
      ensures entry == old(entry) && pagesHiwater == old(pagesHiwater)
      ensures p == 0 ==> !memory && st == old(st) && partial == [] && free == []
      ensures p == 0 ==> old(partial) == [] && old(free) == []
      ensures pagesNew == old(pagesNew) + if old(partial) == [] && old(free) == [] && p != 0 then 1 else 0
      ensures old(partial) != [] ==> FirstOf(old(slabs), old(partial)[0], p)
      ensures old(partial) == [] && old(free) != [] ==> FirstOf(old(slabs), old(free)[0], p)
      ensures p != 0 ==> p - ptr in st.owner
      ensures old(partial) == [] && old(free) == [] && p != 0 ==> st.owner[p - ptr] !in old(slabs)
      ensures p != 0 ==> p - ptr !in old(st.loose) && p - ptr !in st.held && st.loose == old(st.loose) + {p - ptr}
    {
      var slab := PickSlab(memory);
      if slab == 0 {
        return 0;
      }
      ghost var picked := st;
      var a := TakeFromHead(slab);
      StableAlong(old(st), picked, st);
      return a + ptr;
    }

    /** The slab a unit was taken from stays in the partial queue unless it is full now. */
    method Settle(slab: int)
      requires Counted() && PlacedBut(st, partial, full, free, slab) && |partial| > 0 && slab == partial[0]
      requires st.slabs == slabs && st.slabs[slab].inuse != 0
      requires slabs[slab].bufctl == 0 <==> st.chains[slab] == []
      modifies `partial, `full, `countPartial, `countFull
      ensures Counted() && Placed(st, partial, full, free)
    {
      if slabs[slab].bufctl == 0 {
        SettleFull(st, partial, full, free, slab);
        partial, full := partial[1..], [slab] + full;
        countPartial, countFull := countPartial - 1, countFull + 1;
      } else {
        SettlePartial(st, partial, full, free, slab);
      }
    }

    // ----- imemcache_drain_list for the free queue

    /** Takes every unit off the chain of a slab that goes; the count is what `inuse` comes to. */
    method UseUp(slab: int) returns (inuse: int)
      requires st.slabs == slabs && st.mem == mem && slab in slabs && slab in st.chains && slabs[slab].inuse == 0
      requires Chain(mem, slabs[slab].bufctl, st.chains[slab])
      ensures inuse == |st.chains[slab]|
    {
      var bufctl := slabs[slab].bufctl;
      inuse := 0;
      ghost var rest := st.chains[slab];
      while bufctl != 0
        invariant Chain(mem, bufctl, rest) && inuse + |rest| == |st.chains[slab]|
        decreases |rest|
      {
        bufctl := mem[bufctl];
        inuse := inuse + 1;
        rest := rest[1..];
      }
    }

    /** The last slab of the free queue goes back to the supplier. */
    method DrainOne()
      requires SlabsOk() && Placed(st, partial, full, free) && |free| > 0 && freeObjects == |st.chained|
      modifies `slabs, `st, `free, `freeObjects, `pagesDel, `pagesInuse
      ensures SlabsOk() && Placed(st, partial, full, free) && freeObjects == |st.chained|
      ensures free == old(free)[..|old(free)| - 1] && slabs == old(slabs) - {old(free)[|old(free)| - 1]}
      ensures st.loose == old(st.loose) && st.held == old(st.held) && Stable(old(st), st)
    {
      var slab := free[|free| - 1];
      ghost var next := LastGoes(st, partial, full, free, pageSize, unit, HeaderSize(ptr), layout.offSlab);
      var inuse := UseUp(slab);
      free := free[..|free| - 1];
      freeObjects := freeObjects - inuse;
      DeleteSlab(slab, next);
    }

    /** One more slab goes; what was stable since `first` stays so. */
    method DrainNext(ghost first: Units)
      requires SlabsOk() && Placed(st, partial, full, free) && |free| > 0 && freeObjects == |st.chained|
      requires Stable(first, st)
      modifies `slabs, `st, `free, `freeObjects, `pagesDel, `pagesInuse
      ensures SlabsOk() && Placed(st, partial, full, free) && freeObjects == |st.chained|
      ensures free == old(free)[..|old(free)| - 1]
      ensures st.loose == old(st.loose) && st.held == old(st.held) && Stable(first, st)
    {
      DrainOne();
      StableAlong(first, old(st), st);
    }

    /** imemcache_slab_delete */
    method DeleteSlab(slab: int, ghost next: Units)
      requires slab in slabs && PagesCounted()
      modifies `slabs, `st, `pagesDel, `pagesInuse
      ensures slabs == old(slabs) - {slab} && st == next && PagesCounted()
    {
      MapSize(slabs, slab);
      slabs, st := slabs - {slab}, next;
      pagesDel, pagesInuse := pagesDel + 1, pagesInuse - 1;
    }

    /** imemcache_drain_list(cache, 0, tofree): gives back slabs from the end of the free queue, at most
        `tofree` of them unless that is negative. */
    method Drain(tofree: int) returns (count: int)
      requires ListsOk()
      modifies `slabs, `st, `free, `freeObjects, `pagesDel, `pagesInuse, `countFree
      ensures ListsOk() && count == if 0 <= tofree < |old(free)| then tofree else |old(free)|
      ensures free == old(free)[..|old(free)| - count]
      ensures st.loose == old(st.loose) && st.held == old(st.held) && Stable(old(st), st)
    {
      count := 0;
      StableStep(st, st);
      while |free| > 0 && !(tofree >= 0 && count >= tofree)
        invariant SlabsOk() && Placed(st, partial, full, free) && freeObjects == |st.chained|
        invariant countFree == |old(free)|
        invariant 0 <= count <= |old(free)| && free == old(free)[..|old(free)| - count]
        invariant tofree >= 0 ==> count <= tofree
        invariant st.loose == old(st.loose) && st.held == old(st.held) && Stable(old(st), st)
        decreases |free|
      {
        DrainNext(old(st));
        count := count + 1;
      }
      countFree := countFree - count;
    }

    // ----- imemcache_list_free

    /** The slab of a unit about to be freed, brought to the partial queue if it is full. */
    method BringToPartial(slab: int)
      requires Counted() && Placed(st, partial, full, free) && st.slabs == slabs && slab in slabs && slab in st.chains
      requires slabs[slab].inuse != 0 && (slabs[slab].bufctl == 0 <==> st.chains[slab] == [])
      modifies `partial, `full, `countPartial, `countFull
      ensures Counted() && PlacedBut(st, partial, full, free, slab)
    {
      FullToPartial(st, partial, full, free, slab);
      if slabs[slab].bufctl == 0 {
        partial, full := partial + [slab], Without(full, slab);
        countFull, countPartial := countFull - 1, countPartial + 1;
      }
    }

    /** imslab_free */
    method GiveUnit(a: int)
      requires SlabsOk() && a in st.loose && a in st.owner && st.owner[a] in slabs && st.owner[a] in st.chains
      modifies `slabs, `mem, `st
      ensures SlabsOk() && Stable(old(st), st) && |st.chained| == |old(st.chained)| + 1
      ensures var s := old(st.owner)[a];
              && s in st.slabs && s in st.chains && st.chains[s] != []
              && st.slabs == old(st.slabs)[s := st.slabs[s]] && st.chains == old(st.chains)[s := st.chains[s]]
      ensures st.loose == old(st.loose) - {a} && st.held == old(st.held)
    {
      GiveOk(st, pageSize - unit + 1, a);
      var slab := mem[a];
      assert slabs[slab].membase <= a < slabs[slab].membase + pageSize && slabs[slab].inuse > 0;
      ghost var next := Give(st, a);
      mem := mem[a := slabs[slab].bufctl];
      slabs := slabs[slab := Slab(slabs[slab].membase, a, slabs[slab].inuse - 1)];
      SamePages(st.slabs, next.slabs, pageSize, layout.offSlab);
      StableStep(st, next);
      st := next;
    }

    /** The slab a unit was freed to goes to the free queue if it was the last one in use. */
    method SettleFreed(slab: int)
      requires Counted() && PlacedBut(st, partial, full, free, slab) && st.slabs == slabs && st.chains[slab] != []
      modifies `partial, `free, `countPartial, `countFree
      ensures Counted() && Placed(st, partial, full, free) && |free| <= |old(free)| + 1
    {
      if slabs[slab].inuse == 0 {
        SettleFree(st, partial, full, free, slab);
        partial, free := Without(partial, slab), [slab] + free;
        countPartial, countFree := countPartial - 1, countFree + 1;
      } else {
        SettlePartial(st, partial, full, free, slab);
      }
    }

    /** A unit goes back to the chain of its slab, which is in the partial queue. */
    method GiveAndSettle(a: int, slab: int)
      requires SlabsOk() && Counted() && a in st.loose && a in st.owner && st.owner[a] == slab && slab in slabs
      requires slab in st.chains && PlacedBut(st, partial, full, free, slab)
      modifies `slabs, `mem, `st, `freeObjects, `partial, `free, `countPartial, `countFree
      ensures ListsOk() && st.loose == old(st.loose) - {a} && st.held == old(st.held) && Stable(old(st), st)
      ensures |free| <= |old(free)| + 1
    {
      GiveUnit(a);
      StillPlacedBut(old(st), st, partial, full, free, slab);
      freeObjects := freeObjects + 1;
      SettleFreed(slab);
    }

    /** imemcache_list_free up to the draining: a unit goes back to its slab. */
    method GiveToSlab(a: int)
      requires ListsOk() && a in st.loose
      modifies `slabs, `mem, `st, `freeObjects, `partial, `full, `free, `countPartial, `countFull, `countFree
      ensures ListsOk() && st.loose == old(st.loose) - {a} && st.held == old(st.held) && Stable(old(st), st)
      ensures |free| <= |old(free)| + 1
    {
      LooseHome(st, pageSize - unit + 1, a);
      var slab := mem[a];
      ChainEnds(st, pageSize - unit + 1, slab);
      BringToPartial(slab);
      GiveAndSettle(a, slab);
    }

    /** imemcache_list_free */
    method ListFree(p: int)
      requires ListsOk() && p - ptr in st.loose
      modifies this
      ensures ListsOk() && st.loose == old(st.loose) - {p - ptr} && st.held == old(st.held) && Stable(old(st), st)
      ensures entry == old(entry) && pagesHiwater == old(pagesHiwater)
      ensures !noDrain && freeObjects >= freeLimit ==> |free| <= |old(free)| / 2 + 1
      ensures |free| <= |old(free)| + 1
    {
      GiveToSlab(p - ptr);
      if !noDrain && freeObjects >= freeLimit {
        var tofree := countFree / 2;
        if tofree > 0 {
          ghost var given := st;
          tofree := Drain(tofree);
          StableAlong(old(st), given, st);
        }
      }
    }

    // ----- The magazine in front: imemcache_alloc, imemcache_free, imemcache_shrink

    /** imemcache_fill_batch */
    method FillBatch(memory: bool) returns (count: nat)
      requires Valid()
      modifies this
      ensures Valid() && st.held == old(st.held) && Stable(old(st), st)
      ensures |entry| == |old(entry)| + count && entry[..|old(entry)|] == old(entry)
      ensures |entry| >= batchCount || (!memory && partial == [] && free == [])
      ensures |entry| > 0 || (old(partial) == [] && old(free) == [])
      ensures pagesHiwater == if pagesInuse > old(pagesHiwater) then pagesInuse else old(pagesHiwater)
    {
      count := 0;
      StableStep(st, st);
      while |entry| < batchCount
        invariant Valid() && st.held == old(st.held) && Stable(old(st), st)
        invariant |entry| == |old(entry)| + count && entry[..|old(entry)|] == old(entry)
        invariant pagesHiwater == old(pagesHiwater)
        invariant |entry| > 0 || (partial == old(partial) && free == old(free))
        decreases batchCount - |entry|
      {
        ghost var before := st;
        var p := ListAlloc(memory);
        StableAlong(old(st), before, st);
        if p == 0 {
          break;
        }
        MagazinePush(before.loose, entry, ptr, p);
        entry := entry + [p];
        count := count + 1;
      }
      if pagesInuse > pagesHiwater {
        pagesHiwater := pagesInuse;
      }
    }

    /** The object on top of the magazine, marked as handed out. */
    method HandOut() returns (p: int)
      requires Valid() && |entry| > 0
      modifies `entry, `mem, `st
      ensures Valid() && Stable(old(st), st) && p == old(entry)[|old(entry)| - 1] && p > ptr
      ensures p - ptr !in old(st.held) && st.held == old(st.held) + {p - ptr} && p - ptr in st.owner
    {
      p := entry[|entry| - 1];
      MagazinePop(st.loose, entry, ptr);
      entry := entry[..|entry| - 1];
      LooseUnit(st, pageSize - unit + 1, p - ptr);
      MarkOk(st, pageSize - unit + 1, p - ptr);
      StableStep(st, Mark(st, p - ptr));
      SamePlaces(st, Mark(st, p - ptr), partial, full, free);
      mem := mem[p - ptr := WithMark(mem[p - ptr])];
      st := Mark(st, p - ptr);
    }

    /** imemcache_alloc: an object no caller holds, or null when no page is to be had, which does not happen while
        the suppliers have `memory`. */
    method Alloc(memory: bool) returns (p: int)
      requires Valid()
      modifies this
      ensures Valid() && Stable(old(st), st)
      ensures p == 0 ==> !memory && old(entry) == [] && old(partial) == [] && old(free) == []
      ensures p == 0 ==> st.held == old(st.held) && entry == [] && partial == [] && free == []
      ensures p != 0 ==> p > ptr && p - ptr !in old(st.held) && st.held == old(st.held) + {p - ptr}
      ensures p != 0 ==> p - ptr in st.owner
      ensures |old(entry)| > 0 ==> p == old(entry)[|old(entry)| - 1] && slabs == old(slabs)
    {
      StableStep(st, st);
      if |entry| == 0 {
        var _ := FillBatch(memory);
      }
      if |entry| == 0 {
        return 0;
      }
      ghost var filled := st;
      p := HandOut();
      StableAlong(old(st), filled, st);
    }

    /** Returns the objects on top of the magazine to their slabs until `keep` are left. */
    method Flush(keep: nat, ghost extra: set<int>)
      requires ListsOk() && Magazine(st.loose - extra, entry, ptr) && extra <= st.loose
      modifies this
      ensures ListsOk() && Magazine(st.loose - extra, entry, ptr) && extra <= st.loose
      ensures st.held == old(st.held) && Stable(old(st), st)
      ensures entry == if keep < |old(entry)| then old(entry)[..keep] else old(entry)
      ensures |free| <= |old(free)| + |old(entry)| - |entry|
    {
      StableStep(st, st);
      while |entry| > keep
        invariant ListsOk() && Magazine(st.loose - extra, entry, ptr) && extra <= st.loose
        invariant st.held == old(st.held) && Stable(old(st), st)
        invariant |entry| <= |old(entry)| && entry == old(entry)[..|entry|]
        invariant |entry| == |old(entry)| || |entry| >= keep
        invariant |free| <= |old(free)| + |old(entry)| - |entry|
        decreases |entry|
      {
        ghost var before := st;
        FlushOne(extra);
        StableAlong(old(st), before, st);
      }
    }

    /** The object on top of the magazine goes back to its slab. */
    method FlushOne(ghost extra: set<int>)
      requires ListsOk() && Magazine(st.loose - extra, entry, ptr) && extra <= st.loose && |entry| > 0
      modifies this
      ensures ListsOk() && Magazine(st.loose - extra, entry, ptr) && extra <= st.loose
      ensures st.held == old(st.held) && Stable(old(st), st) && entry == old(entry)[..|old(entry)| - 1]
      ensures |free| <= |old(free)| + 1
    {
      ghost var loose := st.loose;
      MagazinePop(loose - extra, entry, ptr);
      var p := entry[|entry| - 1];
      entry := entry[..|entry| - 1];
      ListFree(p);
      assert st.loose - extra == (loose - extra) - {p - ptr};
    }

    /** Half of the free slabs go back when there are many free units. */
    method DrainHalf()
      requires ListsOk()
      modifies `slabs, `st, `free, `freeObjects, `pagesDel, `pagesInuse, `countFree
      ensures ListsOk() && st.loose == old(st.loose) && st.held == old(st.held) && Stable(old(st), st)
      ensures free == if old(freeObjects) >= freeLimit then old(free)[..(|old(free)| + 1) / 2] else old(free)
      ensures old(freeObjects) < freeLimit ==> freeObjects == old(freeObjects)
    {
      StableStep(st, st);
      if freeObjects >= freeLimit && countFree > 1 {
        var _ := Drain(countFree / 2);
      }
    }

    /** The way of a unit just taken back from a caller: into the magazine, or with the magazine's upper part to
        the slabs when the magazine is at its limit. */
    method Receive(p: int)
      requires ListsOk() && |entry| <= limit && p - ptr in st.loose && Magazine(st.loose - {p - ptr}, entry, ptr)
      modifies this
      ensures Valid() && st.held == old(st.held) && Stable(old(st), st)
      ensures entry == if |old(entry)| >= limit then old(entry)[..batchCount] else old(entry) + [p]
      ensures |old(entry)| >= limit ==> freeObjects < freeLimit || |free| <= (|old(free)| + limit - batchCount + 2) / 2
    {
      if |entry| >= limit {
        Flush(batchCount, {p - ptr});
        ghost var flushed := st;
        ListFree(p);
        StableAlong(old(st), flushed, st);
        flushed := st;
        DrainHalf();
        StableAlong(old(st), flushed, st);
      } else {
        StableStep(st, st);
        MagazinePush(st.loose - {p - ptr}, entry, ptr, p);
        assert st.loose - {p - ptr} + {p - ptr} == st.loose;
        entry := entry + [p];
      }
    }

    /** imemcache_free: takes back an object that a caller holds; any other unit's object is refused and
        nothing changes. */
    method Free(p: int) returns (ok: bool)
      requires Valid() && p - ptr in st.owner
      modifies this
      ensures Valid() && Stable(old(st), st) && ok == (p - ptr in old(st.held))
      ensures ok ==> st.held == old(st.held) - {p - ptr}
      ensures ok ==> entry == if |old(entry)| >= limit then old(entry)[..batchCount] else old(entry) + [p]
      ensures ok && |old(entry)| >= limit ==>
                freeObjects < freeLimit || |free| <= (|old(free)| + limit - batchCount + 2) / 2
      ensures !ok ==> st == old(st) && entry == old(entry)
      ensures !ok ==> partial == old(partial) && full == old(full) && free == old(free)
    {
      ok := TakeBack(p - ptr);
      if ok {
        ghost var back := st;
        Receive(p);
        StableAlong(old(st), back, st);
      }
    }

    /** The mark of a unit is read and taken off. */
    method TakeBack(a: int) returns (ok: bool)
      requires ListsOk() && a in st.owner
      modifies `mem, `st
      ensures ListsOk() && Stable(old(st), st) && ok == (a in old(st.held))
      ensures ok ==> st.held == old(st.held) - {a} && a in st.loose && st.loose - {a} == old(st.loose)
      ensures !ok ==> st == old(st)
    {
      MarkTells(st, pageSize - unit + 1, a);
      ok := Marked(mem[a]);
      mem := mem[a := Unmarked(mem[a])];
      if !ok {
        StableStep(st, st);
        return;
      }
      ghost var back := Unmark(st, a);
      UnmarkOk(st, pageSize - unit + 1, a);
      StableStep(st, back);
      SamePlaces(st, back, partial, full, free);
      st := back;
    }

    /** An object in a caller's hands can be given back. */
    lemma {:induction false} HeldOwned(a: int)
      requires Valid() && a in st.held
      ensures a in st.owner
    {
      assert Facts(st, pageSize - unit + 1);
    }

    /** An object just handed out is taken back, and callers hold what they held before. */
    method AllocThenFree(memory: bool) returns (p: int, ok: bool)
      requires Valid()
      modifies this
      ensures Valid() && st.held == old(st.held) && ok == (p != 0) && (memory ==> ok)
    {
      p := Alloc(memory);
      if p == 0 {
        return p, false;
      }
      HeldOwned(p - ptr);
      ok := Free(p);
    }

    /** imemcache_shrink: the magazine is emptied and every slab without a unit in use is given back. */
    method Shrink()
      requires Valid()
      modifies this
      ensures Valid() && st.held == old(st.held) && Stable(old(st), st)
      ensures entry == [] && free == [] && st.loose == {}
    {
      assert st.loose - {} == st.loose;
      Flush(0, {});
      assert st.loose - {} == st.loose;
      EmptyMagazine(st.loose, ptr);
      ghost var flushed := st;
      var _ := Drain(-1);
      StableAlong(old(st), flushed, st);
    }

    /** Objects in callers' hands do not overlap, and a unit is in a caller's hands, in the magazine or on the
        free chain of its slab, never in two of these places. */
    lemma {:induction false} OnePlaceEach(a: int, b: int)
      requires Valid() && a in st.held && b in st.owner
      ensures a < b ==> a + ptr + objSize <= b
      ensures b < a ==> b + ptr + objSize <= a
      ensures a + ptr !in entry && st.owner[b] in st.chains
      ensures b in st.held || b + ptr in entry || b in st.chains[st.owner[b]]
      ensures !(b in st.held && b + ptr in entry) && !(b in st.held && b in st.chains[st.owner[b]])
              && !(b + ptr in entry && b in st.chains[st.owner[b]])
    {
      assert Facts(st, pageSize - unit + 1);
      assert UnitOk(st, pageSize - unit + 1, b) && a in st.owner;
      assert Pair(st.owner, unit, a, b) && Pair(st.owner, unit, b, a);
      assert InMagazine(st.loose, entry, ptr, a) && InMagazine(st.loose, entry, ptr, b);
    }
  }

  lemma {:induction false} EmptyMagazine(loose: set<int>, ptr: int)
    requires Magazine(loose, [], ptr)
    ensures loose == {}
  {
    forall a ensures a !in loose {
      assert InMagazine(loose, [], ptr, a);
    }
  }

  /** The mark tells the units that callers hold from all others. */
  lemma {:induction false} MarkTells(u: Units, span: int, a: int)
    requires UnitsOk(u, span) && a in u.owner
    ensures a in u.mem && (Marked(u.mem[a]) <==> a in u.held) && (a in u.held ==> a !in u.loose)
    ensures a !in u.held ==> Unmarked(u.mem[a]) == u.mem[a]
  {
    assert Facts(u, span) && UnitOk(u, span, a);
    if a in u.held {
      UnmarkOk(u, span, a);
    } else {
      UnmarkedUnlessHeld(u, span, a);
    }
  }

  /** A unit off the chains names its slab, which therefore has a unit in use. */
  lemma {:induction false} LooseHome(u: Units, span: int, a: int)
    requires UnitsOk(u, span) && a in u.loose
    ensures a in u.owner && a in u.mem && u.mem[a] == u.owner[a] && u.owner[a] in u.slabs && u.owner[a] in u.chains
    ensures u.slabs[u.owner[a]].inuse > 0
  {
    GiveOk(u, span, a);
  }

  /** A unit in the magazine names its slab, without a mark. */
  lemma {:induction false} LooseUnit(u: Units, span: int, a: int)
    requires UnitsOk(u, span) && a in u.loose
    ensures a > 0 && a in u.owner && a in u.mem && a !in u.held && WithMark(u.mem[a]) == u.mem[a] + MAGIC
  {
    assert Facts(u, span) && a in u.owner && UnitOk(u, span, a) && SlabOk(u, u.owner[a]);
  }

  lemma {:induction false} MapSize(m: map<int, Slab>, s: int)
    requires s in m
    ensures |m - {s}| == |m| - 1
  {
    var rest := m - {s};
    assert m.Keys == rest.Keys + {s};
    assert |m.Keys| == |m| && |rest.Keys| == |rest|;
  }

  /** What is left when the last slab of the free queue goes. */
  lemma {:induction false} LastGoes(u: Units, partial: seq<int>, full: seq<int>, free: seq<int>,
                                    pageSize: int, unit: int, header: int, offSlab: bool) returns (v: Units)
    requires UnitsOk(u, pageSize - unit + 1) && Placed(u, partial, full, free) && free != []
    requires PagesOk(u.slabs, pageSize, offSlab) && Spread(u.owner, unit, header, offSlab)
    ensures var s := free[|free| - 1];
            && s in u.slabs && s in u.chains && u.slabs[s].inuse == 0 && Chain(u.mem, u.slabs[s].bufctl, u.chains[s])
            && v.slabs == u.slabs - {s} && |v.chained| == |u.chained| - |u.chains[s]|
    ensures v.mem == u.mem && v.loose == u.loose && v.held == u.held && Stable(u, v)
    ensures UnitsOk(v, pageSize - unit + 1) && Placed(v, partial, full, free[..|free| - 1])
    ensures PagesOk(v.slabs, pageSize, offSlab) && Spread(v.owner, unit, header, offSlab)
  {
    var s := free[|free| - 1];
    FreeIsIdle(u, partial, full, free, s);
    ChainIs(u, pageSize - unit + 1, s);
    DropOk(u, pageSize - unit + 1, s);
    StableDrop(u, pageSize - unit + 1, s);
    LastDropped(u, partial, full, free);
    v := Drop(u, s);
    SamePages(u.slabs, v.slabs, pageSize, offSlab);
    SpreadFewer(u.owner, v.owner, unit, header, offSlab);
  }

  lemma {:induction false} ChainIs(u: Units, span: int, s: int)
    requires UnitsOk(u, span) && s in u.slabs
    ensures s in u.chains && Chain(u.mem, u.slabs[s].bufctl, u.chains[s])
  {
    assert Facts(u, span) && SlabOk(u, s);
  }

  lemma {:induction false} BatchAtLeast(ptr: nat, pageSize: nat, objSize: nat)
    requires SizesOk(ptr, pageSize, objSize)
    ensures Calculate(ptr, pageSize, objSize).batchCount >= 2
  {
  }

  /** A free unit is in nobody's hands. */
  lemma {:induction false} PlacesDiffer(u: Units, span: int, a: int)
    requires UnitsOk(u, span) && a in u.chained
    ensures a !in u.loose && a !in u.held
  {
    assert Facts(u, span);
  }

  lemma {:induction false} ChainEnds(u: Units, span: int, s: int)
    requires UnitsOk(u, span) && s in u.slabs
    ensures s > 0 && s in u.chains && (u.slabs[s].bufctl == 0 <==> u.chains[s] == []) && u.slabs[s].inuse >= 0
  {
    assert Facts(u, span) && SlabOk(u, s);
    ElemsSize(u.chains[s]);
    SubsetSize(Elems(u.chains[s]), u.members[s]);
  }

  lemma {:induction false} TakenCounted(u: Units, a: int)
    requires a in u.chained
    ensures |u.chained - {a}| == |u.chained| - 1
  {
  }
}
