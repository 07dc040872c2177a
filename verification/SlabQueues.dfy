/** Where slabs, pages and units lie: the queues of a slab cache, the pages it uses and the units cut
  out of them, as values.
 */
module SlabQueues {
  import opened Basics
  import opened SlabUnits

  // ----- Slabs in their queues

  /** A slab is in the queue for its state, and in no other: full if its chain is empty, free if none of
      its units is in use, partial otherwise. */
  ghost predicate InPlace(u: Units, partial: seq<int>, full: seq<int>, free: seq<int>, s: int) {
    && (s in u.slabs <==> s in partial || s in full || s in free)
    && (s in u.slabs ==> (
            && s in u.chains
            && (s in full <==> u.chains[s] == [])
            && (s in free <==> u.chains[s] != [] && u.slabs[s].inuse == 0)
            && (s in partial <==> u.chains[s] != [] && u.slabs[s].inuse != 0)))
  }

  ghost predicate PlacedFacts(u: Units, partial: seq<int>, full: seq<int>, free: seq<int>) {
    && NoDup(partial) && NoDup(full) && NoDup(free)
    && forall s {:trigger InPlace(u, partial, full, free, s)} :: InPlace(u, partial, full, free, s)
  }

  /** The same, kept folded: the facts are drawn only where `PlacedFacts` is named. */
  ghost predicate Placed(u: Units, partial: seq<int>, full: seq<int>, free: seq<int>) {
    forall v {:trigger PlacedFacts(v, partial, full, free)} :: v == u ==> PlacedFacts(v, partial, full, free)
  }

  /** The same with slab `x` on its way: it is in the partial queue whatever its state. */
  ghost predicate PlacedButFacts(u: Units, partial: seq<int>, full: seq<int>, free: seq<int>, x: int) {
    && NoDup(partial) && NoDup(full) && NoDup(free)
    && x in u.slabs && x in u.chains && x in partial && x !in full && x !in free
    && forall s {:trigger InPlace(u, partial, full, free, s)} :: s != x ==> InPlace(u, partial, full, free, s)
  }

  ghost predicate PlacedBut(u: Units, partial: seq<int>, full: seq<int>, free: seq<int>, x: int) {
    && x in u.slabs && x in u.chains && |partial| > 0
    && forall v {:trigger PlacedButFacts(v, partial, full, free, x)} :: v == u ==>
         PlacedButFacts(v, partial, full, free, x)
  }

  lemma {:induction false} WithoutIn(q: seq<int>, x: int, s: int)
    requires NoDup(q)
    ensures s in Without(q, x) <==> s in q && s != x
  {
    WithoutElems(q, x);
    assert s in Without(q, x) <==> s in Elems(Without(q, x));
    assert s in q <==> s in Elems(q);
  }

  lemma {:induction false} FirstOut(q: seq<int>, s: int)
    requires NoDup(q) && q != []
    ensures Without(q, q[0]) == q[1..] && NoDup(q[1..]) && (s in q[1..] <==> s in q && s != q[0])
  {
    assert q == [q[0]] + q[1..];
  }

  lemma {:induction false} LastOut(q: seq<int>, s: int)
    requires NoDup(q) && q != []
    ensures var r := q[..|q| - 1]; NoDup(r) && (s in r <==> s in q && s != q[|q| - 1])
  {
    assert q == q[..|q| - 1] + [q[|q| - 1]];
  }

  /** The head of the partial queue has a free unit. */
  lemma {:induction false} PartialHead(u: Units, partial: seq<int>, full: seq<int>, free: seq<int>)
    requires Placed(u, partial, full, free) && partial != []
    ensures PlacedBut(u, partial, full, free, partial[0]) && u.chains[partial[0]] != []
  {
    assert PlacedFacts(u, partial, full, free);
    assert InPlace(u, partial, full, free, partial[0]);
  }

  lemma {:induction false} FreeToPartial(u: Units, partial: seq<int>, full: seq<int>, free: seq<int>)
    requires Placed(u, partial, full, free) && free != []
    ensures PlacedBut(u, [free[0]] + partial, full, free[1..], free[0]) && u.chains[free[0]] != []
  {
    assert PlacedFacts(u, partial, full, free);
    var x := free[0];
    assert InPlace(u, partial, full, free, x);
    ConsElems(x, partial);
    FirstOut(free, x);
    forall s {:trigger InPlace(u, [x] + partial, full, free[1..], s)} | s != x
      ensures InPlace(u, [x] + partial, full, free[1..], s)
    {
      assert InPlace(u, partial, full, free, s);
      FirstOut(free, s);
    }
  }

  lemma {:induction false} NewToPartial(u: Units, v: Units, partial: seq<int>, full: seq<int>, free: seq<int>, x: int)
    requires Placed(u, partial, full, free) && x !in u.slabs && x in v.slabs && x in v.chains
    requires v.slabs == u.slabs[x := v.slabs[x]] && v.chains == u.chains[x := v.chains[x]]
    ensures PlacedBut(v, [x] + partial, full, free, x)
  {
    assert PlacedFacts(u, partial, full, free);
    assert InPlace(u, partial, full, free, x);
    ConsElems(x, partial);
    forall s {:trigger InPlace(v, [x] + partial, full, free, s)} | s != x
      ensures InPlace(v, [x] + partial, full, free, s)
    {
      assert InPlace(u, partial, full, free, s);
    }
  }

  lemma {:induction false} SamePlaces(u: Units, v: Units, partial: seq<int>, full: seq<int>, free: seq<int>)
    requires Placed(u, partial, full, free) && v.slabs == u.slabs && v.chains == u.chains
    ensures Placed(v, partial, full, free)
  {
    assert PlacedFacts(u, partial, full, free);
    forall s {:trigger InPlace(v, partial, full, free, s)} ensures InPlace(v, partial, full, free, s) {
      assert InPlace(u, partial, full, free, s);
    }
  }

  /** A slab with a unit in use is brought to the partial queue, from the full one if it is there. */
  lemma {:induction false} FullToPartial(u: Units, partial: seq<int>, full: seq<int>, free: seq<int>, x: int)
    requires Placed(u, partial, full, free) && x in u.slabs && x in u.chains && u.slabs[x].inuse != 0
    ensures u.chains[x] == [] ==> PlacedBut(u, partial + [x], Without(full, x), free, x)
    ensures u.chains[x] == [] ==> |Without(full, x)| == |full| - 1
    ensures u.chains[x] != [] ==> PlacedBut(u, partial, full, free, x)
  {
    assert PlacedFacts(u, partial, full, free);
    assert InPlace(u, partial, full, free, x);
    if u.chains[x] == [] {
      ConsElems(x, partial);
      WithoutElems(full, x);
      WithoutIn(full, x, x);
      forall s {:trigger InPlace(u, partial + [x], Without(full, x), free, s)} | s != x
        ensures InPlace(u, partial + [x], Without(full, x), free, s)
      {
        assert InPlace(u, partial, full, free, s);
        WithoutIn(full, x, s);
      }
    }
  }

  /** Changing slab `x` leaves the others in place. */
  lemma {:induction false} StillPlacedBut(u: Units, v: Units, partial: seq<int>, full: seq<int>, free: seq<int>, x: int)
    requires PlacedBut(u, partial, full, free, x) && x in v.slabs && x in v.chains
    requires v.slabs == u.slabs[x := v.slabs[x]] && v.chains == u.chains[x := v.chains[x]]
    ensures PlacedBut(v, partial, full, free, x)
  {
    assert PlacedButFacts(u, partial, full, free, x);
    forall s {:trigger InPlace(v, partial, full, free, s)} | s != x ensures InPlace(v, partial, full, free, s) {
      assert InPlace(u, partial, full, free, s);
    }
  }

  lemma {:induction false} SettlePartial(u: Units, partial: seq<int>, full: seq<int>, free: seq<int>, x: int)
    requires PlacedBut(u, partial, full, free, x) && u.chains[x] != [] && u.slabs[x].inuse != 0
    ensures Placed(u, partial, full, free)
  {
    assert PlacedButFacts(u, partial, full, free, x);
    forall s {:trigger InPlace(u, partial, full, free, s)} ensures InPlace(u, partial, full, free, s) {
    }
  }

  lemma {:induction false} SettleFull(u: Units, partial: seq<int>, full: seq<int>, free: seq<int>, x: int)
    requires PlacedBut(u, partial, full, free, x) && u.chains[x] == []
    ensures Placed(u, Without(partial, x), [x] + full, free)
    ensures partial[0] == x ==> Without(partial, x) == partial[1..]
  {
    assert PlacedButFacts(u, partial, full, free, x);
    ConsElems(x, full);
    WithoutElems(partial, x);
    forall s {:trigger InPlace(u, Without(partial, x), [x] + full, free, s)}
      ensures InPlace(u, Without(partial, x), [x] + full, free, s)
    {
      WithoutIn(partial, x, s);
      if s != x {
        assert InPlace(u, partial, full, free, s);
      }
    }
  }

  lemma {:induction false} SettleFree(u: Units, partial: seq<int>, full: seq<int>, free: seq<int>, x: int)
    requires PlacedBut(u, partial, full, free, x) && u.chains[x] != [] && u.slabs[x].inuse == 0
    ensures Placed(u, Without(partial, x), full, [x] + free) && |Without(partial, x)| == |partial| - 1
  {
    assert PlacedButFacts(u, partial, full, free, x);
    ConsElems(x, free);
    WithoutElems(partial, x);
    forall s {:trigger InPlace(u, Without(partial, x), full, [x] + free, s)}
      ensures InPlace(u, Without(partial, x), full, [x] + free, s)
    {
      WithoutIn(partial, x, s);
      if s != x {
        assert InPlace(u, partial, full, free, s);
      }
    }
  }

  /** Nothing of a slab in the free queue is in use. */
  lemma {:induction false} FreeIsIdle(u: Units, partial: seq<int>, full: seq<int>, free: seq<int>, x: int)
    requires Placed(u, partial, full, free) && x in free
    ensures x in u.slabs && x in u.chains && u.slabs[x].inuse == 0
  {
    assert PlacedFacts(u, partial, full, free);
    assert InPlace(u, partial, full, free, x);
  }

  lemma {:induction false} LastDropped(u: Units, partial: seq<int>, full: seq<int>, free: seq<int>)
    requires Placed(u, partial, full, free) && free != [] && free[|free| - 1] in u.members
    ensures Placed(Drop(u, free[|free| - 1]), partial, full, free[..|free| - 1])
  {
    assert PlacedFacts(u, partial, full, free);
    var x, r := free[|free| - 1], free[..|free| - 1];
    var v := Drop(u, x);
    assert InPlace(u, partial, full, free, x);
    LastOut(free, x);
    forall s {:trigger InPlace(v, partial, full, r, s)} ensures InPlace(v, partial, full, r, s) {
      assert InPlace(u, partial, full, free, s);
      LastOut(free, s);
    }
  }

  // ----- Pages

  ghost predicate PageApart(slabs: map<int, Slab>, pageSize: int, page: int, s: int) {
    s in slabs ==> page + pageSize <= slabs[s].membase || slabs[s].membase + pageSize <= page
  }

  /** No page in use overlaps the page at `page`. */
  ghost predicate PageIsNew(slabs: map<int, Slab>, pageSize: int, page: int) {
    forall s {:trigger PageApart(slabs, pageSize, page, s)} :: PageApart(slabs, pageSize, page, s)
  }

  ghost predicate PagePair(slabs: map<int, Slab>, pageSize: int, s: int, t: int) {
    s in slabs && s != t ==> PageApart(slabs, pageSize, slabs[s].membase, t)
  }

  ghost predicate HeaderIn(slabs: map<int, Slab>, pageSize: int, s: int) {
    s in slabs ==> slabs[s].membase <= s < slabs[s].membase + pageSize
  }

  /** Pages in use do not overlap; a header kept on its slab lies in the slab's page. */
  ghost predicate PagesOk(slabs: map<int, Slab>, pageSize: int, offSlab: bool) {
    && (forall s, t {:trigger PagePair(slabs, pageSize, s, t)} :: PagePair(slabs, pageSize, s, t))
    && (!offSlab ==> forall s {:trigger HeaderIn(slabs, pageSize, s)} :: HeaderIn(slabs, pageSize, s))
  }

  lemma {:induction false} PageAdded(slabs: map<int, Slab>, pageSize: int, offSlab: bool, x: int, rec: Slab)
    requires PagesOk(slabs, pageSize, offSlab) && x !in slabs && PageIsNew(slabs, pageSize, rec.membase)
    requires !offSlab ==> rec.membase <= x < rec.membase + pageSize
    ensures PagesOk(slabs[x := rec], pageSize, offSlab)
  {
    var w := slabs[x := rec];
    forall s, t {:trigger PagePair(w, pageSize, s, t)} ensures PagePair(w, pageSize, s, t) {
      assert PagePair(slabs, pageSize, s, t);
      assert PageApart(slabs, pageSize, rec.membase, s) && PageApart(slabs, pageSize, rec.membase, t);
    }
    forall s {:trigger HeaderIn(w, pageSize, s)} | !offSlab ensures HeaderIn(w, pageSize, s) {
      assert HeaderIn(slabs, pageSize, s);
    }
  }

  /** However many pages are in use, there is room above them. */
  lemma {:induction false} RoomAbove(slabs: map<int, Slab>, pageSize: int) returns (x: int)
    ensures x > 0 && x % 8 == 0 && x !in slabs && PageIsNew(slabs, pageSize, x)
  {
    x := AboveAll(slabs, pageSize, slabs.Keys);
    forall s {:trigger PageApart(slabs, pageSize, x, s)} ensures PageApart(slabs, pageSize, x, s) {
    }
  }

  lemma {:induction false} AboveAll(slabs: map<int, Slab>, pageSize: int, some: set<int>) returns (x: int)
    requires some <= slabs.Keys
    ensures x > 0 && x % 8 == 0 && forall s :: s in some ==> s < x && slabs[s].membase + pageSize <= x
    decreases some
  {
    x := 8;
    if s :| s in some {
      var y := AboveAll(slabs, pageSize, some - {s});
      var z := if s < slabs[s].membase + pageSize then slabs[s].membase + pageSize else s;
      x := if z < y then y else z / 8 * 8 + 8;
    }
  }

  /** A header on a new page is a new header. */
  lemma {:induction false} HeaderIsNew(slabs: map<int, Slab>, pageSize: int, page: int, s: int)
    requires PagesOk(slabs, pageSize, false) && PageIsNew(slabs, pageSize, page) && page <= s < page + pageSize
    ensures s !in slabs
  {
    assert HeaderIn(slabs, pageSize, s) && PageApart(slabs, pageSize, page, s);
  }

  /** Pages stay where they are when slabs only change otherwise, or go. */
  lemma {:induction false} SamePages(slabs: map<int, Slab>, w: map<int, Slab>, pageSize: int, offSlab: bool)
    requires PagesOk(slabs, pageSize, offSlab)
    requires forall s :: s in w ==> s in slabs && w[s].membase == slabs[s].membase
    ensures PagesOk(w, pageSize, offSlab)
  {
    forall s, t {:trigger PagePair(w, pageSize, s, t)} ensures PagePair(w, pageSize, s, t) {
      assert PagePair(slabs, pageSize, s, t);
    }
    forall s {:trigger HeaderIn(w, pageSize, s)} | !offSlab ensures HeaderIn(w, pageSize, s) {
      assert HeaderIn(slabs, pageSize, s);
    }
  }

  // ----- Units do not overlap

  ghost predicate Pair(owner: map<int, int>, unit: int, a: int, b: int) {
    a in owner && b in owner && a < b ==> a + unit <= b
  }

  ghost predicate Clear(owner: map<int, int>, header: int, a: int) {
    a in owner ==> owner[a] + header <= a
  }

  /** Units do not overlap each other, nor the header of their slab when it is kept on the slab. */
  ghost predicate Spread(owner: map<int, int>, unit: int, header: int, offSlab: bool) {
    && (forall a, b {:trigger Pair(owner, unit, a, b)} :: Pair(owner, unit, a, b))
    && (!offSlab ==> forall a {:trigger Clear(owner, header, a)} :: Clear(owner, header, a))
  }

  lemma {:induction false} SpreadFewer(owner: map<int, int>, w: map<int, int>, unit: int, header: int, offSlab: bool)
    requires Spread(owner, unit, header, offSlab) && forall a :: a in w ==> a in owner && w[a] == owner[a]
    ensures Spread(w, unit, header, offSlab)
  {
    forall a, b {:trigger Pair(w, unit, a, b)} ensures Pair(w, unit, a, b) {
      assert Pair(owner, unit, a, b);
    }
    forall a {:trigger Clear(w, header, a)} | !offSlab ensures Clear(w, header, a) {
      assert Clear(owner, header, a);
    }
  }

  /** A unit in use and a unit of a new page. */
  lemma {:induction false} NewUnitApart(u: Units, pageSize: int, unit: int, page: int, a: int, b: int)
    requires Facts(u, pageSize - unit + 1) && PageIsNew(u.slabs, pageSize, page)
    requires a in u.owner && page <= b && b + unit <= page + pageSize
    ensures a + unit <= b || b + unit <= a
  {
    assert UnitOk(u, pageSize - unit + 1, a);
    assert PageApart(u.slabs, pageSize, page, u.owner[a]);
  }

  lemma {:induction false} SpreadMore(u: Units, w: map<int, int>, pageSize: int, unit: int, header: int, offSlab: bool,
                                      page: int, s: int, ch: seq<int>)
    requires UnitsOk(u, pageSize - unit + 1) && PageIsNew(u.slabs, pageSize, page)
    requires Spread(u.owner, unit, header, offSlab) && w == u.owner + map a | a in Elems(ch) :: s
    requires forall a :: a in ch ==> page <= a && a + unit <= page + pageSize && (!offSlab ==> s + header <= a)
    requires forall a, b :: a in ch && b in ch && a < b ==> a + unit <= b
    ensures Spread(w, unit, header, offSlab)
  {
    assert Facts(u, pageSize - unit + 1);
    forall a, b {:trigger Pair(w, unit, a, b)} ensures Pair(w, unit, a, b) {
      if a in w && b in w && a < b {
        if a in ch {
          if b !in ch {
            NewUnitApart(u, pageSize, unit, page, b, a);
          }
        } else if b in ch {
          NewUnitApart(u, pageSize, unit, page, a, b);
        } else {
          assert Pair(u.owner, unit, a, b);
        }
      }
    }
    forall a {:trigger Clear(w, header, a)} | !offSlab ensures Clear(w, header, a) {
      assert Clear(u.owner, header, a);
    }
  }

  // ----- Units in callers' hands stay where they are

  ghost predicate AtHome(u: Units, v: Units, a: int) {
    a in u.held && a in v.held && a in u.owner && u.owner[a] in u.slabs ==>
      && a in v.owner && v.owner[a] == u.owner[a] && u.owner[a] in v.slabs
      && v.slabs[u.owner[a]].membase == u.slabs[u.owner[a]].membase
  }

  /** A unit held before and after has the same slab on the same page. */
  ghost predicate Stable(u: Units, v: Units) {
    forall a {:trigger AtHome(u, v, a)} :: AtHome(u, v, a)
  }

  lemma {:induction false} StableAlong(u: Units, v: Units, w: Units)
    requires Stable(u, v) && Stable(v, w) && (v.held == u.held || v.held == w.held)
    ensures Stable(u, w)
  {
    forall a {:trigger AtHome(u, w, a)} ensures AtHome(u, w, a) {
      assert AtHome(u, v, a) && AtHome(v, w, a);
    }
  }

  /** Steps that keep the slabs' pages and the units' slabs. */
  lemma {:induction false} StableStep(u: Units, v: Units)
    requires v.owner == u.owner && u.slabs.Keys == v.slabs.Keys
    requires forall s :: s in u.slabs ==> v.slabs[s].membase == u.slabs[s].membase
    ensures Stable(u, v)
  {
    forall a {:trigger AtHome(u, v, a)} ensures AtHome(u, v, a) {
    }
  }

  lemma {:induction false} StableAdd(u: Units, span: int, s: int, slab: Slab, ch: seq<int>, links: map<int, int>)
    requires UnitsOk(u, span) && Fresh(u, span, s, slab, ch, links)
    ensures Stable(u, Add(u, s, slab, ch, links))
  {
    assert FreshFacts(u, span, s, slab, ch, links);
    assert Facts(u, span);
    var v := Add(u, s, slab, ch, links);
    forall a {:trigger AtHome(u, v, a)} ensures AtHome(u, v, a) {
      assert a in u.owner ==> a !in Elems(ch);
    }
  }

  lemma {:induction false} StableDrop(u: Units, span: int, s: int)
    requires UnitsOk(u, span) && s in u.slabs && u.slabs[s].inuse == 0
    ensures s in u.members && Stable(u, Drop(u, s))
  {
    DropOk(u, span, s);
    assert Facts(u, span);
    var v := Drop(u, s);
    forall a {:trigger AtHome(u, v, a)} ensures AtHome(u, v, a) {
      if a in u.held && a in u.owner && u.owner[a] in u.slabs {
        assert UnitOk(u, span, a);
        assert a !in u.chained;
      }
    }
  }

  // ----- The magazine

  ghost predicate InMagazine(loose: set<int>, entry: seq<int>, ptr: int, a: int) {
    a in loose <==> a + ptr in entry
  }

  /** The magazine holds the objects of the loose units, each once. */
  ghost predicate Magazine(loose: set<int>, entry: seq<int>, ptr: int) {
    NoDup(entry) && forall a {:trigger InMagazine(loose, entry, ptr, a)} :: InMagazine(loose, entry, ptr, a)
  }

  lemma {:induction false} MagazinePush(loose: set<int>, entry: seq<int>, ptr: int, p: int)
    requires Magazine(loose, entry, ptr) && p - ptr !in loose
    ensures Magazine(loose + {p - ptr}, entry + [p], ptr)
  {
    assert InMagazine(loose, entry, ptr, p - ptr);
    ConsElems(p, entry);
    forall a {:trigger InMagazine(loose + {p - ptr}, entry + [p], ptr, a)}
      ensures InMagazine(loose + {p - ptr}, entry + [p], ptr, a)
    {
      assert InMagazine(loose, entry, ptr, a);
    }
  }

  lemma {:induction false} MagazinePop(loose: set<int>, entry: seq<int>, ptr: int)
    requires Magazine(loose, entry, ptr) && entry != []
    ensures var p := entry[|entry| - 1];
            p - ptr in loose && Magazine(loose - {p - ptr}, entry[..|entry| - 1], ptr)
  {
    var p, rest := entry[|entry| - 1], entry[..|entry| - 1];
    assert InMagazine(loose, entry, ptr, p - ptr);
    LastOut(entry, p);
    forall a {:trigger InMagazine(loose - {p - ptr}, rest, ptr, a)}
      ensures InMagazine(loose - {p - ptr}, rest, ptr, a)
    {
      assert InMagazine(loose, entry, ptr, a);
      LastOut(entry, a + ptr);
    }
  }
}
