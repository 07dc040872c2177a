/** The units of a slab cache as values: which unit is where, and what each elementary step of
  common/xmalloc/imembase.c does to it.

  A unit is the piece of a page that holds one object.  Its first word is the link of the slab's
  free chain while the unit is free; otherwise it names the unit's slab, and the low bits mark the
  units that are in a caller's hands.  Addresses are integers and 0 is the null pointer.
 */
module SlabUnits {
  import opened Basics

  /** imemslab_t, without the queue links. */
  datatype Slab = Slab(membase: int, bufctl: int, inuse: int)

  const MAGIC: int := 5

  /** The test (w & 5) == 5. */
  predicate Marked(w: int) {
    w % 8 == 5 || w % 8 == 7
  }

  function Unmarked(w: int): int {
    w - w % 8
  }

  // ----- Sequences without repetition

  ghost function Elems(s: seq<int>): set<int> {
    set x | x in s
  }

  lemma {:induction false} ElemsSize(s: seq<int>)
    requires NoDup(s)
    ensures |Elems(s)| == |s|
  {
    if s != [] {
      ElemsSize(s[1..]);
      assert Elems(s) == {s[0]} + Elems(s[1..]);
    }
  }

  /** Unlinking an element from a queue. */
  function Without(q: seq<int>, s: int): seq<int> {
    if q == [] then [] else if q[0] == s then q[1..] else [q[0]] + Without(q[1..], s)
  }

  lemma {:induction false} WithoutElems(q: seq<int>, s: int)
    requires NoDup(q)
    ensures NoDup(Without(q, s)) && Elems(Without(q, s)) == Elems(q) - {s}
    ensures |Without(q, s)| == if s in q then |q| - 1 else |q|
  {
    if q != [] {
      WithoutElems(q[1..], s);
      assert Elems(q) == {q[0]} + Elems(q[1..]);
      assert q[0] !in q[1..];
      if q[0] != s {
        assert q[0] !in Without(q[1..], s) by {
          assert q[0] !in Elems(Without(q[1..], s));
        }
        assert Elems(Without(q, s)) == {q[0]} + Elems(Without(q[1..], s));
      }
    }
  }

  lemma {:induction false} ConsElems(x: int, q: seq<int>)
    requires NoDup(q) && x !in q
    ensures NoDup([x] + q) && Elems([x] + q) == Elems(q) + {x}
    ensures NoDup(q + [x]) && Elems(q + [x]) == Elems(q) + {x}
  {
    assert forall y :: y in [x] + q <==> y == x || y in q;
    assert forall y :: y in q + [x] <==> y == x || y in q;
  }

  // ----- Free chains

  /** Following the links from `p` visits exactly `ch` and ends at the null pointer. */
  ghost predicate Chain(mem: map<int, int>, p: int, ch: seq<int>)
    decreases ch
  {
    if ch == [] then p == 0 else p == ch[0] && p != 0 && p in mem && Chain(mem, mem[p], ch[1..])
  }

  lemma {:induction false} ChainFrame(mem: map<int, int>, w: map<int, int>, p: int, ch: seq<int>)
    requires Chain(mem, p, ch) && forall a :: a in ch && a in mem ==> a in w && w[a] == mem[a]
    ensures Chain(w, p, ch)
    decreases ch
  {
    if ch != [] {
      assert ch[0] in ch;
      assert forall a :: a in ch[1..] ==> a in ch;
      ChainFrame(mem, w, mem[p], ch[1..]);
    }
  }

  // ----- The state of all units

  datatype Units = Units(
    slabs: map<int, Slab>,
    mem: map<int, int>,
    members: map<int, set<int>>,
    chains: map<int, seq<int>>,
    owner: map<int, int>,
    chained: set<int>,
    loose: set<int>,
    held: set<int>)

  ghost predicate SlabOk(u: Units, s: int)
    requires s in u.slabs && s in u.members && s in u.chains
  {
    && s > 0 && s % 8 == 0 && u.members[s] != {}
    && Chain(u.mem, u.slabs[s].bufctl, u.chains[s]) && NoDup(u.chains[s])
    && Elems(u.chains[s]) <= u.members[s]
    && u.slabs[s].inuse == |u.members[s]| - |u.chains[s]|
  }

  /** `span`: units start at offsets below it in their page. */
  ghost predicate UnitOk(u: Units, span: int, a: int)
    requires a in u.owner
  {
    && a > 0 && a % 8 == 0 && a in u.mem && u.owner[a] in u.slabs && u.owner[a] in u.members
    && u.owner[a] in u.chains && a in u.members[u.owner[a]]
    && u.slabs[u.owner[a]].membase <= a < u.slabs[u.owner[a]].membase + span
    && (a in u.chained <==> a in u.chains[u.owner[a]])
    && (a in u.loose ==> u.mem[a] == u.owner[a])
    && (a in u.held ==> u.mem[a] == u.owner[a] + MAGIC)
  }

  /** Every unit of every slab is on its slab's free chain, or loose, or held by a caller: exactly one
      of the three, with the first word to match. */
  ghost predicate Facts(u: Units, span: int) {
    match u
    case Units(slabs, _, members, chains, owner, chained, loose, held) =>
      && slabs.Keys == members.Keys == chains.Keys
      && (forall s {:trigger SlabOk(u, s)} :: s in slabs ==> SlabOk(u, s))
      && (forall a {:trigger UnitOk(u, span, a)} :: a in owner ==> UnitOk(u, span, a))
      && (forall s, a :: s in members && a in members[s] ==> a in owner && owner[a] == s)
      && owner.Keys == chained + loose + held
      && chained !! loose && chained !! held && loose !! held
  }

  /** The same, kept folded: the facts are drawn only where `Facts` is named. */
  ghost predicate UnitsOk(u: Units, span: int) {
    forall v {:trigger Facts(v, span)} :: v == u ==> Facts(v, span)
  }

  /** Rewriting the first word of a unit does not touch a chain that the unit is not on. */
  lemma {:induction false} OtherSlab(u: Units, v: Units, span: int, a: int, t: int)
    requires Facts(u, span) && t in u.slabs && a in u.owner && (u.owner[a] != t || a !in u.chained)
    requires t in v.slabs && v.slabs[t] == u.slabs[t] && t in v.chains && v.chains[t] == u.chains[t]
    requires t in v.members && v.members[t] == u.members[t]
    requires forall b :: b in u.mem && b != a ==> b in v.mem && v.mem[b] == u.mem[b]
    ensures SlabOk(v, t)
  {
    assert SlabOk(u, t) && UnitOk(u, span, a);
    forall b | b in u.chains[t] ensures b != a {
      assert b in Elems(u.chains[t]) && b in u.owner && u.owner[b] == t && UnitOk(u, span, b);
    }
    ChainFrame(u.mem, v.mem, u.slabs[t].bufctl, u.chains[t]);
  }

  /** A slab none of whose units is among `gone` survives changes there. */
  lemma {:induction false} DistantSlab(u: Units, v: Units, span: int, gone: set<int>, t: int)
    requires Facts(u, span) && t in u.slabs && u.members[t] !! gone
    requires t in v.slabs && v.slabs[t] == u.slabs[t] && t in v.chains && v.chains[t] == u.chains[t]
    requires t in v.members && v.members[t] == u.members[t]
    requires forall b :: b in u.mem && b !in gone ==> b in v.mem && v.mem[b] == u.mem[b]
    ensures SlabOk(v, t)
  {
    assert SlabOk(u, t);
    forall b | b in u.chains[t] ensures b !in gone {
      assert b in Elems(u.chains[t]);
    }
    ChainFrame(u.mem, v.mem, u.slabs[t].bufctl, u.chains[t]);
  }

  // ----- Taking a unit off a chain and putting it back

  ghost function Take(u: Units, s: int): Units
    requires s in u.slabs && s in u.chains && u.chains[s] != [] && u.slabs[s].bufctl in u.mem
  {
    var a := u.slabs[s].bufctl;
    u.(slabs := u.slabs[s := u.slabs[s].(bufctl := u.mem[a], inuse := u.slabs[s].inuse + 1)],
       mem := u.mem[a := s],
       chains := u.chains[s := u.chains[s][1..]],
       chained := u.chained - {a},
       loose := u.loose + {a})
  }

  lemma {:induction false} TakeSlabOk(u: Units, span: int, s: int)
    requires Facts(u, span) && s in u.slabs && u.chains[s] != [] && SlabOk(u, s)
    ensures var a := u.slabs[s].bufctl;
            && a == u.chains[s][0] && a in u.mem && a in u.owner && u.owner[a] == s && UnitOk(u, span, a)
            && a !in u.chains[s][1..] && SlabOk(Take(u, s), s)
  {
    var ch, a := u.chains[s], u.slabs[s].bufctl;
    assert a in ch && a in Elems(ch);
    assert ch == [a] + ch[1..];
    assert a !in ch[1..];
    assert Elems(ch) == {a} + Elems(ch[1..]);
    assert a in u.owner && UnitOk(u, span, a);
    ChainFrame(u.mem, Take(u, s).mem, u.mem[a], ch[1..]);
  }

  lemma {:induction false} TakeOk(u: Units, span: int, s: int)
    requires UnitsOk(u, span) && s in u.slabs && s in u.chains && u.chains[s] != []
    ensures var a := u.slabs[s].bufctl;
            && a == u.chains[s][0] && a > 0 && a in u.mem && a in u.owner && u.owner[a] == s && a in u.chained
            && UnitsOk(Take(u, s), span)
  {
    assert Facts(u, span) && SlabOk(u, s);
    TakeSlabOk(u, span, s);
    var a := u.slabs[s].bufctl;
    var v := Take(u, s);
    assert u.chains[s] == [a] + u.chains[s][1..];
    forall t {:trigger SlabOk(v, t)} | t in v.slabs && t != s ensures SlabOk(v, t) {
      OtherSlab(u, v, span, a, t);
    }
    forall b {:trigger UnitOk(v, span, b)} | b in v.owner ensures UnitOk(v, span, b) {
      assert UnitOk(u, span, b);
    }
    assert Facts(v, span);
  }

  ghost function Give(u: Units, a: int): Units
    requires a in u.owner && u.owner[a] in u.slabs && u.owner[a] in u.chains
  {
    var s := u.owner[a];
    u.(slabs := u.slabs[s := u.slabs[s].(bufctl := a, inuse := u.slabs[s].inuse - 1)],
       mem := u.mem[a := u.slabs[s].bufctl],
       chains := u.chains[s := [a] + u.chains[s]],
       chained := u.chained + {a},
       loose := u.loose - {a})
  }

  lemma {:induction false} GiveSlabOk(u: Units, span: int, a: int)
    requires Facts(u, span) && a in u.loose && UnitOk(u, span, a) && SlabOk(u, u.owner[a])
    ensures u.slabs[u.owner[a]].inuse > 0 && SlabOk(Give(u, a), u.owner[a])
  {
    var s := u.owner[a];
    var ch := u.chains[s];
    assert a !in ch;
    ChainFrame(u.mem, Give(u, a).mem, u.slabs[s].bufctl, ch);
    assert ([a] + ch)[1..] == ch;
    ConsElems(a, ch);
    ElemsSize([a] + ch);
    SubsetSize(Elems([a] + ch), u.members[s]);
  }

  lemma {:induction false} GiveOk(u: Units, span: int, a: int)
    requires UnitsOk(u, span) && a in u.loose
    ensures a in u.owner && u.owner[a] in u.slabs && u.owner[a] in u.chains && u.owner[a] > 0
    ensures a in u.mem && u.mem[a] == u.owner[a] && u.slabs[u.owner[a]].inuse > 0 && a !in u.chained
    ensures u.slabs[u.owner[a]].membase <= a < u.slabs[u.owner[a]].membase + span
    ensures UnitsOk(Give(u, a), span)
  {
    assert Facts(u, span) && UnitOk(u, span, a) && SlabOk(u, u.owner[a]);
    var v := Give(u, a);
    GiveSlabOk(u, span, a);
    forall t {:trigger SlabOk(v, t)} | t in v.slabs && t != u.owner[a] ensures SlabOk(v, t) {
      OtherSlab(u, v, span, a, t);
    }
    forall b {:trigger UnitOk(v, span, b)} | b in v.owner ensures UnitOk(v, span, b) {
      assert UnitOk(u, span, b);
    }
    assert Facts(v, span);
  }

  lemma {:induction false} SubsetSize(a: set<int>, b: set<int>)
    requires a <= b
    ensures |a| <= |b|
  {
    assert b == a + (b - a);
  }

  // ----- Handing a unit to a caller and getting it back

  ghost function Mark(u: Units, a: int): Units
    requires a in u.mem
  {
    u.(mem := u.mem[a := u.mem[a] + MAGIC], loose := u.loose - {a}, held := u.held + {a})
  }

  ghost function Unmark(u: Units, a: int): Units
    requires a in u.mem
  {
    u.(mem := u.mem[a := Unmarked(u.mem[a])], loose := u.loose + {a}, held := u.held - {a})
  }

  lemma {:induction false} Rewritten(u: Units, v: Units, span: int, a: int)
    requires Facts(u, span) && a in u.owner && a !in u.chained && a in v.mem
    requires v == u.(mem := u.mem[a := v.mem[a]], loose := v.loose, held := v.held)
    requires v.loose + v.held == u.loose + u.held && v.loose !! v.held
    requires forall b :: b != a ==> (b in v.loose <==> b in u.loose) && (b in v.held <==> b in u.held)
    requires a in v.loose ==> v.mem[a] == u.owner[a]
    requires a in v.held ==> v.mem[a] == u.owner[a] + MAGIC
    ensures Facts(v, span)
  {
    assert UnitOk(u, span, a);
    forall t | t in v.slabs ensures SlabOk(v, t) {
      OtherSlab(u, v, span, a, t);
    }
    forall b | b in v.owner ensures UnitOk(v, span, b) {
      assert UnitOk(u, span, b);
    }
  }

  lemma {:induction false} MarkOk(u: Units, span: int, a: int)
    requires UnitsOk(u, span) && a in u.loose
    ensures a in u.mem && UnitsOk(Mark(u, a), span)
  {
    assert Facts(u, span);
    assert UnitOk(u, span, a);
    Rewritten(u, Mark(u, a), span, a);
  }

  lemma {:induction false} UnmarkOk(u: Units, span: int, a: int)
    requires UnitsOk(u, span) && a in u.held
    ensures a in u.mem && Marked(u.mem[a]) && UnitsOk(Unmark(u, a), span)
  {
    assert Facts(u, span);
    assert UnitOk(u, span, a);
    assert SlabOk(u, u.owner[a]);
    Rewritten(u, Unmark(u, a), span, a);
  }

  /** A unit that no caller holds does not carry the mark: its word is a link or a bare slab address. */
  lemma {:induction false} UnmarkedUnlessHeld(u: Units, span: int, a: int)
    requires UnitsOk(u, span) && a in u.owner && a !in u.held
    ensures a in u.mem && !Marked(u.mem[a]) && Unmarked(u.mem[a]) == u.mem[a]
  {
    assert Facts(u, span);
    assert UnitOk(u, span, a);
    var s := u.owner[a];
    assert SlabOk(u, s);
    if a in u.chained {
      LinkAligned(u, span, s, u.slabs[s].bufctl, u.chains[s], a);
    }
  }

  lemma {:induction false} LinkAligned(u: Units, span: int, s: int, p: int, ch: seq<int>, a: int)
    requires Facts(u, span) && s in u.slabs && Chain(u.mem, p, ch) && a in ch
    requires forall b :: b in ch ==> b in u.members[s]
    ensures a in u.mem && u.mem[a] % 8 == 0
    decreases ch
  {
    assert forall b :: b in ch[1..] ==> b in ch;
    if a == ch[0] {
      if ch[1..] != [] {
        var n := ch[1];
        assert n in ch && n in u.owner && UnitOk(u, span, n);
        assert u.mem[a] == ch[1..][0];
      }
    } else {
      LinkAligned(u, span, s, u.mem[p], ch[1..], a);
    }
  }

  // ----- New slabs and slabs given back

  /** A slab at `s` whose units `ch`, all free, are linked in `links`. */
  ghost function Add(u: Units, s: int, slab: Slab, ch: seq<int>, links: map<int, int>): Units {
    u.(slabs := u.slabs[s := slab],
       mem := u.mem + links,
       members := u.members[s := Elems(ch)],
       chains := u.chains[s := ch],
       owner := u.owner + (map a | a in Elems(ch) :: s),
       chained := u.chained + Elems(ch))
  }

  /** What a slab under construction has to offer. */
  ghost predicate FreshFacts(u: Units, span: int, s: int, slab: Slab, ch: seq<int>, links: map<int, int>) {
    match slab
    case Slab(membase, bufctl, inuse) =>
      && s !in u.slabs && s > 0 && s % 8 == 0 && inuse == 0
      && ch != [] && NoDup(ch) && links.Keys == Elems(ch) && Elems(ch) !! u.owner.Keys
      && Chain(links, bufctl, ch)
      && forall a :: a in ch ==> a > 0 && a % 8 == 0 && membase <= a < membase + span
  }

  /** The same, kept folded. */
  ghost predicate Fresh(u: Units, span: int, s: int, slab: Slab, ch: seq<int>, links: map<int, int>) {
    forall v {:trigger FreshFacts(v, span, s, slab, ch, links)} :: v == u ==> FreshFacts(v, span, s, slab, ch, links)
  }

  lemma {:induction false} AddSlabsOk(u: Units, span: int, s: int, slab: Slab, ch: seq<int>, links: map<int, int>,
                                      t: int)
    requires Facts(u, span) && Fresh(u, span, s, slab, ch, links) && (t == s || t in u.slabs)
    ensures SlabOk(Add(u, s, slab, ch, links), t)
  {
    assert FreshFacts(u, span, s, slab, ch, links);
    var v := Add(u, s, slab, ch, links);
    if t == s {
      ElemsSize(ch);
      assert ch[0] in Elems(ch);
      ChainFrame(links, v.mem, slab.bufctl, ch);
    } else {
      forall a | a in u.members[t] ensures a !in Elems(ch) {
        assert a in u.owner;
      }
      DistantSlab(u, v, span, Elems(ch), t);
    }
  }

  lemma {:induction false} AddUnitOk(u: Units, span: int, s: int, slab: Slab, ch: seq<int>, links: map<int, int>,
                                     b: int)
    requires Facts(u, span) && Fresh(u, span, s, slab, ch, links) && (b in u.owner || b in ch)
    ensures UnitOk(Add(u, s, slab, ch, links), span, b)
  {
    assert FreshFacts(u, span, s, slab, ch, links);
    if b in u.owner {
      assert UnitOk(u, span, b) && b !in Elems(ch);
    } else {
      assert b in Elems(ch);
    }
  }

  lemma {:induction false} AddPlacesOk(u: Units, span: int, s: int, slab: Slab, ch: seq<int>, links: map<int, int>)
    requires Facts(u, span) && Fresh(u, span, s, slab, ch, links)
    ensures var v := Add(u, s, slab, ch, links);
            && v.owner.Keys == v.chained + v.loose + v.held
            && v.chained !! v.loose && v.chained !! v.held
            && (forall t, a :: t in v.members && a in v.members[t] ==> a in v.owner && v.owner[a] == t)
  {
    assert FreshFacts(u, span, s, slab, ch, links);
    var v := Add(u, s, slab, ch, links);
    assert v.owner.Keys == u.owner.Keys + Elems(ch);
    forall t, a | t in v.members && a in v.members[t] ensures a in v.owner && v.owner[a] == t {
      if t != s {
        assert a in u.owner && a !in Elems(ch);
      }
    }
  }

  lemma {:induction false} AddKeys(u: Units, s: int, slab: Slab, ch: seq<int>, links: map<int, int>)
    requires u.slabs.Keys == u.members.Keys == u.chains.Keys
    ensures var v := Add(u, s, slab, ch, links);
            v.slabs.Keys == v.members.Keys == v.chains.Keys == u.slabs.Keys + {s}
  {
  }

  lemma {:induction false} AddEachSlabOk(u: Units, span: int, s: int, slab: Slab, ch: seq<int>, links: map<int, int>)
    requires Facts(u, span) && Fresh(u, span, s, slab, ch, links)
    ensures var v := Add(u, s, slab, ch, links); forall t {:trigger SlabOk(v, t)} :: t in v.slabs ==> SlabOk(v, t)
  {
    assert FreshFacts(u, span, s, slab, ch, links);
    AddKeys(u, s, slab, ch, links);
    forall t | t == s || t in u.slabs ensures SlabOk(Add(u, s, slab, ch, links), t) {
      AddSlabsOk(u, span, s, slab, ch, links, t);
    }
  }

  lemma {:induction false} AddEachUnitOk(u: Units, span: int, s: int, slab: Slab, ch: seq<int>, links: map<int, int>)
    requires Facts(u, span) && Fresh(u, span, s, slab, ch, links)
    ensures var v := Add(u, s, slab, ch, links);
            forall b {:trigger UnitOk(v, span, b)} :: b in v.owner ==> UnitOk(v, span, b)
  {
    assert FreshFacts(u, span, s, slab, ch, links);
    forall b | b in u.owner || b in ch ensures UnitOk(Add(u, s, slab, ch, links), span, b) {
      AddUnitOk(u, span, s, slab, ch, links, b);
    }
  }

  lemma {:induction false} AddOk(u: Units, span: int, s: int, slab: Slab, ch: seq<int>, links: map<int, int>)
    requires UnitsOk(u, span) && Fresh(u, span, s, slab, ch, links)
    ensures UnitsOk(Add(u, s, slab, ch, links), span)
  {
    assert FreshFacts(u, span, s, slab, ch, links);
    assert Facts(u, span);
    AddKeys(u, s, slab, ch, links);
    AddEachSlabOk(u, span, s, slab, ch, links);
    AddEachUnitOk(u, span, s, slab, ch, links);
    AddPlacesOk(u, span, s, slab, ch, links);
  }

  ghost function Drop(u: Units, s: int): Units
    requires s in u.members
  {
    u.(slabs := u.slabs - {s},
       members := u.members - {s},
       chains := u.chains - {s},
       owner := u.owner - u.members[s],
       chained := u.chained - u.members[s])
  }

  lemma {:induction false} IdleSlab(u: Units, span: int, s: int)
    requires Facts(u, span) && s in u.slabs && u.slabs[s].inuse == 0
    ensures u.members[s] <= u.chained && |u.members[s]| == |u.chains[s]|
  {
    assert SlabOk(u, s);
    ElemsSize(u.chains[s]);
    SameSize(Elems(u.chains[s]), u.members[s]);
    forall a | a in u.members[s] ensures a in u.chained {
      assert a in Elems(u.chains[s]) && a in u.owner && UnitOk(u, span, a);
    }
  }

  lemma {:induction false} MembersApart(u: Units, span: int, s: int, t: int)
    requires Facts(u, span) && s in u.slabs && t in u.slabs && s != t
    ensures u.members[t] !! u.members[s]
  {
    forall a | a in u.members[t] ensures a !in u.members[s] {
      assert u.owner[a] == t;
    }
  }

  lemma {:induction false} DropSlabsOk(u: Units, span: int, s: int)
    requires Facts(u, span) && s in u.slabs
    ensures var v := Drop(u, s);
            forall t {:trigger SlabOk(v, t)} :: t in v.slabs ==> t in v.members && t in v.chains && SlabOk(v, t)
  {
    var v := Drop(u, s);
    forall t {:trigger SlabOk(v, t)} | t in v.slabs ensures t in v.members && t in v.chains && SlabOk(v, t) {
      MembersApart(u, span, s, t);
      DistantSlab(u, v, span, u.members[s], t);
    }
  }

  lemma {:induction false} DropUnitsOk(u: Units, span: int, s: int)
    requires Facts(u, span) && s in u.slabs
    ensures var v := Drop(u, s); forall b {:trigger UnitOk(v, span, b)} :: b in v.owner ==> UnitOk(v, span, b)
  {
    var v := Drop(u, s);
    forall b {:trigger UnitOk(v, span, b)} | b in v.owner ensures UnitOk(v, span, b) {
      assert UnitOk(u, span, b);
    }
  }

  lemma {:induction false} DropPlacesOk(u: Units, span: int, s: int)
    requires Facts(u, span) && s in u.slabs && u.members[s] <= u.chained
    ensures var v := Drop(u, s);
            && v.owner.Keys == v.chained + v.loose + v.held
            && (forall t, a :: t in v.members && a in v.members[t] ==> a in v.owner && v.owner[a] == t)
  {
    assert forall a :: a in u.members[s] ==> a !in u.loose && a !in u.held;
  }

  lemma {:induction false} DropFacts(u: Units, span: int, s: int)
    requires Facts(u, span) && s in u.slabs && u.members[s] <= u.chained
    ensures Facts(Drop(u, s), span)
  {
    DropSlabsOk(u, span, s);
    DropUnitsOk(u, span, s);
    DropPlacesOk(u, span, s);
  }

  lemma {:induction false} DifferenceSize(a: set<int>, b: set<int>)
    requires b <= a
    ensures |a - b| == |a| - |b|
  {
    assert a == (a - b) + b;
  }

  /** Only a slab none of whose units is in use can go. */
  lemma {:induction false} DropOk(u: Units, span: int, s: int)
    requires UnitsOk(u, span) && s in u.slabs && u.slabs[s].inuse == 0
    ensures s in u.members && s in u.chains && UnitsOk(Drop(u, s), span)
    ensures u.members[s] <= u.chained && |Drop(u, s).chained| == |u.chained| - |u.chains[s]|
  {
    assert Facts(u, span);
    IdleSlab(u, span, s);
    DropFacts(u, span, s);
    DifferenceSize(u.chained, u.members[s]);
  }

  lemma {:induction false} SameSize(a: set<int>, b: set<int>)
    requires a <= b && |a| == |b|
    ensures a == b
  {
    assert b == a + (b - a);
    assert |b - a| == 0;
  }
}
