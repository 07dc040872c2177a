/** common/xmalloc/imembase.c, imemcache_calculate: how a page is divided into units, and where the
  colour offsets put them.

  `ptr` is the size of a pointer, 4 or 8; the slab header holds eight pointer-sized fields.
 */
module SlabLayout {
  import opened Arith

  const ROUND: nat := 8

  function RoundUp(s: nat): (r: nat)
    ensures r % ROUND == 0 && s <= r < s + ROUND
  {
    (s + 7) / 8 * 8
  }

  function HeaderSize(ptr: nat): nat {
    8 * ptr
  }

  /** The size of a unit: the object and the word in front of it. */
  function UnitSize(ptr: nat, objSize: nat): nat {
    RoundUp(objSize + ptr)
  }

  ghost predicate SizesOk(ptr: nat, pageSize: nat, objSize: nat) {
    ptr in {4, 8} && pageSize % ROUND == 0 && ptr <= objSize && objSize + ROUND <= pageSize
  }

  datatype Layout = Layout(offSlab: bool, num: nat, colorLimit: nat, limit: nat, batchCount: nat)

  /** What is left of a page after as many units as fit. */
  function Leftover(pageSize: nat, unit: nat): nat
    requires unit > 0
  {
    pageSize % unit
  }

  lemma {:induction false} LeftoverIs(pageSize: nat, unit: nat)
    requires unit > 0
    ensures pageSize - (pageSize / unit) * unit == Leftover(pageSize, unit)
  {
  }

  function MagazineLimit(unit: nat): nat {
    if unit >= 1024 then 32 else if unit >= 256 then 48 else if unit >= 128 then 64 else if unit >= 64 then 96 else 128
  }

  function OffSlab(ptr: nat, pageSize: nat, unit: nat): bool
    requires unit > 0
  {
    var mustOnSlab := unit > RoundUp(HeaderSize(ptr))
                      && pageSize - (pageSize / unit) * unit >= RoundUp(HeaderSize(ptr) + ROUND);
    unit >= pageSize / 8 && !mustOnSlab
  }

  /** A page keeps room for at least one unit beside an on-slab header. */
  lemma {:induction false} HeaderLeavesRoom(ptr: nat, pageSize: nat, objSize: nat)
    requires SizesOk(ptr, pageSize, objSize)
    ensures var unit := UnitSize(ptr, objSize);
            && 0 < unit <= pageSize
            && (!OffSlab(ptr, pageSize, unit) ==> HeaderSize(ptr) + ROUND + unit <= pageSize)
  {
    UnitFits(ptr, pageSize, objSize);
    var unit := UnitSize(ptr, objSize);
    if !OffSlab(ptr, pageSize, unit) {
      BesideHeader(ptr, pageSize, unit);
    }
  }

  lemma {:induction false} UnitFits(ptr: nat, pageSize: nat, objSize: nat)
    requires SizesOk(ptr, pageSize, objSize)
    ensures 0 < 2 * ptr <= UnitSize(ptr, objSize) <= pageSize
  {
  }

  lemma {:induction false} BesideHeader(ptr: nat, pageSize: nat, unit: nat)
    requires 0 < 2 * ptr <= unit <= pageSize && !OffSlab(ptr, pageSize, unit)
    ensures HeaderSize(ptr) + ROUND + unit <= pageSize
  {
    if unit < pageSize / 8 {
      SmallUnit(ptr, pageSize, unit);
    } else {
      BigUnit(ptr, pageSize, unit, pageSize / unit);
    }
  }

  /** A unit below an eighth of the page leaves room for the header. */
  lemma {:induction false} SmallUnit(ptr: nat, pageSize: nat, unit: nat)
    requires 2 * ptr <= unit < pageSize / 8
    ensures HeaderSize(ptr) + ROUND + unit <= pageSize
  {
    assert 8 * (pageSize / 8) <= pageSize;
  }

  /** A big unit with a header in the page leaves room for the header next to at least one unit. */
  lemma {:induction false} BigUnit(ptr: nat, pageSize: nat, unit: nat, q: nat)
    requires 0 < unit <= pageSize && q == pageSize / unit && pageSize - q * unit >= RoundUp(HeaderSize(ptr) + ROUND)
    ensures HeaderSize(ptr) + ROUND + unit <= pageSize
  {
    DivAtLeastOne(pageSize, unit);
    MulLe(1, q, unit);
  }

  /** imemcache_calculate; every subtraction stays above zero. */
  function Calculate(ptr: nat, pageSize: nat, objSize: nat): (l: Layout)
    requires SizesOk(ptr, pageSize, objSize)
    ensures l.num >= 1
  {
    HeaderLeavesRoom(ptr, pageSize, objSize);
    var unit := UnitSize(ptr, objSize);
    var offSlab := OffSlab(ptr, pageSize, unit);
    var room := if offSlab then pageSize else pageSize - HeaderSize(ptr) - ROUND;
    var num := room / unit;
    LeftoverIs(room, unit);
    DivAtLeastOne(room, unit);
    var color := room - num * unit;
    var limit := MagazineLimit(unit);
    Layout(offSlab, num, if color > unit then unit else color, limit, (limit + 1) / 2)
  }

  /** The header is kept elsewhere exactly for units of an eighth of the page or more that are no larger than the
      header, or of which a header on the slab would take the place of one. */
  lemma {:induction false} OffSlabIff(ptr: nat, pageSize: nat, unit: nat)
    requires ptr in {4, 8} && 0 < unit && HeaderSize(ptr) + ROUND <= pageSize
    ensures OffSlab(ptr, pageSize, unit) <==>
              && unit >= pageSize / 8
              && (unit <= HeaderSize(ptr) || (pageSize - HeaderSize(ptr) - ROUND) / unit < pageSize / unit)
  {
    RoundedEight(ptr);
    RoundedEight(ptr + 1);
    LeftoverIs(pageSize, unit);
    CostsOne(pageSize, unit, HeaderSize(ptr) + ROUND);
  }

  lemma {:induction false} RoundedEight(k: nat)
    ensures RoundUp(8 * k) == 8 * k
  {
  }

  /** Taking `header` bytes off a page takes the place of a unit unless it fits into what is left. */
  lemma {:induction false} CostsOne(pageSize: nat, unit: nat, header: nat)
    requires unit > 0 && header <= pageSize
    ensures (pageSize - header) / unit < pageSize / unit <==> Leftover(pageSize, unit) < header
  {
    var q, r := pageSize / unit, Leftover(pageSize, unit);
    LeftoverIs(pageSize, unit);
    if r >= header {
      DivUnique(pageSize - header, unit, q, r - header);
    } else {
      Fewer(pageSize - header, unit, q);
    }
  }

  lemma {:induction false} Fewer(x: nat, m: nat, q: nat)
    requires m > 0 && x < q * m
    ensures x / m < q
  {
    if x / m >= q {
      MulLe(q, x / m, m);
    }
  }

  /** Larger units get smaller magazines, and a batch is half of a magazine. */
  lemma {:induction false} MagazineSizes(ptr: nat, pageSize: nat, objSize: nat, larger: nat)
    requires SizesOk(ptr, pageSize, objSize) && SizesOk(ptr, pageSize, larger) && objSize <= larger
    ensures var l, m := Calculate(ptr, pageSize, objSize), Calculate(ptr, pageSize, larger);
            32 <= m.limit <= l.limit <= 128 && l.limit <= 2 * l.batchCount <= l.limit + 1
  {
    assert UnitSize(ptr, objSize) <= UnitSize(ptr, larger);
  }

  // ----- Colour offsets

  /** The offsets `color_next` takes: multiples of eight, below the limit or zero. */
  ghost predicate ColorOk(l: Layout, color: nat) {
    color % ROUND == 0 && (color == 0 || color < l.colorLimit)
  }

  function NextColor(l: Layout, color: nat): nat {
    if color + ROUND >= l.colorLimit then 0 else color + ROUND
  }

  lemma {:induction false} ColorsStayOk(l: Layout, color: nat)
    requires ColorOk(l, color)
    ensures ColorOk(l, NextColor(l, color))
  {
  }

  /** The colour after `k` slabs. */
  function ColorAfter(l: Layout, k: nat): nat {
    if k == 0 then 0 else NextColor(l, ColorAfter(l, k - 1))
  }

  /** How many colours there are: as many as there are multiples of eight below the limit, but at least one. */
  function Colors(l: Layout): nat {
    if l.colorLimit <= ROUND then 1 else (l.colorLimit + ROUND - 1) / ROUND
  }

  /** The colours of slabs made one after the other go through all multiples of eight below the limit, in turn. */
  lemma {:induction false} ColorsCycle(l: Layout, k: nat)
    ensures Colors(l) > 0 && ColorAfter(l, k) == ROUND * (k % Colors(l))
  {
    if k > 0 {
      ColorsCycle(l, k - 1);
      var m := Colors(l);
      var q, r := (k - 1) / m, (k - 1) % m;
      assert k - 1 == m * q + r;
      if r + 1 < m {
        DivUnique(k, m, q, r + 1);
      } else {
        assert m * (q + 1) == m * q + m;
        DivUnique(k, m, q + 1, 0);
      }
      LastColor(l.colorLimit, r);
    }
  }

  lemma {:induction false} LastColor(limit: nat, r: nat)
    ensures limit > ROUND ==> (ROUND * r + ROUND >= limit <==> r + 1 >= (limit + ROUND - 1) / ROUND)
  {
  }

  /** Where the first unit goes: behind the header if the header is on the slab. */
  function FirstUnit(ptr: nat, l: Layout, color: nat): nat {
    if l.offSlab then color else color + HeaderSize(ptr)
  }

  /** How many units fit from offset `first` on. */
  function UnitCount(pageSize: nat, unit: nat, first: nat): nat
    requires unit > 0
  {
    if first > pageSize then 0 else (pageSize - first) / unit
  }

  /** For every reachable colour a slab has at least `num` units, exactly `num` when the header is
      elsewhere; they end within the page and start behind the header. */
  lemma {:induction false} EnoughUnits(ptr: nat, pageSize: nat, objSize: nat, color: nat)
    requires SizesOk(ptr, pageSize, objSize) && ColorOk(Calculate(ptr, pageSize, objSize), color)
    ensures var l, unit := Calculate(ptr, pageSize, objSize), UnitSize(ptr, objSize);
            var first := FirstUnit(ptr, l, color);
            var count := UnitCount(pageSize, unit, first);
            && l.num + 1 >= count >= l.num >= 1 && (l.offSlab ==> count == l.num)
            && first + count * unit <= pageSize
            && (!l.offSlab ==> first >= color + HeaderSize(ptr))
  {
    HeaderLeavesRoom(ptr, pageSize, objSize);
    var l, unit := Calculate(ptr, pageSize, objSize), UnitSize(ptr, objSize);
    var first := FirstUnit(ptr, l, color);
    var room := if l.offSlab then pageSize else pageSize - HeaderSize(ptr) - ROUND;
    LeftoverIs(room, unit);
    assert l.num * unit + Leftover(room, unit) == room;
    CountFits(pageSize, unit, first, l.num, l.offSlab);
    AtLeast(pageSize - first, unit, UnitCount(pageSize, unit, first));
    NoMore(pageSize - first, unit, l.num);
  }

  lemma {:induction false} NoMore(x: nat, m: nat, k: nat)
    requires m > 0 && x < k * m + 2 * m
    ensures x / m <= k + 1
  {
    var q := x / m;
    assert m * q + x % m == x && (k + 2) * m == k * m + 2 * m;
    if q >= k + 2 {
      MulLe(k + 2, q, m);
    }
  }

  /** The colour limit is what the planned units and the header leave of the page, up to the size of a unit. */
  lemma {:induction false} LimitTight(ptr: nat, pageSize: nat, objSize: nat)
    requires SizesOk(ptr, pageSize, objSize)
    ensures var l, unit := Calculate(ptr, pageSize, objSize), UnitSize(ptr, objSize);
            var taken := l.num * unit + if l.offSlab then 0 else HeaderSize(ptr) + ROUND;
            l.colorLimit + taken <= pageSize && (l.colorLimit == unit || l.colorLimit + taken == pageSize)
  {
    HeaderLeavesRoom(ptr, pageSize, objSize);
    var l, unit := Calculate(ptr, pageSize, objSize), UnitSize(ptr, objSize);
    LeftoverIs(if l.offSlab then pageSize else pageSize - HeaderSize(ptr) - ROUND, unit);
  }

  lemma {:induction false} FirstAligned(ptr: nat, l: Layout, color: nat)
    requires ColorOk(l, color)
    ensures FirstUnit(ptr, l, color) % ROUND == 0
  {
  }

  /** The units behind offset `first`, when `num` of them fit there. */
  lemma {:induction false} CountFits(pageSize: nat, unit: nat, first: nat, num: nat, exact: bool)
    requires unit > 0 && first + num * unit <= pageSize && (exact ==> pageSize < first + num * unit + unit)
    ensures var count := UnitCount(pageSize, unit, first);
            count >= num && first + count * unit <= pageSize && (exact ==> count == num)
  {
    AtLeast(pageSize - first, unit, num);
    LeftoverIs(pageSize - first, unit);
    if exact {
      DivUnique(pageSize - first, unit, num, pageSize - first - num * unit);
    }
  }

  lemma {:induction false} AtLeast(x: nat, m: nat, k: nat)
    requires m > 0 && k * m <= x
    ensures x / m >= k
  {
    var q := x / m;
    if q < k {
      MulLe(q + 1, k, m);
    }
  }
}
