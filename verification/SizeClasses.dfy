/** common/xmalloc/imembase.c: the size classes of ikmem, kept in a table that is searched from its end.

  A class stands for its object size.
 */
module SizeClasses {
  import opened Arith
  import opened Basics

  ghost predicate Descending(s: seq<nat>) {
    forall i, j :: 0 <= i < j < |s| ==> s[i] >= s[j]
  }

  /** Descending but for the first entry, which insertion never looks at. */
  ghost predicate TailDescending(s: seq<nat>) {
    forall i, j :: 1 <= i < j < |s| ==> s[i] >= s[j]
  }

  ghost predicate FirstLargest(s: seq<nat>) {
    forall i :: 0 <= i < |s| ==> s[i] <= s[0]
  }

  /** The table is sorted exactly if no class is larger than the first one appended. */
  lemma {:induction false} SortedIff(s: seq<nat>)
    requires TailDescending(s)
    ensures Descending(s) <==> FirstLargest(s)
  {
  }

  // ----- Choosing a class

  ghost predicate Fits(s: seq<nat>, size: nat, c: nat) {
    c in s && c >= size
  }

  /** `r` is the smallest class that holds `size`, if any does. */
  ghost predicate SmallestFit(s: seq<nat>, size: nat, r: Option<nat>) {
    match r
    case None => forall c :: c in s ==> c < size
    case Some(v) => Fits(s, size, v) && forall c :: Fits(s, size, c) ==> v <= c
  }

  /** The last entry among the first `n` that holds `size`. */
  function LastFit(s: seq<nat>, size: nat, n: nat): Option<nat>
    requires n <= |s|
  {
    if n == 0 then None else if s[n - 1] >= size then Some(s[n - 1]) else LastFit(s, size, n - 1)
  }

  function Chosen(s: seq<nat>, page: nat, size: nat): Option<nat> {
    if size >= page || (|s| > 0 && size > s[0]) then None else LastFit(s, size, |s|)
  }

  lemma {:induction false} LastFitIs(s: seq<nat>, size: nat, n: nat)
    requires n <= |s|
    ensures var r := LastFit(s, size, n);
            if r.None? then forall i :: 0 <= i < n ==> s[i] < size
            else exists k :: 0 <= k < n && s[k] == r.value >= size && forall i :: k < i < n ==> s[i] < size
  {
    if n > 0 {
      if s[n - 1] >= size {
        assert s[n - 1] == LastFit(s, size, n).value;
      } else {
        LastFitIs(s, size, n - 1);
      }
    }
  }

  lemma {:induction false} ChosenIsSmallest(s: seq<nat>, page: nat, size: nat)
    requires Descending(s) && size < page
    ensures SmallestFit(s, size, Chosen(s, page, size))
  {
    LastFitIs(s, size, |s|);
    var r := Chosen(s, page, size);
    if r.Some? {
      var k :| 0 <= k < |s| && s[k] == r.value >= size && forall i :: k < i < |s| ==> s[i] < size;
      forall c | Fits(s, size, c) ensures r.value <= c {
        var i :| 0 <= i < |s| && s[i] == c;
      }
    }
  }

  /** The search gives the smallest class that fits, for every size below the page size, exactly if the first
      class is the largest. */
  lemma {:induction false} SearchRightIff(s: seq<nat>, page: nat)
    requires TailDescending(s) && forall c :: c in s ==> c < page
    ensures FirstLargest(s) <==> forall size: nat :: size < page ==> SmallestFit(s, size, Chosen(s, page, size))
  {
    if FirstLargest(s) {
      SortedIff(s);
      forall size: nat | size < page ensures SmallestFit(s, size, Chosen(s, page, size)) {
        ChosenIsSmallest(s, page, size);
      }
    } else {
      var i :| 0 <= i < |s| && s[i] > s[0];
      assert s[i] in s;
      assert Chosen(s, page, s[i]) == None;
      assert !SmallestFit(s, s[i], Chosen(s, page, s[i]));
    }
  }

  // ----- The tables

  function RoundTo(size: nat, step: nat): (r: nat)
    requires step > 0
    ensures size <= r < size + step && r % step == 0
  {
    RoundingUp(size, step);
    (size + step - 1) / step * step
  }

  lemma {:induction false} RoundingUp(size: nat, step: nat)
    requires step > 0
    ensures var r := (size + step - 1) / step * step; size <= r < size + step && r % step == 0
  {
    var q := (size + step - 1) / step;
    assert size + step - 1 == step * q + (size + step - 1) % step;
    DivUnique(q * step, step, q, 0);
  }

  /** The size that ikmem_malloc looks up, or none for sizes beyond the tables. */
  function Rounded(size: nat): Option<nat> {
    if RoundTo(size, 4) <= 1024 then Some(RoundTo(size, 4))
    else if RoundTo(size, 1024) < 262144 then Some(RoundTo(size, 1024)) else None
  }

  /** Descending but for the first entry and the one at `index`, which is not below those behind it. */
  ghost predicate Sinking(s: seq<nat>, index: nat)
    requires index < |s|
  {
    && (forall i, j :: 1 <= i < j < |s| && i != index && j != index ==> s[i] >= s[j])
    && forall j :: index < j < |s| ==> s[index] >= s[j]
  }

  lemma {:induction false} Exchanged(s: seq<nat>, k: nat)
    requires 1 <= k < |s| - 1 && Sinking(s, k + 1) && s[k + 1] >= s[k]
    ensures var t := s[k + 1 := s[k]][k := s[k + 1]];
            Sinking(t, k) && multiset(t) == multiset(s) && t[0] == s[0]
  {
    var t := s[k + 1 := s[k]][k := s[k + 1]];
    assert s == s[..k] + [s[k], s[k + 1]] + s[k + 2..];
    assert t == s[..k] + [s[k + 1], s[k]] + s[k + 2..];
  }

  /** A table whose first class is the largest stays so exactly if the new class is not larger. */
  lemma {:induction false} StillLargest(s: seq<nat>, t: seq<nat>, size: nat)
    requires multiset(t) == multiset(s) + multiset{size} && TailDescending(t)
    requires t[0] == (if s == [] then size else s[0])
    ensures FirstLargest(s) ==> (Descending(t) <==> size <= t[0])
  {
    SortedIff(t);
    assert size in multiset(t) && size in t;
    if FirstLargest(s) && size <= t[0] {
      forall i | 0 <= i < |t| ensures t[i] <= t[0] {
        assert t[i] in multiset(t);
        assert t[i] == size || t[i] in s;
      }
    }
  }

  class Classes {
    const page: nat
    var lookup: seq<nat>
    var table1: seq<Option<nat>>
    var table2: seq<Option<nat>>

    constructor (page: nat)
      ensures this.page == page && lookup == [] && table1 == [] && table2 == []
    {
      this.page := page;
      lookup, table1, table2 := [], [], [];
    }

    /** ikmem_append: the new class moves forward past those not larger, but never to the front. */
    method Append(size: nat)
      requires TailDescending(lookup)
      modifies `lookup
      ensures TailDescending(lookup) && multiset(lookup) == multiset(old(lookup)) + multiset{size}
      ensures lookup[0] == (if old(lookup) == [] then size else old(lookup)[0])
      ensures FirstLargest(old(lookup)) ==> (Descending(lookup) <==> size <= lookup[0])
    {
      lookup := lookup + [size];
      var index := |lookup| - 1;
      while index > 1
        invariant 0 <= index < |lookup| && (index == 0 ==> |lookup| == 1) && Sinking(lookup, index)
        invariant multiset(lookup) == multiset(old(lookup)) + multiset{size}
        invariant lookup[0] == if old(lookup) == [] then size else old(lookup)[0]
        decreases index
      {
        var k := index - 1;
        if lookup[index] < lookup[k] {
          break;
        }
        Exchanged(lookup, k);
        lookup := lookup[index := lookup[k]][k := lookup[index]];
        index := k;
      }
      StillLargest(old(lookup), lookup, size);
    }

    /** ikmem_choose_size */
    method ChooseSize(size: nat) returns (r: Option<nat>)
      ensures r == Chosen(lookup, page, size)
    {
      if size >= page {
        return None;
      }
      if |lookup| > 0 && size > lookup[0] {
        return None;
      }
      var index := |lookup| - 1;
      while index >= 0
        invariant -1 <= index < |lookup| && LastFit(lookup, size, index + 1) == LastFit(lookup, size, |lookup|)
      {
        if lookup[index] >= size {
          return Some(lookup[index]);
        }
        index := index - 1;
      }
      return None;
    }

    ghost predicate Filled1(n: nat)
      reads this
    {
      n <= |table1| && forall k: nat :: 0 < k < n ==> table1[k] == Chosen(lookup, page, 4 * k)
    }

    ghost predicate Filled2(n: nat)
      reads this
    {
      n <= |table2| && forall k: nat :: 0 < k < n ==> table2[k] == Chosen(lookup, page, 1024 * k)
    }

    ghost predicate Ready()
      reads this
    {
      |table1| == 257 && |table2| == 257 && Filled1(257) && Filled2(257) && table1[0] == None && table2[0] == None
    }

    /** The end of ikmem_setup_caches: the choice for every multiple of 4 up to 1024 and of 1024 up to 262144. */
    method FillTables()
      modifies `table1, `table2
      ensures Ready()
    {
      table1, table2 := seq(257, _ => None), seq(257, _ => None);
      var k := 1;
      while k <= 256
        invariant 1 <= k <= 257 && |table1| == 257 && |table2| == 257 && Filled1(k)
      {
        var c := ChooseSize(4 * k);
        table1 := table1[k := c];
        k := k + 1;
      }
      k := 1;
      while k <= 256
        invariant 1 <= k <= 257 && |table1| == 257 && |table2| == 257 && Filled1(257) && Filled2(k)
      {
        var c := ChooseSize(1024 * k);
        table2 := table2[k := c];
        k := k + 1;
      }
      table1, table2 := table1[0 := None], table2[0 := None];
    }

    /** The choice of a class in ikmem_malloc; no class means a block of its own. */
    method ClassFor(size: nat, waterMark: nat) returns (r: Option<nat>)
      requires Ready() && 0 < size <= 0x4000_0000
      ensures r == Selected(lookup, page, size, waterMark)
    {
      r := FromTables(size);
      if r == None {
        r := ChooseSize(size);
      }
      if waterMark > 0 && size > waterMark {
        r := None;
      }
    }

    /** The entry for the rounded size, if the tables have one. */
    method FromTables(size: nat) returns (r: Option<nat>)
      requires Ready() && size > 0
      ensures r == if Rounded(size).Some? then Chosen(lookup, page, Rounded(size).value) else None
    {
      r := None;
      var round := RoundTo(size, 4);
      Multiple(size, 4);
      if round <= 1024 {
        r := table1[round / 4];
      } else {
        round := RoundTo(size, 1024);
        Multiple(size, 1024);
        if round < 262144 {
          r := table2[round / 1024];
        }
      }
    }
  }

  /** Rounding up gives a positive multiple. */
  lemma {:induction false} Multiple(size: nat, step: nat)
    requires size > 0 && step > 0
    ensures RoundTo(size, step) / step == (size + step - 1) / step > 0
    ensures step * (RoundTo(size, step) / step) == RoundTo(size, step)
  {
    var q := (size + step - 1) / step;
    DivUnique(q * step, step, q, 0);
    DivAtLeastOne(size + step - 1, step);
  }

  /** The choice at the rounded size, else at the size itself, unless the size is above the water mark. */
  function Selected(s: seq<nat>, page: nat, size: nat, waterMark: nat): Option<nat> {
    if waterMark > 0 && size > waterMark then None
    else if Rounded(size).Some? && Chosen(s, page, Rounded(size).value).Some? then Chosen(s, page, Rounded(size).value)
    else Chosen(s, page, size)
  }

  /** The tables go by a rounded size that some class holds though a smaller one would do. */
  ghost predicate Overshoots(s: seq<nat>, page: nat, size: nat) {
    && Rounded(size).Some? && Rounded(size).value < page
    && (exists c :: c in s && size <= c < Rounded(size).value) && (exists d :: d in s && d >= Rounded(size).value)
  }

  /** For every water mark: above it, or from the page size on, no class is selected.  Otherwise a class that is
      selected holds the request, one is selected whenever one fits, and it is the smallest that fits exactly if none
      lies between the request and its rounded size while a class beyond exists. */
  lemma {:induction false} SelectedHolds(s: seq<nat>, page: nat, size: nat, waterMark: nat)
    requires Descending(s) && size > 0
    ensures var r := Selected(s, page, size, waterMark);
            && (size >= page || 0 < waterMark < size ==> r == None)
            && (size < page && !(0 < waterMark < size) ==>
                  && (r.Some? ==> Fits(s, size, r.value)) && (r.None? <==> forall c :: c in s ==> c < size)
                  && (SmallestFit(s, size, r) <==> !Overshoots(s, page, size)))
  {
    RoundedUp(size);
    if size < page && !(0 < waterMark < size) {
      ChosenIsSmallest(s, page, size);
      if Rounded(size).Some? && Rounded(size).value < page {
        RoundedChoice(s, page, size, waterMark, Rounded(size).value);
      }
    }
  }

  lemma {:induction false} RoundedUp(size: nat)
    ensures Rounded(size).Some? ==> Rounded(size).value >= size
  {
  }

  lemma {:induction false} RoundedChoice(s: seq<nat>, page: nat, size: nat, waterMark: nat, round: nat)
    requires Descending(s) && 0 < size <= round < page && Rounded(size) == Some(round) && !(0 < waterMark < size)
    ensures var r := Selected(s, page, size, waterMark);
            && (r.Some? ==> Fits(s, size, r.value)) && (r.None? <==> forall c :: c in s ==> c < size)
            && (SmallestFit(s, size, r) <==> !Overshoots(s, page, size))
  {
    ChosenIsSmallest(s, page, size);
    ChosenIsSmallest(s, page, round);
    var r := Chosen(s, page, round);
    if r.Some? {
      assert Fits(s, round, r.value) && Fits(s, size, r.value);
      if c :| c in s && size <= c < round {
        assert Fits(s, size, c);
      } else {
        forall c | Fits(s, size, c) ensures r.value <= c {
          assert Fits(s, round, c);
        }
      }
    }
  }
}
