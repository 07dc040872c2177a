/** service/service_session.c: the table of online sessions, which a timer sweeps for silent ones.

  `id` tells list entries apart, as their addresses do.  Reference counts are left out: a release is taken to
  complete at once.
 */
module Sessions {
  import opened Basics

  datatype Session = Session(fd: int, uuid: string, admin: string, isAdmin: bool, beat: bool)

  datatype Entry = Entry(id: nat, session: Session, deleted: bool)

  /** What a new login pushes out: the same admin, the same user of the same admin, or the same connection. */
  predicate Conflicts(e: Entry, s: Session) {
    || (s.isAdmin && e.session.uuid == s.uuid)
    || (!s.isAdmin && e.session.admin == s.admin && e.session.uuid == s.uuid)
    || e.session.fd == s.fd
  }

  /** What a sweep removes. */
  predicate Dead(e: Entry) {
    !e.session.beat || e.deleted
  }

  function Cleared(e: Entry): Entry {
    e.(session := e.session.(beat := false))
  }

  function Without(l: seq<Entry>, s: Session): seq<Entry> {
    if l == [] then [] else if Conflicts(l[0], s) then Without(l[1..], s) else [l[0]] + Without(l[1..], s)
  }

  function Marked(l: seq<Entry>, fd: int): seq<Entry> {
    if l == [] then []
    else if l[0].session.fd == fd then [l[0].(deleted := true)] + l[1..]
    else [l[0]] + Marked(l[1..], fd)
  }

  function Beaten(l: seq<Entry>, fd: int): seq<Entry> {
    if l == [] then []
    else if l[0].session.fd == fd then [l[0].(session := l[0].session.(beat := true))] + l[1..]
    else [l[0]] + Beaten(l[1..], fd)
  }

  /** A sweep clears flags up to the first dead entry and removes that one alone. */
  function Swept(l: seq<Entry>): seq<Entry> {
    if l == [] then [] else if Dead(l[0]) then l[1..] else [Cleared(l[0])] + Swept(l[1..])
  }

  /** A sweep that stops before entry `n`, if it gets there. */
  function SweptUntil(l: seq<Entry>, n: nat): seq<Entry> {
    if l == [] || n == 0 then l else if Dead(l[0]) then l[1..] else [Cleared(l[0])] + SweptUntil(l[1..], n - 1)
  }

  // ----- The table

  class Table {
    var list: seq<Entry>
    var next: nat

    constructor ()
      ensures list == [] && next == 0
    {
      list, next := [], 0;
    }

    /** online_session_add */
    method Add(s: Session)
      modifies this
      ensures list == Without(old(list), s) + [Entry(old(next), s, false)] && next == old(next) + 1
    {
      var pos := 0;
      while pos < |list|
        invariant 0 <= pos <= |list| && next == old(next)
        invariant list[..pos] + Without(list[pos..], s) == Without(old(list), s)
        decreases |list| - pos
      {
        WithoutAt(list, s, pos);
        if Conflicts(list[pos], s) {
          list := list[..pos] + list[pos + 1..];
        } else {
          pos := pos + 1;
        }
      }
      list := list + [Entry(next, s, false)];
      next := next + 1;
    }

    /** online_session_del */
    method Del(fd: int) returns (r: bool)
      modifies `list
      ensures list == Marked(old(list), fd) && (r <==> exists e :: e in old(list) && e.session.fd == fd)
    {
      for pos := 0 to |list|
        invariant list == old(list) && forall i :: 0 <= i < pos ==> list[i].session.fd != fd
      {
        if list[pos].session.fd == fd {
          MarkedAt(list, fd, pos);
          list := list[pos := list[pos].(deleted := true)];
          return true;
        }
      }
      NoneMarked(list, fd);
      return false;
    }

    /** The part of req_heartbeat that finds the session and sets its flag. */
    method Heartbeat(fd: int) returns (r: bool)
      modifies `list
      ensures list == Beaten(old(list), fd) && (r <==> exists e :: e in old(list) && e.session.fd == fd)
    {
      for pos := 0 to |list|
        invariant list == old(list) && forall i :: 0 <= i < pos ==> list[i].session.fd != fd
      {
        if list[pos].session.fd == fd {
          BeatenAt(list, fd, pos);
          list := list[pos := list[pos].(session := list[pos].session.(beat := true))];
          return true;
        }
      }
      NoneBeaten(list, fd);
      return false;
    }

    /** online_session_check_all_hearbeat; the stop sign is seen before entry `stopAt`, if there is one. */
    method Sweep(stopAt: nat)
      modifies `list
      ensures list == SweptUntil(old(list), stopAt) && (stopAt >= |old(list)| ==> list == Swept(old(list)))
    {
      var pos := 0;
      SweptWhole(list, stopAt);
      SweptStart(list, stopAt);
      ghost var whole := SweptUntil(list, stopAt);
      while pos < |list|
        invariant 0 <= pos <= |list| && pos <= stopAt
        invariant list[..pos] + SweptUntil(list[pos..], stopAt - pos) == whole
        decreases |list| - pos
      {
        if pos == stopAt {
          break;
        }
        SweptAt(list, pos, stopAt);
        if Dead(list[pos]) {
          list := list[..pos] + list[pos + 1..];
          return;
        }
        list := list[pos := Cleared(list[pos])];
        pos := pos + 1;
      }
      SweptEnd(list, pos, stopAt);
    }
  }

  /** A sweep that has come to place `pos`. */
  lemma {:induction false} SweptAt(l: seq<Entry>, pos: nat, stopAt: nat)
    requires pos < |l| && pos < stopAt
    ensures Dead(l[pos]) ==> l[..pos] + SweptUntil(l[pos..], stopAt - pos) == l[..pos] + l[pos + 1..]
    ensures var m := l[pos := Cleared(l[pos])];
            !Dead(l[pos]) ==> l[..pos] + SweptUntil(l[pos..], stopAt - pos) ==
                              m[..pos + 1] + SweptUntil(m[pos + 1..], stopAt - (pos + 1))
  {
    var m := l[pos := Cleared(l[pos])];
    assert l[pos..][1..] == l[pos + 1..] == m[pos + 1..];
    assert m[..pos + 1] == l[..pos] + [Cleared(l[pos])];
  }

  /** A sweep that has not begun. */
  lemma {:induction false} SweptStart(l: seq<Entry>, n: nat)
    ensures l[..0] + SweptUntil(l[0..], n) == SweptUntil(l, n)
  {
    assert l[0..] == l;
  }

  /** A sweep that has come to its end. */
  lemma {:induction false} SweptEnd(l: seq<Entry>, pos: nat, stopAt: nat)
    requires pos <= |l| && pos <= stopAt && (pos == |l| || pos == stopAt)
    ensures l[..pos] + SweptUntil(l[pos..], stopAt - pos) == l
  {
    assert l[..pos] + l[pos..] == l;
  }

  lemma {:induction false} SweptWhole(l: seq<Entry>, n: nat)
    ensures n >= |l| ==> SweptUntil(l, n) == Swept(l)
  {
    if l != [] && n > 0 {
      SweptWhole(l[1..], n - 1);
    }
  }

  /** The search for conflicts that has come to place `pos`. */
  lemma {:induction false} WithoutAt(l: seq<Entry>, s: Session, pos: nat)
    requires pos < |l|
    ensures var m := l[..pos] + l[pos + 1..];
            Conflicts(l[pos], s) ==> l[..pos] + Without(l[pos..], s) == m[..pos] + Without(m[pos..], s)
    ensures !Conflicts(l[pos], s) ==> l[..pos] + Without(l[pos..], s) == l[..pos + 1] + Without(l[pos + 1..], s)
  {
    var m := l[..pos] + l[pos + 1..];
    assert l[pos..][1..] == l[pos + 1..] == m[pos..] && m[..pos] == l[..pos];
    assert l[..pos + 1] == l[..pos] + [l[pos]];
  }

  lemma {:induction false} MarkedAt(l: seq<Entry>, fd: int, k: nat)
    requires k < |l| && l[k].session.fd == fd && forall i :: 0 <= i < k ==> l[i].session.fd != fd
    ensures Marked(l, fd) == l[k := l[k].(deleted := true)]
  {
    if k > 0 {
      MarkedAt(l[1..], fd, k - 1);
      assert l[k := l[k].(deleted := true)] == [l[0]] + l[1..][k - 1 := l[k].(deleted := true)];
    }
  }

  lemma {:induction false} NoneMarked(l: seq<Entry>, fd: int)
    requires forall i :: 0 <= i < |l| ==> l[i].session.fd != fd
    ensures Marked(l, fd) == l
  {
    if l != [] {
      NoneMarked(l[1..], fd);
    }
  }

  lemma {:induction false} BeatenAt(l: seq<Entry>, fd: int, k: nat)
    requires k < |l| && l[k].session.fd == fd && forall i :: 0 <= i < k ==> l[i].session.fd != fd
    ensures Beaten(l, fd) == l[k := l[k].(session := l[k].session.(beat := true))]
  {
    if k > 0 {
      BeatenAt(l[1..], fd, k - 1);
      assert l[k := l[k].(session := l[k].session.(beat := true))] ==
             [l[0]] + l[1..][k - 1 := l[k].(session := l[k].session.(beat := true))];
    }
  }

  lemma {:induction false} NoneBeaten(l: seq<Entry>, fd: int)
    requires forall i :: 0 <= i < |l| ==> l[i].session.fd != fd
    ensures Beaten(l, fd) == l
  {
    if l != [] {
      NoneBeaten(l[1..], fd);
    }
  }

  // ----- Whom a login leaves alone

  /** A user's login leaves every session of another connection with another admin or another user; an admin's login
      leaves every session of another connection with another user. */
  predicate Unaffected(fd: int, uuid: string, admin: string, s: Session) {
    fd != s.fd && if s.isAdmin then uuid != s.uuid else admin != s.admin || uuid != s.uuid
  }

  /** Exactly the sessions of other connections and accounts stay, in their order; a new login goes behind them. */
  lemma {:induction false} LoginLeaves(l: seq<Entry>, s: Session) returns (ix: seq<nat>)
    ensures Picked(l, Without(l, s), ix)
    ensures forall i: nat :: i < |l| ==>
              (i in ix <==> Unaffected(l[i].session.fd, l[i].session.uuid, l[i].session.admin, s))
  {
    hide Conflicts, Unaffected, Picked;
    ix := [];
    if l == [] {
      PickedNone<Entry>();
    } else {
      var rest := LoginLeaves(l[1..], s);
      assert l == [l[0]] + l[1..];
      PickedBehind(l[0], l[1..], Without(l[1..], s), rest);
      UnaffectedLater(l, s, rest);
      UnaffectedIff(l[0], s);
      ix := if Conflicts(l[0], s) then Later(rest) else [0] + Later(rest);
    }
  }

  lemma {:induction false} UnaffectedIff(e: Entry, s: Session)
    ensures Unaffected(e.session.fd, e.session.uuid, e.session.admin, s) <==> !Conflicts(e, s)
  {
  }

  lemma {:induction false} UnaffectedLater(l: seq<Entry>, s: Session, rest: seq<nat>)
    requires l != [] && forall i: nat :: i < |l[1..]| ==>
               (i in rest <==> Unaffected(l[1..][i].session.fd, l[1..][i].session.uuid, l[1..][i].session.admin, s))
    ensures forall i: nat :: 0 < i < |l| ==>
              (i in Later(rest) <==> Unaffected(l[i].session.fd, l[i].session.uuid, l[i].session.admin, s))
  {
    hide Unaffected;
    forall i: nat | 0 < i < |l|
      ensures i in Later(rest) <==> Unaffected(l[i].session.fd, l[i].session.uuid, l[i].session.admin, s)
    {
      assert i - 1 in rest <==> i in Later(rest);
      assert l[i] == l[1..][i - 1];
    }
  }

  // ----- Runs

  datatype Event = Login(s: Session) | Logout(fd: int) | Beat(fd: int) | Tick

  datatype State = State(list: seq<Entry>, next: nat)

  function Step(st: State, e: Event): State {
    match e
    case Login(s) => State(Without(st.list, s) + [Entry(st.next, s, false)], st.next + 1)
    case Logout(fd) => State(Marked(st.list, fd), st.next)
    case Beat(fd) => State(Beaten(st.list, fd), st.next)
    case Tick => State(Swept(st.list), st.next)
  }

  function Run(st: State, es: seq<Event>): State
    decreases |es|
  {
    if es == [] then st else Run(Step(st, es[0]), es[1..])
  }

  function Ticks(es: seq<Event>): nat {
    if es == [] then 0 else (if es[0].Tick? then 1 else 0) + Ticks(es[1..])
  }

  // ----- Connections and accounts stay distinct

  predicate Different(a: Entry, b: Entry) {
    && a.session.fd != b.session.fd && a.id != b.id
    && (a.session.admin, a.session.uuid) != (b.session.admin, b.session.uuid)
  }

  ghost predicate Fits(a: Entry, l: seq<Entry>) {
    l == [] || (Different(a, l[0]) && Fits(a, l[1..]))
  }

  /** No connection, no pair of admin and user, and no entry twice; entries are older than `next`. */
  ghost predicate Distinct(l: seq<Entry>, next: nat) {
    l == [] || (l[0].id < next && Fits(l[0], l[1..]) && Distinct(l[1..], next))
  }

  /** What `Distinct` says of two entries. */
  lemma {:induction false} DistinctAt(l: seq<Entry>, next: nat, i: nat, j: nat)
    requires Distinct(l, next) && i < j < |l|
    ensures Different(l[i], l[j])
  {
    if i == 0 {
      FitsAt(l[0], l[1..], j - 1);
    } else {
      DistinctAt(l[1..], next, i - 1, j - 1);
    }
  }

  lemma {:induction false} FitsAt(a: Entry, l: seq<Entry>, j: nat)
    requires Fits(a, l) && j < |l|
    ensures Different(a, l[j])
  {
    if j > 0 {
      FitsAt(a, l[1..], j - 1);
    }
  }

  lemma {:induction false} StillFits(a: Entry, b: Entry, l: seq<Entry>, s: Session, fd: int)
    requires Fits(a, l) && b.id == a.id && b.session.fd == a.session.fd
    requires b.session.admin == a.session.admin && b.session.uuid == a.session.uuid
    ensures Fits(b, l) && Fits(b, Without(l, s)) && Fits(b, Marked(l, fd)) && Fits(b, Beaten(l, fd))
    ensures Fits(b, Swept(l))
  {
    if l != [] {
      StillFits(a, b, l[1..], s, fd);
    }
  }

  lemma {:induction false} MarkedDistinct(l: seq<Entry>, next: nat, fd: int)
    requires Distinct(l, next)
    ensures Distinct(Marked(l, fd), next)
  {
    if l != [] {
      MarkedDistinct(l[1..], next, fd);
      StillFits(l[0], l[0], l[1..], l[0].session, fd);
      StillFits(l[0], l[0].(deleted := true), l[1..], l[0].session, fd);
    }
  }

  lemma {:induction false} BeatenDistinct(l: seq<Entry>, next: nat, fd: int)
    requires Distinct(l, next)
    ensures Distinct(Beaten(l, fd), next)
  {
    if l != [] {
      BeatenDistinct(l[1..], next, fd);
      StillFits(l[0], l[0], l[1..], l[0].session, fd);
      StillFits(l[0], l[0].(session := l[0].session.(beat := true)), l[1..], l[0].session, fd);
    }
  }

  lemma {:induction false} SweptDistinct(l: seq<Entry>, next: nat)
    requires Distinct(l, next)
    ensures Distinct(Swept(l), next)
  {
    if l != [] {
      SweptDistinct(l[1..], next);
      StillFits(l[0], Cleared(l[0]), l[1..], l[0].session, 0);
    }
  }

  /** Nothing that stays conflicts with a new login. */
  lemma {:induction false} LoginDistinct(l: seq<Entry>, next: nat, s: Session)
    requires Distinct(l, next)
    ensures Distinct(Without(l, s) + [Entry(next, s, false)], next + 1)
  {
    var e := Entry(next, s, false);
    if l != [] {
      LoginDistinct(l[1..], next, s);
      if !Conflicts(l[0], s) {
        StillFits(l[0], l[0], l[1..], s, 0);
        FitsBefore(l[0], Without(l[1..], s), e);
        assert Without(l, s) + [e] == [l[0]] + (Without(l[1..], s) + [e]);
      }
    }
  }

  lemma {:induction false} FitsBefore(a: Entry, l: seq<Entry>, e: Entry)
    requires Fits(a, l) && Different(a, e)
    ensures Fits(a, l + [e])
  {
    if l != [] {
      FitsBefore(a, l[1..], e);
      assert (l + [e])[1..] == l[1..] + [e];
    }
  }

  lemma {:induction false} StepDistinct(st: State, e: Event)
    requires Distinct(st.list, st.next)
    ensures Distinct(Step(st, e).list, Step(st, e).next)
  {
    match e
    case Login(s) => LoginDistinct(st.list, st.next, s);
    case Logout(fd) => MarkedDistinct(st.list, st.next, fd);
    case Beat(fd) => BeatenDistinct(st.list, st.next, fd);
    case Tick => SweptDistinct(st.list, st.next);
  }

  /** In every run from the empty table, connections and pairs of admin and user are pairwise distinct. */
  lemma {:induction false} RunDistinct(st: State, es: seq<Event>)
    requires Distinct(st.list, st.next)
    ensures Distinct(Run(st, es).list, Run(st, es).next)
    decreases |es|
  {
    if es != [] {
      StepDistinct(st, es[0]);
      RunDistinct(Step(st, es[0]), es[1..]);
    }
  }

  // ----- Silent sessions go, lively ones stay

  ghost predicate At(l: seq<Entry>, k: nat, id: nat, fd: int) {
    k < |l| && l[k].id == id && l[k].session.fd == fd
  }

  ghost predicate Absent(l: seq<Entry>, id: nat) {
    l == [] || (l[0].id != id && Absent(l[1..], id))
  }

  lemma {:induction false} FitsAbsent(a: Entry, l: seq<Entry>)
    requires Fits(a, l)
    ensures Absent(l, a.id)
  {
    if l != [] {
      FitsAbsent(a, l[1..]);
    }
  }

  lemma {:induction false} AbsentMeans(l: seq<Entry>, id: nat, j: nat)
    requires Absent(l, id) && j < |l|
    ensures l[j].id != id
  {
    if j > 0 {
      AbsentMeans(l[1..], id, j - 1);
    }
  }

  /** How many sweeps an entry may outlast. */
  function Respite(l: seq<Entry>, k: nat): nat
    requires k < |l|
  {
    if Dead(l[k]) then k else k + 1
  }

  /** What a sweep that made `m` of `l` did to the entry at `k`: it is gone, or it is at `h` with less respite. */
  ghost predicate Fate(l: seq<Entry>, m: seq<Entry>, k: nat, id: nat, fd: int, gone: bool, h: nat)
    requires k < |l|
  {
    if gone then Absent(m, id) && Dead(l[k])
    else At(m, h, id, fd) && h <= k && (l[k].deleted ==> m[h].deleted) && Respite(m, h) < Respite(l, k)
  }

  /** A sweep removes the entry at `k`, moves it up, or clears its flag. */
  lemma {:induction false} SweepFate(l: seq<Entry>, next: nat, k: nat, id: nat, fd: int) returns (gone: bool, h: nat)
    requires Distinct(l, next) && At(l, k, id, fd)
    ensures Fate(l, Swept(l), k, id, fd, gone, h)
  {
    gone, h := false, 0;
    if Dead(l[0]) {
      if k == 0 {
        gone := true;
        FitsAbsent(l[0], l[1..]);
      } else {
        h := k - 1;
      }
    } else if k > 0 {
      gone, h := SweepFate(l[1..], next, k - 1, id, fd);
      DistinctAt(l, next, 0, k);
      FateBehind(l[0], l[1..], Swept(l[1..]), k - 1, id, fd, gone, h);
      assert l == [l[0]] + l[1..];
      h := h + 1;
    }
  }

  lemma {:induction false} FateBehind(e: Entry, l: seq<Entry>, m: seq<Entry>, k: nat, id: nat, fd: int, gone: bool,
                                      h: nat)
    requires k < |l| && Fate(l, m, k, id, fd, gone, h) && e.id != id
    ensures Fate([e] + l, [Cleared(e)] + m, k + 1, id, fd, gone, h + 1)
  {
    assert ([Cleared(e)] + m)[1..] == m;
  }

  /** Other events leave an entry in the list, no further back, unless a login pushes it out. */
  lemma {:induction false} LoginFate(l: seq<Entry>, next: nat, s: Session, k: nat, id: nat, fd: int)
      returns (gone: bool, h: nat)
    requires Distinct(l, next) && At(l, k, id, fd)
    ensures gone ==> Absent(Without(l, s), id)
    ensures !gone ==> At(Without(l, s), h, id, fd) && h <= k && Without(l, s)[h] == l[k]
  {
    gone, h := false, 0;
    if k == 0 {
      if Conflicts(l[0], s) {
        gone := true;
        StillFits(l[0], l[0], l[1..], s, 0);
        FitsAbsent(l[0], Without(l[1..], s));
      }
    } else {
      gone, h := LoginFate(l[1..], next, s, k - 1, id, fd);
      if !Conflicts(l[0], s) {
        DistinctAt(l, next, 0, k);
        h := h + 1;
      }
    }
  }

  lemma {:induction false} AbsentBefore(l: seq<Entry>, id: nat, e: Entry)
    requires Absent(l, id) && e.id != id
    ensures Absent(l + [e], id)
  {
    if l != [] {
      AbsentBefore(l[1..], id, e);
      assert (l + [e])[1..] == l[1..] + [e];
    }
  }

  lemma {:induction false} MarkFate(l: seq<Entry>, fd: int, k: nat)
    requires k < |l|
    ensures |Marked(l, fd)| == |l| && (Marked(l, fd)[k] == l[k] || Marked(l, fd)[k] == l[k].(deleted := true))
  {
    if k > 0 {
      MarkFate(l[1..], fd, k - 1);
    } else {
      MarkLength(l, fd);
    }
  }

  lemma {:induction false} MarkLength(l: seq<Entry>, fd: int)
    ensures |Marked(l, fd)| == |l| && |Beaten(l, fd)| == |l|
  {
    if l != [] {
      MarkLength(l[1..], fd);
    }
  }

  lemma {:induction false} BeatFate(l: seq<Entry>, fd: int, k: nat)
    requires k < |l|
    ensures |Beaten(l, fd)| == |l|
    ensures var e := Beaten(l, fd)[k];
            e == l[k] || (fd == l[k].session.fd && e == l[k].(session := l[k].session.(beat := true)))
  {
    if k > 0 {
      BeatFate(l[1..], fd, k - 1);
    } else {
      MarkLength(l, fd);
    }
  }

  lemma {:induction false} StepFate(st: State, e: Event, k: nat, id: nat, fd: int) returns (gone: bool, h: nat)
    requires Distinct(st.list, st.next) && At(st.list, k, id, fd) && (st.list[k].deleted || e != Beat(fd))
    ensures id < st.next
    ensures gone ==> Absent(Step(st, e).list, id)
    ensures !gone ==> At(Step(st, e).list, h, id, fd) && h <= k && (st.list[k].deleted ==> Step(st, e).list[h].deleted)
    ensures !gone ==> Respite(Step(st, e).list, h) <= Respite(st.list, k)
    ensures !gone && e.Tick? ==> Respite(Step(st, e).list, h) < Respite(st.list, k)
  {
    Older(st.list, st.next, k);
    gone, h := false, k;
    match e
    case Login(s) =>
      gone, h := LoginFate(st.list, st.next, s, k, id, fd);
      if gone {
        AbsentBefore(Without(st.list, s), id, Entry(st.next, s, false));
      }
    case Logout(f) => MarkFate(st.list, f, k);
    case Beat(f) => BeatFate(st.list, f, k);
    case Tick => gone, h := SweepFate(st.list, st.next, k, id, fd);
  }

  lemma {:induction false} Older(l: seq<Entry>, next: nat, k: nat)
    requires Distinct(l, next) && k < |l|
    ensures l[k].id < next
  {
    if k > 0 {
      Older(l[1..], next, k - 1);
    }
  }

  lemma {:induction false} StillAbsent(l: seq<Entry>, id: nat, s: Session, fd: int)
    requires Absent(l, id)
    ensures Absent(Without(l, s), id) && Absent(Marked(l, fd), id) && Absent(Beaten(l, fd), id) && Absent(Swept(l), id)
  {
    if l != [] {
      StillAbsent(l[1..], id, s, fd);
    }
  }

  /** An entry once removed does not come back. */
  lemma {:induction false} StaysAbsent(st: State, es: seq<Event>, id: nat)
    requires Absent(st.list, id) && id < st.next
    ensures Absent(Run(st, es).list, id)
    decreases |es|
  {
    if es != [] {
      match es[0] {
        case Login(s) =>
          StillAbsent(st.list, id, s, 0);
          AbsentBefore(Without(st.list, s), id, Entry(st.next, s, false));
        case Logout(fd) => StillAbsent(st.list, id, Session(0, "", "", false, false), fd);
        case Beat(fd) => StillAbsent(st.list, id, Session(0, "", "", false, false), fd);
        case Tick => StillAbsent(st.list, id, Session(0, "", "", false, false), 0);
      }
      StaysAbsent(Step(st, es[0]), es[1..], id);
    }
  }

  ghost predicate Silent(es: seq<Event>, fd: int) {
    forall i :: 0 <= i < |es| ==> es[i] != Beat(fd)
  }

  /** An entry that is logged out, or whose connection sends no heartbeat, is gone after more sweeps than its respite,
      whatever happens in between. */
  lemma {:induction false} Expires(st: State, es: seq<Event>, k: nat, id: nat, fd: int)
    requires Distinct(st.list, st.next) && At(st.list, k, id, fd) && (st.list[k].deleted || Silent(es, fd))
    requires Ticks(es) > Respite(st.list, k)
    ensures Absent(Run(st, es).list, id)
    decreases |es|
  {
    var gone, h := StepFate(st, es[0], k, id, fd);
    StepDistinct(st, es[0]);
    if gone {
      Growing(st, es[0]);
      StaysAbsent(Step(st, es[0]), es[1..], id);
    } else {
      Expires(Step(st, es[0]), es[1..], h, id, fd);
    }
  }

  lemma {:induction false} Growing(st: State, e: Event)
    ensures Step(st, e).next >= st.next
  {
  }

  /** The bound for a session at position `i`: it does not outlast `i + 2` sweeps. */
  lemma {:induction false} GoneWithin(st: State, es: seq<Event>, i: nat, id: nat, fd: int)
    requires Distinct(st.list, st.next) && At(st.list, i, id, fd) && (st.list[i].deleted || Silent(es, fd))
    requires Ticks(es) >= i + 2
    ensures forall j :: 0 <= j < |Run(st, es).list| ==> Run(st, es).list[j].id != id
  {
    Expires(st, es, i, id, fd);
    forall j | 0 <= j < |Run(st, es).list| ensures Run(st, es).list[j].id != id {
      AbsentMeans(Run(st, es).list, id, j);
    }
  }

  /** A session that logs out is gone after more sweeps than there are sessions before it. */
  lemma {:induction false} LogoutEnds(st: State, es: seq<Event>, i: nat, id: nat, fd: int)
    requires Distinct(st.list, st.next) && At(st.list, i, id, fd) && Ticks(es) > i
    ensures forall j :: 0 <= j < |Run(Step(st, Logout(fd)), es).list| ==> Run(Step(st, Logout(fd)), es).list[j].id != id
  {
    StepDistinct(st, Logout(fd));
    forall j | 0 <= j < i ensures st.list[j].session.fd != fd {
      DistinctAt(st.list, st.next, j, i);
    }
    MarkedAt(st.list, fd, i);
    var t := Step(st, Logout(fd));
    Expires(t, es, i, id, fd);
    forall j | 0 <= j < |Run(t, es).list| ensures Run(t, es).list[j].id != id {
      AbsentMeans(Run(t, es).list, id, j);
    }
  }

  /** Events under which `s` stays lively: it is not logged out nor pushed out, and between two sweeps it sends a
      heartbeat; `beat` says whether it has sent one since the last sweep. */
  ghost predicate Lively(es: seq<Event>, s: Session, beat: bool)
    decreases |es|
  {
    es == [] || match es[0]
                case Login(t) => Unaffected(s.fd, s.uuid, s.admin, t) && Lively(es[1..], s, beat)
                case Logout(fd) => fd != s.fd && Lively(es[1..], s, beat)
                case Beat(fd) => Lively(es[1..], s, beat || fd == s.fd)
                case Tick => beat && Lively(es[1..], s, false)
  }

  lemma {:induction false} LogoutElsewhere(l: seq<Entry>, fd: int, k: nat)
    requires k < |l| && l[k].session.fd != fd
    ensures |Marked(l, fd)| == |l| && Marked(l, fd)[k] == l[k]
  {
    if k > 0 {
      LogoutElsewhere(l[1..], fd, k - 1);
    } else {
      MarkLength(l, fd);
    }
  }

  lemma {:induction false} BeatHere(l: seq<Entry>, next: nat, k: nat)
    requires Distinct(l, next) && k < |l|
    ensures |Beaten(l, l[k].session.fd)| == |l|
    ensures Beaten(l, l[k].session.fd)[k] == l[k].(session := l[k].session.(beat := true))
  {
    if k > 0 {
      DistinctAt(l, next, 0, k);
      BeatHere(l[1..], next, k - 1);
    } else {
      MarkLength(l, l[0].session.fd);
    }
  }

  lemma {:induction false} NotPushedOut(l: seq<Entry>, s: Session, k: nat) returns (h: nat)
    requires k < |l| && !Conflicts(l[k], s)
    ensures h < |Without(l, s)| && Without(l, s)[h] == l[k]
  {
    if k == 0 {
      h := 0;
    } else {
      h := NotPushedOut(l[1..], s, k - 1);
      if !Conflicts(l[0], s) {
        h := h + 1;
      }
    }
  }

  lemma {:induction false} SweepSpares(l: seq<Entry>, k: nat) returns (h: nat)
    requires k < |l| && !Dead(l[k])
    ensures h < |Swept(l)| && (Swept(l)[h] == l[k] || Swept(l)[h] == Cleared(l[k]))
  {
    h := 0;
    if Dead(l[0]) {
      h := k - 1;
    } else if k > 0 {
      h := SweepSpares(l[1..], k - 1);
      h := h + 1;
    }
  }

  /** Sweeps never remove a session that stays lively. */
  lemma {:induction false} StaysOnline(st: State, es: seq<Event>, k: nat, beat: bool) returns (h: nat)
    requires Distinct(st.list, st.next) && k < |st.list| && !st.list[k].deleted
    requires Lively(es, st.list[k].session, beat) && (beat ==> st.list[k].session.beat)
    ensures h < |Run(st, es).list| && Run(st, es).list[h].id == st.list[k].id && !Run(st, es).list[h].deleted
    decreases |es|
  {
    h := k;
    if es != [] {
      var e, s := es[0], st.list[k].session;
      StepDistinct(st, e);
      var now := beat;
      match e {
        case Login(t) => h := NotPushedOut(st.list, t, k);
        case Logout(fd) => LogoutElsewhere(st.list, fd, k);
        case Beat(fd) =>
          BeatFate(st.list, fd, k);
          if fd == s.fd {
            BeatHere(st.list, st.next, k);
            now := true;
          }
        case Tick =>
          h := SweepSpares(st.list, k);
          now := false;
      }
      SameLiveliness(es[1..], s, Step(st, e).list[h].session, now);
      h := StaysOnline(Step(st, e), es[1..], h, now);
    }
  }

  /** Only the account and the connection matter. */
  lemma {:induction false} SameLiveliness(es: seq<Event>, s: Session, t: Session, beat: bool)
    requires Lively(es, s, beat) && t.fd == s.fd && t.uuid == s.uuid && t.admin == s.admin
    ensures Lively(es, t, beat)
    decreases |es|
  {
    if es != [] {
      match es[0]
      case Login(_) => SameLiveliness(es[1..], s, t, beat);
      case Logout(_) => SameLiveliness(es[1..], s, t, beat);
      case Beat(fd) => SameLiveliness(es[1..], s, t, beat || fd == s.fd);
      case Tick => SameLiveliness(es[1..], s, t, false);
    }
  }
}
