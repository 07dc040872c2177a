/** What several components share: optional values, sequences without repetition, and grouping of sequences. */
module Basics {

  datatype Option<T> = None | Some(value: T)

  ghost predicate NoDup<T>(s: seq<T>) {
    forall i, j :: 0 <= i < j < |s| ==> s[i] != s[j]
  }

  /** `m` has the elements of `l` at places `ix`, in their order. */
  ghost predicate Picked<T>(l: seq<T>, m: seq<T>, ix: seq<nat>) {
    && |ix| == |m| && (forall j :: 0 <= j < |ix| ==> ix[j] < |l| && m[j] == l[ix[j]])
    && (forall i, j :: 0 <= i < j < |ix| ==> ix[i] < ix[j])
  }

  /** The places one further back. */
  function Later(ix: seq<nat>): (r: seq<nat>)
    ensures |r| == |ix| && forall j :: 0 <= j < |ix| ==> r[j] == ix[j] + 1
    ensures forall i: nat {:trigger i in ix} {:trigger i + 1 in r} :: i in ix <==> i + 1 in r
    ensures 0 !in r
  {
    var r := seq(|ix|, j requires 0 <= j < |ix| => ix[j] + 1);
    assert forall i: nat :: i in ix ==> exists j :: 0 <= j < |ix| && ix[j] == i && r[j] == i + 1;
    r
  }

  lemma {:induction false} PickedNone<T>()
    ensures Picked<T>([], [], [])
  {
  }

  /** One more element in front, picked or not. */
  lemma {:induction false} PickedBehind<T>(x: T, l: seq<T>, m: seq<T>, ix: seq<nat>)
    requires Picked(l, m, ix)
    ensures Picked([x] + l, m, Later(ix)) && Picked([x] + l, [x] + m, [0] + Later(ix))
  {
  }

  lemma {:induction false} Regroup<T>(a: seq<T>, b: seq<T>, c: seq<T>, d: seq<T>, e: seq<T>)
    ensures a + b + (c + d + e) == a + (b + c + d) + e
    ensures (a + b + c) + d + e == a + (b + c + d) + e
    ensures a + (b + c + d) + e == (a + b) + c + (d + e)
  {
  }

  lemma {:induction false} UnionSize<T>(a: set<T>, b: set<T>)
    requires a !! b
    ensures |a + b| == |a| + |b|
  {
  }
}
