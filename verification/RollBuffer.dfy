/** common/rollbuf_pool.c as the steps of its threads: producers that push bytes and a consumer that takes them out.

  A step is what a thread does between two points at which another may run; reading or writing one of the counters
  or flags is one step.  `accepted` and `returned` record the bytes of the pushes that were counted and of the gets that
  copied.  `offered` and `answers` record what pushes were called with and whether they said they took it, `asked` and
  `replies` how many bytes gets were called for and what they came back with.
  A wait for the condition may end at any time, as pthread_cond_wait allows.
 */
module RollBuffer {
  import opened Octets

  datatype Producer =
    | Idle
    | Checking(data: seq<Byte>, sleep: int)
    | Cleared(data: seq<Byte>)
    | Locked(data: seq<Byte>)
    | Copied(data: seq<Byte>)
    | Counted

  datatype Consumer =
    | Outside
    | Waiting(need: nat)
    | Testing(need: nat)
    | Lacking(need: nat)
    | Unstopped(need: nat)
    | Enough(need: nat)
    | Ready(need: nat)
    | Taken(need: nat)
    | Shrunk(need: nat)
    | Moved
    | Drained

  datatype Owner = Free | ByProducer(i: nat) | ByConsumer

  /** What a get returns, and the bytes in the caller's buffer. */
  datatype Reply = Reply(code: int, bytes: seq<Byte>)

  datatype State = State(
    cap: nat,
    mem: seq<Byte>,
    size: nat,
    finish: bool,
    stop: bool,
    lock: Owner,
    producers: seq<Producer>,
    consumer: Consumer,
    accepted: seq<Byte>,
    returned: seq<Byte>,
    out: seq<Byte>,
    offered: seq<seq<Byte>>,
    answers: seq<bool>,
    asked: seq<nat>,
    replies: seq<Reply>)

  datatype Event =
    | PushCall(i: nat, data: seq<Byte>)
    | PushStep(i: nat)
    | GetCall(need: nat)
    | GetStep
    | Finish
    | Stop

  const TIMEOUT: int := 500
  const EVERY: int := 100

  /** memcpy of `data` to offset `at`. */
  function Put(mem: seq<Byte>, at: nat, data: seq<Byte>): seq<Byte>
    requires at <= |mem|
  {
    mem[..at] + data + if at + |data| < |mem| then mem[at + |data|..] else []
  }

  function SetProducer(st: State, i: nat, p: Producer): State
    requires i < |st.producers|
  {
    st.(producers := st.producers[i := p])
  }

  /** A push comes back. */
  function Answer(st: State, i: nat, ok: bool): State
    requires i < |st.producers|
  {
    SetProducer(st, i, Idle).(answers := st.answers + [ok])
  }

  /** A get comes back and leaves the lock. */
  function Return(st: State, code: int): State {
    st.(consumer := Outside, lock := Free, replies := st.replies + [Reply(code, st.out)])
  }

  /** rollbuf_pool_push */
  function Push(st: State, i: nat): State
    requires i < |st.producers|
  {
    match st.producers[i]
    case Idle => st
    case Checking(data, sleep) =>
      if st.size + |data| < st.cap then SetProducer(st, i, Cleared(data))
      else if sleep > 0 then SetProducer(st, i, Checking(data, sleep - EVERY))
      else Answer(st, i, false)
    case Cleared(data) => if st.lock == Free then SetProducer(st, i, Locked(data)).(lock := ByProducer(i)) else st
    case Locked(data) =>
      if st.size <= |st.mem| then SetProducer(st, i, Copied(data)).(mem := Put(st.mem, st.size, data)) else st
    case Copied(data) => SetProducer(st, i, Counted).(size := st.size + |data|, accepted := st.accepted + data)
    case Counted => Answer(st, i, true).(lock := Free)
  }

  /** rollbuf_pool_get */
  function Get(st: State): State {
    match st.consumer
    case Outside => st
    case Waiting(need) => if st.lock == Free then st.(consumer := Testing(need), lock := ByConsumer) else st
    case Testing(need) => st.(consumer := if need > st.size then Lacking(need) else Enough(need))
    case Lacking(need) => if st.stop then Return(st, -1) else st.(consumer := Unstopped(need))
    case Unstopped(need) =>
      if !st.finish then st.(consumer := Waiting(need), lock := Free)
      else if st.size <= |st.mem| then Copy(st, st.size).(consumer := Drained)
      else st
    case Enough(need) => if st.stop then Return(st, -1) else st.(consumer := Ready(need))
    case Ready(need) => if need <= |st.mem| then Copy(st, need).(consumer := Taken(need)) else st
    case Taken(need) => if need <= st.size then st.(consumer := Shrunk(need), size := st.size - need) else st
    case Shrunk(need) =>
      if need + st.size > |st.mem| then st
      else st.(consumer := Moved, mem := Put(st.mem, 0, st.mem[need..need + st.size]))
    case Moved => Return(st, 1)
    case Drained => Return(st.(size := 0), 0)
  }

  /** The first `n` bytes go to the caller's buffer. */
  function Copy(st: State, n: nat): State
    requires n <= |st.mem|
  {
    st.(out := st.mem[..n], returned := st.returned + st.mem[..n])
  }

  /** One step; an event that is not possible changes nothing. */
  function Step(st: State, e: Event): State {
    match e
    case PushCall(i, data) =>
      if i >= |st.producers| || st.producers[i] != Idle then st
      else if st.stop then st.(offered := st.offered + [data], answers := st.answers + [false])
      else SetProducer(st, i, Checking(data, TIMEOUT)).(offered := st.offered + [data])
    case PushStep(i) => if i < |st.producers| then Push(st, i) else st
    case GetCall(need) =>
      if st.consumer == Outside && st.lock == Free
      then st.(consumer := Testing(need), lock := ByConsumer, out := [], asked := st.asked + [need])
      else st
    case GetStep => Get(st)
    case Finish => st.(finish := true)
    case Stop => st.(stop := true)
  }

  function Run(st: State, es: seq<Event>): State
    decreases |es|
  {
    if es == [] then st else Run(Step(st, es[0]), es[1..])
  }

  /** A new pool with `n` producers. */
  function Created(cap: nat, mem: seq<Byte>, n: nat): State {
    State(cap, mem, 0, false, false, Free, seq(n, _ => Idle), Outside, [], [], [], [], [], [], [])
  }

  // ----- What one producer and the consumer keep

  /** The bytes accepted but not yet returned. */
  ghost function Pending(st: State): seq<Byte>
    requires st.size <= |st.mem|
    requires st.consumer.Taken? ==> st.consumer.need <= st.size
    requires st.consumer.Shrunk? ==> st.consumer.need + st.size <= |st.mem|
  {
    match st.consumer
    case Taken(need) => st.mem[need..st.size]
    case Shrunk(need) => st.mem[need..need + st.size]
    case Drained => []
    case _ => st.mem[..st.size]
  }

  ghost predicate ProducerOk(st: State, p: Producer) {
    && (p.Cleared? || p.Locked? || p.Copied? ==> st.size + |p.data| < st.cap)
    && (p.Locked? || p.Copied? || p.Counted? <==> st.lock == ByProducer(0))
    && (p.Copied? ==> st.size + |p.data| <= |st.mem| && st.mem[st.size..st.size + |p.data|] == p.data)
  }

  ghost predicate ConsumerOk(st: State) {
    && (st.consumer.Outside? || st.consumer.Waiting? <==> st.lock != ByConsumer)
    && (st.consumer.Enough? || st.consumer.Ready? || st.consumer.Taken? ==> st.consumer.need <= st.size)
    && (st.consumer.Shrunk? ==> st.consumer.need + st.size < st.cap)
  }

  ghost predicate InvFacts(st: State) {
    && st.size < st.cap == |st.mem| && |st.producers| <= 1
    && ConsumerOk(st) && (st.lock.ByProducer? ==> |st.producers| == 1 && st.lock.i == 0)
    && (|st.producers| == 1 ==> ProducerOk(st, st.producers[0]))
    && st.returned + Pending(st) == st.accepted
  }

  /** What every step keeps; folded, with the facts drawn only where `InvFacts` is named. */
  ghost predicate Inv(st: State) {
    forall s {:trigger InvFacts(s)} :: s == st ==> InvFacts(s)
  }

  lemma {:induction false} CopyKeeps(st: State)
    requires Inv(st) && |st.producers| == 1 && st.producers[0].Locked?
    ensures Inv(Push(st, 0))
  {
    assert InvFacts(st);
    var d, t := st.producers[0].data, Push(st, 0);
    assert t.mem[..st.size] == st.mem[..st.size];
    assert t.mem[st.size..st.size + |d|] == d;
  }

  lemma {:induction false} CountKeeps(st: State)
    requires Inv(st) && |st.producers| == 1 && st.producers[0].Copied?
    ensures Inv(Push(st, 0))
  {
    assert InvFacts(st);
    var d, t := st.producers[0].data, Push(st, 0);
    assert t.mem[..t.size] == st.mem[..st.size] + d;
    assert st.returned + (st.mem[..st.size] + d) == (st.returned + st.mem[..st.size]) + d;
  }

  lemma {:induction false} IdleKeeps(st: State)
    requires Inv(st) && |st.producers| == 1 && st.producers[0].Idle?
    ensures Inv(Push(st, 0))
  {
  }

  lemma {:induction false} OutsideKeeps(st: State, p: Producer)
    requires Inv(st) && |st.producers| == 1 && st.producers[0].Checking?
    requires p.Idle? || p.Checking? || (p.Cleared? && st.size + |p.data| < st.cap)
    ensures Inv(SetProducer(st, 0, p))
  {
    assert InvFacts(st);
    var t := SetProducer(st, 0, p);
    assert Pending(t) == Pending(st);
  }

  lemma {:induction false} AnswersKeep(st: State, answers: seq<bool>)
    requires Inv(st)
    ensures Inv(st.(answers := answers))
  {
    assert InvFacts(st);
    assert Pending(st.(answers := answers)) == Pending(st);
  }

  lemma {:induction false} WaitKeeps(st: State)
    requires Inv(st) && |st.producers| == 1 && st.producers[0].Checking?
    ensures Inv(Push(st, 0))
  {
    hide Inv, InvFacts, Put;
    match st.producers[0]
    case Checking(data, sleep) =>
      if st.size + |data| < st.cap {
        OutsideKeeps(st, Cleared(data));
      } else if sleep > 0 {
        OutsideKeeps(st, Checking(data, sleep - EVERY));
      } else {
        OutsideKeeps(st, Idle);
        AnswersKeep(SetProducer(st, 0, Idle), st.answers + [false]);
      }
  }

  lemma {:induction false} LockKeeps(st: State)
    requires Inv(st) && |st.producers| == 1 && (st.producers[0].Cleared? || st.producers[0].Counted?)
    ensures Inv(Push(st, 0))
  {
    assert InvFacts(st);
  }

  lemma {:induction false} PushKeeps(st: State)
    requires Inv(st) && |st.producers| == 1
    ensures Inv(Push(st, 0))
  {
    match st.producers[0]
    case Locked(_) => CopyKeeps(st);
    case Copied(_) => CountKeeps(st);
    case Idle => IdleKeeps(st);
    case Checking(_, _) => WaitKeeps(st);
    case Cleared(_) => LockKeeps(st);
    case Counted => LockKeeps(st);
  }

  lemma {:induction false} TakeKeeps(st: State)
    requires Inv(st) && st.consumer.Ready?
    ensures Inv(Get(st))
  {
    assert InvFacts(st);
    var n := st.consumer.need;
    assert st.mem[..st.size] == st.mem[..n] + st.mem[n..st.size];
    assert (st.returned + st.mem[..n]) + st.mem[n..st.size] == st.returned + (st.mem[..n] + st.mem[n..st.size]);
  }

  lemma {:induction false} MoveKeeps(st: State)
    requires Inv(st) && st.consumer.Shrunk?
    ensures Inv(Get(st))
  {
    assert InvFacts(st);
    var t := Get(st);
    MovedDown(st.mem, st.consumer.need, st.size);
    assert Pending(t) == Pending(st);
  }

  lemma {:induction false} MovedDown(m: seq<Byte>, n: nat, size: nat)
    requires n + size <= |m|
    ensures |Put(m, 0, m[n..n + size])| == |m| && Put(m, 0, m[n..n + size])[..size] == m[n..n + size]
  {
  }

  lemma {:induction false} DrainKeeps(st: State)
    requires Inv(st) && (st.consumer.Drained? || st.consumer.Unstopped?)
    ensures Inv(Get(st))
  {
    assert InvFacts(st);
    assert st.mem[..0] == [];
    assert st.returned + st.mem[..st.size] + [] == st.returned + st.mem[..st.size];
    assert st.returned + [] == st.returned;
  }

  lemma {:induction false} RestKeeps(st: State)
    requires Inv(st) && (st.consumer.Outside? || st.consumer.Waiting? || st.consumer.Taken? || st.consumer.Moved?)
    ensures Inv(Get(st))
  {
    assert InvFacts(st);
  }

  lemma {:induction false} TestKeeps(st: State)
    requires Inv(st) && (st.consumer.Testing? || st.consumer.Lacking? || st.consumer.Enough?)
    ensures Inv(Get(st))
  {
    assert InvFacts(st);
  }

  lemma {:induction false} GetKeeps(st: State)
    requires Inv(st)
    ensures Inv(Get(st))
  {
    match st.consumer
    case Ready(_) => TakeKeeps(st);
    case Shrunk(_) => MoveKeeps(st);
    case Drained => DrainKeeps(st);
    case Unstopped(_) => DrainKeeps(st);
    case Testing(_) => TestKeeps(st);
    case Lacking(_) => TestKeeps(st);
    case Enough(_) => TestKeeps(st);
    case Outside => RestKeeps(st);
    case Waiting(_) => RestKeeps(st);
    case Taken(_) => RestKeeps(st);
    case Moved => RestKeeps(st);
  }

  lemma {:induction false} AnyPushKeeps(st: State, i: nat)
    requires Inv(st)
    ensures Inv(Step(st, PushStep(i)))
  {
    assert InvFacts(st);
    if i < |st.producers| {
      PushKeeps(st);
    }
  }

  lemma {:induction false} PushCallKeeps(st: State, i: nat, data: seq<Byte>)
    requires Inv(st)
    ensures Inv(Step(st, PushCall(i, data)))
  {
    assert InvFacts(st);
  }

  lemma {:induction false} GetCallKeeps(st: State, need: nat)
    requires Inv(st)
    ensures Inv(Step(st, GetCall(need)))
  {
    assert InvFacts(st);
  }

  lemma {:induction false} FinishKeeps(st: State)
    requires Inv(st)
    ensures Inv(Step(st, Finish))
  {
    assert InvFacts(st);
  }

  lemma {:induction false} StopKeeps(st: State)
    requires Inv(st)
    ensures Inv(Step(st, Stop))
  {
    assert InvFacts(st);
  }

  lemma {:induction false} StepKeeps(st: State, e: Event)
    requires Inv(st)
    ensures Inv(Step(st, e))
  {
    match e
    case PushStep(i) => AnyPushKeeps(st, i);
    case GetStep => GetKeeps(st);
    case PushCall(i, data) => PushCallKeeps(st, i, data);
    case GetCall(need) => GetCallKeeps(st, need);
    case Finish => FinishKeeps(st);
    case Stop => StopKeeps(st);
  }

  lemma {:induction false} RunKeeps(st: State, es: seq<Event>)
    requires Inv(st)
    ensures Inv(Run(st, es))
    decreases |es|
  {
    if es != [] {
      StepKeeps(st, es[0]);
      RunKeeps(Step(st, es[0]), es[1..]);
    }
  }

  /** With one producer, in every interleaving, the bytes returned followed by those in the buffer are the bytes
      accepted, in order, and the buffer stays below its capacity though the check for room is made without the lock. */
  lemma {:induction false} OneProducerConserves(cap: nat, mem: seq<Byte>, es: seq<Event>)
    requires cap == |mem| > 0
    ensures var st := Run(Created(cap, mem, 1), es);
            && st.size < st.cap == |st.mem|
            && (st.consumer.Outside? ==> st.returned + st.mem[..st.size] == st.accepted)
            && st.returned <= st.accepted
  {
    var st := Created(cap, mem, 1);
    assert st.mem[..0] == [];
    RunKeeps(st, es);
    assert InvFacts(Run(st, es));
  }

  // ----- What each call comes back with

  /** The bytes of all replies, one after the other. */
  ghost function Given(rs: seq<Reply>): seq<Byte> {
    if rs == [] then [] else Given(rs[..|rs| - 1]) + rs[|rs| - 1].bytes
  }

  /** The bytes of the pushes that were taken, one after the other. */
  ghost function TakenOf(offered: seq<seq<Byte>>, answers: seq<bool>): seq<Byte>
    requires |answers| <= |offered|
  {
    if answers == [] then []
    else
      var n := |answers| - 1;
      TakenOf(offered, answers[..n]) + if answers[n] then offered[n] else []
  }

  lemma {:induction false} OneMoreGiven(rs: seq<Reply>, r: Reply)
    ensures Given(rs + [r]) == Given(rs) + r.bytes
  {
    assert (rs + [r])[..|rs|] == rs;
  }

  lemma {:induction false} OneMoreTaken(offered: seq<seq<Byte>>, answers: seq<bool>, ok: bool)
    requires |answers| < |offered|
    ensures TakenOf(offered, answers + [ok]) == TakenOf(offered, answers) + if ok then offered[|answers|] else []
  {
    assert (answers + [ok])[..|answers|] == answers;
  }

  lemma {:induction false} SameTaken(offered: seq<seq<Byte>>, more: seq<seq<Byte>>, answers: seq<bool>)
    requires |answers| <= |offered|
    ensures TakenOf(offered + more, answers) == TakenOf(offered, answers)
  {
    if answers != [] {
      SameTaken(offered, more, answers[..|answers| - 1]);
    }
  }

  /** What a get for `need` bytes may come back with: all of them; what is left, fewer than asked for, once the pushing
      has finished; or nothing once the pool has stopped. */
  ghost predicate Serves(r: Reply, need: nat, finish: bool, stop: bool) {
    || (r.code == 1 && |r.bytes| == need)
    || (r.code == 0 && |r.bytes| < need && finish)
    || (r.code == -1 && r.bytes == [] && stop)
  }

  /** The call in progress: what it asked for, and what it has copied. */
  ghost predicate Calling(st: State, need: nat) {
    match st.consumer
    case Outside => true
    case Waiting(n) => n == need && st.out == []
    case Testing(n) => n == need && st.out == []
    case Lacking(n) => n == need && st.out == [] && need > st.size
    case Unstopped(n) => n == need && st.out == [] && need > st.size
    case Enough(n) => n == need && st.out == []
    case Ready(n) => n == need && st.out == []
    case Taken(n) => n == need == |st.out|
    case Shrunk(n) => n == need == |st.out|
    case Moved => need == |st.out|
    case Drained => need > |st.out| && st.finish
  }

  ghost predicate GetsFacts(st: State) {
    && |st.asked| == |st.replies| + (if st.consumer.Outside? then 0 else 1)
    && (forall i :: 0 <= i < |st.replies| ==> Serves(st.replies[i], st.asked[i], st.finish, st.stop))
    && (!st.consumer.Outside? ==> Calling(st, st.asked[|st.replies|]))
    && st.returned == Given(st.replies) + (if st.consumer.Outside? then [] else st.out)
  }

  ghost predicate PushesFacts(st: State) {
    |st.producers| == 1 ==>
      && |st.offered| == |st.answers| + (if st.producers[0].Idle? then 0 else 1)
      && (st.producers[0].Checking? || st.producers[0].Cleared? || st.producers[0].Locked? || st.producers[0].Copied?
          ==> st.producers[0].data == st.offered[|st.answers|])
      && st.accepted == TakenOf(st.offered, st.answers)
                        + (if st.producers[0].Counted? then st.offered[|st.answers|] else [])
  }

  lemma {:induction false} ReturnGives(st: State, code: int)
    requires GetsFacts(st) && !st.consumer.Outside?
    requires Serves(Reply(code, st.out), st.asked[|st.replies|], st.finish, st.stop)
    ensures GetsFacts(Return(st, code))
  {
    OneMoreGiven(st.replies, Reply(code, st.out));
  }

  lemma {:induction false} TestGives(st: State)
    requires GetsFacts(st)
    requires st.consumer.Outside? || st.consumer.Waiting? || st.consumer.Testing?
             || (st.consumer.Lacking? && !st.stop) || (st.consumer.Enough? && !st.stop)
    ensures GetsFacts(Get(st))
  {
    hide Given, Serves;
  }

  lemma {:induction false} CopyGives(st: State)
    requires GetsFacts(st) && (st.consumer.Ready? || st.consumer.Unstopped?)
    ensures GetsFacts(Get(st))
  {
    hide Given, Serves;
    assert st.returned == Given(st.replies);
  }

  lemma {:induction false} TakeGives(st: State)
    requires GetsFacts(st) && (st.consumer.Taken? || st.consumer.Shrunk?)
    ensures GetsFacts(Get(st))
  {
    hide Given, Serves, Put;
  }

  lemma {:induction false} StopGives(st: State)
    requires GetsFacts(st) && st.stop && (st.consumer.Lacking? || st.consumer.Enough?)
    ensures GetsFacts(Get(st))
  {
    hide Given;
    ReturnGives(st, -1);
  }

  lemma {:induction false} EndGives(st: State)
    requires GetsFacts(st) && (st.consumer.Moved? || st.consumer.Drained?)
    ensures GetsFacts(Get(st))
  {
    hide Given;
    if st.consumer.Moved? {
      ReturnGives(st, 1);
    } else {
      ReturnGives(st.(size := 0), 0);
    }
  }

  lemma {:induction false} GetGives(st: State)
    requires GetsFacts(st)
    ensures GetsFacts(Get(st))
  {
    hide GetsFacts, Get;
    match st.consumer
    case Lacking(_) => if st.stop { StopGives(st); } else { TestGives(st); }
    case Enough(_) => if st.stop { StopGives(st); } else { TestGives(st); }
    case Moved => EndGives(st);
    case Drained => EndGives(st);
    case Ready(_) => CopyGives(st);
    case Unstopped(_) => CopyGives(st);
    case Taken(_) => TakeGives(st);
    case Shrunk(_) => TakeGives(st);
    case _ => TestGives(st);
  }

  /** The records of gets are the same. */
  ghost predicate SameGets(st: State, t: State) {
    && t.consumer == st.consumer && t.asked == st.asked && t.replies == st.replies && t.out == st.out
    && t.returned == st.returned
  }

  lemma {:induction false} CheckLeaves(st: State, i: nat)
    requires i < |st.producers| && (st.producers[i].Checking? || st.producers[i].Cleared?)
    ensures SameGets(st, Push(st, i))
  {
  }

  lemma {:induction false} CopyLeaves(st: State, i: nat)
    requires i < |st.producers| && (st.producers[i].Locked? || st.producers[i].Copied? || st.producers[i].Counted?)
    ensures SameGets(st, Push(st, i))
  {
    hide Put;
  }

  /** What a step of a push leaves alone. */
  lemma {:induction false} PushLeaves(st: State, i: nat)
    requires i < |st.producers|
    ensures SameGets(st, Push(st, i))
  {
    match st.producers[i]
    case Idle =>
    case Checking(_, _) =>
      hide Push, SameGets;
      CheckLeaves(st, i);
    case Cleared(_) =>
      hide Push, SameGets;
      CheckLeaves(st, i);
    case _ =>
      hide Push, SameGets;
      CopyLeaves(st, i);
  }

  lemma {:induction false} PushGrows(st: State, i: nat)
    requires i < |st.producers| && !st.producers[i].Copied?
    ensures Push(st, i).size == st.size
  {
    hide Put;
  }

  /** A push leaves the records of gets alone, and what a get has found while it has the lock. */
  lemma {:induction false} PushGives(st: State)
    requires Inv(st) && GetsFacts(st) && |st.producers| == 1
    ensures GetsFacts(Push(st, 0))
  {
    hide Push, Given, Serves;
    PushLeaves(st, 0);
    PushProducers(st, 0);
    if st.producers[0].Copied? {
      HeldApart(st);
    } else {
      PushGrows(st, 0);
    }
  }

  /** While a push that has copied has the lock, no get is under way. */
  lemma {:induction false} HeldApart(st: State)
    requires Inv(st) && |st.producers| == 1 && st.producers[0].Copied?
    ensures st.consumer.Outside? || st.consumer.Waiting?
  {
    hide Pending;
    assert InvFacts(st);
  }

  lemma {:induction false} CallGives(st: State, need: nat)
    requires Inv(st) && GetsFacts(st)
    ensures GetsFacts(Step(st, GetCall(need)))
  {
    assert st.returned + [] == st.returned;
  }

  lemma {:induction false} OfferGives(st: State, i: nat, data: seq<Byte>)
    requires GetsFacts(st)
    ensures GetsFacts(Step(st, PushCall(i, data)))
  {
    hide Given, Serves;
  }

  lemma {:induction false} FlagGives(st: State, e: Event)
    requires GetsFacts(st) && (e == Finish || e == Stop)
    ensures GetsFacts(Step(st, e))
  {
    hide Given;
  }

  lemma {:induction false} StepGives(st: State, e: Event)
    requires Inv(st) && GetsFacts(st)
    ensures GetsFacts(Step(st, e))
  {
    hide GetsFacts, Push, Get;
    match e
    case GetStep => GetGives(st);
    case GetCall(need) => CallGives(st, need);
    case PushStep(i) =>
      assert InvFacts(st);
      if i < |st.producers| {
        PushGives(st);
      }
    case PushCall(i, data) => OfferGives(st, i, data);
    case Finish => FlagGives(st, e);
    case Stop => FlagGives(st, e);
  }

  lemma {:induction false} AnswerCounts(st: State, ok: bool)
    requires |st.producers| == 1 && PushesFacts(st) && !st.producers[0].Idle? && ok == st.producers[0].Counted?
    ensures PushesFacts(Answer(st, 0, ok))
  {
    OneMoreTaken(st.offered, st.answers, ok);
  }

  lemma {:induction false} CopiedCounts(st: State)
    requires PushesFacts(st) && |st.producers| == 1 && st.producers[0].Copied?
    ensures PushesFacts(Push(st, 0))
  {
    hide TakenOf;
    assert st.accepted == TakenOf(st.offered, st.answers);
  }

  lemma {:induction false} MovesOn(st: State)
    requires PushesFacts(st) && |st.producers| == 1
    requires st.producers[0].Idle? || st.producers[0].Cleared? || st.producers[0].Locked?
    ensures PushesFacts(Push(st, 0))
  {
    hide TakenOf, Put;
  }

  lemma {:induction false} CheckCounts(st: State)
    requires PushesFacts(st) && |st.producers| == 1 && st.producers[0].Checking?
    ensures PushesFacts(Push(st, 0))
  {
    hide TakenOf;
    AnswerCounts(st, false);
  }

  lemma {:induction false} PushCounts(st: State)
    requires Inv(st) && PushesFacts(st) && |st.producers| == 1
    ensures PushesFacts(Push(st, 0))
  {
    match st.producers[0]
    case Checking(_, _) => CheckCounts(st);
    case Copied(_) => CopiedCounts(st);
    case Counted =>
      hide PushesFacts, TakenOf;
      AnswerCounts(st, true);
      FreeCounts(Answer(st, 0, true));
    case _ => MovesOn(st);
  }

  lemma {:induction false} FreeCounts(st: State)
    requires PushesFacts(st)
    ensures PushesFacts(st.(lock := Free))
  {
  }

  lemma {:induction false} OfferCounts(st: State, i: nat, data: seq<Byte>)
    requires PushesFacts(st) && |st.producers| == 1
    ensures PushesFacts(Step(st, PushCall(i, data)))
  {
    SameTaken(st.offered, [data], st.answers);
    if st.stop && i == 0 && st.producers[0].Idle? {
      OneMoreTaken(st.offered + [data], st.answers, false);
    }
  }

  lemma {:induction false} GetCounts(st: State)
    requires PushesFacts(st)
    ensures PushesFacts(Get(st))
  {
  }

  lemma {:induction false} StepCounts(st: State, e: Event)
    requires Inv(st) && PushesFacts(st) && |st.producers| == 1
    ensures PushesFacts(Step(st, e))
  {
    match e
    case PushCall(i, data) => OfferCounts(st, i, data);
    case PushStep(i) => if i == 0 { PushCounts(st); }
    case GetStep => GetCounts(st);
    case GetCall(_) =>
    case Finish =>
    case Stop =>
  }

  lemma {:induction false} RunRecords(st: State, es: seq<Event>)
    requires Inv(st) && GetsFacts(st) && PushesFacts(st) && |st.producers| == 1
    ensures Inv(Run(st, es)) && GetsFacts(Run(st, es)) && PushesFacts(Run(st, es))
    decreases |es|
  {
    if es != [] {
      StepKeeps(st, es[0]);
      StepGives(st, es[0]);
      StepCounts(st, es[0]);
      StepProducers(st, es[0]);
      RunRecords(Step(st, es[0]), es[1..]);
    }
  }

  /** In every interleaving of one producer and the consumer: every get that came back brought exactly the bytes it
      asked for, or after the finish what was left, or after a stop nothing; the replies together are the bytes
      accepted, in order, as far as they were given out; and the bytes accepted are those of the pushes that said they
      took them. */
  lemma {:induction false} CallsServed(cap: nat, mem: seq<Byte>, es: seq<Event>)
    requires cap == |mem| > 0
    ensures var st := Run(Created(cap, mem, 1), es);
            && |st.replies| <= |st.asked| <= |st.replies| + 1 && |st.answers| <= |st.offered| <= |st.answers| + 1
            && (forall i :: 0 <= i < |st.replies| ==> Serves(st.replies[i], st.asked[i], st.finish, st.stop))
            && (st.finish <==> Finish in es) && (st.stop <==> Stop in es)
            && Given(st.replies) <= st.accepted
            && st.size < st.cap == |st.mem|
            && (st.consumer.Outside? ==> Given(st.replies) + st.mem[..st.size] == st.accepted)
            && |st.producers| == 1 && (st.producers[0].Idle? ==> st.accepted == TakenOf(st.offered, st.answers))
  {
    var st := Created(cap, mem, 1);
    StartsRight(cap, mem);
    RunRecords(st, es);
    hide Step, Push, Get, Run, Pending;
    assert InvFacts(Run(st, es));
    SameProducers(st, es);
    FlagsSet(st, es);
  }

  lemma {:induction false} StepFlags(st: State, e: Event)
    ensures Step(st, e).finish == (st.finish || e == Finish) && Step(st, e).stop == (st.stop || e == Stop)
  {
    hide Push, Get;
    match e
    case PushStep(i) => if i < |st.producers| { PushProducers(st, i); }
    case GetStep => GetProducers(st);
    case _ =>
  }

  lemma {:induction false} FlagsSet(st: State, es: seq<Event>)
    ensures Run(st, es).finish == (st.finish || Finish in es) && Run(st, es).stop == (st.stop || Stop in es)
    decreases |es|
  {
    if es != [] {
      StepFlags(st, es[0]);
      FlagsSet(Step(st, es[0]), es[1..]);
      assert es == [es[0]] + es[1..];
    }
  }

  lemma {:induction false} PushProducers(st: State, i: nat)
    requires i < |st.producers|
    ensures |Push(st, i).producers| == |st.producers| && Push(st, i).finish == st.finish && Push(st, i).stop == st.stop
    ensures Push(st, i).cap == st.cap
  {
    hide Put;
  }

  lemma {:induction false} GetProducers(st: State)
    ensures Get(st).producers == st.producers && Get(st).finish == st.finish && Get(st).stop == st.stop
    ensures Get(st).cap == st.cap
  {
    hide Put;
  }

  lemma {:induction false} StepProducers(st: State, e: Event)
    ensures |Step(st, e).producers| == |st.producers|
  {
    hide Push, Get;
    match e
    case PushStep(i) => if i < |st.producers| { PushProducers(st, i); }
    case GetStep => GetProducers(st);
    case _ =>
  }

  lemma {:induction false} SameProducers(st: State, es: seq<Event>)
    ensures |Run(st, es).producers| == |st.producers|
    decreases |es|
  {
    if es != [] {
      StepProducers(st, es[0]);
      SameProducers(Step(st, es[0]), es[1..]);
    }
  }

  /** A reply of code 0 comes only when everything has been copied, and leaves the buffer empty. */
  lemma {:induction false} DrainStep(st: State, e: Event)
    requires |Step(st, e).replies| > |st.replies| && Step(st, e).replies[|st.replies|].code == 0
    ensures st.consumer.Drained? && Step(st, e).size == 0 && Step(st, e).consumer.Outside?
  {
    hide Push, Put;
    match e
    case PushStep(i) => if i < |st.producers| { PushLeaves(st, i); }
    case GetStep =>
    case _ =>
  }

  /** A get that comes back with what was left after the finish empties the buffer: all that was accepted is given. */
  lemma {:induction false} DrainTakesAll(cap: nat, mem: seq<Byte>, es: seq<Event>, e: Event)
    requires cap == |mem| > 0
    ensures var st := Run(Created(cap, mem, 1), es);
            var t := Step(st, e);
            |t.replies| > |st.replies| && t.replies[|st.replies|].code == 0 ==>
              t.size == 0 && Given(t.replies) == t.accepted
  {
    StartsRight(cap, mem);
    RunRecords(Created(cap, mem, 1), es);
    var st := Run(Created(cap, mem, 1), es);
    StepKeeps(st, e);
    StepGives(st, e);
    if |Step(st, e).replies| > |st.replies| && Step(st, e).replies[|st.replies|].code == 0 {
      DrainStep(st, e);
      EmptyGiven(Step(st, e));
    }
  }

  lemma {:induction false} EmptyGiven(st: State)
    requires Inv(st) && GetsFacts(st) && st.size == 0 && st.consumer.Outside?
    ensures Given(st.replies) == st.accepted
  {
    assert InvFacts(st);
    assert st.mem[..0] == [];
  }

  lemma {:induction false} StartsRight(cap: nat, mem: seq<Byte>)
    requires cap == |mem| > 0
    ensures var st := Created(cap, mem, 1); Inv(st) && GetsFacts(st) && PushesFacts(st)
  {
    var st := Created(cap, mem, 1);
    assert st.mem[..0] == [];
    assert st.returned + [] == st.returned;
  }

  // ----- Calls that nothing interrupts

  /** The consumer takes `n` steps with no other thread in between. */
  function Gets(st: State, n: nat): State
    decreases n
  {
    if n == 0 then st else Gets(Get(st), n - 1)
  }

  function Pushes(st: State, i: nat, n: nat): State
    requires i < |st.producers|
    decreases n
  {
    if n == 0 then st else Pushes(Push(st, i), i, n - 1)
  }

  lemma {:induction false} GetsAgain(st: State, m: nat, n: nat)
    ensures Gets(Gets(st, m), n) == Gets(st, m + n)
    decreases m
  {
    if m > 0 {
      GetsAgain(Get(st), m - 1, n);
    }
  }

  /** A get that finds enough. */
  lemma {:induction false} GetFull(st: State, n: nat)
    requires st.consumer == Ready(n) && n <= st.size < |st.mem|
    ensures var t := Gets(st, 5);
            && t.consumer == Outside && t.replies == st.replies + [Reply(1, st.mem[..n])]
            && t.size == st.size - n && |t.mem| == |st.mem| && t.mem[..t.size] == st.mem[n..st.size]
  {
    var a := Get(Get(Get(st)));
    assert a == st.(consumer := Moved, size := st.size - n, mem := Put(st.mem, 0, st.mem[n..st.size]),
                    out := st.mem[..n], returned := st.returned + st.mem[..n]);
    MovedDown(st.mem, n, st.size - n);
    GetsAgain(st, 3, 2);
    assert Gets(st, 3) == a;
    assert Gets(a, 2) == Get(Get(a));
  }

  /** A get that nothing interrupts: once stopped, nothing; the first `need` bytes, if there are as many, and the rest
      stays; after the finish all there are; otherwise it waits. */
  lemma {:induction false} GetAlone(st: State, need: nat)
    requires st.consumer == Outside && st.lock == Free && st.size < st.cap == |st.mem|
    ensures var t := Gets(Step(st, GetCall(need)), 7);
            && (t.consumer == Outside <==> st.stop || st.finish || need <= st.size)
            && (t.consumer == Outside ==> t.asked == st.asked + [need])
            && (st.stop ==> t.replies == st.replies + [Reply(-1, [])] && t.size == st.size && t.mem == st.mem)
            && (!st.stop && need <= st.size ==>
                  && t.replies == st.replies + [Reply(1, st.mem[..need])]
                  && t.size == st.size - need && |t.mem| == |st.mem| && t.mem[..t.size] == st.mem[need..st.size])
            && (!st.stop && need > st.size && st.finish ==>
                  t.replies == st.replies + [Reply(0, st.mem[..st.size])] && t.size == 0)
            && (!st.stop && need > st.size && !st.finish ==>
                  t == st.(consumer := Waiting(need), out := [], asked := st.asked + [need]))
  {
    var c := Step(st, GetCall(need));
    GetsAsked(c, 7);
    if st.stop {
      GetStopped(c);
    } else if need <= st.size {
      GetEnough(c);
    } else if st.finish {
      GetRest(c);
    } else {
      GetWaits(c);
    }
  }

  lemma {:induction false} GetStopped(st: State)
    requires st.consumer.Testing? && st.stop
    ensures Gets(st, 7) == Return(st, -1)
  {
    var d := Get(Get(st));
    assert d == Return(st, -1);
    assert Gets(st, 7) == Gets(d, 5);
    StaysOut(d, 5);
  }

  lemma {:induction false} GetEnough(st: State)
    requires st.consumer.Testing? && !st.stop && st.consumer.need <= st.size < |st.mem|
    ensures var t, n := Gets(st, 7), st.consumer.need;
            && t.consumer == Outside && t.replies == st.replies + [Reply(1, st.mem[..n])]
            && t.size == st.size - n && |t.mem| == |st.mem| && t.mem[..t.size] == st.mem[n..st.size]
  {
    var d := Get(Get(st));
    assert d == st.(consumer := Ready(st.consumer.need));
    assert Gets(st, 7) == Gets(d, 5);
    GetFull(d, st.consumer.need);
  }

  lemma {:induction false} GetRest(st: State)
    requires st.consumer.Testing? && !st.stop && st.finish && st.size < st.consumer.need && st.size <= |st.mem|
    ensures var t := Gets(st, 7);
            t.consumer == Outside && t.replies == st.replies + [Reply(0, st.mem[..st.size])] && t.size == 0
  {
    var d := Get(Get(Get(st)));
    assert d == Copy(st, st.size).(consumer := Drained);
    assert Gets(st, 7) == Gets(d, 4);
    assert Gets(d, 4) == Gets(Get(d), 3);
    StaysOut(Get(d), 3);
  }

  lemma {:induction false} GetWaits(st: State)
    requires st.consumer.Testing? && !st.stop && !st.finish && st.size < st.consumer.need && st.lock == ByConsumer
    ensures Gets(st, 7) == st.(consumer := Waiting(st.consumer.need), lock := Free)
  {
    assert Get(st) == st.(consumer := Lacking(st.consumer.need));
    assert Gets(st, 7) == Gets(Get(st), 6);
    WaitsAgain(Get(st));
  }

  lemma {:induction false} WaitsAgain(st: State)
    requires st.consumer.Lacking? && !st.stop && !st.finish && st.lock == ByConsumer && st.consumer.need > st.size
    ensures Gets(st, 6) == st.(consumer := Waiting(st.consumer.need), lock := Free)
  {
    var w := Get(Get(st));
    assert w == st.(consumer := Waiting(st.consumer.need), lock := Free);
    assert Gets(st, 6) == Gets(w, 4);
    assert Get(Get(w)) == st;
    assert Gets(w, 4) == Gets(st, 2);
  }

  lemma {:induction false} StaysOut(st: State, n: nat)
    requires st.consumer.Outside?
    ensures Gets(st, n) == st
    decreases n
  {
    if n > 0 {
      StaysOut(st, n - 1);
    }
  }

  lemma {:induction false} GetsAsked(st: State, n: nat)
    ensures Gets(st, n).asked == st.asked
    decreases n
  {
    if n > 0 {
      GetsAsked(Get(st), n - 1);
    }
  }

  /** A push that nothing interrupts: refused once stopped; taken whole if there is room; otherwise refused after six
      looks. */
  lemma {:induction false} PushAlone(st: State, i: nat, data: seq<Byte>)
    requires i < |st.producers| && st.producers[i] == Idle && st.lock == Free && st.size < st.cap == |st.mem|
    ensures var t := Pushes(Step(st, PushCall(i, data)), i, 6);
            && t.producers[i] == Idle && t.offered == st.offered + [data]
            && t.answers == st.answers + [!st.stop && st.size + |data| < st.cap]
            && (t.answers[|st.answers|] ==> t.size == st.size + |data| <= |t.mem|
                                            && t.mem[..t.size] == st.mem[..st.size] + data)
            && (!t.answers[|st.answers|] ==> t.size == st.size && t.mem == st.mem && t.accepted == st.accepted)
  {
    hide Put, Pushes, Push;
    var c := Step(st, PushCall(i, data));
    if st.stop {
      PushesIdle(c, i, 6);
    } else if st.size + |data| < st.cap {
      PushTaken(c, i);
    } else {
      PushRefused(c, i, TIMEOUT);
    }
  }

  lemma {:induction false} PushesIdle(st: State, i: nat, n: nat)
    requires i < |st.producers| && st.producers[i] == Idle
    ensures Pushes(st, i, n) == st
    decreases n
  {
    if n > 0 {
      PushesIdle(st, i, n - 1);
    }
  }

  lemma {:induction false} PushTaken(st: State, i: nat)
    requires i < |st.producers| && st.producers[i].Checking? && st.lock == Free
    requires st.size + |st.producers[i].data| < st.cap == |st.mem|
    ensures var d := st.producers[i].data;
            Pushes(st, i, 6) == Answer(st, i, true).(mem := Put(st.mem, st.size, d), size := st.size + |d|,
                                                     accepted := st.accepted + d)
    ensures |Put(st.mem, st.size, st.producers[i].data)| == |st.mem|
    ensures Put(st.mem, st.size, st.producers[i].data)[..st.size + |st.producers[i].data|]
            == st.mem[..st.size] + st.producers[i].data
  {
    var d := st.producers[i].data;
    var c := Push(st, i);
    assert c == SetProducer(st, i, Cleared(d));
    PushIn(c, i);
    var e := Push(Push(c, i), i);
    PushOut(e, i);
    var f := Push(Push(e, i), i);
    assert Pushes(st, i, 6) == Pushes(Push(c, i), i, 4);
    assert Pushes(Push(c, i), i, 4) == Pushes(Push(e, i), i, 2);
    assert Pushes(Push(e, i), i, 2) == Pushes(f, i, 1);
    PushesIdle(f, i, 1);
    assert c.producers[i := Copied(d)][i := Idle] == st.producers[i := Idle];
  }

  /** A push that finds no room looks again until its time is up. */
  lemma {:induction false} PushRefused(st: State, i: nat, sleep: nat)
    requires i < |st.producers| && st.producers[i].Checking? && st.producers[i].sleep == sleep && sleep % EVERY == 0
    requires st.size + |st.producers[i].data| >= st.cap
    ensures Pushes(st, i, sleep / EVERY + 1) == Answer(st, i, false)
    decreases sleep
  {
    var d := st.producers[i].data;
    if sleep == 0 {
      assert Pushes(st, i, 1) == Pushes(Push(st, i), i, 0);
    } else {
      var n := SetProducer(st, i, Checking(d, sleep - EVERY));
      assert Push(st, i) == n;
      PushRefused(n, i, sleep - EVERY);
      assert n.producers[i := Idle] == st.producers[i := Idle];
    }
  }

  // ----- Two producers

  lemma {:induction false} RunFirst(st: State, e: Event, es: seq<Event>)
    ensures Run(st, [e] + es) == Run(Step(st, e), es)
  {
    assert ([e] + es)[1..] == es;
  }

  lemma {:induction false} RunTwo(st: State, e: Event, f: Event, es: seq<Event>)
    ensures Run(st, [e, f] + es) == Run(Step(Step(st, e), f), es)
  {
    assert [e, f] + es == [e] + ([f] + es);
    RunFirst(st, e, [f] + es);
    RunFirst(Step(st, e), f, es);
  }

  /** A producer that found room goes through with its push. */
  lemma {:induction false} PushThrough(st: State, i: nat, es: seq<Event>)
    requires i < |st.producers| && st.producers[i].Cleared? && st.lock == Free && st.size <= |st.mem|
    ensures var d := st.producers[i].data;
            Run(st, [PushStep(i), PushStep(i)] + ([PushStep(i), PushStep(i)] + es)) ==
            Run(Answer(st, i, true).(mem := Put(st.mem, st.size, d), size := st.size + |d|,
                                     accepted := st.accepted + d), es)
  {
    var d, e := st.producers[i].data, PushStep(i);
    PushIn(st, i);
    RunTwo(st, e, e, [e, e] + es);
    PushOut(Step(Step(st, e), e), i);
    RunTwo(Step(Step(st, e), e), e, e, es);
    assert st.producers[i := Copied(d)][i := Idle] == st.producers[i := Idle];
  }

  lemma {:induction false} PushIn(st: State, i: nat)
    requires i < |st.producers| && st.producers[i].Cleared? && st.lock == Free && st.size <= |st.mem|
    ensures var d := st.producers[i].data;
            Step(Step(st, PushStep(i)), PushStep(i))
            == SetProducer(st, i, Copied(d)).(lock := ByProducer(i), mem := Put(st.mem, st.size, d))
  {
    var d := st.producers[i].data;
    assert st.producers[i := Locked(d)][i := Copied(d)] == st.producers[i := Copied(d)];
  }

  lemma {:induction false} PushOut(st: State, i: nat)
    requires i < |st.producers| && st.producers[i].Copied?
    ensures var d := st.producers[i].data;
            Step(Step(st, PushStep(i)), PushStep(i))
            == Answer(st, i, true).(lock := Free, size := st.size + |d|, accepted := st.accepted + d)
  {
    assert st.producers[i := Counted][i := Idle] == st.producers[i := Idle];
  }

  /** Two producers that both look for room before either takes the lock fill the buffer twice over. */
  lemma {:induction false} TwoProducersOverrun(cap: nat, mem: seq<Byte>, n: nat, d: seq<Byte>) returns (es: seq<Event>)
    requires cap == |mem| && n >= 2 && |d| == cap - 1 >= 1
    ensures Run(Created(cap, mem, n), es).size == 2 * (cap - 1) >= cap
  {
    var push0, push1 := [PushStep(0), PushStep(0)], [PushStep(1), PushStep(1)];
    var rest := push0 + (push0 + (push1 + (push1 + [])));
    es := [PushCall(0, d), PushCall(1, d)] + ([PushStep(0), PushStep(1)] + rest);
    var s := Created(cap, mem, n);
    var t := s.(producers := s.producers[0 := Checking(d, TIMEOUT)][1 := Checking(d, TIMEOUT)], offered := [d, d]);
    assert s.offered + [d] + [d] == [d, d];
    RunTwo(s, PushCall(0, d), PushCall(1, d), [PushStep(0), PushStep(1)] + rest);
    var u := t.(producers := s.producers[0 := Cleared(d)][1 := Cleared(d)]);
    assert t.producers[0 := Cleared(d)][1 := Cleared(d)] == u.producers;
    RunTwo(t, PushStep(0), PushStep(1), rest);
    PushThrough(u, 0, push1 + (push1 + []));
    var v := Answer(u, 0, true).(mem := Put(mem, 0, d), size := |d|, accepted := [] + d);
    PushThrough(v, 1, []);
  }

  /** For a pool of two bytes or more, the buffer stays below its capacity in every run exactly if there is at most one
      producer. */
  lemma {:induction false} BelowCapacityIff(cap: nat, mem: seq<Byte>, n: nat)
    requires cap == |mem| >= 2
    ensures n <= 1 <==> forall es :: Run(Created(cap, mem, n), es).size < cap
  {
    if n <= 1 {
      forall es ensures Run(Created(cap, mem, n), es).size < cap {
        assert mem[..0] == [];
        RunKeeps(Created(cap, mem, n), es);
        assert InvFacts(Run(Created(cap, mem, n), es));
        SameCap(Created(cap, mem, n), es);
      }
    } else {
      var es := TwoProducersOverrun(cap, mem, n, seq(cap - 1, _ => 0));
    }
  }

  lemma {:induction false} StepCap(st: State, e: Event)
    ensures Step(st, e).cap == st.cap
  {
    hide Push, Get;
    match e
    case PushStep(i) => if i < |st.producers| { PushProducers(st, i); }
    case GetStep => GetProducers(st);
    case _ =>
  }

  lemma {:induction false} SameCap(st: State, es: seq<Event>)
    ensures Run(st, es).cap == st.cap
    decreases |es|
  {
    hide Step;
    if es != [] {
      StepCap(st, es[0]);
      SameCap(Step(st, es[0]), es[1..]);
    }
  }
}
