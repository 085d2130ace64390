/** The legacy `ServerDataStore` and the stale-task sweep. No critical section suspends, so each method,
    and the sweep, is one step. */
module TaskStore {
  import opened Basics

  datatype Task = Task(id: string, input: string, lastClaim: Option<int>, numClaims: nat)

  /** The queue, the tasks being processed in claim order, and the finished rollouts. */
  datatype State = State(queue: seq<Task>, processing: seq<Task>, completed: Dictionary<string>)

  /** What clients and the server do to the store. A result may come for any id at any time. */
  datatype Op = Add(id: string, input: string) | Claim(now: int) | StoreResult(id: string, result: string)
              | Retrieve(id: string) | RetrieveAll | Sweep(now: int)

  function Ids(ts: seq<Task>): seq<string> {
    seq(|ts|, i requires 0 <= i < |ts| => ts[i].id)
  }

  /** `d.pop(id, None)`. */
  function Without(ts: seq<Task>, id: string): seq<Task> {
    if ts == [] then [] else if ts[0].id == id then ts[1..] else [ts[0]] + Without(ts[1..], id)
  }

  /** `d[task.id] = task`: a known id keeps its place. */
  function With(ts: seq<Task>, t: Task): seq<Task> {
    if ts == [] then [t] else if ts[0].id == t.id then [t] + ts[1..] else [ts[0]] + With(ts[1..], t)
  }

  /** The task has been claimed and held for longer than the timeout. */
  predicate IsStale(t: Task, now: int, timeout: int) {
    t.lastClaim.Some? && t.lastClaim.value != 0 && now - t.lastClaim.value > timeout
  }

  function Stale(ts: seq<Task>, now: int, timeout: int): seq<Task> {
    if ts == [] then []
    else (if IsStale(ts[0], now, timeout) then [ts[0]] else []) + Stale(ts[1..], now, timeout)
  }

  function Current(ts: seq<Task>, now: int, timeout: int): seq<Task> {
    if ts == [] then []
    else (if IsStale(ts[0], now, timeout) then [] else [ts[0]]) + Current(ts[1..], now, timeout)
  }

  function Claimed(t: Task, now: int): Task {
    t.(lastClaim := Some(now), numClaims := t.numClaims + 1)
  }

  /** The task a step hands out, if any. */
  function HandsOut(s: State, op: Op): Option<Task> {
    if op.Claim? && s.queue != [] then Some(Claimed(s.queue[0], op.now)) else None
  }

  function Step(s: State, op: Op, timeout: int): State {
    match op
    case Add(id, input) => s.(queue := s.queue + [Task(id, input, None, 0)])
    case Claim(now) =>
      if s.queue == [] then s
      else s.(queue := s.queue[1..], processing := With(s.processing, Claimed(s.queue[0], now)))
    case StoreResult(id, result) =>
      s.(processing := Without(s.processing, id), completed := Put(s.completed, id, result))
    case Retrieve(id) => s.(completed := Drop(s.completed, id))
    case RetrieveAll => s.(completed := [])
    case Sweep(now) =>
      s.(queue := s.queue + Stale(s.processing, now, timeout), processing := Current(s.processing, now, timeout))
  }

  // ---- The store ----

  class ServerDataStore {
    var queue: seq<Task>
    var processing: seq<Task>
    var completed: Dictionary<string>

    constructor ()
      ensures Now() == State([], [], [])
    {
      queue, processing, completed := [], [], [];
    }

    function Now(): State
      reads this
    {
      State(queue, processing, completed)
    }

    /** `rolloutId` is the id the server has just generated. */
    method AddTask(rolloutId: string, input: string)
      modifies this
      ensures Now() == Step(old(Now()), Add(rolloutId, input), 0)
    {
      queue := queue + [Task(rolloutId, input, None, 0)];
    }

    method GetNextTask(now: int) returns (task: Option<Task>)
      modifies this
      ensures Now() == Step(old(Now()), Claim(now), 0)
      ensures task == HandsOut(old(Now()), Claim(now))
      ensures task.Some? <==> old(queue) != []
      ensures task.Some? ==>
                && task.value.id == old(queue)[0].id && task.value.input == old(queue)[0].input
                && task.value.lastClaim == Some(now) && task.value.numClaims == old(queue)[0].numClaims + 1
    {
      if queue == [] {
        return None;
      }
      var t := Claimed(queue[0], now);
      queue := queue[1..];
      processing := With(processing, t);
      task := Some(t);
    }

    method StoreRollout(rolloutId: string, result: string)
      modifies this
      ensures Now() == Step(old(Now()), StoreResult(rolloutId, result), 0)
    {
      processing := Without(processing, rolloutId);
      completed := Put(completed, rolloutId, result);
    }

    method RetrieveRollout(rolloutId: string) returns (result: Option<string>)
      modifies this
      ensures Now() == Step(old(Now()), Retrieve(rolloutId), 0)
      ensures result == Get(old(completed), rolloutId)
    {
      result := Get(completed, rolloutId);
      completed := Drop(completed, rolloutId);
    }

    method RetrieveCompletedRollouts() returns (results: seq<string>)
      modifies this
      ensures Now() == Step(old(Now()), RetrieveAll, 0) && results == Values(old(completed)) && completed == []
    {
      results := Values(completed);
      completed := [];
    }

    method RequeueTask(task: Task)
      modifies this
      ensures Now() == old(Now()).(queue := old(queue) + [task], processing := Without(old(processing), task.id))
    {
      processing := Without(processing, task.id);
      queue := queue + [task];
    }

    /** `_check_and_requeue_stale_tasks`, over a copy of the processing map. */
    method CheckAndRequeueStaleTasks(now: int, timeout: int)
      requires NoDup(Ids(processing))
      modifies this
      ensures Now() == Step(old(Now()), Sweep(now), timeout)
    {
      var tasks := processing;
      for i := 0 to |tasks|
        invariant SweptTo(queue, processing, old(queue), tasks, i, now, timeout) && completed == old(completed)
      {
        SweptNext(queue, processing, old(queue), tasks, i, now, timeout);
        if IsStale(tasks[i], now, timeout) {
          RequeueTask(tasks[i]);
        }
      }
      assert tasks[..|tasks|] == tasks;
    }
  }

  lemma {:induction false} SweepSnoc(ts: seq<Task>, t: Task, now: int, timeout: int)
    ensures Stale(ts + [t], now, timeout) == Stale(ts, now, timeout) + (if IsStale(t, now, timeout) then [t] else [])
    ensures Current(ts + [t], now, timeout) ==
            Current(ts, now, timeout) + (if IsStale(t, now, timeout) then [] else [t])
  {
    if ts == [] {
      assert ts + [t] == [t];
    } else {
      assert (ts + [t])[1..] == ts[1..] + [t];
      SweepSnoc(ts[1..], t, now, timeout);
      var x := ts[0];
      Associates(if IsStale(x, now, timeout) then [x] else [], Stale(ts[1..], now, timeout),
                 if IsStale(t, now, timeout) then [t] else []);
      Associates(if IsStale(x, now, timeout) then [] else [x], Current(ts[1..], now, timeout),
                 if IsStale(t, now, timeout) then [] else [t]);
    }
  }

  lemma {:induction false} WithoutMiddle(a: seq<Task>, t: Task, b: seq<Task>)
    requires forall x :: x in a ==> x.id != t.id
    ensures Without(a + [t] + b, t.id) == a + b
  {
    if a == [] {
      assert a + [t] + b == [t] + b && a + b == b;
    } else {
      assert (a + [t] + b)[1..] == a[1..] + [t] + b && a + b == [a[0]] + (a[1..] + b);
      assert a[0] in a;
      WithoutMiddle(a[1..], t, b);
    }
  }

  lemma {:induction false} CurrentWithin(ts: seq<Task>, now: int, timeout: int)
    ensures forall t :: t in Current(ts, now, timeout) <==> t in ts && !IsStale(t, now, timeout)
    ensures forall t :: t in Stale(ts, now, timeout) <==> t in ts && IsStale(t, now, timeout)
  {
    if ts != [] {
      CurrentWithin(ts[1..], now, timeout);
      assert ts == [ts[0]] + ts[1..];
    }
  }

  lemma SweepOne(tasks: seq<Task>, i: nat, now: int, timeout: int)
    requires NoDup(Ids(tasks)) && i < |tasks|
    ensures Stale(tasks[..i + 1], now, timeout) ==
            Stale(tasks[..i], now, timeout) + (if IsStale(tasks[i], now, timeout) then [tasks[i]] else [])
    ensures Current(tasks[..i + 1], now, timeout) + tasks[i + 1..] ==
            if IsStale(tasks[i], now, timeout) then Without(Current(tasks[..i], now, timeout) + tasks[i..], tasks[i].id)
            else Current(tasks[..i], now, timeout) + tasks[i..]
  {
    var t, done, rest := tasks[i], Current(tasks[..i], now, timeout), tasks[i + 1..];
    assert tasks[..i + 1] == tasks[..i] + [t];
    SweepSnoc(tasks[..i], t, now, timeout);
    assert Without(done + [t] + rest, t.id) == done + rest by {
      OtherIds(tasks, i, now, timeout);
      WithoutMiddle(done, t, rest);
    }
    assert done + [t] + rest == done + tasks[i..];
  }

  /** The first `i` of the tasks have been looked at. */
  ghost predicate SweptTo(queue: seq<Task>, processing: seq<Task>, before: seq<Task>, tasks: seq<Task>, i: nat,
                          now: int, timeout: int) {
    && i <= |tasks|
    && queue == before + Stale(tasks[..i], now, timeout)
    && processing == Current(tasks[..i], now, timeout) + tasks[i..]
  }

  lemma SweptNext(queue: seq<Task>, processing: seq<Task>, before: seq<Task>, tasks: seq<Task>, i: nat,
                  now: int, timeout: int)
    requires NoDup(Ids(tasks)) && i < |tasks| && SweptTo(queue, processing, before, tasks, i, now, timeout)
    ensures if IsStale(tasks[i], now, timeout) then
              SweptTo(queue + [tasks[i]], Without(processing, tasks[i].id), before, tasks, i + 1, now, timeout)
            else SweptTo(queue, processing, before, tasks, i + 1, now, timeout)
  {
    SweepOne(tasks, i, now, timeout);
  }

  lemma OtherIds(tasks: seq<Task>, i: nat, now: int, timeout: int)
    requires NoDup(Ids(tasks)) && i < |tasks|
    ensures forall x :: x in Current(tasks[..i], now, timeout) ==> x.id != tasks[i].id
  {
    CurrentWithin(tasks[..i], now, timeout);
    forall x | x in tasks[..i]
      ensures x.id != tasks[i].id
    {
      var j :| 0 <= j < i && tasks[..i][j] == x;
      assert Ids(tasks)[j] == x.id && Ids(tasks)[i] == tasks[i].id;
    }
  }

  // ---- Runs ----

  function After(ops: seq<Op>, timeout: int): State {
    if ops == [] then State([], [], []) else Step(After(ops[..|ops| - 1], timeout), ops[|ops| - 1], timeout)
  }

  function Added(ops: seq<Op>): seq<string> {
    if ops == [] then []
    else Added(ops[..|ops| - 1]) + (if ops[|ops| - 1].Add? then [ops[|ops| - 1].id] else [])
  }

  function Stored(ops: seq<Op>): set<string> {
    set i | 0 <= i < |ops| && ops[i].StoreResult? :: ops[i].id
  }

  /** How often a run has handed out the task `id`. */
  function TimesHandedOut(ops: seq<Op>, timeout: int, id: string): nat {
    if ops == [] then 0
    else
      var n := |ops| - 1;
      var out := HandsOut(After(ops[..n], timeout), ops[n]);
      TimesHandedOut(ops[..n], timeout, id) + (if out.Some? && out.value.id == id then 1 else 0)
  }

  function IdBag(ts: seq<Task>): multiset<string> {
    if ts == [] then multiset{} else multiset{ts[0].id} + IdBag(ts[1..])
  }

  /** The ids queued and in processing. */
  function Live(s: State): multiset<string> {
    IdBag(s.queue) + IdBag(s.processing)
  }

  ghost predicate CountsRight(ts: seq<Task>, ops: seq<Op>, timeout: int) {
    forall t :: t in ts ==> t.numClaims == TimesHandedOut(ops, timeout, t.id)
  }

  /** What every reachable state keeps. */
  ghost predicate Good(ops: seq<Op>, timeout: int) {
    var s := After(ops, timeout);
    && OnceEach(Live(s))
    && (forall id :: id in Live(s) ==> id in Added(ops))
    && (forall id :: id in Added(ops) ==> id in Live(s) || id in Stored(ops))
    && CountsRight(s.queue + s.processing, ops, timeout)
    && (forall id :: id !in Added(ops) ==> TimesHandedOut(ops, timeout, id) == 0)
  }

  lemma {:induction false} IdBagAppend(a: seq<Task>, b: seq<Task>)
    ensures IdBag(a + b) == IdBag(a) + IdBag(b)
  {
    if a == [] {
      assert a + b == b;
    } else {
      assert (a + b)[1..] == a[1..] + b;
      IdBagAppend(a[1..], b);
    }
  }

  lemma {:induction false} IdBagHas(ts: seq<Task>)
    ensures forall id :: id in IdBag(ts) <==> exists t :: t in ts && t.id == id
  {
    if ts != [] {
      IdBagHas(ts[1..]);
      assert ts == [ts[0]] + ts[1..];
    }
  }

  lemma {:induction false} WithNew(ts: seq<Task>, t: Task)
    requires t.id !in IdBag(ts)
    ensures With(ts, t) == ts + [t]
  {
    if ts != [] {
      WithNew(ts[1..], t);
    }
  }

  lemma {:induction false} WithoutBag(ts: seq<Task>, id: string)
    ensures IdBag(Without(ts, id)) == if id in IdBag(ts) then IdBag(ts) - multiset{id} else IdBag(ts)
    ensures forall t :: t in Without(ts, id) ==> t in ts
  {
    if ts != [] {
      if ts[0].id == id {
        assert ts == [ts[0]] + ts[1..];
      } else {
        WithoutBag(ts[1..], id);
        assert ts == [ts[0]] + ts[1..];
      }
    }
  }

  lemma {:induction false} SweepBag(ts: seq<Task>, now: int, timeout: int)
    ensures IdBag(Stale(ts, now, timeout)) + IdBag(Current(ts, now, timeout)) == IdBag(ts)
  {
    if ts != [] {
      SweepBag(ts[1..], now, timeout);
      IdBagAppend(if IsStale(ts[0], now, timeout) then [ts[0]] else [], Stale(ts[1..], now, timeout));
      IdBagAppend(if IsStale(ts[0], now, timeout) then [] else [ts[0]], Current(ts[1..], now, timeout));
    }
  }

  ghost predicate OnceEach(m: multiset<string>) {
    forall id :: m[id] <= 1
  }

  /** The ids a step leaves queued or in processing. */
  function LiveNext(s: State, op: Op): multiset<string> {
    match op
    case Add(id, _) => Live(s) + multiset{id}
    case StoreResult(id, _) => if id in IdBag(s.processing) then Live(s) - multiset{id} else Live(s)
    case _ => Live(s)
  }

  lemma LiveAfter(s: State, op: Op, timeout: int)
    requires OnceEach(Live(s))
    ensures Live(Step(s, op, timeout)) == LiveNext(s, op)
  {
    match op
    case Add(id, input) => LiveAfterAdd(s, id, input, timeout);
    case Claim(now) => LiveAfterClaim(s, now, timeout);
    case StoreResult(id, _) => WithoutBag(s.processing, id);
    case Retrieve(_) =>
    case RetrieveAll =>
    case Sweep(now) => LiveAfterSweep(s, now, timeout);
  }

  lemma LiveAfterAdd(s: State, id: string, input: string, timeout: int)
    ensures Live(Step(s, Add(id, input), timeout)) == Live(s) + multiset{id}
  {
    IdBagAppend(s.queue, [Task(id, input, None, 0)]);
  }

  lemma LiveAfterClaim(s: State, now: int, timeout: int)
    requires OnceEach(Live(s))
    ensures Live(Step(s, Claim(now), timeout)) == Live(s)
  {
    if s.queue != [] {
      var t := Claimed(s.queue[0], now);
      FirstNotProcessing(s);
      WithNew(s.processing, t);
      IdBagAppend(s.processing, [t]);
    }
  }

  lemma LiveAfterSweep(s: State, now: int, timeout: int)
    ensures Live(Step(s, Sweep(now), timeout)) == Live(s)
  {
    SweepBag(s.processing, now, timeout);
    IdBagAppend(s.queue, Stale(s.processing, now, timeout));
  }

  /** The task at the head of the queue is not in processing, nor queued again. */
  lemma FirstNotProcessing(s: State)
    requires OnceEach(Live(s)) && s.queue != []
    ensures s.queue[0].id !in IdBag(s.processing) && s.queue[0].id !in IdBag(s.queue[1..])
  {
    var id := s.queue[0].id;
    assert Live(s)[id] == 1 + IdBag(s.queue[1..])[id] + IdBag(s.processing)[id];
  }

  /** The tasks a step leaves are tasks from before, or new and never claimed, or just claimed. */
  lemma TasksAfter(s: State, op: Op, timeout: int)
    requires OnceEach(Live(s))
    ensures var u := Step(s, op, timeout);
            forall t :: t in u.queue + u.processing ==>
              if op.Add? && t == Task(op.id, op.input, None, 0) then true
              else if op.Claim? && s.queue != [] && t == Claimed(s.queue[0], op.now) then true
              else t in s.queue + s.processing && (op.Claim? && s.queue != [] ==> t.id != s.queue[0].id)
  {
    match op
    case Add(_, _) =>
    case Claim(now) =>
      if s.queue != [] {
        FirstNotProcessing(s);
        WithNew(s.processing, Claimed(s.queue[0], now));
        IdBagHas(s.processing);
        IdBagHas(s.queue[1..]);
        assert s.queue == [s.queue[0]] + s.queue[1..];
      }
    case StoreResult(id, _) => WithoutBag(s.processing, id);
    case Retrieve(_) =>
    case RetrieveAll =>
    case Sweep(now) => CurrentWithin(s.processing, now, timeout);
  }

  lemma AddedStep(ops: seq<Op>, op: Op)
    ensures forall id :: id in Added(ops + [op]) <==> id in Added(ops) || (op.Add? && id == op.id)
    ensures forall id :: id in Stored(ops + [op]) <==> id in Stored(ops) || (op.StoreResult? && id == op.id)
  {
    var all := ops + [op];
    assert all[..|ops|] == ops && all[|ops|] == op;
    assert forall i :: 0 <= i < |ops| ==> all[i] == ops[i];
  }

  lemma RunStep(ops: seq<Op>, op: Op, timeout: int)
    ensures After(ops + [op], timeout) == Step(After(ops, timeout), op, timeout)
    ensures var out := HandsOut(After(ops, timeout), op);
            forall id :: TimesHandedOut(ops + [op], timeout, id) ==
              TimesHandedOut(ops, timeout, id) + (if out.Some? && out.value.id == id then 1 else 0)
  {
    assert (ops + [op])[..|ops|] == ops;
  }

  lemma GoodIds(ops: seq<Op>, op: Op, timeout: int)
    requires Good(ops, timeout) && (op.Add? ==> op.id !in Added(ops))
    ensures var s := After(ops + [op], timeout);
            && OnceEach(Live(s))
            && (forall id :: id in Live(s) ==> id in Added(ops + [op]))
            && (forall id :: id in Added(ops + [op]) ==> id in Live(s) || id in Stored(ops + [op]))
  {
    RunStep(ops, op, timeout);
    AddedStep(ops, op);
    LiveAfter(After(ops, timeout), op, timeout);
  }

  lemma GoodCounts(ops: seq<Op>, op: Op, timeout: int)
    requires Good(ops, timeout) && (op.Add? ==> op.id !in Added(ops))
    ensures CountsRight(After(ops + [op], timeout).queue + After(ops + [op], timeout).processing, ops + [op], timeout)
    ensures forall id :: id !in Added(ops + [op]) ==> TimesHandedOut(ops + [op], timeout, id) == 0
  {
    var s, u := After(ops, timeout), After(ops + [op], timeout);
    RunStep(ops, op, timeout);
    AddedStep(ops, op);
    TasksAfter(s, op, timeout);
    FirstAdded(ops, timeout);
    forall t | t in u.queue + u.processing
      ensures t.numClaims == TimesHandedOut(ops + [op], timeout, t.id)
    {
      if t in s.queue + s.processing {
        assert t.numClaims == TimesHandedOut(ops, timeout, t.id);
      }
    }
  }

  lemma FirstAdded(ops: seq<Op>, timeout: int)
    requires Good(ops, timeout)
    ensures var s := After(ops, timeout);
            s.queue != [] ==>
              s.queue[0].id in Added(ops) && s.queue[0].numClaims == TimesHandedOut(ops, timeout, s.queue[0].id)
  {
    var s := After(ops, timeout);
    if s.queue != [] {
      assert s.queue[0].id in IdBag(s.queue);
      assert s.queue[0] in s.queue;
    }
  }

  /** In every state a run with fresh ids can reach: no id is twice in the queue and the processing map
      together, every added task is queued, in processing or has had a result stored, and the claim
      count of each task is the number of times it was handed out. */
  lemma {:induction false} EveryRunIsGood(ops: seq<Op>, timeout: int)
    requires NoDup(Added(ops))
    ensures Good(ops, timeout)
  {
    if ops != [] {
      var n := |ops| - 1;
      var front, op := ops[..n], ops[n];
      assert ops == front + [op];
      FrontFresh(front, op);
      EveryRunIsGood(front, timeout);
      GoodIds(front, op, timeout);
      GoodCounts(front, op, timeout);
    }
  }

  lemma FrontFresh(front: seq<Op>, op: Op)
    requires NoDup(Added(front + [op]))
    ensures NoDup(Added(front)) && (op.Add? ==> op.id !in Added(front))
  {
    var ops := front + [op];
    assert ops[..|front|] == front;
    var a := Added(front);
    assert forall i :: 0 <= i < |a| ==> Added(ops)[i] == a[i];
    assert op.Add? ==> Added(ops)[|a|] == op.id;
  }

  // ---- Order ----

  function Claims(ops: seq<Op>): nat {
    if ops == [] then 0 else (if ops[0].Claim? then 1 else 0) + Claims(ops[1..])
  }

  function RunFrom(s: State, ops: seq<Op>, timeout: int): State
    decreases ops
  {
    if ops == [] then s else RunFrom(Step(s, ops[0], timeout), ops[1..], timeout)
  }

  /** Tasks leave the queue in order and by claims only: the task behind `k` others is at the head after
      `k` claims, whatever else happens meanwhile. */
  lemma {:induction false} QueueIsFair(s: State, ops: seq<Op>, timeout: int, k: nat)
    requires k < |s.queue| && Claims(ops) <= k
    ensures |RunFrom(s, ops, timeout).queue| > k - Claims(ops)
    ensures RunFrom(s, ops, timeout).queue[k - Claims(ops)] == s.queue[k]
    decreases ops
  {
    if ops != [] {
      QueueIsFair(Step(s, ops[0], timeout), ops[1..], timeout, if ops[0].Claim? then k - 1 else k);
    }
  }

  /** A sweep moves exactly the stale tasks to the end of the queue, and both they and the tasks that stay
      in processing keep their order. */
  lemma SweepMovesStale(s: State, now: int, timeout: int)
    ensures var u := Step(s, Sweep(now), timeout);
            && s.queue <= u.queue
            && Interleaves(u.queue[|s.queue|..], u.processing, s.processing)
            && (forall t :: t in u.queue[|s.queue|..] ==>
                  t.lastClaim.Some? && t.lastClaim.value != 0 && now - t.lastClaim.value > timeout)
            && (forall t :: t in u.processing ==>
                  t.lastClaim.None? || t.lastClaim.value == 0 || now - t.lastClaim.value <= timeout)
  {
    CurrentWithin(s.processing, now, timeout);
    SweepSplits(s.processing, now, timeout);
    var u := Step(s, Sweep(now), timeout);
    assert u.queue[|s.queue|..] == Stale(s.processing, now, timeout);
  }

  lemma {:induction false} SweepSplits(ts: seq<Task>, now: int, timeout: int)
    ensures Interleaves(Stale(ts, now, timeout), Current(ts, now, timeout), ts)
  {
    if ts != [] {
      SweepSplits(ts[1..], now, timeout);
      var stale, current := Stale(ts[1..], now, timeout), Current(ts[1..], now, timeout);
      assert ([ts[0]] + stale)[1..] == stale && ([ts[0]] + current)[1..] == current;
      assert [] + stale == stale && [] + current == current;
    }
  }

  /** Where in the run `id` was handed out last, or -1. */
  function LastClaim(ops: seq<Op>, timeout: int, id: string): int {
    if ops == [] then -1
    else
      var n := |ops| - 1;
      var out := HandsOut(After(ops[..n], timeout), ops[n]);
      if out.Some? && out.value.id == id then n else LastClaim(ops[..n], timeout, id)
  }

  /** Each task was last handed out before those behind it. */
  ghost predicate InClaimOrder(ts: seq<Task>, ops: seq<Op>, timeout: int) {
    ts != [] ==>
      && InClaimOrder(ts[1..], ops, timeout)
      && forall t :: t in ts[1..] ==> LastClaim(ops, timeout, ts[0].id) < LastClaim(ops, timeout, t.id)
  }

  lemma {:induction false} LastClaimWithin(ops: seq<Op>, timeout: int, id: string)
    ensures -1 <= LastClaim(ops, timeout, id) < |ops|
  {
    if ops != [] {
      LastClaimWithin(ops[..|ops| - 1], timeout, id);
    }
  }

  lemma {:induction false} OrderDropped(ts: seq<Task>, ops: seq<Op>, timeout: int, id: string)
    requires InClaimOrder(ts, ops, timeout)
    ensures InClaimOrder(Without(ts, id), ops, timeout)
  {
    if ts != [] {
      OrderDropped(ts[1..], ops, timeout, id);
      WithoutBag(ts[1..], id);
    }
  }

  lemma {:induction false} OrderSwept(ts: seq<Task>, ops: seq<Op>, timeout: int, now: int)
    requires InClaimOrder(ts, ops, timeout)
    ensures InClaimOrder(Current(ts, now, timeout), ops, timeout)
  {
    if ts != [] {
      OrderSwept(ts[1..], ops, timeout, now);
      CurrentWithin(ts[1..], now, timeout);
      var rest := Current(ts[1..], now, timeout);
      assert ([ts[0]] + rest)[1..] == rest && [] + rest == rest;
    }
  }

  lemma {:induction false} OrderKept(ts: seq<Task>, ops: seq<Op>, op: Op, timeout: int)
    requires InClaimOrder(ts, ops, timeout)
    requires forall t :: t in ts ==> LastClaim(ops + [op], timeout, t.id) == LastClaim(ops, timeout, t.id)
    ensures InClaimOrder(ts, ops + [op], timeout)
  {
    if ts != [] {
      OrderKept(ts[1..], ops, op, timeout);
      assert ts[0] in ts;
    }
  }

  lemma {:induction false} OrderSnoc(ts: seq<Task>, ops: seq<Op>, timeout: int, t: Task)
    requires InClaimOrder(ts, ops, timeout)
    requires forall x :: x in ts ==> LastClaim(ops, timeout, x.id) < LastClaim(ops, timeout, t.id)
    ensures InClaimOrder(ts + [t], ops, timeout)
  {
    if ts != [] {
      OrderSnoc(ts[1..], ops, timeout, t);
      assert (ts + [t])[1..] == ts[1..] + [t];
    }
  }

  /** In every reachable state the tasks in processing are in the order in which they were last claimed,
      so a sweep requeues the stale ones in that order. */
  lemma {:induction false} ProcessingInClaimOrder(ops: seq<Op>, timeout: int)
    requires NoDup(Added(ops))
    ensures InClaimOrder(After(ops, timeout).processing, ops, timeout)
  {
    if ops != [] {
      var n := |ops| - 1;
      var front, op := ops[..n], ops[n];
      assert ops == front + [op];
      FrontFresh(front, op);
      ProcessingInClaimOrder(front, timeout);
      EveryRunIsGood(front, timeout);
      OrderStep(front, op, timeout);
    }
  }

  lemma OrderStep(ops: seq<Op>, op: Op, timeout: int)
    requires Good(ops, timeout) && InClaimOrder(After(ops, timeout).processing, ops, timeout)
    ensures InClaimOrder(After(ops + [op], timeout).processing, ops + [op], timeout)
  {
    var s := After(ops, timeout);
    RunStep(ops, op, timeout);
    assert (ops + [op])[..|ops|] == ops;
    match op
    case Claim(now) =>
      if s.queue != [] {
        OrderClaim(ops, now, timeout);
      } else {
        OrderKept(s.processing, ops, op, timeout);
      }
    case StoreResult(id, _) =>
      OrderDropped(s.processing, ops, timeout, id);
      OrderKept(Without(s.processing, id), ops, op, timeout);
    case Sweep(now) =>
      OrderSwept(s.processing, ops, timeout, now);
      OrderKept(Current(s.processing, now, timeout), ops, op, timeout);
    case _ => OrderKept(s.processing, ops, op, timeout);
  }

  lemma OrderClaim(ops: seq<Op>, now: int, timeout: int)
    requires Good(ops, timeout) && InClaimOrder(After(ops, timeout).processing, ops, timeout)
    requires After(ops, timeout).queue != []
    ensures InClaimOrder(After(ops + [Claim(now)], timeout).processing, ops + [Claim(now)], timeout)
  {
    var s, t, all := After(ops, timeout), Claimed(After(ops, timeout).queue[0], now), ops + [Claim(now)];
    RunStep(ops, Claim(now), timeout);
    assert all[..|ops|] == ops;
    FirstNotProcessing(s);
    IdBagHas(s.processing);
    WithNew(s.processing, t);
    OrderKept(s.processing, ops, Claim(now), timeout);
    forall x | x in s.processing
      ensures LastClaim(all, timeout, x.id) < |ops|
    {
      LastClaimWithin(ops, timeout, x.id);
    }
    OrderSnoc(s.processing, all, timeout, t);
  }

  // ---- What tasks carry ----

  /** The task was added with this input, and has the time of the claim that last handed it out. */
  ghost predicate Carries(t: Task, ops: seq<Op>, timeout: int) {
    && Add(t.id, t.input) in ops
    && var last := LastClaim(ops, timeout, t.id);
       if last < 0 then t.lastClaim == None
       else last < |ops| && ops[last].Claim? && t.lastClaim == Some(ops[last].now)
  }

  /** In every reachable state each task has the input it was added with and the time of its last claim. */
  lemma {:induction false} TasksCarry(ops: seq<Op>, timeout: int)
    requires NoDup(Added(ops))
    ensures var s := After(ops, timeout);
            forall t :: t in s.queue + s.processing ==> Carries(t, ops, timeout)
  {
    if ops != [] {
      var n := |ops| - 1;
      var front, op := ops[..n], ops[n];
      assert ops == front + [op];
      FrontFresh(front, op);
      TasksCarry(front, timeout);
      EveryRunIsGood(front, timeout);
      TasksAfter(After(front, timeout), op, timeout);
      RunStep(front, op, timeout);
      var s, u := After(front, timeout), After(ops, timeout);
      forall t | t in u.queue + u.processing
        ensures Carries(t, ops, timeout)
      {
        CarriesOn(front, op, timeout, t);
      }
    }
  }

  lemma CarriesOn(ops: seq<Op>, op: Op, timeout: int, t: Task)
    requires Good(ops, timeout) && (op.Add? ==> op.id !in Added(ops))
    requires var s := After(ops, timeout);
             && (forall x :: x in s.queue + s.processing ==> Carries(x, ops, timeout))
             && if op.Add? && t == Task(op.id, op.input, None, 0) then true
                else if op.Claim? && s.queue != [] && t == Claimed(s.queue[0], op.now) then true
                else t in s.queue + s.processing && (op.Claim? && s.queue != [] ==> t.id != s.queue[0].id)
    ensures Carries(t, ops + [op], timeout)
  {
    var s, all := After(ops, timeout), ops + [op];
    assert all[..|ops|] == ops && all[|ops|] == op;
    assert forall i :: 0 <= i < |ops| ==> all[i] == ops[i];
    LastClaimWithin(ops, timeout, t.id);
    if op.Add? && t == Task(op.id, op.input, None, 0) {
      NeverClaimed(ops, timeout, t.id);
      assert op in all;
    } else if op.Claim? && s.queue != [] && t == Claimed(s.queue[0], op.now) {
      assert s.queue[0] in s.queue + s.processing;
      assert Add(t.id, t.input) in ops;
    }
  }

  lemma {:induction false} NeverClaimed(ops: seq<Op>, timeout: int, id: string)
    requires TimesHandedOut(ops, timeout, id) == 0
    ensures LastClaim(ops, timeout, id) == -1
  {
    if ops != [] {
      NeverClaimed(ops[..|ops| - 1], timeout, id);
    }
  }

  // ---- Results ----

  /** A task whose result comes in stays live exactly when it is waiting in the queue again. */
  lemma StoredStaysLiveIff(ops: seq<Op>, timeout: int, id: string, result: string)
    requires NoDup(Added(ops))
    ensures id in Live(After(ops + [StoreResult(id, result)], timeout)) <==>
            exists t :: t in After(ops, timeout).queue && t.id == id
  {
    var s := After(ops, timeout);
    EveryRunIsGood(ops, timeout);
    RunStep(ops, StoreResult(id, result), timeout);
    WithoutBag(s.processing, id);
    IdBagHas(s.queue);
    assert Live(s)[id] <= 1;
  }

  /** An added task that is no longer live is done with: it never comes back and is never handed out again. */
  lemma {:induction false} DoneForGood(ops: seq<Op>, more: seq<Op>, timeout: int, id: string)
    requires NoDup(Added(ops + more)) && id in Added(ops) && id !in Live(After(ops, timeout))
    ensures id in Added(ops + more) && id !in Live(After(ops + more, timeout))
    ensures TimesHandedOut(ops + more, timeout, id) == TimesHandedOut(ops, timeout, id)
    decreases |more|
  {
    if more == [] {
      assert ops + more == ops;
    } else {
      var front, op := more[..|more| - 1], more[|more| - 1];
      var before := ops + front;
      assert ops + more == before + [op];
      FrontFresh(before, op);
      DoneForGood(ops, front, timeout, id);
      EveryRunIsGood(before, timeout);
      StaysDone(before, op, timeout, id);
    }
  }

  lemma StaysDone(ops: seq<Op>, op: Op, timeout: int, id: string)
    requires Good(ops, timeout) && (op.Add? ==> op.id !in Added(ops))
    requires id in Added(ops) && id !in Live(After(ops, timeout))
    ensures id in Added(ops + [op]) && id !in Live(After(ops + [op], timeout))
    ensures TimesHandedOut(ops + [op], timeout, id) == TimesHandedOut(ops, timeout, id)
  {
    var s := After(ops, timeout);
    AddedStep(ops, op);
    RunStep(ops, op, timeout);
    LiveAfter(s, op, timeout);
    assert s.queue != [] ==> s.queue[0].id in IdBag(s.queue);
  }

  function IdsStored(d: Dictionary<string>): seq<string> {
    seq(|d|, i requires 0 <= i < |d| => d[i].0)
  }

  lemma {:induction false} PutPlace(d: Dictionary<string>, id: string, v: string)
    ensures IdsStored(Put(d, id, v)) == if id in IdsStored(d) then IdsStored(d) else IdsStored(d) + [id]
  {
    if d != [] {
      PutPlace(d[1..], id, v);
      assert IdsStored(d) == [d[0].0] + IdsStored(d[1..]);
      assert IdsStored(Put(d, id, v)) ==
             if d[0].0 == id then IdsStored(d) else [d[0].0] + IdsStored(Put(d[1..], id, v));
    }
  }

  lemma {:induction false} DropPlace(d: Dictionary<string>, id: string)
    ensures Sublist(IdsStored(Drop(d, id)), IdsStored(d))
  {
    if d == [] {
      SublistSelf(IdsStored(d));
    } else {
      assert IdsStored(d) == [d[0].0] + IdsStored(d[1..]);
      if d[0].0 == id {
        SublistSelf(IdsStored(d[1..]));
        SublistCons(d[0].0, IdsStored(d[1..]), IdsStored(d[1..]));
      } else {
        DropPlace(d[1..], id);
        SublistCons(d[0].0, IdsStored(Drop(d[1..], id)), IdsStored(d[1..]));
        assert IdsStored(Drop(d, id)) == [d[0].0] + IdsStored(Drop(d[1..], id));
      }
    }
  }

  /** Results wait in the order in which their ids came: a new one is last, one stored again keeps its place,
      and taking one out leaves the others in order. */
  lemma ResultsInOrder(s: State, op: Op, timeout: int)
    ensures var u := Step(s, op, timeout);
            if op.StoreResult? then
              IdsStored(u.completed) == if op.id in IdsStored(s.completed) then IdsStored(s.completed)
                                     else IdsStored(s.completed) + [op.id]
            else Sublist(IdsStored(u.completed), IdsStored(s.completed))
  {
    SublistSelf(IdsStored(s.completed));
    SublistNone(IdsStored(s.completed));
    match op
    case StoreResult(id, result) => PutPlace(s.completed, id, result);
    case Retrieve(id) => DropPlace(s.completed, id);
    case RetrieveAll => assert IdsStored([]) == [];
    case _ =>
  }

  /** The result last stored for `id` and not retrieved since. */
  function Unretrieved(ops: seq<Op>, id: string): Option<string> {
    if ops == [] then None
    else
      match ops[|ops| - 1]
      case StoreResult(x, result) => if x == id then Some(result) else Unretrieved(ops[..|ops| - 1], id)
      case Retrieve(x) => if x == id then None else Unretrieved(ops[..|ops| - 1], id)
      case RetrieveAll => None
      case _ => Unretrieved(ops[..|ops| - 1], id)
  }

  /** No result is lost or returned twice: the store holds, once per id, the result stored last unless it
      has been retrieved since. */
  lemma {:induction false} ResultsKept(ops: seq<Op>, timeout: int)
    ensures UniqueKeys(After(ops, timeout).completed)
    ensures forall id :: Get(After(ops, timeout).completed, id) == Unretrieved(ops, id)
  {
    if ops != [] {
      var s := After(ops[..|ops| - 1], timeout);
      ResultsKept(ops[..|ops| - 1], timeout);
      match ops[|ops| - 1]
      case StoreResult(id, result) => PutGet(s.completed, id, result);
      case Retrieve(id) => DropGet(s.completed, id);
      case _ =>
    }
  }

  // ---- Running the store ----

  lemma {:induction false} OnceEachNoDup(ts: seq<Task>)
    requires OnceEach(IdBag(ts))
    ensures NoDup(Ids(ts))
  {
    if ts != [] {
      var rest := ts[1..];
      forall id
        ensures IdBag(rest)[id] <= 1
      {
        assert IdBag(ts)[id] <= 1;
      }
      OnceEachNoDup(rest);
      FirstIdOnce(ts);
      assert Ids(ts) == [ts[0].id] + Ids(rest);
    }
  }

  lemma FirstIdOnce(ts: seq<Task>)
    requires ts != [] && OnceEach(IdBag(ts))
    ensures ts[0].id !in Ids(ts[1..])
  {
    var rest := ts[1..];
    IdBagHas(rest);
    assert IdBag(ts)[ts[0].id] <= 1;
    forall i | 0 <= i < |rest|
      ensures Ids(rest)[i] != ts[0].id
    {
      assert rest[i] in rest;
    }
  }

  lemma {:induction false} AddedFront(ops: seq<Op>, n: nat)
    requires n <= |ops| && NoDup(Added(ops))
    ensures NoDup(Added(ops[..n]))
    decreases |ops| - n
  {
    if n < |ops| {
      AddedFront(ops, n + 1);
      assert ops[..n + 1] == ops[..n] + [ops[n]];
      FrontFresh(ops[..n], ops[n]);
    } else {
      assert ops[..n] == ops;
    }
  }

  /** A run never processes the same task twice at once. */
  lemma ProcessingDistinct(ops: seq<Op>, timeout: int)
    requires NoDup(Added(ops))
    ensures NoDup(Ids(After(ops, timeout).processing))
  {
    EveryRunIsGood(ops, timeout);
    var s := After(ops, timeout);
    forall id
      ensures IdBag(s.processing)[id] <= 1
    {
      assert Live(s)[id] <= 1;
    }
    OnceEachNoDup(s.processing);
  }

  /** The store, driven through a run, is in the state the theorems speak of. */
  method Replay(ops: seq<Op>, timeout: int) returns (store: ServerDataStore)
    requires NoDup(Added(ops))
    ensures store.Now() == After(ops, timeout)
  {
    store := new ServerDataStore();
    for i := 0 to |ops|
      invariant fresh(store) && store.Now() == After(ops[..i], timeout)
    {
      AddedFront(ops, i);
      ProcessingDistinct(ops[..i], timeout);
      assert ops[..i + 1][..i] == ops[..i];
      match ops[i] {
        case Add(id, input) => store.AddTask(id, input);
        case Claim(now) => var task := store.GetNextTask(now);
        case StoreResult(id, result) => store.StoreRollout(id, result);
        case Retrieve(id) => var result := store.RetrieveRollout(id);
        case RetrieveAll => var results := store.RetrieveCompletedRollouts();
        case Sweep(now) => store.CheckAndRequeueStaleTasks(now, timeout);
      }
    }
    assert ops[..|ops|] == ops;
  }
}
