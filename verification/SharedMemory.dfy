/** The shared-memory strategy's stop protocol: background threads, a stop event that is never cleared,
    and a queue of exceptions, as interleaved atomic steps. */
module SharedMemory {
  import opened Basics

  /** A background thread. A crash first queues its exception and then sets the stop event. */
  datatype Thread = Running | Crashed(exc: int) | Queued(exc: int) | Signalled(exc: int) | Finished

  datatype Mode = AlgorithmOnMain | RunnerOnMain

  /** Where the main thread is inside `execute`. */
  datatype Pc = Bundle | SetStop | JoinAlgorithm | FirstCheck | Cleanup | LastCheck | Returned

  /** How the bundle on the main thread ended. */
  datatype MainEnd = Unfinished | Normal | Interrupted | Failed(exc: int)

  /** What `execute` does in the end. */
  datatype Outcome = Pending | Completes | Raises(exc: int) | RaisesInterrupt

  datatype State = State(
    mode: Mode,
    threads: seq<Thread>,
    stop: bool,
    queue: seq<int>,
    pc: Pc,
    mainEnd: MainEnd,
    fromThread: Option<int>,
    outcome: Outcome)

  /** The atomic steps. A thread step carries its index; steps that are not enabled change nothing. */
  datatype Event =
    | ThreadEnds(i: nat)
    | ThreadCrashes(i: nat, exc: int)
    | ThreadQueues(i: nat)
    | ThreadSignals(i: nat)
    | MainBundleEnds(how: MainEnd)
    | KeyboardInterrupt
    | MainStep

  function Start(mode: Mode, n: nat): State {
    State(mode, seq(n, i => Running), false, [], Bundle, Unfinished, None, Pending)
  }

  predicate Done(t: Thread) {
    t.Finished? || t.Signalled?
  }

  /** One look at the queue: an exception is taken out if none has been taken yet. */
  function Check(s: State): State {
    if s.fromThread.None? && s.queue != [] then s.(queue := s.queue[1..], fromThread := Some(s.queue[0])) else s
  }

  /** What `execute` does after the clean-up. An exception of the main bundle passes through it; an
      interrupt has been handled. */
  function Conclude(s: State): Outcome {
    if s.mainEnd.Failed? then Raises(s.mainEnd.exc)
    else if s.fromThread.Some? then Raises(s.fromThread.value)
    else Completes
  }

  function StepMain(s: State): State {
    match s.pc
    case Bundle => s
    case SetStop => s.(stop := true, pc := FirstCheck)
    case JoinAlgorithm =>
      // the join has no timeout: it ends only when the algorithm thread has
      if forall i :: 0 <= i < |s.threads| ==> Done(s.threads[i]) then s.(pc := FirstCheck) else s
    case FirstCheck => Check(s).(pc := Cleanup)
    case Cleanup => s.(pc := LastCheck)
    case LastCheck => var t := Check(s); t.(pc := Returned, outcome := Conclude(t))
    case Returned => s
  }

  function Next(s: State, e: Event): State {
    match e
    case ThreadEnds(i) =>
      if i < |s.threads| && s.threads[i] == Running then s.(threads := s.threads[i := Finished]) else s
    case ThreadCrashes(i, exc) =>
      if i < |s.threads| && s.threads[i] == Running then s.(threads := s.threads[i := Crashed(exc)]) else s
    case ThreadQueues(i) =>
      if i < |s.threads| && s.threads[i].Crashed? then
        s.(queue := s.queue + [s.threads[i].exc], threads := s.threads[i := Queued(s.threads[i].exc)])
      else s
    case ThreadSignals(i) =>
      if i < |s.threads| && s.threads[i].Queued? then
        s.(stop := true, threads := s.threads[i := Signalled(s.threads[i].exc)])
      else s
    case MainBundleEnds(how) =>
      if s.pc != Bundle || how.Unfinished? then s
      else if how.Normal? then s.(mainEnd := how, pc := if s.mode == AlgorithmOnMain then SetStop else JoinAlgorithm)
      else s.(mainEnd := how, stop := true, pc := Cleanup)
    case KeyboardInterrupt =>
      // handled between the bundle and the clean-up, not during the clean-up and its joins; during the
      // bundle it is one way for the bundle to end
      if s.pc.SetStop? || s.pc.JoinAlgorithm? || s.pc.FirstCheck? then
        s.(mainEnd := Interrupted, stop := true, pc := Cleanup)
      else if s.pc.Cleanup? || s.pc.LastCheck? then s.(pc := Returned, outcome := RaisesInterrupt)
      else s
    case MainStep => StepMain(s)
  }

  /** The states of a run: any events in any order. */
  function Run(mode: Mode, n: nat, events: seq<Event>): State {
    if events == [] then Start(mode, n)
    else Next(Run(mode, n, events[..|events| - 1]), events[|events| - 1])
  }

  /** The thread has queued its exception. */
  predicate HasQueued(t: Thread) {
    t.Queued? || t.Signalled?
  }

  ghost predicate SomeQueued(s: State) {
    exists i :: 0 <= i < |s.threads| && HasQueued(s.threads[i])
  }

  /** Some background thread has queued this exception. */
  ghost predicate QueuedBy(threads: seq<Thread>, exc: int) {
    exists i :: 0 <= i < |threads| && HasQueued(threads[i]) && threads[i].exc == exc
  }

  /** The exceptions that background threads have queued, in the order in which they did. */
  function Logged(mode: Mode, n: nat, events: seq<Event>): seq<int> {
    if events == [] then []
    else
      var front, e := events[..|events| - 1], events[|events| - 1];
      var threads := Run(mode, n, front).threads;
      Logged(mode, n, front)
      + if e.ThreadQueues? && e.i < |threads| && threads[e.i].Crashed? then [threads[e.i].exc] else []
  }

  /** What has been queued is what has been taken out, at most the first, and what is still in the queue. */
  ghost predicate QueueKept(s: State, log: seq<int>) {
    log == (if s.fromThread.Some? then [s.fromThread.value] else []) + s.queue
  }

  lemma {:induction false} RunLogs(mode: Mode, n: nat, events: seq<Event>)
    ensures QueueKept(Run(mode, n, events), Logged(mode, n, events))
  {
    if events != [] {
      var front, e := events[..|events| - 1], events[|events| - 1];
      RunLogs(mode, n, front);
      StepLogs(Run(mode, n, front), e, Logged(mode, n, front));
    }
  }

  lemma StepLogs(s: State, e: Event, log: seq<int>)
    requires QueueKept(s, log)
    ensures QueueKept(Next(s, e), log + if e.ThreadQueues? && e.i < |s.threads| && s.threads[e.i].Crashed?
                                        then [s.threads[e.i].exc] else [])
  {
    NothingBefore(log);
    var taken := if s.fromThread.Some? then [s.fromThread.value] else [];
    match e
    case ThreadQueues(i) =>
      if i < |s.threads| && s.threads[i].Crashed? {
        Associates(taken, s.queue, [s.threads[i].exc]);
      }
    case MainStep =>
      if s.queue != [] {
        assert s.queue == [s.queue[0]] + s.queue[1..];
      }
    case _ =>
  }

  /** The runner on the main thread has ended normally and waits for the algorithm, or has waited. */
  predicate Waited(s: State) {
    s.mode == RunnerOnMain && s.mainEnd == Normal
  }

  /** Past the bundle and what directly follows it. */
  predicate Leaving(s: State) {
    s.pc.FirstCheck? || s.pc.Cleanup? || s.pc.LastCheck? || s.pc.Returned?
  }

  ghost predicate AllDone(s: State) {
    forall i :: 0 <= i < |s.threads| ==> Done(s.threads[i])
  }

  /** Once on its way out, `execute` has told the threads to stop, or has seen them all end. */
  ghost predicate StopKept(s: State) {
    && (s.mode == RunnerOnMain ==> s.pc != SetStop)
    && (s.pc == JoinAlgorithm ==> Waited(s))
    && (Leaving(s) ==> if Waited(s) then AllDone(s) else s.stop)
    && (forall i :: 0 <= i < |s.threads| && s.threads[i].Signalled? ==> s.stop)
  }

  /** An exception has been queued exactly when the queue holds one or one has been taken; and the outcome
      is what the last check made it, unless the clean-up was interrupted. */
  ghost predicate Invariant(s: State) {
    && (SomeQueued(s) <==> s.queue != [] || s.fromThread.Some?)
    && (s.pc == Returned <==> s.outcome != Pending)
    && (s.pc == Returned ==> s.outcome == Conclude(s) || s.outcome == RaisesInterrupt)
    && (s.pc != Bundle <==> s.mainEnd != Unfinished)
    && (forall k :: 0 <= k < |s.queue| ==> QueuedBy(s.threads, s.queue[k]))
    && (s.fromThread.Some? ==> QueuedBy(s.threads, s.fromThread.value))
  }

  lemma NextKeeps(s: State, e: Event)
    requires Invariant(s)
    ensures Invariant(Next(s, e))
  {
    match e
    case ThreadEnds(i) => ThreadMoves(s, i, Finished);
    case ThreadCrashes(i, exc) => ThreadMoves(s, i, Crashed(exc));
    case ThreadQueues(i) =>
      if i < |s.threads| && s.threads[i].Crashed? { ThreadMoves(s, i, Queued(s.threads[i].exc)); }
    case ThreadSignals(i) =>
      if i < |s.threads| && s.threads[i].Queued? { ThreadMoves(s, i, Signalled(s.threads[i].exc)); }
    case _ =>
  }

  /** When one thread moves on, no queued exception loses its thread, and only queueing adds one. */
  lemma ThreadMoves(s: State, i: nat, t: Thread)
    ensures i < |s.threads| && (HasQueued(s.threads[i]) ==> HasQueued(t) && t.exc == s.threads[i].exc) ==>
              var u := s.(threads := s.threads[i := t]);
              && (SomeQueued(u) <==> SomeQueued(s) || HasQueued(t))
              && (forall exc :: QueuedBy(s.threads, exc) ==> QueuedBy(u.threads, exc))
              && (HasQueued(t) ==> QueuedBy(u.threads, t.exc))
  {
    if i < |s.threads| && (HasQueued(s.threads[i]) ==> HasQueued(t) && t.exc == s.threads[i].exc) {
      var after := s.threads[i := t];
      assert after[i] == t;
      assert forall j :: 0 <= j < |after| && j != i ==> after[j] == s.threads[j];
      forall exc | QueuedBy(s.threads, exc)
        ensures QueuedBy(after, exc)
      {
        var j :| 0 <= j < |s.threads| && HasQueued(s.threads[j]) && s.threads[j].exc == exc;
        assert HasQueued(after[j]) && after[j].exc == exc;
      }
      assert forall j :: 0 <= j < |after| && HasQueued(s.threads[j]) ==> HasQueued(after[j]);
    }
  }

  lemma StopKeeps(s: State, e: Event)
    requires StopKept(s)
    ensures StopKept(Next(s, e))
  {
    var u := Next(s, e);
    assert forall i :: 0 <= i < |s.threads| && Done(s.threads[i]) ==> i < |u.threads| && u.threads[i] == s.threads[i];
    assert Leaving(u) && !Leaving(s) && Waited(u) ==> s.pc == JoinAlgorithm && e == MainStep;
  }

  lemma {:induction false} RunKeeps(mode: Mode, n: nat, events: seq<Event>)
    ensures Invariant(Run(mode, n, events)) && StopKept(Run(mode, n, events)) && Run(mode, n, events).mode == mode
  {
    if events != [] {
      RunKeeps(mode, n, events[..|events| - 1]);
      NextKeeps(Run(mode, n, events[..|events| - 1]), events[|events| - 1]);
      StopKeeps(Run(mode, n, events[..|events| - 1]), events[|events| - 1]);
    }
  }

  /** In every interleaving: an interrupt of the clean-up comes out of `execute` as it is. Otherwise
      `execute` raises the exception of its own bundle if that failed, or else the first exception that any
      background crash had queued by the last look at the queue, and completes if there is neither. */
  lemma ExecuteRaisesIff(mode: Mode, n: nat, events: seq<Event>, e: Event)
    requires Run(mode, n, events).pc != Returned && Next(Run(mode, n, events), e).pc == Returned
    ensures var s, log := Run(mode, n, events), Logged(mode, n, events);
            Next(s, e).outcome ==
            if e == KeyboardInterrupt then RaisesInterrupt
            else if s.mainEnd.Failed? then Raises(s.mainEnd.exc)
            else if log != [] then Raises(log[0])
            else Completes
    ensures var s := Run(mode, n, events);
            e != KeyboardInterrupt ==>
              && (Next(s, e).outcome.Raises? <==> s.mainEnd.Failed? || SomeQueued(s))
              && (Next(s, e).outcome.Raises? && !s.mainEnd.Failed? ==> QueuedBy(s.threads, Next(s, e).outcome.exc))
  {
    RunKeeps(mode, n, events);
    RunLogs(mode, n, events);
  }

  /** So a background crash that has set the stop event by then is never lost. */
  lemma SignalledCrashRaises(mode: Mode, n: nat, events: seq<Event>, i: nat)
    requires Run(mode, n, events).pc == LastCheck && i < |Run(mode, n, events).threads|
    requires Run(mode, n, events).threads[i].Signalled?
    ensures Next(Run(mode, n, events), MainStep).outcome.Raises?
  {
    assert HasQueued(Run(mode, n, events).threads[i]);
    ExecuteRaisesIff(mode, n, events, MainStep);
  }

  /** With the runner on the main thread ending normally, `execute` raises exactly when a background thread
      did not finish cleanly: the wait for it has no timeout, so nothing comes too late. */
  lemma RunnerRaisesIff(mode: Mode, n: nat, events: seq<Event>)
    requires Run(mode, n, events).pc == LastCheck && Waited(Run(mode, n, events))
    ensures var s := Run(mode, n, events);
            Next(s, MainStep).outcome.Raises? <==> exists i :: 0 <= i < |s.threads| && s.threads[i] != Finished
  {
    RunKeeps(mode, n, events);
    ExecuteRaisesIff(mode, n, events, MainStep);
    var s := Run(mode, n, events);
    assert forall i :: 0 <= i < |s.threads| ==> (HasQueued(s.threads[i]) <==> s.threads[i] != Finished);
  }

  /** Whoever is still running when the clean-up joins the threads has been told to stop. */
  lemma LeftoversAreTold(mode: Mode, n: nat, events: seq<Event>, i: nat)
    requires Leaving(Run(mode, n, events)) && i < |Run(mode, n, events).threads|
    requires !Done(Run(mode, n, events).threads[i])
    ensures Run(mode, n, events).stop
  {
    RunKeeps(mode, n, events);
  }

  lemma {:induction false} OutcomeIsFinal(s: State, events: seq<Event>)
    requires Invariant(s) && s.pc == Returned
    ensures FoldNext(s, events).outcome == s.outcome
    decreases events
  {
    if events != [] {
      NextKeeps(s, events[0]);
      OutcomeIsFinal(Next(s, events[0]), events[1..]);
    }
  }

  function FoldNext(s: State, events: seq<Event>): State
    decreases events
  {
    if events == [] then s else FoldNext(Next(s, events[0]), events[1..])
  }
}
