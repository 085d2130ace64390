/** The client/server strategy's escalating shutdown of its child processes. */
module ClientServer {
  import opened Basics

  datatype Signal = Interrupt | Terminate | Kill

  /** A round of signals: which one, to which processes, which processes were alive just before, and when. */
  datatype Round = Round(signal: Signal, targets: seq<int>, alive: set<int>, at: real)

  /** What the machine does during a shutdown, which the strategy does not control. Step `k` of the
      shutdown sees `exits(k)` exit; a join that ends by an exit takes `takes(k)`, as far as it may; the
      code around step `k` takes `lag(k)`; the signal sent at step `k` may fail. */
  datatype Environment = Environment(takes: nat -> real, lag: nat -> real, exits: nat -> set<int>, fails: nat -> bool)

  function Clip(d: real, limit: real): real {
    if d < 0.0 then 0.0 else if d > limit then limit else d
  }

  /** How long a wait with this timeout can last; a negative one does not wait. */
  function AtMost(timeout: real): real {
    if timeout < 0.0 then 0.0 else timeout
  }

  /** Each round keeps its distance: the first comes no sooner than the graceful timeout after `start`, each
      later one no sooner than the terminate timeout after the one before it. */
  ghost predicate Paced(rounds: seq<Round>, start: real, gracefulTimeout: real, terminateTimeout: real) {
    forall k :: 0 <= k < |rounds| ==>
      rounds[k].at >= if k == 0 then start + gracefulTimeout else rounds[k - 1].at + terminateTimeout
  }

  /** The processes, the clock and the stop event. A process that has exited never comes back. */
  class World {
    const env: Environment
    var step: nat
    var alive: set<int>
    var clock: real
    /** When the stop event was set, if it has been. */
    var stop: Option<real>
    /** Time spent inside `join`. */
    var waited: real
    /** Every signal sent, whether or not sending it failed. */
    var sent: seq<(int, Signal)>
    var rounds: seq<Round>

    constructor (env: Environment, alive: set<int>)
      ensures this.env == env && this.alive == alive && stop.None? && waited == 0.0 && sent == [] && rounds == []
    {
      this.env, step, this.alive, clock, stop, waited := env, 0, alive, 0.0, None, 0.0;
      sent, rounds := [], [];
    }

    /** `time.monotonic()`: some time may have passed. */
    method Monotonic() returns (now: real)
      modifies this`step, this`clock
      ensures now == clock >= old(clock)
    {
      clock := clock + if env.lag(step) < 0.0 then 0.0 else env.lag(step);
      step := step + 1;
      now := clock;
    }

    /** `process.join(timeout)`: returns when the process has exited, or after the timeout. */
    method Join(process: int, timeout: real)
      requires timeout >= 0.0
      modifies this`step, this`alive, this`clock, this`waited
      ensures alive <= old(alive)
      ensures old(clock) <= clock <= old(clock) + timeout && waited - old(waited) == clock - old(clock)
      ensures process in alive ==> clock == old(clock) + timeout
    {
      alive := alive - env.exits(step);
      var takes := if process in alive then timeout else Clip(env.takes(step), timeout);
      clock := clock + takes;
      waited := waited + takes;
      step := step + 1;
    }

    /** `_join_until_deadline`: the processes still alive when their turn came. */
    method JoinUntilDeadline(processes: seq<int>, timeout: real) returns (stillAlive: seq<int>)
      modifies this`step, this`alive, this`clock, this`waited
      ensures Sublist(stillAlive, processes) && alive <= old(alive)
      ensures forall p :: p in stillAlive ==> p in old(alive)
      ensures forall p :: p in processes && p in alive ==> p in stillAlive
      ensures waited <= old(waited) + AtMost(timeout)
      ensures clock >= old(clock) && (stillAlive != [] ==> clock >= old(clock) + timeout)
    {
      var now := Monotonic();
      var deadline := now + timeout;
      stillAlive := [];
      SublistNone(processes[..0]);
      for i := 0 to |processes|
        invariant Sublist(stillAlive, processes[..i]) && alive <= old(alive) && clock >= now
        invariant forall p :: p in stillAlive ==> p in old(alive)
        invariant forall p :: p in processes[..i] && p in alive ==> p in stillAlive
        invariant waited - old(waited) <= clock - now && waited - old(waited) <= AtMost(timeout)
        invariant stillAlive != [] ==> clock >= deadline
      {
        var current := Monotonic();
        var remaining := deadline - current;
        if remaining > 0.0 {
          Join(processes[i], remaining);
        } else {
          Join(processes[i], 0.0);
        }
        assert processes[..i + 1] == processes[..i] + [processes[i]];
        SublistSnoc(stillAlive, processes[..i], processes[i]);
        if processes[i] in alive {
          stillAlive := stillAlive + [processes[i]];
        }
      }
      assert processes[..|processes|] == processes;
    }

    /** One signal; an exception is reported to the caller. */
    method Send(process: int, signal: Signal) returns (ok: bool)
      modifies this`step, this`sent
      ensures sent == old(sent) + [(process, signal)]
    {
      ok := !env.fails(step);
      sent := sent + [(process, signal)];
      step := step + 1;
    }

    /** `_signal_processes`: every process is sent the signal in turn, whatever failed before it. */
    method SignalProcesses(processes: seq<int>, signal: Signal)
      modifies this`step, this`sent, this`rounds
      ensures sent == old(sent) + ToAll(processes, signal)
      ensures rounds == old(rounds) + [Round(signal, processes, alive, clock)]
    {
      for i := 0 to |processes|
        invariant sent == old(sent) + ToAll(processes[..i], signal) && rounds == old(rounds)
      {
        ToAllSnoc(processes, i, signal);
        var ok := Send(processes[i], signal);
        if !ok {
          continue;
        }
      }
      assert processes[..|processes|] == processes;
      rounds := rounds + [Round(signal, processes, alive, clock)];
    }

    /** `_shutdown_processes`. */
    method ShutdownProcesses(processes: seq<int>, gracefulTimeout: real, terminateTimeout: real)
      returns (left: seq<int>)
      requires rounds == [] && sent == []
      modifies this
      ensures left != [] ==> |rounds| == 3
      ensures processes != [] ==> stop == if old(stop).Some? then old(stop) else Some(old(clock))
      ensures Paced(rounds, old(clock), gracefulTimeout, terminateTimeout)
      ensures left != [] ==> clock >= rounds[2].at + terminateTimeout
      ensures Escalates(rounds, processes, old(alive)) && sent == AllSent(rounds)
      ensures Sublist(left, processes) && alive <= old(alive)
      ensures forall p :: p in processes && p in alive ==> p in left
      ensures waited <= old(waited) + AtMost(gracefulTimeout) + 3.0 * AtMost(terminateTimeout)
    {
      SublistNone(processes);
      if processes == [] {
        return [];
      }
      if stop.None? {
        stop := Some(clock);
      }
      left := JoinUntilDeadline(processes, gracefulTimeout);
      if left == [] {
        return;
      }
      assert Stage(left, alive, rounds, sent, processes, old(alive));
      left := Escalate(Interrupt, left, processes, old(alive), terminateTimeout);
      if left == [] {
        return;
      }
      left := Escalate(Terminate, left, processes, old(alive), terminateTimeout);
      if left == [] {
        return;
      }
      left := Escalate(Kill, left, processes, old(alive), terminateTimeout);
    }

    /** One signal to all that are left, and one wait for them. */
    method Escalate(signal: Signal, targets: seq<int>, processes: seq<int>, ghost start: set<int>, timeout: real)
      returns (left: seq<int>)
      requires targets != [] && |rounds| < 3 && signal == ORDER[|rounds|]
      requires Stage(targets, alive, rounds, sent, processes, start)
      modifies this
      ensures |rounds| == |old(rounds)| + 1 && stop == old(stop) && alive <= old(alive)
      ensures Stage(left, alive, rounds, sent, processes, start)
      ensures waited <= old(waited) + AtMost(timeout)
      ensures rounds[..|old(rounds)|] == old(rounds) && rounds[|old(rounds)|].at == old(clock)
      ensures left != [] ==> clock >= old(clock) + timeout
    {
      SignalProcesses(targets, signal);
      ghost var r := Round(signal, targets, alive, clock);
      left := JoinUntilDeadline(targets, timeout);
      assert waited <= old(waited) + AtMost(timeout);
      StageNext(old(rounds), old(sent), r, left, alive, processes, start);
    }
  }

  /** Between two rounds: the rounds so far, what they sent, and who is left. */
  ghost predicate Stage(left: seq<int>, alive: set<int>, rounds: seq<Round>, sent: seq<(int, Signal)>,
                        processes: seq<int>, start: set<int>) {
    && Escalates(rounds, processes, start) && sent == AllSent(rounds)
    && Narrows(left, alive, rounds, processes, start) && Sublist(left, processes)
    && forall p :: p in processes && p in alive ==> p in left
  }

  lemma StageNext(rounds: seq<Round>, sent: seq<(int, Signal)>, r: Round, left: seq<int>, alive: set<int>,
                  processes: seq<int>, start: set<int>)
    requires r.targets != [] && |rounds| < 3 && r.signal == ORDER[|rounds|]
    requires Stage(r.targets, r.alive, rounds, sent, processes, start)
    requires Sublist(left, r.targets) && alive <= r.alive && forall p :: p in left ==> p in r.alive
    requires forall p :: p in r.targets && p in alive ==> p in left
    ensures Stage(left, alive, rounds + [r], sent + ToAll(r.targets, r.signal), processes, start)
  {
    EscalatesSnoc(rounds, r, processes, start);
    SublistTrans(left, r.targets, processes);
  }

  const ORDER: seq<Signal> := [Interrupt, Terminate, Kill]

  function ToAll(processes: seq<int>, signal: Signal): seq<(int, Signal)> {
    seq(|processes|, i requires 0 <= i < |processes| => (processes[i], signal))
  }

  lemma ToAllSnoc(processes: seq<int>, i: nat, signal: Signal)
    requires i < |processes|
    ensures ToAll(processes[..i + 1], signal) == ToAll(processes[..i], signal) + [(processes[i], signal)]
  {
  }

  /** The signals of all rounds, in order. */
  function AllSent(rounds: seq<Round>): seq<(int, Signal)> {
    if rounds == [] then []
    else
      var last := rounds[|rounds| - 1];
      AllSent(rounds[..|rounds| - 1]) + ToAll(last.targets, last.signal)
  }

  /** After these rounds, `targets` are some of those signalled last, all of them alive when that signal
      went out, and nobody alive now is left out. Before any round, all processes take that place. */
  ghost predicate Narrows(targets: seq<int>, alive: set<int>, rounds: seq<Round>, processes: seq<int>,
                          start: set<int>) {
    var n := |rounds|;
    var before := if n == 0 then processes else rounds[n - 1].targets;
    var aliveThen := if n == 0 then start else rounds[n - 1].alive;
    && Sublist(targets, before)
    && (forall p :: p in targets ==> p in aliveThen)
    && (forall p :: p in before && p in alive ==> p in targets)
  }

  /** Rounds of ever harder signals, each to those the round before it left alive. */
  ghost predicate Escalates(rounds: seq<Round>, processes: seq<int>, start: set<int>) {
    rounds == [] ||
    var n := |rounds| - 1;
    && Escalates(rounds[..n], processes, start)
    && n < 3 && rounds[n].signal == ORDER[n] && rounds[n].targets != []
    && Narrows(rounds[n].targets, rounds[n].alive, rounds[..n], processes, start)
  }

  lemma {:induction false} EscalatesSnoc(rounds: seq<Round>, r: Round, processes: seq<int>, start: set<int>)
    requires Escalates(rounds, processes, start) && |rounds| < 3 && r.signal == ORDER[|rounds|] && r.targets != []
    requires Narrows(r.targets, r.alive, rounds, processes, start)
    ensures Escalates(rounds + [r], processes, start)
    ensures AllSent(rounds + [r]) == AllSent(rounds) + ToAll(r.targets, r.signal)
  {
    assert (rounds + [r])[..|rounds|] == rounds;
  }
}
