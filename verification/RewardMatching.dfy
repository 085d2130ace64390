/** `TraceTree.match_rewards`: each reward goes to the latest finished call without one. */
module RewardMatching {
  import opened Basics
  import opened Spans
  import opened Matching
  import opened Sorting

  datatype Policy = FirstOccurrence | FirstSibling

  /** The calls among `events` with their end times, in order. */
  function AssignTo(events: seq<Span>, calls: set<string>): seq<(string, int)> {
    if events == [] then []
    else
      var x := events[|events| - 1];
      AssignTo(events[..|events| - 1], calls) + (if x.id in calls then [(x.id, x.end)] else [])
  }

  predicate Open(p: (string, int), start: int, used: set<string>) {
    p.1 <= start && p.0 !in used
  }

  /** The latest call that has ended by `start` and has no reward yet. */
  function Pick(pending: seq<(string, int)>, start: int, used: set<string>): (r: Option<string>)
    ensures r.None? <==> forall p :: p in pending ==> !Open(p, start, used)
    ensures r.Some? ==> exists k :: 0 <= k < |pending| && pending[k].0 == r.value && Open(pending[k], start, used)
                                    && forall l :: k < l < |pending| ==> !Open(pending[l], start, used)
  {
    if pending == [] then None
    else
      var n := |pending| - 1;
      if Open(pending[n], start, used) then Some(pending[n].0)
      else
        assert pending == pending[..n] + [pending[n]];
        Pick(pending[..n], start, used)
  }

  /** Which call each of the first `n` events rewards, when the calls `done` already have a reward. */
  function PairsUpto(events: seq<Span>, calls: set<string>, done: set<string>, n: nat): Pairs<string>
    requires n <= |events|
  {
    if n == 0 then map[]
    else
      var before := PairsUpto(events, calls, done, n - 1);
      var x := events[n - 1];
      if x.reward.None? then before
      else
        match Pick(AssignTo(events[..n], calls), x.start, done + before.Values)
        case None => before
        case Some(id) => before[n - 1 := id]
  }

  /** The reward at position `j` may go to a call listed no later that has ended by its start. */
  function EligibleCalls(events: seq<Span>, calls: set<string>, done: set<string>): Eligible<string> {
    map j: nat | j < |events| && events[j].reward.Some? ::
      set i | 0 <= i <= j && events[i].id in calls && events[i].end <= events[j].start && events[i].id !in done
        :: events[i].id
  }

  lemma {:induction false} AssignToExact(events: seq<Span>, calls: set<string>)
    ensures forall p :: p in AssignTo(events, calls) <==>
              exists i :: 0 <= i < |events| && events[i].id in calls && p == (events[i].id, events[i].end)
  {
    if events != [] {
      var n := |events| - 1;
      AssignToExact(events[..n], calls);
      assert forall i :: 0 <= i < n ==> events[..n][i] == events[i];
    }
  }

  lemma {:induction false} PairsBelow(events: seq<Span>, calls: set<string>, done: set<string>, n: nat)
    requires n <= |events|
    ensures forall j :: j in PairsUpto(events, calls, done, n) ==> j < n && events[j].reward.Some?
  {
    if n > 0 {
      PairsBelow(events, calls, done, n - 1);
    }
  }

  /** Later events change no earlier pair. */
  lemma {:induction false} PairsKept(events: seq<Span>, calls: set<string>, done: set<string>, j: nat, n: nat)
    requires j <= n <= |events|
    ensures var m := PairsUpto(events, calls, done, n);
            && (forall i :: i in m && i < j ==>
                  i in PairsUpto(events, calls, done, j) && PairsUpto(events, calls, done, j)[i] == m[i])
            && (forall i :: i in PairsUpto(events, calls, done, j) ==> i in m)
            && Used(m, j) == PairsUpto(events, calls, done, j).Values
    decreases n - j
  {
    var a := PairsUpto(events, calls, done, j);
    PairsBelow(events, calls, done, j);
    if j < n {
      PairsKept(events, calls, done, j, n - 1);
      PairsBelow(events, calls, done, n - 1);
    }
  }

  /** The call picked for the reward at position `j`. */
  function PickAt(events: seq<Span>, calls: set<string>, done: set<string>, j: nat): Option<string>
    requires j < |events|
  {
    Pick(AssignTo(events[..j + 1], calls), events[j].start, done + PairsUpto(events, calls, done, j).Values)
  }

  lemma PairAt(events: seq<Span>, calls: set<string>, done: set<string>, j: nat)
    requires j < |events| && events[j].reward.Some?
    ensures var m := PairsUpto(events, calls, done, |events|);
            && (j in m <==> PickAt(events, calls, done, j).Some?)
            && (j in m ==> m[j] == PickAt(events, calls, done, j).value)
  {
    PairsKept(events, calls, done, j + 1, |events|);
    PairsBelow(events, calls, done, j);
  }

  /** What may still be picked at `j` are the eligible calls without a reward. */
  lemma OpenIsEligible(events: seq<Span>, calls: set<string>, done: set<string>, j: nat, taken: set<string>)
    requires j < |events| && events[j].reward.Some?
    ensures forall id :: id in EligibleCalls(events, calls, done)[j] - taken <==>
              exists p :: p in AssignTo(events[..j + 1], calls) && p.0 == id && Open(p, events[j].start, done + taken)
  {
    var front := events[..j + 1];
    AssignToExact(front, calls);
    forall id | id in EligibleCalls(events, calls, done)[j] - taken
      ensures exists p :: p in AssignTo(front, calls) && p.0 == id && Open(p, events[j].start, done + taken)
    {
      var i :| 0 <= i <= j && events[i].id in calls && events[i].end <= events[j].start && events[i].id == id;
      assert front[i] == events[i];
      assert (events[i].id, events[i].end) in AssignTo(front, calls);
    }
    forall p | p in AssignTo(front, calls) && Open(p, events[j].start, done + taken)
      ensures p.0 in EligibleCalls(events, calls, done)[j] - taken
    {
      var i :| 0 <= i < |front| && front[i].id in calls && p == (front[i].id, front[i].end);
      assert front[i] == events[i];
    }
  }

  lemma PairsAreGreedy(events: seq<Span>, calls: set<string>, done: set<string>)
    ensures Greedy(EligibleCalls(events, calls, done), PairsUpto(events, calls, done, |events|))
  {
    var e, m := EligibleCalls(events, calls, done), PairsUpto(events, calls, done, |events|);
    PairsBelow(events, calls, done, |events|);
    forall j: nat | j in e
      ensures if j in m then m[j] in e[j] - Used(m, j) else e[j] <= Used(m, j)
    {
      PairAt(events, calls, done, j);
      PairsKept(events, calls, done, j, |events|);
      PickIsEligible(events, calls, done, j, Used(m, j));
    }
  }

  lemma PickIsEligible(events: seq<Span>, calls: set<string>, done: set<string>, j: nat, taken: set<string>)
    requires j < |events| && events[j].reward.Some?
    ensures var pick := Pick(AssignTo(events[..j + 1], calls), events[j].start, done + taken);
            var rest := EligibleCalls(events, calls, done)[j] - taken;
            if pick.Some? then pick.value in rest else EligibleCalls(events, calls, done)[j] <= taken
  {
    OpenIsEligible(events, calls, done, j, taken);
    var e := EligibleCalls(events, calls, done)[j];
    assert forall id :: id in e && id !in taken ==> id in e - taken;
  }

  /** Reward spans come in the order of their start times. */
  ghost predicate RewardsInOrder(events: seq<Span>) {
    forall i, j :: 0 <= i < j < |events| && events[i].reward.Some? && events[j].reward.Some? ==>
      events[i].start <= events[j].start
  }

  /** If the reward spans come in time order, no assignment of rewards to distinct eligible calls
      has more pairs. */
  lemma OrderedIsMaximum(events: seq<Span>, calls: set<string>, done: set<string>, m: Pairs<string>)
    requires RewardsInOrder(events) && IsMatching(EligibleCalls(events, calls, done), m)
    ensures |m| <= |PairsUpto(events, calls, done, |events|)|
  {
    var e := EligibleCalls(events, calls, done);
    PairsAreGreedy(events, calls, done);
    assert Growing(e) by {
      forall i, j | i in e && j in e && i <= j
        ensures e[i] <= e[j]
      {
      }
    }
    GreedyIsMaximum(e, PairsUpto(events, calls, done, |events|), m);
  }

  // ---- Which call each reward goes to ----

  /** Position `i` has the last of the calls that are over by `start` and not in `taken`. */
  ghost predicate LatestAt(events: seq<Span>, calls: set<string>, start: int, taken: set<string>, i: nat, id: string) {
    && i < |events| && events[i].id == id && id in calls && events[i].end <= start && id !in taken
    && forall k :: i < k < |events| && events[k].id in calls && events[k].end <= start ==> events[k].id in taken
  }

  /** The last call among `events` that is over by `start` and not in `taken`, or none if there is none. */
  ghost predicate IsLatest(events: seq<Span>, calls: set<string>, start: int, taken: set<string>,
                           pick: Option<string>) {
    match pick
    case None =>
      forall k :: 0 <= k < |events| && events[k].id in calls && events[k].end <= start ==> events[k].id in taken
    case Some(id) => exists i :: LatestAt(events, calls, start, taken, i, id)
  }

  /** Each reward takes the latest of the calls listed no later than it that are over by its start and free,
      that is, not among the calls `done` rewarded before, nor taken by an earlier reward of the list. */
  ghost predicate LatestFree(events: seq<Span>, calls: set<string>, done: set<string>, m: Pairs<string>) {
    && (forall j :: j in m ==> j < |events| && events[j].reward.Some?)
    && (forall j :: 0 <= j < |events| && events[j].reward.Some? ==>
          IsLatest(events[..j + 1], calls, events[j].start, done + Used(m, j), if j in m then Some(m[j]) else None))
  }

  lemma PairsAreLatest(events: seq<Span>, calls: set<string>, done: set<string>)
    ensures LatestFree(events, calls, done, PairsUpto(events, calls, done, |events|))
  {
    var m := PairsUpto(events, calls, done, |events|);
    PairsBelow(events, calls, done, |events|);
    forall j | 0 <= j < |events| && events[j].reward.Some?
      ensures IsLatest(events[..j + 1], calls, events[j].start, done + Used(m, j), if j in m then Some(m[j]) else None)
    {
      PairAt(events, calls, done, j);
      PairsKept(events, calls, done, j, |events|);
      PickIsLatest(events[..j + 1], calls, events[j].start, done + Used(m, j));
    }
  }

  /** The pending calls keep the order of the events. */
  lemma {:induction false} PickIsLatest(events: seq<Span>, calls: set<string>, start: int, taken: set<string>)
    ensures IsLatest(events, calls, start, taken, Pick(AssignTo(events, calls), start, taken))
  {
    if events != [] {
      var n := |events| - 1;
      var x, pending := events[n], AssignTo(events[..n], calls);
      PickIsLatest(events[..n], calls, start, taken);
      LatestSnoc(events[..n], x, calls, start, taken, Pick(pending, start, taken));
      assert events == events[..n] + [x];
      assert pending + [] == pending && (pending + [(x.id, x.end)])[..|pending|] == pending;
      assert Pick(AssignTo(events, calls), start, taken) ==
             if x.id in calls && x.end <= start && x.id !in taken then Some(x.id) else Pick(pending, start, taken);
    }
  }

  lemma LatestSnoc(front: seq<Span>, x: Span, calls: set<string>, start: int, taken: set<string>, pick: Option<string>)
    requires IsLatest(front, calls, start, taken, pick)
    ensures IsLatest(front + [x], calls, start, taken,
                     if x.id in calls && x.end <= start && x.id !in taken then Some(x.id) else pick)
  {
    var events := front + [x];
    assert forall k :: 0 <= k < |front| ==> events[k] == front[k];
    if x.id in calls && x.end <= start && x.id !in taken {
      assert LatestAt(events, calls, start, taken, |front|, x.id);
    } else if pick.Some? {
      var i :| LatestAt(front, calls, start, taken, i, pick.value);
      assert LatestAt(events, calls, start, taken, i, pick.value);
    }
  }

  // ---- The dictionary of rewards ----

  type Rewards = map<string, real>

  /** The rewards known after the first `n` events, starting from `acc`. */
  function RewardsUpto(events: seq<Span>, calls: set<string>, acc: Rewards, n: nat): Rewards
    requires n <= |events|
  {
    if n == 0 then acc
    else
      var before := RewardsUpto(events, calls, acc, n - 1);
      var x := events[n - 1];
      if x.reward.None? then before
      else
        match Pick(AssignTo(events[..n], calls), x.start, before.Keys)
        case None => before
        case Some(id) => before[id := x.reward.value]
  }

  /** The dictionary holds what it held before and the value of each matched reward under its call. */
  ghost predicate Records(events: seq<Span>, m: Pairs<string>, acc: Rewards, out: Rewards) {
    && out.Keys == acc.Keys + m.Values
    && (forall id :: id in acc ==> out[id] == acc[id])
    && (forall j :: j in m ==> j < |events| && m[j] in out && events[j].reward == Some(out[m[j]]))
  }

  lemma {:induction false} RewardsRecordPairs(events: seq<Span>, calls: set<string>, acc: Rewards, n: nat)
    requires n <= |events|
    ensures Records(events, PairsUpto(events, calls, acc.Keys, n), acc, RewardsUpto(events, calls, acc, n))
  {
    if n > 0 {
      RewardsRecordPairs(events, calls, acc, n - 1);
      PairsBelow(events, calls, acc.Keys, n - 1);
      var m, x := PairsUpto(events, calls, acc.Keys, n - 1), events[n - 1];
      if x.reward.Some? {
        var pick := Pick(AssignTo(events[..n], calls), x.start, acc.Keys + m.Values);
        if pick.Some? {
          RecordOne(events, m, acc, RewardsUpto(events, calls, acc, n - 1), n - 1, pick.value);
        }
      }
    }
  }

  lemma RecordOne(events: seq<Span>, m: Pairs<string>, acc: Rewards, out: Rewards, j: nat, id: string)
    requires Records(events, m, acc, out) && j < |events| && j !in m && events[j].reward.Some?
    requires id !in acc.Keys + m.Values
    ensures Records(events, m[j := id], acc, out[id := events[j].reward.value])
  {
    var m', out' := m[j := id], out[id := events[j].reward.value];
    assert j in m' && m'[j] == id;
    assert forall i :: i in m ==> i in m' && m'[i] == m[i] && m[i] in m.Values;
    assert m'.Values == m.Values + {id};
  }

  // ---- The method ----

  lemma PickStep(pending: seq<(string, int)>, k: nat, start: int, used: set<string>)
    requires k < |pending|
    ensures Pick(pending[..k + 1], start, used) ==
            if Open(pending[k], start, used) then Some(pending[k].0) else Pick(pending[..k], start, used)
  {
    assert pending[..k + 1][..k] == pending[..k];
  }

  /** The inner loop: the last pending call that has ended and has no reward. */
  method FindOpen(assignTo: seq<(string, int)>, start: int, rewards: Rewards) returns (r: Option<string>)
    ensures r == Pick(assignTo, start, rewards.Keys)
  {
    var k := |assignTo|;
    assert assignTo[..k] == assignTo;
    while k > 0
      invariant 0 <= k <= |assignTo|
      invariant Pick(assignTo[..k], start, rewards.Keys) == Pick(assignTo, start, rewards.Keys)
    {
      k := k - 1;
      PickStep(assignTo, k, start, rewards.Keys);
      if assignTo[k].1 > start {
        continue;
      }
      if assignTo[k].0 in rewards {
        continue;
      }
      return Some(assignTo[k].0);
    }
    r := None;
  }

  lemma AssignStep(events: seq<Span>, calls: set<string>, n: nat)
    requires n < |events|
    ensures AssignTo(events[..n + 1], calls) ==
            if events[n].id in calls then AssignTo(events[..n], calls) + [(events[n].id, events[n].end)]
            else AssignTo(events[..n], calls)
  {
    assert events[..n + 1][..n] == events[..n];
  }

  lemma RewardsStep(events: seq<Span>, calls: set<string>, acc: Rewards, n: nat)
    requires n < |events|
    ensures var before := RewardsUpto(events, calls, acc, n);
            RewardsUpto(events, calls, acc, n + 1) ==
            if events[n].reward.None? then before
            else
              var pick := Pick(AssignTo(events[..n + 1], calls), events[n].start, before.Keys);
              if pick.None? then before else before[pick.value := events[n].reward.value]
  {
  }

  /** The outer loop, over one list of events. */
  method MatchEvents(events: seq<Span>, calls: set<string>, rewards: Rewards) returns (out: Rewards)
    ensures out == RewardsUpto(events, calls, rewards, |events|)
  {
    out := rewards;
    var assignTo: seq<(string, int)> := [];
    for n := 0 to |events|
      invariant assignTo == AssignTo(events[..n], calls)
      invariant out == RewardsUpto(events, calls, rewards, n)
    {
      var item := events[n];
      AssignStep(events, calls, n);
      RewardsStep(events, calls, rewards, n);
      if item.id in calls {
        assignTo := assignTo + [(item.id, item.end)];
      }
      if item.reward.Some? {
        var found := FindOpen(assignTo, item.start, out);
        if found.Some? {
          out := out[found.value := item.reward.value];
        }
      }
    }
  }

  function StartKey(x: Span): Key {
    (x.start, 0)
  }

  /** Every node, parents first. */
  function Nodes(ts: seq<Tree>): seq<Tree>
    decreases ts
  {
    if ts == [] then [] else [ts[0]] + Nodes(ts[0].kids) + Nodes(ts[1..])
  }

  function Siblings(t: Tree): seq<Span> {
    seq(|t.kids|, i requires 0 <= i < |t.kids| => t.kids[i].span)
  }

  /** The children of each node in turn. */
  function SiblingRewards(nodes: seq<Tree>, calls: set<string>, acc: Rewards): Rewards {
    if nodes == [] then acc
    else
      var events := Siblings(nodes[|nodes| - 1]);
      RewardsUpto(events, calls, SiblingRewards(nodes[..|nodes| - 1], calls, acc), |events|)
  }

  function TimeSorted(t: Tree): seq<Span> {
    StableSort(Traverse(t), StartKey)
  }

  function AllRewards(t: Tree, policy: Policy, calls: set<string>): Rewards {
    match policy
    case FirstOccurrence => RewardsUpto(TimeSorted(t), calls, map[], |TimeSorted(t)|)
    case FirstSibling => SiblingRewards(Nodes([t]), calls, map[])
  }

  // ---- What the policies guarantee ----

  lemma TimeSortedInOrder(t: Tree)
    ensures RewardsInOrder(TimeSorted(t)) && multiset(TimeSorted(t)) == multiset(Traverse(t))
  {
    Sorts(Traverse(t), StartKey);
  }

  /** First occurrence gives a maximum matching of rewards to calls that are sorted no later than the
      reward and have ended by its start. */
  lemma FirstOccurrenceIsMaximum(t: Tree, calls: set<string>, m: Pairs<string>)
    requires IsMatching(EligibleCalls(TimeSorted(t), calls, {}), m)
    ensures |m| <= |AllRewards(t, FirstOccurrence, calls)|
  {
    var events := TimeSorted(t);
    TimeSortedInOrder(t);
    OrderedIsMaximum(events, calls, {}, m);
    PairsAreGreedy(events, calls, {});
    GreedyIsMatching(EligibleCalls(events, calls, {}), PairsUpto(events, calls, {}, |events|));
    RewardsRecordPairs(events, calls, map[], |events|);
    ValuesSize(EligibleCalls(events, calls, {}), PairsUpto(events, calls, {}, |events|));
  }

  /** A rewarded call and its reward are siblings, the call listed no later and over by the time the
      reward starts. */
  ghost predicate SiblingPair(t: Tree, id: string, value: real) {
    exists i, j :: 0 <= i <= j < |t.kids| && t.kids[i].span.id == id
                   && t.kids[i].span.end <= t.kids[j].span.start && t.kids[j].span.reward == Some(value)
  }

  lemma {:induction false} FirstSiblingPairsSiblings(nodes: seq<Tree>, calls: set<string>)
    ensures var r := SiblingRewards(nodes, calls, map[]);
            forall id :: id in r ==> id in calls && exists k :: 0 <= k < |nodes| && SiblingPair(nodes[k], id, r[id])
  {
    if nodes != [] {
      var n := |nodes| - 1;
      var before, events := SiblingRewards(nodes[..n], calls, map[]), Siblings(nodes[n]);
      var r := RewardsUpto(events, calls, before, |events|);
      FirstSiblingPairsSiblings(nodes[..n], calls);
      forall id | id in r
        ensures id in calls && exists k :: 0 <= k < |nodes| && SiblingPair(nodes[k], id, r[id])
      {
        RewardedHere(nodes[n], calls, before, id);
        if id in before {
          var k :| 0 <= k < n && SiblingPair(nodes[..n][k], id, before[id]);
          assert SiblingPair(nodes[k], id, r[id]);
        }
      }
    }
  }

  /** What one node's children add to the rewards. */
  lemma RewardedHere(t: Tree, calls: set<string>, before: Rewards, id: string)
    requires id in RewardsUpto(Siblings(t), calls, before, |Siblings(t)|)
    ensures var r := RewardsUpto(Siblings(t), calls, before, |Siblings(t)|);
            if id in before then r[id] == before[id] else id in calls && SiblingPair(t, id, r[id])
  {
    var events := Siblings(t);
    RewardsRecordPairs(events, calls, before, |events|);
    PairsAreGreedy(events, calls, before.Keys);
    var m := PairsUpto(events, calls, before.Keys, |events|);
    if id !in before {
      var j :| j in m && m[j] == id;
      assert id in EligibleCalls(events, calls, before.Keys)[j];
    }
  }
}
